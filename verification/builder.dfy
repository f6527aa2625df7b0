/**
 * The generator's state: the symbol table, the module under construction,
 * the identifier bindings (`namedValues`), the function's blocks, the
 * builder's insertion block and the current break target. The source keeps
 * these in file-scope globals; here they are one record threaded through
 * pure functions.
 */
module Builder {
  import opened Wrappers
  import opened Ast
  import opened IR

  /** The diagnostics the source prints when something is wrong (generation carries on). */
  datatype Diag =
    | Undeclared(name: string)
    | OperandError
    | UnsupportedOp
    | MinusOperandError
    | NoExecBlock
    | ConstAssign(ident: string)

  /**
   * A null value handed to an LLVM builder call that inspects it (load, GEP,
   * negation, store, conditional branch), or a missing statement node that
   * the source dereferences. The source's behaviour is undefined there; the
   * model stops generation.
   */
  datatype Hazard =
    | LoadOfNull
    | GepOnNull
    | NegOfNull
    | StoreOfNull
    | CondBrOnNull
    | MissingStatement

  datatype State = State(
    symbols: seq<Descriptor>,
    unit: ModuleState,
    namedValues: map<string, Value>,
    code: map<BlockId, Block>,
    layout: seq<BlockId>,
    cur: BlockId,
    breakTarget: Option<BlockId>,
    nextBlock: BlockId,
    nextReg: nat,
    diags: seq<Diag>)

  /** The outcome of generating one node: the new state and the (possibly null) value, or a hazard. */
  datatype Gen = Gen(st: State, val: Option<Value>) | Crash(hazard: Hazard)

  /** `namedValues[name]`: the binding, or null. */
  function Lookup(st: State, name: string): (v: Option<Value>)
    ensures v.Some? <==> name in st.namedValues
    ensures v.Some? ==> v.value == st.namedValues[name]
  {
    if name in st.namedValues then Some(st.namedValues[name]) else None
  }

  function Diagnose(st: State, d: Diag): (s: State)
    ensures s == st.(diags := st.diags + [d])
  {
    st.(diags := st.diags + [d])
  }

  /** Appends `i` to the insertion block. */
  function Emit(st: State, i: Instr): (s: State)
    requires st.cur in st.code
  {
    st.(code := st.code[st.cur := st.code[st.cur].(instrs := st.code[st.cur].instrs + [i])])
  }

  /**
   * `BasicBlock::Create`: a fresh, empty block; with a parent it is also
   * appended to the function's block list.
   */
  function NewBlock(st: State, name: Label, attach: bool): (r: (State, BlockId))
  {
    var id := st.nextBlock;
    (st.(code := st.code[id := Block(name, [])], layout := if attach then st.layout + [id] else st.layout, nextBlock := id + 1), id)
  }

  /** `getBasicBlockList().push_back`: attaches a detached block at the end of the function. */
  function AppendBlock(st: State, id: BlockId): (s: State)
    ensures s == st.(layout := st.layout + [id])
  {
    st.(layout := st.layout + [id])
  }

  function SetInsertPoint(st: State, id: BlockId): (s: State)
    ensures s == st.(cur := id)
  {
    st.(cur := id)
  }

  /**
   * The builder's structural invariant: the insertion block is the last block
   * of the function, every attached block exists and is attached once, block
   * identities are below the counter, the break target (if any) is a created
   * block, and no external function is declared twice.
   */
  ghost predicate Valid(st: State) {
    && |st.layout| > 0
    && st.cur == st.layout[|st.layout| - 1]
    && (forall i :: 0 <= i < |st.layout| ==> st.layout[i] in st.code)
    && (forall i, j :: 0 <= i < j < |st.layout| ==> st.layout[i] != st.layout[j])
    && (forall id :: id in st.code ==> id < st.nextBlock)
    && (st.breakTarget.Some? ==> st.breakTarget.value in st.code)
    && NoDup(st.unit.decls)
  }

  /** The instructions appended to `st`'s insertion block on the way to `s`. */
  function Emitted(st: State, s: State): seq<Instr>
    requires st.cur in st.code && st.cur in s.code
    requires |st.code[st.cur].instrs| <= |s.code[st.cur].instrs|
  {
    s.code[st.cur].instrs[|st.code[st.cur].instrs|..]
  }

  /**
   * What lowering an expression may change: it appends non-terminator
   * instructions to the insertion block, takes registers and records
   * diagnostics, and touches nothing else.
   */
  ghost predicate ExprStep(st: State, s: State) {
    && st.cur in st.code
    && st.cur in s.code
    && s.code == st.code[st.cur := s.code[st.cur]]
    && s == st.(code := s.code, nextReg := s.nextReg, diags := s.diags)
    && s.code[st.cur].name == st.code[st.cur].name
    && st.code[st.cur].instrs <= s.code[st.cur].instrs
    && NoTerminator(Emitted(st, s))
    && st.nextReg <= s.nextReg
    && st.diags <= s.diags
  }

  lemma ExprStepRefl(st: State)
    requires st.cur in st.code
    ensures ExprStep(st, st)
  {
    assert Emitted(st, st) == [];
  }

  lemma ExprStepTrans(s0: State, s1: State, s2: State)
    requires ExprStep(s0, s1) && ExprStep(s1, s2)
    ensures ExprStep(s0, s2)
    ensures Emitted(s0, s2) == Emitted(s0, s1) + Emitted(s1, s2)
  {
    var a := s0.code[s0.cur].instrs;
    var b := s1.code[s0.cur].instrs;
    var c := s2.code[s0.cur].instrs;
    assert c[|a|..] == b[|a|..] + c[|b|..];
  }

  /**
   * How the builder state may evolve while code is generated: new blocks are
   * appended after the existing ones, the entry insertion block only grows,
   * every other existing block is untouched, and the bindings, symbols and
   * globals are as before.
   */
  ghost predicate Grows(st: State, s: State) {
    && st.cur in st.code
    && s.symbols == st.symbols
    && s.namedValues == st.namedValues
    && s.unit.globals == st.unit.globals
    && st.unit.strings <= s.unit.strings
    && st.unit.decls <= s.unit.decls
    && st.layout <= s.layout
    && st.nextBlock <= s.nextBlock
    && st.nextReg <= s.nextReg
    && st.diags <= s.diags
    && st.code.Keys <= s.code.Keys
    && (forall id :: id in st.code && id != st.cur ==> s.code[id] == st.code[id])
    && s.code[st.cur].name == st.code[st.cur].name
    && st.code[st.cur].instrs <= s.code[st.cur].instrs
    && (forall i :: |st.layout| <= i < |s.layout| ==> st.nextBlock <= s.layout[i])
  }

  /** What lowering a statement may change: it grows the state and leaves the break target as it was. */
  ghost predicate StmtStep(st: State, s: State) {
    Grows(st, s) && s.breakTarget == st.breakTarget
  }

  lemma ExprStepIsStmtStep(st: State, s: State)
    requires ExprStep(st, s)
    ensures StmtStep(st, s)
  {
  }

  lemma ExprStepValid(st: State, s: State)
    requires Valid(st) && ExprStep(st, s)
    ensures Valid(s) && StmtStep(st, s)
  {
  }

  /** After growing, the insertion block is the old one or a block created since. */
  lemma CurrentIsOldOrFresh(s0: State, s1: State)
    requires Valid(s0) && Valid(s1) && Grows(s0, s1)
    ensures s1.cur == s0.cur || s0.nextBlock <= s1.cur
  {
    if |s1.layout| == |s0.layout| {
      assert s1.layout == s0.layout;
    } else {
      assert s0.nextBlock <= s1.layout[|s1.layout| - 1];
    }
  }

  lemma GrowsTrans(s0: State, s1: State, s2: State)
    requires Valid(s0) && Valid(s1)
    requires Grows(s0, s1) && Grows(s1, s2)
    ensures Grows(s0, s2)
  {
    CurrentIsOldOrFresh(s0, s1);
  }

  lemma StmtStepTrans(s0: State, s1: State, s2: State)
    requires Valid(s0) && Valid(s1)
    requires StmtStep(s0, s1) && StmtStep(s1, s2)
    ensures StmtStep(s0, s2)
  {
    GrowsTrans(s0, s1, s2);
  }

  /** `id` is not attached. */
  ghost predicate Avoids(layout: seq<BlockId>, id: BlockId) {
    forall i :: 0 <= i < |layout| ==> layout[i] != id
  }

  /** A block created before a step and not attached stays unattached unless the step attaches it. */
  lemma AvoidsKept(s0: State, s1: State, id: BlockId)
    requires Grows(s0, s1) && Avoids(s0.layout, id) && id < s0.nextBlock
    ensures Avoids(s1.layout, id)
  {
    forall i | 0 <= i < |s1.layout|
      ensures s1.layout[i] != id
    {
      if i < |s0.layout| {
        assert s1.layout[i] == s0.layout[i];
      }
    }
  }

  /** Attaches a detached block at the end of the function and makes it the insertion block. */
  function SwitchTo(st: State, id: BlockId): (s: State)
    ensures s == st.(layout := st.layout + [id], cur := id)
  {
    SetInsertPoint(AppendBlock(st, id), id)
  }

  lemma EmitGrows(st: State, s0: State, i: Instr)
    requires Valid(st) && Valid(s0) && Grows(st, s0)
    ensures Valid(Emit(s0, i)) && Grows(st, Emit(s0, i))
  {
    CurrentIsOldOrFresh(st, s0);
  }

  lemma SwitchGrows(st: State, s0: State, id: BlockId)
    requires Valid(st) && Valid(s0) && Grows(st, s0)
    requires id in s0.code && Avoids(s0.layout, id) && st.nextBlock <= id
    ensures Valid(SwitchTo(s0, id)) && Grows(st, SwitchTo(s0, id))
  {
    var s := SwitchTo(s0, id);
    assert forall i :: 0 <= i < |s0.layout| ==> s.layout[i] == s0.layout[i];
  }

  /** Closing the insertion block with `i` and continuing in the unattached block `id`. */
  lemma EmitSwitchGrows(base: State, u: State, i: Instr, id: BlockId)
    requires Valid(base) && Valid(u) && Grows(base, u)
    requires id in u.code && Avoids(u.layout, id) && base.nextBlock <= id
    ensures Valid(SwitchTo(Emit(u, i), id)) && Grows(base, SwitchTo(Emit(u, i), id))
    ensures SwitchTo(Emit(u, i), id).layout == u.layout + [id]
  {
    EmitGrows(base, u, i);
    SwitchGrows(base, Emit(u, i), id);
  }

  lemma AvoidsAppend(layout: seq<BlockId>, id: BlockId, other: BlockId)
    requires Avoids(layout, other) && id != other
    ensures Avoids(layout + [id], other)
  {
  }
}
