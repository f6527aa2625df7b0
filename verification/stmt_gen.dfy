/**
 * Lowering of statements: assignment, read, write, `If`, `While`, `Break`
 * and statement lists, threading the insertion block and the break target
 * through the state.
 */
module StmtGen {
  import opened Wrappers
  import opened Ast
  import opened IR
  import opened Builder
  import opened ExprGen

  /** The scanf / printf format strings of `Read` and `Write`. */
  const ScanFormat: string := "%d"
  const PrintFormat: string := "%d\n"

  /** What a statement lowering needs of its entry state and keeps for its exit state. */
  ghost predicate Keeps(st: State, g: Gen)
    requires st.cur in st.code
  {
    g.Gen? ==> g.st.cur in g.st.code && st.code.Keys <= g.st.code.Keys
  }

  /** `GenerateIR` of a statement node. */
  function GenStmt(st: State, s: Stmt): (g: Gen)
    requires st.cur in st.code
    ensures Keeps(st, g)
    decreases s, 2, 0
  {
    match s
    case Assign(_, _) => GenAssign(st, s)
    case Read(target) => GenRead(st, target)
    case Write(value) => GenWrite(st, value)
    case If(_, _, _) => GenIf(st, s)
    case While(_, _) => GenWhile(st, s)
    case Break => GenBreak(st)
    case StatmList(_, _) => GenList(st, s)
  }

  /**
   * The lowering of a statement nested in another: `GenStmt` of the child.
   * `Nested` and `Child` add nothing to the lowering. They exist for the
   * verifier. They belong to the same recursive group as `GenStmt`, so each
   * forwarding level uses up one step of the limited unfolding Dafny applies
   * to recursive functions. A proof about an `If` or `While` then sees its
   * children only through their contracts (`Keeps`, and the lemmas about
   * `GenStmt`) and never unfolds the children's own lowering.
   */
  function Nested(st: State, child: Stmt): (g: Gen)
    requires st.cur in st.code
    ensures Keeps(st, g)
    decreases child, 4
  {
    Child(st, child)
  }

  /** The second forwarding level of `Nested`. */
  function Child(st: State, child: Stmt): (g: Gen)
    requires st.cur in st.code
    ensures Keeps(st, g)
    decreases child, 3
  {
    GenStmt(st, child)
  }

  /**
   * `Assign::GenerateIR`: a CONST target is reported and the store is
   * emitted anyway; the value is lowered before the target's address.
   */
  function GenAssign(st: State, s: Stmt): (g: Gen)
    requires st.cur in st.code && s.Assign?
    ensures g.Gen? ==> ExprStep(st, g.st)
  {
    var ident := s.target.name;
    var s0 := if KindOf(st.symbols, ident) == Some(CONST) then Diagnose(st, ConstAssign(ident)) else st;
    ExprStepTrans(st, st, s0);
    var ge := GenExpr(s0, s.value);
    if ge.Crash? then ge
    else
      var gv := GenVar(ge.st, s.target);
      if gv.Crash? then gv
      else if ge.val.None? || gv.val.None? then Crash(StoreOfNull)
      else
        var g := EmitDef(gv.st, Store(gv.st.nextReg, ge.val.value, gv.val.value));
        ExprStepTrans(st, s0, ge.st);
        ExprStepTrans(st, ge.st, gv.st);
        ExprStepTrans(st, gv.st, g.st);
        g
  }

  /**
   * A call of an external variadic function with a fresh global format
   * string and one argument; the function is declared only if absent.
   */
  function EmitFormattedCall(st: State, callee: string, format: string, arg: Value): (g: Gen)
    requires st.cur in st.code
    ensures g.Gen? && g.st.cur == st.cur && g.st.code.Keys == st.code.Keys
  {
    var k := |st.unit.strings|;
    var m := st.unit.(strings := st.unit.strings + [format], decls := Declare(st.unit.decls, callee));
    EmitDef(st.(unit := m), Call(st.nextReg, callee, [StrPtr(k), arg]))
  }

  /**
   * The operand a call is built with: the value, or `Null` when there is
   * none. printf and scanf take their argument in the variadic part, whose
   * operands LLVM does not inspect when the call is built.
   */
  function ArgOf(v: Option<Value>): (a: Value)
    ensures a == Null <==> v.None? || v == Some(Null)
  {
    if v.Some? then v.value else Null
  }

  /** `Read::GenerateIR`: the target's address (null if it has none) is passed to scanf with format "%d". */
  function GenRead(st: State, target: VarNode): (g: Gen)
    requires st.cur in st.code
    ensures Keeps(st, g)
  {
    var gv := GenVar(st, target);
    if gv.Crash? then gv
    else EmitFormattedCall(gv.st, "scanf", ScanFormat, ArgOf(gv.val))
  }

  /** `Write::GenerateIR`: the value (null if it has none) is passed to printf with format "%d\n". */
  function GenWrite(st: State, value: Expr): (g: Gen)
    requires st.cur in st.code
    ensures Keeps(st, g)
  {
    var ge := GenExpr(st, value);
    if ge.Crash? then ge
    else EmitFormattedCall(ge.st, "printf", PrintFormat, ArgOf(ge.val))
  }

  /**
   * `If::GenerateIR`. The then-block is created inside the function, the
   * else- and join-blocks detached; each branch's final insertion block
   * jumps to the join block, which becomes the insertion block. A null
   * condition ends the statement without creating any block.
   */
  function GenIf(st: State, s: Stmt): (g: Gen)
    requires st.cur in st.code && s.If?
    ensures Keeps(st, g)
    decreases s, 1, 0
  {
    var gc := GenExpr(st, s.cond);
    if gc.Crash? then gc
    else if gc.val.None? then Gen(gc.st, None)
    else IfBranches(gc.st, gc.val.value, s)
  }

  /** The blocks and branches of an `If` whose condition was lowered to `st` with value `c`. */
  function IfBranches(st: State, c: Value, s: Stmt): (g: Gen)
    requires st.cur in st.code && s.If?
    ensures Keeps(st, g)
    decreases s, 0, 2
  {
    IfThen(IfOpen(st, c), s, st.nextBlock + 1, st.nextBlock + 2)
  }

  /** The three blocks of an `If`, and the conditional branch into the then-block. */
  function IfOpen(st: State, c: Value): (s: State)
    requires st.cur in st.code
    ensures s.cur in s.code && s.cur == st.nextBlock && s.nextBlock == st.nextBlock + 3
    ensures st.code.Keys <= s.code.Keys && st.nextBlock + 1 in s.code && st.nextBlock + 2 in s.code
  {
    var (s1, thenB) := NewBlock(st, Then, true);
    var (s2, elseB) := NewBlock(s1, Else, false);
    var (s3, joinB) := NewBlock(s2, IfCont, false);
    SetInsertPoint(Emit(s3, CondBr(c, thenB, elseB)), thenB)
  }

  /** The then-branch of an `If`, lowered from `st` = `IfOpen(...)`. */
  function IfThen(st: State, s: Stmt, elseB: BlockId, joinB: BlockId): (g: Gen)
    requires st.cur in st.code && s.If? && elseB in st.code && joinB in st.code
    ensures Keeps(st, g)
    decreases s, 0, 1
  {
    var gt := Nested(st, s.thenBranch);
    if gt.Crash? then gt
    else IfElse(gt.st, s, elseB, joinB)
  }

  /** The else-branch of an `If`, from the end of its then-branch, and the join. */
  function IfElse(st: State, s: Stmt, elseB: BlockId, joinB: BlockId): (g: Gen)
    requires st.cur in st.code && s.If? && elseB in st.code && joinB in st.code
    ensures Keeps(st, g)
    decreases s, 0, 0
  {
    var s5 := SwitchTo(Emit(st, Br(joinB)), elseB);
    var ge := if s.elseBranch.Some? then Nested(s5, s.elseBranch.value) else Gen(s5, None);
    if ge.Crash? then ge
    else Gen(SwitchTo(Emit(ge.st, Br(joinB)), joinB), Some(BlockRef(joinB)))
  }

  /**
   * `While::GenerateIR`. The loop's after-block is the break target while
   * the body is lowered; the condition is lowered again for the back edge;
   * the previous break target is restored at the end.
   */
  function GenWhile(st: State, s: Stmt): (g: Gen)
    requires st.cur in st.code && s.While?
    ensures Keeps(st, g)
    decreases s, 1, 0
  {
    var gc := GenExpr(st, s.cond);
    if gc.Crash? then gc
    else if gc.val.None? then Gen(gc.st, None)
    else WhileLoop(gc.st, gc.val.value, s)
  }

  /** The blocks, body and back edge of a `While` whose condition was lowered to `st` with value `c`. */
  function WhileLoop(st: State, c: Value, s: Stmt): (g: Gen)
    requires st.cur in st.code && s.While?
    ensures Keeps(st, g)
    decreases s, 0, 2
  {
    WhileBody(WhileOpen(st, c), s, st.nextBlock, st.nextBlock + 1, st.breakTarget)
  }

  /** The two blocks of a `While`, the entry branch, and the break target set to the after-block. */
  function WhileOpen(st: State, c: Value): (s: State)
    requires st.cur in st.code
    ensures s.cur in s.code && s.cur == st.nextBlock && s.nextBlock == st.nextBlock + 2
    ensures st.code.Keys <= s.code.Keys && st.nextBlock + 1 in s.code
    ensures s.breakTarget == Some(st.nextBlock + 1)
  {
    var (s1, loopB) := NewBlock(st, Loop, true);
    var (s2, afterB) := NewBlock(s1, After, false);
    SetInsertPoint(Emit(s2.(breakTarget := Some(afterB)), CondBr(c, loopB, afterB)), loopB)
  }

  /** The body of a `While`, lowered from `st` = `WhileOpen(...)`, and the back edge. */
  function WhileBody(st: State, s: Stmt, loopB: BlockId, afterB: BlockId, prevTarget: Option<BlockId>): (g: Gen)
    requires st.cur in st.code && s.While? && afterB in st.code
    ensures Keeps(st, g)
    decreases s, 0, 1
  {
    var gb := Nested(st, s.body);
    if gb.Crash? then gb
    else WhileBack(gb.st, s, loopB, afterB, prevTarget)
  }

  /** The back edge: the condition again, the conditional branch, and the after-block. */
  function WhileBack(st: State, s: Stmt, loopB: BlockId, afterB: BlockId, prevTarget: Option<BlockId>): (g: Gen)
    requires st.cur in st.code && s.While? && afterB in st.code
    ensures Keeps(st, g)
    decreases s, 0, 0
  {
    var gc2 := GenExpr(st, s.cond);
    if gc2.Crash? then gc2
    else if gc2.val.None? then Crash(CondBrOnNull)
    else
      var s4 := SwitchTo(Emit(gc2.st, CondBr(gc2.val.value, loopB, afterB)), afterB);
      Gen(s4.(breakTarget := prevTarget), None)
  }

  /**
   * `Break::GenerateIR`: a jump to a fresh break block, which jumps to the
   * break target only when there is one, and a fresh block after it.
   */
  function GenBreak(st: State): (g: Gen)
    requires st.cur in st.code
    ensures Keeps(st, g)
  {
    var (s1, breakB) := NewBlock(st, BreakBlock, true);
    var (s2, aftB) := NewBlock(s1, AftBreak, false);
    var s3 := SetInsertPoint(Emit(s2, Br(breakB)), breakB);
    var s4 := if s3.breakTarget.Some? then Emit(s3, Br(s3.breakTarget.value)) else s3;
    Gen(SwitchTo(s4, aftB), None)
  }

  /**
   * `StatmList::GenerateIR`: nothing when the first node has no statement;
   * otherwise every node's statement in order, and the i32 zero constant.
   */
  function GenList(st: State, s: Stmt): (g: Gen)
    requires st.cur in st.code && s.StatmList?
    ensures Keeps(st, g)
    decreases s, 1, 0
  {
    if s.head.None? then Gen(Diagnose(st, NoExecBlock), None)
    else
      var g1 := Nested(st, s.head.value);
      if g1.Crash? then g1
      else
        var g2 := GenTail(g1.st, s, 0);
        if g2.Crash? then g2
        else Gen(g2.st, Some(ConstInt(0)))
  }

  /**
   * The nodes after the first, from index `i`: a node before the last one
   * is lowered unconditionally (a missing statement there is dereferenced),
   * the last one only when present.
   */
  function GenTail(st: State, s: Stmt, i: nat): (g: Gen)
    requires st.cur in st.code && s.StatmList? && i <= |s.tail|
    ensures Keeps(st, g)
    decreases s, 0, |s.tail| - i
  {
    if i == |s.tail| then Gen(st, None)
    else if s.tail[i].None? then
      if i == |s.tail| - 1 then Gen(st, None) else Crash(MissingStatement)
    else
      var g := Nested(st, s.tail[i].value);
      if g.Crash? then g
      else GenTail(g.st, s, i + 1)
  }
}
