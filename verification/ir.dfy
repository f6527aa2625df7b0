/**
 * Abstract LLVM IR records: the values, instructions, blocks, globals and
 * external declarations the code generator produces. LLVM types, alignment,
 * linkage and value names are not represented.
 */
module IR {
  import opened Wrappers

  /** A basic block's identity; blocks are numbered in creation order. */
  type BlockId = nat

  /**
   * The name a block is created with. The lowerings create only the other
   * labels; `Entry` is for the block the driver creates before lowering
   * starts, which is the insertion block of an initial state.
   */
  datatype Label = Entry | Then | Else | IfCont | Loop | After | BreakBlock | AftBreak

  /**
   * An IR value: an i32 constant, an instruction's result, a global's
   * address, a format string, a block, or the null operand a call is built
   * with when its argument's lowering yielded no value.
   */
  datatype Value =
    | ConstInt(n: int)
    | Reg(id: nat)
    | GlobalRef(index: nat)
    | StrPtr(index: nat)
    | BlockRef(block: BlockId)
    | Null

  /** Arithmetic, signed comparison and bitwise instruction kinds. */
  datatype ArithKind =
    | Add | Sub | Mul | SDiv | SRem
    | ICmpSLT | ICmpSLE | ICmpSGT | ICmpSGE | ICmpEQ | ICmpNE
    | BitOr | BitAnd

  /** Instructions; every non-branch instruction defines the register `dst`. */
  datatype Instr =
    | Load(dst: nat, addr: Value)
    | Gep(dst: nat, base: Value, indices: seq<Value>)
    | Arith(dst: nat, kind: ArithKind, lhs: Value, rhs: Value)
    | Neg(dst: nat, operand: Value)
    | Store(dst: nat, val: Value, addr: Value)
    | Call(dst: nat, callee: string, args: seq<Value>)
    | CondBr(cond: Value, ifTrue: BlockId, ifFalse: BlockId)
    | Br(target: BlockId)
  {
    predicate IsTerminator() {
      CondBr? || Br?
    }
  }

  /** An instruction with its operands erased. */
  datatype Opcode = OpLoad | OpGep | OpArith(kind: ArithKind) | OpNeg | OpStore | OpCall(callee: string) | OpCondBr | OpBr

  function OpcodeOf(i: Instr): (op: Opcode)
    ensures op == OpCondBr || op == OpBr <==> i.IsTerminator()
  {
    match i
    case Load(_, _) => OpLoad
    case Gep(_, _, _) => OpGep
    case Arith(_, k, _, _) => OpArith(k)
    case Neg(_, _) => OpNeg
    case Store(_, _, _) => OpStore
    case Call(_, f, _) => OpCall(f)
    case CondBr(_, _, _) => OpCondBr
    case Br(_) => OpBr
  }

  function Opcodes(body: seq<Instr>): (ops: seq<Opcode>)
    ensures |ops| == |body|
    ensures forall k :: 0 <= k < |body| ==> ops[k] == OpcodeOf(body[k])
  {
    seq(|body|, k requires 0 <= k < |body| => OpcodeOf(body[k]))
  }

  lemma OpcodesConcat(a: seq<Instr>, b: seq<Instr>)
    ensures Opcodes(a + b) == Opcodes(a) + Opcodes(b)
  {
    assert forall k :: 0 <= k < |a + b| ==> Opcodes(a + b)[k] == (Opcodes(a) + Opcodes(b))[k] by {
      forall k | 0 <= k < |a + b|
        ensures Opcodes(a + b)[k] == (Opcodes(a) + Opcodes(b))[k]
      {
        if k < |a| {
          assert (a + b)[k] == a[k];
        } else {
          assert (a + b)[k] == b[k - |a|];
        }
      }
    }
  }

  /** No instruction of `body` is a terminator. */
  predicate NoTerminator(body: seq<Instr>) {
    forall k :: 0 <= k < |body| ==> !body[k].IsTerminator()
  }

  /** A basic block: its creation label and its instructions in order. */
  datatype Block = Block(name: Label, instrs: seq<Instr>)

  /** The block's last instruction is `i`. */
  predicate EndsWith(b: Block, i: Instr) {
    |b.instrs| > 0 && b.instrs[|b.instrs| - 1] == i
  }

  /** The block's last instruction is a conditional branch to `ifTrue` or `ifFalse`. */
  predicate EndsWithCondBr(b: Block, ifTrue: BlockId, ifFalse: BlockId) {
    && |b.instrs| > 0
    && b.instrs[|b.instrs| - 1].CondBr?
    && b.instrs[|b.instrs| - 1].ifTrue == ifTrue
    && b.instrs[|b.instrs| - 1].ifFalse == ifFalse
  }

  /** The block's last instructions are of the kinds `ops`, in order. */
  predicate EndsWithOps(b: Block, ops: seq<Opcode>) {
    |ops| <= |b.instrs| && Opcodes(b.instrs[|b.instrs| - |ops|..]) == ops
  }

  datatype GlobalType = I32 | ArrayOfI32(length: nat)
  datatype Initializer = IntInit(value: int) | ZeroInit

  /** A global variable record. */
  datatype Global = Global(name: string, isConstant: bool, ty: GlobalType, init: Initializer)

  /** The module's contents the generator touches: globals, format strings, external declarations. */
  datatype ModuleState = ModuleState(globals: seq<Global>, strings: seq<string>, decls: seq<string>)

  predicate NoDup<T(==)>(s: seq<T>) {
    forall i, j :: 0 <= i < j < |s| ==> s[i] != s[j]
  }

  /** The module's global lookup by name: the first global declared under that name. */
  function FirstNamed(gs: seq<Global>, name: string): (r: Option<nat>)
    ensures r.None? <==> forall j :: 0 <= j < |gs| ==> gs[j].name != name
    ensures r.Some? ==> r.value < |gs| && gs[r.value].name == name
    ensures r.Some? ==> forall j :: 0 <= j < r.value ==> gs[j].name != name
  {
    if |gs| == 0 then None
    else if gs[0].name == name then Some(0)
    else
      match FirstNamed(gs[1..], name)
      case None => None
      case Some(k) => Some(k + 1)
  }

  /** Extending the global list does not change which global a present name resolves to. */
  lemma FirstNamedExtend(gs: seq<Global>, more: seq<Global>, name: string)
    requires FirstNamed(gs, name).Some?
    ensures FirstNamed(gs + more, name) == FirstNamed(gs, name)
  {
    var k := FirstNamed(gs, name).value;
    var r := FirstNamed(gs + more, name);
    assert (gs + more)[k] == gs[k];
    assert forall j :: 0 <= j < k ==> (gs + more)[j] == gs[j];
  }

  /** Declares an external function unless one of that name is already declared. */
  function Declare(decls: seq<string>, name: string): (r: seq<string>)
    ensures name in r
    ensures decls <= r && |r| <= |decls| + 1
    ensures name in decls ==> r == decls
    ensures NoDup(decls) ==> NoDup(r)
    ensures forall f :: f in r ==> f in decls || f == name
  {
    if name in decls then decls else decls + [name]
  }

  /** Declaring twice is declaring once. */
  lemma DeclareIdempotent(decls: seq<string>, name: string)
    ensures Declare(Declare(decls, name), name) == Declare(decls, name)
  {
  }
}
