/**
 * Lowering of expressions (`Numb`, `Var`, `VarArray`, `BinOp`,
 * `UnaryMinus`) into instructions appended to the insertion block.
 */
module ExprGen {
  import opened Wrappers
  import opened Ast
  import opened IR
  import opened Builder

  /** The instruction kind an operator token lowers to; `None` for a token with no lowering. */
  function ArithOf(op: Op): (k: Option<ArithKind>)
    ensures k.None? <==> op.Other?
    ensures op == Plus ==> k == Some(Add)
    ensures op == Minus ==> k == Some(Sub)
    ensures op == Multiply ==> k == Some(Mul)
    ensures op == Divide ==> k == Some(SDiv)
    ensures op == Mod ==> k == Some(SRem)
    ensures op == Less ==> k == Some(ICmpSLT)
    ensures op == LessOrEq ==> k == Some(ICmpSLE)
    ensures op == Greater ==> k == Some(ICmpSGT)
    ensures op == GreaterOrEq ==> k == Some(ICmpSGE)
    ensures op == Eq ==> k == Some(ICmpEQ)
    ensures op == NotEq ==> k == Some(ICmpNE)
    ensures op == Or ==> k == Some(BitOr)
    ensures op == And ==> k == Some(BitAnd)
  {
    match op
    case Plus => Some(Add)
    case Minus => Some(Sub)
    case Multiply => Some(Mul)
    case Divide => Some(SDiv)
    case Less => Some(ICmpSLT)
    case LessOrEq => Some(ICmpSLE)
    case Greater => Some(ICmpSGT)
    case GreaterOrEq => Some(ICmpSGE)
    case Eq => Some(ICmpEQ)
    case NotEq => Some(ICmpNE)
    case Or => Some(BitOr)
    case And => Some(BitAnd)
    case Mod => Some(SRem)
    case Other(_) => None
  }

  /** No two supported operators lower to the same instruction kind. */
  lemma ArithOfInjective(a: Op, b: Op)
    requires ArithOf(a).Some? && ArithOf(a) == ArithOf(b)
    ensures a == b
  {
  }

  /** Appends a value-defining instruction whose result register is the next free one. */
  function EmitDef(st: State, i: Instr): (g: Gen)
    requires st.cur in st.code && !i.IsTerminator()
    ensures g.Gen? && g.val == Some(Reg(st.nextReg))
    ensures ExprStep(st, g.st) && Emitted(st, g.st) == [i]
    ensures g.st.nextReg == st.nextReg + 1 && g.st.diags == st.diags
  {
    var s := Emit(st.(nextReg := st.nextReg + 1), i);
    assert Emitted(st, s) == [i];
    Gen(s, Some(Reg(st.nextReg)))
  }

  /** `GenerateIR` of an expression node. */
  function GenExpr(st: State, e: Expr): (g: Gen)
    requires st.cur in st.code
    ensures g.Gen? ==> ExprStep(st, g.st)
    decreases e, 1
  {
    match e
    case Numb(v) =>
      ExprStepRefl(st);
      Gen(st, Some(ConstInt(v)))
    case Ref(n) => GenVar(st, n)
    case BinOp(_, _, _) => GenBinOp(st, e)
    case UnaryMinus(_) => GenUnaryMinusAsWritten(st, e)
  }

  /** `BinOp::GenerateIR`: left operand, right operand, then the operator's instruction. */
  function GenBinOp(st: State, e: Expr): (g: Gen)
    requires st.cur in st.code && e.BinOp?
    ensures g.Gen? ==> ExprStep(st, g.st)
    decreases e, 0
  {
    var gl := GenExpr(st, e.left);
    if gl.Crash? then gl
    else
      var gr := GenExpr(gl.st, e.right);
      if gr.Crash? then gr
      else
        ExprStepTrans(st, gl.st, gr.st);
        if gl.val.None? || gr.val.None? then
          var s := Diagnose(gr.st, OperandError);
          ExprStepTrans(st, gr.st, s);
          Gen(s, None)
        else if ArithOf(e.op).None? then
          var s := Diagnose(gr.st, UnsupportedOp);
          ExprStepTrans(st, gr.st, s);
          Gen(s, None)
        else
          var g := EmitDef(gr.st, Arith(gr.st.nextReg, ArithOf(e.op).value, gl.val.value, gr.val.value));
          ExprStepTrans(st, gr.st, g.st);
          g
  }

  /**
   * `UnaryMinus::GenerateIR` as its author evidently meant it: the operand is
   * lowered once; a null operand is reported and makes the result null;
   * otherwise the operand's value is negated. `GenExpr` lowers negation as
   * written instead (`GenUnaryMinusAsWritten`).
   */
  function GenUnaryMinus(st: State, e: Expr): (g: Gen)
    requires st.cur in st.code && e.UnaryMinus?
    ensures g.Gen? ==> ExprStep(st, g.st)
  {
    var g1 := GenExpr(st, e.operand);
    if g1.Crash? then g1
    else if g1.val.None? then
      var s1 := Diagnose(g1.st, MinusOperandError);
      ExprStepTrans(st, g1.st, s1);
      Gen(s1, None)
    else
      var g := EmitDef(g1.st, Neg(g1.st.nextReg, g1.val.value));
      ExprStepTrans(st, g1.st, g.st);
      g
  }

  /**
   * `UnaryMinus::GenerateIR` as written: the operand is lowered and reported
   * if null, and then lowered a second time for the negation, whose null
   * operand is handed to the builder.
   */
  function GenUnaryMinusAsWritten(st: State, e: Expr): (g: Gen)
    requires st.cur in st.code && e.UnaryMinus?
    ensures g.Gen? ==> ExprStep(st, g.st)
    decreases e, 0
  {
    var g1 := GenExpr(st, e.operand);
    if g1.Crash? then g1
    else
      var s1 := if g1.val.None? then Diagnose(g1.st, MinusOperandError) else g1.st;
      ExprStepTrans(st, g1.st, s1);
      var g2 := GenExpr(s1, e.operand);
      if g2.Crash? then g2
      else if g2.val.None? then Crash(NegOfNull)
      else
        var g := EmitDef(g2.st, Neg(g2.st.nextReg, g2.val.value));
        ExprStepTrans(st, s1, g2.st);
        ExprStepTrans(st, g2.st, g.st);
        g
  }

  /** `Var::GenerateIR` and `VarArray::GenerateIR`. */
  function GenVar(st: State, n: VarNode): (g: Gen)
    requires st.cur in st.code
    ensures g.Gen? ==> ExprStep(st, g.st)
    decreases n, 1
  {
    match n
    case Var(name, rvalue) => GenScalar(st, name, rvalue)
    case VarArray(_, _, _) => GenElement(st, n)
  }

  /** A scalar reference: the binding itself as an address, or one load from it as a value. */
  function GenScalar(st: State, name: string, rvalue: bool): (g: Gen)
    requires st.cur in st.code
    ensures g.Gen? ==> ExprStep(st, g.st)
  {
    var s := if name in st.namedValues then st else Diagnose(st, Undeclared(name));
    ExprStepTrans(st, st, s);
    if !rvalue then Gen(s, Lookup(st, name))
    else if name !in st.namedValues then Crash(LoadOfNull)
    else EmitDef(s, Load(s.nextReg, st.namedValues[name]))
  }

  /** An array element: the index, the element address from indices `[0, index]`, and a load as a value. */
  function GenElement(st: State, n: VarNode): (g: Gen)
    requires st.cur in st.code && n.VarArray?
    ensures g.Gen? ==> ExprStep(st, g.st)
    decreases n, 0
  {
    var gi := GenExpr(st, n.index);
    if gi.Crash? then gi
    else if n.name !in st.namedValues || gi.val.None? then Crash(GepOnNull)
    else
      var ga := EmitDef(gi.st, Gep(gi.st.nextReg, st.namedValues[n.name], [ConstInt(0), gi.val.value]));
      ExprStepTrans(st, gi.st, ga.st);
      if !n.rvalue then ga
      else
        var gl := EmitDef(ga.st, Load(ga.st.nextReg, ga.val.value));
        ExprStepTrans(st, ga.st, gl.st);
        gl
  }
}
