/**
 * The values expression lowering computes with: which operands each
 * emitted instruction reads, which value a node yields, and which reports
 * it records. The sketches of `ExprSpec` fix the instruction kinds; these
 * lemmas fix the instructions themselves, one node at a time, in terms of
 * the bindings and the values its sub-expressions yield.
 */
module ExprValues {
  import opened Wrappers
  import opened Ast
  import opened IR
  import opened Builder
  import opened ExprGen

  /** A literal emits nothing and yields its own i32 constant. */
  lemma NumbValue(st: State, v: int)
    requires st.cur in st.code
    ensures GenExpr(st, Numb(v)) == Gen(st, Some(ConstInt(v)))
  {
  }

  /**
   * A scalar reference. As an address it emits nothing and yields the
   * name's binding, null when unbound. As a value it emits one load whose
   * address is the binding and yields that load's register; unbound, it
   * hands null to the load. An unbound name is reported exactly once.
   */
  lemma ScalarValue(st: State, name: string, rvalue: bool, g: Gen)
    requires st.cur in st.code && g == GenScalar(st, name, rvalue)
    ensures g.Crash? <==> rvalue && name !in st.namedValues
    ensures g.Crash? ==> g.hazard == LoadOfNull
    ensures g.Gen? ==> g.st.diags == st.diags + (if name in st.namedValues then [] else [Undeclared(name)])
    ensures !rvalue ==> g.Gen? && Emitted(st, g.st) == [] && g.val == Lookup(st, name)
    ensures rvalue && name in st.namedValues ==>
      g.Gen? && Emitted(st, g.st) == [Load(st.nextReg, st.namedValues[name])] && g.val == Some(Reg(st.nextReg))
  {
    if !rvalue {
      assert Emitted(st, g.st) == [];
    }
  }

  /**
   * An array element whose index has a value and whose array is bound: the
   * element address is a GEP from the array's binding with indices
   * `[0, index]`; as an address the GEP's register is the result, as a value
   * one load from that register follows and its register is the result.
   */
  lemma ElementValue(st: State, n: VarNode, gi: Gen, g: Gen)
    requires st.cur in st.code && n.VarArray?
    requires gi == GenExpr(st, n.index) && g == GenElement(st, n)
    ensures gi.Crash? ==> g == gi
    ensures gi.Gen? && (n.name !in st.namedValues || gi.val.None?) ==> g == Crash(GepOnNull)
    ensures gi.Gen? && n.name in st.namedValues && gi.val.Some? ==>
      && g.Gen? && ExprStep(gi.st, g.st)
      && Emitted(gi.st, g.st) ==
           [Gep(gi.st.nextReg, st.namedValues[n.name], [ConstInt(0), gi.val.value])]
           + (if n.rvalue then [Load(gi.st.nextReg + 1, Reg(gi.st.nextReg))] else [])
      && g.val == Some(Reg(if n.rvalue then gi.st.nextReg + 1 else gi.st.nextReg))
  {
    if gi.Gen? && n.name in st.namedValues && gi.val.Some? {
      var ga := EmitDef(gi.st, Gep(gi.st.nextReg, st.namedValues[n.name], [ConstInt(0), gi.val.value]));
      if n.rvalue {
        var gl := EmitDef(ga.st, Load(ga.st.nextReg, ga.val.value));
        assert g == gl;
        ExprStepTrans(gi.st, ga.st, gl.st);
      } else {
        assert g == ga;
        assert Emitted(gi.st, g.st) == [Gep(gi.st.nextReg, st.namedValues[n.name], [ConstInt(0), gi.val.value])] + [];
      }
    }
  }

  /**
   * A binary operation after both operands: with two values and a supported
   * operator, one instruction of the operator's kind reading the left value
   * first and the right value second, whose register is the result. A null
   * operand or an unsupported operator emits nothing, is reported, and the
   * result is null.
   */
  lemma BinOpValue(st: State, e: Expr, gl: Gen, gr: Gen, g: Gen)
    requires st.cur in st.code && e.BinOp?
    requires gl == GenExpr(st, e.left) && g == GenBinOp(st, e)
    requires gl.Gen? ==> gr == GenExpr(gl.st, e.right)
    ensures gl.Crash? ==> g == gl
    ensures gl.Gen? && gr.Crash? ==> g == gr
    ensures gl.Gen? && gr.Gen? ==> g.Gen? && ExprStep(gr.st, g.st)
    ensures gl.Gen? && gr.Gen? && gl.val.Some? && gr.val.Some? && ArithOf(e.op).Some? ==>
      && Emitted(gr.st, g.st) == [Arith(gr.st.nextReg, ArithOf(e.op).value, gl.val.value, gr.val.value)]
      && g.val == Some(Reg(gr.st.nextReg))
    ensures gl.Gen? && gr.Gen? && (gl.val.None? || gr.val.None?) ==>
      Emitted(gr.st, g.st) == [] && g.val.None? && g.st.diags == gr.st.diags + [OperandError]
    ensures gl.Gen? && gr.Gen? && gl.val.Some? && gr.val.Some? && ArithOf(e.op).None? ==>
      Emitted(gr.st, g.st) == [] && g.val.None? && g.st.diags == gr.st.diags + [UnsupportedOp]
  {
    if gl.Gen? && gr.Gen? {
      if gl.val.None? || gr.val.None? || ArithOf(e.op).None? {
        assert Emitted(gr.st, g.st) == [];
      }
    }
  }

  /**
   * The corrected negation after its operand: a null operand is reported
   * and the result is null with nothing emitted; otherwise one negation of
   * the operand's value, whose register is the result.
   */
  lemma UnaryMinusValue(st: State, e: Expr, g1: Gen, g: Gen)
    requires st.cur in st.code && e.UnaryMinus?
    requires g1 == GenExpr(st, e.operand) && g == GenUnaryMinus(st, e)
    ensures g1.Crash? ==> g == g1
    ensures g1.Gen? ==> g.Gen? && ExprStep(g1.st, g.st)
    ensures g1.Gen? && g1.val.None? ==>
      Emitted(g1.st, g.st) == [] && g.val.None? && g.st.diags == g1.st.diags + [MinusOperandError]
    ensures g1.Gen? && g1.val.Some? ==>
      Emitted(g1.st, g.st) == [Neg(g1.st.nextReg, g1.val.value)] && g.val == Some(Reg(g1.st.nextReg))
  {
    if g1.Gen? && g1.val.None? {
      assert Emitted(g1.st, g.st) == [];
    }
  }

  /**
   * Negation as written: the first lowering of the operand is reported when
   * null and otherwise discarded; the operand is lowered again from there,
   * and the negation reads the second value, crashing when it is null.
   */
  lemma UnaryMinusAsWrittenValue(st: State, e: Expr, g1: Gen, g2: Gen, g: Gen)
    requires st.cur in st.code && e.UnaryMinus?
    requires g1 == GenExpr(st, e.operand) && g == GenUnaryMinusAsWritten(st, e)
    requires g1.Gen? ==> g2 == GenExpr(g1.st.(diags := g1.st.diags + (if g1.val.None? then [MinusOperandError] else [])), e.operand)
    ensures g1.Crash? ==> g == g1
    ensures g1.Gen? && g2.Crash? ==> g == g2
    ensures g1.Gen? && g2.Gen? && g2.val.None? ==> g == Crash(NegOfNull)
    ensures g1.Gen? && g2.Gen? && g2.val.Some? ==>
      && g.Gen? && ExprStep(g2.st, g.st)
      && Emitted(g2.st, g.st) == [Neg(g2.st.nextReg, g2.val.value)] && g.val == Some(Reg(g2.st.nextReg))
  {
    if g1.Gen? {
      assert g1.st.(diags := g1.st.diags + (if g1.val.None? then [MinusOperandError] else []))
        == (if g1.val.None? then Diagnose(g1.st, MinusOperandError) else g1.st);
    }
  }
}
