/**
 * A reference description of expression lowering that needs no builder
 * state: from the expression and the set of bound identifiers alone it
 * says which instruction kinds are emitted, in which order, and whether the
 * result is null or the generator hits a null operand. The lemmas connect
 * the generator to it and derive the per-node properties.
 */
module ExprSpec {
  import opened Wrappers
  import opened Ast
  import opened IR
  import opened Builder
  import opened ExprGen

  datatype Sketch = Emits(ops: seq<Opcode>, nonNull: bool) | Faults(hazard: Hazard)

  function ExprSketch(e: Expr, bound: set<string>): Sketch
    decreases e
  {
    match e
    case Numb(_) => Emits([], true)
    case Ref(n) => VarSketch(n, bound)
    case BinOp(op, l, r) =>
      (match ExprSketch(l, bound)
       case Faults(h) => Faults(h)
       case Emits(ol, yl) =>
         match ExprSketch(r, bound)
         case Faults(h) => Faults(h)
         case Emits(orr, yr) =>
           if yl && yr && !op.Other? then Emits(ol + orr + [OpArith(ArithOf(op).value)], true)
           else Emits(ol + orr, false))
    case UnaryMinus(x) => NegTwiceSketch(ExprSketch(x, bound))
  }

  function VarSketch(n: VarNode, bound: set<string>): Sketch
    decreases n
  {
    match n
    case Var(name, rvalue) =>
      if !rvalue then Emits([], name in bound)
      else if name in bound then Emits([OpLoad], true)
      else Faults(LoadOfNull)
    case VarArray(name, index, rvalue) =>
      match ExprSketch(index, bound)
      case Faults(h) => Faults(h)
      case Emits(o, y) =>
        if name in bound && y then Emits(o + [OpGep] + (if rvalue then [OpLoad] else []), true)
        else Faults(GepOnNull)
  }

  /** The generator's outcome agrees with the sketch. */
  ghost predicate Agrees(st: State, g: Gen, k: Sketch)
    requires g.Gen? ==> ExprStep(st, g.st)
  {
    && (g.Crash? <==> k.Faults?)
    && (g.Crash? ==> g.hazard == k.hazard)
    && (g.Gen? ==> Opcodes(Emitted(st, g.st)) == k.ops && (g.val.Some? <==> k.nonNull))
  }

  /** Expression lowering emits exactly the sketched instruction kinds, in order, with the sketched nullness. */
  lemma {:induction false} GenExprAgrees(st: State, e: Expr)
    requires st.cur in st.code
    ensures Agrees(st, GenExpr(st, e), ExprSketch(e, st.namedValues.Keys))
    decreases e, 1
  {
    match e
    case Numb(_) =>
      assert Emitted(st, st) == [];
    case Ref(n) =>
      GenVarAgrees(st, n);
    case BinOp(_, _, _) =>
      BinOpAgrees(st, e);
    case UnaryMinus(_) =>
      UnaryMinusAsWrittenAgrees(st, e);
  }

  lemma {:induction false} BinOpAgrees(st: State, e: Expr)
    requires st.cur in st.code && e.BinOp?
    ensures Agrees(st, GenBinOp(st, e), ExprSketch(e, st.namedValues.Keys))
    decreases e, 0
  {
    GenExprAgrees(st, e.left);
    var gl := GenExpr(st, e.left);
    if gl.Gen? {
      GenExprAgrees(gl.st, e.right);
      var gr := GenExpr(gl.st, e.right);
      if gr.Gen? {
        ExprStepTrans(st, gl.st, gr.st);
        OpcodesConcat(Emitted(st, gl.st), Emitted(gl.st, gr.st));
        if gl.val.Some? && gr.val.Some? && ArithOf(e.op).Some? {
          BinOpEmitAgrees(st, e, gl, gr, GenBinOp(st, e), ExprSketch(e, st.namedValues.Keys));
        } else {
          BinOpNullAgrees(st, e, gl, gr, GenBinOp(st, e), ExprSketch(e, st.namedValues.Keys));
        }
      }
    }
  }

  lemma BinOpEmitAgrees(st: State, e: Expr, gl: Gen, gr: Gen, g: Gen, k: Sketch)
    requires st.cur in st.code && e.BinOp? && ArithOf(e.op).Some?
    requires gl == GenExpr(st, e.left) && gl.Gen? && gl.val.Some?
    requires gr == GenExpr(gl.st, e.right) && gr.Gen? && gr.val.Some?
    requires ExprStep(st, gr.st)
    requires ExprSketch(e.left, st.namedValues.Keys).Emits? && ExprSketch(e.left, st.namedValues.Keys).nonNull
    requires ExprSketch(e.right, st.namedValues.Keys).Emits? && ExprSketch(e.right, st.namedValues.Keys).nonNull
    requires Opcodes(Emitted(st, gr.st)) == ExprSketch(e.left, st.namedValues.Keys).ops + ExprSketch(e.right, st.namedValues.Keys).ops
    requires g == GenBinOp(st, e) && k == ExprSketch(e, st.namedValues.Keys)
    ensures g.Gen? ==> ExprStep(st, g.st)
    ensures Agrees(st, g, k)
  {
    assert g == EmitDef(gr.st, Arith(gr.st.nextReg, ArithOf(e.op).value, gl.val.value, gr.val.value));
    ExprStepTrans(st, gr.st, g.st);
    OpcodesConcat(Emitted(st, gr.st), Emitted(gr.st, g.st));
  }

  lemma BinOpNullAgrees(st: State, e: Expr, gl: Gen, gr: Gen, g: Gen, k: Sketch)
    requires st.cur in st.code && e.BinOp?
    requires gl == GenExpr(st, e.left) && gl.Gen?
    requires gr == GenExpr(gl.st, e.right) && gr.Gen?
    requires gl.val.None? || gr.val.None? || ArithOf(e.op).None?
    requires ExprStep(st, gr.st)
    requires Agrees(st, gl, ExprSketch(e.left, st.namedValues.Keys))
    requires Agrees(gl.st, gr, ExprSketch(e.right, st.namedValues.Keys))
    requires Opcodes(Emitted(st, gr.st)) == ExprSketch(e.left, st.namedValues.Keys).ops + ExprSketch(e.right, st.namedValues.Keys).ops
    requires g == GenBinOp(st, e) && k == ExprSketch(e, st.namedValues.Keys)
    ensures g.Gen? ==> ExprStep(st, g.st)
    ensures Agrees(st, g, k)
  {
    var s := Diagnose(gr.st, if gl.val.None? || gr.val.None? then OperandError else UnsupportedOp);
    assert g == Gen(s, None);
    assert Emitted(gr.st, s) == [];
    ExprStepTrans(st, gr.st, s);
  }

  /** The corrected `UnaryMinus` emits its operand's instructions once, then the negation; a null operand makes the result null. */
  lemma UnaryMinusAgrees(st: State, e: Expr)
    requires st.cur in st.code && e.UnaryMinus?
    ensures Agrees(st, GenUnaryMinus(st, e), NegOnceSketch(ExprSketch(e.operand, st.namedValues.Keys)))
  {
    GenExprAgrees(st, e.operand);
    var g1 := GenExpr(st, e.operand);
    if g1.Gen? {
      if g1.val.None? {
        assert Emitted(g1.st, Diagnose(g1.st, MinusOperandError)) == [];
        ExprStepTrans(st, g1.st, Diagnose(g1.st, MinusOperandError));
      } else {
        var g := EmitDef(g1.st, Neg(g1.st.nextReg, g1.val.value));
        ExprStepTrans(st, g1.st, g.st);
        OpcodesConcat(Emitted(st, g1.st), Emitted(g1.st, g.st));
      }
    }
  }

  /** The sketch of the corrected `UnaryMinus`: the operand's kinds once, then the negation; a null operand makes the result null. */
  function NegOnceSketch(operand: Sketch): Sketch {
    match operand
    case Faults(h) => Faults(h)
    case Emits(o, y) => if y then Emits(o + [OpNeg], true) else Emits(o, false)
  }

  /** The sketch of `UnaryMinus` as written: the operand's kinds twice, then the negation; a null operand reaches the builder. */
  function NegTwiceSketch(operand: Sketch): Sketch {
    match operand
    case Faults(h) => Faults(h)
    case Emits(o, y) => if y then Emits(o + o + [OpNeg], true) else Faults(NegOfNull)
  }

  /** `UnaryMinus` as written emits its operand's instructions twice and crashes on a null operand. */
  lemma {:induction false} UnaryMinusAsWrittenAgrees(st: State, e: Expr)
    requires st.cur in st.code && e.UnaryMinus?
    ensures Agrees(st, GenUnaryMinusAsWritten(st, e), NegTwiceSketch(ExprSketch(e.operand, st.namedValues.Keys)))
    decreases e, 0
  {
    GenExprAgrees(st, e.operand);
    var g1 := GenExpr(st, e.operand);
    if g1.Gen? {
      var s1 := if g1.val.None? then Diagnose(g1.st, MinusOperandError) else g1.st;
      assert Emitted(g1.st, s1) == [];
      ExprStepTrans(st, g1.st, s1);
      GenExprAgrees(s1, e.operand);
      var g2 := GenExpr(s1, e.operand);
      if g2.Gen? && g2.val.Some? {
        UnaryMinusTwiceAgrees(st, e, s1, g2, GenUnaryMinusAsWritten(st, e), NegTwiceSketch(ExprSketch(e.operand, st.namedValues.Keys)));
      }
    }
  }

  lemma UnaryMinusTwiceAgrees(st: State, e: Expr, s1: State, g2: Gen, g: Gen, k: Sketch)
    requires st.cur in st.code && e.UnaryMinus?
    requires GenExpr(st, e.operand).Gen? && GenExpr(st, e.operand).val.Some? && s1 == GenExpr(st, e.operand).st
    requires g2 == GenExpr(s1, e.operand) && g2.Gen? && g2.val.Some?
    requires ExprSketch(e.operand, st.namedValues.Keys).Emits? && ExprSketch(e.operand, st.namedValues.Keys).nonNull
    requires Opcodes(Emitted(st, s1)) == ExprSketch(e.operand, st.namedValues.Keys).ops
    requires Opcodes(Emitted(s1, g2.st)) == ExprSketch(e.operand, st.namedValues.Keys).ops
    requires g == GenUnaryMinusAsWritten(st, e) && k == NegTwiceSketch(ExprSketch(e.operand, st.namedValues.Keys))
    ensures g.Gen? ==> ExprStep(st, g.st)
    ensures Agrees(st, g, k)
  {
    assert g == EmitDef(g2.st, Neg(g2.st.nextReg, g2.val.value));
    NegAfterTwice(st, s1, g2.st, g.st, ExprSketch(e.operand, st.namedValues.Keys).ops);
  }

  /** Two runs emitting `o` each, then one negation, emit `o + o + [OpNeg]`. */
  lemma NegAfterTwice(st: State, s1: State, s2: State, s3: State, o: seq<Opcode>)
    requires ExprStep(st, s1) && ExprStep(s1, s2) && ExprStep(s2, s3)
    requires Opcodes(Emitted(st, s1)) == o && Opcodes(Emitted(s1, s2)) == o
    requires Opcodes(Emitted(s2, s3)) == [OpNeg]
    ensures ExprStep(st, s3) && Opcodes(Emitted(st, s3)) == o + o + [OpNeg]
  {
    ExprStepTrans(st, s1, s2);
    ExprStepTrans(st, s2, s3);
    OpcodesConcat(Emitted(st, s1), Emitted(s1, s2));
    OpcodesConcat(Emitted(st, s2), Emitted(s2, s3));
  }

  lemma LoadSketch(name: string, bound: set<string>)
    requires name in bound
    ensures ExprSketch(Ref(Var(name, true)), bound) == Emits([OpLoad], true)
    ensures NegOnceSketch(ExprSketch(Ref(Var(name, true)), bound)) == Emits([OpLoad, OpNeg], true)
    ensures NegTwiceSketch(ExprSketch(Ref(Var(name, true)), bound)) == Emits([OpLoad, OpLoad, OpNeg], true)
  {
  }

  lemma AddressSketch(name: string, bound: set<string>)
    requires name !in bound
    ensures ExprSketch(Ref(Var(name, false)), bound) == Emits([], false)
    ensures NegOnceSketch(ExprSketch(Ref(Var(name, false)), bound)) == Emits([], false)
    ensures NegTwiceSketch(ExprSketch(Ref(Var(name, false)), bound)) == Faults(NegOfNull)
  {
  }

  /** Negating a loaded variable: as written, two loads and a negation; as intended, one load and a negation. */
  lemma NegatedLoadLoadsTwice(st: State, name: string, asWritten: Gen, intended: Gen)
    requires st.cur in st.code && name in st.namedValues
    requires asWritten == GenUnaryMinusAsWritten(st, UnaryMinus(Ref(Var(name, true))))
    requires intended == GenUnaryMinus(st, UnaryMinus(Ref(Var(name, true))))
    ensures asWritten.Gen? && Opcodes(Emitted(st, asWritten.st)) == [OpLoad, OpLoad, OpNeg]
    ensures intended.Gen? && Opcodes(Emitted(st, intended.st)) == [OpLoad, OpNeg]
  {
    var e := UnaryMinus(Ref(Var(name, true)));
    LoadSketch(name, st.namedValues.Keys);
    UnaryMinusAsWrittenAgrees(st, e);
    UnaryMinusAgrees(st, e);
  }

  /** Negating the address of an undeclared variable: as written the null reaches the builder; as intended the result is null. */
  lemma NegatedNullCrashes(st: State, name: string, asWritten: Gen, intended: Gen)
    requires st.cur in st.code && name !in st.namedValues
    requires asWritten == GenUnaryMinusAsWritten(st, UnaryMinus(Ref(Var(name, false))))
    requires intended == GenUnaryMinus(st, UnaryMinus(Ref(Var(name, false))))
    ensures asWritten == Crash(NegOfNull)
    ensures intended.Gen? && intended.val.None?
  {
    var e := UnaryMinus(Ref(Var(name, false)));
    AddressSketch(name, st.namedValues.Keys);
    UnaryMinusAsWrittenAgrees(st, e);
    UnaryMinusAgrees(st, e);
  }

  lemma {:induction false} GenVarAgrees(st: State, n: VarNode)
    requires st.cur in st.code
    ensures Agrees(st, GenVar(st, n), VarSketch(n, st.namedValues.Keys))
    decreases n, 1
  {
    match n
    case Var(name, rvalue) =>
      ScalarAgrees(st, name, rvalue);
    case VarArray(_, _, _) =>
      ElementAgrees(st, n);
  }

  lemma ScalarAgrees(st: State, name: string, rvalue: bool)
    requires st.cur in st.code
    ensures Agrees(st, GenScalar(st, name, rvalue), VarSketch(Var(name, rvalue), st.namedValues.Keys))
  {
    var s := if name in st.namedValues then st else Diagnose(st, Undeclared(name));
    assert Emitted(st, s) == [];
    if rvalue && name in st.namedValues {
      var g := EmitDef(st, Load(st.nextReg, st.namedValues[name]));
      assert GenScalar(st, name, rvalue) == g;
      assert Opcodes(Emitted(st, g.st)) == [OpLoad];
    }
  }

  lemma {:induction false} ElementAgrees(st: State, n: VarNode)
    requires st.cur in st.code && n.VarArray?
    ensures Agrees(st, GenElement(st, n), VarSketch(n, st.namedValues.Keys))
    decreases n, 0
  {
    GenExprAgrees(st, n.index);
    var gi := GenExpr(st, n.index);
    if gi.Gen? && n.name in st.namedValues && gi.val.Some? {
      ElementEmitAgrees(st, n, gi);
    }
  }

  lemma ElementEmitAgrees(st: State, n: VarNode, gi: Gen)
    requires st.cur in st.code && n.VarArray? && n.name in st.namedValues
    requires gi == GenExpr(st, n.index) && gi.Gen? && gi.val.Some?
    requires ExprSketch(n.index, st.namedValues.Keys).Emits? && ExprSketch(n.index, st.namedValues.Keys).nonNull
    requires Opcodes(Emitted(st, gi.st)) == ExprSketch(n.index, st.namedValues.Keys).ops
    ensures Agrees(st, GenElement(st, n), VarSketch(n, st.namedValues.Keys))
  {
    var ga := EmitDef(gi.st, Gep(gi.st.nextReg, st.namedValues[n.name], [ConstInt(0), gi.val.value]));
    ExprStepTrans(st, gi.st, ga.st);
    OpcodesConcat(Emitted(st, gi.st), Emitted(gi.st, ga.st));
    if n.rvalue {
      ElementLoadAgrees(st, n, gi, ga);
    } else {
      assert GenElement(st, n) == ga;
    }
  }

  lemma ElementLoadAgrees(st: State, n: VarNode, gi: Gen, ga: Gen)
    requires st.cur in st.code && n.VarArray? && n.rvalue && n.name in st.namedValues
    requires gi == GenExpr(st, n.index) && gi.Gen? && gi.val.Some?
    requires ga == EmitDef(gi.st, Gep(gi.st.nextReg, st.namedValues[n.name], [ConstInt(0), gi.val.value]))
    requires ExprStep(st, ga.st)
    requires ExprSketch(n.index, st.namedValues.Keys).Emits? && ExprSketch(n.index, st.namedValues.Keys).nonNull
    requires Opcodes(Emitted(st, ga.st)) == ExprSketch(n.index, st.namedValues.Keys).ops + [OpGep]
    ensures Agrees(st, GenElement(st, n), VarSketch(n, st.namedValues.Keys))
  {
    var gl := EmitDef(ga.st, Load(ga.st.nextReg, ga.val.value));
    assert GenElement(st, n) == gl;
    ExprStepTrans(st, ga.st, gl.st);
    OpcodesConcat(Emitted(st, ga.st), Emitted(ga.st, gl.st));
  }

  /**
   * Whether an expression crashes, which instructions it emits and whether
   * its value is null depend only on the bound identifiers: lowering the same
   * expression from two states with the same bindings gives the same shape.
   */
  lemma LoweringIsRepeatable(s1: State, s2: State, e: Expr)
    requires s1.cur in s1.code && s2.cur in s2.code
    requires s1.namedValues.Keys == s2.namedValues.Keys
    ensures GenExpr(s1, e).Crash? <==> GenExpr(s2, e).Crash?
    ensures GenExpr(s1, e).Gen? ==>
      Opcodes(Emitted(s1, GenExpr(s1, e).st)) == Opcodes(Emitted(s2, GenExpr(s2, e).st))
      && (GenExpr(s1, e).val.Some? <==> GenExpr(s2, e).val.Some?)
  {
    GenExprAgrees(s1, e);
    GenExprAgrees(s2, e);
  }
}
