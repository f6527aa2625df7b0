/**
 * `Prog::GenerateIR`: the globals of the symbol table are materialised,
 * then the program's statement list is lowered.
 */
module Program {
  import opened Wrappers
  import opened Ast
  import opened IR
  import opened Builder
  import opened Globals
  import opened StmtGen
  import opened StmtValid

  /** The lowering of a whole program. */
  function GenProgram(st: State, p: Prog): (g: Gen)
    requires st.cur in st.code
    ensures g.Gen? ==> g.st.cur in g.st.code && st.code.Keys <= g.st.code.Keys
  {
    GenStmt(SetGlobalVariables(st), StatmList(p.head, p.tail))
  }

  /**
   * Lowering a program keeps the builder's invariant; the module's globals
   * are exactly the symbol table's, in order, and the statements neither add
   * globals nor rebind names; the break target is restored and blocks are
   * only appended.
   */
  lemma GenProgramValid(st: State, p: Prog)
    requires Valid(st)
    ensures var g := GenProgram(st, p);
      g.Gen? ==>
        && Valid(g.st)
        && g.st.unit.globals == st.unit.globals + GlobalsOf(st.symbols)
        && g.st.namedValues.Keys == st.namedValues.Keys + Idents(st.symbols)
        && g.st.breakTarget == st.breakTarget
        && st.layout <= g.st.layout
  {
    GenStmtValid(SetGlobalVariables(st), StatmList(p.head, p.tail));
  }

  /**
   * A program whose list has no first statement lowers to nothing but the
   * globals and a diagnostic; otherwise a completed lowering yields the i32
   * zero constant.
   */
  lemma GenProgramResult(st: State, p: Prog)
    requires st.cur in st.code
    ensures p.head.None? ==> GenProgram(st, p) == Gen(Diagnose(SetGlobalVariables(st), NoExecBlock), None)
    ensures p.head.Some? && GenProgram(st, p).Gen? ==> GenProgram(st, p).val == Some(ConstInt(0))
  {
    var s0 := SetGlobalVariables(st);
    assert GenProgram(st, p) == GenList(s0, StatmList(p.head, p.tail));
  }
}
