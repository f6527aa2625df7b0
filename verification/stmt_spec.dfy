/**
 * Reference descriptions of the straight-line statements and of statement
 * lists. `Assign`, `Read` and `Write` are described, like expressions, by
 * the instruction kinds they emit and the null they may hit; a statement
 * list by the sequence of statements it lowers one after the other.
 */
module StmtSpec {
  import opened Wrappers
  import opened Ast
  import opened IR
  import opened Builder
  import opened ExprGen
  import opened ExprSpec
  import opened StmtGen

  /** An assignment: the value, then the target's address, then the store of one into the other. */
  function AssignSketch(target: VarNode, value: Expr, bound: set<string>): Sketch {
    match ExprSketch(value, bound)
    case Faults(h) => Faults(h)
    case Emits(ov, yv) =>
      match VarSketch(target, bound)
      case Faults(h) => Faults(h)
      case Emits(oa, ya) => if yv && ya then Emits(ov + oa + [OpStore], true) else Faults(StoreOfNull)
  }

  /** A call of `callee` whose argument is sketched by `arg`: a null argument is passed as it is. */
  function CallSketch(callee: string, arg: Sketch): Sketch {
    match arg
    case Faults(h) => Faults(h)
    case Emits(o, _) => Emits(o + [OpCall(callee)], true)
  }

  /** A straight-line statement's outcome agrees with its sketch and stays in the insertion block. */
  ghost predicate StmtAgrees(st: State, g: Gen, k: Sketch)
    requires st.cur in st.code
  {
    && (g.Crash? <==> k.Faults?)
    && (g.Crash? ==> g.hazard == k.hazard)
    && (g.Gen? ==>
          && g.st.cur == st.cur && st.cur in g.st.code
          && st.code[st.cur].instrs <= g.st.code[st.cur].instrs
          && Opcodes(Emitted(st, g.st)) == k.ops
          && (g.val.Some? <==> k.nonNull))
  }

  /**
   * `Assign` emits the value's instructions, then the target's, then one
   * store, and crashes exactly where the sketch says; a CONST target is
   * reported before anything is lowered and the store is emitted anyway.
   */
  lemma AssignAgrees(st: State, s: Stmt)
    requires st.cur in st.code && s.Assign?
    ensures StmtAgrees(st, GenAssign(st, s), AssignSketch(s.target, s.value, st.namedValues.Keys))
    ensures KindOf(st.symbols, s.target.name) == Some(CONST) && GenAssign(st, s).Gen? ==>
      |st.diags| < |GenAssign(st, s).st.diags| && GenAssign(st, s).st.diags[|st.diags|] == ConstAssign(s.target.name)
  {
    var ident := s.target.name;
    var s0 := if KindOf(st.symbols, ident) == Some(CONST) then Diagnose(st, ConstAssign(ident)) else st;
    assert Emitted(st, s0) == [];
    GenExprAgrees(s0, s.value);
    var ge := GenExpr(s0, s.value);
    if ge.Gen? {
      ExprStepTrans(st, s0, ge.st);
      GenVarAgrees(ge.st, s.target);
      var gv := GenVar(ge.st, s.target);
      if gv.Gen? {
        ExprStepTrans(st, ge.st, gv.st);
        OpcodesConcat(Emitted(st, ge.st), Emitted(ge.st, gv.st));
        if ge.val.Some? && gv.val.Some? {
          StoreAgrees(st, gv.st, ge.val.value, gv.val.value, GenAssign(st, s));
        }
      }
    }
  }

  /**
   * When both sides have values, the assignment ends with one store that
   * writes the value's result to the target's address. The value is lowered
   * from the entry state plus the CONST report, the target after the value.
   */
  lemma AssignStores(st: State, s: Stmt, ge: Gen, gv: Gen, g: Gen)
    requires st.cur in st.code && s.Assign?
    requires ge == GenExpr(st.(diags := st.diags + (if KindOf(st.symbols, s.target.name) == Some(CONST) then [ConstAssign(s.target.name)] else [])), s.value)
    requires ge.Gen? && ge.val.Some?
    requires gv == GenVar(ge.st, s.target) && gv.Gen? && gv.val.Some?
    requires g == GenAssign(st, s)
    ensures g.Gen? && ExprStep(gv.st, g.st)
    ensures Emitted(gv.st, g.st) == [Store(gv.st.nextReg, ge.val.value, gv.val.value)]
  {
    var ident := s.target.name;
    assert st.(diags := st.diags + (if KindOf(st.symbols, ident) == Some(CONST) then [ConstAssign(ident)] else []))
      == (if KindOf(st.symbols, ident) == Some(CONST) then Diagnose(st, ConstAssign(ident)) else st);
    assert g == EmitDef(gv.st, Store(gv.st.nextReg, ge.val.value, gv.val.value));
  }

  /** The closing store of an assignment whose operands were lowered from `st` to `t`. */
  lemma StoreAgrees(st: State, t: State, v: Value, a: Value, g: Gen)
    requires ExprStep(st, t) && g == EmitDef(t, Store(t.nextReg, v, a))
    ensures ExprStep(st, g.st) && g.val == Some(Reg(t.nextReg))
    ensures Opcodes(Emitted(st, g.st)) == Opcodes(Emitted(st, t)) + [OpStore]
  {
    ExprStepTrans(st, t, g.st);
    OpcodesConcat(Emitted(st, t), Emitted(t, g.st));
  }

  /** A formatted call after an argument lowered from `st` to `t` agrees with the call's sketch. */
  lemma FormattedCallAgrees(st: State, t: State, callee: string, format: string, arg: Value, k: Sketch, g: Gen)
    requires st.cur in st.code && ExprStep(st, t)
    requires k.Emits? && Opcodes(Emitted(st, t)) == k.ops
    requires g == EmitFormattedCall(t, callee, format, arg)
    ensures StmtAgrees(st, g, CallSketch(callee, k))
  {
    var c := Call(t.nextReg, callee, [StrPtr(|t.unit.strings|), arg]);
    assert Emitted(st, g.st) == Emitted(st, t) + [c];
    OpcodesConcat(Emitted(st, t), [c]);
  }

  /**
   * `Write` emits the value's instructions and one call of printf, even
   * when the value is null, and crashes exactly where the value does.
   */
  lemma WriteAgrees(st: State, value: Expr)
    requires st.cur in st.code
    ensures StmtAgrees(st, GenWrite(st, value), CallSketch("printf", ExprSketch(value, st.namedValues.Keys)))
  {
    GenExprAgrees(st, value);
    var ge := GenExpr(st, value);
    if ge.Gen? {
      FormattedCallAgrees(st, ge.st, "printf", PrintFormat, ArgOf(ge.val), ExprSketch(value, st.namedValues.Keys), GenWrite(st, value));
    }
  }

  /**
   * `Read` emits the target's address instructions and one call of scanf,
   * even when the address is null, and crashes exactly where the address does.
   */
  lemma ReadAgrees(st: State, target: VarNode)
    requires st.cur in st.code
    ensures StmtAgrees(st, GenRead(st, target), CallSketch("scanf", VarSketch(target, st.namedValues.Keys)))
  {
    GenVarAgrees(st, target);
    var gv := GenVar(st, target);
    if gv.Gen? {
      FormattedCallAgrees(st, gv.st, "scanf", ScanFormat, ArgOf(gv.val), VarSketch(target, st.namedValues.Keys), GenRead(st, target));
    }
  }

  /**
   * The statements the nodes after a list's first one contribute: every
   * present statement in order; a node without a statement is allowed only
   * as the last node, and `None` stands for a list with one elsewhere.
   */
  function TailStatements(tail: seq<Option<Stmt>>): (r: Option<seq<Stmt>>)
  {
    if |tail| == 0 then Some([])
    else if tail[0].None? then (if |tail| == 1 then Some([]) else None)
    else
      match TailStatements(tail[1..])
      case None => None
      case Some(rest) => Some([tail[0].value] + rest)
  }

  /** Lowers the statements one after another, stopping at the first crash. */
  function GenSeq(st: State, ss: seq<Stmt>): (g: Gen)
    requires st.cur in st.code
    decreases |ss|
  {
    if |ss| == 0 then Gen(st, None)
    else
      var g := GenStmt(st, ss[0]);
      if g.Crash? then g else GenSeq(g.st, ss[1..])
  }

  /** The nodes from index `i` on lower as their statements in sequence, or crash where a node is missing. */
  lemma {:induction false} TailAgrees(st: State, s: Stmt, i: nat)
    requires st.cur in st.code && s.StatmList? && i <= |s.tail|
    ensures TailStatements(s.tail[i..]).Some? ==> GenTail(st, s, i) == GenSeq(st, TailStatements(s.tail[i..]).value)
    ensures TailStatements(s.tail[i..]).None? ==> GenTail(st, s, i).Crash?
    decreases |s.tail| - i
  {
    var t := s.tail[i..];
    if i < |s.tail| && s.tail[i].Some? {
      var x := s.tail[i].value;
      assert t[1..] == s.tail[i + 1..];
      var g := GenStmt(st, x);
      assert Nested(st, x) == g;
      if g.Gen? {
        TailAgrees(g.st, s, i + 1);
      }
    }
  }

  /**
   * A statement list with a first statement lowers as its statements in
   * sequence and yields the i32 zero constant; a list with a missing node
   * before its last one crashes; a list without a first statement emits
   * nothing and only reports it.
   */
  lemma ListAgrees(st: State, s: Stmt)
    requires st.cur in st.code && s.StatmList?
    ensures s.head.None? ==> GenList(st, s) == Gen(Diagnose(st, NoExecBlock), None)
    ensures s.head.Some? && TailStatements(s.tail).Some? ==>
      var g := GenSeq(st, [s.head.value] + TailStatements(s.tail).value);
      GenList(st, s) == if g.Crash? then g else Gen(g.st, Some(ConstInt(0)))
    ensures s.head.Some? && TailStatements(s.tail).None? ==> GenList(st, s).Crash?
  {
    if s.head.Some? {
      var x := s.head.value;
      var g1 := GenStmt(st, x);
      assert Nested(st, x) == g1;
      assert s.tail[0..] == s.tail;
      if g1.Gen? {
        TailAgrees(g1.st, s, 0);
      }
      if TailStatements(s.tail).Some? {
        var ss := [x] + TailStatements(s.tail).value;
        assert ss[1..] == TailStatements(s.tail).value;
      }
    }
  }
}
