/**
 * Statement lowering keeps the builder's structural invariant and only
 * grows the state: existing blocks other than the insertion block are never
 * touched, new blocks are appended, the insertion block stays the last
 * block, and the break target is the same on return as on entry.
 */
module StmtValid {
  import opened Wrappers
  import opened Ast
  import opened IR
  import opened Builder
  import opened ExprGen
  import opened StmtGen

  /** Every statement lowering preserves `Valid` and is a `StmtStep`. */
  lemma {:induction false} GenStmtValid(st: State, s: Stmt)
    requires Valid(st)
    ensures GenStmt(st, s).Gen? ==> Valid(GenStmt(st, s).st) && StmtStep(st, GenStmt(st, s).st)
    decreases s, 2, 0
  {
    match s
    case Assign(_, _) => AssignValid(st, s);
    case Read(target) => ReadValid(st, target);
    case Write(value) => WriteValid(st, value);
    case If(_, _, _) => IfValid(st, s, GenIf(st, s));
    case While(_, _) => WhileValid(st, s, GenWhile(st, s));
    case Break => BreakValid(st);
    case StatmList(_, _) => ListValid(st, s);
  }

  lemma {:induction false} NestedValid(st: State, s: Stmt)
    requires Valid(st)
    ensures Nested(st, s).Gen? ==> Valid(Nested(st, s).st) && StmtStep(st, Nested(st, s).st)
    decreases s, 4
  {
    GenStmtValid(st, s);
  }

  lemma AssignValid(st: State, s: Stmt)
    requires Valid(st) && s.Assign?
    ensures GenAssign(st, s).Gen? ==> Valid(GenAssign(st, s).st) && StmtStep(st, GenAssign(st, s).st)
  {
    if GenAssign(st, s).Gen? {
      ExprStepValid(st, GenAssign(st, s).st);
    }
  }

  lemma FormattedCallValid(st: State, callee: string, format: string, arg: Value)
    requires Valid(st)
    ensures Valid(EmitFormattedCall(st, callee, format, arg).st)
    ensures StmtStep(st, EmitFormattedCall(st, callee, format, arg).st)
  {
    var m := st.unit.(strings := st.unit.strings + [format], decls := Declare(st.unit.decls, callee));
    var s0 := st.(unit := m);
    assert Valid(s0);
    ExprStepValid(s0, EmitFormattedCall(st, callee, format, arg).st);
  }

  lemma ReadValid(st: State, target: VarNode)
    requires Valid(st)
    ensures GenRead(st, target).Gen? ==> Valid(GenRead(st, target).st) && StmtStep(st, GenRead(st, target).st)
  {
    var gv := GenVar(st, target);
    if gv.Gen? {
      ExprStepValid(st, gv.st);
      FormattedCallValid(gv.st, "scanf", ScanFormat, ArgOf(gv.val));
      StmtStepTrans(st, gv.st, GenRead(st, target).st);
    }
  }

  lemma WriteValid(st: State, value: Expr)
    requires Valid(st)
    ensures GenWrite(st, value).Gen? ==> Valid(GenWrite(st, value).st) && StmtStep(st, GenWrite(st, value).st)
  {
    var ge := GenExpr(st, value);
    if ge.Gen? {
      ExprStepValid(st, ge.st);
      FormattedCallValid(ge.st, "printf", PrintFormat, ArgOf(ge.val));
      StmtStepTrans(st, ge.st, GenWrite(st, value).st);
    }
  }

  /** The blocks of an `If` are the next three ids; the then-block is attached and current. */
  lemma IfOpenValid(st: State, c: Value)
    requires Valid(st)
    ensures Valid(IfOpen(st, c)) && StmtStep(st, IfOpen(st, c))
    ensures Avoids(IfOpen(st, c).layout, st.nextBlock + 1) && Avoids(IfOpen(st, c).layout, st.nextBlock + 2)
  {
    IfOpenLayout(st, c);
    IfOpenGrows(st, c);
  }

  lemma IfOpenLayout(st: State, c: Value)
    requires Valid(st)
    ensures Valid(IfOpen(st, c))
    ensures Avoids(IfOpen(st, c).layout, st.nextBlock + 1) && Avoids(IfOpen(st, c).layout, st.nextBlock + 2)
  {
    assert IfOpen(st, c).layout == st.layout + [st.nextBlock];
  }

  lemma IfOpenGrows(st: State, c: Value)
    requires Valid(st)
    ensures StmtStep(st, IfOpen(st, c))
  {
    assert IfOpen(st, c).layout == st.layout + [st.nextBlock];
  }

  lemma {:induction false} IfValid(st: State, s: Stmt, g: Gen)
    requires Valid(st) && s.If? && g == GenIf(st, s)
    ensures g.Gen? ==> Valid(g.st) && StmtStep(st, g.st)
    decreases s, 1, 0
  {
    var gc := GenExpr(st, s.cond);
    if gc.Gen? {
      ExprStepValid(st, gc.st);
      if gc.val.Some? {
        IfBlocksValid(st, gc.st, gc.val.value, s, g);
      }
    }
  }

  /** The `If` after its condition `c` was lowered from `st` to `t`. */
  lemma {:induction false} IfBlocksValid(st: State, t: State, c: Value, s: Stmt, g: Gen)
    requires Valid(st) && Valid(t) && StmtStep(st, t) && s.If?
    requires g == IfBranches(t, c, s)
    ensures g.Gen? ==> Valid(g.st) && StmtStep(st, g.st)
    decreases s, 0, 3
  {
    IfBranchesUnfold(t, c, s);
    IfOpenedValid(st, t, c, s, g);
  }

  /** `IfBranches` opens the three blocks and lowers the branches from the then-block. */
  lemma IfBranchesUnfold(t: State, c: Value, s: Stmt)
    requires t.cur in t.code && s.If?
    ensures IfBranches(t, c, s) == IfThen(IfOpen(t, c), s, t.nextBlock + 1, t.nextBlock + 2)
  {
  }

  /** `IfBlocksValid`, once the opening is unfolded. */
  lemma {:induction false} IfOpenedValid(st: State, t: State, c: Value, s: Stmt, g: Gen)
    requires Valid(st) && Valid(t) && StmtStep(st, t) && s.If?
    requires g == IfThen(IfOpen(t, c), s, t.nextBlock + 1, t.nextBlock + 2)
    ensures g.Gen? ==> Valid(g.st) && StmtStep(st, g.st)
    decreases s, 0, 2
  {
    IfOpenValid(t, c);
    IfThenValid(t, IfOpen(t, c), s, g);
    if g.Gen? {
      StmtStepTrans(st, t, g.st);
    }
  }

  /**
   * The state `t` at the end of an `If`'s then-branch, measured from the
   * state `base` before the `If`'s blocks: still valid, grown from `base`,
   * with the else-block `elseB` and the join block `joinB` created since
   * `base` and not yet attached.
   */
  ghost predicate ThenEnd(base: State, t: State, elseB: BlockId, joinB: BlockId) {
    && Valid(base) && Valid(t) && StmtStep(base, t)
    && elseB in t.code && joinB in t.code && base.nextBlock <= elseB && base.nextBlock <= joinB
    && elseB != joinB && elseB < t.nextBlock && joinB < t.nextBlock
    && Avoids(t.layout, elseB) && Avoids(t.layout, joinB)
  }

  /** The then-branch, measured from the state `base` before the `If`'s blocks. */
  lemma {:induction false} ThenValid(base: State, s4: State, s: Stmt)
    requires Valid(base) && Valid(s4) && StmtStep(base, s4) && s4.nextBlock == base.nextBlock + 3
    requires base.nextBlock + 1 in s4.code && base.nextBlock + 2 in s4.code
    requires Avoids(s4.layout, base.nextBlock + 1) && Avoids(s4.layout, base.nextBlock + 2)
    requires s.If?
    ensures var gt := Nested(s4, s.thenBranch);
            gt.Gen? ==> ThenEnd(base, gt.st, base.nextBlock + 1, base.nextBlock + 2)
    decreases s, 0, 0
  {
    NestedValid(s4, s.thenBranch);
    var gt := Nested(s4, s.thenBranch);
    if gt.Gen? {
      StmtStepTrans(base, s4, gt.st);
      AvoidsKept(s4, gt.st, base.nextBlock + 1);
      AvoidsKept(s4, gt.st, base.nextBlock + 2);
    }
  }

  /** The then-branch and the rest, measured from the state `base` before the `If`'s blocks. */
  lemma {:induction false} IfThenValid(base: State, s4: State, s: Stmt, g: Gen)
    requires Valid(base) && Valid(s4) && StmtStep(base, s4) && s4.nextBlock == base.nextBlock + 3
    requires base.nextBlock + 1 in s4.code && base.nextBlock + 2 in s4.code
    requires Avoids(s4.layout, base.nextBlock + 1) && Avoids(s4.layout, base.nextBlock + 2)
    requires s.If? && g == IfThen(s4, s, base.nextBlock + 1, base.nextBlock + 2)
    ensures g.Gen? ==> Valid(g.st) && StmtStep(base, g.st)
    decreases s, 0, 1
  {
    ThenValid(base, s4, s);
    var gt := Nested(s4, s.thenBranch);
    if gt.Gen? {
      IfElseValid(base, gt.st, s, base.nextBlock + 1, base.nextBlock + 2, g);
    }
  }

  /** From the end of the then-branch to the join block, measured from the state `base` before the `If`. */
  lemma {:induction false} IfElseValid(base: State, t: State, s: Stmt, elseB: BlockId, joinB: BlockId, g: Gen)
    requires ThenEnd(base, t, elseB, joinB) && s.If?
    requires g == IfElse(t, s, elseB, joinB)
    ensures g.Gen? ==> Valid(g.st) && StmtStep(base, g.st)
    decreases s, 0, 0
  {
    var s5 := SwitchTo(Emit(t, Br(joinB)), elseB);
    EmitSwitchGrows(base, t, Br(joinB), elseB);
    AvoidsAppend(t.layout, elseB, joinB);
    if s.elseBranch.Some? {
      NestedValid(s5, s.elseBranch.value);
      var ge := Nested(s5, s.elseBranch.value);
      if ge.Gen? {
        GrowsTrans(base, s5, ge.st);
        AvoidsKept(s5, ge.st, joinB);
        EmitSwitchGrows(base, ge.st, Br(joinB), joinB);
      }
    } else {
      EmitSwitchGrows(base, s5, Br(joinB), joinB);
    }
  }

  /** The blocks of a `While` are the next two ids; the loop block is attached and current. */
  lemma WhileOpenValid(st: State, c: Value)
    requires Valid(st)
    ensures Valid(WhileOpen(st, c)) && Grows(st, WhileOpen(st, c))
    ensures Avoids(WhileOpen(st, c).layout, st.nextBlock + 1)
  {
    assert WhileOpen(st, c).layout == st.layout + [st.nextBlock];
  }

  lemma {:induction false} WhileValid(st: State, s: Stmt, g: Gen)
    requires Valid(st) && s.While? && g == GenWhile(st, s)
    ensures g.Gen? ==> Valid(g.st) && StmtStep(st, g.st)
    decreases s, 1, 0
  {
    var gc := GenExpr(st, s.cond);
    if gc.Gen? {
      ExprStepValid(st, gc.st);
      if gc.val.Some? {
        WhileBlocksValid(st, gc.st, gc.val.value, s, g);
      }
    }
  }

  /** The `While` after its condition `c` was lowered from `st` to `t`. */
  lemma {:induction false} WhileBlocksValid(st: State, t: State, c: Value, s: Stmt, g: Gen)
    requires Valid(st) && Valid(t) && StmtStep(st, t) && s.While?
    requires g == WhileLoop(t, c, s)
    ensures g.Gen? ==> Valid(g.st) && StmtStep(st, g.st)
    decreases s, 0, 3
  {
    WhileLoopUnfold(t, c, s);
    WhileOpenedValid(st, t, c, s, g);
  }

  /** `WhileLoop` opens the two blocks and lowers the body from the loop block. */
  lemma WhileLoopUnfold(t: State, c: Value, s: Stmt)
    requires t.cur in t.code && s.While?
    ensures WhileLoop(t, c, s) == WhileBody(WhileOpen(t, c), s, t.nextBlock, t.nextBlock + 1, t.breakTarget)
  {
  }

  /** `WhileBlocksValid`, once the opening is unfolded. */
  lemma {:induction false} WhileOpenedValid(st: State, t: State, c: Value, s: Stmt, g: Gen)
    requires Valid(st) && Valid(t) && StmtStep(st, t) && s.While?
    requires g == WhileBody(WhileOpen(t, c), s, t.nextBlock, t.nextBlock + 1, t.breakTarget)
    ensures g.Gen? ==> Valid(g.st) && StmtStep(st, g.st)
    decreases s, 0, 2
  {
    WhileOpenValid(t, c);
    WhileBodyValid(t, WhileOpen(t, c), s, g);
    if g.Gen? {
      StmtStepTrans(st, t, g.st);
    }
  }

  /** What the loop body keeps of the loop's entry state. */
  lemma BodyKeeps(st: State, s3: State, t: State)
    requires Valid(st) && Valid(s3) && Grows(st, s3) && Valid(t) && Grows(s3, t)
    requires s3.nextBlock == st.nextBlock + 2 && Avoids(s3.layout, st.nextBlock + 1)
    ensures Grows(st, t) && st.nextBlock + 1 < t.nextBlock && Avoids(t.layout, st.nextBlock + 1)
  {
    GrowsTrans(st, s3, t);
    AvoidsKept(s3, t, st.nextBlock + 1);
  }

  /** The loop body and the back edge, measured from the state `base` before the loop's blocks. */
  lemma {:induction false} WhileBodyValid(base: State, s3: State, s: Stmt, g: Gen)
    requires Valid(base) && Valid(s3) && Grows(base, s3) && s3.nextBlock == base.nextBlock + 2
    requires base.nextBlock + 1 in s3.code && Avoids(s3.layout, base.nextBlock + 1)
    requires s.While? && g == WhileBody(s3, s, base.nextBlock, base.nextBlock + 1, base.breakTarget)
    ensures g.Gen? ==> Valid(g.st) && StmtStep(base, g.st)
    decreases s, 0, 1
  {
    NestedValid(s3, s.body);
    var gb := Nested(s3, s.body);
    if gb.Gen? {
      BodyKeeps(base, s3, gb.st);
      WhileBackValid(base, gb.st, s, base.nextBlock, base.nextBlock + 1, g);
    }
  }

  /** The back edge, measured from the state `base` before the loop. */
  lemma WhileBackValid(base: State, t: State, s: Stmt, loopB: BlockId, afterB: BlockId, g: Gen)
    requires Valid(base) && Valid(t) && Grows(base, t) && s.While?
    requires afterB in t.code && base.nextBlock <= afterB && afterB < t.nextBlock && Avoids(t.layout, afterB)
    requires g == WhileBack(t, s, loopB, afterB, base.breakTarget)
    ensures g.Gen? ==> Valid(g.st) && StmtStep(base, g.st)
  {
    var gc2 := GenExpr(t, s.cond);
    if gc2.Gen? && gc2.val.Some? {
      BackEdgeValid(base, t, gc2.st, CondBr(gc2.val.value, loopB, afterB), afterB);
    }
  }

  /** Closing the loop: the branch back and the after-block, with the previous break target. */
  lemma BackEdgeValid(base: State, t: State, u: State, i: Instr, afterB: BlockId)
    requires Valid(base) && Valid(t) && Grows(base, t) && ExprStep(t, u)
    requires afterB in t.code && base.nextBlock <= afterB && afterB < t.nextBlock && Avoids(t.layout, afterB)
    ensures Valid(SwitchTo(Emit(u, i), afterB).(breakTarget := base.breakTarget))
    ensures StmtStep(base, SwitchTo(Emit(u, i), afterB).(breakTarget := base.breakTarget))
  {
    ExprStepValid(t, u);
    BackKeeps(base, t, u, afterB);
    EmitSwitchGrows(base, u, i, afterB);
  }

  lemma BackKeeps(base: State, t: State, u: State, afterB: BlockId)
    requires Valid(base) && Valid(t) && Grows(base, t) && Valid(u) && StmtStep(t, u)
    requires afterB < t.nextBlock && Avoids(t.layout, afterB)
    ensures Grows(base, u) && Avoids(u.layout, afterB)
  {
    GrowsTrans(base, t, u);
    AvoidsKept(t, u, afterB);
  }

  /** The break block is attached and current, the block after it is not attached yet. */
  lemma BreakOpenValid(st: State)
    requires Valid(st)
    ensures var s3 := SetInsertPoint(Emit(NewBlock(NewBlock(st, BreakBlock, true).0, AftBreak, false).0, Br(st.nextBlock)), st.nextBlock);
            Valid(s3) && StmtStep(st, s3) && Avoids(s3.layout, st.nextBlock + 1) && st.nextBlock + 1 in s3.code
  {
    var s3 := SetInsertPoint(Emit(NewBlock(NewBlock(st, BreakBlock, true).0, AftBreak, false).0, Br(st.nextBlock)), st.nextBlock);
    assert s3.layout == st.layout + [st.nextBlock];
  }

  lemma BreakValid(st: State)
    requires Valid(st)
    ensures Valid(GenBreak(st).st) && StmtStep(st, GenBreak(st).st)
  {
    var breakB, aftB := st.nextBlock, st.nextBlock + 1;
    var s3 := SetInsertPoint(Emit(NewBlock(NewBlock(st, BreakBlock, true).0, AftBreak, false).0, Br(breakB)), breakB);
    BreakOpenValid(st);
    if s3.breakTarget.Some? {
      EmitSwitchGrows(st, s3, Br(s3.breakTarget.value), aftB);
    } else {
      SwitchGrows(st, s3, aftB);
    }
  }

  lemma {:induction false} ListValid(st: State, s: Stmt)
    requires Valid(st) && s.StatmList?
    ensures GenList(st, s).Gen? ==> Valid(GenList(st, s).st) && StmtStep(st, GenList(st, s).st)
    decreases s, 1, 0
  {
    if s.head.Some? {
      NestedValid(st, s.head.value);
      var g1 := Nested(st, s.head.value);
      if g1.Gen? {
        TailValid(g1.st, s, 0);
        if GenTail(g1.st, s, 0).Gen? {
          StmtStepTrans(st, g1.st, GenTail(g1.st, s, 0).st);
        }
      }
    }
  }

  lemma {:induction false} TailValid(st: State, s: Stmt, i: nat)
    requires Valid(st) && s.StatmList? && i <= |s.tail|
    ensures GenTail(st, s, i).Gen? ==> Valid(GenTail(st, s, i).st) && StmtStep(st, GenTail(st, s, i).st)
    decreases s, 0, |s.tail| - i
  {
    if i < |s.tail| && s.tail[i].Some? {
      NestedValid(st, s.tail[i].value);
      var g := Nested(st, s.tail[i].value);
      if g.Gen? {
        TailValid(g.st, s, i + 1);
        if GenTail(g.st, s, i + 1).Gen? {
          StmtStepTrans(st, g.st, GenTail(g.st, s, i + 1).st);
        }
      }
    }
  }
}
