/**
 * The control-flow shape each statement lowering produces: which
 * instructions close which block, which blocks are attached in which
 * order, where the insertion point ends up, and what becomes of the break
 * target.
 */
module StmtShape {
  import opened Wrappers
  import opened Ast
  import opened IR
  import opened Builder
  import opened ExprGen
  import opened ExprSpec
  import opened ExprValues
  import opened StmtGen
  import opened StmtValid

  /**
   * `Break`: the current block jumps to a new break block, which jumps to the
   * break target when there is one and is left empty otherwise; a new empty
   * block is attached after it and becomes the insertion block. The break
   * target itself is unchanged.
   */
  lemma BreakShape(st: State)
    requires Valid(st)
    ensures var g := GenBreak(st); var b := st.nextBlock;
      && g.Gen? && g.val.None?
      && g.st.code[st.cur] == st.code[st.cur].(instrs := st.code[st.cur].instrs + [Br(b)])
      && g.st.code[b] == Block(BreakBlock, if st.breakTarget.Some? then [Br(st.breakTarget.value)] else [])
      && g.st.code[b + 1] == Block(AftBreak, [])
      && g.st.layout == st.layout + [b, b + 1]
      && g.st.cur == b + 1
      && g.st.breakTarget == st.breakTarget
  {
    var g := GenBreak(st);
    var b := st.nextBlock;
    assert st.cur != b && st.cur != b + 1;
    assert g.st.layout == st.layout + [b] + [b + 1];
  }

  /**
   * The opening of an `If` from `t` to `s4`: three new blocks, the
   * then-block attached and current, and the current block closed by the
   * conditional branch on `c` to the then- and else-blocks.
   */
  ghost predicate IfOpened(t: State, c: Value, s4: State) {
    var n := t.nextBlock;
    && t.cur in t.code && t.cur in s4.code
    && s4.code[t.cur] == t.code[t.cur].(instrs := t.code[t.cur].instrs + [CondBr(c, n, n + 1)])
    && Frame(t, s4, {t.cur})
    && n in s4.code && n + 1 in s4.code && n + 2 in s4.code
    && s4.code[n] == Block(Then, [])
    && s4.code[n + 1] == Block(Else, [])
    && s4.code[n + 2] == Block(IfCont, [])
    && s4.layout == t.layout + [n]
    && s4.cur == n
    && s4.breakTarget == t.breakTarget
  }

  lemma IfOpenShape(t: State, c: Value)
    requires Valid(t)
    ensures IfOpened(t, c, IfOpen(t, c))
  {
    assert t.cur < t.nextBlock;
  }

  /**
   * The opening of a `While` from `t` to `s3`: two new blocks, the loop
   * block attached and current, the current block closed by the conditional
   * branch on `c` to the loop and after blocks, and the after block installed
   * as the break target for the body.
   */
  ghost predicate WhileOpened(t: State, c: Value, s3: State) {
    var n := t.nextBlock;
    && t.cur in t.code && t.cur in s3.code
    && s3.code[t.cur] == t.code[t.cur].(instrs := t.code[t.cur].instrs + [CondBr(c, n, n + 1)])
    && Frame(t, s3, {t.cur})
    && n in s3.code && n + 1 in s3.code
    && s3.code[n] == Block(Loop, [])
    && s3.code[n + 1] == Block(After, [])
    && s3.layout == t.layout + [n]
    && s3.cur == n
    && s3.breakTarget == Some(n + 1)
    && s3.namedValues == t.namedValues
  }

  lemma WhileOpenShape(t: State, c: Value)
    requires Valid(t)
    ensures WhileOpened(t, c, WhileOpen(t, c))
  {
    assert t.cur < t.nextBlock;
  }

  /**
   * `Write`: the value's instructions, then a call of printf with a new
   * "%d\n" format string and the value, or a null argument when the value
   * is null; printf is declared only if it was not already. Only a crash of
   * the value stops the statement.
   */
  lemma WriteShape(st: State, value: Expr)
    requires st.cur in st.code
    ensures var ge := GenExpr(st, value); var g := GenWrite(st, value);
      && (ge.Crash? ==> g == ge)
      && (ge.Gen? ==>
            && g.Gen? && g.val == Some(Reg(ge.st.nextReg))
            && g.st.cur == st.cur
            && g.st.code[st.cur].instrs == ge.st.code[st.cur].instrs
                 + [Call(ge.st.nextReg, "printf", [StrPtr(|st.unit.strings|), if ge.val.Some? then ge.val.value else Null])]
            && g.st.unit.strings == st.unit.strings + [PrintFormat]
            && g.st.unit.decls == Declare(st.unit.decls, "printf"))
  {
  }

  /**
   * `Read`: the target's address, then a call of scanf with a new "%d"
   * format string and that address, or a null argument when there is none;
   * scanf is declared only if it was not already. Only a crash of the
   * address stops the statement.
   */
  lemma ReadShape(st: State, target: VarNode)
    requires st.cur in st.code
    ensures var gv := GenVar(st, target); var g := GenRead(st, target);
      && (gv.Crash? ==> g == gv)
      && (gv.Gen? ==>
            && g.Gen? && g.val == Some(Reg(gv.st.nextReg))
            && g.st.cur == st.cur
            && g.st.code[st.cur].instrs == gv.st.code[st.cur].instrs
                 + [Call(gv.st.nextReg, "scanf", [StrPtr(|st.unit.strings|), if gv.val.Some? then gv.val.value else Null])]
            && g.st.unit.strings == st.unit.strings + [ScanFormat]
            && g.st.unit.decls == Declare(st.unit.decls, "scanf"))
  {
  }

  /**
   * `read(y)` with `y` undeclared: the name is reported, scanf is called
   * with the format string and a null argument, and lowering carries on.
   */
  lemma ReadUndeclaredCarriesOn(st: State, name: string)
    requires st.cur in st.code && name !in st.namedValues
    ensures var g := GenRead(st, Var(name, false));
      && g.Gen? && g.st.cur == st.cur
      && g.st.diags == st.diags + [Undeclared(name)]
      && g.st.code[st.cur].instrs == st.code[st.cur].instrs + [Call(st.nextReg, "scanf", [StrPtr(|st.unit.strings|), Null])]
  {
    var gv := GenScalar(st, name, false);
    ScalarValue(st, name, false, gv);
    ReadShape(st, Var(name, false));
    assert gv.st.code[st.cur].instrs == st.code[st.cur].instrs;
  }

  /** Lowering two writes in a row declares printf once and adds a format string for each. */
  lemma WritesDeclareOnce(st: State, a: Expr, b: Expr)
    requires st.cur in st.code
    ensures var g1 := GenWrite(st, a);
      g1.Gen? && GenWrite(g1.st, b).Gen? ==>
        && GenWrite(g1.st, b).st.unit.decls == Declare(st.unit.decls, "printf")
        && GenWrite(g1.st, b).st.unit.strings == st.unit.strings + [PrintFormat, PrintFormat]
  {
  }

  /** Every block of `u` outside `changed` is still present and unchanged in `f`. */
  ghost predicate Frame(u: State, f: State, changed: set<BlockId>) {
    forall id :: id in u.code && id !in changed ==> id in f.code && f.code[id] == u.code[id]
  }

  lemma FrameTrans(u: State, v: State, f: State, c1: set<BlockId>, c2: set<BlockId>)
    requires Frame(u, v, c1) && Frame(v, f, c2)
    ensures Frame(u, f, c1 + c2)
  {
  }

  /**
   * Closing the insertion block `u.cur` with a jump to `joinB` and moving to
   * the detached block `joinB`: only `u.cur` changes, and it ends with the
   * jump, right before `joinB` in the block list.
   */
  lemma CloseShape(u: State, joinB: BlockId)
    requires Valid(u) && joinB in u.code
    ensures var f := SwitchTo(Emit(u, Br(joinB)), joinB);
      && f.cur == joinB
      && f.layout == u.layout + [joinB]
      && f.code[u.cur] == u.code[u.cur].(instrs := u.code[u.cur].instrs + [Br(joinB)])
      && EndsWith(f.code[f.layout[|f.layout| - 2]], Br(joinB))
      && Frame(u, f, {u.cur})
  {
    var f := SwitchTo(Emit(u, Br(joinB)), joinB);
    assert f.layout[|f.layout| - 2] == u.cur;
  }

  /** The else-branch, lowered (when present) from `s5`, whose insertion block is the else-block. */
  lemma ElseShape(s5: State, s: Stmt, ge: Gen)
    requires Valid(s5) && s.If?
    requires ge == if s.elseBranch.Some? then Nested(s5, s.elseBranch.value) else Gen(s5, None)
    ensures ge.Gen? ==>
      && Valid(ge.st)
      && Frame(s5, ge.st, {s5.cur})
      && s5.layout <= ge.st.layout
      && (ge.st.cur == s5.cur || s5.nextBlock <= ge.st.cur)
  {
    if s.elseBranch.Some? {
      NestedValid(s5, s.elseBranch.value);
      if ge.Gen? {
        CurrentIsOldOrFresh(s5, ge.st);
      }
    }
  }

  /**
   * The end of an `If` seen from the end of its then-branch `t`: the
   * then-branch's last block jumps to the join block, the else-block is
   * attached next, the else-branch's last block jumps to the join block, and
   * the join block is attached last and current. No block existing at `t`
   * other than its insertion block and the else-block changes.
   */
  ghost predicate IfClosed(t: State, f: State, elseB: BlockId, joinB: BlockId) {
    && f.cur == joinB
    && t.cur in t.code && t.cur in f.code
    && f.code[t.cur] == t.code[t.cur].(instrs := t.code[t.cur].instrs + [Br(joinB)])
    && Frame(t, f, {t.cur, elseB})
    && |t.layout| + 2 <= |f.layout|
    && t.layout <= f.layout
    && f.layout[|t.layout|] == elseB
    && f.layout[|f.layout| - 1] == joinB
    && f.layout[|f.layout| - 2] in f.code
    && EndsWith(f.code[f.layout[|f.layout| - 2]], Br(joinB))
  }

  /** The jump to the join block from the else-branch's end `u`, which `s5` (at the else-block) led to. */
  lemma JoinShape(t: State, s5: State, u: State, elseB: BlockId, joinB: BlockId)
    requires Valid(t) && Valid(u) && joinB in u.code && t.cur != elseB
    requires s5.layout == t.layout + [elseB] && s5.cur == elseB
    requires t.cur in s5.code && s5.code[t.cur] == t.code[t.cur].(instrs := t.code[t.cur].instrs + [Br(joinB)])
    requires Frame(t, s5, {t.cur}) && Frame(s5, u, {elseB}) && s5.layout <= u.layout
    requires u.cur == elseB || t.nextBlock <= u.cur
    ensures IfClosed(t, SwitchTo(Emit(u, Br(joinB)), joinB), elseB, joinB)
  {
    CloseShape(u, joinB);
    var f := SwitchTo(Emit(u, Br(joinB)), joinB);
    FrameTrans(t, s5, u, {t.cur}, {elseB});
    FrameTrans(t, u, f, {t.cur, elseB}, {u.cur});
    assert t.cur != u.cur;
  }

  /** The else-branch and the join, from the end `t` of the then-branch. */
  lemma IfCloseShape(base: State, t: State, s: Stmt, elseB: BlockId, joinB: BlockId, g: Gen)
    requires ThenEnd(base, t, elseB, joinB) && s.If?
    requires g == IfElse(t, s, elseB, joinB)
    ensures g.Gen? ==> g.val == Some(BlockRef(joinB)) && IfClosed(t, g.st, elseB, joinB)
  {
    var s5 := SwitchTo(Emit(t, Br(joinB)), elseB);
    EmitSwitchGrows(base, t, Br(joinB), elseB);
    assert t.cur != elseB by {
      assert t.layout[|t.layout| - 1] == t.cur;
    }
    assert Frame(t, s5, {t.cur});
    var ge := if s.elseBranch.Some? then Nested(s5, s.elseBranch.value) else Gen(s5, None);
    ElseShape(s5, s, ge);
    if ge.Gen? {
      JoinShape(t, s5, ge.st, elseB, joinB);
    }
  }

  /**
   * The branches of an `If` seen from the then-block `s4`: the join block is
   * attached last and current, both the block before the else-block and the
   * block before the join block end with a jump to the join block, and no
   * block existing at `s4` other than the then- and else-blocks changes.
   */
  ghost predicate IfBranched(s4: State, f: State, elseB: BlockId, joinB: BlockId) {
    && f.cur == joinB
    && Frame(s4, f, {s4.cur, elseB})
    && s4.layout <= f.layout
    && |s4.layout| + 2 <= |f.layout|
    && f.layout[|f.layout| - 1] == joinB
    && f.layout[|f.layout| - 2] in f.code
    && EndsWith(f.code[f.layout[|f.layout| - 2]], Br(joinB))
    && (exists k :: 1 <= k && |s4.layout| <= k < |f.layout| - 1 && f.layout[k] == elseB
          && f.layout[k - 1] in f.code && EndsWith(f.code[f.layout[k - 1]], Br(joinB)))
  }

  /** `t`, reached from `s4` by growing, changes no block of `s4` but its insertion block. */
  ghost predicate FramedFrom(s4: State, t: State) {
    && Valid(t)
    && Frame(s4, t, {s4.cur})
    && s4.layout <= t.layout
    && (t.cur == s4.cur || t.cur !in s4.code)
  }

  /** The then-branch, lowered from the then-block `s4`, as `Grows` sees it. */
  lemma ThenShape(s4: State, s: Stmt)
    requires Valid(s4) && s.If?
    ensures var gt := Nested(s4, s.thenBranch); gt.Gen? ==> FramedFrom(s4, gt.st)
  {
    NestedValid(s4, s.thenBranch);
    var gt := Nested(s4, s.thenBranch);
    if gt.Gen? {
      CurrentIsOldOrFresh(s4, gt.st);
    }
  }

  /** Both branches of an `If` and the join, from the then-block `s4`. */
  lemma IfThenShape(base: State, s4: State, s: Stmt, g: Gen)
    requires Valid(base) && Valid(s4) && StmtStep(base, s4) && s4.nextBlock == base.nextBlock + 3
    requires base.nextBlock + 1 in s4.code && base.nextBlock + 2 in s4.code
    requires Avoids(s4.layout, base.nextBlock + 1) && Avoids(s4.layout, base.nextBlock + 2)
    requires s.If? && g == IfThen(s4, s, base.nextBlock + 1, base.nextBlock + 2)
    ensures g.Gen? ==> g.val == Some(BlockRef(base.nextBlock + 2)) && IfBranched(s4, g.st, base.nextBlock + 1, base.nextBlock + 2)
  {
    ThenValid(base, s4, s);
    ThenShape(s4, s);
    var gt := Nested(s4, s.thenBranch);
    if gt.Gen? {
      ElseAndJoinShape(base, s4, gt.st, s, g);
    }
  }

  /** The else-branch and the join, after the then-branch led from `s4` to `t`. */
  lemma ElseAndJoinShape(base: State, s4: State, t: State, s: Stmt, g: Gen)
    requires |s4.layout| > 0 && s.If?
    requires ThenEnd(base, t, base.nextBlock + 1, base.nextBlock + 2) && FramedFrom(s4, t)
    requires g == IfElse(t, s, base.nextBlock + 1, base.nextBlock + 2)
    ensures g.Gen? ==> g.val == Some(BlockRef(base.nextBlock + 2)) && IfBranched(s4, g.st, base.nextBlock + 1, base.nextBlock + 2)
  {
    IfCloseShape(base, t, s, base.nextBlock + 1, base.nextBlock + 2, g);
    if g.Gen? {
      BranchedFrom(s4, t, g.st, base.nextBlock + 1, base.nextBlock + 2);
    }
  }

  /** Composes the then-branch's frame from `s4` to `t` with the close from `t` to `f`. */
  lemma BranchedFrom(s4: State, t: State, f: State, elseB: BlockId, joinB: BlockId)
    requires |s4.layout| > 0 && FramedFrom(s4, t)
    requires IfClosed(t, f, elseB, joinB)
    ensures IfBranched(s4, f, elseB, joinB)
  {
    FrameTrans(s4, t, f, {s4.cur}, {t.cur, elseB});
    var k := |t.layout|;
    assert f.layout[k - 1] == t.cur;
  }

  /**
   * The entry of an `If` whose condition was lowered to the state `t` with
   * value `c`, where `n` is the first block id the `If` creates: the
   * condition's block ends with the conditional branch to the then-block `n`
   * and the else-block `n + 1`, and the then-block is attached right after
   * the blocks attached at `t`. No other block existing at `t` changes.
   */
  ghost predicate IfEntered(t: State, c: Value, f: State) {
    var n := t.nextBlock;
    && t.cur in t.code && t.cur in f.code
    && f.code[t.cur] == t.code[t.cur].(instrs := t.code[t.cur].instrs + [CondBr(c, n, n + 1)])
    && Frame(t, f, {t.cur})
    && t.layout + [n] <= f.layout
  }

  /**
   * The exit of an `If` opened at `t`: the join block `n + 2` is attached
   * last, is empty and is the insertion block, and the block attached
   * before it jumps to it.
   */
  ghost predicate IfJoined(t: State, f: State) {
    var n := t.nextBlock;
    && |t.layout| + 3 <= |f.layout|
    && f.cur == n + 2
    && n + 2 in f.code && f.code[n + 2] == Block(IfCont, [])
    && f.layout[|f.layout| - 1] == n + 2
    && f.layout[|f.layout| - 2] in f.code
    && EndsWith(f.code[f.layout[|f.layout| - 2]], Br(n + 2))
  }

  /**
   * Where the else block `n + 1` of an `If` opened at `t` sits in the final
   * layout of `f`: after the entry's blocks, before the join block, and
   * right after a block that jumps to the join block.
   */
  ghost predicate ElsePlaced(t: State, f: State) {
    var n := t.nextBlock;
    exists k :: |t.layout| < k < |f.layout| - 1 && f.layout[k] == n + 1
      && f.layout[k - 1] in f.code && EndsWith(f.code[f.layout[k - 1]], Br(n + 2))
  }

  /** A completed `If` opened at `t` on condition `c`, ending in `f`. */
  ghost predicate IfShaped(t: State, c: Value, f: State) {
    IfEntered(t, c, f) && IfJoined(t, f) && ElsePlaced(t, f)
  }

  /** The opening's effects composed with the branches' from the then-block `s4` to `f`. */
  lemma IfShapedFrom(t: State, c: Value, s4: State, f: State)
    requires t.nextBlock !in t.code && t.nextBlock + 1 !in t.code
    requires IfOpened(t, c, s4) && IfBranched(s4, f, t.nextBlock + 1, t.nextBlock + 2)
    ensures IfShaped(t, c, f)
  {
    var n := t.nextBlock;
    FrameTrans(t, s4, f, {t.cur}, {n, n + 1});
    assert Frame(t, f, {t.cur});
    var k :| 1 <= k && |s4.layout| <= k < |f.layout| - 1 && f.layout[k] == n + 1
             && f.layout[k - 1] in f.code && EndsWith(f.code[f.layout[k - 1]], Br(n + 2));
    assert |t.layout| < k;
  }

  /**
   * The blocks of an `If` whose condition was lowered to the valid state `t`
   * with value `c`: laid out as `IfEntered`, `IfJoined`
   * and `ElsePlaced` describe, with the join block as the value.
   */
  lemma IfBlocksShape(t: State, c: Value, s: Stmt, g: Gen)
    requires Valid(t) && s.If?
    requires g == IfBranches(t, c, s)
    ensures g.Gen? ==> g.val == Some(BlockRef(t.nextBlock + 2)) && IfShaped(t, c, g.st)
  {
    IfBranchesUnfold(t, c, s);
    IfOpenedShape(t, c, s, g);
  }

  /** `IfBlocksShape`, once the opening is unfolded. */
  lemma IfOpenedShape(t: State, c: Value, s: Stmt, g: Gen)
    requires Valid(t) && s.If?
    requires g == IfThen(IfOpen(t, c), s, t.nextBlock + 1, t.nextBlock + 2)
    ensures g.Gen? ==> g.val == Some(BlockRef(t.nextBlock + 2)) && IfShaped(t, c, g.st)
  {
    IfOpenValid(t, c);
    IfOpenShape(t, c);
    IfThenShape(t, IfOpen(t, c), s, g);
    if g.Gen? {
      IfShapedFrom(t, c, IfOpen(t, c), g.st);
    }
  }

  /** `IfBlocksShape` for the state `t` an expression lowering led to from the valid state `st`. */
  lemma IfCondShape(st: State, t: State, c: Value, s: Stmt, g: Gen)
    requires Valid(st) && ExprStep(st, t) && s.If?
    requires g == IfBranches(t, c, s)
    ensures g.Gen? ==> g.val == Some(BlockRef(t.nextBlock + 2)) && IfShaped(t, c, g.st)
  {
    ExprStepValid(st, t);
    IfBlocksShape(t, c, s, g);
  }

  /**
   * `If` with a condition that has a value: the condition's instructions
   * stay in the entry block, which then ends with the branch to the
   * then/else blocks; the branches are laid out as `IfEntered`, `IfJoined`
   * and `ElsePlaced` describe, and the join block is the value.
   */
  lemma IfShape(st: State, s: Stmt)
    requires Valid(st) && s.If?
    ensures var gc := GenExpr(st, s.cond); var g := GenIf(st, s);
      gc.Gen? && gc.val.Some? && g.Gen? ==>
        g.val == Some(BlockRef(gc.st.nextBlock + 2)) && IfShaped(gc.st, gc.val.value, g.st)
  {
    var gc := GenExpr(st, s.cond);
    if gc.Gen? && gc.val.Some? {
      IfCondShape(st, gc.st, gc.val.value, s, GenIf(st, s));
    }
  }

  /** `If` with a null condition: the statement ends before any block is created. */
  lemma IfNullCondition(st: State, s: Stmt)
    requires st.cur in st.code && s.If?
    ensures var gc := GenExpr(st, s.cond);
      gc.Gen? && gc.val.None? ==>
        GenIf(st, s) == Gen(gc.st, None) && gc.st.layout == st.layout && gc.st.nextBlock == st.nextBlock
  {
  }

  /**
   * The back edge of a `While` from the end `t` of its body: the body's last
   * block gets the condition's instructions again and the conditional branch
   * to the loop and after blocks; the after block is attached and current,
   * and the break target is `prev` again.
   */
  ghost predicate LoopClosed(t: State, f: State, cond: Expr, loopB: BlockId, afterB: BlockId, prev: Option<BlockId>) {
    && f.cur == afterB
    && f.layout == t.layout + [afterB]
    && f.breakTarget == prev
    && f.namedValues == t.namedValues
    && t.cur in t.code && t.cur in f.code
    && Frame(t, f, {t.cur})
    && t.code[t.cur].instrs <= f.code[t.cur].instrs
    && ExprSketch(cond, t.namedValues.Keys).Emits?
    && Opcodes(f.code[t.cur].instrs[|t.code[t.cur].instrs|..]) == ExprSketch(cond, t.namedValues.Keys).ops + [OpCondBr]
    && EndsWithCondBr(f.code[t.cur], loopB, afterB)
  }

  /** The back edge: a null condition crashes the branch; otherwise `LoopClosed`. */
  lemma WhileBackShape(t: State, s: Stmt, loopB: BlockId, afterB: BlockId, prev: Option<BlockId>, g: Gen)
    requires t.cur in t.code && afterB in t.code && afterB != t.cur && s.While?
    requires g == WhileBack(t, s, loopB, afterB, prev)
    ensures var gc := GenExpr(t, s.cond); gc.Gen? && gc.val.None? ==> g == Crash(CondBrOnNull)
    ensures g.Gen? ==> g.val.None? && LoopClosed(t, g.st, s.cond, loopB, afterB, prev)
  {
    GenExprAgrees(t, s.cond);
    var gc := GenExpr(t, s.cond);
    if gc.Gen? && gc.val.Some? {
      var br := CondBr(gc.val.value, loopB, afterB);
      BackEdgeShape(t, gc.st, s.cond, br, afterB, prev);
    }
  }

  /** The conditional branch after the condition was lowered again from `t` to `u`. */
  lemma BackEdgeShape(t: State, u: State, cond: Expr, br: Instr, afterB: BlockId, prev: Option<BlockId>)
    requires ExprStep(t, u) && afterB in t.code && afterB != t.cur && br.CondBr? && br.ifFalse == afterB
    requires ExprSketch(cond, t.namedValues.Keys).Emits? && Opcodes(Emitted(t, u)) == ExprSketch(cond, t.namedValues.Keys).ops
    ensures LoopClosed(t, SwitchTo(Emit(u, br), afterB).(breakTarget := prev), cond, br.ifTrue, afterB, prev)
  {
    var e := Emit(u, br);
    assert e.code[t.cur].instrs[|t.code[t.cur].instrs|..] == Emitted(t, u) + [br];
    OpcodesConcat(Emitted(t, u), [br]);
  }

  /**
   * A `While` seen from its loop block `s3`: the after block is attached
   * last, current and untouched; the block before it closes the loop with
   * the condition's instructions and the conditional branch; the break
   * target is `prev` again; and no block existing at `s3` other than the
   * loop block changes.
   */
  ghost predicate LoopBodied(s3: State, f: State, cond: Expr, loopB: BlockId, afterB: BlockId, prev: Option<BlockId>) {
    && f.cur == afterB
    && f.breakTarget == prev
    && Frame(s3, f, {s3.cur})
    && s3.layout <= f.layout
    && |s3.layout| + 1 <= |f.layout| && 2 <= |f.layout|
    && f.layout[|f.layout| - 1] == afterB
    && f.layout[|f.layout| - 2] in f.code
    && ExprSketch(cond, s3.namedValues.Keys).Emits?
    && EndsWithOps(f.code[f.layout[|f.layout| - 2]], ExprSketch(cond, s3.namedValues.Keys).ops + [OpCondBr])
    && EndsWithCondBr(f.code[f.layout[|f.layout| - 2]], loopB, afterB)
  }

  /** The loop body, lowered from the loop block `s3`, as `Grows` sees it. */
  lemma BodyShape(s3: State, s: Stmt)
    requires Valid(s3) && s.While?
    ensures var gb := Nested(s3, s.body);
      gb.Gen? ==> FramedFrom(s3, gb.st) && gb.st.namedValues == s3.namedValues
  {
    NestedValid(s3, s.body);
    var gb := Nested(s3, s.body);
    if gb.Gen? {
      CurrentIsOldOrFresh(s3, gb.st);
    }
  }

  /** Composes the body's frame from `s3` to `t` with the back edge from `t` to `f`. */
  lemma BodiedFrom(s3: State, t: State, f: State, cond: Expr, loopB: BlockId, afterB: BlockId, prev: Option<BlockId>)
    requires |s3.layout| > 0 && FramedFrom(s3, t) && t.namedValues == s3.namedValues
    requires LoopClosed(t, f, cond, loopB, afterB, prev)
    ensures LoopBodied(s3, f, cond, loopB, afterB, prev)
  {
    FrameTrans(s3, t, f, {s3.cur}, {t.cur});
    var b := f.code[t.cur];
    var m := |t.code[t.cur].instrs|;
    assert f.layout[|f.layout| - 2] == t.cur;
    assert b.instrs[|b.instrs| - (|b.instrs| - m)..] == b.instrs[m..];
  }

  /** The loop body and the back edge, from the loop block `s3`. */
  lemma WhileBodyShape(base: State, s3: State, s: Stmt, g: Gen)
    requires Valid(s3) && s3.cur == base.nextBlock && base.nextBlock + 1 in s3.code && s.While?
    requires g == WhileBody(s3, s, base.nextBlock, base.nextBlock + 1, base.breakTarget)
    ensures g.Gen? ==> g.val.None? && LoopBodied(s3, g.st, s.cond, base.nextBlock, base.nextBlock + 1, base.breakTarget)
  {
    BodyShape(s3, s);
    var gb := Nested(s3, s.body);
    if gb.Gen? {
      BackShape(s3, gb.st, s, base.nextBlock, base.nextBlock + 1, base.breakTarget, g);
    }
  }

  /** The back edge after the body led from `s3` to `t`. */
  lemma BackShape(s3: State, t: State, s: Stmt, loopB: BlockId, afterB: BlockId, prev: Option<BlockId>, g: Gen)
    requires |s3.layout| > 0 && afterB in s3.code && afterB != s3.cur && s.While?
    requires FramedFrom(s3, t) && t.namedValues == s3.namedValues
    requires g == WhileBack(t, s, loopB, afterB, prev)
    ensures g.Gen? ==> g.val.None? && LoopBodied(s3, g.st, s.cond, loopB, afterB, prev)
  {
    WhileBackShape(t, s, loopB, afterB, prev, g);
    if g.Gen? {
      BodiedFrom(s3, t, g.st, s.cond, loopB, afterB, prev);
    }
  }

  /**
   * The whole `While` after its condition was lowered to the state `t` with
   * value `c`, where `n` is the first block id the loop creates: the
   * condition's block ends with the conditional branch to the loop block `n`
   * and the after block `n + 1`; the loop block is attached right after it;
   * the block before the after block ends with the condition's instructions
   * again and a conditional branch to the same two blocks; the after block is
   * attached last, empty and current; the break target is restored. No other
   * block existing at `t` changes.
   */
  ghost predicate WhileShaped(t: State, c: Value, cond: Expr, f: State) {
    var n := t.nextBlock;
    && t.cur in t.code && t.cur in f.code
    && f.code[t.cur] == t.code[t.cur].(instrs := t.code[t.cur].instrs + [CondBr(c, n, n + 1)])
    && Frame(t, f, {t.cur})
    && |t.layout| + 2 <= |f.layout|
    && t.layout + [n] <= f.layout
    && f.cur == n + 1
    && n + 1 in f.code && f.code[n + 1] == Block(After, [])
    && f.layout[|f.layout| - 1] == n + 1
    && f.layout[|f.layout| - 2] in f.code
    && ExprSketch(cond, t.namedValues.Keys).Emits?
    && EndsWithOps(f.code[f.layout[|f.layout| - 2]], ExprSketch(cond, t.namedValues.Keys).ops + [OpCondBr])
    && EndsWithCondBr(f.code[f.layout[|f.layout| - 2]], n, n + 1)
    && f.breakTarget == t.breakTarget
  }

  /** The opening's effects composed with the body's and back edge's from the loop block `s3` to `f`. */
  lemma WhileShapedFrom(t: State, c: Value, cond: Expr, s3: State, f: State)
    requires t.nextBlock !in t.code
    requires WhileOpened(t, c, s3) && LoopBodied(s3, f, cond, t.nextBlock, t.nextBlock + 1, t.breakTarget)
    ensures WhileShaped(t, c, cond, f)
  {
    FrameTrans(t, s3, f, {t.cur}, {t.nextBlock});
    assert Frame(t, f, {t.cur});
  }

  /** The `While` after its condition `c` was lowered to `t`. */
  lemma WhileBlocksShape(t: State, c: Value, s: Stmt, g: Gen)
    requires Valid(t) && s.While?
    requires g == WhileLoop(t, c, s)
    ensures g.Gen? ==> g.val.None? && WhileShaped(t, c, s.cond, g.st)
  {
    WhileLoopUnfold(t, c, s);
    WhileOpenedShape(t, c, s, g);
  }

  /** `WhileBlocksShape`, once the opening is unfolded. */
  lemma WhileOpenedShape(t: State, c: Value, s: Stmt, g: Gen)
    requires Valid(t) && s.While?
    requires g == WhileBody(WhileOpen(t, c), s, t.nextBlock, t.nextBlock + 1, t.breakTarget)
    ensures g.Gen? ==> g.val.None? && WhileShaped(t, c, s.cond, g.st)
  {
    WhileOpenValid(t, c);
    WhileOpenShape(t, c);
    WhileBodyShape(t, WhileOpen(t, c), s, g);
    if g.Gen? {
      WhileShapedFrom(t, c, s.cond, WhileOpen(t, c), g.st);
    }
  }

  /** `While` with a null condition: the statement ends before any block is created. */
  lemma WhileNullCondition(st: State, s: Stmt)
    requires st.cur in st.code && s.While?
    ensures var gc := GenExpr(st, s.cond);
      gc.Gen? && gc.val.None? ==>
        GenWhile(st, s) == Gen(gc.st, None) && gc.st.layout == st.layout && gc.st.nextBlock == st.nextBlock
  {
  }

  /** `While` with a condition: the lowering has the shape `WhileShaped` describes and yields no value. */
  lemma WhileShape(st: State, s: Stmt)
    requires Valid(st) && s.While?
    ensures var gc := GenExpr(st, s.cond); var g := GenWhile(st, s);
      gc.Gen? && gc.val.Some? && g.Gen? ==> g.val.None? && WhileShaped(gc.st, gc.val.value, s.cond, g.st)
  {
    var gc := GenExpr(st, s.cond);
    if gc.Gen? && gc.val.Some? {
      WhileCondShape(st, gc.st, gc.val.value, s, GenWhile(st, s));
    }
  }

  /** `WhileBlocksShape` for the state `t` an expression lowering led to from the valid state `st`. */
  lemma WhileCondShape(st: State, t: State, c: Value, s: Stmt, g: Gen)
    requires Valid(st) && ExprStep(st, t) && s.While?
    requires g == WhileLoop(t, c, s)
    ensures g.Gen? ==> g.val.None? && WhileShaped(t, c, s.cond, g.st)
  {
    ExprStepValid(st, t);
    WhileBlocksShape(t, c, s, g);
  }

  /**
   * A block that received a condition's instructions from `st` to `u` and
   * then a conditional branch ends with the condition's instruction kinds
   * and the branch.
   */
  lemma ConditionThenBranch(st: State, u: State, cond: Expr, br: Instr, b: Block)
    requires ExprStep(st, u) && br.CondBr?
    requires ExprSketch(cond, st.namedValues.Keys).Emits? && Opcodes(Emitted(st, u)) == ExprSketch(cond, st.namedValues.Keys).ops
    requires b == u.code[st.cur].(instrs := u.code[st.cur].instrs + [br])
    ensures EndsWithOps(b, ExprSketch(cond, st.namedValues.Keys).ops + [OpCondBr])
  {
    var ops := ExprSketch(cond, st.namedValues.Keys).ops + [OpCondBr];
    assert b.instrs[|b.instrs| - |ops|..] == Emitted(st, u) + [br];
    OpcodesConcat(Emitted(st, u), [br]);
  }

  /**
   * Both the block a `While` starts in and the block that closes the loop
   * end with the condition's instruction kinds and a conditional branch.
   */
  ghost predicate ConditionTwice(st: State, cond: Expr, f: State) {
    && st.cur in f.code
    && 2 <= |f.layout|
    && f.layout[|f.layout| - 2] in f.code
    && ExprSketch(cond, st.namedValues.Keys).Emits?
    && EndsWithOps(f.code[st.cur], ExprSketch(cond, st.namedValues.Keys).ops + [OpCondBr])
    && EndsWithOps(f.code[f.layout[|f.layout| - 2]], ExprSketch(cond, st.namedValues.Keys).ops + [OpCondBr])
  }

  lemma ConditionTwiceFrom(st: State, t: State, c: Value, cond: Expr, f: State)
    requires ExprStep(st, t)
    requires ExprSketch(cond, st.namedValues.Keys).Emits? && Opcodes(Emitted(st, t)) == ExprSketch(cond, st.namedValues.Keys).ops
    requires WhileShaped(t, c, cond, f)
    ensures ConditionTwice(st, cond, f)
  {
    ConditionThenBranch(st, t, cond, CondBr(c, t.nextBlock, t.nextBlock + 1), f.code[st.cur]);
  }

  /**
   * The loop condition is lowered twice with the same instruction kinds,
   * once before the loop and once to close it, each time followed by the
   * conditional branch.
   */
  lemma WhileConditionTwice(st: State, s: Stmt)
    requires Valid(st) && s.While?
    ensures var gc := GenExpr(st, s.cond); var g := GenWhile(st, s);
      gc.Gen? && gc.val.Some? && g.Gen? ==> ConditionTwice(st, s.cond, g.st)
  {
    WhileShape(st, s);
    GenExprAgrees(st, s.cond);
    var gc := GenExpr(st, s.cond);
    var g := GenWhile(st, s);
    if gc.Gen? && gc.val.Some? && g.Gen? {
      ConditionTwiceFrom(st, gc.st, gc.val.value, s.cond, g.st);
    }
  }
}
