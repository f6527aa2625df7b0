/**
 * Where the children of an `If` and a `While` are lowered: the state each
 * child starts from (insertion block, break target, blocks created so far)
 * and how the child's result is embedded in the statement's result.
 */
module StmtChildren {
  import opened Wrappers
  import opened Ast
  import opened IR
  import opened Builder
  import opened ExprGen
  import opened ExprValues
  import opened StmtGen
  import opened StmtValid

  /** Ends the insertion block of `u` with `term` and continues in `next`, attached at the end. */
  function EndBlock(u: State, term: Instr, next: BlockId): State
    requires u.cur in u.code
  {
    u.(code := u.code[u.cur := u.code[u.cur].(instrs := u.code[u.cur].instrs + [term])],
       layout := u.layout + [next], cur := next)
  }

  /**
   * The state the then-branch of an `If` starts from, when the condition
   * ended in `t` with value `c`: with `n` the next block identity, the
   * condition's block branches to `n` or `n + 1`; the empty then-block `n`
   * is attached and current; the empty else-block `n + 1` and join block
   * `n + 2` exist but are detached.
   */
  function IfEntry(t: State, c: Value): State
    requires t.cur in t.code
  {
    var n := t.nextBlock;
    var head := t.code[t.cur].(instrs := t.code[t.cur].instrs + [CondBr(c, n, n + 1)]);
    t.(code := t.code[t.cur := head][n := Block(Then, [])][n + 1 := Block(Else, [])][n + 2 := Block(IfCont, [])],
       layout := t.layout + [n], cur := n, nextBlock := n + 3)
  }

  /**
   * The state the body of a `While` starts from: the condition's block
   * branches to the loop block `n` or the after-block `n + 1`; the empty
   * loop block is attached and current, the empty after-block is detached
   * and is the break target.
   */
  function LoopEntry(t: State, c: Value): State
    requires t.cur in t.code
  {
    var n := t.nextBlock;
    var head := t.code[t.cur].(instrs := t.code[t.cur].instrs + [CondBr(c, n, n + 1)]);
    t.(code := t.code[t.cur := head][n := Block(Loop, [])][n + 1 := Block(After, [])],
       layout := t.layout + [n], cur := n, breakTarget := Some(n + 1), nextBlock := n + 2)
  }

  /**
   * The outcome of the branches of an `If` whose then-branch starts from
   * `e0`, with else-block `elseB` and join block `joinB`: the then-branch's
   * last block jumps to the join block and the else-block follows; the
   * else-branch (if any) is lowered from there; its last block jumps to the
   * join block, which is attached last, current, and the value. A crash of
   * either branch is the outcome.
   */
  ghost function BranchesOutcome(e0: State, s: Stmt, elseB: BlockId, joinB: BlockId): Gen
    requires e0.cur in e0.code && s.If? && elseB in e0.code
  {
    var gt := GenStmt(e0, s.thenBranch);
    if gt.Crash? then gt
    else
      var e := EndBlock(gt.st, Br(joinB), elseB);
      var ge := if s.elseBranch.Some? then GenStmt(e, s.elseBranch.value) else Gen(e, None);
      if ge.Crash? then ge
      else Gen(EndBlock(ge.st, Br(joinB), joinB), Some(BlockRef(joinB)))
  }

  /**
   * The outcome of the body and back edge of a `While` whose body starts
   * from `e0`, with loop block `loopB`, after-block `afterB` and previous
   * break target `prev`: the condition is lowered again where the body
   * ended; that block branches back to the loop block or on to the
   * after-block, which is attached last and current; the break target is
   * `prev` again. A crash of the body or of the second condition is the
   * outcome, and a null second condition crashes.
   */
  ghost function BodyOutcome(e0: State, s: Stmt, loopB: BlockId, afterB: BlockId, prev: Option<BlockId>): Gen
    requires e0.cur in e0.code && s.While?
  {
    var gb := GenStmt(e0, s.body);
    if gb.Crash? then gb
    else
      var gc := GenExpr(gb.st, s.cond);
      if gc.Crash? then gc
      else if gc.val.None? then Crash(CondBrOnNull)
      else Gen(EndBlock(gc.st, CondBr(gc.val.value, loopB, afterB), afterB).(breakTarget := prev), None)
  }

  /** `IfOpen` is `IfEntry`: the opening of an `If` creates exactly the blocks and branch described there. */
  lemma IfOpenIsEntry(t: State, c: Value)
    requires t.cur in t.code && t.cur < t.nextBlock
    ensures IfOpen(t, c) == IfEntry(t, c)
  {
  }

  /** `WhileOpen` is `LoopEntry`. */
  lemma WhileOpenIsEntry(t: State, c: Value)
    requires t.cur in t.code && t.cur < t.nextBlock
    ensures WhileOpen(t, c) == LoopEntry(t, c)
  {
  }

  lemma ChildIsGenStmt(st: State, x: Stmt)
    requires st.cur in st.code
    ensures Child(st, x) == GenStmt(st, x)
  {
  }

  /** The forwarding levels add nothing: a nested statement is lowered by `GenStmt`. */
  lemma NestedIsGenStmt(st: State, x: Stmt)
    requires st.cur in st.code
    ensures Nested(st, x) == GenStmt(st, x)
  {
    ChildIsGenStmt(st, x);
  }

  /** The else-branch and the join, from the end `u` of the then-branch. */
  lemma ElseOutcome(u: State, s: Stmt, elseB: BlockId, joinB: BlockId)
    requires u.cur in u.code && s.If? && elseB in u.code && joinB in u.code
    ensures var e := EndBlock(u, Br(joinB), elseB);
      var ge := if s.elseBranch.Some? then GenStmt(e, s.elseBranch.value) else Gen(e, None);
      var g := IfElse(u, s, elseB, joinB);
      && (ge.Crash? ==> g == ge)
      && (ge.Gen? ==> g == Gen(EndBlock(ge.st, Br(joinB), joinB), Some(BlockRef(joinB))))
  {
    var e := EndBlock(u, Br(joinB), elseB);
    assert SwitchTo(Emit(u, Br(joinB)), elseB) == e;
    if s.elseBranch.Some? {
      NestedIsGenStmt(e, s.elseBranch.value);
    }
  }

  /** Both branches of an `If`, from the then-block state `e0`. */
  lemma {:induction false} ThenOutcome(e0: State, s: Stmt, elseB: BlockId, joinB: BlockId)
    requires e0.cur in e0.code && s.If? && elseB in e0.code && joinB in e0.code
    ensures IfThen(e0, s, elseB, joinB) == BranchesOutcome(e0, s, elseB, joinB)
  {
    NestedIsGenStmt(e0, s.thenBranch);
    var gt := GenStmt(e0, s.thenBranch);
    if gt.Gen? {
      ElseOutcome(gt.st, s, elseB, joinB);
    }
  }

  /** The blocks and branches of an `If` whose condition ended in `t` with value `c`. */
  lemma IfBranchesOutcome(t: State, c: Value, s: Stmt)
    requires t.cur in t.code && s.If?
    ensures IfBranches(t, c, s) == BranchesOutcome(IfOpen(t, c), s, t.nextBlock + 1, t.nextBlock + 2)
  {
    ThenOutcome(IfOpen(t, c), s, t.nextBlock + 1, t.nextBlock + 2);
    IfBranchesUnfold(t, c, s);
  }

  /**
   * `If::GenerateIR` whose condition lowers to the state `t` and the
   * non-null value `c`: the then-branch is lowered by `GenStmt` from the
   * then-block state `IfEntry(t, c)`, and the else-branch from the
   * else-block that follows; each branch's last block gains only the jump
   * to the join block (`BranchesOutcome`).
   */
  lemma IfChildren(st: State, s: Stmt, t: State, c: Value)
    requires st.cur in st.code && st.cur < st.nextBlock && s.If?
    requires GenExpr(st, s.cond) == Gen(t, Some(c))
    ensures IfOpen(t, c) == IfEntry(t, c)
    ensures GenIf(st, s) == BranchesOutcome(IfOpen(t, c), s, t.nextBlock + 1, t.nextBlock + 2)
  {
    assert ExprStep(st, t);
    IfOpenIsEntry(t, c);
    IfBranchesOutcome(t, c, s);
  }

  /** The body and back edge of a `While`, from the loop-block state `e0`. */
  lemma BodyOutcomeFrom(e0: State, s: Stmt, loopB: BlockId, afterB: BlockId, prev: Option<BlockId>)
    requires e0.cur in e0.code && s.While? && afterB in e0.code
    ensures WhileBody(e0, s, loopB, afterB, prev) == BodyOutcome(e0, s, loopB, afterB, prev)
  {
    NestedIsGenStmt(e0, s.body);
    var gb := GenStmt(e0, s.body);
    if gb.Gen? {
      var gc := GenExpr(gb.st, s.cond);
      if gc.Gen? && gc.val.Some? {
        assert SwitchTo(Emit(gc.st, CondBr(gc.val.value, loopB, afterB)), afterB)
          == EndBlock(gc.st, CondBr(gc.val.value, loopB, afterB), afterB);
      }
    }
  }

  /** The blocks, body and back edge of a `While` whose condition ended in `t` with value `c`. */
  lemma WhileLoopOutcome(t: State, c: Value, s: Stmt)
    requires t.cur in t.code && s.While?
    ensures WhileLoop(t, c, s) == BodyOutcome(WhileOpen(t, c), s, t.nextBlock, t.nextBlock + 1, t.breakTarget)
  {
    WhileLoopUnfold(t, c, s);
    BodyOutcomeFrom(WhileOpen(t, c), s, t.nextBlock, t.nextBlock + 1, t.breakTarget);
  }

  /**
   * `While::GenerateIR` whose condition lowers to the state `t` and the
   * non-null value `c`: the body is lowered by `GenStmt` from the loop-block
   * state `LoopEntry(t, c)`, whose break target is the after-block; the back
   * edge follows as `BodyOutcome` states, and the break target is restored.
   */
  lemma WhileChildren(st: State, s: Stmt, t: State, c: Value)
    requires st.cur in st.code && st.cur < st.nextBlock && s.While?
    requires GenExpr(st, s.cond) == Gen(t, Some(c))
    ensures WhileOpen(t, c) == LoopEntry(t, c)
    ensures GenWhile(st, s) == BodyOutcome(WhileOpen(t, c), s, t.nextBlock, t.nextBlock + 1, t.breakTarget)
  {
    assert ExprStep(st, t);
    WhileOpenIsEntry(t, c);
    WhileLoopOutcome(t, c, s);
  }

  /** A then-branch `write(w)` and no else-branch, from the then-block state `e0`. */
  lemma WriteBranchOutcome(e0: State, s: Stmt, w: int, elseB: BlockId, joinB: BlockId)
    requires e0.cur in e0.code && elseB in e0.code && e0.cur != elseB
    requires s.If? && s.thenBranch == Write(Numb(w)) && s.elseBranch == None
    ensures var g := BranchesOutcome(e0, s, elseB, joinB);
      var call := Call(e0.nextReg, "printf", [StrPtr(|e0.unit.strings|), ConstInt(w)]);
      && g.Gen? && g.val == Some(BlockRef(joinB)) && g.st.cur == joinB
      && g.st.layout == e0.layout + [elseB, joinB]
      && g.st.code == e0.code[e0.cur := e0.code[e0.cur].(instrs := e0.code[e0.cur].instrs + [call, Br(joinB)])]
                             [elseB := e0.code[elseB].(instrs := e0.code[elseB].instrs + [Br(joinB)])]
  {
    var call := Call(e0.nextReg, "printf", [StrPtr(|e0.unit.strings|), ConstInt(w)]);
    var blk := e0.code[e0.cur];
    NumbValue(e0, w);
    var gt := GenStmt(e0, s.thenBranch);
    assert ArgOf(Some(ConstInt(w))) == ConstInt(w);
    assert gt == EmitFormattedCall(e0, "printf", PrintFormat, ConstInt(w));
    assert gt.st.code == e0.code[e0.cur := blk.(instrs := blk.instrs + [call])];
    var e := EndBlock(gt.st, Br(joinB), elseB);
    assert blk.instrs + [call] + [Br(joinB)] == blk.instrs + [call, Br(joinB)];
    assert e.code == e0.code[e0.cur := blk.(instrs := blk.instrs + [call, Br(joinB)])];
    assert e.cur == elseB && e.code[elseB] == e0.code[elseB];
  }

  /** Overwriting two of three fresh entries gives the map with the new values in place. */
  lemma OverwriteTwo<K, V>(m: map<K, V>, a: K, b: K, c: K, a0: V, b0: V, c0: V, a1: V, b1: V)
    requires a != b && b != c && a != c
    ensures m[a := a0][b := b0][c := c0][a := a1][b := b1] == m[a := a1][b := b1][c := c0]
  {
  }

  /** Filling the then- and else-blocks of an `If` entry state leaves the join block empty. */
  lemma IfEntryFilled(t: State, c: Value, thenBlock: Block, elseBlock: Block)
    requires t.cur in t.code && t.cur < t.nextBlock
    ensures var n := t.nextBlock;
      var head := t.code[t.cur].(instrs := t.code[t.cur].instrs + [CondBr(c, n, n + 1)]);
      IfEntry(t, c).code[n := thenBlock][n + 1 := elseBlock]
        == t.code[t.cur := head][n := thenBlock][n + 1 := elseBlock][n + 2 := Block(IfCont, [])]
  {
    var n := t.nextBlock;
    var head := t.code[t.cur].(instrs := t.code[t.cur].instrs + [CondBr(c, n, n + 1)]);
    OverwriteTwo(t.code[t.cur := head], n, n + 1, n + 2, Block(Then, []), Block(Else, []), Block(IfCont, []),
                 thenBlock, elseBlock);
  }

  /**
   * An `If` entry state whose then-block gains `call` and a jump to the join
   * block, and whose else-block gains only that jump.
   */
  lemma IfEntryBranched(t: State, c: Value, call: Instr)
    requires t.cur in t.code && t.cur < t.nextBlock
    ensures var n := t.nextBlock;
      var e0 := IfEntry(t, c);
      var head := t.code[t.cur].(instrs := t.code[t.cur].instrs + [CondBr(c, n, n + 1)]);
      && e0.cur == n && e0.nextReg == t.nextReg && e0.unit == t.unit && n + 1 in e0.code
      && e0.layout + [n + 1, n + 2] == t.layout + [n, n + 1, n + 2]
      && e0.code[n := e0.code[n].(instrs := e0.code[n].instrs + [call, Br(n + 2)])]
                [n + 1 := e0.code[n + 1].(instrs := e0.code[n + 1].instrs + [Br(n + 2)])]
         == t.code[t.cur := head][n := Block(Then, [call, Br(n + 2)])]
                  [n + 1 := Block(Else, [Br(n + 2)])][n + 2 := Block(IfCont, [])]
  {
    var n := t.nextBlock;
    var e0 := IfEntry(t, c);
    assert e0.code[n].(instrs := e0.code[n].instrs + [call, Br(n + 2)]) == Block(Then, [call, Br(n + 2)]);
    assert [] + [Br(n + 2)] == [Br(n + 2)];
    assert e0.code[n + 1].(instrs := e0.code[n + 1].instrs + [Br(n + 2)]) == Block(Else, [Br(n + 2)]);
    IfEntryFilled(t, c, Block(Then, [call, Br(n + 2)]), Block(Else, [Br(n + 2)]));
  }

  /**
   * `if (v) write(w)` with no else-branch, from the then-block entry state:
   * see `IfWriteInThen`.
   */
  lemma IfWriteFromEntry(t: State, s: Stmt, v: int, w: int)
    requires t.cur in t.code && t.cur < t.nextBlock
    requires s.If? && s.cond == Numb(v) && s.thenBranch == Write(Numb(w)) && s.elseBranch == None
    ensures var n := t.nextBlock;
      var g := BranchesOutcome(IfEntry(t, ConstInt(v)), s, n + 1, n + 2);
      var head := t.code[t.cur].(instrs := t.code[t.cur].instrs + [CondBr(ConstInt(v), n, n + 1)]);
      var call := Call(t.nextReg, "printf", [StrPtr(|t.unit.strings|), ConstInt(w)]);
      && g.Gen? && g.val == Some(BlockRef(n + 2)) && g.st.cur == n + 2
      && g.st.layout == t.layout + [n, n + 1, n + 2]
      && g.st.code == t.code[t.cur := head][n := Block(Then, [call, Br(n + 2)])]
                            [n + 1 := Block(Else, [Br(n + 2)])][n + 2 := Block(IfCont, [])]
  {
    var n := t.nextBlock;
    var e0 := IfEntry(t, ConstInt(v));
    WriteBranchOutcome(e0, s, w, n + 1, n + 2);
    IfEntryBranched(t, ConstInt(v), Call(t.nextReg, "printf", [StrPtr(|t.unit.strings|), ConstInt(w)]));
  }

  /**
   * `if (v) write(w)` with no else-branch: the condition's block branches
   * to the then- or else-block; the printf call is lowered into the
   * then-block, which then jumps to the join block; the else-block holds
   * only that jump; the join block is current, empty and the value.
   */
  lemma IfWriteInThen(st: State, s: Stmt, v: int, w: int)
    requires st.cur in st.code && st.cur < st.nextBlock
    requires s.If? && s.cond == Numb(v) && s.thenBranch == Write(Numb(w)) && s.elseBranch == None
    ensures var n := st.nextBlock;
      var g := GenIf(st, s);
      var head := st.code[st.cur].(instrs := st.code[st.cur].instrs + [CondBr(ConstInt(v), n, n + 1)]);
      var call := Call(st.nextReg, "printf", [StrPtr(|st.unit.strings|), ConstInt(w)]);
      && g.Gen? && g.val == Some(BlockRef(n + 2)) && g.st.cur == n + 2
      && g.st.layout == st.layout + [n, n + 1, n + 2]
      && g.st.code == st.code[st.cur := head][n := Block(Then, [call, Br(n + 2)])]
                             [n + 1 := Block(Else, [Br(n + 2)])][n + 2 := Block(IfCont, [])]
  {
    NumbValue(st, v);
    IfChildren(st, s, st, ConstInt(v));
    IfWriteFromEntry(st, s, v, w);
  }

  /**
   * A body `break` from the loop-block state `e0` whose break target is
   * `afterB`, with the condition `v`: the loop block jumps to a fresh break
   * block, which jumps to `afterB`; the fresh block after it holds the
   * second condition's branch.
   */
  lemma BreakBodyOutcome(e0: State, s: Stmt, v: int, loopB: BlockId, afterB: BlockId, prev: Option<BlockId>)
    requires e0.cur in e0.code && e0.cur < e0.nextBlock && afterB in e0.code
    requires e0.breakTarget == Some(afterB)
    requires s.While? && s.cond == Numb(v) && s.body == Break
    ensures var b := e0.nextBlock;
      var g := BodyOutcome(e0, s, loopB, afterB, prev);
      && g.Gen? && g.st.cur == afterB && g.st.breakTarget == prev
      && g.st.layout == e0.layout + [b, b + 1, afterB]
      && g.st.nextBlock == b + 2
      && g.st.code == e0.code[e0.cur := e0.code[e0.cur].(instrs := e0.code[e0.cur].instrs + [Br(b)])]
                             [b := Block(BreakBlock, [Br(afterB)])]
                             [b + 1 := Block(AftBreak, [CondBr(ConstInt(v), loopB, afterB)])]
  {
    var b: BlockId := e0.nextBlock;
    var blk := e0.code[e0.cur];
    var gb := GenStmt(e0, s.body);
    assert gb == GenBreak(e0);
    var s2 := NewBlock(NewBlock(e0, BreakBlock, true).0, AftBreak, false).0;
    assert s2.code == e0.code[b := Block(BreakBlock, [])][b + 1 := Block(AftBreak, [])];
    var s3 := SetInsertPoint(Emit(s2, Br(b)), b);
    assert s3.code == e0.code[b := Block(BreakBlock, [])][b + 1 := Block(AftBreak, [])][e0.cur := blk.(instrs := blk.instrs + [Br(b)])];
    assert s3.breakTarget == Some(afterB) && s3.cur == b;
    assert gb == Gen(SwitchTo(Emit(s3, Br(afterB)), b + 1), None);
    assert s3.code[b] == Block(BreakBlock, []);
    assert [] + [Br(afterB)] == [Br(afterB)];
    assert gb.st.code == e0.code[e0.cur := blk.(instrs := blk.instrs + [Br(b)])]
                               [b := Block(BreakBlock, [Br(afterB)])][b + 1 := Block(AftBreak, [])];
    assert gb.st.cur == b + 1 && gb.st.layout == e0.layout + [b, b + 1];
    NumbValue(gb.st, v);
    var br := CondBr(ConstInt(v), loopB, afterB);
    var f := EndBlock(gb.st, br, afterB).(breakTarget := prev);
    assert BodyOutcome(e0, s, loopB, afterB, prev) == Gen(f, None);
    assert [] + [br] == [br];
    assert e0.layout + [b, b + 1] + [afterB] == e0.layout + [b, b + 1, afterB];
  }

  /** Filling the loop block of a `While` entry state leaves the after-block empty. */
  lemma LoopEntryFilled(t: State, c: Value, loopBlock: Block)
    requires t.cur in t.code && t.cur < t.nextBlock
    ensures var n := t.nextBlock;
      var head := t.code[t.cur].(instrs := t.code[t.cur].instrs + [CondBr(c, n, n + 1)]);
      LoopEntry(t, c).code[n := loopBlock] == t.code[t.cur := head][n := loopBlock][n + 1 := Block(After, [])]
  {
  }

  /** A `While` entry state whose loop block gains only a jump to the block after it. */
  lemma LoopEntryBranched(t: State, c: Value)
    requires t.cur in t.code && t.cur < t.nextBlock
    ensures var n := t.nextBlock;
      var e0 := LoopEntry(t, c);
      var head := t.code[t.cur].(instrs := t.code[t.cur].instrs + [CondBr(c, n, n + 1)]);
      && e0.cur == n && e0.nextBlock == n + 2 && e0.breakTarget == Some(n + 1)
      && e0.layout + [n + 2, n + 3, n + 1] == t.layout + [n, n + 2, n + 3, n + 1]
      && e0.code[n := e0.code[n].(instrs := e0.code[n].instrs + [Br(n + 2)])]
         == t.code[t.cur := head][n := Block(Loop, [Br(n + 2)])][n + 1 := Block(After, [])]
  {
    var n := t.nextBlock;
    assert [] + [Br(n + 2)] == [Br(n + 2)];
    LoopEntryFilled(t, c, Block(Loop, [Br(n + 2)]));
  }

  /**
   * `while (v) break`, from the loop-block entry state: see
   * `WhileBreakTargetsAfter`.
   */
  lemma WhileBreakFromEntry(t: State, s: Stmt, v: int)
    requires t.cur in t.code && t.cur < t.nextBlock
    requires s.While? && s.cond == Numb(v) && s.body == Break
    ensures var n := t.nextBlock;
      var g := BodyOutcome(LoopEntry(t, ConstInt(v)), s, n, n + 1, t.breakTarget);
      var head := t.code[t.cur].(instrs := t.code[t.cur].instrs + [CondBr(ConstInt(v), n, n + 1)]);
      && g.Gen? && g.st.cur == n + 1 && g.st.breakTarget == t.breakTarget
      && g.st.layout == t.layout + [n, n + 2, n + 3, n + 1]
      && g.st.nextBlock == n + 4
      && g.st.code == t.code[t.cur := head][n := Block(Loop, [Br(n + 2)])][n + 1 := Block(After, [])]
                            [n + 2 := Block(BreakBlock, [Br(n + 1)])]
                            [n + 3 := Block(AftBreak, [CondBr(ConstInt(v), n, n + 1)])]
  {
    var n := t.nextBlock;
    BreakBodyOutcome(LoopEntry(t, ConstInt(v)), s, v, n, n + 1, t.breakTarget);
    LoopEntryBranched(t, ConstInt(v));
  }

  /**
   * `while (v) break`: the loop block jumps to the break block, which
   * jumps to the after-block; the second condition's branch is in the block
   * after the break; the after-block is current and empty, and the break
   * target is restored.
   */
  lemma WhileBreakTargetsAfter(st: State, s: Stmt, v: int)
    requires st.cur in st.code && st.cur < st.nextBlock
    requires s.While? && s.cond == Numb(v) && s.body == Break
    ensures var n := st.nextBlock;
      var g := GenWhile(st, s);
      var head := st.code[st.cur].(instrs := st.code[st.cur].instrs + [CondBr(ConstInt(v), n, n + 1)]);
      && g.Gen? && g.st.cur == n + 1 && g.st.breakTarget == st.breakTarget
      && g.st.layout == st.layout + [n, n + 2, n + 3, n + 1]
      && g.st.code == st.code[st.cur := head][n := Block(Loop, [Br(n + 2)])][n + 1 := Block(After, [])]
                             [n + 2 := Block(BreakBlock, [Br(n + 1)])]
                             [n + 3 := Block(AftBreak, [CondBr(ConstInt(v), n, n + 1)])]
  {
    var n := st.nextBlock;
    NumbValue(st, v);
    WhileChildren(st, s, st, ConstInt(v));
    WhileBreakFromEntry(st, s, v);
  }

  /**
   * `while (b) break` as a nested statement, block by block: the current
   * block gains the condition's branch, the four new blocks are as in
   * `WhileBreakTargetsAfter`, and every other earlier block is untouched.
   */
  lemma WhileBreakBlocks(u: State, w: Stmt, b: int)
    requires u.cur in u.code && u.cur < u.nextBlock
    requires w.While? && w.cond == Numb(b) && w.body == Break
    ensures var n := u.nextBlock;
      var g := GenStmt(u, w);
      && g.Gen? && g.st.cur == n + 1 && g.st.breakTarget == u.breakTarget
      && g.st.layout == u.layout + [n, n + 2, n + 3, n + 1]
      && {u.cur, n, n + 1, n + 2, n + 3} <= g.st.code.Keys
      && g.st.code[u.cur] == u.code[u.cur].(instrs := u.code[u.cur].instrs + [CondBr(ConstInt(b), n, n + 1)])
      && g.st.code[n] == Block(Loop, [Br(n + 2)])
      && g.st.code[n + 1] == Block(After, [])
      && g.st.code[n + 2] == Block(BreakBlock, [Br(n + 1)])
      && g.st.code[n + 3] == Block(AftBreak, [CondBr(ConstInt(b), n, n + 1)])
      && forall k :: k in u.code && k < n && k != u.cur ==> k in g.st.code && g.st.code[k] == u.code[k]
  {
    assert GenStmt(u, w) == GenWhile(u, w);
    WhileBreakTargetsAfter(u, w, b);
  }

  /**
   * The inner loop of `while (a) while (b) break`, from the outer loop's
   * entry state: its `break` jumps to the inner after-block `n + 3`, not
   * to the outer one, and the outer break target is back in force.
   */
  lemma InnerLoopFromEntry(t: State, s: Stmt, a: int, b: int)
    requires t.cur in t.code && t.cur < t.nextBlock
    requires s.While? && s.cond == Numb(a) && s.body.While? && s.body.cond == Numb(b) && s.body.body == Break
    ensures var n := t.nextBlock;
      var gb := GenStmt(LoopEntry(t, ConstInt(a)), s.body);
      && gb.Gen? && gb.st.cur == n + 3 && gb.st.breakTarget == Some(n + 1)
      && gb.st.layout == t.layout + [n, n + 2, n + 4, n + 5, n + 3]
      && {n, n + 1, n + 2, n + 3, n + 4, n + 5} <= gb.st.code.Keys
      && gb.st.code[n] == Block(Loop, [CondBr(ConstInt(b), n + 2, n + 3)])
      && gb.st.code[n + 1] == Block(After, [])
      && gb.st.code[n + 2] == Block(Loop, [Br(n + 4)])
      && gb.st.code[n + 3] == Block(After, [])
      && gb.st.code[n + 4] == Block(BreakBlock, [Br(n + 3)])
      && gb.st.code[n + 5] == Block(AftBreak, [CondBr(ConstInt(b), n + 2, n + 3)])
  {
    var n := t.nextBlock;
    var e0 := LoopEntry(t, ConstInt(a));
    assert e0.cur == n && e0.nextBlock == n + 2 && e0.breakTarget == Some(n + 1);
    assert e0.code[n] == Block(Loop, []) && n + 1 in e0.code && e0.code[n + 1] == Block(After, []);
    WhileBreakBlocks(e0, s.body, b);
    assert [] + [CondBr(ConstInt(b), n + 2, n + 3)] == [CondBr(ConstInt(b), n + 2, n + 3)];
    assert e0.layout + [n + 2, n + 4, n + 5, n + 3] == t.layout + [n, n + 2, n + 4, n + 5, n + 3];
  }

  /**
   * `while (a) while (b) break`: the outer loop block holds the inner
   * condition's branch; the inner `break` jumps to the inner after-block,
   * which ends with the outer condition's branch back to the outer loop
   * block; the outer after-block is current and the break target of the
   * enclosing context is restored.
   */
  lemma NestedBreakTargetsInner(st: State, s: Stmt, a: int, b: int)
    requires st.cur in st.code && st.cur < st.nextBlock
    requires s.While? && s.cond == Numb(a) && s.body.While? && s.body.cond == Numb(b) && s.body.body == Break
    ensures var n := st.nextBlock;
      var g := GenWhile(st, s);
      && g.Gen? && g.st.cur == n + 1 && g.st.breakTarget == st.breakTarget
      && g.st.layout == st.layout + [n, n + 2, n + 4, n + 5, n + 3, n + 1]
      && {n, n + 1, n + 2, n + 3, n + 4, n + 5} <= g.st.code.Keys
      && g.st.code[n] == Block(Loop, [CondBr(ConstInt(b), n + 2, n + 3)])
      && g.st.code[n + 1] == Block(After, [])
      && g.st.code[n + 2] == Block(Loop, [Br(n + 4)])
      && g.st.code[n + 3] == Block(After, [CondBr(ConstInt(a), n, n + 1)])
      && g.st.code[n + 4] == Block(BreakBlock, [Br(n + 3)])
      && g.st.code[n + 5] == Block(AftBreak, [CondBr(ConstInt(b), n + 2, n + 3)])
  {
    var n := st.nextBlock;
    NumbValue(st, a);
    WhileChildren(st, s, st, ConstInt(a));
    WhileOpenIsEntry(st, ConstInt(a));
    InnerLoopFromEntry(st, s, a, b);
    var gb := GenStmt(LoopEntry(st, ConstInt(a)), s.body);
    NumbValue(gb.st, a);
    assert [] + [CondBr(ConstInt(a), n, n + 1)] == [CondBr(ConstInt(a), n, n + 1)];
  }
}
