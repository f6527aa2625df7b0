# Code generation of a small Pascal-like language, modelled in Dafny

The modelled system compiles a small imperative language to LLVM IR. Its
code generator, `ast.cpp`, walks the abstract syntax tree. Each node's
`GenerateIR` appends instructions through an IR builder to the current
basic block, creates and attaches blocks for control flow, and returns an
LLVM value, which may be null. Before the statements are lowered,
`SetGlobalVariables` turns every symbol-table entry into a global variable
and binds its name in `namedValues`.

The model replaces the builder's mutable globals with an immutable `State`
(module `Builder`) that every lowering takes and returns:

- `code` maps every created block to its label and instructions;
- `layout` is the function's list of attached blocks, and `cur` the
  insertion block;
- `breakTarget`, `namedValues` and the symbol table are kept as in the
  source;
- the module holds its globals, its format strings and its external
  declarations;
- blocks and instruction results are numbered in creation order.

A lowering returns `Gen(state, value)` or `Crash(hazard)`:

- a null value is `None`;
- a null handed to an LLVM builder call that inspects it (load, GEP,
  negation, store, conditional branch) is a `Crash`, because the source's
  behaviour is undefined there;
- a null argument of printf or scanf is built into the call as the operand
  `Null`, and lowering carries on: both functions take it in their
  variadic part, whose operands LLVM does not inspect;
- the messages the source prints on `cout` and carries on after are
  recorded in `diags`.

Modules:

- `Ast`: the tree and the symbol-table descriptors;
- `IR`: instructions, blocks, globals, and `getOrInsertFunction` as
  `Declare`;
- `Builder`: the state, the builder primitives, and the invariant `Valid`;
- `Globals`: `SetGlobalVariables`;
- `ExprGen`: `Numb`, `Var`, `VarArray`, `BinOp`, `UnaryMinus`. Negation is
  lowered as written, with its operand lowered twice. A corrected lowering
  stands beside it (see "## Findings");
- `StmtGen`: `Assign`, `Read`, `Write`, `If`, `While`, `Break`,
  `StatmList`;
- `Program`: `Prog`.

The proofs come in five families:

- `ExprSpec` and `StmtSpec` are reference descriptions that need no builder
  state. They say which instruction kinds a node emits, in which order, and
  where it yields null or crashes. The generator is proved to agree with
  them.
- `ExprValues` (and `StmtSpec.AssignStores`) state, node by node, the
  instructions themselves: which operands they read, which value the node
  yields, and which reports it records.
- `StmtValid` proves that every statement keeps the builder invariant, only
  appends blocks, and restores the break target.
- `StmtShape` proves the control-flow shape each statement produces.
- `StmtChildren` proves where the children of `If` and `While` are lowered.
  It gives the state each child starts from: its insertion block, its break
  target and the blocks created so far. It also shows how the child's
  result is embedded in the statement's result. Worked instances show a
  `write` lowered into the then-block, and a `break` jumping to the
  after-block of its own loop, also inside another loop.

## Model

| member | source | states |
|---|---|---|
| Globals.GlobalOf | ast.cpp:42-57 | A VAR or CONST entry becomes an i32 global initialised to the entry's value, constant exactly when the entry is CONST; an ARRAY entry becomes a zero-initialised, non-constant i32 array |
| Globals.ArrayLengthIgnoresOrder | ast.cpp:53 | An array global's length is the distance between its bounds, whichever bound is larger; swapping the bounds gives the same type |
| Globals.AddGlobalsModule | ast.cpp:39-57 | The loop appends exactly one global per symbol-table entry, in table order, and changes nothing else in the module |
| Globals.AddGlobalsKeys | ast.cpp:39-61 | Exactly the entries' identifiers gain a binding in `namedValues`; every other binding is unchanged |
| Globals.AddGlobalsBinds | ast.cpp:60 | Every entry's identifier is bound to the module's first global of that name (what `getGlobalVariable` returns) |
| Globals.BindsFreshGlobals | ast.cpp:39-61 | With distinct identifiers that clash with no earlier global, the i-th entry is bound to the i-th new global |
| Globals.SetGlobalVariables | ast.cpp:37-62 | Only the module and `namedValues` change; the globals become the old ones followed by one per entry; the bound names grow by the entries' identifiers; the builder invariant is kept |
| Ast.KindOf | ast.cpp:185-186 | The kind the symbol table reports for a name is absent exactly when no entry has that name, and otherwise is the kind of an entry of that name |
| ExprGen.ArithOf | ast.cpp:118-148 | An operator token has an instruction kind exactly when it is one of the thirteen supported operators; any other token has none. Each supported token gets the kind of its builder call: `-` is subtraction, `/` signed division, `mod` signed remainder, the comparisons signed integer comparisons, `or`/`and` bitwise |
| ExprGen.ArithOfInjective | ast.cpp:118-145 | No two supported operators lower to the same instruction kind |
| ExprGen.GenExpr | ast.cpp:69-158 | Lowering an expression only appends non-terminator instructions to the insertion block, takes registers and adds reports. Blocks, layout, module, bindings and break target are unchanged |
| ExprGen.GenBinOp | ast.cpp:107-149 | A binary operation changes the state only as an expression lowering may (as for `GenExpr`) |
| ExprGen.GenUnaryMinusAsWritten | ast.cpp:151-158 | Negation as written changes the state only as an expression lowering may |
| ExprGen.GenUnaryMinus | ast.cpp:151-158 | Corrected negation changes the state only as an expression lowering may |
| ExprGen.GenScalar | ast.cpp:69-83 | A scalar reference changes the state only as an expression lowering may |
| ExprGen.GenElement | ast.cpp:85-99 | An array element changes the state only as an expression lowering may |
| ExprSpec.GenExprAgrees | ast.cpp:69-158 | Lowering any expression emits exactly the sketched instruction kinds, in order; negation emits its operand's kinds twice. It crashes exactly when the sketch says, with the same hazard, and yields null exactly when the sketch does |
| ExprSpec.ScalarAgrees | ast.cpp:69-83 | A variable as an address emits nothing and is null exactly when unbound; as a value it emits one load, and crashes when unbound |
| ExprSpec.ElementAgrees | ast.cpp:85-99 | An array element lowers its index, then one GEP and, as a value, one load; an unbound array or null index crashes the GEP |
| ExprSpec.BinOpAgrees | ast.cpp:107-149 | A binary operation lowers left then right, then emits one instruction of the operator's kind; a null operand or unsupported operator yields null and emits nothing more |
| ExprSpec.UnaryMinusAgrees | ast.cpp:151-158 | Corrected negation: the operand's instructions once, then one negation; a null operand yields null |
| ExprSpec.UnaryMinusAsWrittenAgrees | ast.cpp:151-158 | Negation as written: the operand's instructions twice, then one negation; a null operand crashes the negation |
| ExprSpec.NegatedLoadLoadsTwice | ast.cpp:153-157 | Negating a loaded variable emits load, load, neg as written, and load, neg as corrected |
| ExprSpec.NegatedNullCrashes | ast.cpp:153-157 | Negating the address of an unbound variable crashes as written and yields null as corrected |
| ExprValues.NumbValue | ast.cpp:101-105 | A literal emits nothing and yields its own i32 constant |
| ExprValues.ScalarValue | ast.cpp:69-83 | As an address, a name yields its binding, or null when unbound, and emits nothing. As a value it emits one load from the binding and yields the load's register; unbound, the load gets null. An unbound name is reported exactly once |
| ExprValues.ElementValue | ast.cpp:85-99 | With a bound array and an index value, the element address is a GEP from the array's binding with indices `[0, index]`. As a value, one load reads the GEP's register. The yielded value is the last of these registers. A null index or an unbound array crashes the GEP |
| ExprValues.BinOpValue | ast.cpp:107-149 | With two operand values and a supported operator, one instruction of the operator's kind reads the left value first and the right value second, and yields its register. A null operand or an unsupported operator emits nothing, is reported, and yields null |
| ExprValues.UnaryMinusAsWrittenValue | ast.cpp:151-158 | A null first lowering is reported. The operand is lowered again from there, and the negation reads the second value and yields its register; a null second value crashes it |
| ExprValues.UnaryMinusValue | ast.cpp:151-158 | Corrected negation: a null operand is reported and yields null with nothing emitted; otherwise one negation reads the operand's value and yields its register |
| ExprSpec.LoweringIsRepeatable | ast.cpp:69-158 | Whether an expression crashes, which instruction kinds it emits and whether it is null depend only on the set of bound names, not on the rest of the state |
| StmtSpec.AssignAgrees | ast.cpp:181-194 | An assignment emits the value's instructions, the target's, then one store; a null on either side crashes the store. Assigning to a CONST is reported first and the store is emitted anyway |
| StmtSpec.AssignStores | ast.cpp:181-194 | The value is lowered after the CONST report, and the target after the value. When both have values, the assignment ends with one store that writes the value's result to the target's address |
| StmtSpec.WriteAgrees | ast.cpp:207-216 | `Write` emits the value's instructions, then one call of printf, also when the value is null; it crashes only where the value's lowering does |
| StmtSpec.ReadAgrees | ast.cpp:196-205 | `Read` emits the target address's instructions, then one call of scanf, also when the address is null; it crashes only where the address's lowering does |
| StmtShape.WriteShape | ast.cpp:207-216 | `Write` appends `printf(fmt, value)`, with a null argument when the value is null, where fmt is a new "%d\n" format string; it declares printf only if it is not yet declared. Only a crash of the value stops it |
| StmtShape.ReadShape | ast.cpp:196-205 | `Read` appends `scanf(fmt, address)`, with a null argument when there is no address, where fmt is a new "%d" format string; it declares scanf only if it is not yet declared. Only a crash of the address stops it |
| StmtShape.ReadUndeclaredCarriesOn | ast.cpp:196-205 | `read(y)` with `y` undeclared reports the name, appends `scanf(fmt, null)` and yields a value, so lowering carries on |
| StmtShape.WritesDeclareOnce | ast.cpp:363-368 | Two writes in a row declare printf once but add two format strings |
| IR.Declare | ast.cpp:363-375 | `getOrInsertFunction`: afterwards the name is declared, existing declarations are kept, at most one is added, and no name is declared twice |
| IR.DeclareIdempotent | ast.cpp:367 | Declaring a function twice is the same as declaring it once |
| IR.FirstNamedExtend | ast.cpp:60 | Adding globals does not change which global an already-present name resolves to |
| StmtSpec.TailAgrees | ast.cpp:167-175 | The nodes after the first lower their statements one after the other; a missing statement before the last node crashes |
| StmtSpec.ListAgrees | ast.cpp:160-179 | A list without a first statement only reports it and yields null. Otherwise its statements lower in order, stopping at the first crash, and the list yields the i32 zero constant |
| StmtShape.IfNullCondition | ast.cpp:220-223 | An `If` whose condition is null stops after the condition: no block is created or attached and the value is null |
| StmtShape.IfOpenShape | ast.cpp:225-233 | Opening an `If` creates three blocks and attaches only the then-block; the current block ends with the conditional branch to then and else; the then-block becomes current |
| StmtShape.IfShape | ast.cpp:218-255 | For an `If` whose condition has a value: the condition's block gets the branch to then/else, with the then-block right after it. The else-block follows a block that jumps to the join block. The join block is attached last, empty and current, and the block before it jumps to it. No other existing block changes, and the value is the join block |
| StmtShape.IfBlocksShape | ast.cpp:225-255 | The condition's block ends with the branch to then/else, and the then-block follows it. The else-block follows a block that jumps to the join block. The join block is attached last, empty and current; the block before it jumps to it. No other existing block changes, and the value is the join block |
| StmtShape.WhileNullCondition | ast.cpp:260-263 | A `While` whose condition is null stops after the condition: no block is created or attached and the value is null |
| StmtShape.WhileOpenShape | ast.cpp:265-274 | Opening a `While` creates the loop and after blocks, attaches the loop block, branches to them from the current block, and makes the after block the break target |
| StmtShape.WhileShape | ast.cpp:258-287 | The entry block branches to loop/after. The loop block follows it. The block before the after block ends with the condition's instructions again and the same branch. The after block is attached last, empty and current. The break target is restored and the value is null |
| StmtShape.WhileConditionTwice | ast.cpp:260-279 | The condition is lowered twice with the same instruction kinds, before the loop and at its end, each time followed by the conditional branch |
| StmtShape.BreakShape | ast.cpp:334-351 | `Break` jumps to a new break block. That block jumps to the break target if there is one and is left empty otherwise. A new empty block is attached after it and becomes current; the break target is unchanged |
| StmtChildren.IfOpenIsEntry | ast.cpp:225-233 | Opening an `If` gives exactly the then-block entry state: the condition's block ends with the branch to then/else. The three new blocks exist, empty; only the then-block is attached, and it is current |
| StmtChildren.IfChildren | ast.cpp:218-256 | When the condition yields a value, the then-branch is lowered from the then-block entry state, with the break target unchanged. Its last block gains only a jump to the join block. The else-branch (if any) is lowered from the else-block, attached next; its last block gains only that jump. The join block is attached last and current, and is the value. A crash of either branch is the result |
| StmtChildren.IfWriteInThen | ast.cpp:207-256 | `if (v) write(w)` with no else: the printf call is the then-block's first instruction, before its jump to the join block. The else-block holds only that jump, and the join block is empty, attached last and current |
| StmtChildren.WhileOpenIsEntry | ast.cpp:265-274 | Opening a `While` gives exactly the loop-body entry state: the condition's block ends with the branch to loop/after. The loop block is attached and current; the after-block exists, detached, and is the break target |
| StmtChildren.WhileChildren | ast.cpp:258-287 | When the condition yields a value, the body is lowered from the loop-block entry state, whose break target is the after-block. The condition is lowered again where the body ended, and that block gains the branch back to loop/after. The after-block is attached last and current, and the previous break target is restored. A crash of the body or the second condition, or a null second condition, is the result |
| StmtChildren.WhileBreakTargetsAfter | ast.cpp:258-287 | `while (v) break`: the loop block jumps to a break block, which jumps to the after-block. The block after it holds the second branch, the after-block is empty and current, and the break target is restored |
| StmtChildren.WhileBreakBlocks | ast.cpp:258-287 | `while (v) break` lowered as a nested statement: the insertion block gains the branch, the four new blocks are as above, and every other earlier block is untouched |
| StmtChildren.InnerLoopFromEntry | ast.cpp:258-287 | In `while (a) while (b) break`, the inner loop, lowered from the outer loop block, ends in the inner after-block; its `break` jumps there, and the outer break target is back in force |
| StmtChildren.NestedBreakTargetsInner | ast.cpp:258-287 | `while (a) while (b) break`: the inner `break` jumps to the inner after-block, not the outer one. That block ends with the outer branch back to the outer loop block. The outer after-block is empty and current, and the enclosing break target is restored |
| StmtGen.GenStmt | ast.cpp:160-351 | After any statement the insertion block is a created block, and no created block is lost |
| StmtGen.GenAssign | ast.cpp:181-194 | An assignment changes the state only as an expression lowering may: the store goes into the insertion block |
| StmtGen.EmitFormattedCall | ast.cpp:196-216 | A formatted call never crashes; it stays in the insertion block and creates no block |
| StmtGen.GenRead | ast.cpp:196-205 | After `Read` the insertion block is a created block, and no created block is lost |
| StmtGen.GenWrite | ast.cpp:207-216 | After `Write` the insertion block is a created block, and no created block is lost |
| StmtGen.GenIf | ast.cpp:218-256 | After `If` the insertion block is a created block, and no created block is lost |
| StmtGen.GenWhile | ast.cpp:258-287 | After `While` the insertion block is a created block, and no created block is lost |
| StmtGen.GenBreak | ast.cpp:334-351 | After `Break` the insertion block is a created block, and no created block is lost |
| StmtGen.GenList | ast.cpp:160-179 | After a statement list the insertion block is a created block, and no created block is lost |
| StmtGen.GenTail | ast.cpp:167-175 | After the nodes that follow the first, the insertion block is a created block, and no created block is lost |
| StmtValid.GenStmtValid | ast.cpp:160-351 | Every statement keeps the builder invariant and only appends: existing blocks other than the current one are untouched, that one only grows, and the break target is restored |
| Globals.AddGlobals | ast.cpp:39-61 | The loop over the descriptors never removes a binding |
| Program.GenProgram | ast.cpp:353-358 | After lowering a program the insertion block is a created block, and no created block is lost |
| Program.GenProgramValid | ast.cpp:353-358 | Lowering a program keeps the invariant; its variable globals are the symbol table's, in order, and statements add none (the format strings, which LLVM makes private globals, are kept apart in `strings`); the break target is restored; blocks are only appended |
| Program.GenProgramResult | ast.cpp:353-358 | A program without a first statement yields null after creating the globals and reporting it; otherwise a completed lowering yields the i32 zero constant |

## Findings

| source | as written | input that shows it | evidently intended | confidence | as-written member | corrected member |
|---|---|---|---|---|---|---|
| ast.cpp:151-158 | `UnaryMinus::GenerateIR` lowers its operand, prints an error if it is null, then lowers the operand a second time and negates that. It never uses the first result | `-a` for a bound scalar `a` emits two loads before the negation. Negating an operand that lowers to null, such as an undeclared name used as an address, passes null to `CreateNeg` after the error message | lower the operand once, negate that value, and return null when it is null | medium; not executed | ExprGen.GenUnaryMinusAsWritten, ExprSpec.UnaryMinusAsWrittenAgrees, ExprSpec.NegatedLoadLoadsTwice, ExprSpec.NegatedNullCrashes | ExprGen.GenUnaryMinus, ExprSpec.UnaryMinusAgrees |

The rest of the model follows the code as written: `GenExpr` lowers negation with `GenUnaryMinusAsWritten`, so every statement and program lemma describes the double lowering. The corrected `GenUnaryMinus` and its properties stand on their own.

## Left out

- LLVM types, alignment (`setAlignment(4)`), linkage, value names and the `LLVMContext` are not represented. Constants are unbounded integers, and a descriptor's value is not truncated to 32 bits.
- IRBuilder constant folding is not modelled: every `Create*` call is one instruction, even on constant operands.
- A call built with a null argument is recorded with the operand `Null`. What LLVM later does with such a module (verifying or printing it) is not modelled.
- Runtime semantics of the generated IR are not modelled (what a program computes, division by zero, signed overflow). The model states the shape of the emitted code only.
- `llvmAstInit` is the initial `State`: the caller supplies the current block, the symbol table and the break target.
- The symbol table (`GetAllGlobalVar`, `GetConstOrVar`) is not part of this model. Its entries are a sequence of descriptors, and a name's kind is that of its first entry.
- `operator[]` on `namedValues` inserts a null entry for an unknown name. The model treats that entry as absent, which is equivalent for every later lookup.
- A duplicated identifier in the symbol table gets a renamed second global in LLVM. The model keeps both globals under the same name and binds the name to the first.
- A missing then-branch or loop body cannot be written in the tree (the fields are not optional). A missing statement inside a list is modelled and crashes.
- The commented-out `For` lowering is not part of the source's behaviour and is not modelled.
- Messages printed on `cout` are modelled as `diags` only where the code carries on after them; the trace messages printed on every node are not modelled.
- ExprSpec.GenExprAgrees: fixes instruction kinds, crashes and nullness only. The operands each instruction reads and the value each node yields are stated node by node in `ExprValues` and `StmtSpec.AssignStores`, not for whole expressions.
- ExprGen.GenExpr: its own contract states only the frame (`ExprStep`); what it emits is stated by the `ExprSpec`, `ExprValues` and `StmtSpec` lemmas.
- ExprGen.GenBinOp: its own contract states only the frame (`ExprStep`); what it emits is stated by the `ExprSpec`, `ExprValues` and `StmtSpec` lemmas.
- ExprGen.GenUnaryMinusAsWritten: its own contract states only the frame (`ExprStep`); what it emits is stated by the `ExprSpec`, `ExprValues` and `StmtSpec` lemmas.
- ExprGen.GenUnaryMinus: its own contract states only the frame (`ExprStep`); what it emits is stated by the `ExprSpec`, `ExprValues` and `StmtSpec` lemmas.
- ExprGen.GenScalar: its own contract states only the frame (`ExprStep`); what it emits is stated by the `ExprSpec`, `ExprValues` and `StmtSpec` lemmas.
- ExprGen.GenElement: its own contract states only the frame (`ExprStep`); what it emits is stated by the `ExprSpec`, `ExprValues` and `StmtSpec` lemmas.
- StmtGen.GenAssign: its own contract states only the frame (`ExprStep`); what it emits is stated by the `ExprSpec`, `ExprValues` and `StmtSpec` lemmas.
- StmtGen.GenStmt: its own contract states only that the insertion block exists and no block is lost; the invariant is stated by `StmtValid.GenStmtValid`, the shapes by the `StmtShape` lemmas.
- StmtGen.GenRead: its own contract states only that the insertion block exists and no block is lost; the invariant is stated by `StmtValid.GenStmtValid`, the shapes by the `StmtShape` lemmas.
- StmtGen.GenWrite: its own contract states only that the insertion block exists and no block is lost; the invariant is stated by `StmtValid.GenStmtValid`, the shapes by the `StmtShape` lemmas.
- StmtGen.GenIf: its own contract states only that the insertion block exists and no block is lost; the invariant is stated by `StmtValid.GenStmtValid`, the shapes by the `StmtShape` lemmas, and the lowering of its children by `StmtChildren.IfChildren`.
- StmtGen.GenWhile: its own contract states only that the insertion block exists and no block is lost; the invariant is stated by `StmtValid.GenStmtValid`, the shapes by the `StmtShape` lemmas, and the lowering of its children by `StmtChildren.WhileChildren`.
- StmtGen.GenBreak: its own contract states only that the insertion block exists and no block is lost; the invariant is stated by `StmtValid.GenStmtValid`, the shapes by the `StmtShape` lemmas.
- StmtGen.GenList: its own contract states only that the insertion block exists and no block is lost; the invariant is stated by `StmtValid.GenStmtValid`, the shapes by the `StmtShape` lemmas.
- StmtGen.GenTail: its own contract states only that the insertion block exists and no block is lost; the invariant is stated by `StmtValid.GenStmtValid`, the shapes by the `StmtShape` lemmas.
- Program.GenProgram: its own contract states only that the insertion block exists and no block is lost; the invariant is stated by `StmtValid.GenStmtValid`, the shapes by the `StmtShape` lemmas.
- StmtGen.EmitFormattedCall: its own contract states only that it stays in the insertion block; the call's operands and the declaration are stated by `StmtShape.WriteShape` and `StmtShape.ReadShape`.
- Globals.AddGlobals: its own contract states only that bindings are kept; the globals and bindings it adds are stated by `Globals.AddGlobalsModule`, `Globals.AddGlobalsKeys` and `Globals.AddGlobalsBinds`.
- StmtShape.IfShape: states the blocks around the branches, not what the branches emit; that is stated by `StmtChildren.IfChildren`.
- StmtShape.IfBlocksShape: states the blocks around the branches, not what the branches emit; that is stated by `StmtChildren.IfChildren`.
- StmtShape.WhileShape: states the blocks around the body, not what the body emits or its break target; those are stated by `StmtChildren.WhileChildren`.
- StmtSpec.AssignAgrees: states that a CONST target is reported first, but not the converse (a non-CONST target is never reported).
- A `Break` outside any loop leaves its break block without a terminator (see `StmtShape.BreakShape`). The model records this, but claims no well-formedness of the final IR beyond the builder invariant.
