/**
 * The abstract syntax tree the code generator consumes, and the symbol-table
 * descriptors it reads. Every node is immutable; ownership is top-down.
 */
module Ast {
  import opened Wrappers

  /** The kind of a symbol-table entry. */
  datatype SymbolKind = VAR | CONST | ARRAY

  /** A global symbol: its identifier, kind, initial value and (for arrays) bounds. */
  datatype Descriptor = Descriptor(ident: string, kind: SymbolKind, value: int, start: int, end: int)

  /** Binary operator tokens; `Other` stands for any token with no lowering. */
  datatype Op =
    | Plus | Minus | Multiply | Divide | Mod
    | Less | LessOrEq | Greater | GreaterOrEq | Eq | NotEq
    | Or | And
    | Other(token: nat)

  datatype Expr =
    | Numb(value: int)
    | Ref(node: VarNode)
    | BinOp(op: Op, left: Expr, right: Expr)
    | UnaryMinus(operand: Expr)

  /** A variable or array-element reference; `rvalue` asks for a load, otherwise the address. */
  datatype VarNode =
    | Var(name: string, rvalue: bool)
    | VarArray(name: string, index: Expr, rvalue: bool)

  /**
   * Statements. A statement list is the source's linked list of nodes: the
   * first node's statement (which may be missing) followed by the remaining
   * nodes' statements.
   */
  datatype Stmt =
    | Assign(target: VarNode, value: Expr)
    | Read(target: VarNode)
    | Write(value: Expr)
    | If(cond: Expr, thenBranch: Stmt, elseBranch: Option<Stmt>)
    | While(cond: Expr, body: Stmt)
    | Break
    | StatmList(head: Option<Stmt>, tail: seq<Option<Stmt>>)

  /** A whole program: its top-level statement list. */
  datatype Prog = Prog(head: Option<Stmt>, tail: seq<Option<Stmt>>)

  /** The kind the symbol table reports for `ident`: that of its first descriptor. */
  function KindOf(table: seq<Descriptor>, ident: string): (r: Option<SymbolKind>)
    ensures r.None? <==> forall i :: 0 <= i < |table| ==> table[i].ident != ident
    ensures r.Some? ==> exists i :: 0 <= i < |table| && table[i].ident == ident && table[i].kind == r.value
  {
    if |table| == 0 then None
    else if table[0].ident == ident then Some(table[0].kind)
    else
      var r := KindOf(table[1..], ident);
      assert r.Some? ==> exists i :: 0 <= i < |table| && table[i].ident == ident && table[i].kind == r.value by {
        if r.Some? {
          var j :| 0 <= j < |table[1..]| && table[1..][j].ident == ident && table[1..][j].kind == r.value;
          assert table[j + 1] == table[1..][j];
        }
      }
      r
  }
}
