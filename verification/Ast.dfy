/** The abstract syntax trees of stage 10. A tree's nodes are split by the sort the
    parser gives them: expressions, and statements over expressions. */
module Ast {
  import opened Wrappers
  import opened Words
  import opened PrecedenceParser

  datatype BinOp = Add | Subtract | Multiply | Divide | Eq | Ne | Lt | Gt | Le | Ge
  {
    predicate IsComparison() {
      Eq? || Ne? || Lt? || Gt? || Le? || Ge?
    }
  }

  /** A_INTLIT, or A_IDENT with a symbol slot number. */
  datatype Atom = Num(value: Int32) | Slot(id: nat)

  type Expr = Tree<Atom, BinOp>

  predicate IsCondition(e: Expr) {
    e.Node? && e.op.IsComparison()
  }

  /** The statement parser admits no other expression as a condition. */
  type Condition = e: Expr | IsCondition(e) witness Node(Eq, Leaf(Num(0)), Leaf(Num(0)))

  datatype Stmt =
    | Print(e: Expr)
    | Assign(id: nat, e: Expr)
    | Glue(first: Stmt, second: Stmt)
    | If(cond: Condition, thn: Stmt, els: Option<Stmt>)
    | While(cond: Condition, body: Stmt)

  /** The name in a symbol table slot. */
  function Name(gsym: seq<string>, id: nat): string {
    if id < |gsym| then gsym[id] else ""
  }
}
