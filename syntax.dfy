/**
 * The expression trees of a Python `if`/`elif` condition, as the inspection sees
 * them once the host's parse tree has been reduced to the node kinds the analysis
 * distinguishes.  Every node carries an `id`: the host compares nodes by identity,
 * so two syntactically equal comparisons at different positions are different nodes.
 */
module Syntax {

  /** Binary operator tokens, named as the host's token types (`==`, `!=`, `<`, `>`,
      `<=`, `>=`, `+`, `-`, `*`, `//`, `**`, `%`, `and`, `or`).  `Unsupported` stands
      for every other binary token (true division `/`, `in`, `is`, bitwise operators, ...). */
  datatype Op =
    | EqEq | Ne | Lt | Gt | Le | Ge
    | Plus | Minus | Mult | FloorDiv | Exp | Perc
    | AndKeyword | OrKeyword
    | Unsupported

  predicate IsComparison(op: Op) {
    op.EqEq? || op.Ne? || op.Lt? || op.Gt? || op.Le? || op.Ge?
  }

  /** `Int` is an integer literal (the parser never produces a negative one: `-5` is a
      prefix expression), `Ref` a reference expression with its source text as name,
      `Not` the prefix `not`, `Paren` a parenthesized expression.  `Other` is every
      other node: float and string literals, calls, subscripts, prefix `-`/`+`/`~`. */
  datatype Expr =
    | Int(id: int, literal: nat)
    | Bool(id: int, truth: bool)
    | Ref(id: int, name: string)
    | Bin(id: int, op: Op, left: Expr, right: Expr)
    | Not(id: int, operand: Expr)
    | Paren(id: int, inner: Expr)
    | Other(id: int)

  /** The identities of all nodes of `e`, with multiplicity. */
  function Ids(e: Expr): multiset<int> {
    match e
    case Bin(id, _, l, r) => multiset{id} + Ids(l) + Ids(r)
    case Not(id, x) => multiset{id} + Ids(x)
    case Paren(id, x) => multiset{id} + Ids(x)
    case _ => multiset{e.id}
  }

  /** No two nodes of `e` share an identity, as for the nodes of a real parse tree. */
  predicate UniqueIds(e: Expr) {
    match e
    case Bin(id, _, l, r) =>
      id !in Ids(l) && id !in Ids(r) && Ids(l) !! Ids(r) && UniqueIds(l) && UniqueIds(r)
    case Not(id, x) => id !in Ids(x) && UniqueIds(x)
    case Paren(id, x) => id !in Ids(x) && UniqueIds(x)
    case _ => true
  }
}
