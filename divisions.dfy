/**
 * A `Division` is one comparison of a variable with an integer threshold, seen as a
 * step function of the variable's value: its truth value left of the threshold, at
 * it, and right of it.  The six factory functions give the six comparison shapes.
 */
module Divisions {

  /** `owner` is the identity of the comparison node the Division stands for
      (the source's `binExpr`), `idName` the variable's name, `point` the threshold. */
  datatype Division = Division(owner: int, idName: string, point: int,
                               left: bool, atPoint: bool, right: bool)
  {
    /** The truth value for a value a little smaller than `x`. */
    function BoolBeforePoint(x: int): bool {
      if x <= point then left else right
    }

    /** The truth value when the variable is exactly `x`. */
    function BoolAtPoint(x: int): bool {
      if x < point then left else if x > point then right else atPoint
    }

    /** The truth value for a very large value of the variable. */
    function BoolAtPlusInfinity(): bool {
      right
    }

    /** The comparison takes both truth values: it is not the same on every integer. */
    predicate Divides() {
      left != atPoint || atPoint != right
    }
  }

  function Less(owner: int, name: string, point: int): (d: Division)
    ensures d.owner == owner && d.idName == name && d.point == point
    ensures forall v :: d.BoolAtPoint(v) == (v < point)
  {
    Division(owner, name, point, true, false, false)
  }

  function LessEq(owner: int, name: string, point: int): (d: Division)
    ensures d.owner == owner && d.idName == name && d.point == point
    ensures forall v :: d.BoolAtPoint(v) == (v <= point)
  {
    Division(owner, name, point, true, true, false)
  }

  function Greater(owner: int, name: string, point: int): (d: Division)
    ensures d.owner == owner && d.idName == name && d.point == point
    ensures forall v :: d.BoolAtPoint(v) == (v > point)
  {
    Division(owner, name, point, false, false, true)
  }

  function GreaterEq(owner: int, name: string, point: int): (d: Division)
    ensures d.owner == owner && d.idName == name && d.point == point
    ensures forall v :: d.BoolAtPoint(v) == (v >= point)
  {
    Division(owner, name, point, false, true, true)
  }

  function Eq(owner: int, name: string, point: int): (d: Division)
    ensures d.owner == owner && d.idName == name && d.point == point
    ensures forall v :: d.BoolAtPoint(v) == (v == point)
  {
    Division(owner, name, point, false, true, false)
  }

  function NotEq(owner: int, name: string, point: int): (d: Division)
    ensures d.owner == owner && d.idName == name && d.point == point
    ensures forall v :: d.BoolAtPoint(v) == (v != point)
  {
    Division(owner, name, point, true, false, true)
  }

  /** The three probes against the step function: at the threshold the value is
      `atPoint`; every value above the threshold gives the value at plus infinity;
      and the value "just before" `x` is the value at `x - 1` unless the threshold
      sits exactly at `x - 1`.  In particular `BoolBeforePoint(x)` is `left` exactly
      when `x` is at most the threshold (for a Division whose sides differ). */
  lemma Probes(d: Division, x: int)
    ensures d.BoolAtPoint(d.point) == d.atPoint
    ensures x > d.point ==> d.BoolAtPoint(x) == d.BoolAtPlusInfinity()
    ensures x - 1 != d.point ==> d.BoolBeforePoint(x) == d.BoolAtPoint(x - 1)
    ensures d.left != d.right ==> (d.BoolBeforePoint(x) == d.left <==> x <= d.point)
  {
  }
}
