/**
 * The per-variable part of `generateBoolListForDivisions`: for the Divisions of one
 * variable, the sorted distinct thresholds, and the matrix of representative truth
 * rows (one entry per Division), built by probing below and at every threshold and
 * at plus infinity and dropping each row equal to the row kept before it.
 */
module Partition {
  import opened Divisions

  /** The row of `BooleanArray(divs.size) { i -> divs[i].boolBeforePoint(point) }`. */
  function BeforeRow(divs: seq<Division>, point: int): seq<bool> {
    seq(|divs|, i requires 0 <= i < |divs| => divs[i].BoolBeforePoint(point))
  }

  /** The row of truth values when the variable is exactly `v`. */
  function AtRow(divs: seq<Division>, v: int): seq<bool> {
    seq(|divs|, i requires 0 <= i < |divs| => divs[i].BoolAtPoint(v))
  }

  /** The row for a variable larger than every threshold. */
  function PlusInfinityRow(divs: seq<Division>): seq<bool> {
    seq(|divs|, i requires 0 <= i < |divs| => divs[i].BoolAtPlusInfinity())
  }

  /** `boolMatrix.equalsLast(arr)`: the matrix is not empty and its last row is `arr`. */
  predicate EqualsLast<T(==,!new)>(matrix: seq<T>, arr: T) {
    |matrix| > 0 && matrix[|matrix| - 1] == arr
  }

  /** `if (!boolMatrix.equalsLast(arr)) boolMatrix += arr` */
  function AppendIfNew<T(==,!new)>(matrix: seq<T>, arr: T): seq<T> {
    if EqualsLast(matrix, arr) then matrix else matrix + [arr]
  }

  predicate NoAdjacentDuplicates<T(==,!new)>(rows: seq<T>) {
    forall i :: 0 < i < |rows| ==> rows[i - 1] != rows[i]
  }

  /** The rows of `rows` in order, each row equal to the row kept before it left out. */
  function Dedup<T(==,!new)>(rows: seq<T>): (r: seq<T>)
    ensures |r| <= |rows|
    ensures NoAdjacentDuplicates(r)
    ensures rows != [] ==> r != [] && r[|r| - 1] == rows[|rows| - 1]
    ensures forall x :: x in r <==> x in rows
  {
    if rows == [] then [] else AppendIfNew(Dedup(rows[..|rows| - 1]), rows[|rows| - 1])
  }

  lemma DedupSnoc<T(!new)>(rows: seq<T>, arr: T)
    ensures Dedup(rows + [arr]) == AppendIfNew(Dedup(rows), arr)
  {
    assert (rows + [arr])[..|rows + [arr]| - 1] == rows;
  }

  /** The rows probed below and at each threshold of `points`, in order. */
  function PointRows(divs: seq<Division>, points: seq<int>): seq<seq<bool>> {
    if points == [] then []
    else PointRows(divs, points[..|points| - 1])
         + [BeforeRow(divs, points[|points| - 1]), AtRow(divs, points[|points| - 1])]
  }

  /** Every row that the loop over the thresholds offers to the matrix, in order. */
  function CandidateRows(divs: seq<Division>, points: seq<int>): seq<seq<bool>> {
    PointRows(divs, points) + [PlusInfinityRow(divs)]
  }

  /** The matrix of one variable. */
  function Matrix(divs: seq<Division>, points: seq<int>): seq<seq<bool>> {
    Dedup(CandidateRows(divs, points))
  }

  /** The loop of lines 266-283 building `boolMatrix` for one variable. */
  method BoolMatrix(divs: seq<Division>, breakPoints: seq<int>) returns (boolMatrix: seq<seq<bool>>)
    ensures boolMatrix == Matrix(divs, breakPoints)
  {
    boolMatrix := [];
    var arr: seq<bool>;
    for k := 0 to |breakPoints|
      invariant boolMatrix == Dedup(PointRows(divs, breakPoints[..k]))
    {
      var point := breakPoints[k];
      ghost var done := PointRows(divs, breakPoints[..k]);
      assert breakPoints[..k + 1][..k] == breakPoints[..k];
      assert PointRows(divs, breakPoints[..k + 1]) == done + [BeforeRow(divs, point)] + [AtRow(divs, point)];
      arr := BeforeRow(divs, point);
      DedupSnoc(done, arr);
      if !EqualsLast(boolMatrix, arr) {
        boolMatrix := boolMatrix + [arr];
      }
      arr := AtRow(divs, point);
      DedupSnoc(done + [BeforeRow(divs, point)], arr);
      if !EqualsLast(boolMatrix, arr) {
        boolMatrix := boolMatrix + [arr];
      }
    }
    assert breakPoints[..|breakPoints|] == breakPoints;
    arr := PlusInfinityRow(divs);
    DedupSnoc(PointRows(divs, breakPoints), arr);
    if !EqualsLast(boolMatrix, arr) {
      boolMatrix := boolMatrix + [arr];
    }
  }

  lemma {:induction false} PointRowsShape(divs: seq<Division>, points: seq<int>)
    ensures |PointRows(divs, points)| == 2 * |points|
    ensures forall row :: row in PointRows(divs, points) ==> |row| == |divs|
  {
    if points != [] {
      PointRowsShape(divs, points[..|points| - 1]);
    }
  }

  /** The matrix of a variable is not empty, has one entry per Division in every row,
      no two consecutive equal rows, at most `2 * |points| + 1` rows, and ends with
      the row of every Division's `right` value. */
  lemma MatrixShape(divs: seq<Division>, points: seq<int>)
    ensures var m := Matrix(divs, points);
      && 0 < |m| <= 2 * |points| + 1
      && (forall row :: row in m ==> |row| == |divs|)
      && NoAdjacentDuplicates(m)
      && m[|m| - 1] == PlusInfinityRow(divs)
      && (forall i :: 0 <= i < |divs| ==> m[|m| - 1][i] == divs[i].right)
  {
    PointRowsShape(divs, points);
  }

  lemma {:induction false} PointRowsContain(divs: seq<Division>, points: seq<int>, k: nat)
    requires k < |points|
    ensures BeforeRow(divs, points[k]) in PointRows(divs, points)
    ensures AtRow(divs, points[k]) in PointRows(divs, points)
  {
    var init := points[..|points| - 1];
    if k < |points| - 1 {
      assert init[k] == points[k];
      PointRowsContain(divs, init, k);
    }
  }

  predicate StrictlyAscending(s: seq<int>) {
    forall i, j :: 0 <= i < j < |s| ==> s[i] < s[j]
  }

  /** Coverage: whatever integer the variable holds, the truth values of its
      Divisions at that value form a row of its matrix, provided `points` are the
      thresholds in ascending order. */
  lemma Coverage(divs: seq<Division>, points: seq<int>, v: int)
    requires StrictlyAscending(points)
    requires forall d :: d in divs ==> d.point in points
    ensures AtRow(divs, v) in Matrix(divs, points)
  {
    var k := 0;
    while k < |points| && points[k] < v
      invariant 0 <= k <= |points|
      invariant forall j :: 0 <= j < k ==> points[j] < v
    {
      k := k + 1;
    }
    var row := AtRow(divs, v);
    if k == |points| {
      forall i | 0 <= i < |divs| ensures row[i] == PlusInfinityRow(divs)[i] {
        assert divs[i] in divs;
      }
      assert row == PlusInfinityRow(divs);
    } else if points[k] == v {
      PointRowsContain(divs, points, k);
    } else {
      forall i | 0 <= i < |divs| ensures row[i] == BeforeRow(divs, points[k])[i] {
        assert divs[i] in divs;
        var j :| 0 <= j < |points| && points[j] == divs[i].point;
        assert j < k ==> points[j] < v;
      }
      assert row == BeforeRow(divs, points[k]);
      PointRowsContain(divs, points, k);
    }
  }

  /** The thresholds of a list of Divisions. */
  function Points(divs: seq<Division>): seq<int> {
    seq(|divs|, i requires 0 <= i < |divs| => divs[i].point)
  }

  /** `s` with `x` added in its place (nothing changes when `x` is already in `s`). */
  function Insert(s: seq<int>, x: int): (r: seq<int>)
    requires StrictlyAscending(s)
    ensures StrictlyAscending(r)
    ensures forall y :: y in r <==> y in s || y == x
  {
    if s == [] then [x]
    else if x < s[0] then [x] + s
    else if x == s[0] then s
    else
      var rest := Insert(s[1..], x);
      assert forall y :: y in s[1..] ==> s[0] < y;
      assert forall j :: 0 <= j < |rest| ==> s[0] < rest[j] by {
        forall j | 0 <= j < |rest| ensures s[0] < rest[j] {
          assert rest[j] in rest;
        }
      }
      [s[0]] + rest
  }

  /** `sorted().toSet()`: the distinct values of `xs` in ascending order. */
  function SortedDistinct(xs: seq<int>): (r: seq<int>)
    ensures StrictlyAscending(r)
    ensures forall y :: y in r <==> y in xs
  {
    if xs == [] then [] else Insert(SortedDistinct(xs[..|xs| - 1]), xs[|xs| - 1])
  }

  /** The break points of one variable (line 247): its Divisions' thresholds, ascending,
      each once. */
  function BreakPoints(divs: seq<Division>): (points: seq<int>)
    ensures StrictlyAscending(points)
    ensures forall p :: p in points <==> exists d :: d in divs && d.point == p
  {
    var ps := Points(divs);
    assert forall p :: p in ps <==> exists d :: d in divs && d.point == p by {
      forall p ensures p in ps <==> exists d :: d in divs && d.point == p {
        if p in ps {
          var i :| 0 <= i < |ps| && ps[i] == p;
          assert divs[i] in divs;
        }
        if exists d :: d in divs && d.point == p {
          var d :| d in divs && d.point == p;
          var i :| 0 <= i < |divs| && divs[i] == d;
          assert ps[i] == p;
        }
      }
    }
    SortedDistinct(ps)
  }

  /** The matrix built from a variable's own break points covers every value. */
  lemma BreakPointCoverage(divs: seq<Division>, v: int)
    ensures AtRow(divs, v) in Matrix(divs, BreakPoints(divs))
  {
    Coverage(divs, BreakPoints(divs), v);
  }
}
