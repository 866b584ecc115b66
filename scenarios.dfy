/**
 * Conditions worked through the inspection.
 */
module Scenarios {
  import opened Syntax
  import opened Evaluator
  import opened Divisions
  import opened Extractor
  import opened Partition
  import opened Product
  import opened Assignments
  import opened Verdict

  /** `5 < x or x < 5` */
  function AroundFive(): Expr {
    Bin(0, OrKeyword, Bin(1, Lt, Int(2, 5), Ref(3, "x")), Bin(4, Lt, Ref(5, "x"), Int(6, 5)))
  }

  lemma AroundFiveUnique()
    ensures UniqueIds(AroundFive())
  {
    var l, r := Bin(1, Lt, Int(2, 5), Ref(3, "x")), Bin(4, Lt, Ref(5, "x"), Int(6, 5));
    LeafComparisonUnique(l);
    LeafComparisonUnique(r);
    assert Ids(l) !! Ids(r);
  }

  /** A binary node over two leaves with three different ids has distinct ids. */
  lemma LeafComparisonUnique(e: Expr)
    requires e.Bin? && (e.left.Int? || e.left.Ref?) && (e.right.Int? || e.right.Ref?)
    requires e.id != e.left.id && e.id != e.right.id && e.left.id != e.right.id
    ensures UniqueIds(e) && Ids(e) == multiset{e.id, e.left.id, e.right.id}
  {
  }

  lemma AroundFiveDivisions(lt: SwappedLess)
    ensures CollectedDivisions(AroundFive(), lt) == Collected([
      if lt.AsGreater? then Greater(1, "x", 5) else GreaterEq(1, "x", 5), Less(4, "x", 5)])
  {
  }

  /** Two Divisions of one variable at one threshold: one name, one group, one break point. */
  lemma TwoDivisionMatrix(d1: Division, d2: Division)
    requires d1.idName == d2.idName && d1.point == d2.point
    ensures Names([d1, d2]) == [d1.idName]
    ensures Group([d1, d2], d1.idName) == [d1, d2]
    ensures BreakPoints([d1, d2]) == [d1.point]
  {
    var p := d1.point;
    SameName(d1, d2);
    assert Points([d1, d2]) == [p, p];
    assert [p, p][..1] == [p];
    assert [p][..0] == [];
    assert SortedDistinct([p]) == Insert([], p) == [p];
    assert SortedDistinct([p, p]) == Insert([p], p) == [p];
  }

  /** Two Divisions of one variable form one group. */
  lemma SameName(d1: Division, d2: Division)
    requires d1.idName == d2.idName
    ensures Names([d1, d2]) == [d1.idName]
    ensures Group([d1, d2], d1.idName) == [d1, d2]
  {
    assert [d1, d2][..1] == [d1];
    assert [d1][..0] == [];
    assert Group([d1], d1.idName) == [d1];
    assert Names([d1]) == [d1.idName];
  }

  lemma DedupThree<T(!new)>(a: T, b: T, c: T)
    ensures Dedup([a, b, c]) == AppendIfNew(AppendIfNew([a], b), c)
  {
    assert [a, b, c][..2] == [a, b];
    assert [a, b][..1] == [a];
    assert [a][..0] == [];
  }

  lemma MatrixAtOnePoint(ds: seq<Division>, p: int)
    ensures Matrix(ds, [p]) == Dedup([BeforeRow(ds, p), AtRow(ds, p), PlusInfinityRow(ds)])
  {
    assert [p][..0] == [];
    assert PointRows(ds, [p]) == [BeforeRow(ds, p), AtRow(ds, p)];
    assert CandidateRows(ds, [p]) == [BeforeRow(ds, p), AtRow(ds, p), PlusInfinityRow(ds)];
  }

  lemma SourceTableMatrix()
    ensures Matrix([GreaterEq(1, "x", 5), Less(4, "x", 5)], [5]) == [[false, true], [true, false]]
  {
    var ds := [GreaterEq(1, "x", 5), Less(4, "x", 5)];
    MatrixAtOnePoint(ds, 5);
    assert BeforeRow(ds, 5) == [false, true];
    assert AtRow(ds, 5) == [true, false];
    assert PlusInfinityRow(ds) == [true, false];
    DedupThree([false, true], [true, false], [true, false]);
  }

  /** With one variable, the maps are the labelled rows of its matrix, in order. */
  lemma SingleVariableMaps(ds: seq<Division>, name: string, labelled: seq<seq<(int, bool)>>)
    requires |ds| > 0 && Names(ds) == [name] && VariableMatrix(ds, name) == labelled
    ensures |JointAssignments(ds)| == |labelled|
    ensures forall i :: 0 <= i < |labelled| ==> JointAssignments(ds)[i] == PairsToMap(labelled[i])
  {
    SingleMatrices(ds, name, labelled);
    SingleList(labelled);
    forall i | 0 <= i < |labelled| ensures JointAssignments(ds)[i] == PairsToMap(labelled[i]) {
      SingleChoice(ds, labelled, i);
    }
  }

  lemma SingleMatrices(ds: seq<Division>, name: string, labelled: seq<seq<(int, bool)>>)
    requires Names(ds) == [name] && VariableMatrix(ds, name) == labelled
    ensures Matrices(ds) == [labelled]
  {
    var r := Matrices(ds);
    assert |r| == 1 && r[0] == labelled;
  }

  lemma SingleChoice(ds: seq<Division>, labelled: seq<seq<(int, bool)>>, i: nat)
    requires |ds| > 0 && Matrices(ds) == [labelled] && i < |labelled|
    ensures i < |JointAssignments(ds)| && JointAssignments(ds)[i] == PairsToMap(labelled[i])
  {
    SingleList(labelled);
    assert i < SizeProduct(Matrices(ds));
    JointAssignmentAt(ds, i);
    FlattenOne(labelled[i]);
  }

  lemma FlattenOne<T>(x: seq<T>)
    ensures Flatten([x]) == x
  {
    assert [x][1..] == [];
  }

  lemma PairsToMapOne(a: (int, bool))
    ensures PairsToMap([a]) == map[a.0 := a.1]
  {
    assert [a][..0] == [];
  }

  lemma PairsToMapTwo(a: (int, bool), b: (int, bool))
    ensures PairsToMap([a, b]) == map[a.0 := a.1][b.0 := b.1]
  {
    assert [a, b][..1] == [a];
    assert [a][..0] == [];
    assert PairsToMap([a]) == map[a.0 := a.1];
  }

  lemma SourceTableMaps()
    ensures JointAssignments([GreaterEq(1, "x", 5), Less(4, "x", 5)])
         == [map[1 := false, 4 := true], map[1 := true, 4 := false]]
  {
    var ds := [GreaterEq(1, "x", 5), Less(4, "x", 5)];
    TwoDivisionMatrix(ds[0], ds[1]);
    SourceTableMatrix();
    var rows := [[(1, false), (4, true)], [(1, true), (4, false)]];
    assert LabelRow(ds, [false, true]) == rows[0];
    assert LabelRow(ds, [true, false]) == rows[1];
    assert VariableMatrix(ds, "x") == rows;
    SingleVariableMaps(ds, "x", rows);
    PairsToMapTwo((1, false), (4, true));
    PairsToMapTwo((1, true), (4, false));
  }

  lemma IntendedTableMatrix()
    ensures Matrix([Greater(1, "x", 5), Less(4, "x", 5)], [5]) == [[false, true], [false, false], [true, false]]
  {
    var ds := [Greater(1, "x", 5), Less(4, "x", 5)];
    MatrixAtOnePoint(ds, 5);
    assert BeforeRow(ds, 5) == [false, true];
    assert AtRow(ds, 5) == [false, false];
    assert PlusInfinityRow(ds) == [true, false];
    DedupThree([false, true], [false, false], [true, false]);
  }

  lemma IntendedTableMaps()
    ensures var maps := JointAssignments([Greater(1, "x", 5), Less(4, "x", 5)]);
      |maps| == 3 && maps[0] == map[1 := false, 4 := true] && maps[1] == map[1 := false, 4 := false]
  {
    var ds := [Greater(1, "x", 5), Less(4, "x", 5)];
    TwoDivisionMatrix(ds[0], ds[1]);
    IntendedTableMatrix();
    var rows := [[(1, false), (4, true)], [(1, false), (4, false)], [(1, true), (4, false)]];
    assert LabelRow(ds, [false, true]) == rows[0];
    assert LabelRow(ds, [false, false]) == rows[1];
    assert LabelRow(ds, [true, false]) == rows[2];
    assert VariableMatrix(ds, "x") == rows;
    SingleVariableMaps(ds, "x", rows);
    PairsToMapTwo((1, false), (4, true));
    PairsToMapTwo((1, false), (4, false));
  }

  /** The verdict of a condition that does not fold and has Divisions comes from its maps. */
  lemma ThroughMaps(cond: Expr, lt: SwappedLess, ds: seq<Division>, maps: seq<map<int, bool>>)
    requires CalculateValue(cond, map[]).NoValue?
    requires CollectedDivisions(cond, lt) == Collected(ds) && |ds| > 0
    requires JointAssignments(ds) == maps
    ensures Analysis(cond, lt) == MapsVerdict(cond, maps)
  {
  }

  lemma Disagreement(cond: Expr, maps: seq<map<int, bool>>)
    requires |maps| >= 2
    requires CalculateValue(cond, maps[0]).Val? && CalculateValue(cond, maps[1]).Val?
    requires ToBool(CalculateValue(cond, maps[0]).n) != ToBool(CalculateValue(cond, maps[1]).n)
    ensures MapsVerdict(cond, maps) == NoVerdict
  {
    assert maps[1..][0] == maps[1];
  }

  lemma AgreementOfTwo(cond: Expr, maps: seq<map<int, bool>>, b: bool)
    requires |maps| == 2
    requires CalculateValue(cond, maps[0]).Val? && ToBool(CalculateValue(cond, maps[0]).n) == b
    requires CalculateValue(cond, maps[1]).Val? && ToBool(CalculateValue(cond, maps[1]).n) == b
    ensures MapsVerdict(cond, maps) == Always(b)
  {
    assert maps[1..][0] == maps[1] && |maps[1..][1..]| == 0;
    assert Unanimous(cond, maps[1..][1..], b) == Always(b);
  }

  lemma AbortAtSecond(cond: Expr, maps: seq<map<int, bool>>, err: ArithError)
    requires |maps| >= 2
    requires CalculateValue(cond, maps[0]).Val? && CalculateValue(cond, maps[1]) == Raised(err)
    ensures MapsVerdict(cond, maps) == Aborted(err)
  {
    assert maps[1..][0] == maps[1];
  }

  lemma AroundFiveValues()
    ensures CalculateValue(AroundFive(), map[]) == NoValue
    ensures CalculateValue(AroundFive(), map[1 := false, 4 := true]) == Val(1)
    ensures CalculateValue(AroundFive(), map[1 := true, 4 := false]) == Val(1)
    ensures ValueUnder(AroundFive(), _ => 5) == Val(0)
  {
  }

  /** With the source's table, `5 < x or x < 5` is reported as always True, although
      it is false when `x` is 5: the soundness theorem fails for that table. */
  lemma SwappedLessUnsound()
    ensures UniqueIds(AroundFive())
    ensures Analysis(AroundFive(), AsGreaterEq) == Always(true)
    ensures ValueUnder(AroundFive(), _ => 5) == Val(0)
  {
    AroundFiveUnique();
    AroundFiveDivisions(AsGreaterEq);
    SourceTableMaps();
    var maps: seq<map<int, bool>> := [map[1 := false, 4 := true], map[1 := true, 4 := false]];
    AroundFiveValues();
    ThroughMaps(AroundFive(), AsGreaterEq, [GreaterEq(1, "x", 5), Less(4, "x", 5)], maps);
    AgreementOfTwo(AroundFive(), maps, true);
  }

  lemma AroundFiveIntendedValues()
    ensures CalculateValue(AroundFive(), map[]) == NoValue
    ensures CalculateValue(AroundFive(), map[1 := false, 4 := true]) == Val(1)
    ensures CalculateValue(AroundFive(), map[1 := false, 4 := false]) == Val(0)
  {
  }

  /** With the intended table, the same condition gets no verdict: the map of `x == 5`
      makes it false. */
  lemma SwappedLessCorrected()
    ensures Analysis(AroundFive(), AsGreater) == NoVerdict
  {
    AroundFiveDivisions(AsGreater);
    IntendedTableMaps();
    var maps := JointAssignments([Greater(1, "x", 5), Less(4, "x", 5)]);
    AroundFiveIntendedValues();
    ThroughMaps(AroundFive(), AsGreater, [Greater(1, "x", 5), Less(4, "x", 5)], maps);
    Disagreement(AroundFive(), maps);
  }

  /** `2 + 2 == 4` folds, and is reported as always True. */
  lemma FoldedCondition()
    ensures Analysis(Bin(0, EqEq, Bin(1, Plus, Int(2, 2), Int(3, 2)), Int(4, 4)), AsGreaterEq) == Always(true)
  {
  }

  /** `5 // 0 == 0` has no value (the division by zero gives none) and no comparison
      with a variable, so it gets no verdict. */
  lemma FloorDivisionByZero()
    ensures Analysis(Bin(0, EqEq, Bin(1, FloorDiv, Int(2, 5), Int(3, 0)), Int(4, 0)), AsGreaterEq) == NoVerdict
  {
    var cond := Bin(0, EqEq, Bin(1, FloorDiv, Int(2, 5), Int(3, 0)), Int(4, 0));
    assert CalculateValue(cond.left, map[]) == NoValue;
    assert CalculateValue(cond, map[]) == NoValue;
    assert CollectedDivisions(cond.left, AsGreaterEq) == Collected([]);
    assert CollectedDivisions(cond, AsGreaterEq) == Collected([]);
    NothingToSplit(cond, AsGreaterEq);
  }

  lemma OneDivision(d: Division)
    ensures Names([d]) == [d.idName]
    ensures Group([d], d.idName) == [d]
    ensures BreakPoints([d]) == [d.point]
  {
    assert [d][..0] == [];
    assert Points([d]) == [d.point];
    assert [d.point][..0] == [];
    assert SortedDistinct([d.point]) == Insert([], d.point) == [d.point];
  }

  lemma LessThanThreeMaps()
    ensures var maps := JointAssignments([Less(2, "x", 3)]);
      |maps| == 2 && maps[0] == map[2 := true] && maps[1] == map[2 := false]
  {
    var ds := [Less(2, "x", 3)];
    OneDivision(ds[0]);
    LessThanThreeMatrix();
    var rows := [[(2, true)], [(2, false)]];
    assert LabelRow(ds, [true]) == rows[0];
    assert LabelRow(ds, [false]) == rows[1];
    assert VariableMatrix(ds, "x") == rows;
    SingleVariableMaps(ds, "x", rows);
    PairsToMapOne(rows[0][0]);
    PairsToMapOne(rows[1][0]);
  }

  lemma LessThanThreeMatrix()
    ensures Matrix([Less(2, "x", 3)], [3]) == [[true], [false]]
  {
    var ds := [Less(2, "x", 3)];
    MatrixAtOnePoint(ds, 3);
    assert BeforeRow(ds, 3) == [true];
    assert AtRow(ds, 3) == [false];
    assert PlusInfinityRow(ds) == [false];
    DedupThree([true], [false], [false]);
  }

  /** A condition that is a single comparison of a variable with a constant gets no
      verdict, with either table: its one Division takes both truth values, and the
      first two maps give the comparison node those two values. */
  lemma SingleComparison(cond: Expr, lt: SwappedLess)
    requires HasReferenceSide(cond) && NodeDivision(cond, lt).Some?
    ensures Analysis(cond, lt) == NoVerdict
  {
    var d := NodeDivision(cond, lt).value;
    assert CalculateValue(cond, map[]) == NoValue;
    assert CollectedDivisions(cond, lt) == Collected([d]);
    SingleDivisionMaps(d);
    var maps := JointAssignments([d]);
    assert CalculateValue(cond, maps[0]) == Val(BoolToInt(d.left));
    assert CalculateValue(cond, maps[1]) == Val(BoolToInt(!d.left));
    ThroughMaps(cond, lt, [d], maps);
    Disagreement(cond, maps);
  }

  /** The maps of one Division: the first gives its node the truth value left of the
      threshold, the second the other truth value. */
  lemma SingleDivisionMaps(d: Division)
    requires d.Divides()
    ensures var maps := JointAssignments([d]);
      |maps| >= 2 && maps[0] == map[d.owner := d.left] && maps[1] == map[d.owner := !d.left]
  {
    var ds := [d];
    OneDivision(d);
    SingleDivisionMatrix(d);
    var m := Matrix(ds, [d.point]);
    var rows := VariableMatrix(ds, d.idName);
    assert rows == Labelled(ds, m);
    assert rows[0] == LabelRow(ds, m[0]) == [(d.owner, d.left)];
    assert rows[1] == LabelRow(ds, m[1]) == [(d.owner, !d.left)];
    SingleVariableMaps(ds, d.idName, rows);
    PairsToMapOne(rows[0][0]);
    PairsToMapOne(rows[1][0]);
  }

  lemma SingleDivisionMatrix(d: Division)
    requires d.Divides()
    ensures var m := Matrix([d], [d.point]);
      |m| >= 2 && m[0] == [d.left] && m[1] == [!d.left] && forall row :: row in m ==> |row| == 1
  {
    var ds := [d];
    MatrixAtOnePoint(ds, d.point);
    assert BeforeRow(ds, d.point) == [d.left];
    assert AtRow(ds, d.point) == [d.atPoint];
    assert PlusInfinityRow(ds) == [d.right];
    DedupThree([d.left], [d.atPoint], [d.right]);
  }

  /** `x > 3` may be either: no verdict. */
  lemma OpenComparison()
    ensures Analysis(Bin(0, Gt, Ref(1, "x"), Int(2, 3)), AsGreaterEq) == NoVerdict
  {
    var cond := Bin(0, Gt, Ref(1, "x"), Int(2, 3));
    var ds := [Greater(0, "x", 3)];
    assert CollectedDivisions(cond, AsGreaterEq) == Collected(ds);
    GreaterThanThreeMaps();
    var maps := JointAssignments(ds);
    assert CalculateValue(cond, map[]) == NoValue;
    assert CalculateValue(cond, maps[0]) == Val(0) && CalculateValue(cond, maps[1]) == Val(1);
    ThroughMaps(cond, AsGreaterEq, ds, maps);
    Disagreement(cond, maps);
  }

  lemma GreaterThanThreeMaps()
    ensures var maps := JointAssignments([Greater(0, "x", 3)]);
      |maps| == 2 && maps[0] == map[0 := false] && maps[1] == map[0 := true]
  {
    var ds := [Greater(0, "x", 3)];
    OneDivision(ds[0]);
    GreaterThanThreeMatrix();
    var rows := [[(0, false)], [(0, true)]];
    assert LabelRow(ds, [false]) == rows[0];
    assert LabelRow(ds, [true]) == rows[1];
    assert VariableMatrix(ds, "x") == rows;
    SingleVariableMaps(ds, "x", rows);
    PairsToMapOne(rows[0][0]);
    PairsToMapOne(rows[1][0]);
  }

  lemma GreaterThanThreeMatrix()
    ensures Matrix([Greater(0, "x", 3)], [3]) == [[false], [true]]
  {
    var ds := [Greater(0, "x", 3)];
    MatrixAtOnePoint(ds, 3);
    assert BeforeRow(ds, 3) == [false];
    assert AtRow(ds, 3) == [false];
    assert PlusInfinityRow(ds) == [true];
    DedupThree([false], [false], [true]);
  }

  lemma RemainderValues()
    ensures var cond := Bin(0, Perc, Int(1, 5), Bin(2, Lt, Ref(3, "x"), Int(4, 3)));
      && CalculateValue(cond, map[]) == NoValue
      && CalculateValue(cond, map[2 := true]) == Val(0)
      && CalculateValue(cond, map[2 := false]) == Raised(DivideByZero)
  {
  }

  /** `5 % (x < 3)`: pinning `x < 3` to false makes the remainder divide by zero, and
      the exception ends the inspection of the condition. */
  lemma RemainderByComparison()
    ensures Analysis(Bin(0, Perc, Int(1, 5), Bin(2, Lt, Ref(3, "x"), Int(4, 3))), AsGreaterEq)
         == Aborted(DivideByZero)
  {
    var cond := Bin(0, Perc, Int(1, 5), Bin(2, Lt, Ref(3, "x"), Int(4, 3)));
    var ds := [Less(2, "x", 3)];
    assert CollectedDivisions(cond, AsGreaterEq) == Collected(ds);
    LessThanThreeMaps();
    var maps := JointAssignments(ds);
    RemainderValues();
    ThroughMaps(cond, AsGreaterEq, ds, maps);
    AbortAtSecond(cond, maps, DivideByZero);
  }

  /** `x < 5 or x >= 5` */
  function Complementary(): Expr {
    Bin(0, OrKeyword, Bin(1, Lt, Ref(2, "x"), Int(3, 5)), Bin(4, Ge, Ref(5, "x"), Int(6, 5)))
  }

  lemma ComplementaryMatrix(p: int)
    ensures Matrix([Less(1, "x", p), GreaterEq(4, "x", p)], [p]) == [[true, false], [false, true]]
  {
    var ds := [Less(1, "x", p), GreaterEq(4, "x", p)];
    MatrixAtOnePoint(ds, p);
    assert BeforeRow(ds, p) == [true, false];
    assert AtRow(ds, p) == [false, true];
    assert PlusInfinityRow(ds) == [false, true];
    DedupThree([true, false], [false, true], [false, true]);
  }

  /** `x < p` and `x >= p` give exactly two maps, each making one of them true. */
  lemma ComplementaryMaps(p: int)
    ensures JointAssignments([Less(1, "x", p), GreaterEq(4, "x", p)])
         == [map[1 := true, 4 := false], map[1 := false, 4 := true]]
  {
    var ds := [Less(1, "x", p), GreaterEq(4, "x", p)];
    TwoDivisionMatrix(ds[0], ds[1]);
    ComplementaryMatrix(p);
    var rows := [[(1, true), (4, false)], [(1, false), (4, true)]];
    assert LabelRow(ds, [true, false]) == rows[0];
    assert LabelRow(ds, [false, true]) == rows[1];
    assert VariableMatrix(ds, "x") == rows;
    SingleVariableMaps(ds, "x", rows);
    PairsToMapTwo((1, true), (4, false));
    PairsToMapTwo((1, false), (4, true));
  }

  lemma ComplementaryValues()
    ensures CalculateValue(Complementary(), map[]) == NoValue
    ensures CalculateValue(Complementary(), map[1 := true, 4 := false]) == Val(1)
    ensures CalculateValue(Complementary(), map[1 := false, 4 := true]) == Val(1)
  {
  }

  lemma ComplementaryDivisions(lt: SwappedLess)
    ensures CollectedDivisions(Complementary(), lt) == Collected([Less(1, "x", 5), GreaterEq(4, "x", 5)])
  {
  }

  /** `x < 5 or x >= 5` is reported as always True, with either table. */
  lemma ComplementaryAlwaysTrue(lt: SwappedLess)
    ensures Analysis(Complementary(), lt) == Always(true)
  {
    ComplementaryDivisions(lt);
    ComplementaryMaps(5);
    var maps: seq<map<int, bool>> := [map[1 := true, 4 := false], map[1 := false, 4 := true]];
    ComplementaryValues();
    ThroughMaps(Complementary(), lt, [Less(1, "x", 5), GreaterEq(4, "x", 5)], maps);
    AgreementOfTwo(Complementary(), maps, true);
  }

  /** `x < (0 - 7) // 2 or x >= 0 - 3`: both thresholds fold to -3 with the quotient
      truncated, as `BigInteger` divides. */
  function TruncatingProbe(): Expr {
    Bin(0, OrKeyword,
      Bin(1, Lt, Ref(2, "x"), Bin(3, FloorDiv, Paren(6, Bin(7, Minus, Int(8, 0), Int(9, 7))), Int(10, 2))),
      Bin(4, Ge, Ref(5, "x"), Bin(11, Minus, Int(12, 0), Int(13, 3))))
  }

  lemma TruncatingProbeDivisions()
    ensures CollectedDivisions(TruncatingProbe(), AsGreater) == Collected([Less(1, "x", -3), GreaterEq(4, "x", -3)])
  {
    assert TruncDiv(-7, 2) == -3;
  }

  /** The probe is reported always True, even with the intended table, and the
      evaluator's arithmetic agrees at every value of `x` (at -4, say).  Python's `//`
      floors instead: `(0 - 7) // 2` is -4 there, and at `x = -4` neither side holds. */
  lemma TruncatingProbeAlwaysTrue()
    ensures Analysis(TruncatingProbe(), AsGreater) == Always(true)
    ensures ValueUnder(TruncatingProbe(), _ => -4) == Val(1)
    ensures TruncDiv(-7, 2) == -3 && -7 / 2 == -4 && !(-4 < -7 / 2 || -4 >= -3)
  {
    var cond := TruncatingProbe();
    TruncatingProbeDivisions();
    ComplementaryMaps(-3);
    var ds := [Less(1, "x", -3), GreaterEq(4, "x", -3)];
    var maps: seq<map<int, bool>> := [map[1 := true, 4 := false], map[1 := false, 4 := true]];
    TruncatingProbeValues();
    ThroughMaps(cond, AsGreater, ds, maps);
    AgreementOfTwo(cond, maps, true);
    TruncatingProbeAtMinusFour(_ => -4);
  }

  lemma TruncatingProbeValues()
    ensures CalculateValue(TruncatingProbe(), map[]) == NoValue
    ensures CalculateValue(TruncatingProbe(), map[1 := true, 4 := false]) == Val(1)
    ensures CalculateValue(TruncatingProbe(), map[1 := false, 4 := true]) == Val(1)
  {
  }

  lemma TruncatingProbeAtMinusFour(env: string -> int)
    requires env("x") == -4
    ensures ValueUnder(TruncatingProbe(), env) == Val(1)
  {
    var p := TruncatingProbe();
    assert TruncDiv(-7, 2) == -3;
    assert ValueUnder(p.left.right, env) == Val(-3);
    assert ValueUnder(p.right.right, env) == Val(-3);
  }

  /** `x < 5 and x > 10` */
  function BetweenNowhere(): Expr {
    Bin(0, AndKeyword, Bin(1, Lt, Ref(2, "x"), Int(3, 5)), Bin(4, Gt, Ref(5, "x"), Int(6, 10)))
  }

  lemma BetweenNowhereDivisions(lt: SwappedLess)
    ensures CollectedDivisions(BetweenNowhere(), lt) == Collected([Less(1, "x", 5), Greater(4, "x", 10)])
  {
  }

  /** Two Divisions of one variable at two ascending thresholds. */
  lemma TwoThresholds(d1: Division, d2: Division)
    requires d1.idName == d2.idName && d1.point < d2.point
    ensures Names([d1, d2]) == [d1.idName]
    ensures Group([d1, d2], d1.idName) == [d1, d2]
    ensures BreakPoints([d1, d2]) == [d1.point, d2.point]
  {
    var p, q := d1.point, d2.point;
    SameName(d1, d2);
    assert Points([d1, d2]) == [p, q];
    assert [p, q][..1] == [p];
    assert [p][..0] == [];
    assert SortedDistinct([p]) == Insert([], p) == [p];
    assert [p][1..] == [];
    assert SortedDistinct([p, q]) == Insert([p], q) == [p] + Insert([], q) == [p, q];
  }

  lemma BetweenNowhereMatrix()
    ensures Matrix([Less(1, "x", 5), Greater(4, "x", 10)], [5, 10]) == [[true, false], [false, false], [false, true]]
  {
    var ds := [Less(1, "x", 5), Greater(4, "x", 10)];
    var r0, r1, r4 := [true, false], [false, false], [false, true];
    assert BeforeRow(ds, 5) == r0;
    assert AtRow(ds, 5) == r1;
    assert BeforeRow(ds, 10) == r1;
    assert AtRow(ds, 10) == r1;
    assert PlusInfinityRow(ds) == r4;
    assert [5, 10][..1] == [5];
    assert [5][..0] == [];
    assert CandidateRows(ds, [5, 10]) == [r0, r1, r1] + [r1] + [r4];
    DedupThree(r0, r1, r1);
    DedupSnoc([r0, r1, r1], r1);
    DedupSnoc([r0, r1, r1] + [r1], r4);
  }

  lemma BetweenNowhereMaps()
    ensures JointAssignments([Less(1, "x", 5), Greater(4, "x", 10)])
         == [map[1 := true, 4 := false], map[1 := false, 4 := false], map[1 := false, 4 := true]]
  {
    var ds := [Less(1, "x", 5), Greater(4, "x", 10)];
    TwoThresholds(ds[0], ds[1]);
    BetweenNowhereMatrix();
    var rows := [[(1, true), (4, false)], [(1, false), (4, false)], [(1, false), (4, true)]];
    assert LabelRow(ds, [true, false]) == rows[0];
    assert LabelRow(ds, [false, false]) == rows[1];
    assert LabelRow(ds, [false, true]) == rows[2];
    assert VariableMatrix(ds, "x") == rows;
    SingleVariableMaps(ds, "x", rows);
    PairsToMapTwo((1, true), (4, false));
    PairsToMapTwo((1, false), (4, false));
    PairsToMapTwo((1, false), (4, true));
  }

  lemma BetweenNowhereValues()
    ensures CalculateValue(BetweenNowhere(), map[]) == NoValue
    ensures CalculateValue(BetweenNowhere(), map[1 := true, 4 := false]) == Val(0)
    ensures CalculateValue(BetweenNowhere(), map[1 := false, 4 := false]) == Val(0)
    ensures CalculateValue(BetweenNowhere(), map[1 := false, 4 := true]) == Val(0)
  {
  }

  lemma AgreementOfThree(cond: Expr, maps: seq<map<int, bool>>, b: bool)
    requires |maps| == 3
    requires CalculateValue(cond, maps[0]).Val? && ToBool(CalculateValue(cond, maps[0]).n) == b
    requires CalculateValue(cond, maps[1]).Val? && ToBool(CalculateValue(cond, maps[1]).n) == b
    requires CalculateValue(cond, maps[2]).Val? && ToBool(CalculateValue(cond, maps[2]).n) == b
    ensures MapsVerdict(cond, maps) == Always(b)
  {
    UnanimousMeaning(cond, maps[1..], b);
    assert maps[1..][0] == maps[1] && maps[1..][1] == maps[2];
  }

  /** `x < 5 and x > 10` is reported always False, with either table: every map makes
      one side or both false. */
  lemma BetweenNowhereAlwaysFalse(lt: SwappedLess)
    ensures Analysis(BetweenNowhere(), lt) == Always(false)
  {
    BetweenNowhereDivisions(lt);
    BetweenNowhereMaps();
    var maps: seq<map<int, bool>> := [map[1 := true, 4 := false], map[1 := false, 4 := false], map[1 := false, 4 := true]];
    BetweenNowhereValues();
    ThroughMaps(BetweenNowhere(), lt, [Less(1, "x", 5), Greater(4, "x", 10)], maps);
    AgreementOfThree(BetweenNowhere(), maps, false);
  }

  /** `x and True`: the reference side of the `and` is compared with nothing, so the
      node yields no Division and the condition gets no verdict. */
  function BareAndTrue(): Expr {
    Bin(0, AndKeyword, Ref(1, "x"), Bool(2, true))
  }

  lemma BareAndTrueNoVerdict(lt: SwappedLess)
    ensures CollectedDivisions(BareAndTrue(), lt) == Collected([])
    ensures Analysis(BareAndTrue(), lt) == NoVerdict
  {
    NothingToSplit(BareAndTrue(), lt);
  }

  /** `(x) and (y > 3)`: only `y` is compared, so the bare `x` keeps every map from
      folding the condition. */
  function BareAndComparison(): Expr {
    Bin(0, AndKeyword, Paren(1, Ref(2, "x")), Paren(3, Bin(4, Gt, Ref(5, "y"), Int(6, 3))))
  }

  lemma BareAndComparisonDivisions(lt: SwappedLess)
    ensures CollectedDivisions(BareAndComparison(), lt) == Collected([Greater(4, "y", 3)])
  {
  }

  lemma BareAndComparisonUnique()
    ensures UniqueIds(BareAndComparison())
  {
    var c := Bin(4, Gt, Ref(5, "y"), Int(6, 3));
    LeafComparisonUnique(c);
    assert Ids(Paren(3, c)) == multiset{3, 4, 5, 6};
  }

  lemma BareAndComparisonNotAlways(lt: SwappedLess)
    ensures !Analysis(BareAndComparison(), lt).Always?
  {
    var x := Ref(2, "x");
    BareAndComparisonUnique();
    BareAndComparisonDivisions(lt);
    assert x in Subterms(BareAndComparison());
    UncomparedVariable(BareAndComparison(), lt, x);
  }
}
