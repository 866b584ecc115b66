/**
 * The decision of `processIfPart`: a condition is reported as always True or always
 * False when it folds to a constant, or when every map of truth values for its
 * comparisons gives it one and the same truth value.
 */
module Verdict {
  import opened Syntax
  import opened Evaluator
  import opened Divisions
  import opened Extractor
  import opened Partition
  import opened Product
  import opened Assignments

  /** What the inspection does with a condition: report that it is always `value`,
      report nothing, or end with the exception that evaluation threw. */
  datatype Verdict = Always(value: bool) | NoVerdict | Aborted(error: ArithError)

  /** `maps.all { calculateValue(it)?.toBoolean() == b }`, taken one map at a time and
      stopping at the first map that disagrees or throws. */
  function Unanimous(cond: Expr, maps: seq<map<int, bool>>, b: bool): (v: Verdict)
    ensures v.Always? ==> v.value == b
  {
    if maps == [] then Always(b)
    else
      match CalculateValue(cond, maps[0])
      case Raised(err) => Aborted(err)
      case NoValue => NoVerdict
      case Val(n) => if ToBool(n) == b then Unanimous(cond, maps[1..], b) else NoVerdict
  }

  /** The verdict `processIfPart` reaches on `cond`, with `lt` the table for `c < x`. */
  function Analysis(cond: Expr, lt: SwappedLess): Verdict {
    match CalculateValue(cond, map[])
    case Val(n) => Always(ToBool(n))
    case Raised(err) => Aborted(err)
    case NoValue =>
      match CollectedDivisions(cond, lt)
      case Threw(err) => Aborted(err)
      case Collected(ds) =>
        if ds == [] then NoVerdict else MapsVerdict(cond, JointAssignments(ds))
  }

  /** The verdict from the maps: the first map gives the candidate truth value, and
      all the others must agree with it. */
  function MapsVerdict(cond: Expr, maps: seq<map<int, bool>>): Verdict
    requires |maps| > 0
  {
    match CalculateValue(cond, maps[0])
    case Raised(err) => Aborted(err)
    case NoValue => NoVerdict
    case Val(n) => Unanimous(cond, maps[1..], ToBool(n))
  }

  /** `processIfPart` (lines 35-88), the report returned instead of registered. */
  method ProcessIfPart(condition: Expr, lt: SwappedLess) returns (verdict: Verdict)
    ensures verdict == Analysis(condition, lt)
  {
    var calculatedValue := CalculateValue(condition, map[]);
    if calculatedValue.Raised? {
      return Aborted(calculatedValue.error);
    } else if calculatedValue.Val? {
      return Always(ToBool(calculatedValue.n));
    }
    var collected := CollectDivisions(condition, [], lt);
    assert Extend([], CollectedDivisions(condition, lt)) == CollectedDivisions(condition, lt) by {
      if CollectedDivisions(condition, lt).Collected? {
        assert [] + CollectedDivisions(condition, lt).divisions == CollectedDivisions(condition, lt).divisions;
      }
    }
    if collected.Threw? {
      return Aborted(collected.error);
    }
    var divisions := collected.divisions;
    if |divisions| == 0 {
      return NoVerdict;
    }
    var boolMaps := GenerateBoolListForDivisions(divisions);
    assert Analysis(condition, lt) == MapsVerdict(condition, boolMaps);
    var first := CalculateValue(condition, boolMaps[0]);
    if first.Raised? {
      return Aborted(first.error);
    } else if first.NoValue? {
      return NoVerdict;
    }
    verdict := AllMatch(condition, boolMaps, ToBool(first.n));
  }

  /** `boolMaps.drop(1).all { condition.calculateValue(it)?.toBoolean() == calc2 }`
      (lines 77-79), with the reports of lines 81-85: `Always(calc2)` when every map
      agrees, `NoVerdict` at the first that does not, `Aborted` when one throws. */
  method AllMatch(condition: Expr, boolMaps: seq<map<int, bool>>, calc2: bool) returns (verdict: Verdict)
    requires |boolMaps| > 0
    ensures verdict == Unanimous(condition, boolMaps[1..], calc2)
  {
    var allMatch := true;
    var i := 1;
    while i < |boolMaps| && allMatch
      invariant 1 <= i <= |boolMaps|
      invariant allMatch ==> Unanimous(condition, boolMaps[1..], calc2) == Unanimous(condition, boolMaps[i..], calc2)
      invariant !allMatch ==> Unanimous(condition, boolMaps[1..], calc2) == NoVerdict
    {
      var value := CalculateValue(condition, boolMaps[i]);
      assert boolMaps[i..][1..] == boolMaps[i + 1..];
      if value.Raised? {
        return Aborted(value.error);
      }
      allMatch := value.Val? && ToBool(value.n) == calc2;
      i := i + 1;
    }
    verdict := if allMatch then Always(calc2) else NoVerdict;
  }

  /** Unanimity means exactly that every map gives `cond` a value of truth `b`. */
  lemma {:induction false} UnanimousMeaning(cond: Expr, maps: seq<map<int, bool>>, b: bool)
    ensures Unanimous(cond, maps, b) == Always(b) <==>
      forall j :: 0 <= j < |maps| ==> CalculateValue(cond, maps[j]).Val? && ToBool(CalculateValue(cond, maps[j]).n) == b
  {
    if maps != [] {
      UnanimousMeaning(cond, maps[1..], b);
      if forall j :: 0 <= j < |maps[1..]| ==> CalculateValue(cond, maps[1..][j]).Val? && ToBool(CalculateValue(cond, maps[1..][j]).n) == b {
        if CalculateValue(cond, maps[0]).Val? && ToBool(CalculateValue(cond, maps[0]).n) == b {
          forall j | 0 <= j < |maps| ensures CalculateValue(cond, maps[j]).Val? && ToBool(CalculateValue(cond, maps[j]).n) == b {
            if j > 0 {
              assert maps[j] == maps[1..][j - 1];
            }
          }
        }
      } else {
        var j :| 0 <= j < |maps[1..]| && !(CalculateValue(cond, maps[1..][j]).Val? && ToBool(CalculateValue(cond, maps[1..][j]).n) == b);
        assert maps[1..][j] == maps[j + 1];
      }
    }
  }

  /** When a verdict is reached through the maps, every map gives `cond` a value of that truth. */
  lemma AllMapsAgree(cond: Expr, lt: SwappedLess, b: bool)
    requires Analysis(cond, lt) == Always(b)
    requires CalculateValue(cond, map[]).NoValue?
    ensures CollectedDivisions(cond, lt).Collected? && |CollectedDivisions(cond, lt).divisions| > 0
    ensures var maps := JointAssignments(CollectedDivisions(cond, lt).divisions);
      forall j :: 0 <= j < |maps| ==> CalculateValue(cond, maps[j]).Val? && ToBool(CalculateValue(cond, maps[j]).n) == b
  {
    var ds := CollectedDivisions(cond, lt).divisions;
    var maps := JointAssignments(ds);
    assert MapsVerdict(cond, maps) == Always(b);
    MapsAgree(cond, maps, b);
  }

  /** The maps give a verdict only when every one of them gives `cond` a value of that truth. */
  lemma MapsAgree(cond: Expr, maps: seq<map<int, bool>>, b: bool)
    requires |maps| > 0 && MapsVerdict(cond, maps) == Always(b)
    ensures forall j :: 0 <= j < |maps| ==> CalculateValue(cond, maps[j]).Val? && ToBool(CalculateValue(cond, maps[j]).n) == b
  {
    UnanimousMeaning(cond, maps[1..], b);
    forall j | 0 <= j < |maps| ensures CalculateValue(cond, maps[j]).Val? && ToBool(CalculateValue(cond, maps[j]).n) == b {
      if j > 0 {
        assert maps[j] == maps[1..][j - 1];
      }
    }
  }

  /** Soundness, with the intended table for `c < x`: when the inspection reports that a
      condition is always `b`, the condition has a value of truth `b` whatever integers
      its variables hold (its nodes having distinct identities, as syntax tree nodes do).
      The value is the one `ValueUnder` gives, with the evaluator's truncating `//` and `%`. */
  lemma Soundness(cond: Expr, env: string -> int, b: bool)
    requires UniqueIds(cond)
    requires Analysis(cond, AsGreater) == Always(b)
    ensures ValueUnder(cond, env).Val? && ToBool(ValueUnder(cond, env).n) == b
  {
    if CalculateValue(cond, map[]).Val? {
      ClosedValue(cond, env);
    } else {
      AllMapsAgree(cond, AsGreater, b);
      var ds := CollectedDivisions(cond, AsGreater).divisions;
      OwnersDistinct(cond, AsGreater);
      var i := Covering(ds, env);
      var m := JointAssignments(ds)[i];
      assert PinsDivisions(cond, m, env);
      CollectedPinned(cond, m, env);
      PinnedEvaluation(cond, m, env);
    }
  }

  /** A condition without Divisions that does not fold gets no verdict. */
  lemma NothingToSplit(cond: Expr, lt: SwappedLess)
    requires CalculateValue(cond, map[]).NoValue?
    requires CollectedDivisions(cond, lt) == Collected([])
    ensures Analysis(cond, lt) == NoVerdict
  {
  }

  /** Two conditions that fold alike under every map reach the same agreement. */
  lemma {:induction false} UnanimousAlike(c1: Expr, c2: Expr, maps: seq<map<int, bool>>, b: bool)
    requires forall j :: 0 <= j < |maps| ==> CalculateValue(c1, maps[j]) == CalculateValue(c2, maps[j])
    ensures Unanimous(c1, maps, b) == Unanimous(c2, maps, b)
  {
    if maps != [] {
      assert CalculateValue(c1, maps[0]) == CalculateValue(c2, maps[0]);
      forall j | 0 <= j < |maps[1..]|
        ensures CalculateValue(c1, maps[1..][j]) == CalculateValue(c2, maps[1..][j])
      {
        assert maps[1..][j] == maps[j + 1];
      }
      UnanimousAlike(c1, c2, maps[1..], b);
    }
  }

  /** Two conditions that fold alike under every map get the same verdict from the maps. */
  lemma MapsVerdictAlike(c1: Expr, c2: Expr, maps: seq<map<int, bool>>)
    requires |maps| > 0
    requires forall j :: 0 <= j < |maps| ==> CalculateValue(c1, maps[j]) == CalculateValue(c2, maps[j])
    ensures MapsVerdict(c1, maps) == MapsVerdict(c2, maps)
  {
    assert CalculateValue(c1, maps[0]) == CalculateValue(c2, maps[0]);
    if CalculateValue(c1, maps[0]).Val? {
      forall j | 0 <= j < |maps[1..]|
        ensures CalculateValue(c1, maps[1..][j]) == CalculateValue(c2, maps[1..][j])
      {
        assert maps[1..][j] == maps[j + 1];
      }
      UnanimousAlike(c1, c2, maps[1..], ToBool(CalculateValue(c1, maps[0]).n));
    }
  }

  /** Parentheses do not change the verdict: `(e)` is analysed as `e` is, the maps
      naming only comparison nodes inside `e`. */
  lemma ParenTransparent(id: int, e: Expr, lt: SwappedLess)
    requires id !in Ids(e)
    ensures Analysis(Paren(id, e), lt) == Analysis(e, lt)
  {
    var p := Paren(id, e);
    assert CalculateValue(p, map[]) == CalculateValue(e, map[]);
    if CalculateValue(e, map[]).NoValue? && CollectedDivisions(e, lt).Collected? {
      var ds := CollectedDivisions(e, lt).divisions;
      if ds != [] {
        var maps := JointAssignments(ds);
        OwnersWithin(e, lt);
        forall j | 0 <= j < |maps| ensures CalculateValue(p, maps[j]) == CalculateValue(e, maps[j]) {
          AssignmentKeys(ds, j);
          assert id !in maps[j];
        }
        MapsVerdictAlike(p, e, maps);
      }
    }
  }

  /** Without a node `c < x`, the table as written and the corrected one give the same verdict. */
  lemma AnalysisTablesAgree(cond: Expr)
    requires NoSwappedLess(cond)
    ensures Analysis(cond, AsGreaterEq) == Analysis(cond, AsGreater)
  {
    TablesAgree(cond);
  }

  /** Soundness of the source as written, on the conditions without a node `c < x`. */
  lemma SoundnessAsWritten(cond: Expr, env: string -> int, b: bool)
    requires UniqueIds(cond) && NoSwappedLess(cond)
    requires Analysis(cond, AsGreaterEq) == Always(b)
    ensures ValueUnder(cond, env).Val? && ToBool(ValueUnder(cond, env).n) == b
  {
    AnalysisTablesAgree(cond);
    Soundness(cond, env, b);
  }

  /** A variable that no Division compares with a constant keeps the condition from
      being reported: strict evaluation leaves a reference reached through unpinned
      nodes without a value, under the empty map and under the first generated map. */
  lemma UncomparedVariable(cond: Expr, lt: SwappedLess, k: Expr)
    requires UniqueIds(cond)
    requires k in Subterms(cond) && k.Ref?
    requires CollectedDivisions(cond, lt).Collected? ==>
      forall d :: d in CollectedDivisions(cond, lt).divisions ==> d.idName != k.name
    ensures !Analysis(cond, lt).Always?
  {
    var v := CalculateValue(cond, map[]);
    assert !v.Val? by {
      ExposedUnpinned(cond, map[], k);
      ExposedNoValue(cond, map[], k.name);
    }
    if v.NoValue? {
      var c := CollectedDivisions(cond, lt);
      if c.Collected? && c.divisions != [] {
        var maps := JointAssignments(c.divisions);
        FirstMapUnset(cond, lt, k);
        assert !CalculateValue(cond, maps[0]).Val?;
        assert Analysis(cond, lt) == MapsVerdict(cond, maps);
      }
    }
  }

  /** The first generated map pins only owners of Divisions, so it leaves the
      uncompared reference reached through unpinned nodes. */
  lemma FirstMapUnset(cond: Expr, lt: SwappedLess, k: Expr)
    requires UniqueIds(cond)
    requires k in Subterms(cond) && k.Ref?
    requires CollectedDivisions(cond, lt).Collected? && CollectedDivisions(cond, lt).divisions != []
    requires forall d :: d in CollectedDivisions(cond, lt).divisions ==> d.idName != k.name
    ensures !CalculateValue(cond, JointAssignments(CollectedDivisions(cond, lt).divisions)[0]).Val?
  {
    var ds := CollectedDivisions(cond, lt).divisions;
    var m := JointAssignments(ds)[0];
    AssignmentKeys(ds, 0);
    UncomparedExposed(cond, lt, m, k);
    ExposedNoValue(cond, m, k.name);
  }
}
