/**
 * The Division extractor `collectDivisions`: it walks a condition and turns every
 * comparison of a bare reference with a foldable constant, `x OP c` or `c OP x`,
 * into a Division owned by that comparison node.
 */
module Extractor {
  import opened Wrappers
  import opened Syntax
  import opened Evaluator
  import opened Divisions

  /** How the swapped form `c < x` becomes a Division.  The source turns it into
      `greaterEq` (`AsGreaterEq`); what `c < x` means is `greater` (`AsGreater`). */
  datatype SwappedLess = AsGreaterEq | AsGreater

  /** The outcome of a walk: the Divisions found, or the exception that ended it. */
  datatype Collection = Collected(divisions: seq<Division>) | Threw(error: ArithError)

  /** The table for `x OP number`. */
  function UnswappedDivision(op: Op, owner: int, name: string, number: int): (r: Option<Division>)
    ensures r.Some? <==> IsComparison(op)
    ensures r.Some? ==> r.value.owner == owner && r.value.idName == name && r.value.point == number
    ensures r.Some? ==> forall v :: r.value.BoolAtPoint(v) <==> Apply(op, v, number) == Val(1)
    ensures r.Some? ==> r.value.Divides()
  {
    match op
    case EqEq => Some(Eq(owner, name, number))
    case Ne => Some(NotEq(owner, name, number))
    case Lt => Some(Less(owner, name, number))
    case Gt => Some(Greater(owner, name, number))
    case Le => Some(LessEq(owner, name, number))
    case Ge => Some(GreaterEq(owner, name, number))
    case _ => None
  }

  /** The table for `number OP x`.  With `AsGreater` every Division agrees with
      `number OP v`; with `AsGreaterEq` (the source) `number < x` disagrees exactly
      at `v == number`. */
  function SwappedDivision(op: Op, owner: int, name: string, number: int, lt: SwappedLess): (r: Option<Division>)
    ensures r.Some? <==> IsComparison(op)
    ensures r.Some? ==> r.value.owner == owner && r.value.idName == name && r.value.point == number
    ensures r.Some? ==> r.value.Divides()
    ensures r.Some? && (lt.AsGreater? || !op.Lt?) ==>
      forall v :: r.value.BoolAtPoint(v) <==> Apply(op, number, v) == Val(1)
    ensures r.Some? && lt.AsGreaterEq? && op.Lt? ==>
      && (forall v :: v != number ==> (r.value.BoolAtPoint(v) <==> Apply(op, number, v) == Val(1)))
      && r.value.BoolAtPoint(number) && Apply(op, number, number) == Val(0)
  {
    match op
    case EqEq => Some(Eq(owner, name, number))
    case Ne => Some(NotEq(owner, name, number))
    case Lt => Some(if lt.AsGreater? then Greater(owner, name, number) else GreaterEq(owner, name, number))
    case Gt => Some(Less(owner, name, number))
    case Le => Some(GreaterEq(owner, name, number))
    case Ge => Some(LessEq(owner, name, number))
    case _ => None
  }

  /** A binary node one of whose operands is a bare reference (the left one is tried first). */
  predicate HasReferenceSide(e: Expr) {
    e.Bin? && (e.left.Ref? || e.right.Ref?)
  }

  /** The operand opposite the reference, which must fold to the threshold. */
  function ConstantSide(e: Expr): Expr
    requires HasReferenceSide(e)
  {
    if e.left.Ref? then e.right else e.left
  }

  /** The Division that node `e` yields by itself, if any. */
  function NodeDivision(e: Expr, lt: SwappedLess): (r: Option<Division>)
    requires HasReferenceSide(e)
    ensures r.Some? ==> r.value.owner == e.id && IsComparison(e.op)
    ensures r.Some? <==> IsComparison(e.op) && CalculateValue(ConstantSide(e), map[]).Val?
    ensures r.Some? ==> r.value.Divides()
  {
    match CalculateValue(ConstantSide(e), map[])
    case Val(number) =>
      if e.left.Ref? then UnswappedDivision(e.op, e.id, e.left.name, number)
      else SwappedDivision(e.op, e.id, e.right.name, number, lt)
    case _ => None
  }

  function OptionToSeq(o: Option<Division>): seq<Division> {
    if o.Some? then [o.value] else []
  }

  /** What `collectDivisions` appends to its list, or the exception it throws.  A node
      with a reference side is a leaf of the walk; only a binary node without one, a
      `not` and a parenthesized node are descended into. */
  function CollectedDivisions(e: Expr, lt: SwappedLess): Collection {
    match e
    case Bin(_, _, l, r) =>
      if HasReferenceSide(e) then
        var side := CalculateValue(ConstantSide(e), map[]);
        if side.Raised? then Threw(side.error)
        else Collected(OptionToSeq(NodeDivision(e, lt)))
      else
        var left := CollectedDivisions(l, lt);
        if left.Threw? then left
        else
          var right := CollectedDivisions(r, lt);
          if right.Threw? then right else Collected(left.divisions + right.divisions)
    case Not(_, x) => CollectedDivisions(x, lt)
    case Paren(_, x) => CollectedDivisions(x, lt)
    case _ => Collected([])
  }

  /** The list `divisions` after appending the outcome `c` of a walk. */
  function Extend(divisions: seq<Division>, c: Collection): Collection {
    match c
    case Threw(err) => Threw(err)
    case Collected(ds) => Collected(divisions + ds)
  }

  /** `e.collectDivisions(divisions)`: appends the Divisions of `e` to the caller's list
      (threaded here as a value), or ends with the exception that constant folding threw. */
  method CollectDivisions(e: Expr, divisions: seq<Division>, lt: SwappedLess) returns (outcome: Collection)
    ensures outcome == Extend(divisions, CollectedDivisions(e, lt))
    decreases e
  {
    match e
    case Bin(id, op, leftExpr, rightExpr) =>
      var leftIsId: bool;
      var name: string;
      var number: int;
      if leftExpr.Ref? {
        leftIsId := true;
        name := leftExpr.name;
        var value := CalculateValue(rightExpr, map[]);
        if value.Raised? {
          return Threw(value.error);
        } else if value.NoValue? {
          return Collected(divisions);
        }
        number := value.n;
      } else if rightExpr.Ref? {
        leftIsId := false;
        name := rightExpr.name;
        var value := CalculateValue(leftExpr, map[]);
        if value.Raised? {
          return Threw(value.error);
        } else if value.NoValue? {
          return Collected(divisions);
        }
        number := value.n;
      } else {
        var afterLeft := CollectDivisions(leftExpr, divisions, lt);
        if afterLeft.Threw? {
          return afterLeft;
        }
        outcome := CollectDivisions(rightExpr, afterLeft.divisions, lt);
        return;
      }
      var division := if leftIsId then UnswappedDivision(op, id, name, number)
                      else SwappedDivision(op, id, name, number, lt);
      if division.None? {
        return Collected(divisions);
      }
      outcome := Collected(divisions + [division.value]);
    case Not(_, operand) =>
      outcome := CollectDivisions(operand, divisions, lt);
    case Paren(_, inner) =>
      outcome := CollectDivisions(inner, divisions, lt);
    case _ =>
      outcome := Collected(divisions);
  }

  function OwnerSet(ds: seq<Division>): set<int> {
    set d | d in ds :: d.owner
  }

  function OwnerBag(ds: seq<Division>): multiset<int> {
    if ds == [] then multiset{} else multiset{ds[0].owner} + OwnerBag(ds[1..])
  }

  predicate DistinctOwners(ds: seq<Division>) {
    forall i, j :: 0 <= i < j < |ds| ==> ds[i].owner != ds[j].owner
  }

  lemma {:induction false} OwnerBagAppend(a: seq<Division>, b: seq<Division>)
    ensures OwnerBag(a + b) == OwnerBag(a) + OwnerBag(b)
  {
    if a != [] {
      assert (a + b)[1..] == a[1..] + b;
      OwnerBagAppend(a[1..], b);
    } else {
      assert a + b == b;
    }
  }

  /** Every Division found is owned by a node of the tree, and no node owns more
      Divisions than it occurs: each node yields at most one. */
  lemma {:induction false} OwnersBounded(e: Expr, lt: SwappedLess)
    requires CollectedDivisions(e, lt).Collected?
    ensures OwnerBag(CollectedDivisions(e, lt).divisions) <= Ids(e)
  {
    match e
    case Bin(_, _, l, r) =>
      if HasReferenceSide(e) {
        LeafOwners(e, lt);
      } else {
        OwnersBounded(l, lt);
        OwnersBounded(r, lt);
        OwnerBagAppend(CollectedDivisions(l, lt).divisions, CollectedDivisions(r, lt).divisions);
      }
    case Not(_, x) => OwnersBounded(x, lt);
    case Paren(_, x) => OwnersBounded(x, lt);
    case _ =>
  }

  lemma LeafOwners(e: Expr, lt: SwappedLess)
    requires HasReferenceSide(e) && CollectedDivisions(e, lt).Collected?
    ensures OwnerBag(CollectedDivisions(e, lt).divisions) <= Ids(e)
  {
    var ds := CollectedDivisions(e, lt).divisions;
    assert e.id in Ids(e);
    if ds != [] {
      assert OwnerBag(ds) == multiset{e.id} + OwnerBag(ds[1..]);
    }
  }

  lemma {:induction false} OwnersWithin(e: Expr, lt: SwappedLess)
    requires CollectedDivisions(e, lt).Collected?
    ensures forall d :: d in CollectedDivisions(e, lt).divisions ==> d.owner in Ids(e)
  {
    match e
    case Bin(_, _, l, r) =>
      if !HasReferenceSide(e) {
        OwnersWithin(l, lt);
        OwnersWithin(r, lt);
      }
    case Not(_, x) => OwnersWithin(x, lt);
    case Paren(_, x) => OwnersWithin(x, lt);
    case _ =>
  }

  /** In a tree whose nodes have distinct identities, the Divisions have distinct owners. */
  lemma {:induction false} OwnersDistinct(e: Expr, lt: SwappedLess)
    requires UniqueIds(e)
    requires CollectedDivisions(e, lt).Collected?
    ensures DistinctOwners(CollectedDivisions(e, lt).divisions)
  {
    match e
    case Bin(_, _, l, r) =>
      if !HasReferenceSide(e) {
        OwnersDistinct(l, lt);
        OwnersDistinct(r, lt);
        OwnersWithin(l, lt);
        OwnersWithin(r, lt);
        DistinctAppend(CollectedDivisions(l, lt).divisions, CollectedDivisions(r, lt).divisions);
      }
    case Not(_, x) => OwnersDistinct(x, lt);
    case Paren(_, x) => OwnersDistinct(x, lt);
    case _ =>
  }

  lemma DistinctAppend(dl: seq<Division>, dr: seq<Division>)
    requires DistinctOwners(dl) && DistinctOwners(dr)
    requires forall a, b :: a in dl && b in dr ==> a.owner != b.owner
    ensures DistinctOwners(dl + dr)
  {
    var ds := dl + dr;
    forall i, j | 0 <= i < j < |ds| ensures ds[i].owner != ds[j].owner {
      if j < |dl| {
        assert ds[i] == dl[i] && ds[j] == dl[j];
      } else if |dl| <= i {
        assert ds[i] == dr[i - |dl|] && ds[j] == dr[j - |dl|];
      } else {
        assert ds[i] == dl[i] && ds[i] in dl;
        assert ds[j] == dr[j - |dl|] && ds[j] in dr;
      }
    }
  }

  /** The nodes of a tree. */
  function Subterms(e: Expr): set<Expr> {
    match e
    case Bin(_, _, l, r) => {e} + Subterms(l) + Subterms(r)
    case Not(_, x) => {e} + Subterms(x)
    case Paren(_, x) => {e} + Subterms(x)
    case _ => {e}
  }

  /** Every Division found is the one its owner node yields by itself. */
  lemma {:induction false} Ownership(e: Expr, lt: SwappedLess)
    requires CollectedDivisions(e, lt).Collected?
    ensures forall d :: d in CollectedDivisions(e, lt).divisions ==>
      exists k :: k in Subterms(e) && HasReferenceSide(k) && k.id == d.owner && NodeDivision(k, lt) == Some(d)
  {
    match e
    case Bin(_, _, l, r) =>
      if HasReferenceSide(e) {
        assert e in Subterms(e);
      } else {
        Ownership(l, lt);
        Ownership(r, lt);
      }
    case Not(_, x) => Ownership(x, lt);
    case Paren(_, x) => Ownership(x, lt);
    case _ =>
  }

  /** A node with a reference side is not descended into: it gives at most its own
      Division, and none when its constant side has no value or its operator is
      not a comparison. */
  lemma ReferenceSideIsLeaf(e: Expr, lt: SwappedLess)
    requires HasReferenceSide(e)
    ensures CollectedDivisions(e, lt).Threw? <==> CalculateValue(ConstantSide(e), map[]).Raised?
    ensures CollectedDivisions(e, lt).Collected? ==>
      var ds := CollectedDivisions(e, lt).divisions;
      && |ds| <= 1
      && (forall d :: d in ds ==> d.owner == e.id)
      && (CalculateValue(ConstantSide(e), map[]).NoValue? || !IsComparison(e.op) ==> ds == [])
  {
  }

  /** A reference inside a subtree that `m` pins nowhere is reached through unpinned nodes. */
  lemma {:induction false} ExposedUnpinned(e: Expr, m: map<int, bool>, k: Expr)
    requires k in Subterms(e) && k.Ref?
    requires forall i :: i in m ==> i !in Ids(e)
    ensures Exposed(e, m, k.name)
  {
    match e
    case Bin(_, _, l, r) =>
      if k in Subterms(l) {
        ExposedUnpinned(l, m, k);
      } else if k in Subterms(r) {
        ExposedUnpinned(r, m, k);
      }
    case Not(_, x) =>
      if k in Subterms(x) {
        ExposedUnpinned(x, m, k);
      }
    case Paren(_, x) =>
      if k in Subterms(x) {
        ExposedUnpinned(x, m, k);
      }
    case _ =>
  }

  /** A reference that no Division names stays reached through unpinned nodes under
      any map that pins only owners of Divisions. */
  lemma {:induction false} UncomparedExposed(e: Expr, lt: SwappedLess, m: map<int, bool>, k: Expr)
    requires UniqueIds(e) && k in Subterms(e) && k.Ref?
    requires CollectedDivisions(e, lt).Collected?
    requires forall i :: i in m && i in Ids(e) ==> i in OwnerSet(CollectedDivisions(e, lt).divisions)
    requires forall d :: d in CollectedDivisions(e, lt).divisions ==> d.idName != k.name
    ensures Exposed(e, m, k.name)
  {
    match e
    case Bin(_, _, l, r) =>
      if HasReferenceSide(e) {
        UncomparedLeaf(e, lt, m, k);
      } else {
        BranchPins(e, lt, m);
        if k in Subterms(l) {
          UncomparedExposed(l, lt, m, k);
        } else {
          UncomparedExposed(r, lt, m, k);
        }
      }
    case Not(_, x) =>
      WrapperPins(e, x, lt, m);
      UncomparedExposed(x, lt, m, k);
    case Paren(_, x) =>
      WrapperPins(e, x, lt, m);
      UncomparedExposed(x, lt, m, k);
    case Ref(_, _) =>
    case _ =>
  }

  /** Below a `not` or a parenthesized node, the operand has the same Divisions and the
      node itself is not pinned. */
  lemma WrapperPins(e: Expr, x: Expr, lt: SwappedLess, m: map<int, bool>)
    requires (e.Not? && e.operand == x) || (e.Paren? && e.inner == x)
    requires UniqueIds(e) && CollectedDivisions(e, lt).Collected?
    requires forall i :: i in m && i in Ids(e) ==> i in OwnerSet(CollectedDivisions(e, lt).divisions)
    ensures e.id !in m && CollectedDivisions(x, lt) == CollectedDivisions(e, lt)
    ensures forall i :: i in m && i in Ids(x) ==> i in OwnerSet(CollectedDivisions(x, lt).divisions)
  {
    OwnersWithin(x, lt);
  }

  /** Below a node without a reference side, the pins `m` puts inside each operand are
      owners of that operand's own Divisions, and the node itself is not pinned. */
  lemma BranchPins(e: Expr, lt: SwappedLess, m: map<int, bool>)
    requires e.Bin? && !HasReferenceSide(e) && UniqueIds(e)
    requires CollectedDivisions(e, lt).Collected?
    requires forall i :: i in m && i in Ids(e) ==> i in OwnerSet(CollectedDivisions(e, lt).divisions)
    ensures e.id !in m
    ensures forall i :: i in m && i in Ids(e.left) ==> i in OwnerSet(CollectedDivisions(e.left, lt).divisions)
    ensures forall i :: i in m && i in Ids(e.right) ==> i in OwnerSet(CollectedDivisions(e.right, lt).divisions)
    ensures forall d :: d in CollectedDivisions(e.left, lt).divisions ==> d in CollectedDivisions(e, lt).divisions
    ensures forall d :: d in CollectedDivisions(e.right, lt).divisions ==> d in CollectedDivisions(e, lt).divisions
  {
    var l, r := e.left, e.right;
    var dl := CollectedDivisions(l, lt).divisions;
    var dr := CollectedDivisions(r, lt).divisions;
    assert CollectedDivisions(e, lt).divisions == dl + dr;
    OwnersWithin(l, lt);
    OwnersWithin(r, lt);
    forall i | i in m && i in Ids(l) ensures i in OwnerSet(dl) {
      var d: Division :| d in dl + dr && d.owner == i;
    }
    forall i | i in m && i in Ids(r) ensures i in OwnerSet(dr) {
      var d: Division :| d in dl + dr && d.owner == i;
    }
  }

  /** The case of a node with a reference side: the reference it compares is not `k`,
      so `k` sits in the constant side, which then has no value, and the node yields
      no Division at all. */
  lemma UncomparedLeaf(e: Expr, lt: SwappedLess, m: map<int, bool>, k: Expr)
    requires UniqueIds(e) && k in Subterms(e) && k.Ref? && HasReferenceSide(e)
    requires CollectedDivisions(e, lt).Collected?
    requires forall i :: i in m && i in Ids(e) ==> i in OwnerSet(CollectedDivisions(e, lt).divisions)
    requires forall d :: d in CollectedDivisions(e, lt).divisions ==> d.idName != k.name
    ensures Exposed(e, m, k.name)
  {
    var side := ConstantSide(e);
    if k in Subterms(side) {
      ExposedUnpinned(side, map[], k);
      ExposedNoValue(side, map[], k.name);
    } else if NodeDivision(e, lt).Some? {
      assert NodeDivision(e, lt).value in CollectedDivisions(e, lt).divisions;
    }
    assert CollectedDivisions(e, lt).divisions == [];
    if k in Subterms(e.left) {
      ExposedUnpinned(e.left, m, k);
    } else {
      ExposedUnpinned(e.right, m, k);
    }
  }

  /** A Division found in the tree that the source builds by `c < x` (line 213). */
  predicate SwappedLessNode(e: Expr) {
    e.Bin? && e.op.Lt? && !e.left.Ref? && e.right.Ref?
  }

  /** No node of `e` has the shape `c < x`. */
  predicate NoSwappedLess(e: Expr) {
    forall k :: k in Subterms(e) ==> !SwappedLessNode(k)
  }

  /** The two tables for `c < x` differ only at nodes of that shape: without one, the walk
      finds the same Divisions with either. */
  lemma {:induction false} TablesAgree(e: Expr)
    requires NoSwappedLess(e)
    ensures CollectedDivisions(e, AsGreaterEq) == CollectedDivisions(e, AsGreater)
  {
    match e
    case Bin(_, _, l, r) =>
      if HasReferenceSide(e) {
        assert e in Subterms(e);
      } else {
        TablesAgree(l);
        TablesAgree(r);
      }
    case Not(_, x) => TablesAgree(x);
    case Paren(_, x) => TablesAgree(x);
    case _ =>
  }

  /** A node's Division tells the node's real truth value for every value of its
      variable; with the source's table the only exception is `c < x` at `x == c`. */
  lemma NodeDivisionMeaning(e: Expr, lt: SwappedLess, env: string -> int)
    requires HasReferenceSide(e) && NodeDivision(e, lt).Some?
    requires lt.AsGreater? || !SwappedLessNode(e) ||
             Val(env(e.right.name)) != CalculateValue(ConstantSide(e), map[])
    ensures var d := NodeDivision(e, lt).value;
      ValueUnder(e, env) == Val(BoolToInt(d.BoolAtPoint(env(d.idName))))
  {
    ClosedValue(ConstantSide(e), env);
  }

  /** `m` pins exactly the owners of the Divisions of `e` (among the nodes of `e`), each to
      its Division's truth value at the value `env` gives the Division's variable. */
  predicate PinsDivisions(e: Expr, m: map<int, bool>, env: string -> int) {
    && CollectedDivisions(e, AsGreater).Collected?
    && (forall i :: i in m && i in Ids(e) ==> i in OwnerSet(CollectedDivisions(e, AsGreater).divisions))
    && (forall d :: d in CollectedDivisions(e, AsGreater).divisions ==>
          d.owner in m && m[d.owner] == d.BoolAtPoint(env(d.idName)))
  }

  /** The pin map built from the Divisions (with the intended table) by reading
      each variable's value from `env` pins every node of the tree correctly. */
  lemma {:induction false} CollectedPinned(e: Expr, m: map<int, bool>, env: string -> int)
    requires UniqueIds(e)
    requires PinsDivisions(e, m, env)
    ensures Pinned(e, m, env)
  {
    match e
    case Bin(_, _, l, r) =>
      if HasReferenceSide(e) {
        ComparisonPinned(e, m, env);
      } else {
        PinsOperands(e, m, env);
        CollectedPinned(l, m, env);
        CollectedPinned(r, m, env);
      }
    case Not(_, x) =>
      PinsOperand(e, m, env);
      CollectedPinned(x, m, env);
    case Paren(_, x) =>
      PinsOperand(e, m, env);
      CollectedPinned(x, m, env);
    case _ =>
  }

  lemma ComparisonPinned(e: Expr, m: map<int, bool>, env: string -> int)
    requires UniqueIds(e) && HasReferenceSide(e)
    requires PinsDivisions(e, m, env)
    ensures Pinned(e, m, env)
  {
    var ds := CollectedDivisions(e, AsGreater).divisions;
    PinnedWithoutKeys(e.left, m, env);
    PinnedWithoutKeys(e.right, m, env);
    if NodeDivision(e, AsGreater).Some? {
      NodeDivisionMeaning(e, AsGreater, env);
      assert ds[0] in ds;
    }
  }

  lemma PinsOperands(e: Expr, m: map<int, bool>, env: string -> int)
    requires UniqueIds(e) && e.Bin? && !HasReferenceSide(e)
    requires PinsDivisions(e, m, env)
    ensures e.id !in m
    ensures PinsDivisions(e.left, m, env) && PinsDivisions(e.right, m, env)
  {
    OwnersWithin(e.left, AsGreater);
    OwnersWithin(e.right, AsGreater);
    var ds := CollectedDivisions(e, AsGreater).divisions;
    var dl, dr := CollectedDivisions(e.left, AsGreater).divisions, CollectedDivisions(e.right, AsGreater).divisions;
    assert ds == dl + dr;
    forall i | i in m && i in Ids(e.left) ensures i in OwnerSet(dl) {
      var d :| d in ds && d.owner == i;
      if d in dr {
        assert false;
      }
    }
    forall i | i in m && i in Ids(e.right) ensures i in OwnerSet(dr) {
      var d :| d in ds && d.owner == i;
      if d in dl {
        assert false;
      }
    }
  }

  lemma PinsOperand(e: Expr, m: map<int, bool>, env: string -> int)
    requires UniqueIds(e) && (e.Not? || e.Paren?)
    requires PinsDivisions(e, m, env)
    ensures e.id !in m
    ensures PinsDivisions(if e.Not? then e.operand else e.inner, m, env)
  {
    var x := if e.Not? then e.operand else e.inner;
    OwnersWithin(x, AsGreater);
  }
}
