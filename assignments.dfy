/**
 * `generateBoolListForDivisions`: the Divisions are grouped by variable name; each
 * variable gets its matrix of truth rows labelled with the owning nodes; one row is
 * chosen per variable in every way (the cartesian product), and each choice is turned
 * into a map from node to truth value.
 */
module Assignments {
  import opened Divisions
  import opened Extractor
  import opened Partition
  import opened Product

  /** The truth value a Division has when its variable holds the value `env` gives it. */
  function Truth(d: Division, env: string -> int): bool {
    d.BoolAtPoint(env(d.idName))
  }

  /** The keys of `groupBy { it.idName }`: the variable names, each once. */
  function Names(ds: seq<Division>): (names: seq<string>)
    ensures forall n :: n in names <==> exists d :: d in ds && d.idName == n
    ensures forall i, j :: 0 <= i < j < |names| ==> names[i] != names[j]
  {
    if ds == [] then []
    else
      var init := Names(ds[..|ds| - 1]);
      var last := ds[|ds| - 1];
      assert forall d :: d in ds <==> d in ds[..|ds| - 1] || d == last by {
        assert ds == ds[..|ds| - 1] + [last];
      }
      if last.idName in init then init else init + [last.idName]
  }

  /** The group of `name` in `groupBy { it.idName }`: exactly the Divisions of that name. */
  function Group(ds: seq<Division>, name: string): (g: seq<Division>)
    ensures forall d :: d in g <==> d in ds && d.idName == name
  {
    if ds == [] then []
    else
      assert forall d :: d in ds <==> d in ds[..|ds| - 1] || d == ds[|ds| - 1] by {
        assert ds == ds[..|ds| - 1] + [ds[|ds| - 1]];
      }
      Group(ds[..|ds| - 1], name) + (if ds[|ds| - 1].idName == name then [ds[|ds| - 1]] else [])
  }

  /** `row.mapIndexed { i, b -> Pair(divs[i].binExpr, b) }`, a node given by its identity. */
  function LabelRow(divs: seq<Division>, row: seq<bool>): seq<(int, bool)>
    requires |row| == |divs|
  {
    seq(|row|, i requires 0 <= i < |row| => (divs[i].owner, row[i]))
  }

  /** `boolMatrix.map { row -> row.mapIndexed { i, b -> Pair(divs[i].binExpr, b) } }` */
  function Labelled(divs: seq<Division>, matrix: seq<seq<bool>>): (r: seq<seq<(int, bool)>>)
    requires forall row :: row in matrix ==> |row| == |divs|
    ensures |r| == |matrix|
    ensures forall j :: 0 <= j < |r| ==> |matrix[j]| == |divs| && r[j] == LabelRow(divs, matrix[j])
    ensures forall j :: 0 <= j < |r| ==> KeySet(r[j]) == OwnerSet(divs)
  {
    LabelledKeys(divs, matrix);
    seq(|matrix|, j requires 0 <= j < |matrix| => LabelRow(divs, matrix[j]))
  }

  lemma LabelledKeys(divs: seq<Division>, matrix: seq<seq<bool>>)
    requires forall row :: row in matrix ==> |row| == |divs|
    ensures forall j :: 0 <= j < |matrix| ==> KeySet(LabelRow(divs, matrix[j])) == OwnerSet(divs)
  {
    forall j | 0 <= j < |matrix| ensures KeySet(LabelRow(divs, matrix[j])) == OwnerSet(divs) {
      assert matrix[j] in matrix;
      LabelRowKeys(divs, matrix[j]);
    }
  }

  /** The labelled matrix of variable `name`, as `mapOfMatrices[name]`. */
  function VariableMatrix(ds: seq<Division>, name: string): (r: seq<seq<(int, bool)>>)
    ensures |r| > 0
  {
    var divs := Group(ds, name);
    MatrixShape(divs, BreakPoints(divs));
    Labelled(divs, Matrix(divs, BreakPoints(divs)))
  }

  /** Row `j` of a variable's labelled matrix is row `j` of its matrix, labelled. */
  lemma VariableMatrixRows(ds: seq<Division>, name: string)
    ensures var divs := Group(ds, name);
      var matrix := Matrix(divs, BreakPoints(divs));
      && |VariableMatrix(ds, name)| == |matrix|
      && forall j :: 0 <= j < |matrix| ==>
           |matrix[j]| == |divs| && VariableMatrix(ds, name)[j] == LabelRow(divs, matrix[j])
  {
    var divs := Group(ds, name);
    MatrixShape(divs, BreakPoints(divs));
  }

  /** `mapOfMatrices.values.toList()`: one labelled matrix per variable, in name order.
      No matrix is empty, and every row of the matrix of a variable names exactly the
      nodes owning that variable's Divisions. */
  function Matrices(ds: seq<Division>): (r: seq<seq<seq<(int, bool)>>>)
    ensures |r| == |Names(ds)|
    ensures forall k :: 0 <= k < |r| ==> r[k] == VariableMatrix(ds, Names(ds)[k])
    ensures forall k :: 0 <= k < |r| ==> |r[k]| > 0
    ensures forall k, row :: 0 <= k < |r| && row in r[k] ==> KeySet(row) == OwnerSet(Group(ds, Names(ds)[k]))
  {
    var names := Names(ds);
    MatricesKeys(ds, names);
    seq(|names|, k requires 0 <= k < |names| => VariableMatrix(ds, names[k]))
  }

  lemma MatricesKeys(ds: seq<Division>, names: seq<string>)
    ensures forall k, row :: 0 <= k < |names| && row in VariableMatrix(ds, names[k]) ==>
      KeySet(row) == OwnerSet(Group(ds, names[k]))
  {
    forall k, row | 0 <= k < |names| && row in VariableMatrix(ds, names[k])
      ensures KeySet(row) == OwnerSet(Group(ds, names[k]))
    {
      RowKeys(ds, names[k], row);
    }
  }

  /** `toMap()`: a list of pairs as a map, a later pair overriding an earlier one. */
  function PairsToMap(pairs: seq<(int, bool)>): map<int, bool> {
    if pairs == [] then map[]
    else PairsToMap(pairs[..|pairs| - 1])[pairs[|pairs| - 1].0 := pairs[|pairs| - 1].1]
  }

  /** The first components of a list of pairs. */
  function KeySet(pairs: seq<(int, bool)>): set<int> {
    set p | p in pairs :: p.0
  }

  /** The value of `generateBoolListForDivisions(divisions)`: one map per way of choosing a
      row of every variable's matrix, in the order of the cartesian product.  The source
      is called only with a non-empty list (an empty one would make `cartesianProduct`
      take the first of no lists).  The result is never empty, so the exception of line
      62 cannot be thrown. */
  function JointAssignments(ds: seq<Division>): (r: seq<map<int, bool>>)
    requires |ds| > 0
    ensures |r| == SizeProduct(Matrices(ds)) > 0
  {
    assert ds[0] in ds;
    var matrices := Matrices(ds);
    SizeProductPositive(matrices);
    ToMaps(CartesianProduct(matrices))
  }

  /** The most rows a variable's matrix can have: two per threshold and the one at plus
      infinity, for each variable in name order. */
  function RowCeilings(ds: seq<Division>): (r: seq<nat>)
    ensures |r| == |Names(ds)|
  {
    var names := Names(ds);
    seq(|names|, k requires 0 <= k < |names| => 2 * |BreakPoints(Group(ds, names[k]))| + 1)
  }

  /** The number of maps is at most the product, over the variables, of two rows per
      threshold plus one. */
  lemma MapCount(ds: seq<Division>)
    requires |ds| > 0
    ensures |JointAssignments(ds)| <= ProductOf(RowCeilings(ds))
  {
    var names := Names(ds);
    var ms := Matrices(ds);
    var cs := RowCeilings(ds);
    forall k | 0 <= k < |ms| ensures |ms[k]| <= cs[k] {
      var divs := Group(ds, names[k]);
      MatrixShape(divs, BreakPoints(divs));
      assert |ms[k]| == |Matrix(divs, BreakPoints(divs))|;
    }
    SizeProductBound(ms, cs);
  }

  /** `product.map { it.flatten().toMap() }` */
  function ToMaps(product: seq<seq<seq<(int, bool)>>>): (r: seq<map<int, bool>>)
    ensures |r| == |product|
    ensures forall i :: 0 <= i < |r| ==> r[i] == PairsToMap(Flatten(product[i]))
    ensures forall i :: 0 <= i < |r| ==> r[i].Keys == KeySet(Flatten(product[i]))
  {
    ToMapsKeys(product);
    seq(|product|, i requires 0 <= i < |product| => PairsToMap(Flatten(product[i])))
  }

  lemma ToMapsKeys(product: seq<seq<seq<(int, bool)>>>)
    ensures forall i :: 0 <= i < |product| ==> PairsToMap(Flatten(product[i])).Keys == KeySet(Flatten(product[i]))
  {
    forall i | 0 <= i < |product| ensures PairsToMap(Flatten(product[i])).Keys == KeySet(Flatten(product[i])) {
      PairsToMapKeys(Flatten(product[i]));
    }
  }

  lemma JointAssignmentAt(ds: seq<Division>, i: nat)
    requires |ds| > 0 && i < SizeProduct(Matrices(ds))
    ensures assert ds[0] in ds; JointAssignments(ds)[i] == PairsToMap(Flatten(CartesianProduct(Matrices(ds))[i]))
  {
  }

  /** `generateBoolListForDivisions` (lines 236-304): the per-variable loop calls the loop
      that builds each variable's matrix. */
  method GenerateBoolListForDivisions(divisions: seq<Division>) returns (boolMaps: seq<map<int, bool>>)
    requires |divisions| > 0
    ensures boolMaps == JointAssignments(divisions)
  {
    var names := Names(divisions);
    var mapOfMatrices: seq<seq<seq<(int, bool)>>> := [];
    for k := 0 to |names|
      invariant mapOfMatrices == Matrices(divisions)[..k]
    {
      var divs := Group(divisions, names[k]);
      var breakPoints := BreakPoints(divs);
      var boolMatrix := BoolMatrix(divs, breakPoints);
      MatrixShape(divs, breakPoints);
      LabelledMatrix(divisions, k, boolMatrix);
      ExtendPrefix(mapOfMatrices, Labelled(divs, boolMatrix), Matrices(divisions), k);
      mapOfMatrices := mapOfMatrices + [Labelled(divs, boolMatrix)];
    }
    assert Matrices(divisions)[..|names|] == Matrices(divisions);
    assert divisions[0] in divisions;
    var product := CartesianProduct(mapOfMatrices);
    boolMaps := ToMaps(product);
  }

  lemma ExtendPrefix<T>(prefix: seq<T>, next: T, whole: seq<T>, k: nat)
    requires k < |whole| && prefix == whole[..k] && next == whole[k]
    ensures prefix + [next] == whole[..k + 1]
  {
  }

  lemma LabelledMatrix(ds: seq<Division>, k: nat, boolMatrix: seq<seq<bool>>)
    requires k < |Names(ds)|
    requires boolMatrix == Matrix(Group(ds, Names(ds)[k]), BreakPoints(Group(ds, Names(ds)[k])))
    ensures forall row :: row in boolMatrix ==> |row| == |Group(ds, Names(ds)[k])|
    ensures Labelled(Group(ds, Names(ds)[k]), boolMatrix) == VariableMatrix(ds, Names(ds)[k])
  {
    var divs := Group(ds, Names(ds)[k]);
    MatrixShape(divs, BreakPoints(divs));
  }

  /** The keys of `toMap()` are the first components of the pairs. */
  lemma {:induction false} PairsToMapKeys(pairs: seq<(int, bool)>)
    ensures PairsToMap(pairs).Keys == KeySet(pairs)
  {
    if pairs != [] {
      var init := pairs[..|pairs| - 1];
      PairsToMapKeys(init);
      assert pairs == init + [pairs[|pairs| - 1]];
      assert KeySet(pairs) == KeySet(init) + {pairs[|pairs| - 1].0};
    }
  }

  /** When every pair with key `o` carries `b`, `toMap()` maps `o` to `b`. */
  lemma {:induction false} PairsToMapValue(pairs: seq<(int, bool)>, o: int, b: bool)
    requires (o, b) in pairs
    requires forall p :: p in pairs && p.0 == o ==> p.1 == b
    ensures o in PairsToMap(pairs) && PairsToMap(pairs)[o] == b
  {
    var init := pairs[..|pairs| - 1];
    var last := pairs[|pairs| - 1];
    assert pairs == init + [last];
    if last.0 != o {
      assert (o, b) in init;
      PairsToMapValue(init, o, b);
    }
  }

  /** The keys of a choice of labelled rows are the keys of its rows together. */
  lemma FlattenKeys(t: seq<seq<(int, bool)>>, o: int)
    ensures o in KeySet(Flatten(t)) <==> exists k :: 0 <= k < |t| && o in KeySet(t[k])
  {
    if o in KeySet(Flatten(t)) {
      var p :| p in Flatten(t) && p.0 == o;
      FlattenMember(t, p);
    }
    if exists k :: 0 <= k < |t| && o in KeySet(t[k]) {
      var k :| 0 <= k < |t| && o in KeySet(t[k]);
      var p :| p in t[k] && p.0 == o;
      FlattenMember(t, p);
    }
  }

  lemma LabelRowKeys(divs: seq<Division>, row: seq<bool>)
    requires |row| == |divs|
    ensures KeySet(LabelRow(divs, row)) == OwnerSet(divs)
  {
    var labels := LabelRow(divs, row);
    forall o ensures o in KeySet(labels) <==> o in OwnerSet(divs) {
      if o in KeySet(labels) {
        var p :| p in labels && p.0 == o;
        var i :| 0 <= i < |labels| && labels[i] == p;
        assert divs[i] in divs;
      }
      if o in OwnerSet(divs) {
        var d :| d in divs && d.owner == o;
        var i :| 0 <= i < |divs| && divs[i] == d;
        assert labels[i] in labels;
      }
    }
  }

  /** Every row of a variable's labelled matrix names exactly the nodes owning that
      variable's Divisions. */
  lemma RowKeys(ds: seq<Division>, name: string, row: seq<(int, bool)>)
    requires row in VariableMatrix(ds, name)
    ensures KeySet(row) == OwnerSet(Group(ds, name))
  {
    var divs := Group(ds, name);
    var matrix := Matrix(divs, BreakPoints(divs));
    VariableMatrixRows(ds, name);
    var j :| 0 <= j < |VariableMatrix(ds, name)| && VariableMatrix(ds, name)[j] == row;
    LabelRowKeys(divs, matrix[j]);
  }

  /** A choice of one labelled row per variable names exactly the nodes owning a Division. */
  lemma ChoiceKeys(ds: seq<Division>, t: seq<seq<(int, bool)>>)
    requires |t| == |Matrices(ds)|
    requires forall k :: 0 <= k < |t| ==> t[k] in Matrices(ds)[k]
    ensures KeySet(Flatten(t)) == OwnerSet(ds)
  {
    forall o ensures o in KeySet(Flatten(t)) <==> o in OwnerSet(ds) {
      FlattenKeys(t, o);
      if o in KeySet(Flatten(t)) {
        ChoiceKeyOwned(ds, t, o);
      }
      if o in OwnerSet(ds) {
        OwnerInChoice(ds, t, o);
      }
    }
  }

  lemma ChoiceKeyOwned(ds: seq<Division>, t: seq<seq<(int, bool)>>, o: int)
    requires |t| == |Matrices(ds)|
    requires forall k :: 0 <= k < |t| ==> t[k] in Matrices(ds)[k]
    requires exists k :: 0 <= k < |t| && o in KeySet(t[k])
    ensures o in OwnerSet(ds)
  {
    var names := Names(ds);
    var k :| 0 <= k < |t| && o in KeySet(t[k]);
    RowKeys(ds, names[k], t[k]);
  }

  lemma OwnerInChoice(ds: seq<Division>, t: seq<seq<(int, bool)>>, o: int)
    requires |t| == |Matrices(ds)|
    requires forall k :: 0 <= k < |t| ==> t[k] in Matrices(ds)[k]
    requires o in OwnerSet(ds)
    ensures exists k :: 0 <= k < |t| && o in KeySet(t[k])
  {
    var names := Names(ds);
    var d :| d in ds && d.owner == o;
    assert d.idName in names;
    var k :| 0 <= k < |names| && names[k] == d.idName;
    RowKeys(ds, names[k], t[k]);
    assert o in KeySet(t[k]);
  }

  /** Every map produced pins exactly the nodes owning a Division. */
  lemma AssignmentKeys(ds: seq<Division>, i: nat)
    requires |ds| > 0 && i < |JointAssignments(ds)|
    ensures JointAssignments(ds)[i].Keys == OwnerSet(ds)
  {
    assert ds[0] in ds;
    var matrices := Matrices(ds);
    var t := CartesianProduct(matrices)[i];
    assert t in CartesianProduct(matrices);
    ProductShape(matrices, t);
    ChoiceKeys(ds, t);
    PairsToMapKeys(Flatten(t));
  }

  /** The choice of one row, the one of the values `env` gives, per variable. */
  function EnvChoice(ds: seq<Division>, env: string -> int): seq<seq<(int, bool)>> {
    var names := Names(ds);
    seq(|names|, k requires 0 <= k < |names| =>
      LabelRow(Group(ds, names[k]), AtRow(Group(ds, names[k]), env(names[k]))))
  }

  lemma EnvChoiceInProduct(ds: seq<Division>, env: string -> int)
    requires |ds| > 0
    ensures |Matrices(ds)| > 0
    ensures EnvChoice(ds, env) in CartesianProduct(Matrices(ds))
  {
    assert ds[0] in ds;
    var names := Names(ds);
    var matrices := Matrices(ds);
    var t := EnvChoice(ds, env);
    forall k | 0 <= k < |t| ensures t[k] in matrices[k] {
      var divs := Group(ds, names[k]);
      BreakPointCoverage(divs, env(names[k]));
      var matrix := Matrix(divs, BreakPoints(divs));
      var j :| 0 <= j < |matrix| && matrix[j] == AtRow(divs, env(names[k]));
      VariableMatrixRows(ds, names[k]);
      assert VariableMatrix(ds, names[k])[j] == t[k];
    }
    ProductComplete(matrices, t);
  }

  /** Every labelled truth value of that choice is the truth value of some Division. */
  lemma EnvChoiceTruthful(ds: seq<Division>, env: string -> int, p: (int, bool))
    requires p in Flatten(EnvChoice(ds, env))
    ensures exists d :: d in ds && p == (d.owner, Truth(d, env))
  {
    var t := EnvChoice(ds, env);
    var names := Names(ds);
    FlattenMember(t, p);
    var k :| 0 <= k < |t| && p in t[k];
    var divs := Group(ds, names[k]);
    var i :| 0 <= i < |t[k]| && t[k][i] == p;
    assert divs[i] in divs;
  }

  /** Every Division's truth value under `env` appears in that choice. */
  lemma EnvChoiceComplete(ds: seq<Division>, env: string -> int, d: Division)
    requires d in ds
    ensures (d.owner, Truth(d, env)) in Flatten(EnvChoice(ds, env))
  {
    var t := EnvChoice(ds, env);
    var names := Names(ds);
    assert d.idName in names;
    var k :| 0 <= k < |names| && names[k] == d.idName;
    var divs := Group(ds, names[k]);
    var i :| 0 <= i < |divs| && divs[i] == d;
    assert t[k][i] == (d.owner, Truth(d, env));
    FlattenMember(t, (d.owner, Truth(d, env)));
  }

  /** Coverage: whatever values the variables hold, one of the maps gives every
      Division's node exactly the truth value it has under those values (the owners
      being distinct, as they are for the Divisions of one condition). */
  lemma Covering(ds: seq<Division>, env: string -> int) returns (i: nat)
    requires |ds| > 0 && DistinctOwners(ds)
    ensures i < |JointAssignments(ds)|
    ensures JointAssignments(ds)[i].Keys == OwnerSet(ds)
    ensures forall d :: d in ds ==> d.owner in JointAssignments(ds)[i] && JointAssignments(ds)[i][d.owner] == Truth(d, env)
  {
    var matrices := Matrices(ds);
    var t := EnvChoice(ds, env);
    EnvChoiceInProduct(ds, env);
    var product := CartesianProduct(matrices);
    i :| 0 <= i < |product| && product[i] == t;
    AssignmentKeys(ds, i);
    JointAssignmentAt(ds, i);
    EnvChoiceValues(ds, env);
  }

  lemma EnvChoiceValues(ds: seq<Division>, env: string -> int)
    requires DistinctOwners(ds)
    ensures var m := PairsToMap(Flatten(EnvChoice(ds, env)));
      forall d :: d in ds ==> d.owner in m && m[d.owner] == Truth(d, env)
  {
    forall d | d in ds
      ensures d.owner in PairsToMap(Flatten(EnvChoice(ds, env)))
      ensures PairsToMap(Flatten(EnvChoice(ds, env)))[d.owner] == Truth(d, env)
    {
      EnvChoiceValue(ds, env, d);
    }
  }

  /** The map of the tuple an assignment selects gives each Division's node its true value. */
  lemma EnvChoiceValue(ds: seq<Division>, env: string -> int, d: Division)
    requires DistinctOwners(ds) && d in ds
    ensures var pairs := Flatten(EnvChoice(ds, env));
      d.owner in PairsToMap(pairs) && PairsToMap(pairs)[d.owner] == Truth(d, env)
  {
    var pairs := Flatten(EnvChoice(ds, env));
    EnvChoiceComplete(ds, env, d);
    forall p | p in pairs && p.0 == d.owner ensures p.1 == Truth(d, env) {
      EnvChoiceTruthful(ds, env, p);
      var d' :| d' in ds && p == (d'.owner, Truth(d', env));
      var a :| 0 <= a < |ds| && ds[a] == d;
      var b :| 0 <= b < |ds| && ds[b] == d';
      assert a == b;
    }
    PairsToMapValue(pairs, d.owner, Truth(d, env));
  }
}
