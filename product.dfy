/**
 * `cartesianProduct`: all tuples with one element from each list, the first list's
 * element varying slowest.
 */
module Product {

  function Flatten<T>(blocks: seq<seq<T>>): seq<T> {
    if blocks == [] then [] else blocks[0] + Flatten(blocks[1..])
  }

  /** The product of the lengths of the lists. */
  function SizeProduct<T>(lists: seq<seq<T>>): nat {
    if lists == [] then 1 else |lists[0]| * SizeProduct(lists[1..])
  }

  /** The product of a list of counts. */
  function ProductOf(counts: seq<nat>): nat {
    if counts == [] then 1 else counts[0] * ProductOf(counts[1..])
  }

  /** Lists no longer than their bounds have a product no larger than the bounds' product. */
  lemma {:induction false} SizeProductBound<T>(lists: seq<seq<T>>, bounds: seq<nat>)
    requires |lists| == |bounds|
    requires forall k :: 0 <= k < |lists| ==> |lists[k]| <= bounds[k]
    ensures SizeProduct(lists) <= ProductOf(bounds)
  {
    if lists != [] {
      assert |lists[0]| <= bounds[0];
      SizeProductBound(lists[1..], bounds[1..]);
      MulMonotone(|lists[0]|, bounds[0], SizeProduct(lists[1..]), ProductOf(bounds[1..]));
    }
  }

  lemma MulMonotone(a: nat, a': nat, b: nat, b': nat)
    requires a <= a' && b <= b'
    ensures a * b <= a' * b'
  {
    assert a * b <= a' * b;
  }

  /** The product of non-empty lists is not empty. */
  lemma {:induction false} SizeProductPositive<T>(lists: seq<seq<T>>)
    requires forall k :: 0 <= k < |lists| ==> |lists[k]| > 0
    ensures SizeProduct(lists) > 0
  {
    if lists != [] {
      SizeProductPositive(lists[1..]);
      assert |lists[0]| > 0;
    }
  }

  /** Flattening blocks of one common length `b` puts element `j` of block `i` at `i * b + j`. */
  lemma {:induction false} FlattenIndex<T>(blocks: seq<seq<T>>, b: nat, i: nat, j: nat)
    requires forall k :: 0 <= k < |blocks| ==> |blocks[k]| == b
    requires i < |blocks| && j < b
    ensures |Flatten(blocks)| == |blocks| * b
    ensures i * b + j < |Flatten(blocks)| && Flatten(blocks)[i * b + j] == blocks[i][j]
  {
    FlattenLength(blocks, b);
    if i > 0 {
      FlattenIndex(blocks[1..], b, i - 1, j);
      assert i * b + j == b + ((i - 1) * b + j);
    }
  }

  lemma {:induction false} FlattenLength<T>(blocks: seq<seq<T>>, b: nat)
    requires forall k :: 0 <= k < |blocks| ==> |blocks[k]| == b
    ensures |Flatten(blocks)| == |blocks| * b
  {
    if blocks != [] {
      FlattenLength(blocks[1..], b);
      assert |blocks| * b == b + (|blocks| - 1) * b;
    }
  }

  /** What is in a flattening comes from one of the blocks, and everything in a block is in it. */
  lemma {:induction false} FlattenMember<T>(blocks: seq<seq<T>>, x: T)
    ensures x in Flatten(blocks) <==> exists i :: 0 <= i < |blocks| && x in blocks[i]
  {
    if blocks != [] {
      FlattenMember(blocks[1..], x);
      if exists i :: 0 <= i < |blocks| && x in blocks[i] {
        var i :| 0 <= i < |blocks| && x in blocks[i];
        if i > 0 {
          assert x in blocks[1..][i - 1];
        }
      }
      if exists i :: 0 <= i < |blocks[1..]| && x in blocks[1..][i] {
        var i :| 0 <= i < |blocks[1..]| && x in blocks[1..][i];
        assert x in blocks[i + 1];
      }
    }
  }

  /** `smaller.map { listOf(x) + it }`: `x` put in front of every tuple. */
  function Prefixed<T>(x: T, smaller: seq<seq<T>>): (r: seq<seq<T>>)
    ensures |r| == |smaller|
    ensures forall j :: 0 <= j < |smaller| ==> r[j] == [x] + smaller[j]
  {
    if smaller == [] then [] else [[x] + smaller[0]] + Prefixed(x, smaller[1..])
  }

  /** `factor1.map { x -> smaller.map { listOf(x) + it } }`: the blocks `cartesianProduct` flattens. */
  function Prepended<T>(factor1: seq<T>, smaller: seq<seq<T>>): (r: seq<seq<seq<T>>>)
    ensures |r| == |factor1|
    ensures forall i :: 0 <= i < |factor1| ==> r[i] == Prefixed(factor1[i], smaller)
  {
    if factor1 == [] then [] else [Prefixed(factor1[0], smaller)] + Prepended(factor1[1..], smaller)
  }

  /** `list.map { listOf(it) }`. */
  function Singletons<T>(list: seq<T>): (r: seq<seq<T>>)
    ensures |r| == |list|
    ensures forall i :: 0 <= i < |list| ==> r[i] == [list[i]]
  {
    if list == [] then [] else [[list[0]]] + Singletons(list[1..])
  }

  /** `cartesianProduct(setList)`; the source calls `first()` on the list, so it must not be empty. */
  function CartesianProduct<T>(setList: seq<seq<T>>): (r: seq<seq<T>>)
    requires |setList| >= 1
    ensures |r| == SizeProduct(setList)
    decreases |setList|
  {
    if |setList| == 1 then
      Singletons(setList[0])
    else
      var smaller := CartesianProduct(setList[1..]);
      FlattenLength(Prepended(setList[0], smaller), |smaller|);
      Flatten(Prepended(setList[0], smaller))
  }

  /** Lexicographic order: tuple `i * S + j` of the product, where `S` is the size of the
      product of the remaining lists, is element `i` of the first list followed by tuple
      `j` of that smaller product. */
  lemma ProductIndex<T>(setList: seq<seq<T>>, i: nat, j: nat)
    requires |setList| >= 2
    requires i < |setList[0]| && j < SizeProduct(setList[1..])
    ensures i * SizeProduct(setList[1..]) + j < |CartesianProduct(setList)|
    ensures CartesianProduct(setList)[i * SizeProduct(setList[1..]) + j]
         == [setList[0][i]] + CartesianProduct(setList[1..])[j]
  {
    var smaller := CartesianProduct(setList[1..]);
    FlattenIndex(Prepended(setList[0], smaller), |smaller|, i, j);
  }

  /** A single list maps to the singletons of its elements. */
  lemma SingleList<T>(list: seq<T>)
    ensures |CartesianProduct([list])| == |list|
    ensures forall i :: 0 <= i < |list| ==> CartesianProduct([list])[i] == [list[i]]
  {
  }

  /** Every tuple of the product has one element per list, the `k`-th drawn from the `k`-th list. */
  lemma {:induction false} ProductShape<T>(setList: seq<seq<T>>, t: seq<T>)
    requires |setList| >= 1
    requires t in CartesianProduct(setList)
    ensures |t| == |setList|
    ensures forall k :: 0 <= k < |t| ==> t[k] in setList[k]
    decreases |setList|
  {
    if |setList| > 1 {
      var smaller := CartesianProduct(setList[1..]);
      PrependedMember(setList[0], smaller, t);
      var i, j :| 0 <= i < |setList[0]| && 0 <= j < |smaller| && t == [setList[0][i]] + smaller[j];
      assert smaller[j] in smaller;
      ProductShape(setList[1..], smaller[j]);
      ConsShape(setList, setList[0][i], smaller[j]);
    }
  }

  lemma PrependedMember<T>(factor1: seq<T>, smaller: seq<seq<T>>, t: seq<T>)
    requires t in Flatten(Prepended(factor1, smaller))
    ensures exists i, j :: 0 <= i < |factor1| && 0 <= j < |smaller| && t == [factor1[i]] + smaller[j]
  {
    var blocks := Prepended(factor1, smaller);
    FlattenMember(blocks, t);
    var i :| 0 <= i < |blocks| && t in blocks[i];
    var j :| 0 <= j < |smaller| && blocks[i][j] == t;
  }

  lemma ConsShape<T>(setList: seq<seq<T>>, x: T, tail: seq<T>)
    requires |setList| >= 1 && x in setList[0]
    requires |tail| == |setList| - 1
    requires forall k :: 0 <= k < |tail| ==> tail[k] in setList[1..][k]
    ensures |[x] + tail| == |setList|
    ensures forall k :: 0 <= k < |[x] + tail| ==> ([x] + tail)[k] in setList[k]
  {
    var t := [x] + tail;
    forall k | 0 <= k < |t| ensures t[k] in setList[k] {
      if k > 0 {
        assert t[k] == tail[k - 1];
        assert setList[1..][k - 1] == setList[k];
      }
    }
  }

  /** Every tuple with one element per list, the `k`-th drawn from the `k`-th list, is in
      the product. */
  lemma {:induction false} ProductComplete<T>(setList: seq<seq<T>>, t: seq<T>)
    requires |setList| >= 1
    requires |t| == |setList|
    requires forall k :: 0 <= k < |t| ==> t[k] in setList[k]
    ensures t in CartesianProduct(setList)
    decreases |setList|
  {
    assert t[0] in setList[0];
    var i :| 0 <= i < |setList[0]| && setList[0][i] == t[0];
    if |setList| == 1 {
      SingleComplete(setList, t, i);
    } else {
      TailChoice(setList, t);
      ProductComplete(setList[1..], t[1..]);
      ConsMember(setList, t, i);
    }
  }

  lemma ConsMember<T>(setList: seq<seq<T>>, t: seq<T>, i: nat)
    requires |setList| >= 2 && |t| == |setList|
    requires i < |setList[0]| && setList[0][i] == t[0]
    requires t[1..] in CartesianProduct(setList[1..])
    ensures t in CartesianProduct(setList)
  {
    var smaller := CartesianProduct(setList[1..]);
    var j :| 0 <= j < |smaller| && smaller[j] == t[1..];
    ConsComplete(setList, i, j);
    assert [t[0]] + t[1..] == t;
  }

  lemma SingleComplete<T>(setList: seq<seq<T>>, t: seq<T>, i: nat)
    requires |setList| == 1 && |t| == 1
    requires i < |setList[0]| && setList[0][i] == t[0]
    ensures t in CartesianProduct(setList)
  {
    assert t == [setList[0][i]];
    SingleList(setList[0]);
    assert setList == [setList[0]];
    assert CartesianProduct(setList)[i] == t;
  }

  lemma ConsComplete<T>(setList: seq<seq<T>>, i: nat, j: nat)
    requires |setList| >= 2 && i < |setList[0]| && j < SizeProduct(setList[1..])
    ensures [setList[0][i]] + CartesianProduct(setList[1..])[j] in CartesianProduct(setList)
  {
    var smaller := CartesianProduct(setList[1..]);
    var blocks := Prepended(setList[0], smaller);
    var t := [setList[0][i]] + smaller[j];
    InByIndex(blocks[i], j, t);
    FlattenMember(blocks, t);
  }

  lemma InByIndex<T>(s: seq<T>, k: nat, x: T)
    requires k < |s| && s[k] == x
    ensures x in s
  {
  }

  lemma TailChoice<T>(setList: seq<seq<T>>, t: seq<T>)
    requires |setList| >= 2 && |t| == |setList|
    requires forall k :: 0 <= k < |t| ==> t[k] in setList[k]
    ensures forall k :: 0 <= k < |t[1..]| ==> t[1..][k] in setList[1..][k]
  {
    forall k | 0 <= k < |t[1..]| ensures t[1..][k] in setList[1..][k] {
      assert t[1..][k] == t[k + 1];
    }
  }

  /** The first four tuples of the product of two lists of three. */
  lemma TwoByThree<T>(b: seq<T>, c: seq<T>)
    requires |b| == 3 && |c| == 3
    ensures |CartesianProduct([b, c])| == 9
    ensures CartesianProduct([b, c])[..4] == [[b[0], c[0]], [b[0], c[1]], [b[0], c[2]], [b[1], c[0]]]
  {
    var setList := [b, c];
    assert setList[1..] == [c];
    assert |setList[1..][1..]| == 0;
    assert SizeProduct(setList[1..]) == 3;
    SingleList(c);
    ProductIndex(setList, 0, 0);
    ProductIndex(setList, 0, 1);
    ProductIndex(setList, 0, 2);
    ProductIndex(setList, 1, 0);
    var last := CartesianProduct([c]);
    assert last[0] == [c[0]] && last[1] == [c[1]] && last[2] == [c[2]];
    var product := CartesianProduct(setList);
    assert product[0] == [b[0], c[0]];
    assert product[1] == [b[0], c[1]];
    assert product[2] == [b[0], c[2]];
    assert product[3] == [b[1], c[0]];
  }

  /** The first four tuples of the product of three lists of three. */
  lemma ThreeByThree<T>(a: seq<T>, b: seq<T>, c: seq<T>)
    requires |a| == 3 && |b| == 3 && |c| == 3
    ensures |CartesianProduct([a, b, c])| == 27
    ensures CartesianProduct([a, b, c])[..4]
         == [[a[0], b[0], c[0]], [a[0], b[0], c[1]], [a[0], b[0], c[2]], [a[0], b[1], c[0]]]
  {
    var setList := [a, b, c];
    assert setList[1..] == [b, c];
    TwoByThree(b, c);
    var middle := CartesianProduct([b, c]);
    assert middle[0] == [b[0], c[0]] && middle[1] == [b[0], c[1]];
    assert middle[2] == [b[0], c[2]] && middle[3] == [b[1], c[0]];
    ProductIndex(setList, 0, 0);
    ProductIndex(setList, 0, 1);
    ProductIndex(setList, 0, 2);
    ProductIndex(setList, 0, 3);
    var product := CartesianProduct(setList);
    assert product[0] == [a[0], b[0], c[0]];
    assert product[1] == [a[0], b[0], c[1]];
    assert product[2] == [a[0], b[0], c[2]];
    assert product[3] == [a[0], b[1], c[0]];
  }

  /** The example of the source's `main`: the product of `a b c`, `1 2 3` and `x y z`
      has 27 tuples and starts `(a,1,x), (a,1,y), (a,1,z), (a,2,x)`. */
  lemma MainExample()
    ensures var product := CartesianProduct([["a", "b", "c"], ["1", "2", "3"], ["x", "y", "z"]]);
      && |product| == 27
      && product[..4] == [["a", "1", "x"], ["a", "1", "y"], ["a", "1", "z"], ["a", "2", "x"]]
  {
    ThreeByThree(["a", "b", "c"], ["1", "2", "3"], ["x", "y", "z"]);
  }
}
