/** A reference definition of "group a list by a key, buckets in order of the
    first occurrence of their key", independent of how it is computed, and
    the properties of a partition proved about it. */
module Grouping {

  /** The distinct keys of xs, in the order in which they first occur. */
  function Keys<T, K(==)>(xs: seq<T>, key: T -> K): seq<K> {
    if xs == [] then []
    else
      var ks := Keys(xs[..|xs| - 1], key);
      var k := key(xs[|xs| - 1]);
      if k in ks then ks else ks + [k]
  }

  /** Every element's key is listed. */
  lemma {:induction false} KeysComplete<T, K>(xs: seq<T>, key: T -> K)
    ensures forall i :: 0 <= i < |xs| ==> key(xs[i]) in Keys(xs, key)
  {
    if xs != [] {
      var ys := xs[..|xs| - 1];
      KeysComplete(ys, key);
      forall i | 0 <= i < |xs| - 1 ensures key(xs[i]) in Keys(xs, key) {
        assert xs[i] == ys[i];
      }
    }
  }

  /** No key is listed twice. */
  lemma {:induction false} KeysDistinct<T, K>(xs: seq<T>, key: T -> K)
    ensures forall i, j :: 0 <= i < j < |Keys(xs, key)| ==> Keys(xs, key)[i] != Keys(xs, key)[j]
  {
    if xs != [] {
      KeysDistinct(xs[..|xs| - 1], key);
    }
  }

  /** Every listed key is the key of some element. */
  lemma {:induction false} KeysOccur<T, K>(xs: seq<T>, key: T -> K, j: int)
    requires 0 <= j < |Keys(xs, key)|
    ensures exists i :: 0 <= i < |xs| && key(xs[i]) == Keys(xs, key)[j]
  {
    var ys, x := xs[..|xs| - 1], xs[|xs| - 1];
    if j < |Keys(ys, key)| {
      KeysOccur(ys, key, j);
      var i :| 0 <= i < |ys| && key(ys[i]) == Keys(ys, key)[j];
      assert xs[i] == ys[i];
    } else {
      assert key(xs[|xs| - 1]) == Keys(xs, key)[j];
    }
  }

  /** The positions of xs whose key is k, in increasing order. */
  function Positions<T, K(==)>(xs: seq<T>, key: T -> K, k: K): (ps: seq<int>)
    ensures forall p :: 0 <= p < |ps| ==> 0 <= ps[p] < |xs| && key(xs[ps[p]]) == k
    ensures forall p, q :: 0 <= p < q < |ps| ==> ps[p] < ps[q]
    ensures forall i :: 0 <= i < |xs| && key(xs[i]) == k ==> i in ps
  {
    if xs == [] then []
    else
      var n := |xs| - 1;
      var ps := Positions(xs[..n], key, k);
      assert forall i :: 0 <= i < n ==> xs[..n][i] == xs[i];
      if key(xs[n]) == k then ps + [n] else ps
  }

  /** The elements of xs whose key is k, as the subsequence at Positions. */
  function Select<T, K(==)>(xs: seq<T>, key: T -> K, k: K): seq<T> {
    var ps := Positions(xs, key, k);
    seq(|ps|, p requires 0 <= p < |ps| => xs[ps[p]])
  }

  /** The buckets: one per distinct key, in first-occurrence order, each
      holding the elements with that key in input order. */
  function GroupBy<T, K(==)>(xs: seq<T>, key: T -> K): seq<seq<T>> {
    var ks := Keys(xs, key);
    seq(|ks|, j requires 0 <= j < |ks| => Select(xs, key, ks[j]))
  }

  function Flatten<T>(bs: seq<seq<T>>): seq<T> {
    if bs == [] then [] else bs[0] + Flatten(bs[1..])
  }

  /** Appending one element extends the key list only with a new key. */
  lemma KeysStep<T, K>(xs: seq<T>, key: T -> K, x: T)
    ensures Keys(xs + [x], key) == if key(x) in Keys(xs, key) then Keys(xs, key) else Keys(xs, key) + [key(x)]
  {
    assert (xs + [x])[..|xs|] == xs;
  }

  /** Appending one element extends exactly the selection of its own key. */
  lemma SelectStep<T, K>(xs: seq<T>, key: T -> K, x: T, k: K)
    ensures Select(xs + [x], key, k) == Select(xs, key, k) + (if key(x) == k then [x] else [])
  {
    assert (xs + [x])[..|xs|] == xs;
  }

  /** Every element of a selection carries the selected key, and a key's
      selection is empty exactly when no element carries it. */
  lemma SelectKeys<T, K>(xs: seq<T>, key: T -> K, k: K)
    ensures forall p :: 0 <= p < |Select(xs, key, k)| ==> key(Select(xs, key, k)[p]) == k
    ensures Select(xs, key, k) == [] <==> forall i :: 0 <= i < |xs| ==> key(xs[i]) != k
  {
    var ps := Positions(xs, key, k);
    if |ps| > 0 {
      assert key(xs[ps[0]]) == k;
    }
    if exists i :: 0 <= i < |xs| && key(xs[i]) == k {
      var i :| 0 <= i < |xs| && key(xs[i]) == k;
      assert i in ps;
    }
  }

  lemma {:induction false} FlattenAppend<T>(bs: seq<seq<T>>, cs: seq<seq<T>>)
    ensures Flatten(bs + cs) == Flatten(bs) + Flatten(cs)
  {
    if bs != [] {
      assert (bs + cs)[1..] == bs[1..] + cs;
      FlattenAppend(bs[1..], cs);
    } else {
      assert bs + cs == cs;
    }
  }

  /** Appending x to one bucket adds exactly x to the flattened multiset. */
  lemma {:induction false} FlattenGrowBucket<T>(bs: seq<seq<T>>, j: int, x: T)
    requires 0 <= j < |bs|
    ensures multiset(Flatten(bs[j := bs[j] + [x]])) == multiset(Flatten(bs)) + multiset{x}
  {
    if j > 0 {
      assert bs[j := bs[j] + [x]][1..] == bs[1..][j - 1 := bs[j] + [x]];
      FlattenGrowBucket(bs[1..], j - 1, x);
    } else {
      assert bs[j := bs[j] + [x]][1..] == bs[1..];
    }
  }

  function IndexOf<K(==)>(ks: seq<K>, k: K): (j: int)
    requires k in ks
    ensures 0 <= j < |ks| && ks[j] == k
  {
    if ks[0] == k then 0 else 1 + IndexOf(ks[1..], k)
  }

  /** A bucket whose key differs from that of the appended element keeps
      its contents. */
  lemma BucketUnchanged<T, K>(xs: seq<T>, key: T -> K, x: T, i: int)
    requires 0 <= i < |Keys(xs, key)| && key(x) != Keys(xs, key)[i]
    ensures |GroupBy(xs + [x], key)| > i && GroupBy(xs + [x], key)[i] == GroupBy(xs, key)[i]
  {
    KeysStep(xs, key, x);
    SelectStep(xs, key, x, Keys(xs, key)[i]);
  }

  /** The bucket of the appended element's key gains that element at its end. */
  lemma BucketGrows<T, K>(xs: seq<T>, key: T -> K, x: T, i: int)
    requires 0 <= i < |Keys(xs, key)| && key(x) == Keys(xs, key)[i]
    ensures |GroupBy(xs + [x], key)| > i && GroupBy(xs + [x], key)[i] == GroupBy(xs, key)[i] + [x]
  {
    KeysStep(xs, key, x);
    SelectStep(xs, key, x, Keys(xs, key)[i]);
  }

  /** An element with an unseen key gets a bucket of its own, placed last. */
  lemma BucketOpened<T, K>(xs: seq<T>, key: T -> K, x: T)
    requires key(x) !in Keys(xs, key)
    ensures |GroupBy(xs + [x], key)| == |Keys(xs, key)| + 1
    ensures GroupBy(xs + [x], key)[|Keys(xs, key)|] == [x]
  {
    KeysStep(xs, key, x);
    SelectStep(xs, key, x, key(x));
    SelectKeys(xs, key, key(x));
  }

  /** An element whose key was seen before joins that key's bucket, at its end. */
  lemma GroupByStepOld<T, K>(xs: seq<T>, key: T -> K, x: T)
    requires key(x) in Keys(xs, key)
    ensures var j := IndexOf(Keys(xs, key), key(x));
      GroupBy(xs + [x], key) == GroupBy(xs, key)[j := GroupBy(xs, key)[j] + [x]]
  {
    var ks, g, g' := Keys(xs, key), GroupBy(xs, key), GroupBy(xs + [x], key);
    var j := IndexOf(ks, key(x));
    KeysStep(xs, key, x);
    KeysDistinct(xs, key);
    assert |g'| == |ks|;
    forall i | 0 <= i < |ks| ensures g'[i] == g[j := g[j] + [x]][i] {
      if i == j {
        BucketGrows(xs, key, x, i);
      } else {
        BucketUnchanged(xs, key, x, i);
      }
    }
  }

  /** An element with a key not seen before opens a new last bucket. */
  lemma GroupByStepNew<T, K>(xs: seq<T>, key: T -> K, x: T)
    requires key(x) !in Keys(xs, key)
    ensures GroupBy(xs + [x], key) == GroupBy(xs, key) + [[x]]
  {
    var ks, g, g' := Keys(xs, key), GroupBy(xs, key), GroupBy(xs + [x], key);
    BucketOpened(xs, key, x);
    BucketsBeforeUnchanged(xs, key, x);
    assert |g| == |ks|;
    assert g' == g + [[x]];
  }

  /** An element with an unseen key leaves every existing bucket as it was. */
  lemma BucketsBeforeUnchanged<T, K>(xs: seq<T>, key: T -> K, x: T)
    requires key(x) !in Keys(xs, key)
    ensures |GroupBy(xs + [x], key)| > |Keys(xs, key)|
    ensures forall i :: 0 <= i < |Keys(xs, key)| ==> GroupBy(xs + [x], key)[i] == GroupBy(xs, key)[i]
  {
    BucketOpened(xs, key, x);
    forall i | 0 <= i < |Keys(xs, key)|
      ensures GroupBy(xs + [x], key)[i] == GroupBy(xs, key)[i]
    {
      BucketUnchanged(xs, key, x, i);
    }
  }

  /** Grouping is a partition: the buckets together hold exactly the input
      elements, as many times as they occur in the input. */
  lemma {:induction false} GroupByPartition<T, K>(xs: seq<T>, key: T -> K)
    ensures multiset(Flatten(GroupBy(xs, key))) == multiset(xs)
  {
    if xs != [] {
      var ys, x := xs[..|xs| - 1], xs[|xs| - 1];
      assert xs == ys + [x];
      GroupByPartition(ys, key);
      if key(x) in Keys(ys, key) {
        GroupByStepOld(ys, key, x);
        FlattenGrowBucket(GroupBy(ys, key), IndexOf(Keys(ys, key), key(x)), x);
      } else {
        GroupByStepNew(ys, key, x);
        FlattenAppend(GroupBy(ys, key), [[x]]);
      }
    }
  }

  /** The buckets are non-empty, every element of bucket j carries the j-th
      key, and no two buckets carry the same key; the empty input gives no
      buckets. */
  lemma BucketsAreClasses<T, K>(xs: seq<T>, key: T -> K)
    ensures |GroupBy(xs, key)| == |Keys(xs, key)|
    ensures xs == [] <==> GroupBy(xs, key) == []
    ensures forall j :: 0 <= j < |Keys(xs, key)| ==> GroupBy(xs, key)[j] != []
    ensures forall j, p :: 0 <= j < |Keys(xs, key)| && 0 <= p < |GroupBy(xs, key)[j]| ==>
              key(GroupBy(xs, key)[j][p]) == Keys(xs, key)[j]
    ensures forall i, j :: 0 <= i < j < |Keys(xs, key)| ==> Keys(xs, key)[i] != Keys(xs, key)[j]
  {
    var ks := Keys(xs, key);
    forall j | 0 <= j < |ks|
      ensures GroupBy(xs, key)[j] != []
      ensures forall p :: 0 <= p < |GroupBy(xs, key)[j]| ==> key(GroupBy(xs, key)[j][p]) == ks[j]
    {
      KeysOccur(xs, key, j);
      SelectKeys(xs, key, ks[j]);
    }
    KeysDistinct(xs, key);
    if xs != [] {
      KeysComplete(xs, key);
      assert key(xs[0]) in ks;
    }
  }

  /** Each bucket keeps the input order: it is the input restricted to the
      strictly increasing positions that carry its key, all of them. */
  lemma BucketKeepsInputOrder<T, K>(xs: seq<T>, key: T -> K, j: int)
    requires 0 <= j < |Keys(xs, key)|
    ensures var b, ps := GroupBy(xs, key)[j], Positions(xs, key, Keys(xs, key)[j]);
      && |b| == |ps|
      && (forall p :: 0 <= p < |ps| ==> b[p] == xs[ps[p]])
      && (forall p, q :: 0 <= p < q < |ps| ==> ps[p] < ps[q])
      && (forall i :: 0 <= i < |xs| ==> (i in ps <==> key(xs[i]) == Keys(xs, key)[j]))
  {
  }

  /** The first position of xs whose key is k. */
  function FirstPosition<T, K(==)>(xs: seq<T>, key: T -> K, k: K): (p: int)
    requires exists i :: 0 <= i < |xs| && key(xs[i]) == k
    ensures 0 <= p < |xs| && key(xs[p]) == k
    ensures forall i :: 0 <= i < p ==> key(xs[i]) != k
  {
    if key(xs[0]) == k then 0
    else
      assert exists i :: 0 <= i < |xs[1..]| && key(xs[1..][i]) == k by {
        var i :| 0 <= i < |xs| && key(xs[i]) == k;
        assert key(xs[1..][i - 1]) == k;
      }
      1 + FirstPosition(xs[1..], key, k)
  }

  /** Appending an element does not move the first occurrence of a key that
      already occurs. */
  lemma FirstPositionAppend<T, K>(xs: seq<T>, key: T -> K, x: T, k: K)
    requires exists i :: 0 <= i < |xs| && key(xs[i]) == k
    ensures exists i :: 0 <= i < |xs + [x]| && key((xs + [x])[i]) == k
    ensures FirstPosition(xs + [x], key, k) == FirstPosition(xs, key, k)
  {
    var p := FirstPosition(xs, key, k);
    assert (xs + [x])[p] == xs[p];
  }

  /** The buckets come in the order in which their keys first occur in the
      input. */
  lemma {:induction false} KeysInFirstOccurrenceOrder<T, K>(xs: seq<T>, key: T -> K, i: int, j: int)
    requires 0 <= i < j < |Keys(xs, key)|
    ensures exists p :: 0 <= p < |xs| && key(xs[p]) == Keys(xs, key)[i]
    ensures exists p :: 0 <= p < |xs| && key(xs[p]) == Keys(xs, key)[j]
    ensures FirstPosition(xs, key, Keys(xs, key)[i]) < FirstPosition(xs, key, Keys(xs, key)[j])
  {
    var ys, x := xs[..|xs| - 1], xs[|xs| - 1];
    assert xs == ys + [x];
    KeysStep(ys, key, x);
    var ks := Keys(ys, key);
    if j < |ks| {
      KeysInFirstOccurrenceOrder(ys, key, i, j);
      FirstPositionAppend(ys, key, x, ks[i]);
      FirstPositionAppend(ys, key, x, ks[j]);
    } else {
      assert Keys(xs, key)[j] == key(x) && key(x) !in ks;
      KeysOccur(ys, key, i);
      FirstPositionAppend(ys, key, x, ks[i]);
      FirstPositionOfNewKey(ys, key, x);
    }
  }

  /** An element with a key not seen before is that key's first occurrence. */
  lemma FirstPositionOfNewKey<T, K>(ys: seq<T>, key: T -> K, x: T)
    requires key(x) !in Keys(ys, key)
    ensures exists p :: 0 <= p < |ys + [x]| && key((ys + [x])[p]) == key(x)
    ensures FirstPosition(ys + [x], key, key(x)) == |ys|
  {
    var xs := ys + [x];
    KeysComplete(ys, key);
    assert key(xs[|ys|]) == key(x);
    forall p | 0 <= p < |ys| ensures key(xs[p]) != key(x) {
      assert xs[p] == ys[p];
    }
  }

  /** When the input is ordered by an integer key, the keys of the buckets
      strictly ascend. */
  lemma SortedInputGivesAscendingKeys<T>(xs: seq<T>, key: T -> int, i: int, j: int)
    requires forall p, q :: 0 <= p <= q < |xs| ==> key(xs[p]) <= key(xs[q])
    requires 0 <= i < j < |Keys(xs, key)|
    ensures Keys(xs, key)[i] < Keys(xs, key)[j]
  {
    var ks := Keys(xs, key);
    KeysInFirstOccurrenceOrder(xs, key, i, j);
    var p, q := FirstPosition(xs, key, ks[i]), FirstPosition(xs, key, ks[j]);
    assert key(xs[p]) <= key(xs[q]);
    assert ks[i] != ks[j];
  }

  /** When the input is ordered by an integer key, every element of an
      earlier bucket has a smaller key than every element of a later one. */
  lemma SortedInputGivesAscendingBuckets<T>(xs: seq<T>, key: T -> int, i: int, j: int)
    requires forall p, q :: 0 <= p <= q < |xs| ==> key(xs[p]) <= key(xs[q])
    requires 0 <= i < j < |GroupBy(xs, key)|
    ensures forall a, b :: 0 <= a < |GroupBy(xs, key)[i]| && 0 <= b < |GroupBy(xs, key)[j]| ==>
              key(GroupBy(xs, key)[i][a]) < key(GroupBy(xs, key)[j][b])
  {
    BucketsAreClasses(xs, key);
    SortedInputGivesAscendingKeys(xs, key, i, j);
  }

  /** In input ordered by an integer key, the last key is the largest. */
  lemma SortedInputLastKeyIsLargest<T>(xs: seq<T>, key: T -> int)
    requires forall p, q :: 0 <= p <= q < |xs| ==> key(xs[p]) <= key(xs[q])
    requires |Keys(xs, key)| > 0
    ensures forall m :: 0 <= m < |Keys(xs, key)| - 1 ==> Keys(xs, key)[m] < Keys(xs, key)[|Keys(xs, key)| - 1]
  {
    var ks := Keys(xs, key);
    forall m | 0 <= m < |ks| - 1 ensures ks[m] < ks[|ks| - 1] {
      SortedInputGivesAscendingKeys(xs, key, m, |ks| - 1);
    }
  }

  lemma FlattenLast<T>(bs: seq<seq<T>>, b: seq<T>)
    ensures Flatten(bs + [b]) == Flatten(bs) + b
  {
    FlattenAppend(bs, [b]);
    assert [b][1..] == [];
  }

  /** A key at least as large as every key of a sorted input is the last. */
  lemma LargestKeyIsLast<T>(ys: seq<T>, key: T -> int, k: int)
    requires forall p, q :: 0 <= p <= q < |ys| ==> key(ys[p]) <= key(ys[q])
    requires forall p :: 0 <= p < |ys| ==> key(ys[p]) <= k
    requires k in Keys(ys, key)
    ensures IndexOf(Keys(ys, key), k) == |Keys(ys, key)| - 1
  {
    var ks := Keys(ys, key);
    forall m | 0 <= m < |ks| ensures ks[m] <= k {
      KeysOccur(ys, key, m);
    }
    SortedInputLastKeyIsLargest(ys, key);
  }

  lemma FlattenGrowLast<T>(g: seq<seq<T>>, x: T)
    requires |g| > 0
    ensures Flatten(g[|g| - 1 := g[|g| - 1] + [x]]) == Flatten(g) + [x]
  {
    var j := |g| - 1;
    assert g == g[..j] + [g[j]];
    assert g[j := g[j] + [x]] == g[..j] + [g[j] + [x]];
    FlattenLast(g[..j], g[j]);
    FlattenLast(g[..j], g[j] + [x]);
  }

  /** An element whose key is at least every key so far joins the last
      bucket or opens a new one: either way it lands at the end of the
      concatenation. */
  lemma FlattenStepLargest<T>(ys: seq<T>, key: T -> int, x: T)
    requires forall p, q :: 0 <= p <= q < |ys| ==> key(ys[p]) <= key(ys[q])
    requires forall p :: 0 <= p < |ys| ==> key(ys[p]) <= key(x)
    ensures Flatten(GroupBy(ys + [x], key)) == Flatten(GroupBy(ys, key)) + [x]
  {
    var g, ks := GroupBy(ys, key), Keys(ys, key);
    if key(x) in ks {
      GroupByStepOld(ys, key, x);
      LargestKeyIsLast(ys, key, key(x));
      assert |g| == |ks| && IndexOf(ks, key(x)) == |g| - 1;
      assert GroupBy(ys + [x], key) == g[|g| - 1 := g[|g| - 1] + [x]];
      FlattenGrowLast(g, x);
    } else {
      GroupByStepNew(ys, key, x);
      FlattenLast(g, [x]);
    }
  }

  /** When the input is ordered by an integer key, the buckets read in order
      give back the input itself. */
  lemma {:induction false} SortedInputFlattensBack<T>(xs: seq<T>, key: T -> int)
    requires forall p, q :: 0 <= p <= q < |xs| ==> key(xs[p]) <= key(xs[q])
    ensures Flatten(GroupBy(xs, key)) == xs
  {
    if xs == [] {
      BucketsAreClasses(xs, key);
    } else {
      var ys, x := xs[..|xs| - 1], xs[|xs| - 1];
      assert xs == ys + [x];
      forall p, q | 0 <= p <= q < |ys| ensures key(ys[p]) <= key(ys[q]) && key(ys[p]) <= key(x) {
        assert ys[p] == xs[p] && ys[q] == xs[q];
      }
      SortedInputFlattensBack(ys, key);
      FlattenStepLargest(ys, key, x);
    }
  }

  /** Two key functions that split xs into the same classes. */
  ghost predicate SameClasses<T, K1, K2>(xs: seq<T>, k1: T -> K1, k2: T -> K2) {
    forall i, j :: 0 <= i < |xs| && 0 <= j < |xs| ==> (k1(xs[i]) == k1(xs[j]) <==> k2(xs[i]) == k2(xs[j]))
  }

  /** When two key functions group ys alike and agree on which elements
      share a key with x, x belongs to bucket j under both. */
  lemma MatchingBucket<T, K1, K2>(ys: seq<T>, x: T, k1: T -> K1, k2: T -> K2, j: int)
    requires SameClasses(ys + [x], k1, k2)
    requires GroupBy(ys, k1) == GroupBy(ys, k2)
    requires 0 <= j < |Keys(ys, k1)| && k1(x) == Keys(ys, k1)[j]
    ensures |Keys(ys, k2)| == |Keys(ys, k1)| && k2(x) == Keys(ys, k2)[j]
  {
    BucketsAreClasses(ys, k1);
    BucketsAreClasses(ys, k2);
    var ps := Positions(ys, k1, Keys(ys, k1)[j]);
    var xs := ys + [x];
    assert |GroupBy(ys, k1)[j]| == |ps| > 0;
    assert GroupBy(ys, k1)[j][0] == ys[ps[0]] == xs[ps[0]];
    assert xs[|ys|] == x;
  }

  /** Grouping depends only on which elements share a key: two key functions
      that split the input into the same classes give the same buckets. */
  lemma {:induction false} GroupBySameClasses<T, K1, K2>(xs: seq<T>, k1: T -> K1, k2: T -> K2)
    requires SameClasses(xs, k1, k2)
    ensures GroupBy(xs, k1) == GroupBy(xs, k2)
  {
    if xs != [] {
      var ys, x := xs[..|xs| - 1], xs[|xs| - 1];
      assert xs == ys + [x];
      assert SameClasses(ys, k1, k2) by {
        forall i, j | 0 <= i < |ys| && 0 <= j < |ys|
          ensures k1(ys[i]) == k1(ys[j]) <==> k2(ys[i]) == k2(ys[j])
        {
          assert ys[i] == xs[i] && ys[j] == xs[j];
        }
      }
      GroupBySameClasses(ys, k1, k2);
      var ks1, ks2 := Keys(ys, k1), Keys(ys, k2);
      BucketsAreClasses(ys, k1);
      BucketsAreClasses(ys, k2);
      if k1(x) in ks1 {
        var j := IndexOf(ks1, k1(x));
        MatchingBucket(ys, x, k1, k2, j);
        assert IndexOf(ks2, k2(x)) == j;
        GroupByStepOld(ys, k1, x);
        GroupByStepOld(ys, k2, x);
      } else {
        assert k2(x) !in ks2 by {
          if k2(x) in ks2 {
            MatchingBucket(ys, x, k2, k1, IndexOf(ks2, k2(x)));
            assert false;
          }
        }
        GroupByStepNew(ys, k1, x);
        GroupByStepNew(ys, k2, x);
      }
    }
  }
}
