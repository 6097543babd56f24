/** Generic facts about filtering and grouping sequences: the list comprehensions with a
    condition, the `enumerate` index comprehensions and the dict-of-lists grouping loops of
    the school-records tool are all instances of these. */
module Sequences {

  /** `r` is the subsequence of `s` read at the strictly increasing indices `idx`. */
  ghost predicate SubsequenceAt<T>(r: seq<T>, s: seq<T>, idx: seq<nat>) {
    && |idx| == |r|
    && (forall k :: 0 <= k < |idx| ==> idx[k] < |s| && r[k] == s[idx[k]])
    && (forall k, l :: 0 <= k < l < |idx| ==> idx[k] < idx[l])
  }

  /** The elements of `s` that satisfy `p`, in their original order. */
  function Filter<T>(p: T -> bool, s: seq<T>): (r: seq<T>)
    ensures |r| <= |s|
    ensures forall i :: 0 <= i < |r| ==> p(r[i])
  {
    if s == [] then [] else (if p(s[0]) then [s[0]] else []) + Filter(p, s[1..])
  }

  /** The indices `i >= from` of `s` whose element satisfies `p`, in increasing order. */
  function Positions<T>(p: T -> bool, s: seq<T>, from: nat): (r: seq<nat>)
    decreases |s| - from
    ensures forall k :: 0 <= k < |r| ==> from <= r[k] < |s| && p(s[r[k]])
    ensures forall k, l :: 0 <= k < l < |r| ==> r[k] < r[l]
    ensures forall i :: from <= i < |s| && p(s[i]) ==> i in r
  {
    if from >= |s| then []
    else (if p(s[from]) then [from] else []) + Positions(p, s, from + 1)
  }

  /** When only the element at `i` passes, the positions from `from` on are `[i]` or none. */
  lemma {:induction false} PositionsSingle<T>(p: T -> bool, s: seq<T>, from: nat, i: nat)
    requires i < |s| && p(s[i])
    requires forall j :: 0 <= j < |s| && j != i ==> !p(s[j])
    ensures Positions(p, s, from) == if from <= i then [i] else []
    decreases |s| - from
  {
    if from < |s| {
      PositionsSingle(p, s, from + 1, i);
      var rest := Positions(p, s, from + 1);
      if from == i {
        assert Positions(p, s, from) == [from] + rest;
      } else {
        assert !p(s[from]);
        assert Positions(p, s, from) == [] + rest;
      }
    }
  }

  /** The suffix of `s` from index `i`, empty once `i` runs past the end. */
  function Tail<T>(s: seq<T>, i: nat): (r: seq<T>)
    ensures |r| == if i < |s| then |s| - i else 0
    ensures forall k :: 0 <= k < |r| ==> r[k] == s[i + k]
  {
    if i < |s| then s[i..] else []
  }

  lemma SplitLast<T>(s: seq<T>)
    requires s != []
    ensures s == s[..|s| - 1] + [s[|s| - 1]]
  {
  }

  /** Filtering is the same as reading `s` at the positions that satisfy `p`:
      the result is an order-preserving subsequence, taken at exactly those indices. */
  lemma {:induction false} FilterAtPositions<T>(p: T -> bool, s: seq<T>, from: nat)
    requires from <= |s|
    ensures SubsequenceAt(Filter(p, s[from..]), s, Positions(p, s, from))
    decreases |s| - from
  {
    if from < |s| {
      FilterAtPositions(p, s, from + 1);
      var rest, idx := Filter(p, s[from + 1..]), Positions(p, s, from + 1);
      assert s[from..][1..] == s[from + 1..];
      assert Filter(p, s[from..]) == (if p(s[from]) then [s[from]] else []) + rest;
      assert Positions(p, s, from) == (if p(s[from]) then [from] else []) + idx;
      if p(s[from]) {
        SubsequenceCons(rest, s, idx, from);
      }
    }
  }

  lemma SubsequenceCons<T>(r: seq<T>, s: seq<T>, idx: seq<nat>, i: nat)
    requires SubsequenceAt(r, s, idx)
    requires i < |s|
    requires forall k :: 0 <= k < |idx| ==> i < idx[k]
    ensures SubsequenceAt([s[i]] + r, s, [i] + idx)
  {
    var r', ix := [s[i]] + r, [i] + idx;
    forall k | 0 <= k < |ix| ensures ix[k] < |s| && r'[k] == s[ix[k]] {
      if k > 0 { assert ix[k] == idx[k - 1] && r'[k] == r[k - 1]; }
    }
    forall k, l | 0 <= k < l < |ix| ensures ix[k] < ix[l] {
      assert ix[l] == idx[l - 1];
      if k > 0 { assert ix[k] == idx[k - 1]; }
    }
  }

  /** An element is kept exactly when it occurs in the input and satisfies `p`. */
  lemma {:induction false} FilterMembership<T>(p: T -> bool, s: seq<T>, x: T)
    ensures x in Filter(p, s) <==> x in s && p(x)
  {
    if s != [] {
      FilterMembership(p, s[1..], x);
      assert s == [s[0]] + s[1..];
    }
  }

  lemma {:induction false} FilterConcat<T>(p: T -> bool, a: seq<T>, b: seq<T>)
    ensures Filter(p, a + b) == Filter(p, a) + Filter(p, b)
  {
    if a != [] {
      assert (a + b)[0] == a[0];
      assert (a + b)[1..] == a[1..] + b;
      FilterConcat(p, a[1..], b);
    } else {
      assert a + b == b;
    }
  }

  /** Filtering a sequence every element of which already satisfies `p` changes nothing. */
  lemma {:induction false} FilterKeepsAll<T>(p: T -> bool, s: seq<T>)
    requires forall i :: 0 <= i < |s| ==> p(s[i])
    ensures Filter(p, s) == s
  {
    if s != [] {
      FilterKeepsAll(p, s[1..]);
    }
  }

  /** Re-applying a filter to its own result returns the same result. */
  lemma FilterIdempotent<T>(p: T -> bool, s: seq<T>)
    ensures Filter(p, Filter(p, s)) == Filter(p, s)
  {
    FilterKeepsAll(p, Filter(p, s));
  }

  /** A filter that no element passes keeps nothing. */
  lemma {:induction false} FilterNone<T>(p: T -> bool, s: seq<T>)
    requires forall i :: 0 <= i < |s| ==> !p(s[i])
    ensures Filter(p, s) == []
  {
    if s != [] {
      FilterNone(p, s[1..]);
    }
  }

  /** The filtered sequence is `s` read at exactly the indices whose element passes. */
  lemma FilterSubsequence<T>(p: T -> bool, s: seq<T>)
    ensures SubsequenceAt(Filter(p, s), s, Positions(p, s, 0))
  {
    FilterAtPositions(p, s, 0);
    assert s[0..] == s;
  }

  /** Filtering a suffix: judge its first element, then filter the rest. */
  lemma FilterTailStep<T>(p: T -> bool, s: seq<T>, i: nat)
    requires i < |s|
    ensures Filter(p, Tail(s, i)) == (if p(s[i]) then [s[i]] else []) + Filter(p, Tail(s, i + 1))
  {
    assert Tail(s, i)[1..] == Tail(s, i + 1);
  }

  lemma ConcatAssoc<T>(a: seq<T>, b: seq<T>, c: seq<T>)
    ensures (a + b) + c == a + (b + c)
  {
  }

  /** The sum of `f` over the elements of `s`, Python's `sum`. */
  function Total<T>(s: seq<T>, f: T -> int): int {
    if s == [] then 0 else Total(s[..|s| - 1], f) + f(s[|s| - 1])
  }

  lemma {:induction false} TotalConcat<T>(a: seq<T>, b: seq<T>, f: T -> int)
    ensures Total(a + b, f) == Total(a, f) + Total(b, f)
  {
    if b == [] {
      assert a + b == a;
    } else {
      assert (a + b)[..|a + b| - 1] == a + b[..|b| - 1];
      TotalConcat(a, b[..|b| - 1], f);
    }
  }

  /** `list.pop(i)`: `s` without its element at `i`. */
  function RemoveAt<T>(s: seq<T>, i: nat): (r: seq<T>)
    requires i < |s|
    ensures |r| == |s| - 1
    ensures forall j :: 0 <= j < i ==> r[j] == s[j]
    ensures forall j :: i <= j < |r| ==> r[j] == s[j + 1]
  {
    s[..i] + s[i + 1..]
  }

  /** `list.insert(i, x)`: `x` placed before the element at `i`. */
  function InsertAt<T>(s: seq<T>, i: nat, x: T): (r: seq<T>)
    requires i <= |s|
    ensures |r| == |s| + 1 && r[i] == x
    ensures forall j :: 0 <= j < i ==> r[j] == s[j]
    ensures forall j :: i < j < |r| ==> r[j] == s[j - 1]
  {
    s[..i] + [x] + s[i..]
  }

  /** Inserting the removed element where it was restores the sequence. */
  lemma InsertRemoved<T>(s: seq<T>, i: nat)
    requires i < |s|
    ensures InsertAt(RemoveAt(s, i), i, s[i]) == s
  {
  }

  /** The distinct keys of `s` in order of first appearance (the insertion order of a
      Python dict filled by one pass over `s`). */
  function Keys<T, K(==)>(s: seq<T>, key: T -> K): (r: seq<K>)
    ensures forall i :: 0 <= i < |s| ==> key(s[i]) in r
    ensures forall k :: k in r ==> exists i :: 0 <= i < |s| && key(s[i]) == k
    ensures forall k, l :: 0 <= k < l < |r| ==> r[k] != r[l]
  {
    if s == [] then []
    else
      var ks := Keys(s[..|s| - 1], key);
      if key(s[|s| - 1]) in ks then ks else ks + [key(s[|s| - 1])]
  }

  /** The first key is that of the first element. */
  lemma {:induction false} KeysFirst<T, K>(s: seq<T>, key: T -> K)
    requires s != []
    ensures Keys(s, key) != [] && Keys(s, key)[0] == key(s[0])
  {
    if |s| > 1 {
      var init := s[..|s| - 1];
      assert init[0] == s[0];
      KeysFirst(init, key);
    }
  }

  /** The elements of `s` whose key is `k`, in their original order. */
  function Bucket<T, K(==)>(s: seq<T>, key: T -> K, k: K): (r: seq<T>)
  {
    Filter(x => key(x) == k, s)
  }

  lemma BucketSnoc<T, K>(s: seq<T>, x: T, key: T -> K, k: K)
    ensures Bucket(s + [x], key, k) == Bucket(s, key, k) + (if key(x) == k then [x] else [])
  {
    FilterConcat(y => key(y) == k, s, [x]);
  }

  /** A key that no element carries has an empty bucket. */
  lemma BucketNone<T, K>(s: seq<T>, key: T -> K, k: K)
    requires forall i :: 0 <= i < |s| ==> key(s[i]) != k
    ensures Bucket(s, key, k) == []
  {
    FilterNone(x => key(x) == k, s);
  }

  /** Every element sits in the bucket of its own key and in no other. */
  lemma BucketMembership<T, K>(s: seq<T>, key: T -> K, k: K, x: T)
    ensures x in Bucket(s, key, k) <==> x in s && key(x) == k
  {
    FilterMembership(y => key(y) == k, s, x);
  }

  /** The multiset union of the buckets named by `ks`. */
  ghost function BucketUnion<T, K>(s: seq<T>, key: T -> K, ks: seq<K>): multiset<T>
  {
    if ks == [] then multiset{}
    else BucketUnion(s, key, ks[..|ks| - 1]) + multiset(Bucket(s, key, ks[|ks| - 1]))
  }

  /** The total size of the buckets named by `ks`. */
  function BucketSizes<T, K(==)>(s: seq<T>, key: T -> K, ks: seq<K>): nat
  {
    if ks == [] then 0
    else BucketSizes(s, key, ks[..|ks| - 1]) + |Bucket(s, key, ks[|ks| - 1])|
  }

  /** Dropping the last of distinct elements keeps them distinct, and the last is not
      among the others. */
  lemma DistinctInit<K>(ks: seq<K>, init: seq<K>)
    requires ks != [] && init == ks[..|ks| - 1]
    requires forall k, l :: 0 <= k < l < |ks| ==> ks[k] != ks[l]
    ensures forall k, l :: 0 <= k < l < |init| ==> init[k] != init[l]
    ensures ks[|ks| - 1] !in init
  {
  }

  lemma {:induction false} BucketUnionSnoc<T, K>(s: seq<T>, x: T, key: T -> K, ks: seq<K>)
    requires forall k, l :: 0 <= k < l < |ks| ==> ks[k] != ks[l]
    ensures BucketUnion(s + [x], key, ks)
         == BucketUnion(s, key, ks) + (if key(x) in ks then multiset{x} else multiset{})
  {
    if ks != [] {
      var init, last := ks[..|ks| - 1], ks[|ks| - 1];
      var before, b := BucketUnion(s, key, init), multiset(Bucket(s, key, last));
      var e := if key(x) in init then multiset{x} else multiset{};
      var f := if key(x) == last then multiset{x} else multiset{};
      assert BucketUnion(s + [x], key, init) == before + e by {
        DistinctInit(ks, init);
        BucketUnionSnoc(s, x, key, init);
      }
      assert multiset(Bucket(s + [x], key, last)) == b + f by {
        BucketSnoc(s, x, key, last);
      }
      assert e + f == if key(x) in ks then multiset{x} else multiset{} by {
        DistinctInit(ks, init);
        assert ks == init + [last];
      }
      assert BucketUnion(s + [x], key, ks) == (before + e) + (b + f);
      MultisetRegroup(before, b, e, f);
    }
  }

  lemma MultisetRegroup<T>(a: multiset<T>, b: multiset<T>, e: multiset<T>, f: multiset<T>)
    ensures (a + e) + (b + f) == (a + b) + (e + f)
  {
  }

  /** A key that no element carries has an empty bucket. */
  lemma BucketOfAbsentKey<T, K>(s: seq<T>, key: T -> K, k: K)
    requires k !in Keys(s, key)
    ensures Bucket(s, key, k) == []
  {
    var b := Bucket(s, key, k);
    if b != [] {
      FilterMembership(y => key(y) == k, s, b[0]);
    }
  }

  /** The bucket of a key that occurs is never empty. */
  lemma BucketOfKey<T, K>(s: seq<T>, key: T -> K, k: K)
    requires k in Keys(s, key)
    ensures Bucket(s, key, k) != []
  {
    var i :| 0 <= i < |s| && key(s[i]) == k;
    FilterMembership(y => key(y) == k, s, s[i]);
  }

  /** The buckets partition the sequence: their multiset union is exactly `s`,
      so every element lies in exactly one bucket, as often as it occurs in `s`. */
  lemma {:induction false} BucketsPartition<T, K>(s: seq<T>, key: T -> K)
    ensures BucketUnion(s, key, Keys(s, key)) == multiset(s)
  {
    if s != [] {
      var init, x := s[..|s| - 1], s[|s| - 1];
      assert s == init + [x];
      var ks := Keys(init, key);
      BucketsPartition(init, key);
      BucketUnionSnoc(init, x, key, ks);
      if key(x) !in ks {
        BucketSnoc(init, x, key, key(x));
        BucketOfAbsentKey(init, key, key(x));
        var ks' := ks + [key(x)];
        assert ks'[..|ks|] == ks;
        assert BucketUnion(s, key, ks') == BucketUnion(s, key, ks) + multiset(Bucket(s, key, key(x)));
      }
    }
  }

  lemma {:induction false} BucketSizesUnion<T, K>(s: seq<T>, key: T -> K, ks: seq<K>)
    ensures |BucketUnion(s, key, ks)| == BucketSizes(s, key, ks)
  {
    if ks != [] {
      BucketSizesUnion(s, key, ks[..|ks| - 1]);
    }
  }

  /** The bucket sizes add up to the length of the sequence. */
  lemma BucketSizesSum<T, K>(s: seq<T>, key: T -> K)
    ensures BucketSizes(s, key, Keys(s, key)) == |s|
  {
    BucketsPartition(s, key);
    BucketSizesUnion(s, key, Keys(s, key));
  }
}
