/** Sequence helpers: element-wise mapping and first-occurrence de-duplication
    by a key, the loop shape `if key not in seen: out.append(x); seen.add(key)`
    that both the vector search and the RAG grouping use. */
module Seqs {
  function Min(a: nat, b: nat): nat {
    if a <= b then a else b
  }


  function Map<T, U>(f: T -> U, xs: seq<T>): (r: seq<U>)
    ensures |r| == |xs|
    ensures forall i :: 0 <= i < |xs| ==> r[i] == f(xs[i])
  {
    seq(|xs|, i requires 0 <= i < |xs| => f(xs[i]))
  }

  /** Keys of the elements before index `i`: the `seen` set after `i` steps. */
  function KeysBefore<T, K>(xs: seq<T>, key: T -> K, i: nat): set<K>
    requires i <= |xs|
  {
    set j | 0 <= j < i :: key(xs[j])
  }

  /** The element at index `m` is the first one carrying its key. */
  ghost predicate IsFirst<T, K>(xs: seq<T>, key: T -> K, m: nat)
    requires m < |xs|
  {
    forall j :: 0 <= j < m ==> key(xs[j]) != key(xs[m])
  }

  /** Elements of `xs[i..]` whose key is not yet `seen`, each key kept once,
      in first-seen order. */
  function FirstSeenFrom<T, K>(xs: seq<T>, key: T -> K, i: nat, seen: set<K>): seq<T>
    requires i <= |xs|
    decreases |xs| - i
  {
    if i == |xs| then []
    else if key(xs[i]) in seen then FirstSeenFrom(xs, key, i + 1, seen)
    else [xs[i]] + FirstSeenFrom(xs, key, i + 1, seen + {key(xs[i])})
  }

  function FirstSeen<T, K(==)>(xs: seq<T>, key: T -> K): seq<T> {
    FirstSeenFrom(xs, key, 0, {})
  }

  lemma KeysBeforeStep<T, K>(xs: seq<T>, key: T -> K, i: nat)
    requires i < |xs|
    ensures KeysBefore(xs, key, i + 1) == KeysBefore(xs, key, i) + {key(xs[i])}
  {
    assert key(xs[i]) in KeysBefore(xs, key, i + 1);
  }

  lemma KeysBeforeFirst<T, K>(xs: seq<T>, key: T -> K, m: nat)
    requires m < |xs|
    ensures IsFirst(xs, key, m) <==> key(xs[m]) !in KeysBefore(xs, key, m)
  {
  }

  /** The result of `FirstSeenFrom` is exactly the first occurrences at or
      after `i`, in their original order: `idx` lists their positions. */
  lemma {:induction false} FirstSeenFromIndices<T, K>(xs: seq<T>, key: T -> K, i: nat, seen: set<K>)
    returns (idx: seq<nat>)
    requires i <= |xs|
    requires seen == KeysBefore(xs, key, i)
    ensures |idx| == |FirstSeenFrom(xs, key, i, seen)|
    ensures forall j :: 0 <= j < |idx| ==>
      i <= idx[j] < |xs| && FirstSeenFrom(xs, key, i, seen)[j] == xs[idx[j]] && IsFirst(xs, key, idx[j])
    ensures forall a, b :: 0 <= a < b < |idx| ==> idx[a] < idx[b]
    ensures forall m :: i <= m < |xs| && IsFirst(xs, key, m) ==> m in idx
    decreases |xs| - i
  {
    if i == |xs| {
      idx := [];
    } else {
      KeysBeforeStep(xs, key, i);
      KeysBeforeFirst(xs, key, i);
      if key(xs[i]) in seen {
        idx := FirstSeenFromIndices(xs, key, i + 1, seen);
      } else {
        var rest := FirstSeenFromIndices(xs, key, i + 1, seen + {key(xs[i])});
        idx := [i] + rest;
      }
    }
  }

  /** `FirstSeen(xs, key)` holds exactly the first element of every key, in
      order of first occurrence. */
  lemma FirstSeenIndices<T, K>(xs: seq<T>, key: T -> K) returns (idx: seq<nat>)
    ensures |idx| == |FirstSeen(xs, key)|
    ensures forall j :: 0 <= j < |idx| ==>
      idx[j] < |xs| && FirstSeen(xs, key)[j] == xs[idx[j]] && IsFirst(xs, key, idx[j])
    ensures forall a, b :: 0 <= a < b < |idx| ==> idx[a] < idx[b]
    ensures forall m :: 0 <= m < |xs| && IsFirst(xs, key, m) ==> m in idx
  {
    assert KeysBefore(xs, key, 0) == {};
    idx := FirstSeenFromIndices(xs, key, 0, {});
  }

  /** No two elements of `FirstSeen(xs, key)` share a key. */
  lemma FirstSeenDistinct<T, K>(xs: seq<T>, key: T -> K)
    ensures forall a, b :: 0 <= a < b < |FirstSeen(xs, key)| ==>
      key(FirstSeen(xs, key)[a]) != key(FirstSeen(xs, key)[b])
  {
    var idx := FirstSeenIndices(xs, key);
    forall a, b | 0 <= a < b < |FirstSeen(xs, key)|
      ensures key(FirstSeen(xs, key)[a]) != key(FirstSeen(xs, key)[b])
    {
      assert idx[a] < idx[b] && IsFirst(xs, key, idx[b]);
    }
  }

  /** Every key of `xs` is carried by some element of `FirstSeen(xs, key)`,
      and every element of `FirstSeen(xs, key)` comes from `xs`. */
  lemma FirstSeenKeys<T, K>(xs: seq<T>, key: T -> K)
    ensures KeysBefore(FirstSeen(xs, key), key, |FirstSeen(xs, key)|) == KeysBefore(xs, key, |xs|)
  {
    var r := FirstSeen(xs, key);
    var idx := FirstSeenIndices(xs, key);
    forall k | k in KeysBefore(xs, key, |xs|) ensures k in KeysBefore(r, key, |r|) {
      var m := FirstIndexOf(xs, key, k);
      var j :| 0 <= j < |idx| && idx[j] == m;
      assert key(r[j]) == k;
    }
    forall k | k in KeysBefore(r, key, |r|) ensures k in KeysBefore(xs, key, |xs|) {
      var j :| 0 <= j < |r| && key(r[j]) == k;
      assert key(xs[idx[j]]) == k;
    }
  }

  /** The first index carrying key `k`, for a key that occurs. */
  lemma FirstIndexOf<T, K>(xs: seq<T>, key: T -> K, k: K) returns (m: nat)
    requires k in KeysBefore(xs, key, |xs|)
    ensures m < |xs| && key(xs[m]) == k && IsFirst(xs, key, m)
  {
    var n: nat :| n < |xs| && key(xs[n]) == k;
    m := n;
    while exists j :: 0 <= j < m && key(xs[j]) == k
      invariant m < |xs| && key(xs[m]) == k
      decreases m
    {
      var j :| 0 <= j < m && key(xs[j]) == k;
      m := j;
    }
  }
}
