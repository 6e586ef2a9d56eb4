/**
  Python's `heapq.nlargest(n, items, key=key)`, described by its documented
  result `sorted(items, key=key, reverse=True)[:n]`: the `n` entries with the
  largest keys, largest first, where an earlier entry of `items` goes before a
  later one with the same key.
 */
module Heapq {
  import opened Seqs

  /** How many entries `nlargest` returns: none for `n <= 0`, otherwise `min(n, size)`. */
  function Quota(n: int, size: nat): (q: nat)
    ensures q <= size
    ensures n >= 0 ==> q <= n
    ensures n > 0 ==> q == size || q == n
    ensures n <= 0 ==> q == 0
  {
    if n <= 0 then 0 else if n < size then n else size
  }

  /** `x` comes out of `nlargest` ahead of `y`: a larger key, or the same key and earlier in `items`. */
  predicate Precedes<T(==)>(items: seq<T>, key: map<T, int>, x: T, y: T)
    requires x in items && y in items && x in key && y in key
  {
    key[x] > key[y] || (key[x] == key[y] && IndexOf(items, x) < IndexOf(items, y))
  }

  /** Every entry of `items` has a key (`key` is a dictionary and `items` its keys). */
  predicate Keyed<T(==)>(items: seq<T>, key: map<T, int>) {
    forall x :: x in items ==> x in key
  }

  /**
    `top` is what `nlargest(n, items, key)` returns: `Quota(n, |items|)`
    distinct entries of `items`, listed in `Precedes` order, each of them ahead
    of every entry left out.
   */
  ghost predicate IsTopK<T>(n: int, items: seq<T>, key: map<T, int>, top: seq<T>)
    requires Keyed(items, key)
  {
    && |top| == Quota(n, |items|)
    && Distinct(top)
    && (forall x :: x in top ==> x in items)
    && (forall a, b :: 0 <= a < b < |top| ==> Precedes(items, key, top[a], top[b]))
    && (forall x, y :: x in top && y in items && y !in top ==> Precedes(items, key, x, y))
  }

  /**
    Selects the entries one at a time: each round scans `items` for the first
    entry with the largest key among those not yet taken, the way `max` picks
    the first maximal element.
   */
  method NLargest<T(==)>(n: int, items: seq<T>, key: map<T, int>) returns (top: seq<T>)
    requires Distinct(items) && Keyed(items, key)
    ensures IsTopK(n, items, key, top)
  {
    forall i | 0 <= i < |items| ensures IndexOf(items, items[i]) == i {
      IndexOfAt(items, i);
    }
    var quota := Quota(n, |items|);
    top := [];
    while |top| < quota
      invariant |top| <= quota
      invariant Distinct(top)
      invariant forall x :: x in top ==> x in items
      invariant forall a, b :: 0 <= a < b < |top| ==> Precedes(items, key, top[a], top[b])
      invariant forall x, y :: x in top && y in items && y !in top ==> Precedes(items, key, x, y)
      decreases quota - |top|
    {
      var best := -1;
      var j := 0;
      while j < |items|
        invariant 0 <= j <= |items|
        invariant -1 <= best < j
        invariant best == -1 ==> forall i :: 0 <= i < j ==> items[i] in top
        invariant best >= 0 ==> items[best] !in top
        invariant best >= 0 ==> forall i :: 0 <= i < j && items[i] !in top && i != best ==>
                    Precedes(items, key, items[best], items[i])
      {
        if items[j] !in top && (best < 0 || key[items[j]] > key[items[best]]) {
          best := j;
        }
        j := j + 1;
      }
      if best < 0 {
        DistinctSubsetLength(items, top);
        assert false;
      }
      var pick := items[best];
      forall y | y in items && y !in top + [pick]
        ensures Precedes(items, key, pick, y)
      {
        var i := IndexOf(items, y);
        assert items[i] == y && i != best;
      }
      DistinctAppend(top, pick);
      top := top + [pick];
    }
  }

  /** Appending an element a list without repeats lacks keeps it without repeats. */
  lemma DistinctAppend<T>(s: seq<T>, x: T)
    requires Distinct(s) && x !in s
    ensures Distinct(s + [x])
  {
    var r := s + [x];
    forall a, b | 0 <= a < b < |r| ensures r[a] != r[b] {
      if b < |s| {
        assert r[a] == s[a] && r[b] == s[b];
      } else {
        assert r[a] == s[a] && r[b] == x;
      }
    }
  }
}
