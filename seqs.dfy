/**
  Sequence helpers shared by the summariser: occurrence counts, Python's
  `list.index`, distinctness, and `list.sort(key=within.index)`.
 */
module Seqs {

  /** Number of occurrences of `x` in `s`. */
  function Count<T(==)>(s: seq<T>, x: T): (c: nat)
    ensures c <= |s|
    ensures c > 0 <==> x in s
  {
    if s == [] then 0
    else
      assert s == s[..|s| - 1] + [s[|s| - 1]];
      Count(s[..|s| - 1], x) + (if s[|s| - 1] == x then 1 else 0)
  }

  /** Appending `y` adds one occurrence of `y` and none of anything else. */
  lemma CountAppend<T>(s: seq<T>, y: T, x: T)
    ensures Count(s + [y], x) == Count(s, x) + (if x == y then 1 else 0)
  {
    assert (s + [y])[..|s|] == s;
  }

  /**
    Python's `s.index(x)`: the position of the first occurrence of `x`. That no
    earlier position holds `x` is the lemma `IndexOfEarliest`.
   */
  function IndexOf<T(==)>(s: seq<T>, x: T): (i: nat)
    requires x in s
    ensures i < |s| && s[i] == x
  {
    if s[0] == x then 0 else 1 + IndexOf(s[1..], x)
  }

  /** No occurrence of `x` comes before `s.index(x)`. */
  lemma {:induction false} IndexOfEarliest<T>(s: seq<T>, x: T, j: nat)
    requires x in s && j < IndexOf(s, x)
    ensures s[j] != x
  {
    if j > 0 {
      IndexOfEarliest(s[1..], x, j - 1);
    }
  }

  /** No element occurs twice. */
  predicate Distinct<T(==)>(s: seq<T>) {
    forall i, j :: 0 <= i < j < |s| ==> s[i] != s[j]
  }

  /** In a sequence without repeats, `index` inverts indexing. */
  lemma IndexOfAt<T>(s: seq<T>, i: nat)
    requires Distinct(s) && i < |s|
    ensures IndexOf(s, s[i]) == i
  {
    var k := IndexOf(s, s[i]);
    assert s[k] == s[i];
  }

  /** An element found in the first `n` entries has its first occurrence there. */
  lemma IndexOfBefore<T>(s: seq<T>, x: T, n: nat)
    requires n <= |s| && x in s[..n]
    ensures x in s && IndexOf(s, x) < n
  {
    var k :| 0 <= k < n && s[..n][k] == x;
    if IndexOf(s, x) > k {
      IndexOfEarliest(s, x, k);
    }
  }

  /** An entry that does not occur earlier is the first occurrence of its element. */
  lemma IndexOfFirst<T>(s: seq<T>, i: nat)
    requires i < |s| && s[i] !in s[..i]
    ensures IndexOf(s, s[i]) == i
  {
    var k := IndexOf(s, s[i]);
    if i < k {
      IndexOfEarliest(s, s[i], i);
    }
  }

  /** A sequence has at least as many entries as distinct elements. */
  lemma {:induction false} CardinalityBound<T>(s: seq<T>)
    ensures |set x | x in s| <= |s|
  {
    if s != [] {
      var p := s[..|s| - 1];
      CardinalityBound(p);
      assert s == p + [s[|s| - 1]];
      assert (set x | x in s) == (set x | x in p) + {s[|s| - 1]};
    }
  }

  /** A sequence without repeats has exactly as many distinct elements as entries. */
  lemma {:induction false} DistinctCardinality<T>(s: seq<T>)
    requires Distinct(s)
    ensures |set x | x in s| == |s|
  {
    if s != [] {
      var p := s[..|s| - 1];
      assert Distinct(p);
      DistinctCardinality(p);
      assert s == p + [s[|s| - 1]];
      assert s[|s| - 1] !in p;
      assert (set x | x in s) == (set x | x in p) + {s[|s| - 1]};
    }
  }

  /** A sequence without repeats whose elements all lie in `b` is no longer than `b`. */
  lemma DistinctSubsetLength<T>(a: seq<T>, b: seq<T>)
    requires Distinct(a)
    requires forall x :: x in a ==> x in b
    ensures |a| <= |b|
  {
    var sa, sb := set x | x in a, set x | x in b;
    DistinctCardinality(a);
    CardinalityBound(b);
    assert sb == sa + (sb - sa);
    assert |sa| <= |sb|;
  }

  /** Every element of `s` occurs in `within`, and `s` lists them by first position there. */
  predicate OrderedByIndex<T(==)>(s: seq<T>, within: seq<T>) {
    && (forall x :: x in s ==> x in within)
    && forall a, b :: 0 <= a < b < |s| ==> IndexOf(within, s[a]) <= IndexOf(within, s[b])
  }

  /** Every element of `s` occurs in `within`, and `s` lists them by strictly increasing first position there. */
  predicate StrictlyOrderedByIndex<T(==)>(s: seq<T>, within: seq<T>) {
    && (forall x :: x in s ==> x in within)
    && forall a, b :: 0 <= a < b < |s| ==> IndexOf(within, s[a]) < IndexOf(within, s[b])
  }

  /** Where the entries of `s` land when `x` is inserted at position `p`. */
  lemma InsertAt<T>(s: seq<T>, p: nat, x: T)
    requires p <= |s|
    ensures var r := s[..p] + [x] + s[p..];
      && |r| == |s| + 1 && r[p] == x
      && (forall q :: 0 <= q < p ==> r[q] == s[q])
      && (forall q :: p < q < |r| ==> r[q] == s[q - 1])
  {
  }

  /** Inserting `x` after every element whose position is not later keeps the order. */
  lemma InsertOrdered<T>(s: seq<T>, p: nat, x: T, within: seq<T>)
    requires OrderedByIndex(s, within) && x in within && p <= |s|
    requires p > 0 ==> IndexOf(within, s[p - 1]) <= IndexOf(within, x)
    requires forall q :: p <= q < |s| ==> IndexOf(within, s[q]) > IndexOf(within, x)
    ensures OrderedByIndex(s[..p] + [x] + s[p..], within)
  {
    var r := s[..p] + [x] + s[p..];
    InsertAt(s, p, x);
    forall y | y in r ensures y in within {
      var q :| 0 <= q < |r| && r[q] == y;
      if q < p {
        assert s[q] in s;
      } else if q > p {
        assert s[q - 1] in s;
      }
    }
    forall a, b | 0 <= a < b < |r|
      ensures IndexOf(within, r[a]) <= IndexOf(within, r[b])
    {
      if b < p {
        assert r[a] == s[a] && r[b] == s[b];
      } else if b == p {
        assert r[a] == s[a];
        assert IndexOf(within, s[a]) <= IndexOf(within, s[p - 1]);
      } else if a < p {
        assert r[a] == s[a] && r[b] == s[b - 1];
      } else if a == p {
        assert r[b] == s[b - 1];
      } else {
        assert r[a] == s[a - 1] && r[b] == s[b - 1];
      }
    }
  }

  /**
    Python's `items.sort(key=within.index)`: a stable sort of `items` by the
    position of each item's first occurrence in `within`. Python raises
    `ValueError` for an item missing from `within`; the precondition excludes it.
   */
  method SortByIndex<T(==)>(items: seq<T>, within: seq<T>) returns (sorted: seq<T>)
    requires forall x :: x in items ==> x in within
    ensures multiset(sorted) == multiset(items)
    ensures OrderedByIndex(sorted, within)
    ensures Distinct(items) ==> Distinct(sorted)
  {
    sorted := [];
    var i := 0;
    while i < |items|
      invariant 0 <= i <= |items|
      invariant multiset(sorted) == multiset(items[..i])
      invariant OrderedByIndex(sorted, within)
      invariant Distinct(items[..i]) ==> Distinct(sorted)
    {
      assert items[..i + 1] == items[..i] + [items[i]];
      if Distinct(items[..i + 1]) {
        DistinctPrefix(items[..i], items[i]);
        assert items[i] !in multiset(sorted);
      }
      sorted := InsertByIndex(sorted, items[i], within);
      i := i + 1;
    }
    assert items[..i] == items;
  }

  /** One step of the insertion sort: `x` goes after every element not later than it. */
  method InsertByIndex<T(==)>(s: seq<T>, x: T, within: seq<T>) returns (r: seq<T>)
    requires OrderedByIndex(s, within) && x in within
    ensures multiset(r) == multiset(s) + multiset{x}
    ensures OrderedByIndex(r, within)
    ensures Distinct(s) && x !in s ==> Distinct(r)
  {
    var p := InsertionPoint(s, x, within);
    InsertMultiset(s, p, x);
    InsertOrdered(s, p, x, within);
    InsertDistinct(s, p, x);
    r := s[..p] + [x] + s[p..];
  }

  /** Scans back from the end past every element whose position is later than that of `x`. */
  method InsertionPoint<T(==)>(s: seq<T>, x: T, within: seq<T>) returns (p: nat)
    requires OrderedByIndex(s, within) && x in within
    ensures p <= |s|
    ensures p > 0 ==> IndexOf(within, s[p - 1]) <= IndexOf(within, x)
    ensures forall q :: p <= q < |s| ==> IndexOf(within, s[q]) > IndexOf(within, x)
  {
    var key := IndexOf(within, x);
    p := |s|;
    while p > 0 && IndexOf(within, s[p - 1]) > key
      invariant 0 <= p <= |s|
      invariant forall q :: p <= q < |s| ==> IndexOf(within, s[q]) > key
    {
      p := p - 1;
    }
  }

  /** Inserting adds one occurrence of `x` and keeps everything else. */
  lemma InsertMultiset<T>(s: seq<T>, p: nat, x: T)
    requires p <= |s|
    ensures multiset(s[..p] + [x] + s[p..]) == multiset(s) + multiset{x}
  {
    assert s == s[..p] + s[p..];
  }

  /** Inserting an element a list without repeats lacks keeps it without repeats. */
  lemma InsertDistinct<T>(s: seq<T>, p: nat, x: T)
    requires p <= |s|
    ensures Distinct(s) && x !in s ==> Distinct(s[..p] + [x] + s[p..])
  {
    if Distinct(s) && x !in s {
      var r := s[..p] + [x] + s[p..];
      InsertAt(s, p, x);
      forall a, b | 0 <= a < b < |r| ensures r[a] != r[b] {
        if b < p {
          assert r[a] == s[a] && r[b] == s[b];
        } else if b == p {
          assert r[a] == s[a] && s[a] in s;
        } else if a < p {
          assert r[a] == s[a] && r[b] == s[b - 1];
        } else if a == p {
          assert r[b] == s[b - 1] && s[b - 1] in s;
        } else {
          assert r[a] == s[a - 1] && r[b] == s[b - 1];
        }
      }
    }
  }

  /** Dropping the last element of a list without repeats leaves a list without repeats lacking it. */
  lemma DistinctPrefix<T>(s: seq<T>, x: T)
    requires Distinct(s + [x])
    ensures Distinct(s) && x !in s
  {
    var n := |s|;
    forall a, b | 0 <= a < b < n ensures s[a] != s[b] {
      assert (s + [x])[a] == s[a] && (s + [x])[b] == s[b];
    }
    forall a | 0 <= a < n ensures s[a] != x {
      assert (s + [x])[a] == s[a] && (s + [x])[n] == x;
    }
  }

  /** The first element of a strictly ordered sequence has the smallest position. */
  lemma StrictlyOrderedFirst<T>(s: seq<T>, within: seq<T>, j: nat)
    requires StrictlyOrderedByIndex(s, within) && j < |s|
    ensures IndexOf(within, s[0]) <= IndexOf(within, s[j])
  {
    if j > 0 {
      assert IndexOf(within, s[0]) < IndexOf(within, s[j]);
    }
  }

  /** Dropping the first element of a strictly ordered sequence removes exactly that element. */
  lemma StrictlyOrderedTail<T>(s: seq<T>, within: seq<T>)
    requires StrictlyOrderedByIndex(s, within) && s != []
    ensures StrictlyOrderedByIndex(s[1..], within)
    ensures forall x :: x in s[1..] <==> x in s && x != s[0]
  {
    var t := s[1..];
    forall a, b | 0 <= a < b < |t| ensures IndexOf(within, t[a]) < IndexOf(within, t[b]) {
      assert t[a] == s[a + 1] && t[b] == s[b + 1];
    }
    forall x ensures x in t <==> x in s && x != s[0] {
      if x in t {
        var i :| 0 <= i < |t| && t[i] == x;
        assert IndexOf(within, s[0]) < IndexOf(within, s[i + 1]);
      }
      if x in s && x != s[0] {
        var i := IndexOf(s, x);
        assert t[i - 1] == x;
      }
    }
  }

  /** Two strictly ordered sequences with the same elements are equal. */
  lemma {:induction false} StrictlyOrderedUnique<T>(a: seq<T>, b: seq<T>, within: seq<T>)
    requires StrictlyOrderedByIndex(a, within) && StrictlyOrderedByIndex(b, within)
    requires forall x :: x in a <==> x in b
    ensures a == b
    decreases |a|
  {
    if b != [] {
      assert b[0] in b;
    }
    if a != [] {
      assert a[0] in a;
      StrictlyOrderedFirst(b, within, IndexOf(b, a[0]));
      StrictlyOrderedFirst(a, within, IndexOf(a, b[0]));
      assert a[0] == b[0];
      StrictlyOrderedTail(a, within);
      StrictlyOrderedTail(b, within);
      StrictlyOrderedUnique(a[1..], b[1..], within);
      assert a == [a[0]] + a[1..] && b == [b[0]] + b[1..];
    }
  }

  /** If whatever `a` has beyond `b` forces all of `b` into `a`, one of the two sets contains the other. */
  lemma Comparable<T>(a: set<T>, b: set<T>)
    requires forall x, y :: x in a && x !in b && y in b ==> y in a
    ensures a <= b || b <= a
  {
    if !(a <= b) {
      var x :| x in a && x !in b;
      forall y | y in b ensures y in a {
      }
    }
  }

  /** Of two sets of the same size, one containing the other, both are equal. */
  lemma ComparableEqualSize<T>(a: set<T>, b: set<T>)
    requires a <= b || b <= a
    requires |a| == |b|
    ensures a == b
  {
    if a <= b {
      assert b == a + (b - a);
    }
    if b <= a {
      assert a == b + (a - b);
    }
  }
}
