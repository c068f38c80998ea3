/** Sequence helpers used by several modules: reversal (the request log's
    newest-first listing, the web history's "oldest" view), order-keeping
    filtering (SQL WHERE, the web history's "pinned" view) and LIMIT. */
module Seqs {

  /** The elements of s in the opposite order. */
  function Reverse<T>(s: seq<T>): (r: seq<T>)
    ensures |r| == |s|
  {
    if s == [] then [] else Reverse(s[1..]) + [s[0]]
  }

  /** Element k of the reversal is element |s|-1-k of the original. */
  lemma {:induction false} ReverseAt<T>(s: seq<T>, k: int)
    requires 0 <= k < |s|
    ensures Reverse(s)[k] == s[|s| - 1 - k]
  {
    if k < |s| - 1 {
      ReverseAt(s[1..], k);
    }
  }

  /** Reversing twice gives back the sequence. */
  lemma ReverseReverse<T>(s: seq<T>)
    ensures Reverse(Reverse(s)) == s
  {
    forall k | 0 <= k < |s| ensures Reverse(Reverse(s))[k] == s[k] {
      ReverseAt(Reverse(s), k);
      ReverseAt(s, |s| - 1 - k);
    }
  }

  lemma ReverseSingleton<T>(x: T)
    ensures Reverse([x]) == [x]
  {
    assert [x][1..] == [];
  }

  /** Reversal keeps the multiset of elements. */
  lemma {:induction false} ReverseMultiset<T>(s: seq<T>)
    ensures multiset(Reverse(s)) == multiset(s)
  {
    if s != [] {
      ReverseMultiset(s[1..]);
      assert s == [s[0]] + s[1..];
    }
  }

  /** Reverses a in place with two indices moving towards each other
      (the swap loop of the request log's List, Array.prototype.reverse):
      a ends up holding its old contents in reverse order. */
  method ReverseInPlace<T>(a: array<T>)
    modifies a
    ensures a[..] == Reverse(old(a[..]))
  {
    ghost var s := a[..];
    var n := a.Length;
    var i, j := 0, n - 1;
    while i < j
      invariant 0 <= i <= j + 1 && j == n - 1 - i
      invariant forall k :: 0 <= k < i ==> a[k] == s[n - 1 - k]
      invariant forall k :: j < k < n ==> a[k] == s[n - 1 - k]
      invariant forall k :: i <= k <= j ==> a[k] == s[k]
    {
      a[i], a[j] := a[j], a[i];
      i, j := i + 1, j - 1;
    }
    forall k | 0 <= k < n
      ensures a[k] == Reverse(s)[k]
    {
      ReverseAt(s, k);
    }
  }

  /** The elements of s that satisfy f, in their original order
      (Array.prototype.filter, a SQL WHERE clause). */
  function Filter<T>(s: seq<T>, f: T -> bool): (r: seq<T>)
    ensures |r| <= |s|
    ensures forall i :: 0 <= i < |r| ==> f(r[i])
    ensures multiset(r) <= multiset(s)
  {
    if s == [] then []
    else
      assert s == [s[0]] + s[1..];
      (if f(s[0]) then [s[0]] else []) + Filter(s[1..], f)
  }

  /** Filtering a pair whose first element alone satisfies f. */
  lemma FilterFirstOfPair<T>(a: T, b: T, f: T -> bool)
    requires f(a) && !f(b)
    ensures Filter([a, b], f) == [a]
  {
    assert [a, b][1..] == [b];
    assert [b][1..] == [];
  }

  /** Filtering a pair whose second element alone satisfies f. */
  lemma FilterSecondOfPair<T>(a: T, b: T, f: T -> bool)
    requires !f(a) && f(b)
    ensures Filter([a, b], f) == [b]
  {
    assert [a, b][1..] == [b];
    assert [b][1..] == [];
  }

  /** Every element of s that satisfies f is kept. */
  lemma {:induction false} FilterKeeps<T>(s: seq<T>, f: T -> bool, x: T)
    requires x in s && f(x)
    ensures x in Filter(s, f)
  {
    if s[0] != x {
      FilterKeeps(s[1..], f, x);
    }
  }

  /** An element is in the filtered sequence exactly when it is in s and
      satisfies f. */
  lemma FilterMembers<T>(s: seq<T>, f: T -> bool, x: T)
    ensures x in Filter(s, f) <==> x in s && f(x)
  {
    if x in s && f(x) {
      FilterKeeps(s, f, x);
    }
    if x in Filter(s, f) {
      assert x in multiset(Filter(s, f));
    }
  }

  /** Filtering distributes over concatenation. */
  lemma {:induction false} FilterAppend<T>(a: seq<T>, b: seq<T>, f: T -> bool)
    ensures Filter(a + b, f) == Filter(a, f) + Filter(b, f)
  {
    if a != [] {
      assert (a + b)[0] == a[0] && (a + b)[1..] == a[1..] + b;
      FilterAppend(a[1..], b, f);
    } else {
      assert a + b == b;
    }
  }

  /** Nothing is dropped when every element satisfies f. */
  lemma {:induction false} FilterAll<T>(s: seq<T>, f: T -> bool)
    requires forall i :: 0 <= i < |s| ==> f(s[i])
    ensures Filter(s, f) == s
  {
    if s != [] {
      FilterAll(s[1..], f);
    }
  }

  /** SQL LIMIT n: the first n elements; a negative n means no limit. */
  function Take<T>(s: seq<T>, n: int): (r: seq<T>)
    ensures n >= 0 ==> |r| <= n
    ensures n < 0 || |s| <= n ==> r == s
    ensures |r| <= |s| && r == s[..|r|]
  {
    if n < 0 || |s| <= n then s else s[..n]
  }

  /** A relation that holds between every earlier and later element of s
      still holds after filtering, since filtering keeps the order. */
  lemma {:induction false} FilterKeepsPairwise<T>(s: seq<T>, f: T -> bool, R: (T, T) -> bool)
    requires forall i, j :: 0 <= i < j < |s| ==> R(s[i], s[j])
    ensures forall i, j :: 0 <= i < j < |Filter(s, f)| ==> R(Filter(s, f)[i], Filter(s, f)[j])
  {
    if s != [] {
      var rest := Filter(s[1..], f);
      FilterKeepsPairwise(s[1..], f, R);
      if f(s[0]) {
        var r := Filter(s, f);
        assert r == [s[0]] + rest;
        forall j | 0 < j < |r| ensures R(r[0], r[j]) {
          assert r[j] in multiset(s[1..]);
          var k :| 0 <= k < |s[1..]| && s[1..][k] == r[j];
          assert s[k + 1] == r[j];
        }
        forall i, j | 0 < i < j < |r| ensures R(r[i], r[j]) {
          assert r[i] == rest[i - 1] && r[j] == rest[j - 1];
        }
      } else {
        assert Filter(s, f) == rest;
      }
    }
  }

  /** Filtering by f and by its negation splits the multiset of s. */
  lemma {:induction false} FilterPartition<T>(s: seq<T>, f: T -> bool, g: T -> bool)
    requires forall x :: g(x) == !f(x)
    ensures multiset(Filter(s, f)) + multiset(Filter(s, g)) == multiset(s)
  {
    if s != [] {
      var x, t := s[0], s[1..];
      FilterPartition(t, f, g);
      assert s == [x] + t;
      if f(x) {
        assert Filter(s, f) == [x] + Filter(t, f);
        assert Filter(s, g) == Filter(t, g) by { assert !g(x); }
        MultisetCons(x, Filter(t, f), Filter(t, g), t);
      } else {
        assert Filter(s, f) == Filter(t, f);
        assert Filter(s, g) == [x] + Filter(t, g) by { assert g(x); }
        MultisetCons(x, Filter(t, g), Filter(t, f), t);
      }
    }
  }

  /** Putting x in front of either half of a split multiset puts it in
      front of the whole. */
  lemma MultisetCons<T>(x: T, a: seq<T>, b: seq<T>, t: seq<T>)
    requires multiset(a) + multiset(b) == multiset(t)
    ensures multiset([x] + a) + multiset(b) == multiset([x] + t)
    ensures multiset(b) + multiset([x] + a) == multiset([x] + t)
  {
    assert multiset([x] + a) == multiset{x} + multiset(a);
    assert multiset([x] + t) == multiset{x} + multiset(t);
  }

  /** An element of a pairwise-related sequence that LIMIT n cut off comes
      after everything kept, and it was cut off only because n elements
      were kept. */
  lemma TakeLeavesLater<T>(m: seq<T>, n: int, R: (T, T) -> bool, f: T)
    requires forall i, j :: 0 <= i < j < |m| ==> R(m[i], m[j])
    requires f in m && f !in Take(m, n)
    ensures |Take(m, n)| == n
    ensures forall e :: e in Take(m, n) ==> R(e, f)
  {
    var l := Take(m, n);
    var j :| 0 <= j < |m| && m[j] == f;
    forall e | e in l ensures R(e, f) {
      var i :| 0 <= i < |l| && l[i] == e;
      assert m[i] == e;
    }
  }
}
