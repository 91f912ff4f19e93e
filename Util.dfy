/** Counting facts shared by the graph and the grid models: a list of
    pairwise different indices below n has at most n entries. The traversal
    buffers of the library are sized by this bound. */
module Util {

  /** The entries of s are pairwise different. */
  predicate Distinct<T(==)>(s: seq<T>) {
    forall i, j :: 0 <= i < j < |s| ==> s[i] != s[j]
  }

  /** Every entry of s lies in [0, n). */
  predicate AllBelow(s: seq<int>, n: int) {
    forall i :: 0 <= i < |s| ==> 0 <= s[i] < n
  }

  lemma CardSubset<T>(a: set<T>, b: set<T>)
    requires a <= b
    ensures |a| <= |b|
    decreases a
  {
    if a != {} {
      var x :| x in a;
      CardSubset(a - {x}, b - {x});
    }
  }

  /** The indices 0 .. n-1. */
  ghost function Range(n: nat): (r: set<int>)
    ensures |r| == n
    ensures forall i :: i in r <==> 0 <= i < n
  {
    if n == 0 then {} else Range(n - 1) + {n - 1}
  }

  lemma {:induction false} DistinctCard<T>(s: seq<T>)
    requires Distinct(s)
    ensures |set x | x in s| == |s|
  {
    if s != [] {
      var init := s[..|s| - 1];
      DistinctCard(init);
      assert (set x | x in s) == (set x | x in init) + {s[|s| - 1]};
      assert s[|s| - 1] !in init;
    }
  }

  /** Pigeonhole: a list of pairwise different indices below n has at most n
      entries, and fewer than n when some index below n is missing from it. */
  lemma DistinctBelowBound(s: seq<int>, n: nat)
    requires Distinct(s) && AllBelow(s, n)
    ensures |s| <= n
    ensures (exists m :: 0 <= m < n && m !in s) ==> |s| < n
  {
    DistinctCard(s);
    var elems := set x | x in s;
    var range := Range(n);
    CardSubset(elems, range);
    if m :| 0 <= m < n && m !in s {
      CardSubset(elems, range - {m});
    }
  }

  /** A sequence of indices that starts inside a set (given by its marks) and
      ends outside it crosses the border somewhere: some entry is inside and
      the next one is not. */
  lemma {:induction false} FirstLeaving(p: seq<int>, inside: seq<bool>) returns (j: int)
    requires |p| >= 1 && AllBelow(p, |inside|) && inside[p[0]] && !inside[p[|p| - 1]]
    ensures 0 < j < |p| && inside[p[j - 1]] && !inside[p[j]]
  {
    if !inside[p[1]] {
      j := 1;
    } else {
      var j' := FirstLeaving(p[1..], inside);
      j := j' + 1;
    }
  }

  /** The array a holds the values s. */
  ghost predicate Mirrors<T>(a: array<T>, s: seq<T>)
    reads a
  {
    a.Length == |s| && forall k :: 0 <= k < |s| ==> a[k] == s[k]
  }

  /** The first |s| cells of a hold the values s. */
  ghost predicate MirrorsPrefix<T>(a: array<T>, s: seq<T>)
    reads a
  {
    |s| <= a.Length && forall k :: 0 <= k < |s| ==> a[k] == s[k]
  }

  /** The last of the mirrored entries. */
  lemma MirrorsLast<T>(arr: array<T>, s: seq<T>)
    requires MirrorsPrefix(arr, s) && |s| > 0
    ensures arr[|s| - 1] == s[|s| - 1] && s[|s| - 1] in s
  {
  }

  /** Appending one entry after a joined sequence. */
  lemma AppendOne<T>(a: seq<T>, b: seq<T>, x: T)
    ensures a + (b + [x]) == a + b + [x]
  {
  }

  /** Moving the first entry of the middle part to the end of the first. */
  lemma ShiftFront<T>(a: seq<T>, f: seq<T>, n: seq<T>)
    requires |f| > 0
    ensures a + f + n == (a + [f[0]]) + (f[1..] + n)
  {
    assert f == [f[0]] + f[1..];
  }

  /** In a list of pairwise different entries, no entry is among those
      after it. */
  lemma DistinctTails<T>(s: seq<T>)
    requires Distinct(s)
    ensures forall k :: 0 < k <= |s| ==> s[k - 1] !in s[k..]
  {
  }

  /** A suffix is its first entry followed by the rest. */
  lemma SuffixCons<T>(s: seq<T>, k: int)
    requires 0 < k <= |s|
    ensures [s[k - 1]] + s[k..] == s[k - 1..]
  {
    assert s[k - 1..] == [s[k - 1]] + s[k..];
  }

  /** The entry of a mirrored a + b just past a is the first of b. */
  lemma MirrorsNext<T>(arr: array<T>, a: seq<T>, b: seq<T>)
    requires MirrorsPrefix(arr, a + b) && |b| > 0
    ensures arr[|a|] == b[0]
  {
    assert (a + b)[|a|] == b[0];
  }

  datatype Option<T> = None | Some(value: T)

  /** Two different indices below n missing from a list of pairwise
      different indices below n leave room for at most n - 2 entries. */
  lemma DistinctMissingTwo(s: seq<int>, n: nat, a: int, b: int)
    requires Distinct(s) && AllBelow(s, n)
    requires 0 <= a < n && 0 <= b < n && a != b && a !in s && b !in s
    ensures |s| <= n - 2
  {
    var s' := s + [a];
    assert b !in s';
    DistinctBelowBound(s', n);
  }

  /** The same crossing for a set given by its elements. */
  lemma {:induction false} FirstLeavingSet<T>(p: seq<T>, inside: set<T>) returns (j: int)
    requires |p| >= 1 && p[0] in inside && p[|p| - 1] !in inside
    ensures 0 < j < |p| && p[j - 1] in inside && p[j] !in inside
  {
    if p[1] !in inside {
      j := 1;
    } else {
      var j' := FirstLeavingSet(p[1..], inside);
      j := j' + 1;
    }
  }

  /** Pigeonhole over any universe: pairwise different entries drawn from a
      set u number at most |u|. */
  lemma DistinctWithin<T>(s: seq<T>, u: set<T>)
    requires Distinct(s) && forall k :: 0 <= k < |s| ==> s[k] in u
    ensures |s| <= |u|
  {
    DistinctCard(s);
    CardSubset((set x | x in s), u);
  }

  /** A concatenation has pairwise different entries exactly when both
      parts do and they share no entry. */
  lemma DistinctConcat<T>(a: seq<T>, b: seq<T>)
    ensures Distinct(a + b) <==> Distinct(a) && Distinct(b) && forall x :: x in a ==> x !in b
  {
    var ab := a + b;
    if Distinct(a) && Distinct(b) && forall x :: x in a ==> x !in b {
      forall i, j | 0 <= i < j < |ab| ensures ab[i] != ab[j] {
        if i < |a| && j >= |a| {
          assert ab[i] in a && ab[j] == b[j - |a|];
        } else if i >= |a| {
          assert ab[i] == b[i - |a|] && ab[j] == b[j - |a|];
        }
      }
    }
    if Distinct(ab) {
      forall i, j | 0 <= i < j < |a| ensures a[i] != a[j] {
        assert a[i] == ab[i] && a[j] == ab[j];
      }
      forall i, j | 0 <= i < j < |b| ensures b[i] != b[j] {
        assert b[i] == ab[i + |a|] && b[j] == ab[j + |a|];
      }
      forall i, j | 0 <= i < |a| && 0 <= j < |b| ensures a[i] != b[j] {
        assert a[i] == ab[i] && b[j] == ab[j + |a|];
      }
    }
  }
}
