/**
 * Facts about sequences of positions shared by both enumerators: the
 * lexicographic order in which a last-in-first-out work stack emits its
 * results, duplicate-freedom, and the "drawn from 0..n-1 without repetition"
 * view of a position sequence as a sub-multiset of Range(n).
 */
module Sequences {

  /** Strict lexicographic order on index tuples: `a` sorts before `b`. */
  predicate LexLess(a: seq<nat>, b: seq<nat>)
  {
    |a| > 0 && |b| > 0 && (a[0] < b[0] || (a[0] == b[0] && LexLess(a[1..], b[1..])))
  }

  /** Two tuples that agree up to `m` and differ at `m` are ordered by that position. */
  lemma {:induction false} LexLessAt(a: seq<nat>, b: seq<nat>, m: nat)
    requires m < |a| && m < |b| && a[..m] == b[..m] && a[m] < b[m]
    ensures LexLess(a, b)
  {
    if m > 0 {
      assert a[0] == a[..m][0] == b[..m][0] == b[0];
      assert a[1..][..m - 1] == a[..m][1..] == b[..m][1..] == b[1..][..m - 1];
      LexLessAt(a[1..], b[1..], m - 1);
    }
  }

  lemma {:induction false} LexLessIrreflexive(a: seq<nat>)
    ensures !LexLess(a, a)
  {
    if |a| > 0 {
      LexLessIrreflexive(a[1..]);
    }
  }

  /** Every later element sorts strictly before every earlier one. */
  ghost predicate Descending(ts: seq<seq<nat>>)
  {
    forall i, j :: 0 <= i < j < |ts| ==> LexLess(ts[j], ts[i])
  }

  ghost predicate Distinct<T>(s: seq<T>)
  {
    forall i, j :: 0 <= i < j < |s| ==> s[i] != s[j]
  }

  lemma DescendingConcat(a: seq<seq<nat>>, b: seq<seq<nat>>)
    requires Descending(a) && Descending(b)
    requires forall x, y :: x in a && y in b ==> LexLess(y, x)
    ensures Descending(a + b)
  {
    var c := a + b;
    forall i, j | 0 <= i < j < |c|
      ensures LexLess(c[j], c[i])
    {
      if j < |a| {
        assert c[i] == a[i] && c[j] == a[j];
      } else if i >= |a| {
        assert c[i] == b[i - |a|] && c[j] == b[j - |a|];
      } else {
        assert c[i] == a[i] && c[j] == b[j - |a|];
      }
    }
  }

  /** A strictly descending list of tuples lists no tuple twice. */
  lemma DescendingDistinct(ts: seq<seq<nat>>)
    requires Descending(ts)
    ensures Distinct(ts)
  {
    forall i, j | 0 <= i < j < |ts|
      ensures ts[i] != ts[j]
    {
      LexLessIrreflexive(ts[i]);
    }
  }

  /** n added k times: k * n spelled out, which keeps the stack-weight proofs linear. */
  function Copies(n: nat, k: nat): nat
  {
    if k == 0 then 0 else n + Copies(n, k - 1)
  }

  lemma ConcatAssociative<T>(a: seq<T>, b: seq<T>, c: seq<T>)
    ensures (a + b) + c == a + (b + c)
  {
  }

  /** The positions 0, 1, ..., n-1 in increasing order. */
  function Range(n: nat): (r: seq<nat>)
    ensures |r| == n && forall i :: 0 <= i < n ==> r[i] == i
  {
    if n == 0 then [] else Range(n - 1) + [n - 1]
  }

  /** `s` without the element at index `i` (JavaScript's `s.slice(0, i).concat(s.slice(i + 1))`). */
  function Remove<T>(s: seq<T>, i: nat): (r: seq<T>)
    requires i < |s|
    ensures |r| == |s| - 1
    ensures multiset(s) == multiset(r) + multiset{s[i]}
  {
    assert s == s[..i] + [s[i]] + s[i + 1..];
    s[..i] + s[i + 1..]
  }

  ghost predicate Increasing(s: seq<nat>)
  {
    forall i, j :: 0 <= i < j < |s| ==> s[i] < s[j]
  }

  lemma RemoveIncreasing(s: seq<nat>, i: nat)
    requires i < |s| && Increasing(s)
    ensures Increasing(Remove(s, i))
  {
  }

  lemma {:induction false} RangeMultiplicity(n: nat, x: nat)
    ensures multiset(Range(n))[x] == if x < n then 1 else 0
  {
    if n > 0 {
      var m: nat := n - 1;
      RangeMultiplicity(m, x);
      assert Range(n) == Range(m) + [m];
      assert multiset(Range(n)) == multiset(Range(m)) + multiset{m};
      assert multiset(Range(n))[x] == multiset(Range(m))[x] + multiset{m}[x];
    }
  }

  /** A position sequence that is a sub-multiset of 0..n-1 repeats no position and stays below n. */
  lemma {:induction false} SubRangeIsDistinctBelow(s: seq<nat>, n: nat)
    requires multiset(s) <= multiset(Range(n))
    ensures Distinct(s) && forall x :: x in s ==> x < n
  {
    if s == [] {
      return;
    }
    var t, x := s[..|s| - 1], s[|s| - 1];
    assert s == t + [x];
    assert multiset(s) == multiset(t) + multiset{x};
    SubRangeIsDistinctBelow(t, n);
    RangeMultiplicity(n, x);
    assert multiset(s)[x] == multiset(t)[x] + 1;
    assert multiset(s)[x] <= multiset(Range(n))[x];
    assert multiset(t)[x] == 0;
    forall i, j | 0 <= i < j < |s| ensures s[i] != s[j] {
      if j == |s| - 1 {
        assert s[i] in t;
      } else {
        assert s[i] == t[i] && s[j] == t[j];
      }
    }
    forall y | y in s ensures y < n {
      if y != x {
        assert y in t;
      }
    }
  }

  /** A position sequence that repeats no position and stays below n is a sub-multiset of 0..n-1. */
  lemma {:induction false} DistinctBelowIsSubRange(s: seq<nat>, n: nat)
    requires Distinct(s) && forall x :: x in s ==> x < n
    ensures multiset(s) <= multiset(Range(n))
  {
    if s == [] {
      return;
    }
    var t, x := s[..|s| - 1], s[|s| - 1];
    assert s == t + [x];
    assert Distinct(t) by {
      forall i, j | 0 <= i < j < |t| ensures t[i] != t[j] {
        assert t[i] == s[i] && t[j] == s[j];
      }
    }
    assert forall y :: y in t ==> y in s;
    DistinctBelowIsSubRange(t, n);
    assert x !in t by {
      forall i | 0 <= i < |t| ensures t[i] != x {
        assert t[i] == s[i] && x == s[|s| - 1];
      }
    }
    assert multiset(s) == multiset(t) + multiset{x};
    assert x in s;
    forall y ensures multiset(s)[y] <= multiset(Range(n))[y] {
      RangeMultiplicity(n, y);
      assert multiset(t)[y] <= multiset(Range(n))[y];
      if y == x {
        assert multiset(t)[y] == 0;
        assert multiset(s)[y] == 1;
      } else {
        assert multiset(s)[y] == multiset(t)[y];
      }
    }
  }

  /** Reading `arr` at the positions `idx`. */
  function Pick<T>(arr: seq<T>, idx: seq<nat>): (r: seq<T>)
    requires forall k :: 0 <= k < |idx| ==> idx[k] < |arr|
    ensures |r| == |idx| && forall k :: 0 <= k < |idx| ==> r[k] == arr[idx[k]]
  {
    seq(|idx|, k requires 0 <= k < |idx| => arr[idx[k]])
  }

  lemma PickConcat<T>(arr: seq<T>, a: seq<nat>, b: seq<nat>)
    requires forall k :: 0 <= k < |a| ==> a[k] < |arr|
    requires forall k :: 0 <= k < |b| ==> b[k] < |arr|
    ensures Pick(arr, a + b) == Pick(arr, a) + Pick(arr, b)
  {
  }

  /** Reading at positions `b` reads `arr[b[p]]` once plus what the other positions read. */
  lemma PickSplitAt<T>(arr: seq<T>, b: seq<nat>, p: nat)
    requires forall k :: 0 <= k < |b| ==> b[k] < |arr|
    requires p < |b|
    ensures multiset(Pick(arr, b)) == multiset{arr[b[p]]} + multiset(Pick(arr, Remove(b, p)))
  {
    var b1, b2 := b[..p], b[p + 1..];
    assert b == b1 + [b[p]] + b2;
    PickConcat(arr, b1, [b[p]]);
    PickConcat(arr, b1 + [b[p]], b2);
    PickConcat(arr, b1, b2);
  }

  /** Reading at a rearrangement of the same positions rearranges the same values. */
  lemma {:induction false} PickMultiset<T>(arr: seq<T>, a: seq<nat>, b: seq<nat>)
    requires forall k :: 0 <= k < |a| ==> a[k] < |arr|
    requires forall k :: 0 <= k < |b| ==> b[k] < |arr|
    requires multiset(a) == multiset(b)
    ensures multiset(Pick(arr, a)) == multiset(Pick(arr, b))
  {
    if a == [] {
      assert |b| == |multiset(b)| == 0;
      return;
    }
    assert a[0] in b by {
      assert a[0] in multiset(a);
    }
    var p :| 0 <= p < |b| && b[p] == a[0];
    assert multiset(Remove(a, 0)) == multiset(Remove(b, p)) by {
      assert multiset(Remove(a, 0)) == multiset(a) - multiset{a[0]};
      assert multiset(Remove(b, p)) == multiset(b) - multiset{a[0]};
    }
    PickMultiset(arr, Remove(a, 0), Remove(b, p));
    PickSplitAt(arr, a, 0);
    PickSplitAt(arr, b, p);
  }
}
