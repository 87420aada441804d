/**
 * `combinator(sets)` of arrangement.js: the cartesian product of a list of
 * lists, built with an explicit last-in-first-out work stack of partial
 * tuples instead of recursion.
 *
 * The specification works on INDEX tuples: a partial tuple `ip` picks, for
 * each position d < |ip|, the element `sets[d][ip[d]]`. `ExpandTuple(sizes, ip)`
 * lists the complete index tuples below `ip` in exactly the order the stack
 * emits them, and `Combinations(sets)` reads those tuples back as values.
 * Because equal values in different sets (or at different places of one set)
 * are different indices, nothing is merged.
 */
module Combinator {
  import opened Sequences

  /** The number of choices at each position: sizes[d] == |sets[d]|. */
  function Sizes<T>(sets: seq<seq<T>>): (sizes: seq<nat>)
    ensures |sizes| == |sets| && forall d :: 0 <= d < |sets| ==> sizes[d] == |sets[d]|
  {
    seq(|sets|, d requires 0 <= d < |sets| => |sets[d]|)
  }

  /** `ip` chooses, for each of its positions d, one of the sizes[d] elements of set d. */
  ghost predicate ValidIndex(sizes: seq<nat>, ip: seq<nat>)
  {
    |ip| <= |sizes| && forall d :: 0 <= d < |ip| ==> ip[d] < sizes[d]
  }

  /** The values an index tuple chooses. */
  function Select<T>(sets: seq<seq<T>>, ip: seq<nat>): (r: seq<T>)
    requires |ip| <= |sets| && forall d :: 0 <= d < |ip| ==> ip[d] < |sets[d]|
    ensures |r| == |ip| && forall d :: 0 <= d < |ip| ==> r[d] == sets[d][ip[d]]
  {
    seq(|ip|, d requires 0 <= d < |ip| => sets[d][ip[d]])
  }

  lemma SelectExtend<T>(sets: seq<seq<T>>, ip: seq<nat>, i: nat)
    requires |ip| < |sets| && (forall d :: 0 <= d < |ip| ==> ip[d] < |sets[d]|) && i < |sets[|ip|]|
    ensures Select(sets, ip + [i]) == Select(sets, ip) + [sets[|ip|][i]]
  {
  }

  /** The complete index tuples below the partial tuple `ip`, in the order the work stack emits them. */
  ghost function ExpandTuple(sizes: seq<nat>, ip: seq<nat>): seq<seq<nat>>
    requires |ip| <= |sizes|
    decreases |sizes| - |ip|, 1, 0
  {
    if |ip| == |sizes| then [ip] else ExpandChildren(sizes, ip, sizes[|ip|])
  }

  /**
   * The expansions of the children ip+[k-1], ..., ip+[0] of `ip`: the children
   * are pushed in increasing order, so the last one pushed is expanded first.
   */
  ghost function ExpandChildren(sizes: seq<nat>, ip: seq<nat>, k: nat): seq<seq<nat>>
    requires |ip| < |sizes|
    decreases |sizes| - |ip|, 0, k
  {
    if k == 0 then [] else ExpandTuple(sizes, ip + [k - 1]) + ExpandChildren(sizes, ip, k - 1)
  }

  /** Every index assignment of a non-empty list of sets, in emission order. */
  ghost function IndexTuples<T>(sets: seq<seq<T>>): seq<seq<nat>>
    requires |sets| > 0
  {
    ExpandTuple(Sizes(sets), [])
  }

  /** The complete value tuples the stack emits after popping the partial tuple `p`. */
  ghost function Expand<T>(sets: seq<seq<T>>, p: seq<T>): seq<seq<T>>
    requires |p| <= |sets|
    decreases |sets| - |p|, 1, 0
  {
    if |p| == |sets| then [p] else ExpandValues(sets, p, |sets[|p|]|)
  }

  /** The expansions of p+[S[k-1]], ..., p+[S[0]] where S is the set after `p`. */
  ghost function ExpandValues<T>(sets: seq<seq<T>>, p: seq<T>, k: nat): seq<seq<T>>
    requires |p| < |sets| && k <= |sets[|p|]|
    decreases |sets| - |p|, 0, k
  {
    if k == 0 then [] else Expand(sets, p + [sets[|p|][k - 1]]) + ExpandValues(sets, p, k - 1)
  }

  /** What `combinator(sets)` returns: `[]` for no sets, otherwise the expansion of the empty tuple. */
  ghost function Combinations<T>(sets: seq<seq<T>>): seq<seq<T>>
  {
    if |sets| == 0 then [] else Expand(sets, [])
  }

  ghost predicate AllValid<T>(sets: seq<seq<T>>, ts: seq<seq<nat>>)
  {
    forall j :: 0 <= j < |ts| ==> |ts[j]| <= |sets| && forall d :: 0 <= d < |ts[j]| ==> ts[j][d] < |sets[d]|
  }

  /** Reading a list of index tuples as value tuples. */
  ghost function SelectAll<T>(sets: seq<seq<T>>, ts: seq<seq<nat>>): (r: seq<seq<T>>)
    requires AllValid(sets, ts)
    ensures |r| == |ts| && forall j :: 0 <= j < |ts| ==> r[j] == Select(sets, ts[j])
  {
    seq(|ts|, j requires 0 <= j < |ts| => Select(sets, ts[j]))
  }

  // ---------------------------------------------------------------------
  // Properties of the index-level enumeration
  // ---------------------------------------------------------------------

  /** Every tuple below `ip` is complete, valid and extends `ip`. */
  lemma {:induction false} ExpandTupleSound(sizes: seq<nat>, ip: seq<nat>)
    requires ValidIndex(sizes, ip)
    ensures forall t :: t in ExpandTuple(sizes, ip) ==>
              |t| == |sizes| && ValidIndex(sizes, t) && t[..|ip|] == ip
    decreases |sizes| - |ip|, 1, 0
  {
    if |ip| < |sizes| {
      ExpandChildrenSound(sizes, ip, sizes[|ip|]);
    }
  }

  lemma {:induction false} ExpandChildrenSound(sizes: seq<nat>, ip: seq<nat>, k: nat)
    requires ValidIndex(sizes, ip) && |ip| < |sizes| && k <= sizes[|ip|]
    ensures forall t :: t in ExpandChildren(sizes, ip, k) ==>
              |t| == |sizes| && ValidIndex(sizes, t) && t[..|ip|] == ip && t[|ip|] < k
    decreases |sizes| - |ip|, 0, k
  {
    if k > 0 {
      var child := ip + [k - 1];
      ExpandTupleSound(sizes, child);
      ExpandChildrenSound(sizes, ip, k - 1);
      forall t | t in ExpandTuple(sizes, child)
        ensures t[..|ip|] == ip && t[|ip|] == k - 1
      {
        assert t[..|child|][..|ip|] == t[..|ip|];
        assert t[..|child|][|ip|] == t[|ip|];
      }
    }
  }

  /** Every complete valid tuple extending `ip` is listed below `ip`. */
  lemma {:induction false} ExpandTupleComplete(sizes: seq<nat>, ip: seq<nat>, t: seq<nat>)
    requires |t| == |sizes| && ValidIndex(sizes, t) && |ip| <= |t| && t[..|ip|] == ip
    ensures t in ExpandTuple(sizes, ip)
    decreases |sizes| - |ip|, 1, 0
  {
    if |ip| == |sizes| {
      assert t == t[..|ip|];
    } else {
      ExpandChildrenComplete(sizes, ip, sizes[|ip|], t);
    }
  }

  lemma {:induction false} ExpandChildrenComplete(sizes: seq<nat>, ip: seq<nat>, k: nat, t: seq<nat>)
    requires |t| == |sizes| && ValidIndex(sizes, t) && |ip| < |t| && t[..|ip|] == ip && t[|ip|] < k
    ensures t in ExpandChildren(sizes, ip, k)
    decreases |sizes| - |ip|, 0, k
  {
    if t[|ip|] == k - 1 {
      assert t[..|ip| + 1] == ip + [k - 1];
      ExpandTupleComplete(sizes, ip + [k - 1], t);
    } else {
      ExpandChildrenComplete(sizes, ip, k - 1, t);
    }
  }

  /** Product of a list of sizes (1 for the empty list). */
  function Product(s: seq<nat>): nat
  {
    if s == [] then 1 else s[0] * Product(s[1..])
  }

  lemma {:induction false} ExpandTupleCount(sizes: seq<nat>, ip: seq<nat>)
    requires |ip| <= |sizes|
    ensures |ExpandTuple(sizes, ip)| == Product(sizes[|ip|..])
    decreases |sizes| - |ip|, 1, 0
  {
    if |ip| < |sizes| {
      ExpandChildrenCount(sizes, ip, sizes[|ip|]);
      assert sizes[|ip|..][1..] == sizes[|ip| + 1..];
    } else {
      assert sizes[|ip|..] == [];
    }
  }

  lemma {:induction false} ExpandChildrenCount(sizes: seq<nat>, ip: seq<nat>, k: nat)
    requires |ip| < |sizes|
    ensures |ExpandChildren(sizes, ip, k)| == k * Product(sizes[|ip| + 1..])
    decreases |sizes| - |ip|, 0, k
  {
    if k > 0 {
      var p := Product(sizes[|ip| + 1..]);
      ExpandTupleCount(sizes, ip + [k - 1]);
      ExpandChildrenCount(sizes, ip, k - 1);
      assert k * p == p + (k - 1) * p;
    }
  }

  /** The stack emits the tuples below `ip` in strictly decreasing lexicographic order. */
  lemma {:induction false} ExpandTupleDescending(sizes: seq<nat>, ip: seq<nat>)
    requires ValidIndex(sizes, ip)
    ensures Descending(ExpandTuple(sizes, ip))
    decreases |sizes| - |ip|, 1, 0
  {
    if |ip| < |sizes| {
      ExpandChildrenDescending(sizes, ip, sizes[|ip|]);
    }
  }

  lemma {:induction false} ExpandChildrenDescending(sizes: seq<nat>, ip: seq<nat>, k: nat)
    requires ValidIndex(sizes, ip) && |ip| < |sizes| && k <= sizes[|ip|]
    ensures Descending(ExpandChildren(sizes, ip, k))
    decreases |sizes| - |ip|, 0, k
  {
    if k > 0 {
      var child := ip + [k - 1];
      var first, rest := ExpandTuple(sizes, child), ExpandChildren(sizes, ip, k - 1);
      ExpandTupleDescending(sizes, child);
      ExpandChildrenDescending(sizes, ip, k - 1);
      ExpandChildrenSound(sizes, ip, k);
      ExpandChildrenSound(sizes, ip, k - 1);
      forall x, y | x in first && y in rest
        ensures LexLess(y, x)
      {
        assert x in ExpandChildren(sizes, ip, k);
        assert x[|ip|] == k - 1 by {
          ExpandTupleSound(sizes, child);
          assert x[..|child|][|ip|] == x[|ip|];
        }
        LexLessAt(y, x, |ip|);
      }
      DescendingConcat(first, rest);
    }
  }

  // ---------------------------------------------------------------------
  // The value-level expansion reads the index-level one
  // ---------------------------------------------------------------------

  lemma SelectAllConcat<T>(sets: seq<seq<T>>, a: seq<seq<nat>>, b: seq<seq<nat>>)
    requires AllValid(sets, a) && AllValid(sets, b)
    ensures AllValid(sets, a + b) && SelectAll(sets, a + b) == SelectAll(sets, a) + SelectAll(sets, b)
  {
  }

  /** Expanding the values an index tuple chooses gives the values of the index tuples below it. */
  lemma {:induction false} ExpandReadsTuples<T>(sets: seq<seq<T>>, ip: seq<nat>)
    requires ValidIndex(Sizes(sets), ip)
    ensures AllValid(sets, ExpandTuple(Sizes(sets), ip))
    ensures Expand(sets, Select(sets, ip)) == SelectAll(sets, ExpandTuple(Sizes(sets), ip))
    decreases |sets| - |ip|, 1, 0
  {
    var sizes := Sizes(sets);
    if |ip| == |sets| {
      assert ExpandTuple(sizes, ip) == [ip];
    } else {
      ExpandValuesReadChildren(sets, ip, |sets[|ip|]|);
    }
  }

  lemma {:induction false} ExpandValuesReadChildren<T>(sets: seq<seq<T>>, ip: seq<nat>, k: nat)
    requires ValidIndex(Sizes(sets), ip) && |ip| < |sets| && k <= |sets[|ip|]|
    ensures AllValid(sets, ExpandChildren(Sizes(sets), ip, k))
    ensures ExpandValues(sets, Select(sets, ip), k) == SelectAll(sets, ExpandChildren(Sizes(sets), ip, k))
    decreases |sets| - |ip|, 0, k
  {
    var sizes := Sizes(sets);
    if k > 0 {
      var child := ip + [k - 1];
      SelectExtend(sets, ip, k - 1);
      ExpandReadsTuples(sets, child);
      ExpandValuesReadChildren(sets, ip, k - 1);
      SelectAllConcat(sets, ExpandTuple(sizes, child), ExpandChildren(sizes, ip, k - 1));
    }
  }

  /** The expansion of the empty tuple is the list of every index tuple read as values. */
  lemma ExpandEmptyReadsTuples<T>(sets: seq<seq<T>>)
    requires |sets| > 0
    ensures AllValid(sets, IndexTuples(sets))
    ensures Combinations(sets) == SelectAll(sets, IndexTuples(sets))
  {
    assert Select(sets, []) == [];
    ExpandReadsTuples(sets, []);
  }

  // ---------------------------------------------------------------------
  // The work stack: Pending(st) is what the stack `st` still has to emit
  // ---------------------------------------------------------------------

  /** The extensions p+[s[0]], ..., p+[s[k-1]] in the order they are pushed. */
  function Extensions<T>(p: seq<T>, s: seq<T>, k: nat): (r: seq<seq<T>>)
    requires k <= |s|
    ensures |r| == k && forall i :: 0 <= i < k ==> r[i] == p + [s[i]]
  {
    if k == 0 then [] else Extensions(p, s, k - 1) + [p + [s[k - 1]]]
  }

  ghost predicate Bounded<T>(sets: seq<seq<T>>, st: seq<seq<T>>)
  {
    forall j :: 0 <= j < |st| ==> |st[j]| <= |sets|
  }

  /** Everything the stack `st` will still emit: the top entry's tuples first. */
  ghost function Pending<T>(sets: seq<seq<T>>, st: seq<seq<T>>): seq<seq<T>>
    requires Bounded(sets, st)
  {
    if st == [] then [] else Expand(sets, st[|st| - 1]) + Pending(sets, st[..|st| - 1])
  }

  /** Pushing the extensions of `p` schedules exactly the expansion of `p` before the rest. */
  lemma {:induction false} PendingExtensions<T>(sets: seq<seq<T>>, st: seq<seq<T>>, p: seq<T>, k: nat)
    requires Bounded(sets, st) && |p| < |sets| && k <= |sets[|p|]|
    ensures Bounded(sets, st + Extensions(p, sets[|p|], k))
    ensures Pending(sets, st + Extensions(p, sets[|p|], k)) == ExpandValues(sets, p, k) + Pending(sets, st)
  {
    var s := st + Extensions(p, sets[|p|], k);
    if k == 0 {
      assert s == st;
    } else {
      assert s[..|s| - 1] == st + Extensions(p, sets[|p|], k - 1);
      PendingExtensions(sets, st, p, k - 1);
    }
  }

  /** Seeding the stack with the first set schedules every combination. */
  lemma SeedPending<T>(sets: seq<seq<T>>)
    requires |sets| > 0
    ensures Bounded(sets, Extensions([], sets[0], |sets[0]|))
    ensures Pending(sets, Extensions([], sets[0], |sets[0]|)) == Combinations(sets)
  {
    PendingExtensions(sets, [], [], |sets[0]|);
    assert [] + Extensions([], sets[0], |sets[0]|) == Extensions([], sets[0], |sets[0]|);
  }

  /** Number of stack entries that processing a partial tuple of length d will ever pop. */
  ghost function Nodes<T>(sets: seq<seq<T>>, d: nat): nat
    decreases |sets| - d
  {
    if d >= |sets| then 1 else 1 + Copies(Nodes(sets, d + 1), |sets[d]|)
  }

  /** Number of pops left before the stack `st` is empty: the loop's termination measure. */
  ghost function Weight<T>(sets: seq<seq<T>>, st: seq<seq<T>>): nat
  {
    if st == [] then 0 else Nodes(sets, |st[|st| - 1]|) + Weight(sets, st[..|st| - 1])
  }

  lemma {:induction false} WeightExtensions<T>(sets: seq<seq<T>>, st: seq<seq<T>>, p: seq<T>, s: seq<T>, k: nat)
    requires k <= |s|
    ensures Weight(sets, st + Extensions(p, s, k)) == Weight(sets, st) + Copies(Nodes(sets, |p| + 1), k)
  {
    var t := st + Extensions(p, s, k);
    if k == 0 {
      assert t == st;
    } else {
      assert t[..|t| - 1] == st + Extensions(p, s, k - 1);
      WeightExtensions(sets, st, p, s, k - 1);
    }
  }

  /** arrangement.js `combinator`: seed the stack with the first set, then pop, emit or extend. */
  method Combinator<T>(sets: seq<seq<T>>) returns (result: seq<seq<T>>)
    ensures result == Combinations(sets)
  {
    if |sets| == 0 {
      return [];
    }
    var stack: seq<seq<T>> := [];
    for i := 0 to |sets[0]|
      invariant stack == Extensions([], sets[0], i)
    {
      assert [] + [sets[0][i]] == [sets[0][i]];
      stack := stack + [[sets[0][i]]];
    }
    SeedPending(sets);

    result := [];
    while |stack| > 0
      invariant Bounded(sets, stack)
      invariant result + Pending(sets, stack) == Combinations(sets)
      decreases Weight(sets, stack)
    {
      ghost var whole := stack;
      var last := stack[|stack| - 1];
      stack := stack[..|stack| - 1];
      assert Pending(sets, whole) == Expand(sets, last) + Pending(sets, stack);
      assert Weight(sets, whole) == Nodes(sets, |last|) + Weight(sets, stack);
      if |last| == |sets| {
        assert Expand(sets, last) == [last];
        ConcatAssociative(result, [last], Pending(sets, stack));
        result := result + [last];
      } else {
        var nextSet := sets[|last|];
        ghost var base := stack;
        for i := 0 to |nextSet|
          invariant stack == base + Extensions(last, nextSet, i)
        {
          stack := stack + [last + [nextSet[i]]];
        }
        PendingExtensions(sets, base, last, |nextSet|);
        WeightExtensions(sets, base, last, nextSet, |nextSet|);
      }
    }
  }

  // ---------------------------------------------------------------------
  // What the result means
  // ---------------------------------------------------------------------

  /** Every tuple has one element per set, element i drawn from set i. */
  lemma CombinationsSound<T>(sets: seq<seq<T>>)
    ensures forall c :: c in Combinations(sets) ==>
              |c| == |sets| && forall i :: 0 <= i < |sets| ==> c[i] in sets[i]
  {
    if |sets| > 0 {
      var ts := IndexTuples(sets);
      ExpandTupleSound(Sizes(sets), []);
      ExpandEmptyReadsTuples(sets);
      forall c | c in Combinations(sets)
        ensures |c| == |sets| && forall i :: 0 <= i < |sets| ==> c[i] in sets[i]
      {
        var j :| 0 <= j < |ts| && c == Combinations(sets)[j];
        assert ts[j] in ts;
      }
    }
  }

  /** The first index at which `x` occurs in `s`. */
  ghost function IndexOf<T>(s: seq<T>, x: T): (i: nat)
    requires x in s
    ensures i < |s| && s[i] == x
  {
    if s[0] == x then 0 else 1 + IndexOf(s[1..], x)
  }

  /** Every way of drawing element i from set i appears, for a non-empty list of sets. */
  lemma CombinationsComplete<T>(sets: seq<seq<T>>, c: seq<T>)
    requires |sets| > 0 && |c| == |sets|
    requires forall i :: 0 <= i < |sets| ==> c[i] in sets[i]
    ensures c in Combinations(sets)
  {
    var sizes := Sizes(sets);
    var t := seq(|c|, i requires 0 <= i < |c| => IndexOf(sets[i], c[i]));
    ExpandTupleComplete(sizes, [], t);
    ExpandEmptyReadsTuples(sets);
    var ts := IndexTuples(sets);
    var j :| 0 <= j < |ts| && ts[j] == t;
    assert Combinations(sets)[j] == c;
  }

  /**
   * One tuple per index assignment: the count is the product of the set sizes,
   * so it is 0 as soon as one set is empty; the empty list of sets gives none.
   */
  lemma CombinationsCount<T>(sets: seq<seq<T>>)
    ensures |sets| > 0 ==> |Combinations(sets)| == Product(Sizes(sets))
    ensures |sets| == 0 ==> Combinations(sets) == []
    ensures (exists i :: 0 <= i < |sets| && |sets[i]| == 0) ==> |Combinations(sets)| == 0
  {
    if |sets| > 0 {
      ExpandEmptyReadsTuples(sets);
      ExpandTupleCount(Sizes(sets), []);
      assert Sizes(sets)[0..] == Sizes(sets);
      if i :| 0 <= i < |sets| && |sets[i]| == 0 {
        ProductZero(Sizes(sets), i);
      }
    }
  }

  lemma {:induction false} ProductZero(s: seq<nat>, i: nat)
    requires i < |s| && s[i] == 0
    ensures Product(s) == 0
  {
    if i > 0 {
      ProductZero(s[1..], i - 1);
    }
  }

  /**
   * The stack order: the i-th result reads the i-th index tuple, and the index
   * tuples run in strictly decreasing lexicographic order, so every index
   * assignment appears exactly once.
   */
  lemma CombinationsOrder<T>(sets: seq<seq<T>>)
    requires |sets| > 0
    ensures AllValid(sets, IndexTuples(sets)) && Combinations(sets) == SelectAll(sets, IndexTuples(sets))
    ensures forall t :: t in IndexTuples(sets) <==> |t| == |sets| && ValidIndex(Sizes(sets), t)
    ensures Descending(IndexTuples(sets)) && Distinct(IndexTuples(sets))
  {
    var sizes := Sizes(sets);
    ExpandEmptyReadsTuples(sets);
    ExpandTupleSound(sizes, []);
    ExpandTupleDescending(sizes, []);
    DescendingDistinct(IndexTuples(sets));
    forall t | |t| == |sets| && ValidIndex(sizes, t)
      ensures t in IndexTuples(sets)
    {
      ExpandTupleComplete(sizes, [], t);
    }
  }

  /** Below the last set, a partial tuple is extended by that set's elements from last to first. */
  lemma {:induction false} ExpandLastSet<T>(sets: seq<seq<T>>, p: seq<T>, k: nat)
    requires |p| + 1 == |sets| && k <= |sets[|p|]|
    ensures |ExpandValues(sets, p, k)| == k
    ensures forall i :: 0 <= i < k ==> ExpandValues(sets, p, k)[i] == p + [sets[|p|][k - 1 - i]]
  {
    if k > 0 {
      ExpandLastSet(sets, p, k - 1);
      assert Expand(sets, p + [sets[|p|][k - 1]]) == [p + [sets[|p|][k - 1]]];
    }
  }

  /** test.js:26-31: a single one-element set gives that one tuple. */
  lemma SingleSetExample()
    ensures Combinations([["x"]]) == [["x"]]
  {
    var sets := [["x"]];
    ExpandLastSet(sets, [], 1);
    assert [] + ["x"] == ["x"];
  }

  /**
   * test.js:12-24: sets of different lengths give the six tuples the test
   * lists, here in the stack's emission order (the test sorts both sides).
   */
  lemma MixedLengthsExample()
    ensures Combinations([["a", "b"], ["1", "2", "3"]])
         == [["b", "3"], ["b", "2"], ["b", "1"], ["a", "3"], ["a", "2"], ["a", "1"]]
  {
    var sets := [["a", "b"], ["1", "2", "3"]];
    assert [] + ["a"] == ["a"] && [] + ["b"] == ["b"];
    ExpandLastSet(sets, ["b"], 3);
    ExpandLastSet(sets, ["a"], 3);
    assert sets[|["b"]|] == ["1", "2", "3"];
    assert Expand(sets, ["b"]) == ExpandValues(sets, ["b"], 3);
    assert Expand(sets, ["a"]) == ExpandValues(sets, ["a"], 3);
    assert Expand(sets, ["b"]) == [["b"] + ["3"], ["b"] + ["2"], ["b"] + ["1"]];
    assert Expand(sets, ["a"]) == [["a"] + ["3"], ["a"] + ["2"], ["a"] + ["1"]];
    assert ExpandValues(sets, [], 1) == Expand(sets, ["a"]);
    assert ExpandValues(sets, [], 2) == Expand(sets, ["b"]) + Expand(sets, ["a"]);
    assert ["b"] + ["3"] == ["b", "3"] && ["b"] + ["2"] == ["b", "2"] && ["b"] + ["1"] == ["b", "1"];
    assert ["a"] + ["3"] == ["a", "3"] && ["a"] + ["2"] == ["a", "2"] && ["a"] + ["1"] == ["a", "1"];
  }

  /**
   * test.js:40-50: equal values in two sets are not merged: the four tuples
   * the test lists, in the stack's emission order.
   */
  lemma SameElementsNotMerged()
    ensures Combinations([["a", "b"], ["a", "b"]]) == [["b", "b"], ["b", "a"], ["a", "b"], ["a", "a"]]
  {
    var sets := [["a", "b"], ["a", "b"]];
    assert [] + ["a"] == ["a"] && [] + ["b"] == ["b"];
    ExpandLastSet(sets, ["b"], 2);
    ExpandLastSet(sets, ["a"], 2);
    assert sets[|["b"]|] == ["a", "b"];
    assert Expand(sets, ["b"]) == ExpandValues(sets, ["b"], 2);
    assert Expand(sets, ["a"]) == ExpandValues(sets, ["a"], 2);
    assert Expand(sets, ["b"]) == [["b"] + ["b"], ["b"] + ["a"]];
    assert Expand(sets, ["a"]) == [["a"] + ["b"], ["a"] + ["a"]];
    assert ExpandValues(sets, [], 1) == Expand(sets, ["a"]);
    assert ExpandValues(sets, [], 2) == Expand(sets, ["b"]) + Expand(sets, ["a"]);
    assert ["b"] + ["b"] == ["b", "b"] && ["b"] + ["a"] == ["b", "a"];
    assert ["a"] + ["b"] == ["a", "b"] && ["a"] + ["a"] == ["a", "a"];
  }
}
