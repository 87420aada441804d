/**
 * `permutator(arr, size)` of arrangement.js: the ordered selections of `size`
 * elements taken at distinct positions of `arr`, built with an explicit
 * last-in-first-out work stack of frames {current, remaining}.
 *
 * `Expand(size, f)` lists what the stack emits after popping frame `f`, in
 * the order it emits it. The functions are generic, so the same enumeration
 * run on POSITIONS (a frame of `nat`s over Range(|arr|)) describes which
 * positions each result reads; `Positions` is that run, and
 * `PermutationsReadPositions` says the value-level result reads them.
 * Elements leave `remaining` by index, never by value, so equal values at two
 * positions give two results.
 */
module Permutator {
  import opened Sequences

  /** A stack entry: the selection built so far and the elements still available, in order. */
  datatype Frame<T> = Frame(current: seq<T>, remaining: seq<T>)

  /** The frame pushed for `remaining[i]`: it moves to the end of `current` and leaves `remaining`. */
  function Child<T>(f: Frame<T>, i: nat): Frame<T>
    requires i < |f.remaining|
  {
    Frame(f.current + [f.remaining[i]], Remove(f.remaining, i))
  }

  /** The children of `f` for indices 0, ..., k-1, in the order they are pushed. */
  function Children<T>(f: Frame<T>, k: nat): (r: seq<Frame<T>>)
    requires k <= |f.remaining|
    ensures |r| == k
  {
    if k == 0 then [] else Children(f, k - 1) + [Child(f, k - 1)]
  }

  /** The selections the stack emits after popping `f`: `f.current` itself once it has `size` elements. */
  ghost function Expand<T>(size: int, f: Frame<T>): seq<seq<T>>
    decreases |f.remaining|, 1, 0
  {
    if |f.current| == size then [f.current] else ExpandChildren(size, f, |f.remaining|)
  }

  /** The expansions of the children k-1, ..., 0 of `f`: the last one pushed is popped first. */
  ghost function ExpandChildren<T>(size: int, f: Frame<T>, k: nat): seq<seq<T>>
    requires k <= |f.remaining|
    decreases |f.remaining|, 0, k
  {
    if k == 0 then [] else Expand(size, Child(f, k - 1)) + ExpandChildren(size, f, k - 1)
  }

  /** arrangement.js:69: a falsy `size` (0, or omitted) becomes the length of the FIRST ELEMENT. */
  function EffectiveSize(arr: seq<string>, size: int): int
    requires |arr| > 0
  {
    if size == 0 then |arr[0]| else size
  }

  /** What `permutator(arr, size)` returns: `[]` for an empty array, else the children of the root expanded. */
  ghost function Permutations(arr: seq<string>, size: int): seq<seq<string>>
  {
    if |arr| == 0 then [] else ExpandChildren(EffectiveSize(arr, size), Frame([], arr), |arr|)
  }

  /** The position tuples a run over n positions emits for selections of `size`. */
  ghost function Positions(n: nat, size: int): seq<seq<nat>>
  {
    ExpandChildren(size, Frame([], Range(n)), n)
  }

  // ---------------------------------------------------------------------
  // Properties of the enumeration, for any element type
  // ---------------------------------------------------------------------

  /** Every emitted selection has `size` elements, extends `current` and draws the rest from `remaining`. */
  lemma {:induction false} ExpandSound<T>(size: int, f: Frame<T>)
    ensures forall r :: r in Expand(size, f) ==>
              |r| == size && |f.current| <= |r| && r[..|f.current|] == f.current &&
              multiset(r) <= multiset(f.current) + multiset(f.remaining)
    decreases |f.remaining|, 1, 0
  {
    if |f.current| != size {
      ExpandChildrenSound(size, f, |f.remaining|);
    }
  }

  lemma {:induction false} ExpandChildrenSound<T>(size: int, f: Frame<T>, k: nat)
    requires k <= |f.remaining|
    ensures forall r :: r in ExpandChildren(size, f, k) ==>
              |r| == size && |f.current| < |r| && r[..|f.current|] == f.current &&
              (exists i :: 0 <= i < k && r[|f.current|] == f.remaining[i]) &&
              multiset(r) <= multiset(f.current) + multiset(f.remaining)
    decreases |f.remaining|, 0, k
  {
    if k > 0 {
      var c := Child(f, k - 1);
      ExpandSound(size, c);
      ExpandChildrenSound(size, f, k - 1);
      assert multiset(c.current) + multiset(c.remaining) == multiset(f.current) + multiset(f.remaining);
      forall r | r in Expand(size, c)
        ensures |f.current| < |r| && r[..|f.current|] == f.current && r[|f.current|] == f.remaining[k - 1]
      {
        assert r[..|c.current|][..|f.current|] == r[..|f.current|];
        assert r[..|c.current|][|f.current|] == r[|f.current|];
      }
    }
  }

  /** A frame that already holds more than `size` elements never emits anything. */
  lemma {:induction false} ExpandOvershoot<T>(size: int, f: Frame<T>)
    requires |f.current| > size
    ensures Expand(size, f) == []
    decreases |f.remaining|, 1, 0
  {
    ExpandChildrenOvershoot(size, f, |f.remaining|);
  }

  lemma {:induction false} ExpandChildrenOvershoot<T>(size: int, f: Frame<T>, k: nat)
    requires |f.current| >= size && k <= |f.remaining|
    ensures ExpandChildren(size, f, k) == []
    decreases |f.remaining|, 0, k
  {
    if k > 0 {
      ExpandOvershoot(size, Child(f, k - 1));
      ExpandChildrenOvershoot(size, f, k - 1);
    }
  }

  /** Every way of completing `current` to `size` elements with a sub-multiset of `remaining` is emitted. */
  lemma {:induction false} ExpandComplete<T>(size: int, f: Frame<T>, r: seq<T>)
    requires |r| == size && |f.current| <= |r| && r[..|f.current|] == f.current
    requires multiset(r[|f.current|..]) <= multiset(f.remaining)
    ensures r in Expand(size, f)
    decreases |f.remaining|, 1, 0
  {
    if |f.current| == size {
      assert r == r[..|f.current|];
    } else {
      var x := r[|f.current|];
      assert r[|f.current|..] == [x] + r[|f.current| + 1..];
      assert x in multiset(f.remaining);
      var i :| 0 <= i < |f.remaining| && f.remaining[i] == x;
      ExpandChildrenComplete(size, f, |f.remaining|, r, i);
    }
  }

  lemma {:induction false} ExpandChildrenComplete<T>(size: int, f: Frame<T>, k: nat, r: seq<T>, i: nat)
    requires k <= |f.remaining| && i < k && |r| == size && |f.current| < |r| && r[..|f.current|] == f.current
    requires r[|f.current|] == f.remaining[i]
    requires multiset(r[|f.current|..]) <= multiset(f.remaining)
    ensures r in ExpandChildren(size, f, k)
    decreases |f.remaining|, 0, k
  {
    var first, rest := Expand(size, Child(f, k - 1)), ExpandChildren(size, f, k - 1);
    assert ExpandChildren(size, f, k) == first + rest;
    if f.remaining[k - 1] == r[|f.current|] {
      ChildComplete(size, f, k - 1, r);
      assert r in first;
    } else {
      ExpandChildrenComplete(size, f, k - 1, r, i);
      assert r in rest;
    }
  }

  /** A completion whose next element is `remaining[j]` is emitted by child j. */
  lemma {:induction false} ChildComplete<T>(size: int, f: Frame<T>, j: nat, r: seq<T>)
    requires j < |f.remaining| && |r| == size && |f.current| < |r| && r[..|f.current|] == f.current
    requires r[|f.current|] == f.remaining[j]
    requires multiset(r[|f.current|..]) <= multiset(f.remaining)
    ensures r in Expand(size, Child(f, j))
    decreases |f.remaining|, 0, 0
  {
    var x, c := r[|f.current|], Child(f, j);
    assert r[..|c.current|] == c.current;
    assert r[|f.current|..] == [x] + r[|c.current|..];
    assert multiset(r[|c.current|..]) == multiset(r[|f.current|..]) - multiset{x};
    assert multiset(c.remaining) == multiset(f.remaining) - multiset{x};
    ExpandComplete(size, c, r);
  }

  /** n * (n-1) * ... * (n-k+1): the number of ways to fill k places from n distinct positions. */
  function Falling(n: nat, k: nat): nat
  {
    if k == 0 then 1 else if n == 0 then 0 else n * Falling(n - 1, k - 1)
  }

  function Factorial(n: nat): nat
  {
    if n == 0 then 1 else n * Factorial(n - 1)
  }

  /** Falling(n, k) is n!/(n-k)! when k <= n, and 0 when there are too few positions. */
  lemma {:induction false} FallingFactorial(n: nat, k: nat)
    ensures k <= n ==> Falling(n, k) * Factorial(n - k) == Factorial(n)
    ensures k > n ==> Falling(n, k) == 0
  {
    if k > 0 && n > 0 {
      FallingFactorial(n - 1, k - 1);
      if k <= n {
        calc {
          Falling(n, k) * Factorial(n - k);
          n * Falling(n - 1, k - 1) * Factorial(n - 1 - (k - 1));
          n * (Falling(n - 1, k - 1) * Factorial(n - 1 - (k - 1)));
          n * Factorial(n - 1);
        }
      }
    }
  }

  /** One selection per way of filling the free places from `remaining`. */
  lemma {:induction false} ExpandCount<T>(size: int, f: Frame<T>)
    ensures |Expand(size, f)| == if |f.current| <= size then Falling(|f.remaining|, size - |f.current|) else 0
    decreases |f.remaining|, 1, 0
  {
    if |f.current| > size {
      ExpandOvershoot(size, f);
    } else if |f.current| < size && |f.remaining| > 0 {
      ExpandChildrenCount(size, f, |f.remaining|);
    }
  }

  lemma {:induction false} ExpandChildrenCount<T>(size: int, f: Frame<T>, k: nat)
    requires |f.current| < size && 0 < |f.remaining| && k <= |f.remaining|
    ensures |ExpandChildren(size, f, k)| == k * Falling(|f.remaining| - 1, size - |f.current| - 1)
    decreases |f.remaining|, 0, k
  {
    if k > 0 {
      var p := Falling(|f.remaining| - 1, size - |f.current| - 1);
      ExpandCount(size, Child(f, k - 1));
      ExpandChildrenCount(size, f, k - 1);
      assert k * p == p + (k - 1) * p;
    }
  }

  /** Over increasing positions the stack emits strictly decreasing position tuples. */
  lemma {:induction false} ExpandDescending(size: int, f: Frame<nat>)
    requires Increasing(f.remaining)
    ensures Descending(Expand(size, f))
    decreases |f.remaining|, 1, 0
  {
    if |f.current| != size {
      ExpandChildrenDescending(size, f, |f.remaining|);
    }
  }

  lemma {:induction false} ExpandChildrenDescending(size: int, f: Frame<nat>, k: nat)
    requires Increasing(f.remaining) && k <= |f.remaining|
    ensures Descending(ExpandChildren(size, f, k))
    decreases |f.remaining|, 0, k
  {
    if k > 0 {
      var c := Child(f, k - 1);
      var first, rest := Expand(size, c), ExpandChildren(size, f, k - 1);
      RemoveIncreasing(f.remaining, k - 1);
      ExpandDescending(size, c);
      ExpandChildrenDescending(size, f, k - 1);
      ExpandChildrenSound(size, f, k);
      ExpandChildrenSound(size, f, k - 1);
      forall x, y | x in first && y in rest
        ensures LexLess(y, x)
      {
        assert x in ExpandChildren(size, f, k);
        var m := |f.current|;
        assert x[m] == f.remaining[k - 1] by {
          ExpandSound(size, c);
          assert x[..|c.current|][m] == x[m];
        }
        var j :| 0 <= j < k - 1 && y[m] == f.remaining[j];
        LexLessAt(y, x, m);
      }
      DescendingConcat(first, rest);
    }
  }

  // ---------------------------------------------------------------------
  // Reading positions as values
  // ---------------------------------------------------------------------

  ghost predicate AllBelow(n: nat, ts: seq<seq<nat>>)
  {
    forall j, d :: 0 <= j < |ts| && 0 <= d < |ts[j]| ==> ts[j][d] < n
  }

  /** Reading a list of position tuples as value tuples. */
  ghost function PickAll<T>(arr: seq<T>, ts: seq<seq<nat>>): (r: seq<seq<T>>)
    requires AllBelow(|arr|, ts)
    ensures |r| == |ts| && forall j :: 0 <= j < |ts| ==> r[j] == Pick(arr, ts[j])
  {
    seq(|ts|, j requires 0 <= j < |ts| => Pick(arr, ts[j]))
  }

  ghost predicate Below(n: nat, s: seq<nat>)
  {
    forall k :: 0 <= k < |s| ==> s[k] < n
  }

  ghost function PickFrame<T>(arr: seq<T>, f: Frame<nat>): Frame<T>
    requires Below(|arr|, f.current) && Below(|arr|, f.remaining)
  {
    Frame(Pick(arr, f.current), Pick(arr, f.remaining))
  }

  lemma PickAllConcat<T>(arr: seq<T>, a: seq<seq<nat>>, b: seq<seq<nat>>)
    requires AllBelow(|arr|, a) && AllBelow(|arr|, b)
    ensures AllBelow(|arr|, a + b) && PickAll(arr, a + b) == PickAll(arr, a) + PickAll(arr, b)
  {
    var c := a + b;
    forall j, d | 0 <= j < |c| && 0 <= d < |c[j]| ensures c[j][d] < |arr| {
      if j < |a| {
        assert c[j] == a[j];
      } else {
        assert c[j] == b[j - |a|];
      }
    }
  }

  /** Child i of the values at some positions is the values at child i of the positions. */
  lemma ChildReadsPositions<T>(arr: seq<T>, f: Frame<nat>, i: nat)
    requires Below(|arr|, f.current) && Below(|arr|, f.remaining) && i < |f.remaining|
    ensures Below(|arr|, Child(f, i).current) && Below(|arr|, Child(f, i).remaining)
    ensures Child(PickFrame(arr, f), i) == PickFrame(arr, Child(f, i))
  {
    var c, values := Child(f, i), Pick(arr, f.remaining);
    assert Pick(arr, c.current) == Pick(arr, f.current) + [values[i]];
    assert Pick(arr, c.remaining) == values[..i] + values[i + 1..];
  }

  /** Expanding the values at some positions gives the values of the positions the expansion emits. */
  lemma {:induction false} ExpandReadsPositions<T>(arr: seq<T>, size: int, f: Frame<nat>)
    requires Below(|arr|, f.current) && Below(|arr|, f.remaining)
    ensures AllBelow(|arr|, Expand(size, f))
    ensures Expand(size, PickFrame(arr, f)) == PickAll(arr, Expand(size, f))
    decreases |f.remaining|, 1, 0
  {
    if |f.current| != size {
      ExpandChildrenReadPositions(arr, size, f, |f.remaining|);
    }
  }

  lemma {:induction false} ExpandChildrenReadPositions<T>(arr: seq<T>, size: int, f: Frame<nat>, k: nat)
    requires Below(|arr|, f.current) && Below(|arr|, f.remaining)
    requires k <= |f.remaining|
    ensures AllBelow(|arr|, ExpandChildren(size, f, k))
    ensures ExpandChildren(size, PickFrame(arr, f), k) == PickAll(arr, ExpandChildren(size, f, k))
    decreases |f.remaining|, 0, k
  {
    if k > 0 {
      var c := Child(f, k - 1);
      ChildReadsPositions(arr, f, k - 1);
      ExpandReadsPositions(arr, size, c);
      ExpandChildrenReadPositions(arr, size, f, k - 1);
      PickAllConcat(arr, Expand(size, c), ExpandChildren(size, f, k - 1));
      assert ExpandChildren(size, f, k) == Expand(size, c) + ExpandChildren(size, f, k - 1);
    }
  }

  // ---------------------------------------------------------------------
  // The work stack: Pending(st) is what the stack `st` still has to emit
  // ---------------------------------------------------------------------

  ghost function Pending<T>(size: int, st: seq<Frame<T>>): seq<seq<T>>
  {
    if st == [] then [] else Expand(size, st[|st| - 1]) + Pending(size, st[..|st| - 1])
  }

  lemma PendingPush<T>(size: int, st: seq<Frame<T>>, x: Frame<T>)
    ensures Pending(size, st + [x]) == Expand(size, x) + Pending(size, st)
  {
    assert (st + [x])[..|st|] == st;
  }

  /** Pushing the children of `f` schedules exactly the expansion of `f`'s children before the rest. */
  lemma {:induction false} PendingChildren<T>(size: int, st: seq<Frame<T>>, f: Frame<T>, k: nat)
    requires k <= |f.remaining|
    ensures Pending(size, st + Children(f, k)) == ExpandChildren(size, f, k) + Pending(size, st)
  {
    if k == 0 {
      assert st + Children(f, k) == st;
    } else {
      var c := Child(f, k - 1);
      var below := st + Children(f, k - 1);
      assert st + Children(f, k) == below + [c];
      PendingPush(size, below, c);
      PendingChildren(size, st, f, k - 1);
      ConcatAssociative(Expand(size, c), ExpandChildren(size, f, k - 1), Pending(size, st));
    }
  }

  /** Seeding the stack with one frame per position schedules every permutation. */
  lemma SeedPending(arr: seq<string>, size: int)
    requires |arr| > 0
    ensures Pending(EffectiveSize(arr, size), [] + Children(Frame([], arr), |arr|)) == Permutations(arr, size)
  {
    PendingChildren(EffectiveSize(arr, size), [], Frame([], arr), |arr|);
  }

  /** Number of frames that processing a frame with r remaining elements will ever pop (at most). */
  ghost function Nodes(r: nat): nat
  {
    if r == 0 then 1 else 1 + Copies(Nodes(r - 1), r)
  }

  /** Bound on the pops left before the stack `st` is empty: the loop's termination measure. */
  ghost function Weight<T>(st: seq<Frame<T>>): nat
  {
    if st == [] then 0 else Nodes(|st[|st| - 1].remaining|) + Weight(st[..|st| - 1])
  }

  lemma WeightPush<T>(st: seq<Frame<T>>, x: Frame<T>)
    ensures Weight(st + [x]) == Weight(st) + Nodes(|x.remaining|)
  {
    assert (st + [x])[..|st|] == st;
  }

  /** Frames that all have `r` elements left add `Nodes(r)` each to the weight. */
  lemma {:induction false} WeightUniform<T>(st: seq<Frame<T>>, xs: seq<Frame<T>>, r: nat)
    requires forall j :: 0 <= j < |xs| ==> |xs[j].remaining| == r
    ensures Weight(st + xs) == Weight(st) + Copies(Nodes(r), |xs|)
  {
    if xs == [] {
      assert st + xs == st;
    } else {
      var init := xs[..|xs| - 1];
      assert st + xs == (st + init) + [xs[|xs| - 1]];
      WeightPush(st + init, xs[|xs| - 1]);
      WeightUniform(st, init, r);
    }
  }

  lemma {:induction false} ChildrenRemaining<T>(f: Frame<T>, k: nat)
    requires k <= |f.remaining|
    ensures forall j :: 0 <= j < k ==> |Children(f, k)[j].remaining| == |f.remaining| - 1
  {
    if k > 0 {
      ChildrenRemaining(f, k - 1);
      assert forall j :: 0 <= j < k - 1 ==> Children(f, k)[j] == Children(f, k - 1)[j];
    }
  }

  /** Replacing a popped frame by all its children lowers the weight of the stack. */
  lemma WeightDrops<T>(st: seq<Frame<T>>, f: Frame<T>)
    ensures Weight(st + Children(f, |f.remaining|)) < Weight(st) + Nodes(|f.remaining|)
  {
    if |f.remaining| == 0 {
      assert st + Children(f, 0) == st;
    } else {
      ChildrenRemaining(f, |f.remaining|);
      WeightUniform(st, Children(f, |f.remaining|), |f.remaining| - 1);
    }
  }

  /**
   * Pushes one frame per element of `f.remaining`, in index order: the loop
   * of arrangement.js:86-93, and of the seeding loop at 72-74, which pushes
   * the children of the root frame ([], arr).
   */
  method PushChildren<T>(stack: seq<Frame<T>>, f: Frame<T>) returns (pushed: seq<Frame<T>>)
    ensures pushed == stack + Children(f, |f.remaining|)
  {
    var current, remaining := f.current, f.remaining;
    pushed := stack;
    for i := 0 to |remaining|
      invariant pushed == stack + Children(f, i)
    {
      var nextChar := remaining[i];
      var nextRemaining := remaining[..i] + remaining[i + 1..];
      var nextCurrent := current + [nextChar];
      pushed := pushed + [Frame(nextCurrent, nextRemaining)];
    }
  }

  /** arrangement.js `permutator`: default the size, seed one frame per position, then pop, emit or extend. */
  method Permutator(arr: seq<string>, size: int) returns (result: seq<seq<string>>)
    ensures result == Permutations(arr, size)
  {
    if |arr| == 0 {
      return [];
    }
    var k := size;
    if k == 0 {
      k := |arr[0]|;
    }
    var stack := PushChildren([], Frame([], arr));
    SeedPending(arr, size);

    result := [];
    while |stack| > 0
      invariant result + Pending(k, stack) == Permutations(arr, size)
      decreases Weight(stack)
    {
      ghost var whole := stack;
      var top := stack[|stack| - 1];
      stack := stack[..|stack| - 1];
      assert Pending(k, whole) == Expand(k, top) + Pending(k, stack);
      assert Weight(whole) == Nodes(|top.remaining|) + Weight(stack);
      if |top.current| == k {
        ConcatAssociative(result, [top.current], Pending(k, stack));
        result := result + [top.current];
      } else {
        ghost var base := stack;
        stack := PushChildren(stack, top);
        PendingChildren(k, base, top, |top.remaining|);
        WeightDrops(base, top);
      }
    }
  }

  // ---------------------------------------------------------------------
  // What the result means
  // ---------------------------------------------------------------------

  lemma ExpandRoot<T>(size: int, arr: seq<T>)
    requires size != 0
    ensures ExpandChildren(size, Frame([], arr), |arr|) == Expand(size, Frame([], arr))
  {
  }

  /** Every permutation has `size` elements (the defaulted size) drawn from distinct positions' worth of `arr`. */
  lemma PermutationsSound(arr: seq<string>, size: int)
    ensures forall r :: r in Permutations(arr, size) ==>
              |r| == EffectiveSize(arr, size) && multiset(r) <= multiset(arr)
  {
    if |arr| > 0 {
      var k := EffectiveSize(arr, size);
      if k <= 0 {
        ExpandChildrenOvershoot(k, Frame([], arr), |arr|);
      } else {
        ExpandRoot(k, arr);
        ExpandSound(k, Frame([], arr));
      }
    }
  }

  /** Every arrangement of `size` elements that `arr` can supply is produced (for a positive size). */
  lemma PermutationsComplete(arr: seq<string>, size: int, r: seq<string>)
    requires |arr| > 0 && EffectiveSize(arr, size) >= 1
    requires |r| == EffectiveSize(arr, size) && multiset(r) <= multiset(arr)
    ensures r in Permutations(arr, size)
  {
    var k := EffectiveSize(arr, size);
    ExpandRoot(k, arr);
    assert r[0..] == r;
    ExpandComplete(k, Frame([], arr), r);
  }

  /** A size that is (or defaults to) zero or negative yields no permutation at all. */
  lemma PermutationsNonPositive(arr: seq<string>, size: int)
    requires |arr| > 0 && EffectiveSize(arr, size) <= 0
    ensures Permutations(arr, size) == []
  {
    ExpandChildrenOvershoot(EffectiveSize(arr, size), Frame([], arr), |arr|);
  }

  /** n!/(n-k)! results for a positive size k, n! when k == n, and none when k exceeds n. */
  lemma PermutationsCount(arr: seq<string>, size: int)
    requires |arr| > 0 && EffectiveSize(arr, size) >= 1
    ensures |Permutations(arr, size)| == Falling(|arr|, EffectiveSize(arr, size))
    ensures EffectiveSize(arr, size) > |arr| ==> Permutations(arr, size) == []
    ensures EffectiveSize(arr, size) == |arr| ==> |Permutations(arr, size)| == Factorial(|arr|)
  {
    var k := EffectiveSize(arr, size);
    ExpandRoot(k, arr);
    ExpandCount(k, Frame([], arr));
    FallingFactorial(|arr|, k);
    if k == |arr| {
      assert Factorial(|arr| - k) == 1;
    }
  }

  /** The positions 0..n-1 read from `arr` give back `arr`. */
  lemma PickRange<T>(arr: seq<T>)
    ensures Below(|arr|, Range(|arr|)) && Pick(arr, Range(|arr|)) == arr
  {
  }

  /** The permutations are the values of `arr` at the position tuples `Positions` lists, in the same order. */
  lemma PermutationsReadPositions(arr: seq<string>, size: int)
    requires |arr| > 0
    ensures AllBelow(|arr|, Positions(|arr|, EffectiveSize(arr, size)))
    ensures Permutations(arr, size) == PickAll(arr, Positions(|arr|, EffectiveSize(arr, size)))
  {
    var k := EffectiveSize(arr, size);
    var f: Frame<nat> := Frame([], Range(|arr|));
    PickRange(arr);
    assert PickFrame(arr, f) == Frame([], arr);
    ExpandChildrenReadPositions(arr, k, f, |arr|);
  }

  /**
   * For a positive size, the position tuples are exactly the repetition-free
   * tuples of `size` positions below n.
   */
  lemma PositionsExactly(n: nat, size: int)
    requires size >= 1
    ensures forall t :: t in Positions(n, size) <==>
              |t| == size && Distinct(t) && forall x :: x in t ==> x < n
  {
    var f: Frame<nat> := Frame([], Range(n));
    ExpandRoot(size, Range(n));
    ExpandSound(size, f);
    forall t | t in Positions(n, size)
      ensures Distinct(t) && forall x :: x in t ==> x < n
    {
      SubRangeIsDistinctBelow(t, n);
    }
    forall t | |t| == size && Distinct(t) && (forall x :: x in t ==> x < n)
      ensures t in Positions(n, size)
    {
      DistinctBelowIsSubRange(t, n);
      assert t[|f.current|..] == t;
      ExpandComplete(size, f, t);
    }
  }

  /** Each position tuple is listed once, in strictly decreasing lexicographic order, n!/(n-size)! of them. */
  lemma PositionsOrderedOnce(n: nat, size: int)
    requires size >= 1
    ensures Descending(Positions(n, size)) && Distinct(Positions(n, size))
    ensures |Positions(n, size)| == Falling(n, size)
  {
    var f: Frame<nat> := Frame([], Range(n));
    ExpandRoot(size, Range(n));
    ExpandDescending(size, f);
    DescendingDistinct(Positions(n, size));
    ExpandCount(size, f);
  }

  /** Reading a repetition-free `arr` at two different position tuples of one length gives different values. */
  lemma PickInjective<T>(arr: seq<T>, a: seq<nat>, b: seq<nat>)
    requires Distinct(arr) && |a| == |b| && Below(|arr|, a) && Below(|arr|, b) && a != b
    ensures Pick(arr, a) != Pick(arr, b)
  {
    var d :| 0 <= d < |a| && a[d] != b[d];
    assert Pick(arr, a)[d] == arr[a[d]] != arr[b[d]] == Pick(arr, b)[d];
  }

  /** For an `arr` without repeated values, the results are pairwise different. */
  lemma PermutationsDistinct(arr: seq<string>, size: int)
    requires |arr| > 0 && EffectiveSize(arr, size) >= 1 && Distinct(arr)
    ensures Distinct(Permutations(arr, size))
  {
    var n, k := |arr|, EffectiveSize(arr, size);
    var ts := Positions(n, k);
    PermutationsReadPositions(arr, size);
    PositionsOrderedOnce(n, k);
    PositionsExactly(n, k);
    var p := Permutations(arr, size);
    forall i, j | 0 <= i < j < |p|
      ensures p[i] != p[j]
    {
      assert ts[i] in ts && ts[j] in ts;
      PickInjective(arr, ts[i], ts[j]);
    }
  }

  /** Equal values at two positions are two results: ["a", "a"] has two (equal) arrangements of both. */
  lemma SameValuesNotMerged(v: string)
    ensures Permutations([v, v], 2) == [[v, v], [v, v]]
  {
    var arr := [v, v];
    PermutationsCount(arr, 2);
    PermutationsSound(arr, 2);
    var p := Permutations(arr, 2);
    forall j | 0 <= j < 2 ensures p[j] == [v, v] {
      assert p[j] in p;
      assert p[j][0] in multiset(arr) && p[j][1] in multiset(arr);
      assert p[j] == [p[j][0], p[j][1]];
    }
  }

  /** The six orders of three values. */
  function Orders<T>(x: T, y: T, z: T): seq<seq<T>>
  {
    [[x, y, z], [x, z, y], [y, x, z], [y, z, x], [z, x, y], [z, y, x]]
  }

  /** A selection of three of three distinct values is one of their six orders. */
  lemma ArrangementOfThree<T>(x: T, y: T, z: T, r: seq<T>)
    requires x != y && y != z && x != z
    requires |r| == 3 && multiset(r) <= multiset([x, y, z])
    ensures r in Orders(x, y, z)
  {
    TripleMultiset(x, y, z);
    LengthThreeMultiset(r);
    ThreeElements(x, y, z, r[0], r[1], r[2]);
    assert r == [r[0], r[1], r[2]];
  }

  lemma ThreeElements<T>(x: T, y: T, z: T, a: T, b: T, c: T)
    requires x != y && y != z && x != z
    requires multiset{a} + multiset{b} + multiset{c} <= multiset{x} + multiset{y} + multiset{z}
    ensures [a, b, c] in Orders(x, y, z)
  {
    var m := multiset{x} + multiset{y} + multiset{z};
    assert a in m;
    if a == x {
      ArrangementOfTwo(a, y, z, b, c);
    } else if a == y {
      assert m == multiset{a} + multiset{x} + multiset{z};
      ArrangementOfTwo(a, x, z, b, c);
    } else {
      assert m == multiset{a} + multiset{x} + multiset{y};
      ArrangementOfTwo(a, x, y, b, c);
    }
  }

  lemma ArrangementOfTwo<T>(a: T, u: T, v: T, b: T, c: T)
    requires u != v && multiset{a} + multiset{b} + multiset{c} <= multiset{a} + multiset{u} + multiset{v}
    ensures (b == u && c == v) || (b == v && c == u)
  {
    assert multiset{b} + multiset{c} <= multiset{u} + multiset{v} by {
      assert multiset{b} + multiset{c} == multiset{a} + multiset{b} + multiset{c} - multiset{a};
      assert multiset{u} + multiset{v} == multiset{a} + multiset{u} + multiset{v} - multiset{a};
    }
    assert b in multiset{u} + multiset{v};
    assert c in multiset{u} + multiset{v};
  }

  lemma LengthThreeMultiset<T>(r: seq<T>)
    requires |r| == 3
    ensures multiset(r) == multiset{r[0]} + multiset{r[1]} + multiset{r[2]}
  {
    assert r == [r[0]] + [r[1]] + [r[2]];
  }

  lemma TripleMultiset<T>(a: T, b: T, c: T)
    ensures multiset([a, b, c]) == multiset{a} + multiset{b} + multiset{c}
  {
    assert [a, b, c] == [a] + [b] + [c];
  }

  /** One order of three distinct values is produced: it rearranges them. */
  lemma OrderProduced(x: string, y: string, z: string, a: string, b: string, c: string)
    requires multiset{a} + multiset{b} + multiset{c} == multiset{x} + multiset{y} + multiset{z}
    ensures [a, b, c] in Permutations([x, y, z], 3)
  {
    TripleMultiset(x, y, z);
    TripleMultiset(a, b, c);
    PermutationsComplete([x, y, z], 3, [a, b, c]);
  }

  /** For three values (the ["a", "b", "c"] case), size 3 produces all six orders, six results in all. */
  lemma AllOrdersOfThree(x: string, y: string, z: string)
    ensures |Permutations([x, y, z], 3)| == 6
    ensures forall r :: r in Orders(x, y, z) ==> r in Permutations([x, y, z], 3)
  {
    PermutationsCount([x, y, z], 3);
    OrderProduced(x, y, z, x, y, z);
    OrderProduced(x, y, z, x, z, y);
    OrderProduced(x, y, z, y, x, z);
    OrderProduced(x, y, z, y, z, x);
    OrderProduced(x, y, z, z, x, y);
    OrderProduced(x, y, z, z, y, x);
  }

  /** For three distinct values, every result of size 3 is one of their six orders. */
  lemma OnlyOrdersOfThree(x: string, y: string, z: string)
    requires x != y && y != z && x != z
    ensures forall r :: r in Permutations([x, y, z], 3) ==> r in Orders(x, y, z)
  {
    PermutationsSound([x, y, z], 3);
    forall r | r in Permutations([x, y, z], 3) ensures r in Orders(x, y, z) {
      ArrangementOfThree(x, y, z, r);
    }
  }

  /** An omitted size defaults to the length of the first ELEMENT: ["a"] gives [["a"]]. */
  lemma DefaultSizeSingle(arr: seq<string>)
    requires arr == ["a"]
    ensures Permutations(arr, 0) == [["a"]]
  {
    PermutationsCount(arr, 0);
    PermutationsSound(arr, 0);
    var p := Permutations(arr, 0);
    assert |p| == 1 && p[0] in p;
    assert p[0][0] in multiset(arr);
    assert p[0] == [p[0][0]];
    assert p == [p[0]];
  }

  /** The default is not the array's length: ["a", "b", "c"] gives its three single elements, ["ab"] nothing. */
  lemma DefaultSizeNotArrayLength(abc: seq<string>, ab: seq<string>)
    requires abc == ["a", "b", "c"] && ab == ["ab"]
    ensures |Permutations(abc, 0)| == 3
    ensures Permutations(ab, 0) == []
  {
    PermutationsCount(abc, 0);
    PermutationsCount(ab, 0);
  }
}
