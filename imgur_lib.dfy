/**
 * imgur.lib.js: expanding a seed hash into every rearrangement of its
 * characters, persisting that list under the hash, and draining it as a
 * FIFO queue that is checkpointed back to the same file after every lookup,
 * so an interrupted run can resume where it stopped.
 *
 * The JSON file ./storage.json is the field `file` of a `Storage` object:
 * `None` while the file does not exist, otherwise the parsed document, a map
 * from seed hash to its remaining candidates. The remote image lookup (an
 * HTTPS request, JSON.parse and a truthiness test) is the oracle `lookup`.
 */
module ImgurLib {
  import opened Wrappers
  import opened Sequences
  import P = Permutator

  /** The parsed contents of ./storage.json. */
  type Document = map<string, seq<string>>

  /** Why `traversePersist` throws before its first lookup. */
  datatype TraverseError =
    | NoDocument  // the file does not exist: `load` returns null and `null[hash]` throws
    | NoEntry     // the document has no entry for the hash: `undefined.length` throws

  /** `load(path) || {}`: the document to update, an empty one when there is no file. */
  function DocOrEmpty(file: Option<Document>): Document
  {
    match file
    case None => map[]
    case Some(doc) => doc
  }

  /** `hash.split('')`: one one-character string per character. */
  function Split(hash: string): (parts: seq<string>)
    ensures |parts| == |hash| && forall i :: 0 <= i < |hash| ==> parts[i] == [hash[i]]
  {
    seq(|hash|, i requires 0 <= i < |hash| => [hash[i]])
  }

  /** `parts.join('')`. */
  function Join(parts: seq<string>): string
  {
    if parts == [] then "" else Join(parts[..|parts| - 1]) + parts[|parts| - 1]
  }

  /** `permutations.map((e) => e.join(''))`. */
  function JoinAll(perms: seq<seq<string>>): (r: seq<string>)
    ensures |r| == |perms| && forall i :: 0 <= i < |perms| ==> r[i] == Join(perms[i])
  {
    seq(|perms|, i requires 0 <= i < |perms| => Join(perms[i]))
  }

  /** The list `propagatePersist(hash)` stores: every full-length permutation of the characters, joined. */
  ghost function Candidates(hash: string): seq<string>
  {
    JoinAll(P.Permutations(Split(hash), |hash|))
  }

  /** What the lookups of the candidates in `q` yield, in order: the payload of each hit. */
  function Found<R>(q: seq<string>, lookup: string -> Option<R>): (r: seq<R>)
    ensures |r| <= |q|
  {
    if q == [] then []
    else
      var hit := lookup(q[|q| - 1]);
      Found(q[..|q| - 1], lookup) + (if hit.Some? then [hit.value] else [])
  }

  class Storage {
    /** The file ./storage.json: `None` while it does not exist. */
    var file: Option<Document>

    constructor(initial: Option<Document>)
      ensures file == initial
    {
      file := initial;
    }

    /** fs.js `load`: the parsed document, or `None` (null) when there is no file. */
    method Load() returns (doc: Option<Document>)
      ensures doc == file
    {
      doc := file;
    }

    /** fs.js `store`: reload the document (an empty one if there is none), set one key, write it back. */
    method Store(key: string, variants: seq<string>)
      modifies this
      ensures file == Some(DocOrEmpty(old(file))[key := variants])
      ensures forall k :: k != key && old(file).Some? && k in old(file).value ==>
                file.value[k] == old(file).value[k]
    {
      var loaded := Load();
      var jsonData := DocOrEmpty(loaded);
      jsonData := jsonData[key := variants];
      file := Some(jsonData);
    }

    /** imgur.lib.js `propagatePersist`: split, take every full-length permutation, join each, store under `hash`. */
    method PropagatePersist(hash: string)
      modifies this
      ensures file == Some(DocOrEmpty(old(file))[hash := Candidates(hash)])
    {
      var splitted := Split(hash);
      var permutations := P.Permutator(splitted, |splitted|);
      var result := JoinAll(permutations);
      Store(hash, result);
    }

    /**
     * imgur.lib.js `traversePersist`: shift each candidate off the stored
     * queue, look it up, keep the hits, and store the shrunk queue back.
     * `asked` is the sequence of lookups made; `checkpoints[i]` is the entry
     * on disk for `hash` while the i-th lookup is in flight, and `stored[i]`
     * the entry on disk once the i-th iteration has stored its queue.
     */
    method TraversePersist<R>(hash: string, lookup: string -> Option<R>)
      returns (outcome: Result<seq<R>, TraverseError>, ghost asked: seq<string>,
               ghost checkpoints: seq<seq<string>>, ghost stored: seq<seq<string>>)
      modifies this
      ensures old(file).None? ==> outcome == Failure(NoDocument) && file == old(file) && asked == []
      ensures old(file).Some? && hash !in old(file).value ==>
                outcome == Failure(NoEntry) && file == old(file) && asked == []
      ensures old(file).Some? && hash in old(file).value ==>
                var queue := old(file).value[hash];
                && outcome == Success(Found(queue, lookup))
                && asked == queue
                && file == Some(old(file).value[hash := []])
                && |checkpoints| == |queue| && |stored| == |queue|
                && (forall i :: 0 <= i < |queue| ==> checkpoints[i] == queue[i..])
                && (forall i :: 0 <= i < |queue| ==> stored[i] == queue[i + 1..])
    {
      asked, checkpoints, stored := [], [], [];
      var loaded := Load();
      if loaded.None? {
        return Failure(NoDocument), asked, checkpoints, stored;
      }
      var doc := loaded.value;
      if hash !in doc {
        return Failure(NoEntry), asked, checkpoints, stored;
      }
      var queue := doc[hash];
      ghost var original := queue;
      var found: seq<R> := [];
      assert doc[hash := queue] == doc;
      while |queue| > 0
        invariant original == asked + queue
        invariant file == Some(doc[hash := queue])
        invariant found == Found(asked, lookup)
        invariant |checkpoints| == |asked| && |stored| == |asked|
        invariant forall i :: 0 <= i < |asked| ==> checkpoints[i] == original[i..]
        invariant forall i :: 0 <= i < |asked| ==> stored[i] == original[i + 1..]
        decreases |queue|
      {
        ghost var before := queue;
        var current := queue[0];
        queue := queue[1..];
        checkpoints := checkpoints + [file.value[hash]];
        var response := lookup(current);
        assert (asked + [current])[..|asked|] == asked;
        asked := asked + [current];
        if response.Some? {
          found := found + [response.value];
        }
        Store(hash, queue);
        assert doc[hash := before][hash := queue] == doc[hash := queue];
        stored := stored + [file.value[hash]];
      }
      assert asked == original by {
        assert asked + queue == asked;
      }
      return Success(found), asked, checkpoints, stored;
    }
  }

  // ---------------------------------------------------------------------
  // The stored candidates
  // ---------------------------------------------------------------------

  /** Joining the one-character parts of `hash` read at positions `t` reads `hash` at `t`. */
  lemma {:induction false} JoinPicksSplit(hash: string, t: seq<nat>)
    requires forall k :: 0 <= k < |t| ==> t[k] < |hash|
    ensures Join(Pick(Split(hash), t)) == Pick(hash, t)
  {
    if t != [] {
      var init := t[..|t| - 1];
      JoinPicksSplit(hash, init);
      assert Pick(Split(hash), t)[..|t| - 1] == Pick(Split(hash), init);
      assert Pick(hash, t) == Pick(hash, init) + [hash[t[|t| - 1]]];
    }
  }

  /**
   * The stored list is `hash` read at each
   * repetition-free ordering of all its positions, in the enumeration's
   * order: `Positions` lists each such ordering once.
   */
  lemma CandidatesReadPositions(hash: string)
    ensures P.AllBelow(|hash|, P.Positions(|hash|, |hash|))
    ensures Candidates(hash) == P.PickAll(hash, P.Positions(|hash|, |hash|))
  {
    if hash == "" {
      assert P.Positions(0, 0) == [];
      return;
    }
    var n := |hash|;
    var parts := Split(hash);
    P.PermutationsReadPositions(parts, n);
    var ts := P.Positions(n, n);
    forall j | 0 <= j < |ts|
      ensures Candidates(hash)[j] == Pick(hash, ts[j])
    {
      JoinPicksSplit(hash, ts[j]);
    }
  }

  /** |hash|! candidates are stored for a non-empty hash, none for the empty one. */
  lemma CandidatesCount(hash: string)
    ensures |Candidates(hash)| == if hash == "" then 0 else P.Factorial(|hash|)
  {
    if hash != "" {
      P.PermutationsCount(Split(hash), |hash|);
    }
  }

  lemma SubMultisetSameSize<T>(a: multiset<T>, b: multiset<T>)
    requires a <= b && |a| == |b|
    ensures a == b
  {
    assert |b - a| == |b| - |a|;
  }

  /** Reading `s` at a repetition-free ordering of all its positions rearranges it. */
  lemma ReadingAllPositionsRearranges(s: string, t: seq<nat>)
    requires |t| == |s| && Distinct(t) && forall x :: x in t ==> x < |s|
    ensures P.Below(|s|, t) && multiset(Pick(s, t)) == multiset(s)
  {
    assert forall k :: 0 <= k < |t| ==> t[k] in t;
    DistinctBelowIsSubRange(t, |s|);
    SubMultisetSameSize(multiset(t), multiset(Range(|s|)));
    PickMultiset(s, t, Range(|s|));
    assert Pick(s, Range(|s|)) == s;
  }

  /** Every stored candidate has the hash's length and exactly its characters. */
  lemma CandidatesRearrange(hash: string)
    ensures forall c :: c in Candidates(hash) ==> |c| == |hash| && multiset(c) == multiset(hash)
  {
    if hash != "" {
      var n := |hash|;
      CandidatesReadPositions(hash);
      P.PositionsExactly(n, n);
      var ts := P.Positions(n, n);
      forall j | 0 <= j < |ts|
        ensures |Candidates(hash)[j]| == n && multiset(Candidates(hash)[j]) == multiset(hash)
      {
        assert ts[j] in ts;
        ReadingAllPositionsRearranges(hash, ts[j]);
      }
    }
  }

  // ---------------------------------------------------------------------
  // The hits of a traversal
  // ---------------------------------------------------------------------

  /** A payload is found iff some candidate's lookup returned it. */
  lemma {:induction false} FoundMembers<R>(q: seq<string>, lookup: string -> Option<R>)
    ensures forall p :: p in Found(q, lookup) ==> exists i :: 0 <= i < |q| && lookup(q[i]) == Some(p)
    ensures forall i :: 0 <= i < |q| && lookup(q[i]).Some? ==> lookup(q[i]).value in Found(q, lookup)
  {
    if q != [] {
      var init := q[..|q| - 1];
      FoundMembers(init, lookup);
      forall i | 0 <= i < |q| && lookup(q[i]).Some?
        ensures lookup(q[i]).value in Found(q, lookup)
      {
        if i < |q| - 1 {
          assert init[i] == q[i];
        }
      }
      forall p | p in Found(q, lookup)
        ensures exists i :: 0 <= i < |q| && lookup(q[i]) == Some(p)
      {
        if p in Found(init, lookup) {
          var i :| 0 <= i < |init| && lookup(init[i]) == Some(p);
          assert q[i] == init[i];
        } else {
          assert lookup(q[|q| - 1]) == Some(p);
        }
      }
    }
  }

  /**
   * The hits of a queue are the hits of any prefix followed by the hits of
   * the rest: resuming from the checkpoint `q[i..]` after an interruption
   * during lookup i completes the hits of `q[..i]` to those of `q`.
   */
  lemma {:induction false} FoundSplit<R>(q: seq<string>, i: nat, lookup: string -> Option<R>)
    requires i <= |q|
    ensures Found(q[..i], lookup) + Found(q[i..], lookup) == Found(q, lookup)
    decreases |q|
  {
    if i == |q| {
      assert q[..i] == q;
      assert q[i..] == [];
    } else {
      var init := q[..|q| - 1];
      FoundSplit(init, i, lookup);
      assert init[..i] == q[..i];
      assert q[i..][..|q[i..]| - 1] == init[i..];
      assert q[i..][|q[i..]| - 1] == q[|q| - 1];
    }
  }

  /** A queue whose every lookup misses yields nothing; one whose every lookup hits yields one payload each. */
  lemma {:induction false} FoundExtremes<R>(q: seq<string>, lookup: string -> Option<R>)
    ensures (forall i :: 0 <= i < |q| ==> lookup(q[i]).None?) ==> Found(q, lookup) == []
    ensures (forall i :: 0 <= i < |q| ==> lookup(q[i]).Some?) ==> |Found(q, lookup)| == |q|
  {
    if q != [] {
      var init := q[..|q| - 1];
      FoundExtremes(init, lookup);
      assert forall i :: 0 <= i < |init| ==> init[i] == q[i];
    }
  }

  /** Three candidates of which only the second hits: one payload is found. */
  lemma OnlySecondOfThreeHits<R>(a: string, b: string, c: string, lookup: string -> Option<R>)
    requires lookup(a).None? && lookup(b).Some? && lookup(c).None?
    ensures Found([a, b, c], lookup) == [lookup(b).value]
  {
    assert [a, b, c][..2] == [a, b];
    assert [a, b][..1] == [a];
    assert [a][..0] == [];
    assert Found([a], lookup) == [];
    assert Found([a, b], lookup) == [lookup(b).value];
  }
}
