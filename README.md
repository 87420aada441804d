# Imgur seed-hash enumerator: a verified model

The repository guesses Imgur image ids by rearranging the characters of a
seed hash, and checks each guess against Imgur. This project models two of
its parts in Dafny and proves properties about them:

- **The combinatorics engine** (`arrangement.js`) has two enumerators. Each
  uses an explicit last-in-first-out work stack instead of recursion.
  - `combinator(sets)` gives the cartesian product of a list of lists. It is
    modelled by the method `Combinator.Combinator`.
  - `permutator(arr, size)` gives the ordered selections of `size` elements
    taken at distinct positions of `arr`. It is modelled by the method
    `Permutator.Permutator`.

  Both methods keep the source's stack, pop, emit-or-extend loop and inner
  push loops. Each one is proved to return a ghost specification function:
  `Combinations` or `Permutations`. That function lists the results in the
  exact order the stack produces them. The loop invariant is
  `result + Pending(stack) == spec`, where `Pending` is what the frames still
  on the stack will emit. Termination uses the number of search-tree nodes
  still below the stack.

- **Seed expansion and resumable traversal** (`imgur.lib.js`, with `load` and
  `store` from `fs.js`) are modelled by the class `ImgurLib.Storage`. Its
  field `file` is the JSON file `./storage.json`: `None` while the file does
  not exist, otherwise a map from seed hash to the candidates still left.
  - `PropagatePersist(hash)` splits the hash into characters, runs the
    permutator at full length, joins each result and stores the list under
    `hash`.
  - `TraversePersist(hash, lookup)` drains the stored list as a FIFO queue.
    Each iteration shifts the head, looks it up, keeps a hit and stores the
    shrunk queue back. The remote lookup (an HTTPS request, `JSON.parse` and
    a truthiness test) is the function parameter
    `lookup: string -> Option<R>`.

  `TraversePersist` also returns three ghost values, each read from the
  model's state:
  - `asked` is the sequence of lookups made;
  - `checkpoints[i]` is the entry for `hash` in `file` while lookup `i` is in
    flight;
  - `stored[i]` is that entry once iteration `i` has stored its queue.

  The contract says `checkpoints[i] == queue[i..]` and
  `stored[i] == queue[i + 1..]`. So the entry on disk is always a suffix of
  the original queue. It is either the in-memory queue, or that queue with
  the candidate being looked up in front. A run that is interrupted and then
  started again from the file repeats at most one lookup. `FoundSplit` is the
  identity `Found(q[..i]) + Found(q[i..]) == Found(q)` about the hits of a
  queue. The hits themselves are never stored (see "## Left out").

`Sequences` holds the sequence helpers: lexicographic order, distinctness,
`Range`, `Remove`, and `Pick` (reading a sequence at a list of positions).
`Wrappers` holds `Option` and `Result`.

**Default size.** A falsy `size` becomes `arr[0].length`, the length of the
first ELEMENT, not of the array (arrangement.js:69). The single-element test
passes only because `'a'.length == 1` (test.js:100-106). `EffectiveSize`
computes the defaulted size. `DefaultSizeSingle` and
`DefaultSizeNotArrayLength` state the consequences.

## Model

| member | source | states |
|---|---|---|
| Combinator.Combinator | arrangement.js:9-55 | the method returns exactly `Combinations(sets)`: every tuple the stack emits, in emission order, and `[]` for no sets |
| Combinator.CombinationsSound | arrangement.js:38-51 | every emitted tuple has one element per set, and element i is a member of set i |
| Combinator.CombinationsComplete | arrangement.js:26-52 | for a non-empty list of sets, every tuple that draws element i from set i is emitted |
| Combinator.CombinationsCount | arrangement.js:21-52 | the result count is the product of the set sizes; no sets gives `[]`; an empty set gives 0 tuples |
| Combinator.CombinationsOrder | arrangement.js:26-52 | result i reads index tuple i; the index tuples are exactly the valid index assignments, each listed once, in strictly decreasing lexicographic order (the LIFO order) |
| Combinator.MixedLengthsExample | test.js:12-24 | `[['a','b'],['1','2','3']]` gives exactly the six tuples the test lists, in the stack's emission order |
| Combinator.SingleSetExample | test.js:26-31 | `[['x']]` gives exactly `[['x']]` |
| Combinator.SameElementsNotMerged | test.js:40-50 | `[['a','b'],['a','b']]` gives exactly the four tuples the test lists, `['a','a']` and `['b','b']` among them: equal values in different sets are not merged |
| Permutator.PushChildren | arrangement.js:86-93 | pushes one frame per remaining element, in index order; each frame moves that element to `current` and removes it from `remaining` by position |
| Permutator.Permutator | arrangement.js:65-97 | the method returns exactly `Permutations(arr, size)`: `[]` for an empty array, otherwise the emission order after defaulting the size |
| Permutator.PermutationsSound | arrangement.js:72-93 | every result has the defaulted size, and its multiset of values is contained in `arr`'s |
| Permutator.PermutationsComplete | arrangement.js:72-93 | for a positive defaulted size, every sequence of that length whose values `arr` can supply is a result |
| Permutator.PermutationsNonPositive | arrangement.js:69-93 | a size that is, or defaults to, zero or below gives no result; this includes the default when the first element is empty |
| Permutator.PermutationsCount | arrangement.js:72-93 | for a positive size k there are n!/(n-k)! results; n! when k == n; none when k > n |
| Permutator.PermutationsReadPositions | arrangement.js:73-89 | the results are `arr` read at the position tuples of `Positions`, in the same order, so duplicate values are kept |
| Permutator.PositionsExactly | arrangement.js:72-93 | for a positive size, the position tuples are exactly the repetition-free tuples of `size` positions below n |
| Permutator.PermutationsDistinct | arrangement.js:72-93 | for an `arr` without repeated values and a positive size, the results are pairwise different |
| Permutator.PositionsOrderedOnce | arrangement.js:76-94 | the position tuples are listed once each, in strictly decreasing lexicographic order, n!/(n-size)! of them |
| Permutator.SameValuesNotMerged | arrangement.js:73-89 | `[v, v]` at size 2 gives two results, both `[v, v]`: removal is by position, not by value |
| Permutator.AllOrdersOfThree | test.js:77-90 | three values at size 3 give six results, including each of the six orders |
| Permutator.OnlyOrdersOfThree | test.js:77-90 | for three distinct values, every result at size 3 is one of their six orders |
| Permutator.DefaultSizeSingle | test.js:100-106 | `permutator(['a'])` gives `[['a']]`, because the default size is the length of `'a'` |
| Permutator.DefaultSizeNotArrayLength | arrangement.js:69 | the default is the first element's length: `['a','b','c']` gives 3 single-element results, and `['ab']` gives none |
| ImgurLib.Found | imgur.lib.js:112-126 | the hits of a queue number at most its length |
| ImgurLib.Storage.Load | fs.js:30-43 | returns the parsed document, or `None` when there is no file |
| ImgurLib.Storage.Store | fs.js:10-21 | the file becomes the old document (an empty one if there was none) with `key` set to `variants`; every other key keeps its value |
| ImgurLib.Storage.PropagatePersist | imgur.lib.js:41-59 | the file becomes the old document with `hash` mapped to `Candidates(hash)`; no other key changes |
| ImgurLib.Storage.TraversePersist | imgur.lib.js:79-134 | no file: fails with `NoDocument`, with no lookup and no write. Missing key: fails with `NoEntry`, the same way. Otherwise: looks up the queue's candidates once each, in FIFO order; returns their hits in order; leaves the entry `[]` and other keys untouched. The entry in the file during lookup i is the queue minus its first i candidates, and after the store of iteration i it is the queue minus its first i + 1 |
| ImgurLib.CandidatesReadPositions | imgur.lib.js:45-58 | the stored candidates are the hash read at each repetition-free ordering of all its positions |
| ImgurLib.CandidatesCount | imgur.lib.js:45-58 | `\|hash\|!` candidates are stored for a non-empty hash, none for `""` |
| ImgurLib.CandidatesRearrange | imgur.lib.js:45-58 | every candidate has the hash's length and exactly the hash's multiset of characters |
| ImgurLib.FoundMembers | imgur.lib.js:112-126 | a payload is in the result iff the lookup of some candidate returned it |
| ImgurLib.FoundSplit | imgur.lib.js:96-129 | for every i, the hits of `q[..i]` followed by the hits of `q[i..]` are the hits of `q` |
| ImgurLib.FoundExtremes | imgur.lib.js:112-126 | all misses give no hit; all hits give one payload per candidate |
| ImgurLib.OnlySecondOfThreeHits | imgur.lib.js:96-133 | three candidates where only the second hits give exactly that one payload |

## Left out

- `checkImgurImage` and `checkLink` (network.js): the HTTPS request and the streaming of the response. They are replaced by the pure oracle `lookup`. In the code, a rejected lookup promise (network.js:107-110) is not caught at imgur.lib.js:105. It aborts the traversal after the head was shifted but before it was checkpointed. The model's lookup always returns, so this abort path is not modelled.
- `JSON.parse` of the response and JS truthiness are folded into the oracle's `Option`. JSON (de)serialisation of the storage file is not modelled: the document is a `map<string, seq<string>>`, and entries that are not string lists do not occur.
- ImgurLib.Storage.Store: a failed write is swallowed by the catch block (fs.js:17-20), which leaves the previous file in place. The model's store always succeeds.
- `sleep` (imgur.lib.js:21-25) and the delay at imgur.lib.js:121 only affect timing, so they are left out.
- Console logging and the hard-coded client id (imgur.lib.js:105) are left out.
- The ESM `export` / `require` mismatch between modules is left out.
- The network tests (test.js:54-74) are left out. They call an undefined function.
- Permutator.Permutator: `size` is an `int`, and 0 stands for every falsy value (omitted, `undefined`, `0`). `NaN` and non-integer sizes are not modelled.
- Permutator.Permutator: the elements are strings. The code's default size reads `arr[0].length`, which only makes sense for elements that have a length.
- ImgurLib.Split: `split('')` splits on UTF-16 code units. The model splits a `seq<char>`, one string per `char`.
- Permutator.EffectiveSize: the default size `arr[0].length` counts UTF-16 code units. The model counts the `char`s of a `seq<char>`.
- ImgurLib.Storage.TraversePersist: `found` is a local array (imgur.lib.js:88, 125) that is never stored. An interrupted run never reaches `return found` (imgur.lib.js:133), so the hits found before an interruption are lost with the process; only a console line names each candidate. The model does not promise that hits survive an interruption.
- ImgurLib.Storage.TraversePersist: `queue` aliases the loaded document entry (imgur.lib.js:93). `store` re-reads the file, so that alias has no visible effect. The model copies the entry into a local sequence.
- ImgurLib.Storage.TraversePersist: concurrent writers of `./storage.json` are not modelled. The contract describes a single traversal.
- The storage path is fixed in the code (`./storage.json`). The model has one file per `Storage` object.
