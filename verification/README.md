# potts range indices, in Dafny

A model of the in-memory multi-criteria range index of `potts`
(package `com.baldrichcorp.potts.index`). The index records elements at
integer positions and answers closed-range questions about them. There are
five layers, and each has its own module:

- `KeySets` (`key_set.dfy`) models the key cursor `IndexKeySet`. It is an
  array of keys with a `[left, right)` window. `pop` and `peek` read it from
  the front, `drop` narrows it from the back, and `hasNext`/`isLast` test its
  length.
- `MultisetLeaf` (`multiset_leaf.dfy`) models the leaf range index
  `MultiSetRangeQueryIndex`: each element maps to a multiset of positions.
  - `query` counts one element's observations in `[l, r]`.
  - `accumulate` sums those counts over all elements.
  - `count` counts the distinct elements that have an observation in range.
- `ListLeaf` (`list_leaf.dfy`) models `ListRangeQueryIndex`, the same
  contract over per-element position lists.
  - It finds the first and last occurrence of a bound by repeated binary
    search, modelled step by step so that it is defined on any list.
  - It is refined against `MultisetLeaf` through an abstraction function
    while every list is sorted.
  - `add` appends, so out-of-order positions leave a list unsorted and
    `query` can miss observations (the third finding below). `Insert` is
    the sorted `add` the reads need.
- `Trie` (`trie.dfy`) models `MultisetRecursiveRangeQueryIndex`, a trie
  keyed by successive criterion values.
  - The last key of a path lands in the leaf index of the node its other
    keys lead to.
  - `query` follows an exact path.
  - `count` and `accumulate` follow a prefix and aggregate where the cursor
    runs out.
  - The trie is refined against a flat log of `(key path, position)`
    observations.
- `Catalogs` (`catalog.dfy`) models `MapMultiCriteriaRangeQueryIndex`: named
  sub-indices, each a generator plus a trie.
  - It provides `define`, three forms of `add`, and the `query`, `count` and
    `accumulate` reads.
  - The batch reads build a `RangeQueryResponse`.
  - The cross-product reads are declared in `MultiCriteriaRangeQueryIndex`.
  - Supporting modules:
    - `QueryRanges` (`query_range.dfy`) models `QueryRange`;
    - `Responses` (`response.dfy`) models `RangeQueryResponse`;
    - `Sums` (`sums.dfy`) sums over finite sets;
    - `Wrappers` (`wrappers.dfy`) holds `Option` and `Result`.
  - Worked examples:
    - `CatalogScenario` (`scenario.dfy`) is the email-then-name sub-index
      `"EmNa"` of the entry point;
    - `AccumulateCounterexample` (`accumulate_counterexample.dfy`) holds
      the counterexample of the second finding below.

Modelling choices:

- Java `null` is `None`. An exception is an `Err` of
  `Catalogs.Error`:
  - `AlreadyDefined` is `IllegalStateException`;
  - `UnknownIndex` is `IllegalArgumentException`.
- Positions are mathematical integers.
- Every mutable object is a value. An operation returns the new value
  instead of updating in place.
- The key cursor is passed by value.
- Sums and counts that the source computes with parallel streams are
  folds, because the results do not depend on the order.

Where the documentation and the code disagree, the code is modelled and the
documented behaviour is modelled beside it:

- The interface documents `accumulate` of the catalog as a sum of
  observations.
- The implementation returns the distinct count, and its own `TODO` says
  both overloads are incorrect.
- `Catalogs.AccumulateAsWritten` is the code and `Catalogs.Accumulate` is the
  documented sum.
- The same holds for `drop(n)`: `KeySets.DropNAsWritten` is the code and
  `KeySets.DropN` is the documented behaviour.

## Model

| member | source | states |
|---|---|---|
| KeySets.Window | src/main/java/com/baldrichcorp/potts/index/query/IndexKeySet.java:16-18 | the unconsumed keys `keys[left..right)`; their number is `right - left`, or none once `right` has passed `left` |
| KeySets.Of | src/main/java/com/baldrichcorp/potts/index/query/IndexKeySet.java:20-28 | a fresh cursor is valid, its arity is the array length and its window is the whole array |
| KeySets.HasNext | src/main/java/com/baldrichcorp/potts/index/query/IndexKeySet.java:74-76 | true exactly when the window still holds a key |
| KeySets.IsLast | src/main/java/com/baldrichcorp/potts/index/query/IndexKeySet.java:84-86 | true exactly when the window holds one key, and then `hasNext` holds too |
| KeySets.Pop | src/main/java/com/baldrichcorp/potts/index/query/IndexKeySet.java:35-37 | with keys left it returns the front key and the window loses that key (arity down by one); when exhausted it returns null and the cursor is unchanged; the array and `right` never change |
| KeySets.Peek | src/main/java/com/baldrichcorp/potts/index/query/IndexKeySet.java:44-46 | needs only `left` below the array length; with keys left it is the key `pop` would return |
| KeySets.DropNAsWritten | src/main/java/com/baldrichcorp/potts/index/query/IndexKeySet.java:63-66 | `drop(n)` as written: arity goes down by exactly one whatever `n` is; array and `left` unchanged; a valid cursor stays valid |
| KeySets.DropN | src/main/java/com/baldrichcorp/potts/index/query/IndexKeySet.java:57-66 | `drop(n)` as documented: arity goes down by `n`; the window is the old window without its last `n` keys, empty when `n` reaches the arity |
| KeySets.Drop | src/main/java/com/baldrichcorp/potts/index/query/IndexKeySet.java:53-55 | `drop()` equals `drop(1)` under both readings and removes exactly the last key of the window |
| KeySets.HasNull | src/main/java/com/baldrichcorp/potts/index/MapMultiCriteriaRangeQueryIndex.java:59 | a key set has a null exactly when `None` occurs in its unconsumed window |
| KeySets.DrainIsWindow | src/main/java/com/baldrichcorp/potts/index/query/IndexKeySet.java:35-37 | popping until `hasNext` fails yields exactly the window, front first |
| KeySets.DrainOf | src/main/java/com/baldrichcorp/potts/index/query/IndexKeySet.java:20-37 | round trip: popping a cursor made by `of` to exhaustion returns the array given to `of` |
| KeySets.NothingWidens | src/main/java/com/baldrichcorp/potts/index/query/IndexKeySet.java:35-66 | no operation raises `right - left` or changes the key array |
| KeySets.DropNIgnoresCount | src/main/java/com/baldrichcorp/potts/index/query/IndexKeySet.java:63-66 | on `of(1, 2, 3)`, `drop(2)` as written leaves two keys where the documented `drop(2)` leaves `[1]` |
| MultisetLeaf.Add | src/main/java/com/baldrichcorp/potts/index/MultiSetRangeQueryIndex.java:32-35 | the element set gains `t`; `t`'s multiset grows by exactly one copy of `pos`; every other element's observations are unchanged |
| MultisetLeaf.Query | src/main/java/com/baldrichcorp/potts/index/MultiSetRangeQueryIndex.java:41-46 | 0 for an unseen element or `l > r`; otherwise the number of observations in `[l, r]` with multiplicity; positive exactly when some observation lies in range |
| MultisetLeaf.Accumulate | src/main/java/com/baldrichcorp/potts/index/MultiSetRangeQueryIndex.java:52-58 | never negative; 0 on an empty index or when `l > r`; at least the `query` of every element (its exact value is fixed by `MultisetLeaf.AccumulateAfterAdd` and `MultisetLeaf.BuildAccumulate`) |
| MultisetLeaf.Count | src/main/java/com/baldrichcorp/potts/index/MultiSetRangeQueryIndex.java:64-66 | at most the number of elements; 0 exactly when every element's `query` is 0; 0 when `l > r` |
| MultisetLeaf.QueryAfterAdd | src/main/java/com/baldrichcorp/potts/index/MultiSetRangeQueryIndex.java:32-46 | after `add(t, pos)`, `query(u, l, r)` grows by one when `u == t` and `l <= pos <= r`, and is unchanged otherwise |
| MultisetLeaf.AccumulateAfterAdd | src/main/java/com/baldrichcorp/potts/index/MultiSetRangeQueryIndex.java:52-58 | `accumulate(l, r)` grows by one for an `add` whose position lies in range, and is unchanged otherwise |
| MultisetLeaf.CountAtMostAccumulate | src/main/java/com/baldrichcorp/potts/index/RangeQueryIndex.java:32-48 | the number of distinct elements in range never exceeds the number of observations in range, and equals it exactly when no element has more than one observation in range |
| MultisetLeaf.BuildQuery | src/main/java/com/baldrichcorp/potts/index/RangeQueryIndex.java:22-30 | on the index built from a log of `add` calls, `query(t, l, r)` is the number of logged observations of `t` in `[l, r]` |
| MultisetLeaf.BuildAccumulate | src/main/java/com/baldrichcorp/potts/index/RangeQueryIndex.java:32-39 | on a built index, `accumulate(l, r)` is the number of logged observations of any element in `[l, r]` |
| MultisetLeaf.BuildCount | src/main/java/com/baldrichcorp/potts/index/RangeQueryIndex.java:41-48 | on a built index, `count(l, r)` is the number of distinct logged elements with an observation in `[l, r]` |
| ListLeaf.BinarySearch | src/main/java/com/baldrichcorp/potts/index/ListRangeQueryIndex.java:24 | on any list, an index holding `key` or a negative code; on a sorted list it finds `key` exactly when `key` is there, and otherwise answers `-(insertion point) - 1` |
| ListLeaf.LowerBound | src/main/java/com/baldrichcorp/potts/index/ListRangeQueryIndex.java:23-32 | on a sorted list holding `key`, the index of its first occurrence (everything before it is smaller); otherwise the not-found code; a non-negative answer always holds `key` |
| ListLeaf.UpperBound | src/main/java/com/baldrichcorp/potts/index/ListRangeQueryIndex.java:34-43 | on a sorted list holding `key`, the index of its last occurrence (everything after it is larger); otherwise the not-found code; a non-negative answer always holds `key` |
| ListLeaf.Add | src/main/java/com/baldrichcorp/potts/index/ListRangeQueryIndex.java:46-49 | `pos` goes at the end of `t`'s list, created on first use; every other list is unchanged; seen as multisets, it is the multiset leaf's `add` (for a non-null element: the source throws on null, see Left out); appending a position no smaller than the list keeps every list sorted |
| ListLeaf.BoundsCount | src/main/java/com/baldrichcorp/potts/index/ListRangeQueryIndex.java:56-61 | the arithmetic on the two bound results (decoding negative codes, adding one on a hit) is the number of list elements in `[l, r]` |
| ListLeaf.Query | src/main/java/com/baldrichcorp/potts/index/ListRangeQueryIndex.java:52-62 | 0 for an unseen element or `l > r`; when the element's list is sorted, the same answer as the multiset leaf's `query` on the same observations |
| ListLeaf.Accumulate | src/main/java/com/baldrichcorp/potts/index/ListRangeQueryIndex.java:64-70 | the sum of `query` over every element, in no particular order; with sorted lists, equal to the multiset leaf's `accumulate` |
| ListLeaf.Count | src/main/java/com/baldrichcorp/potts/index/ListRangeQueryIndex.java:73-80 | the number of elements with a positive `query`; with sorted lists, equal to the multiset leaf's `count` |
| ListLeaf.BuildAbs | src/main/java/com/baldrichcorp/potts/index/ListRangeQueryIndex.java:46-49 | replaying a log of `add` calls into the list index or the multiset index gives the same observations |
| ListLeaf.BuildSorted | src/main/java/com/baldrichcorp/potts/index/ListRangeQueryIndex.java:46-49 | positions added in non-decreasing order leave every list sorted and bounded by the last position |
| ListLeaf.OutOfOrderQueryMisses | src/main/java/com/baldrichcorp/potts/index/ListRangeQueryIndex.java:46-62 | after `add(t, p)` then `add(t, q)` with `q < p`, the list is `[p, q]`, the binary search for `q` misses, and `query(t, q, q)` answers 0 where the log holds one observation |
| ListLeaf.InsertSorted | src/main/java/com/baldrichcorp/potts/index/ListRangeQueryIndex.java:46-49 | the corrected list update: one more copy of `pos` and nothing else, and a sorted list stays sorted |
| ListLeaf.Insert | src/main/java/com/baldrichcorp/potts/index/ListRangeQueryIndex.java:46-49 | the corrected `add`: seen as multisets it is the multiset leaf's `add`, and it keeps every list sorted whatever the order of the positions |
| ListLeaf.BuildInsertedAbs | src/main/java/com/baldrichcorp/potts/index/ListRangeQueryIndex.java:46-49 | replaying any log with the corrected `add` leaves every list sorted and gives the logged observations |
| ListLeaf.BuildInsertedQuery | src/main/java/com/baldrichcorp/potts/index/ListRangeQueryIndex.java:52-62 | with the corrected `add`, `query` is the number of logged observations in range, for positions added in any order |
| Trie.Add | src/main/java/com/baldrichcorp/potts/index/MultisetRecursiveRangeQueryIndex.java:27-34 | on the last key the node's leaf records it and no branch is created; otherwise the leaf is untouched and the branch keys gain the front key |
| Trie.Query | src/main/java/com/baldrichcorp/potts/index/MultisetRecursiveRangeQueryIndex.java:40-47 | the leaf `query` of the last key at the node reached by the other keys, 0 when that path is missing |
| Trie.Accumulate | src/main/java/com/baldrichcorp/potts/index/MultisetRecursiveRangeQueryIndex.java:53-60 | the leaf `accumulate` at the node reached by the whole window, 0 when that path is missing |
| Trie.Count | src/main/java/com/baldrichcorp/potts/index/MultisetRecursiveRangeQueryIndex.java:66-73 | the leaf `count` at the node reached by the whole window, 0 when that path is missing |
| Trie.AddReach | src/main/java/com/baldrichcorp/potts/index/MultisetRecursiveRangeQueryIndex.java:27-34 | an `add` changes exactly one leaf, the one reached by all but the last key, which gains one observation of the last key |
| Trie.QueryAfterAdd | src/main/java/com/baldrichcorp/potts/index/MultisetRecursiveRangeQueryIndex.java:27-47 | after `add(ks, pos)`, `query` of the same key path grows by one when `pos` is in range; every other query is unchanged |
| Trie.EmptyAnswersZero | src/main/java/com/baldrichcorp/potts/index/MultisetRecursiveRangeQueryIndex.java:40-73 | an empty trie answers 0 to `query`, `count` and `accumulate` |
| Trie.CountAtMostAccumulate | src/main/java/com/baldrichcorp/potts/index/RecursiveRangeQueryIndex.java:34-52 | under any prefix, the distinct count never exceeds the number of observations, and equals it exactly when every last key under the prefix has at most one observation in range |
| Trie.BuildReach | src/main/java/com/baldrichcorp/potts/index/MultisetRecursiveRangeQueryIndex.java:27-34 | in the trie built from a log, the leaf reached by a path is the leaf built from the observations whose path extends it by one key |
| Trie.QueryRefines | src/main/java/com/baldrichcorp/potts/index/RecursiveRangeQueryIndex.java:24-32 | on a built trie, `query` is the number of logged observations of exactly that key path in range |
| Trie.AccumulateRefines | src/main/java/com/baldrichcorp/potts/index/RecursiveRangeQueryIndex.java:34-42 | on a built trie, `accumulate` is the number of logged in-range observations whose path extends the prefix by one key |
| Trie.CountRefines | src/main/java/com/baldrichcorp/potts/index/RecursiveRangeQueryIndex.java:44-52 | on a built trie, `count` is the number of distinct keys that extend the prefix in some logged in-range observation |
| QueryRanges.Of | src/main/java/com/baldrichcorp/potts/index/query/QueryRange.java:29-46 | the bounds are stored unchanged (a reversed range is kept); a given name is kept; a missing name becomes a default name that reads back as `(start, end)` |
| QueryRanges.OfBounds | src/main/java/com/baldrichcorp/potts/index/query/QueryRange.java:57-59 | `of(start, end)` is `of(null, start, end)` |
| QueryRanges.DefaultNameParses | src/main/java/com/baldrichcorp/potts/index/query/QueryRange.java:30 | round trip: parsing the default name `[start-end]` gives back `start` and `end`, negative bounds included |
| QueryRanges.DefaultNameInjective | src/main/java/com/baldrichcorp/potts/index/query/QueryRange.java:30 | different bounds always give different default names |
| Responses.Symbol | src/main/java/com/baldrichcorp/potts/index/query/RangeQueryResponse.java:53-65 | each query type prints as one character, and it is "J" exactly for JOINT |
| Responses.New | src/main/java/com/baldrichcorp/potts/index/query/RangeQueryResponse.java:21-27 | a new response keeps its type and has no entries |
| Responses.Add | src/main/java/com/baldrichcorp/potts/index/query/RangeQueryResponse.java:29-32 | `get` of the added pair answers the added value (overwriting); every other entry is unchanged; the key set gains exactly that pair |
| Responses.Get | src/main/java/com/baldrichcorp/potts/index/query/RangeQueryResponse.java:34-36 | a value exactly for a stored pair, null otherwise |
| Responses.Merge | src/main/java/com/baldrichcorp/potts/index/query/RangeQueryResponse.java:38-43 | the receiver's type; the union of the keys; on a shared key the argument's value wins, elsewhere each side's value is kept |
| Responses.MergeAssociative | src/main/java/com/baldrichcorp/potts/index/query/RangeQueryResponse.java:38-43 | merging is associative |
| Responses.MergeEmpty | src/main/java/com/baldrichcorp/potts/index/query/RangeQueryResponse.java:38-43 | merging an empty response into a response returns it unchanged; merging a response into an empty one keeps exactly its entries |
| Responses.ResponseMap | src/main/java/com/baldrichcorp/potts/index/query/RangeQueryResponse.java:45-51 | the keys are exactly the labels `id_symbol_rangeName` of the entries; each value comes from an entry with that label, and is that entry's value when no other entry shares the label |
| Catalogs.Define | src/main/java/com/baldrichcorp/potts/index/MapMultiCriteriaRangeQueryIndex.java:67-72 | fails with "already defined" exactly when the id exists; otherwise adds the id with the given generator and an empty trie and leaves every other sub-index unchanged |
| Catalogs.AddWithGenerator | src/main/java/com/baldrichcorp/potts/index/MapMultiCriteriaRangeQueryIndex.java:35-41 | fails like `define` on an existing id; otherwise defines the id and its trie is the empty trie after one `add` of the generated keys |
| Catalogs.AddTo | src/main/java/com/baldrichcorp/potts/index/MapMultiCriteriaRangeQueryIndex.java:46-50 | fails with "unknown index" exactly when the id is undefined; otherwise that trie gets one `add` of the generated keys and nothing else changes |
| Catalogs.AddAll | src/main/java/com/baldrichcorp/potts/index/MapMultiCriteriaRangeQueryIndex.java:55-62 | every sub-index whose key set has a null is left untouched; every other sub-index gets one `add`; ids and generators are unchanged |
| Catalogs.DropOfIsProperPrefix | src/main/java/com/baldrichcorp/potts/index/MapMultiCriteriaRangeQueryIndex.java:119 | `drop()` on a freshly generated key set leaves all its keys but the last |
| Catalogs.Query | src/main/java/com/baldrichcorp/potts/index/MapMultiCriteriaRangeQueryIndex.java:77-81 | "unknown index" exactly for an undefined id; otherwise the observations of the element's full key path in range |
| Catalogs.Count | src/main/java/com/baldrichcorp/potts/index/MapMultiCriteriaRangeQueryIndex.java:116-120 | "unknown index" exactly for an undefined id; otherwise the distinct last keys in range under the element's proper prefix |
| Catalogs.CountKeys | src/main/java/com/baldrichcorp/potts/index/MapMultiCriteriaRangeQueryIndex.java:125-129 | as `count`, with the caller's key set used as given (no `drop`) |
| Catalogs.AccumulateAsWritten | src/main/java/com/baldrichcorp/potts/index/MapMultiCriteriaRangeQueryIndex.java:136-140 | as written: "unknown index" for an undefined id, otherwise the distinct count under the proper prefix, not a sum |
| Catalogs.AccumulateKeysAsWritten | src/main/java/com/baldrichcorp/potts/index/MapMultiCriteriaRangeQueryIndex.java:145-149 | as written: what `count(id, keys, s, e)` answers |
| Catalogs.Accumulate | src/main/java/com/baldrichcorp/potts/index/MultiCriteriaRangeQueryIndex.java:128-137 | as documented: "unknown index" for an undefined id, otherwise every in-range observation under the element's proper prefix, which is never less than `count` |
| Catalogs.AccumulateKeys | src/main/java/com/baldrichcorp/potts/index/MultiCriteriaRangeQueryIndex.java:139-148 | as documented, for a caller-built key set |
| Catalogs.QueryRanges | src/main/java/com/baldrichcorp/potts/index/MapMultiCriteriaRangeQueryIndex.java:86-96 | a JOINT response with exactly one entry per (defined id, range): -1 when the key set has a null, otherwise that id's `query` on the range |
| Catalogs.CountRanges | src/main/java/com/baldrichcorp/potts/index/MapMultiCriteriaRangeQueryIndex.java:101-111 | a COMBINATION response with exactly one entry per (defined id, range): -1 when the dropped key set has a null, otherwise that id's `count` on the range |
| Catalogs.QueryCross | src/main/java/com/baldrichcorp/potts/index/MultiCriteriaRangeQueryIndex.java:64-83 | fails exactly when a listed id is undefined, naming an undefined listed id; otherwise a JOINT response with one entry per (listed id, range), each the single-range answer; only the listed ids need a non-empty key set |
| Catalogs.CountCross | src/main/java/com/baldrichcorp/potts/index/MultiCriteriaRangeQueryIndex.java:85-96 | the same for COMBINATION entries built from `count` |
| Catalogs.DefineAnswersZero | src/main/java/com/baldrichcorp/potts/index/MapMultiCriteriaRangeQueryIndex.java:67-72 | a freshly defined sub-index answers 0 to `query`, `count` and `accumulate` |
| Catalogs.AddWithGeneratorQuery | src/main/java/com/baldrichcorp/potts/index/MapMultiCriteriaRangeQueryIndex.java:35-41 | after `add(id, t, gen, pos)`, `query` of an element answers 1 when its key path equals `t`'s and `pos` is in range, and 0 otherwise |
| Catalogs.AddToQuery | src/main/java/com/baldrichcorp/potts/index/MapMultiCriteriaRangeQueryIndex.java:46-50 | after `add(id, t, pos)`, a query of `id` with `t`'s key path and a range holding `pos` grows by one; every other query, in every sub-index, is unchanged |
| Catalogs.AddAllQuery | src/main/java/com/baldrichcorp/potts/index/MapMultiCriteriaRangeQueryIndex.java:55-62 | after `add(t, pos)`, each sub-index's queries change exactly as after `add(id, t, pos)` when `t`'s key set there has no null, and not at all otherwise |
| Catalogs.AccumulateAsWrittenIsCount | src/main/java/com/baldrichcorp/potts/index/MapMultiCriteriaRangeQueryIndex.java:131-149 | both `accumulate` overloads as written answer exactly what the matching `count` answers |
| Catalogs.CountAtMostAccumulate | src/main/java/com/baldrichcorp/potts/index/MultiCriteriaRangeQueryIndex.java:98-148 | the documented `accumulate` never answers less than `count`, for both overloads, and answers the same exactly when every last key under the prefix has at most one observation in range |
| Catalogs.CrossOfAllIndices | src/main/java/com/baldrichcorp/potts/index/MultiCriteriaRangeQueryIndex.java:64-96 | listing exactly the defined ids, in any order and with repeats, makes the cross-product reads equal the all-index batch reads |
| CatalogScenario.DefineIsEmptyScenario | src/main/java/com/baldrichcorp/potts/Main.java:37 | defining "EmNa" with the email-then-name generator in an empty catalog gives the example catalog over the empty log |
| CatalogScenario.AddToExtendsScenario | src/main/java/com/baldrichcorp/potts/index/MapMultiCriteriaRangeQueryIndex.java:46-50 | each `add` on "EmNa" extends the example's log by the element's key path and position |
| CatalogScenario.EmailNameReads | src/main/java/com/baldrichcorp/potts/index/MapMultiCriteriaRangeQueryIndex.java:116-140 | on "EmNa", `count` and `accumulate` (both as written) are the distinct names logged under the element's email in range; the documented `accumulate` is the number of those observations |
| AccumulateCounterexample.AccumulateUndercounts | src/main/java/com/baldrichcorp/potts/index/MapMultiCriteriaRangeQueryIndex.java:136-140 | with one name seen twice and another once under one email in `[1, 5]`, `accumulate` as written answers 2 while the documented sum is 3 |

## Left out

- Input and output (`io/CSVConsumer`, `io/CSVProducer`, `io/Consumer`) and
  the entry point `Main`: they hold no indexing logic and depend on files and
  clocks. `Main` is used only for the "EmNa" example.
- `TreeMultiCriteriaRangeQueryIndex` is an older revision. It instantiates an
  interface, so it cannot run.
- `index/IndexKeySet` is the same cursor as `query/IndexKeySet` with `drop`
  named `trim`. One model covers both.
- Concurrency (`parallelStream`, `ConcurrentHashMap`, `LongAdder`): every
  fan-out is a sequential fold. Sums and distinct counts do not depend on
  the order.
- Overflow of `LongAdder.intValue()` and of Java `int` arithmetic on the
  cursor: integers are unbounded.
- Guava `TreeMultiset` internals are not modelled: the leaf is a
  `multiset<int>`.
- `Collections.binarySearch` is a library call. It is modelled as the
  halving search the JDK runs on a random-access list, so that it is
  defined on unsorted lists too. Its documentation calls the result on an
  unsorted list undefined; the model answers what that algorithm answers.
- `toString` of a generic position: positions are `int`, printed as
  `Integer.toString` prints them.
- Trie and catalog reads take the cursor by value. The source consumes a
  caller-supplied cursor, so the caller can see the cursor consumed
  afterwards. Only `count(id, keys, ...)` and `accumulate(id, keys, ...)`
  receive a cursor from the caller, and that consumption is not modelled.
- Generators are modelled as producing a key sequence, wrapped with
  `IndexKeySet.of`. Every generator in the program is built that way.
- `hasNull` is not defined in the cursor class shown. It is assumed to mean
  that some key in the unconsumed window is null.
- An empty key set makes the source fail on `peek`. The trie's `add` and
  `query` therefore require arity at least 1, and so do the catalog
  operations that reach them.
- Catalogs.QueryCross: the cross-product reads are declared in the interface
  but not implemented. They are specified from the interface:
  - an undefined listed id is an error, as in the single-index reads;
  - a null key answers -1, as in the batch reads.
- Catalogs.CountCross: specified from the interface in the same way as
  `QueryCross`.
- Responses.ResponseMap: when two entries share a label, the source keeps
  whichever value its stream writes last. The contract states only that the
  value comes from one of those entries.
- CatalogScenario.AddToExtendsScenario: states that the ids and the trie
  match the example over the extended log. It does not state equality of the
  whole catalog value, because the generator is a function value.
- MultisetLeaf.Accumulate: its own contract states non-negativity, the zero
  cases and that it bounds every `query`. The sum it computes is stated by
  `MultisetLeaf.AccumulateAfterAdd` and `MultisetLeaf.BuildAccumulate`.
- ListLeaf.Query: agrees with the multiset leaf only while the element's
  list is sorted. The source's `add` appends, so positions added out of
  order break this (third finding below). For an unsorted list the
  contract states only the zero cases; `ListLeaf.OutOfOrderQueryMisses`
  shows one such answer, and the value in general is left to the body.
- ListLeaf.Add / ListLeaf.Query: the source keeps its lists in a
  `ConcurrentHashMap`, so `add(null, pos)` and `query(null, l, r)` throw
  a NullPointerException, while the multiset leaf's `HashMap` accepts a
  null element. The model's leaf is generic in its element type and
  treats every element value alike, `None` included, so the list leaf's
  throw on a null element is not modelled.
- ListLeaf.Accumulate: agrees with the multiset leaf only while every list
  is sorted, for the same reason as `ListLeaf.Query`.
- ListLeaf.Count: agrees with the multiset leaf only while every list is
  sorted, for the same reason as `ListLeaf.Query`.

## Findings

| source | as written | input that shows it | evidently intended | confidence | as-written member | corrected member |
|---|---|---|---|---|---|---|
| src/main/java/com/baldrichcorp/potts/index/query/IndexKeySet.java:63-66 | `drop(n)` decrements `right` once and ignores `n` | `of(1, 2, 3).drop(2)` leaves the window `[1, 2]` | remove the last `n` keys, leaving `[1]` | high, not executed | KeySets.DropNAsWritten | KeySets.DropN |
| src/main/java/com/baldrichcorp/potts/index/MapMultiCriteriaRangeQueryIndex.java:136-140 | `accumulate(id, t, s, e)` returns the distinct `count` | "EmNa" holding ("a", "jon") at 1 and 5 and ("a", "arya") at 1; `accumulate("EmNa", ("a", "jon"), 1, 5)` answers 2 | the sum of observations under the email, 3 | high, not executed | Catalogs.AccumulateAsWritten | Catalogs.Accumulate |
| src/main/java/com/baldrichcorp/potts/index/ListRangeQueryIndex.java:46-49 | `add` appends the position, so a list is sorted only if positions arrive in order, yet `query` binary-searches it | `add(t, 5)` then `add(t, 1)` leaves `[5, 1]`; `binarySearch([5, 1], 1)` answers -1 and `query(t, 1, 1)` answers 0 | keep each list sorted (insert at the search's insertion point), so `query(t, 1, 1)` answers 1 | high, not executed | ListLeaf.Add | ListLeaf.Insert |

The first row's counterexample is `KeySets.DropNIgnoresCount`, the second
row's is `AccumulateCounterexample.AccumulateUndercounts`, and the third
row's is `ListLeaf.OutOfOrderQueryMisses`; `ListLeaf.BuildInsertedQuery`
proves the corrected `add` right for every order of positions.
