/** `MapMultiCriteriaRangeQueryIndex`: a catalog of named tries, each paired
    with the generator that turns an element into its key path. The
    `IllegalStateException` and `IllegalArgumentException` of the source
    become `Err` results; the catalog itself is returned by value. */
module Catalogs {
  import opened Wrappers
  import opened KeySets
  import Trie
  import Leaf = MultisetLeaf
  import Ranges = QueryRanges
  import opened Responses

  /** One sub-index: its generator (every generator builds its key set with
      `IndexKeySet.of`, so it is given as the key sequence) and its trie. */
  datatype NamedIndex<-E, V(==)> = NamedIndex(gen: E -> seq<Option<V>>, root: Trie.Node<Option<V>>)

  datatype Catalog<-E, V(==)> = Catalog(indices: map<string, NamedIndex<E, V>>)

  datatype Error = AlreadyDefined(id: string) | UnknownIndex(id: string)

  function Empty<E, V(==)>(): Catalog<E, V> {
    Catalog(map[])
  }

  /** The key set that sub-index `id` generates for `t`. */
  function KeysOf<E, V(==)>(c: Catalog<E, V>, id: string, t: E): KeySet<Option<V>>
    requires id in c.indices
  {
    KeySets.Of(c.indices[id].gen(t))
  }

  /** Every sub-index generates at least one key for `t` (an empty key set
      makes the source's trie `peek` past the end of its array). */
  predicate Keyed<E, V(==)>(c: Catalog<E, V>, t: E) {
    forall id :: id in c.indices ==> |c.indices[id].gen(t)| >= 1
  }

  /** Every sub-index other than `id` is the same in `c` and `d`. */
  ghost predicate OthersUnchanged<E(!new), V>(c: Catalog<E, V>, d: Catalog<E, V>, id: string) {
    forall j :: j in c.indices && j != id ==>
      j in d.indices && d.indices[j].root == c.indices[j].root
      && forall e :: d.indices[j].gen(e) == c.indices[j].gen(e)
  }

  // ---------------------------------------------------------------------------
  // Definition and insertion

  /** `define`: install `gen` and an empty trie under a fresh identifier;
      an identifier already in use is an error and nothing changes. */
  function Define<E(!new), V(==)>(c: Catalog<E, V>, id: string, gen: E -> seq<Option<V>>): (r: Result<Catalog<E, V>, Error>)
    ensures r.Err? <==> id in c.indices
    ensures r.Err? ==> r.error == AlreadyDefined(id)
    ensures r.Ok? ==> r.value.indices.Keys == c.indices.Keys + {id}
    ensures r.Ok? ==> r.value.indices[id].root == Trie.Empty()
    ensures r.Ok? ==> forall e :: r.value.indices[id].gen(e) == gen(e)
    ensures r.Ok? ==> OthersUnchanged(c, r.value, id)
  {
    if id in c.indices then Err(AlreadyDefined(id))
    else Ok(Catalog(c.indices[id := NamedIndex(gen, Trie.Empty())]))
  }

  /** `add(id, t, gen, pos)`: define `id` with `gen`, then insert `t` at `pos`. */
  function AddWithGenerator<E(!new), V(==)>(c: Catalog<E, V>, id: string, t: E, gen: E -> seq<Option<V>>, pos: int)
    : (r: Result<Catalog<E, V>, Error>)
    requires id !in c.indices ==> |gen(t)| >= 1
    ensures r.Err? <==> id in c.indices
    ensures r.Err? ==> r.error == AlreadyDefined(id)
    ensures r.Ok? ==> r.value.indices.Keys == c.indices.Keys + {id}
    ensures r.Ok? ==> r.value.indices[id].root == Trie.Add(Trie.Empty(), KeySets.Of(gen(t)), pos)
    ensures r.Ok? ==> forall e :: r.value.indices[id].gen(e) == gen(e)
    ensures r.Ok? ==> OthersUnchanged(c, r.value, id)
  {
    if id in c.indices then Err(AlreadyDefined(id))
    else Ok(Catalog(c.indices[id := NamedIndex(gen, Trie.Add(Trie.Empty(), KeySets.Of(gen(t)), pos))]))
  }

  /** `add(id, t, pos)`: insert `t` at `pos` into the existing sub-index `id`. */
  function AddTo<E(!new), V(==)>(c: Catalog<E, V>, id: string, t: E, pos: int): (r: Result<Catalog<E, V>, Error>)
    requires id in c.indices ==> |c.indices[id].gen(t)| >= 1
    ensures r.Err? <==> id !in c.indices
    ensures r.Err? ==> r.error == UnknownIndex(id)
    ensures r.Ok? ==> r.value.indices.Keys == c.indices.Keys
    ensures r.Ok? ==> r.value.indices[id].root == Trie.Add(c.indices[id].root, KeysOf(c, id, t), pos)
    ensures r.Ok? ==> forall e :: r.value.indices[id].gen(e) == c.indices[id].gen(e)
    ensures r.Ok? ==> OthersUnchanged(c, r.value, id)
  {
    if id !in c.indices then Err(UnknownIndex(id))
    else
      var ni := c.indices[id];
      Ok(Catalog(c.indices[id := NamedIndex(ni.gen, Trie.Add(ni.root, KeySets.Of(ni.gen(t)), pos))]))
  }

  /** `add(t, pos)`: insert `t` at `pos` into every sub-index whose key set for
      `t` has no null key; the others are left as they were. */
  function AddAll<E(!new), V(==)>(c: Catalog<E, V>, t: E, pos: int): (r: Catalog<E, V>)
    requires Keyed(c, t)
    ensures r.indices.Keys == c.indices.Keys
    ensures forall id :: id in c.indices ==> forall e :: r.indices[id].gen(e) == c.indices[id].gen(e)
    ensures forall id :: id in c.indices && HasNull(KeysOf(c, id, t)) ==> r.indices[id].root == c.indices[id].root
    ensures forall id :: id in c.indices && !HasNull(KeysOf(c, id, t)) ==>
      r.indices[id].root == Trie.Add(c.indices[id].root, KeysOf(c, id, t), pos)
  {
    Catalog(map id | id in c.indices ::
      var ni := c.indices[id];
      if HasNull(KeySets.Of(ni.gen(t))) then ni else NamedIndex(ni.gen, Trie.Add(ni.root, KeySets.Of(ni.gen(t)), pos)))
  }

  // ---------------------------------------------------------------------------
  // Single-index reads

  /** All keys of `w` but the last: the prefix that `drop()` leaves. */
  function ProperPrefix<K>(w: seq<K>): (p: seq<K>)
    ensures |w| >= 1 ==> w == p + [w[|w| - 1]]
    ensures |w| == 0 ==> p == []
  {
    if |w| == 0 then [] else w[..|w| - 1]
  }

  /** `drop()` on a freshly generated key set leaves exactly its proper prefix. */
  lemma DropOfIsProperPrefix<K>(w: seq<K>)
    ensures Valid(Drop(KeySets.Of(w))) && Window(Drop(KeySets.Of(w))) == ProperPrefix(w)
  {
    if |w| == 0 {
      assert Arity(Drop(KeySets.Of(w))) < 0;
    }
  }

  /** `query(id, t, s, e)`: the observations of `t`'s full key path in `[s, e]`. */
  function Query<E, V(==)>(c: Catalog<E, V>, id: string, t: E, s: int, e: int): (r: Result<int, Error>)
    requires id in c.indices ==> |c.indices[id].gen(t)| >= 1
    ensures r.Err? <==> id !in c.indices
    ensures r.Err? ==> r.error == UnknownIndex(id)
    ensures r.Ok? ==> r.value == Leaf.Query(Trie.ReachLeaf(c.indices[id].root, ProperPrefix(c.indices[id].gen(t))),
                                            c.indices[id].gen(t)[|c.indices[id].gen(t)| - 1], s, e)
  {
    if id !in c.indices then Err(UnknownIndex(id))
    else Ok(Trie.Query(c.indices[id].root, KeysOf(c, id, t), s, e))
  }

  /** `count(id, t, s, e)`: the distinct last keys under `t`'s proper prefix
      with an observation in `[s, e]`. */
  function Count<E, V(==)>(c: Catalog<E, V>, id: string, t: E, s: int, e: int): (r: Result<int, Error>)
    ensures r.Err? <==> id !in c.indices
    ensures r.Err? ==> r.error == UnknownIndex(id)
    ensures r.Ok? ==> r.value == Leaf.Count(Trie.ReachLeaf(c.indices[id].root, ProperPrefix(c.indices[id].gen(t))), s, e)
  {
    if id !in c.indices then Err(UnknownIndex(id))
    else
      DropOfIsProperPrefix(c.indices[id].gen(t));
      Ok(Trie.Count(c.indices[id].root, Drop(KeysOf(c, id, t)), s, e))
  }

  /** `count(id, keys, s, e)`: as `Count`, with a caller-built key set used as given. */
  function CountKeys<E, V(==)>(c: Catalog<E, V>, id: string, keys: KeySet<Option<V>>, s: int, e: int): (r: Result<int, Error>)
    requires Valid(keys)
    ensures r.Err? <==> id !in c.indices
    ensures r.Err? ==> r.error == UnknownIndex(id)
    ensures r.Ok? ==> r.value == Leaf.Count(Trie.ReachLeaf(c.indices[id].root, Window(keys)), s, e)
  {
    if id !in c.indices then Err(UnknownIndex(id))
    else Ok(Trie.Count(c.indices[id].root, keys, s, e))
  }

  /** `accumulate(id, t, s, e)` as the source has it: the distinct count of
      `count(id, t, s, e)`, not a sum of observations. */
  function AccumulateAsWritten<E, V(==)>(c: Catalog<E, V>, id: string, t: E, s: int, e: int): (r: Result<int, Error>)
    ensures r.Err? <==> id !in c.indices
    ensures r.Err? ==> r.error == UnknownIndex(id)
    ensures r.Ok? ==> r.value == Leaf.Count(Trie.ReachLeaf(c.indices[id].root, ProperPrefix(c.indices[id].gen(t))), s, e)
  {
    if id !in c.indices then Err(UnknownIndex(id))
    else
      DropOfIsProperPrefix(c.indices[id].gen(t));
      Ok(Trie.Count(c.indices[id].root, Drop(KeysOf(c, id, t)), s, e))
  }

  /** `accumulate(id, keys, s, e)` as the source has it: `count(id, keys, s, e)`. */
  function AccumulateKeysAsWritten<E, V(==)>(c: Catalog<E, V>, id: string, keys: KeySet<Option<V>>, s: int, e: int)
    : (r: Result<int, Error>)
    requires Valid(keys)
    ensures r.Err? <==> id !in c.indices
    ensures r.Err? ==> r.error == UnknownIndex(id)
    ensures r.Ok? ==> r.value == Leaf.Count(Trie.ReachLeaf(c.indices[id].root, Window(keys)), s, e)
  {
    if id !in c.indices then Err(UnknownIndex(id))
    else Ok(Trie.Count(c.indices[id].root, keys, s, e))
  }

  /** `accumulate(id, t, s, e)` as documented: every observation in `[s, e]`
      of every last key under `t`'s proper prefix. */
  ghost function Accumulate<E, V>(c: Catalog<E, V>, id: string, t: E, s: int, e: int): (r: Result<int, Error>)
    ensures r.Err? <==> id !in c.indices
    ensures r.Err? ==> r.error == UnknownIndex(id)
    ensures r.Ok? ==> r.value == Leaf.Accumulate(Trie.ReachLeaf(c.indices[id].root, ProperPrefix(c.indices[id].gen(t))), s, e)
    ensures r.Ok? ==> Count(c, id, t, s, e).value <= r.value
  {
    if id !in c.indices then Err(UnknownIndex(id))
    else
      DropOfIsProperPrefix(c.indices[id].gen(t));
      Trie.CountAtMostAccumulate(c.indices[id].root, Drop(KeysOf(c, id, t)), s, e);
      Ok(Trie.Accumulate(c.indices[id].root, Drop(KeysOf(c, id, t)), s, e))
  }

  /** `accumulate(id, keys, s, e)` as documented. */
  ghost function AccumulateKeys<E, V>(c: Catalog<E, V>, id: string, keys: KeySet<Option<V>>, s: int, e: int)
    : (r: Result<int, Error>)
    requires Valid(keys)
    ensures r.Err? <==> id !in c.indices
    ensures r.Err? ==> r.error == UnknownIndex(id)
    ensures r.Ok? ==> r.value == Leaf.Accumulate(Trie.ReachLeaf(c.indices[id].root, Window(keys)), s, e)
  {
    if id !in c.indices then Err(UnknownIndex(id))
    else Ok(Trie.Accumulate(c.indices[id].root, keys, s, e))
  }

  // ---------------------------------------------------------------------------
  // Batch reads

  /** The JOINT answer of sub-index `id` for `t` on `range`: -1 when `t`'s key
      set has a null key, the exact query otherwise. */
  function JointAnswer<E, V(==)>(c: Catalog<E, V>, id: string, t: E, range: Ranges.QueryRange): int
    requires id in c.indices && |c.indices[id].gen(t)| >= 1
  {
    if HasNull(KeysOf(c, id, t)) then -1 else Query(c, id, t, range.start, range.end).value
  }

  /** The COMBINATION answer: -1 when the dropped key set has a null key,
      the prefix count otherwise. */
  function CombinationAnswer<E, V(==)>(c: Catalog<E, V>, id: string, t: E, range: Ranges.QueryRange): int
    requires id in c.indices
  {
    if HasNull(Drop(KeysOf(c, id, t))) then -1 else Count(c, id, t, range.start, range.end).value
  }

  /** The (id, range) pairs of a cross product. */
  function Pairs(ids: set<string>, ranges: seq<Ranges.QueryRange>): set<Responses.Key> {
    set id, range | id in ids && range in ranges :: (id, range)
  }

  /** `query(t, ranges...)`: one JOINT entry per defined index and range. */
  function QueryRanges<E, V(==)>(c: Catalog<E, V>, t: E, ranges: seq<Ranges.QueryRange>): (r: Response)
    requires |ranges| > 0 ==> Keyed(c, t)
    ensures r.kind == Joint
    ensures r.entries.Keys == Pairs(c.indices.Keys, ranges)
    ensures forall id, range :: id in c.indices && range in ranges ==>
      Get(r, id, range) == Some(if HasNull(KeysOf(c, id, t)) then -1 else Query(c, id, t, range.start, range.end).value)
  {
    Response(Joint, map p | p in Pairs(c.indices.Keys, ranges) :: JointAnswer(c, p.0, t, p.1))
  }

  /** `count(t, ranges...)`: one COMBINATION entry per defined index and range. */
  function CountRanges<E, V(==)>(c: Catalog<E, V>, t: E, ranges: seq<Ranges.QueryRange>): (r: Response)
    ensures r.kind == Combination
    ensures r.entries.Keys == Pairs(c.indices.Keys, ranges)
    ensures forall id, range :: id in c.indices && range in ranges ==>
      Get(r, id, range) == Some(if HasNull(Drop(KeysOf(c, id, t))) then -1 else Count(c, id, t, range.start, range.end).value)
  {
    Response(Combination, map p | p in Pairs(c.indices.Keys, ranges) :: CombinationAnswer(c, p.0, t, p.1))
  }

  /** The first identifier of `ids` that names no sub-index. */
  function FirstUnknown<E, V(==)>(c: Catalog<E, V>, ids: seq<string>): (r: Option<string>)
    ensures r.None? <==> forall i :: 0 <= i < |ids| ==> ids[i] in c.indices
    ensures r.Some? ==>
      exists i :: 0 <= i < |ids| && ids[i] == r.value && ids[i] !in c.indices && forall j :: 0 <= j < i ==> ids[j] in c.indices
  {
    if |ids| == 0 then None
    else if ids[0] !in c.indices then Some(ids[0])
    else
      var rest := FirstUnknown(c, ids[1..]);
      if rest.Some? then
        var i :|
          0 <= i < |ids[1..]| && ids[1..][i] == rest.value && ids[1..][i] !in c.indices && forall j :: 0 <= j < i ==> ids[1..][j] in c.indices;
        assert ids[i + 1] == rest.value && forall j :: 0 <= j < i + 1 ==> ids[j] in c.indices;
        rest
      else rest
  }

  /** `query(t, ids, ranges)`: the JOINT cross product of the listed indices and
      ranges; the first unknown identifier is an error, as for `query(id, ...)`. */
  function QueryCross<E, V(==)>(c: Catalog<E, V>, t: E, ids: seq<string>, ranges: seq<Ranges.QueryRange>)
    : (r: Result<Response, Error>)
    requires |ranges| > 0 ==> forall id :: id in ids && id in c.indices ==> |c.indices[id].gen(t)| >= 1
    ensures r.Err? <==> exists i :: 0 <= i < |ids| && ids[i] !in c.indices
    ensures r.Err? ==> r.error.UnknownIndex? && r.error.id in ids && r.error.id !in c.indices
    ensures r.Ok? ==> r.value.kind == Joint && r.value.entries.Keys == Pairs((set id | id in ids), ranges)
    ensures r.Ok? ==> forall id, range :: id in ids && range in ranges ==>
      Get(r.value, id, range) == Some(if HasNull(KeysOf(c, id, t)) then -1 else Query(c, id, t, range.start, range.end).value)
    ensures r.Ok? && (|ranges| > 0 ==> Keyed(c, t)) ==> forall id, range :: id in ids && range in ranges ==>
      Get(r.value, id, range) == Get(QueryRanges(c, t, ranges), id, range)
  {
    var bad := FirstUnknown(c, ids);
    if bad.Some? then Err(UnknownIndex(bad.value))
    else Ok(Response(Joint, map p | p in Pairs((set id | id in ids), ranges) :: JointAnswer(c, p.0, t, p.1)))
  }

  /** `count(t, ids, ranges)`: the COMBINATION cross product of the listed
      indices and ranges; the first unknown identifier is an error. */
  function CountCross<E, V(==)>(c: Catalog<E, V>, t: E, ids: seq<string>, ranges: seq<Ranges.QueryRange>)
    : (r: Result<Response, Error>)
    ensures r.Err? <==> exists i :: 0 <= i < |ids| && ids[i] !in c.indices
    ensures r.Err? ==> r.error.UnknownIndex? && r.error.id in ids && r.error.id !in c.indices
    ensures r.Ok? ==> r.value.kind == Combination && r.value.entries.Keys == Pairs((set id | id in ids), ranges)
    ensures r.Ok? ==> forall id, range :: id in ids && range in ranges ==>
      Get(r.value, id, range) == Get(CountRanges(c, t, ranges), id, range)
  {
    var bad := FirstUnknown(c, ids);
    if bad.Some? then Err(UnknownIndex(bad.value))
    else Ok(Response(Combination, map p | p in Pairs((set id | id in ids), ranges) :: CombinationAnswer(c, p.0, t, p.1)))
  }

  // ---------------------------------------------------------------------------
  // Properties

  /** A freshly defined sub-index answers 0 to every read until something is added. */
  lemma DefineAnswersZero<E(!new), V>(c: Catalog<E, V>, id: string, gen: E -> seq<Option<V>>, t: E, s: int, e: int)
    requires id !in c.indices
    ensures Define(c, id, gen).Ok?
    ensures |gen(t)| >= 1 ==> Query(Define(c, id, gen).value, id, t, s, e) == Ok(0)
    ensures Count(Define(c, id, gen).value, id, t, s, e) == Ok(0)
    ensures Accumulate(Define(c, id, gen).value, id, t, s, e) == Ok(0)
  {
    var d := Define(c, id, gen).value;
    DropOfIsProperPrefix(gen(t));
    Trie.EmptyAnswersZero(Drop(KeysOf(d, id, t)), s, e);
    if |gen(t)| >= 1 {
      Trie.EmptyAnswersZero(KeysOf(d, id, t), s, e);
    }
  }

  /** Round trip for `add(id, t, gen, pos)`: the new sub-index holds exactly
      one observation, of `t`'s key path at `pos`. */
  lemma AddWithGeneratorQuery<E(!new), V>(c: Catalog<E, V>, id: string, t: E, gen: E -> seq<Option<V>>, pos: int,
                                              u: E, s: int, e: int)
    requires id !in c.indices && |gen(t)| >= 1 && |gen(u)| >= 1
    ensures AddWithGenerator(c, id, t, gen, pos).Ok?
    ensures Query(AddWithGenerator(c, id, t, gen, pos).value, id, u, s, e)
         == Ok(if gen(u) == gen(t) && s <= pos <= e then 1 else 0)
  {
    var d := AddWithGenerator(c, id, t, gen, pos).value;
    var ks, ks2 := KeySets.Of(gen(t)), KeySets.Of(gen(u));
    var root := Trie.Add(Trie.Empty(), ks, pos);
    assert d.indices[id].root == root && d.indices[id].gen(u) == gen(u);
    QueryIsTrieQuery(d, id, u, s, e);
    SingletonQuery(ks, pos, ks2, s, e);
  }

  /** A defined sub-index answers `query` with the trie's exact query. */
  lemma QueryIsTrieQuery<E, V>(c: Catalog<E, V>, id: string, t: E, s: int, e: int)
    requires id in c.indices && |c.indices[id].gen(t)| >= 1
    ensures Query(c, id, t, s, e) == Ok(Trie.Query(c.indices[id].root, KeysOf(c, id, t), s, e))
  {
  }

  /** A trie holding one observation answers 1 to a query of its own keys with
      a range holding the position, and 0 to everything else. */
  lemma SingletonQuery<V>(ks: KeySet<Option<V>>, pos: int, ks2: KeySet<Option<V>>, s: int, e: int)
    requires Valid(ks) && Arity(ks) >= 1 && Valid(ks2) && Arity(ks2) >= 1
    ensures Trie.Query(Trie.Add(Trie.Empty(), ks, pos), ks2, s, e)
         == if Window(ks) == Window(ks2) && s <= pos <= e then 1 else 0
  {
    Trie.QueryAfterAdd(Trie.Empty(), ks, pos, ks2, s, e);
    Trie.EmptyAnswersZero(ks2, s, e);
  }

  /** Round trip for `add(id, t, pos)`: the exact query of an element with the
      same key path grows by one when `pos` is in range; every other query of
      `id` and every read of another sub-index is unchanged. */
  lemma AddToQuery<E(!new), V>(c: Catalog<E, V>, id: string, t: E, pos: int, j: string, u: E, s: int, e: int)
    requires id in c.indices && |c.indices[id].gen(t)| >= 1
    requires j in c.indices && |c.indices[j].gen(u)| >= 1
    ensures AddTo(c, id, t, pos).Ok?
    ensures Query(AddTo(c, id, t, pos).value, j, u, s, e).value
         == Query(c, j, u, s, e).value
            + (if j == id && c.indices[id].gen(u) == c.indices[id].gen(t) && s <= pos <= e then 1 else 0)
  {
    var d := AddTo(c, id, t, pos).value;
    assert KeysOf(d, j, u) == KeysOf(c, j, u);
    if j == id {
      Trie.QueryAfterAdd(c.indices[id].root, KeysOf(c, id, t), pos, KeysOf(c, id, u), s, e);
    }
  }

  /** `add(t, pos)` is `add(id, t, pos)` on every sub-index without a null key:
      the exact query of an element with `t`'s key path in sub-index `id` grows
      by one when `pos` is in range and `t` has no null key for `id`. */
  lemma AddAllQuery<E(!new), V>(c: Catalog<E, V>, t: E, pos: int, id: string, u: E, s: int, e: int)
    requires Keyed(c, t)
    requires id in c.indices && |c.indices[id].gen(u)| >= 1
    ensures Query(AddAll(c, t, pos), id, u, s, e).value
         == Query(c, id, u, s, e).value
            + (if !HasNull(KeysOf(c, id, t)) && c.indices[id].gen(u) == c.indices[id].gen(t) && s <= pos <= e then 1 else 0)
  {
    var d := AddAll(c, t, pos);
    assert KeysOf(d, id, u) == KeysOf(c, id, u);
    if !HasNull(KeysOf(c, id, t)) {
      Trie.QueryAfterAdd(c.indices[id].root, KeysOf(c, id, t), pos, KeysOf(c, id, u), s, e);
    }
  }

  /** As written, both `accumulate` overloads answer what the matching `count` answers. */
  lemma AccumulateAsWrittenIsCount<E, V>(c: Catalog<E, V>, id: string, t: E, keys: KeySet<Option<V>>, s: int, e: int)
    requires Valid(keys)
    ensures AccumulateAsWritten(c, id, t, s, e) == Count(c, id, t, s, e)
    ensures AccumulateKeysAsWritten(c, id, keys, s, e) == CountKeys(c, id, keys, s, e)
  {
  }

  /** The documented `accumulate` never answers less than `count`, and it
      answers the same exactly when every last key under the prefix has at
      most one observation in range. */
  lemma CountAtMostAccumulate<E, V>(c: Catalog<E, V>, id: string, t: E, keys: KeySet<Option<V>>, s: int, e: int)
    requires Valid(keys)
    ensures Count(c, id, t, s, e).Ok? ==> Count(c, id, t, s, e).value <= Accumulate(c, id, t, s, e).value
    ensures Count(c, id, t, s, e).Ok?
        ==> (Count(c, id, t, s, e).value == Accumulate(c, id, t, s, e).value
             <==> Leaf.AtMostOnceInRange(Trie.ReachLeaf(c.indices[id].root, ProperPrefix(c.indices[id].gen(t))), s, e))
    ensures CountKeys(c, id, keys, s, e).Ok? ==> CountKeys(c, id, keys, s, e).value <= AccumulateKeys(c, id, keys, s, e).value
    ensures CountKeys(c, id, keys, s, e).Ok?
        ==> (CountKeys(c, id, keys, s, e).value == AccumulateKeys(c, id, keys, s, e).value
             <==> Leaf.AtMostOnceInRange(Trie.ReachLeaf(c.indices[id].root, Window(keys)), s, e))
  {
    if id in c.indices {
      ElementCountAccumulate(c, id, t, s, e);
      KeysCountAccumulate(c, id, keys, s, e);
    }
  }

  lemma ElementCountAccumulate<E, V>(c: Catalog<E, V>, id: string, t: E, s: int, e: int)
    requires id in c.indices
    ensures Count(c, id, t, s, e).value <= Accumulate(c, id, t, s, e).value
    ensures Count(c, id, t, s, e).value == Accumulate(c, id, t, s, e).value
        <==> Leaf.AtMostOnceInRange(Trie.ReachLeaf(c.indices[id].root, ProperPrefix(c.indices[id].gen(t))), s, e)
  {
    var leaf := Trie.ReachLeaf(c.indices[id].root, ProperPrefix(c.indices[id].gen(t)));
    assert Count(c, id, t, s, e).value == Leaf.Count(leaf, s, e);
    assert Accumulate(c, id, t, s, e).value == Leaf.Accumulate(leaf, s, e);
    Leaf.CountAtMostAccumulate(leaf, s, e);
  }

  lemma KeysCountAccumulate<E, V>(c: Catalog<E, V>, id: string, keys: KeySet<Option<V>>, s: int, e: int)
    requires id in c.indices && Valid(keys)
    ensures CountKeys(c, id, keys, s, e).value <= AccumulateKeys(c, id, keys, s, e).value
    ensures CountKeys(c, id, keys, s, e).value == AccumulateKeys(c, id, keys, s, e).value
        <==> Leaf.AtMostOnceInRange(Trie.ReachLeaf(c.indices[id].root, Window(keys)), s, e)
  {
    var leaf := Trie.ReachLeaf(c.indices[id].root, Window(keys));
    assert CountKeys(c, id, keys, s, e).value == Leaf.Count(leaf, s, e);
    assert AccumulateKeys(c, id, keys, s, e).value == Leaf.Accumulate(leaf, s, e);
    Leaf.CountAtMostAccumulate(leaf, s, e);
  }

  /** Listing exactly the defined identifiers, in any order and with repeats,
      gives the same answers as the all-indices form. */
  lemma CrossOfAllIndices<E, V>(c: Catalog<E, V>, t: E, ids: seq<string>, ranges: seq<Ranges.QueryRange>)
    requires (set id | id in ids) == c.indices.Keys
    requires |ranges| > 0 ==> Keyed(c, t)
    ensures QueryCross(c, t, ids, ranges) == Ok(QueryRanges(c, t, ranges))
    ensures CountCross(c, t, ids, ranges) == Ok(CountRanges(c, t, ranges))
  {
    assert forall i :: 0 <= i < |ids| ==> ids[i] in (set id | id in ids);
  }
}
