/** `query/RangeQueryResponse`: the answers of a batch query, keyed by
    (index id, range), tagged with the kind of query that produced them. */
module Responses {
  import opened Wrappers
  import opened QueryRanges

  /** `QueryType`: JOINT for exact queries, COMBINATION for prefix counts. */
  datatype QueryType = Joint | Combination

  /** The symbol `QueryType.toString` prints. */
  function Symbol(t: QueryType): (s: string)
    ensures |s| == 1
    ensures t == Joint <==> s == "J"
  {
    match t
    case Joint => "J"
    case Combination => "C"
  }

  type Key = (string, QueryRange)

  datatype Response = Response(kind: QueryType, entries: map<Key, int>)

  function New(kind: QueryType): (r: Response)
    ensures r.kind == kind && forall id, range :: Get(r, id, range) == None
  {
    Response(kind, map[])
  }

  /** `add`: record the answer for `(id, range)`, replacing any earlier one;
      returns the response itself (with the entry added). */
  function Add(resp: Response, id: string, range: QueryRange, answer: int): (r: Response)
    ensures r.kind == resp.kind
    ensures Get(r, id, range) == Some(answer)
    ensures forall id2, range2 :: (id2, range2) != (id, range) ==> Get(r, id2, range2) == Get(resp, id2, range2)
    ensures r.entries.Keys == resp.entries.Keys + {(id, range)}
  {
    Response(resp.kind, resp.entries[(id, range) := answer])
  }

  /** `get`: the answer for `(id, range)`, or `None` for Java's null. */
  function Get(resp: Response, id: string, range: QueryRange): (v: Option<int>)
    ensures v.Some? <==> (id, range) in resp.entries
  {
    if (id, range) in resp.entries then Some(resp.entries[(id, range)]) else None
  }

  /** `merge`: a new response of this response's kind holding both operands'
      entries; on a shared key the argument's answer wins. Neither operand changes. */
  function Merge(resp: Response, that: Response): (r: Response)
    ensures r.kind == resp.kind
    ensures r.entries.Keys == resp.entries.Keys + that.entries.Keys
    ensures forall id, range :: Get(r, id, range) == if Get(that, id, range).Some? then Get(that, id, range) else Get(resp, id, range)
  {
    Response(resp.kind, resp.entries + that.entries)
  }

  /** Merging is associative in content. */
  lemma MergeAssociative(a: Response, b: Response, c: Response)
    ensures Merge(Merge(a, b), c) == Merge(a, Merge(b, c))
  {
  }

  /** Merging in an empty response changes nothing, from either side (up to the kind). */
  lemma MergeEmpty(a: Response, kind: QueryType)
    ensures Merge(a, New(kind)) == a
    ensures Merge(New(kind), a).entries == a.entries
  {
    assert a.entries + map[] == a.entries;
    assert map[] + a.entries == a.entries;
  }

  /** The flat label of an entry: `id + "_" + symbol + "_" + range name`. */
  function Label(kind: QueryType, k: Key): string {
    k.0 + "_" + Symbol(kind) + "_" + k.1.name
  }

  /** No other entry of `resp` shares `k`'s label. */
  predicate LabelUnique(resp: Response, k: Key) {
    forall k2 :: k2 in resp.entries && Label(resp.kind, k2) == Label(resp.kind, k) ==> k2 == k
  }

  /** `getResponseMap`: every entry under its flat label. Entries whose labels
      collide overwrite one another in an unspecified order. */
  method ResponseMap(resp: Response) returns (m: map<string, int>)
    ensures m.Keys == set k | k in resp.entries :: Label(resp.kind, k)
    ensures forall s :: s in m ==> exists k :: k in resp.entries && Label(resp.kind, k) == s && m[s] == resp.entries[k]
    ensures forall k :: k in resp.entries && LabelUnique(resp, k) ==> m[Label(resp.kind, k)] == resp.entries[k]
  {
    m := map[];
    var todo := resp.entries.Keys;
    while todo != {}
      invariant todo <= resp.entries.Keys
      invariant m.Keys == set k | k in resp.entries.Keys - todo :: Label(resp.kind, k)
      invariant forall s :: s in m ==> exists k :: k in resp.entries.Keys - todo && Label(resp.kind, k) == s && m[s] == resp.entries[k]
      invariant forall k :: k in resp.entries.Keys - todo && LabelUnique(resp, k) ==> m[Label(resp.kind, k)] == resp.entries[k]
      decreases todo
    {
      var k :| k in todo;
      m := m[Label(resp.kind, k) := resp.entries[k]];
      todo := todo - {k};
    }
  }
}
