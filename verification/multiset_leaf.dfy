/** `MultiSetRangeQueryIndex`: every element maps to the multiset of positions at
    which it was observed; queries count observations in a closed position range. */
module MultisetLeaf {
  import opened Sums

  datatype Index<T(==)> = Index(obs: map<T, multiset<int>>)

  function Empty<T(==)>(): Index<T> {
    Index(map[])
  }

  /** The observations of `t`, empty for an element never added. */
  function Positions<T(==)>(ix: Index<T>, t: T): multiset<int> {
    if t in ix.obs then ix.obs[t] else multiset{}
  }

  /** The size of the closed sub-multiset `[l, r]` of `m`, duplicates included. */
  function InRange(m: multiset<int>, l: int, r: int): nat
    decreases r - l
  {
    if l > r then 0 else m[r] + InRange(m, l, r - 1)
  }

  lemma {:induction false} InRangeEmpty(l: int, r: int)
    ensures InRange(multiset{}, l, r) == 0
    decreases r - l
  {
    if l <= r {
      InRangeEmpty(l, r - 1);
    }
  }

  /** One more observation at `p` adds one exactly when `p` is in range. */
  lemma {:induction false} InRangeAdd(m: multiset<int>, p: int, l: int, r: int)
    ensures InRange(m + multiset{p}, l, r) == InRange(m, l, r) + (if l <= p <= r then 1 else 0)
    decreases r - l
  {
    if l <= r {
      InRangeAdd(m, p, l, r - 1);
    }
  }

  /** The range is non-empty exactly when some observation lies in it. */
  lemma {:induction false} InRangePositive(m: multiset<int>, l: int, r: int)
    ensures InRange(m, l, r) > 0 <==> exists p :: p in m && l <= p <= r
    decreases r - l
  {
    if l <= r {
      InRangePositive(m, l, r - 1);
      if m[r] > 0 {
        assert r in m;
      }
      if exists p :: p in m && l <= p <= r {
        var p :| p in m && l <= p <= r;
        if p < r {
          assert p in m && l <= p <= r - 1;
        }
      }
    }
  }

  /** `add`: create the multiset on first use, then add one copy of `pos`. */
  function Add<T(==)>(ix: Index<T>, t: T, pos: int): (r: Index<T>)
    ensures r.obs.Keys == ix.obs.Keys + {t}
    ensures Positions(r, t) == Positions(ix, t) + multiset{pos}
    ensures r.obs - {t} == ix.obs - {t}
  {
    Index(ix.obs[t := Positions(ix, t) + multiset{pos}])
  }

  /** `query`: the observations of `t` in `[l, r]`; 0 for an unseen `t` or an
      empty range. */
  function Query<T(==)>(ix: Index<T>, t: T, l: int, r: int): (n: nat)
    ensures t !in ix.obs || l > r ==> n == 0
    ensures n == InRange(Positions(ix, t), l, r)
    ensures n > 0 <==> exists p :: p in Positions(ix, t) && l <= p <= r
  {
    InRangePositive(Positions(ix, t), l, r);
    InRangeEmpty(l, r);
    if t !in ix.obs || l > r then 0 else InRange(ix.obs[t], l, r)
  }

  /** `query` as a function of the element, for summing over elements. */
  function QueryOf<T(==)>(ix: Index<T>, l: int, r: int): T -> int {
    k => Query(ix, k, l, r)
  }

  /** `accumulate`: the in-range observations of every element, added up. */
  ghost function Accumulate<T>(ix: Index<T>, l: int, r: int): (n: int)
    ensures n >= 0
    ensures ix.obs == map[] ==> n == 0
    ensures l > r ==> n == 0
    ensures forall k :: k in ix.obs ==> Query(ix, k, l, r) <= n
  {
    SumOverNonneg(ix.obs.Keys, QueryOf(ix, l, r));
    SumOverAtLeastEach(ix.obs.Keys, QueryOf(ix, l, r));
    SumOver(ix.obs.Keys, QueryOf(ix, l, r))
  }

  /** `count`: the number of distinct elements with an in-range observation. */
  function Count<T(==)>(ix: Index<T>, l: int, r: int): (n: nat)
    ensures n <= |ix.obs|
    ensures n == 0 <==> forall k :: k in ix.obs ==> Query(ix, k, l, r) == 0
    ensures l > r ==> n == 0
  {
    var hit := set k | k in ix.obs && Query(ix, k, l, r) > 0;
    SubsetCard(hit, ix.obs.Keys);
    assert forall k :: k in ix.obs && Query(ix, k, l, r) > 0 ==> k in hit;
    |hit|
  }

  lemma SubsetCard<T>(a: set<T>, b: set<T>)
    requires a <= b
    ensures |a| <= |b|
  {
    assert b == a + (b - a);
  }

  /** Query sees an `add` of its own element in range, and nothing else. */
  lemma QueryAfterAdd<T>(ix: Index<T>, t: T, pos: int, u: T, l: int, r: int)
    ensures Query(Add(ix, t, pos), u, l, r)
         == Query(ix, u, l, r) + (if u == t && l <= pos <= r then 1 else 0)
  {
    if u == t {
      InRangeAdd(Positions(ix, t), pos, l, r);
    }
  }

  /** Accumulate grows by one for every in-range `add`. */
  lemma AccumulateAfterAdd<T>(ix: Index<T>, t: T, pos: int, l: int, r: int)
    ensures Accumulate(Add(ix, t, pos), l, r)
         == Accumulate(ix, l, r) + (if l <= pos <= r then 1 else 0)
  {
    var ix' := Add(ix, t, pos);
    var f := QueryOf(ix, l, r);
    var g := QueryOf(ix', l, r);
    forall k | true
      ensures g(k) == f(k) + (if k == t && l <= pos <= r then 1 else 0)
    {
      QueryAfterAdd(ix, t, pos, k, l, r);
    }
    var s := ix.obs.Keys;
    if t in s {
      SumOverRemove(s, f, t);
      SumOverRemove(s, g, t);
      SumOverExt(s - {t}, f, g);
      assert ix'.obs.Keys == s;
    } else {
      SumOverInsert(s, g, t);
      SumOverExt(s, f, g);
      assert ix'.obs.Keys == s + {t};
      assert f(t) == 0;
    }
  }

  /** No element has more than one observation in `[l, r]`. */
  predicate AtMostOnceInRange<T(==)>(ix: Index<T>, l: int, r: int) {
    forall k :: k in ix.obs ==> Query(ix, k, l, r) <= 1
  }

  /** Distinct elements never outnumber observations, and they match exactly
      when no element has more than one observation in range. */
  lemma CountAtMostAccumulate<T>(ix: Index<T>, l: int, r: int)
    ensures Count(ix, l, r) <= Accumulate(ix, l, r)
    ensures Count(ix, l, r) == Accumulate(ix, l, r) <==> AtMostOnceInRange(ix, l, r)
  {
    var f := QueryOf(ix, l, r);
    PositiveCountAtMostSum(ix.obs.Keys, f);
    PositiveCountEqSum(ix.obs.Keys, f);
    assert (set k | k in ix.obs.Keys && f(k) > 0) == (set k | k in ix.obs && Query(ix, k, l, r) > 0);
  }

  // ---------------------------------------------------------------------------
  // Reference semantics: the index as the log of `add` calls that built it.

  /** The index built by calling `add` for every `(element, position)` in order. */
  function Build<T(==)>(log: seq<(T, int)>): Index<T>
    decreases |log|
  {
    if |log| == 0 then Empty() else Add(Build(log[..|log| - 1]), log[|log| - 1].0, log[|log| - 1].1)
  }

  /** Logged observations of `t` with position in `[l, r]`. */
  function Hits<T(==)>(log: seq<(T, int)>, t: T, l: int, r: int): nat
    decreases |log|
  {
    if |log| == 0 then 0
    else Hits(log[..|log| - 1], t, l, r)
         + (if log[|log| - 1].0 == t && l <= log[|log| - 1].1 <= r then 1 else 0)
  }

  /** Logged observations, of any element, with position in `[l, r]`. */
  function Total<T(==)>(log: seq<(T, int)>, l: int, r: int): nat
    decreases |log|
  {
    if |log| == 0 then 0
    else Total(log[..|log| - 1], l, r) + (if l <= log[|log| - 1].1 <= r then 1 else 0)
  }

  /** Elements with at least one logged observation in `[l, r]`. */
  function KeysIn<T(==)>(log: seq<(T, int)>, l: int, r: int): set<T>
    decreases |log|
  {
    if |log| == 0 then {}
    else KeysIn(log[..|log| - 1], l, r)
         + (if l <= log[|log| - 1].1 <= r then {log[|log| - 1].0} else {})
  }

  lemma {:induction false} HitsPositive<T>(log: seq<(T, int)>, t: T, l: int, r: int)
    ensures Hits(log, t, l, r) > 0 <==> t in KeysIn(log, l, r)
    decreases |log|
  {
    if |log| > 0 {
      HitsPositive(log[..|log| - 1], t, l, r);
    }
  }

  /** `query` on the built index counts exactly the logged observations. */
  lemma {:induction false} BuildQuery<T>(log: seq<(T, int)>, t: T, l: int, r: int)
    ensures Query(Build(log), t, l, r) == Hits(log, t, l, r)
    decreases |log|
  {
    if |log| == 0 {
      InRangeEmpty(l, r);
    } else {
      var init := log[..|log| - 1];
      BuildQuery(init, t, l, r);
      QueryAfterAdd(Build(init), log[|log| - 1].0, log[|log| - 1].1, t, l, r);
    }
  }

  /** `accumulate` on the built index counts every logged in-range observation. */
  lemma {:induction false} BuildAccumulate<T>(log: seq<(T, int)>, l: int, r: int)
    ensures Accumulate(Build(log), l, r) == Total(log, l, r)
    decreases |log|
  {
    if |log| == 0 {
      var e: Index<T> := Empty();
      assert e.obs.Keys == {};
    } else {
      var init := log[..|log| - 1];
      BuildAccumulate(init, l, r);
      AccumulateAfterAdd(Build(init), log[|log| - 1].0, log[|log| - 1].1, l, r);
    }
  }

  /** `count` on the built index is the number of distinct logged elements in range. */
  lemma BuildCount<T>(log: seq<(T, int)>, l: int, r: int)
    ensures Count(Build(log), l, r) == |KeysIn(log, l, r)|
  {
    var ix := Build(log);
    var hit := set k | k in ix.obs && Query(ix, k, l, r) > 0;
    var keys := KeysIn(log, l, r);
    forall k | k in hit
      ensures k in keys
    {
      BuildQuery(log, k, l, r);
      HitsPositive(log, k, l, r);
    }
    forall k | k in keys
      ensures k in hit
    {
      BuildQuery(log, k, l, r);
      HitsPositive(log, k, l, r);
    }
    assert hit == keys;
  }
}
