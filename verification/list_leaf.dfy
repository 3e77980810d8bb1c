/** `ListRangeQueryIndex`: every element maps to the list of its positions in
    insertion order; queries find the first and last occurrence of the range
    bounds by repeated binary search. The answers agree with the multiset
    index only while each list is sorted, which `add` keeps only for
    positions that arrive in order; `Insert` is the sorted `add`. */
module ListLeaf {
  import MultisetLeaf
  import opened Sums

  datatype Index<T(==)> = Index(lists: map<T, seq<int>>)

  predicate Sorted(a: seq<int>) {
    forall i, j :: 0 <= i < j < |a| ==> a[i] <= a[j]
  }

  predicate AllSorted<T(==)>(ix: Index<T>) {
    forall t :: t in ix.lists ==> Sorted(ix.lists[t])
  }

  /** `r` is `binarySearch`'s "not found" code `-(insertionPoint) - 1`: every
      element before the insertion point is below `key`, every one from it on
      is above. */
  predicate NotFoundCode(a: seq<int>, key: int, r: int) {
    && r < 0
    && -(r + 1) <= |a|
    && (forall i :: 0 <= i < -(r + 1) ==> a[i] < key)
    && (forall i :: -(r + 1) <= i < |a| ==> a[i] > key)
  }

  /** `Collections.binarySearch` as the JDK runs it, on any list: compare `key`
      with the middle of `a[low..high]` and keep the half that could still
      hold it. On an unsorted list it can miss a `key` that is there. */
  function Search(a: seq<int>, key: int, low: int, high: int): (r: int)
    requires 0 <= low <= high + 1 <= |a|
    ensures r >= 0 ==> low <= r <= high && a[r] == key
    ensures r < 0 ==> low <= -(r + 1) <= high + 1
    decreases high + 1 - low
  {
    if low > high then -(low + 1)
    else
      var mid := (low + high) / 2;
      if a[mid] < key then Search(a, key, mid + 1, high)
      else if a[mid] > key then Search(a, key, low, mid - 1)
      else mid
  }

  /** On a sorted list whose part outside `[low, high]` is known to miss
      `key`, the search either finds `key` or reports its insertion point. */
  lemma {:induction false} SearchSorted(a: seq<int>, key: int, low: int, high: int)
    requires Sorted(a) && 0 <= low <= high + 1 <= |a|
    requires forall i :: 0 <= i < low ==> a[i] < key
    requires forall i :: high < i < |a| ==> a[i] > key
    ensures Search(a, key, low, high) >= 0 || NotFoundCode(a, key, Search(a, key, low, high))
    decreases high + 1 - low
  {
    if low > high {
      SearchMissed(a, key, low, high);
    } else if a[(low + high) / 2] < key {
      SearchRight(a, key, low, high);
      SearchSorted(a, key, (low + high) / 2 + 1, high);
    } else if a[(low + high) / 2] > key {
      SearchLeft(a, key, low, high);
      SearchSorted(a, key, low, (low + high) / 2 - 1);
    }
  }

  /** The middle is below `key`: the search goes on to the right of it. */
  lemma SearchRight(a: seq<int>, key: int, low: int, high: int)
    requires Sorted(a) && 0 <= low <= high < |a|
    requires forall i :: 0 <= i < low ==> a[i] < key
    requires a[(low + high) / 2] < key
    ensures Search(a, key, low, high) == Search(a, key, (low + high) / 2 + 1, high)
    ensures forall i :: 0 <= i < (low + high) / 2 + 1 ==> a[i] < key
  {
    SortedUpTo(a, (low + high) / 2);
  }

  /** The middle is above `key`: the search goes on to the left of it. */
  lemma SearchLeft(a: seq<int>, key: int, low: int, high: int)
    requires Sorted(a) && 0 <= low <= high < |a|
    requires forall i :: high < i < |a| ==> a[i] > key
    requires a[(low + high) / 2] > key
    ensures Search(a, key, low, high) == Search(a, key, low, (low + high) / 2 - 1)
    ensures forall i :: (low + high) / 2 - 1 < i < |a| ==> a[i] > key
  {
    SortedFrom(a, (low + high) / 2);
  }

  /** An empty search interval: `low` is the insertion point of `key`. */
  lemma SearchMissed(a: seq<int>, key: int, low: int, high: int)
    requires 0 <= low == high + 1 <= |a|
    requires forall i :: 0 <= i < low ==> a[i] < key
    requires forall i :: high < i < |a| ==> a[i] > key
    ensures NotFoundCode(a, key, -(low + 1))
  {
  }

  /** A not-found code rules `key` out. */
  lemma NotFoundMissing(a: seq<int>, key: int, r: int)
    requires NotFoundCode(a, key, r)
    ensures key !in a
  {
  }

  lemma SortedUpTo(a: seq<int>, mid: int)
    requires Sorted(a) && 0 <= mid < |a|
    ensures forall i :: 0 <= i <= mid ==> a[i] <= a[mid]
  {
  }

  lemma SortedFrom(a: seq<int>, mid: int)
    requires Sorted(a) && 0 <= mid < |a|
    ensures forall i :: mid <= i < |a| ==> a[mid] <= a[i]
  {
  }

  /** `Collections.binarySearch(a, key)`: an index holding `key` or a
      not-found code on any list; on a sorted list it finds `key` exactly
      when `key` is there, and otherwise the code names the insertion point. */
  function BinarySearch(a: seq<int>, key: int): (r: int)
    ensures r >= 0 ==> r < |a| && a[r] == key
    ensures r < 0 ==> -(r + 1) <= |a|
    ensures Sorted(a) && key in a ==> r >= 0
    ensures Sorted(a) && key !in a ==> NotFoundCode(a, key, r)
  {
    var r := Search(a, key, 0, |a| - 1);
    assert Sorted(a) && r < 0 ==> NotFoundCode(a, key, r) && key !in a by {
      if Sorted(a) && r < 0 {
        SearchSorted(a, key, 0, |a| - 1);
        NotFoundMissing(a, key, r);
      }
    }
    r
  }

  lemma SortedPrefix(a: seq<int>, j: int)
    requires Sorted(a) && 0 <= j <= |a|
    ensures Sorted(a[..j])
  {
    assert forall i :: 0 <= i < j ==> a[..j][i] == a[i];
  }

  lemma SortedSuffix(a: seq<int>, j: int)
    requires Sorted(a) && 0 <= j <= |a|
    ensures Sorted(a[j..])
  {
    assert forall i :: 0 <= i < |a| - j ==> a[j..][i] == a[j + i];
  }

  /** The loop of `lowerBound` from its best hit `prev`: search the part
      before `prev` again, until the search misses. */
  function LowerFrom(a: seq<int>, key: int, prev: int): (r: int)
    requires 0 <= prev < |a| && a[prev] == key
    ensures 0 <= r <= prev && a[r] == key
    ensures Sorted(a) ==> key !in a[..r]
    decreases prev
  {
    var cur := BinarySearch(a[..prev], key);
    assert Sorted(a) ==> Sorted(a[..prev]) by {
      if Sorted(a) { SortedPrefix(a, prev); }
    }
    if cur >= 0 then LowerFrom(a, key, cur) else prev
  }

  /** `lowerBound`: on a sorted list, the first occurrence of `key`, or the
      not-found code when `key` is missing. */
  function LowerBound(a: seq<int>, key: int): (r: int)
    ensures r >= 0 ==> r < |a| && a[r] == key
    ensures Sorted(a) && key in a ==> 0 <= r < |a| && a[r] == key && forall i :: 0 <= i < r ==> a[i] < key
    ensures Sorted(a) && key !in a ==> NotFoundCode(a, key, r)
  {
    var prev := BinarySearch(a, key);
    if prev < 0 then prev
    else
      var r := LowerFrom(a, key, prev);
      assert Sorted(a) ==> forall i :: 0 <= i < r ==> a[i] <= key && a[i] != key by {
        if Sorted(a) {
          forall i | 0 <= i < r
            ensures a[i] <= key && a[i] != key
          {
            assert a[i] == a[..r][i];
          }
        }
      }
      r
  }

  /** The loop of `upperBound` from its best hit `prev`: search the part
      after `prev` again, until the search misses. */
  function UpperFrom(a: seq<int>, key: int, prev: int): (r: int)
    requires 0 <= prev < |a| && a[prev] == key
    ensures prev <= r < |a| && a[r] == key
    ensures Sorted(a) ==> key !in a[r + 1..]
    decreases |a| - prev
  {
    var cur := BinarySearch(a[prev + 1..], key);
    if cur >= 0 then
      assert a[prev + 1 + cur] == a[prev + 1..][cur];
      UpperFrom(a, key, prev + cur + 1)
    else
      assert Sorted(a) ==> Sorted(a[prev + 1..]) by {
        if Sorted(a) { SortedSuffix(a, prev + 1); }
      }
      prev
  }

  /** `upperBound`: on a sorted list, the last occurrence of `key`, or the
      not-found code when `key` is missing. */
  function UpperBound(a: seq<int>, key: int): (r: int)
    ensures r >= 0 ==> r < |a| && a[r] == key
    ensures Sorted(a) && key in a ==> 0 <= r < |a| && a[r] == key && forall i :: r < i < |a| ==> a[i] > key
    ensures Sorted(a) && key !in a ==> NotFoundCode(a, key, r)
  {
    var prev := BinarySearch(a, key);
    if prev < 0 then prev
    else
      var r := UpperFrom(a, key, prev);
      assert Sorted(a) ==> forall i :: r < i < |a| ==> a[i] >= key && a[i] != key by {
        if Sorted(a) {
          forall i | r < i < |a|
            ensures a[i] >= key && a[i] != key
          {
            assert a[i] == a[r + 1..][i - r - 1];
          }
        }
      }
      r
  }

  /** The multiset index this list index stands for. */
  function Abs<T(==)>(ix: Index<T>): (m: MultisetLeaf.Index<T>)
    ensures m.obs.Keys == ix.lists.Keys
  {
    MultisetLeaf.Index(map t | t in ix.lists :: multiset(ix.lists[t]))
  }

  function Positions<T(==)>(ix: Index<T>, t: T): seq<int> {
    if t in ix.lists then ix.lists[t] else []
  }

  /** `add`: append `pos` to `t`'s list, creating it on first use. Nothing is
      sorted here; the list stays sorted only if positions arrive in order. */
  function Add<T(==)>(ix: Index<T>, t: T, pos: int): (r: Index<T>)
    ensures r.lists.Keys == ix.lists.Keys + {t}
    ensures Positions(r, t) == Positions(ix, t) + [pos]
    ensures r.lists - {t} == ix.lists - {t}
    ensures Abs(r) == MultisetLeaf.Add(Abs(ix), t, pos)
    ensures AllSorted(ix) && (forall p :: p in Positions(ix, t) ==> p <= pos) ==> AllSorted(r)
  {
    var r := Index(ix.lists[t := Positions(ix, t) + [pos]]);
    AppendFrame(ix, t, pos, r);
    AbsAdd(ix, t, pos, r);
    SortedAppend(ix, t, pos, r);
    r
  }

  lemma AppendFrame<T>(ix: Index<T>, t: T, pos: int, r: Index<T>)
    requires r == Index(ix.lists[t := Positions(ix, t) + [pos]])
    ensures r.lists.Keys == ix.lists.Keys + {t}
    ensures Positions(r, t) == Positions(ix, t) + [pos]
    ensures r.lists - {t} == ix.lists - {t}
  {
  }

  lemma AbsAdd<T>(ix: Index<T>, t: T, pos: int, r: Index<T>)
    requires r == Index(ix.lists[t := Positions(ix, t) + [pos]])
    ensures Abs(r) == MultisetLeaf.Add(Abs(ix), t, pos)
  {
    AbsPut(ix, t, Positions(ix, t) + [pos]);
    assert multiset(Positions(ix, t) + [pos]) == multiset(Positions(ix, t)) + multiset{pos};
    assert MultisetLeaf.Positions(Abs(ix), t) == multiset(Positions(ix, t));
  }

  lemma SortedAppend<T>(ix: Index<T>, t: T, pos: int, r: Index<T>)
    requires r == Index(ix.lists[t := Positions(ix, t) + [pos]])
    ensures AllSorted(ix) && (forall p :: p in Positions(ix, t) ==> p <= pos) ==> AllSorted(r)
  {
    if AllSorted(ix) && (forall p :: p in Positions(ix, t) ==> p <= pos) {
      var a := Positions(ix, t) + [pos];
      forall i, j | 0 <= i < j < |a|
        ensures a[i] <= a[j]
      {
        if j == |a| - 1 {
          assert a[i] in Positions(ix, t);
        }
      }
    }
  }

  /** Number of list elements in `[l, r]`. */
  function InRangeSeq(a: seq<int>, l: int, r: int): nat
    decreases |a|
  {
    if |a| == 0 then 0 else (if l <= a[0] <= r then 1 else 0) + InRangeSeq(a[1..], l, r)
  }

  lemma {:induction false} InRangeSeqIsMultiset(a: seq<int>, l: int, r: int)
    ensures InRangeSeq(a, l, r) == MultisetLeaf.InRange(multiset(a), l, r)
    decreases |a|
  {
    if |a| == 0 {
      MultisetLeaf.InRangeEmpty(l, r);
    } else {
      InRangeSeqIsMultiset(a[1..], l, r);
      assert a == [a[0]] + a[1..];
      assert multiset(a) == multiset(a[1..]) + multiset{a[0]};
      MultisetLeaf.InRangeAdd(multiset(a[1..]), a[0], l, r);
    }
  }

  lemma {:induction false} InRangeSeqConcat(a: seq<int>, b: seq<int>, l: int, r: int)
    ensures InRangeSeq(a + b, l, r) == InRangeSeq(a, l, r) + InRangeSeq(b, l, r)
    decreases |a|
  {
    if |a| > 0 {
      assert (a + b)[0] == a[0];
      assert (a + b)[1..] == a[1..] + b;
      InRangeSeqConcat(a[1..], b, l, r);
    } else {
      assert a + b == b;
    }
  }

  lemma {:induction false} InRangeSeqNone(a: seq<int>, l: int, r: int)
    requires forall i :: 0 <= i < |a| ==> !(l <= a[i] <= r)
    ensures InRangeSeq(a, l, r) == 0
    decreases |a|
  {
    if |a| > 0 {
      InRangeSeqNone(a[1..], l, r);
    }
  }

  lemma {:induction false} InRangeSeqAll(a: seq<int>, l: int, r: int)
    requires forall i :: 0 <= i < |a| ==> l <= a[i] <= r
    ensures InRangeSeq(a, l, r) == |a|
    decreases |a|
  {
    if |a| > 0 {
      InRangeSeqAll(a[1..], l, r);
    }
  }

  lemma NoneInSlice(a: seq<int>, i: int, j: int, l: int, r: int)
    requires 0 <= i <= j <= |a|
    requires forall k :: i <= k < j ==> !(l <= a[k] <= r)
    ensures InRangeSeq(a[i..j], l, r) == 0
  {
    var s := a[i..j];
    assert forall k :: 0 <= k < |s| ==> s[k] == a[i + k];
    InRangeSeqNone(s, l, r);
  }

  lemma AllInSlice(a: seq<int>, i: int, j: int, l: int, r: int)
    requires 0 <= i <= j <= |a|
    requires forall k :: i <= k < j ==> l <= a[k] <= r
    ensures InRangeSeq(a[i..j], l, r) == j - i
  {
    var s := a[i..j];
    assert forall k :: 0 <= k < |s| ==> s[k] == a[i + k];
    InRangeSeqAll(s, l, r);
  }

  lemma SplitThree(a: seq<int>, i: int, j: int)
    requires 0 <= i <= j <= |a|
    ensures a == a[0..i] + a[i..j] + a[j..|a|]
  {
  }

  /** In a sorted list the elements in `[l, r]` form the slice between the
      number of elements below `l` and the number of elements up to `r`. */
  lemma SortedInRange(a: seq<int>, l: int, r: int, lo: int, hi: int)
    requires Sorted(a) && l <= r
    requires 0 <= lo <= |a| && 0 <= hi <= |a|
    requires forall i :: 0 <= i < lo ==> a[i] < l
    requires forall i :: lo <= i < |a| ==> a[i] >= l
    requires forall i :: 0 <= i < hi ==> a[i] <= r
    requires forall i :: hi <= i < |a| ==> a[i] > r
    ensures lo <= hi
    ensures InRangeSeq(a, l, r) == hi - lo
  {
    if lo > 0 {
      assert a[lo - 1] < l;
    }
    SplitThree(a, lo, hi);
    NoneInSlice(a, 0, lo, l, r);
    AllInSlice(a, lo, hi, l, r);
    NoneInSlice(a, hi, |a|, l, r);
    InRangeSeqConcat(a[0..lo] + a[lo..hi], a[hi..|a|], l, r);
    InRangeSeqConcat(a[0..lo], a[lo..hi], l, r);
  }

  /** The arithmetic of `query` on the results of `lowerBound(l)` and
      `upperBound(r)`: decode the not-found codes, then add one when the upper
      bound was found. */
  function Answer(low: int, high: int): int {
    (if high < 0 then -(high + 1) else high) - (if low < 0 then -(low + 1) else low) + (if high >= 0 then 1 else 0)
  }

  /** `query`: 0 for an unseen element or `l > r`; otherwise the answer
      computed from the two bounds. On a sorted list it is the multiset
      index's `query` of the same observations. */
  function Query<T(==)>(ix: Index<T>, t: T, l: int, r: int): (n: int)
    ensures t !in ix.lists || l > r ==> n == 0
    ensures (t in ix.lists ==> Sorted(ix.lists[t])) ==> n == MultisetLeaf.Query(Abs(ix), t, l, r)
  {
    if t !in ix.lists || l > r then 0
    else
      var a := ix.lists[t];
      ListAnswer(a, l, r);
      Answer(LowerBound(a, l), UpperBound(a, r))
  }

  lemma ListAnswer(a: seq<int>, l: int, r: int)
    requires l <= r
    ensures Sorted(a) ==> Answer(LowerBound(a, l), UpperBound(a, r)) == MultisetLeaf.InRange(multiset(a), l, r)
  {
    if Sorted(a) {
      BoundsCount(a, l, r, LowerBound(a, l), UpperBound(a, r));
      InRangeSeqIsMultiset(a, l, r);
    }
  }

  /** From the results of `lowerBound(l)` and `upperBound(r)` on a sorted
      list, the arithmetic of `query` gives the number of elements in `[l, r]`. */
  lemma BoundsCount(a: seq<int>, l: int, r: int, low: int, high: int)
    requires Sorted(a) && l <= r
    requires l in a ==> 0 <= low < |a| && a[low] == l && forall i :: 0 <= i < low ==> a[i] < l
    requires l !in a ==> NotFoundCode(a, l, low)
    requires r in a ==> 0 <= high < |a| && a[high] == r && forall i :: high < i < |a| ==> a[i] > r
    requires r !in a ==> NotFoundCode(a, r, high)
    ensures InRangeSeq(a, l, r) == Answer(low, high)
  {
    var lo := if low < 0 then -(low + 1) else low;
    var hi := if high >= 0 then high + 1 else -(high + 1);
    forall i | lo <= i < |a|
      ensures a[i] >= l
    {
      if l in a {
        assert a[lo] == l;
      }
    }
    forall i | 0 <= i < hi
      ensures a[i] <= r
    {
      if r in a {
        assert a[hi - 1] == r;
      }
    }
    SortedInRange(a, l, r, lo, hi);
  }

  /** `query` as a function of the element, for summing over elements. */
  function QueryOf<T(==)>(ix: Index<T>, l: int, r: int): T -> int {
    k => Query(ix, k, l, r)
  }

  /** `accumulate`: the sum of `query` over every element, in any order. With
      sorted lists it is the multiset index's `accumulate`. */
  method Accumulate<T(==)>(ix: Index<T>, l: int, r: int) returns (total: int)
    ensures total == SumOver(ix.lists.Keys, QueryOf(ix, l, r))
    ensures AllSorted(ix) ==> total == MultisetLeaf.Accumulate(Abs(ix), l, r)
  {
    total := 0;
    var todo := ix.lists.Keys;
    while todo != {}
      invariant todo <= ix.lists.Keys
      invariant total == SumOver(ix.lists.Keys - todo, QueryOf(ix, l, r))
      decreases todo
    {
      var t :| t in todo;
      var q := Query(ix, t, l, r);
      AccumulateStep(QueryOf(ix, l, r), ix.lists.Keys, todo, t);
      total := total + q;
      todo := todo - {t};
    }
    assert ix.lists.Keys - todo == ix.lists.Keys;
    if AllSorted(ix) {
      SumOverExt(ix.lists.Keys, QueryOf(ix, l, r), MultisetLeaf.QueryOf(Abs(ix), l, r));
    }
  }

  lemma AccumulateStep<T>(f: T -> int, keys: set<T>, todo: set<T>, t: T)
    requires t in todo && todo <= keys
    ensures SumOver(keys - (todo - {t}), f) == SumOver(keys - todo, f) + f(t)
  {
    SumOverInsert(keys - todo, f, t);
    assert keys - (todo - {t}) == (keys - todo) + {t};
  }

  /** `count`: the number of elements whose `query` is positive. With sorted
      lists it is the multiset index's `count`. */
  method Count<T(==)>(ix: Index<T>, l: int, r: int) returns (total: int)
    ensures total == |set k | k in ix.lists && Query(ix, k, l, r) > 0|
    ensures AllSorted(ix) ==> total == MultisetLeaf.Count(Abs(ix), l, r)
  {
    total := 0;
    var todo := ix.lists.Keys;
    while todo != {}
      invariant todo <= ix.lists.Keys
      invariant total == |Positive(ix, todo, l, r)|
      decreases todo
    {
      var t :| t in todo;
      var q := Query(ix, t, l, r);
      CountStep(ix, todo, t, l, r);
      if q > 0 {
        total := total + 1;
      }
      todo := todo - {t};
    }
    assert Positive(ix, todo, l, r) == set k | k in ix.lists && Query(ix, k, l, r) > 0;
    if AllSorted(ix) {
      var m := Abs(ix);
      assert (set k | k in ix.lists && Query(ix, k, l, r) > 0)
          == (set k | k in m.obs && MultisetLeaf.Query(m, k, l, r) > 0);
    }
  }

  /** The elements outside `todo` whose query is positive. */
  function Positive<T(==)>(ix: Index<T>, todo: set<T>, l: int, r: int): set<T> {
    set k | k in ix.lists.Keys - todo && Query(ix, k, l, r) > 0
  }

  lemma CountStep<T>(ix: Index<T>, todo: set<T>, t: T, l: int, r: int)
    requires t in todo && todo <= ix.lists.Keys
    ensures |Positive(ix, todo - {t}, l, r)|
         == |Positive(ix, todo, l, r)| + (if Query(ix, t, l, r) > 0 then 1 else 0)
  {
    var before, after := Positive(ix, todo, l, r), Positive(ix, todo - {t}, l, r);
    if Query(ix, t, l, r) > 0 {
      assert after == before + {t};
    } else {
      assert after == before;
    }
  }

  // ---------------------------------------------------------------------------
  // The list index against the multiset index, over a log of `add` calls.

  function Build<T(==)>(log: seq<(T, int)>): Index<T>
    decreases |log|
  {
    if |log| == 0 then Index(map[]) else Add(Build(log[..|log| - 1]), log[|log| - 1].0, log[|log| - 1].1)
  }

  /** Positions arrive in non-decreasing order. */
  predicate InOrder<T>(log: seq<(T, int)>) {
    forall i, j :: 0 <= i < j < |log| ==> log[i].1 <= log[j].1
  }

  /** Replaying a log into either index gives the same observations. */
  lemma {:induction false} BuildAbs<T>(log: seq<(T, int)>)
    ensures Abs(Build(log)) == MultisetLeaf.Build(log)
    decreases |log|
  {
    if |log| == 0 {
      assert Abs(Build(log)).obs == map[];
    } else {
      BuildAbs(log[..|log| - 1]);
    }
  }

  /** Positions added in non-decreasing order keep every list sorted, so the
      list index answers like the multiset index. */
  lemma {:induction false} BuildSorted<T>(log: seq<(T, int)>)
    requires InOrder(log)
    ensures AllSorted(Build(log))
    ensures forall t, p :: t in Build(log).lists && p in Build(log).lists[t] ==> p <= log[|log| - 1].1
    decreases |log|
  {
    if |log| > 0 {
      var init := log[..|log| - 1];
      var last := log[|log| - 1];
      var prev := Build(init);
      InOrderPrefix(log);
      if |init| > 0 {
        BuildSorted(init);
        assert init[|init| - 1].1 <= last.1;
      } else {
        assert prev.lists == map[];
      }
      AddKeepsBound(prev, last.0, last.1);
    }
  }

  lemma InOrderPrefix<T>(log: seq<(T, int)>)
    requires InOrder(log) && |log| > 0
    ensures InOrder(log[..|log| - 1])
  {
  }

  lemma AddKeepsBound<T>(ix: Index<T>, t: T, pos: int)
    requires AllSorted(ix)
    requires forall u, p :: u in ix.lists && p in ix.lists[u] ==> p <= pos
    ensures AllSorted(Add(ix, t, pos))
    ensures forall u, p :: u in Add(ix, t, pos).lists && p in Add(ix, t, pos).lists[u] ==> p <= pos
  {
    var r := Add(ix, t, pos);
    assert forall p :: p in Positions(ix, t) ==> p <= pos;
    assert r.lists == ix.lists[t := Positions(ix, t) + [pos]];
    forall u, p | u in r.lists && p in r.lists[u]
      ensures p <= pos
    {
      if u != t {
        assert p in ix.lists[u];
      } else {
        assert p in Positions(ix, t) || p == pos;
      }
    }
  }

  // ---------------------------------------------------------------------------
  // Positions added out of order. `add` appends, so a list is sorted only
  // while positions arrive in order; the binary searches of `query` then see
  // an unsorted list and can miss observations that are there.

  /** Counterexample: after `add(t, p)` and then `add(t, q)` with `q < p`
      (say 5, then 1) the list is `[p, q]`; the binary search for `q`
      compares with `p` only and reports `q` missing, so `query(t, q, q)`
      answers 0 although one observation lies in `[q, q]`. */
  lemma OutOfOrderQueryMisses<T>(t: T, p: int, q: int)
    requires q < p
    ensures Build([(t, p), (t, q)]).lists[t] == [p, q]
    ensures BinarySearch([p, q], q) == -1
    ensures Query(Build([(t, p), (t, q)]), t, q, q) == 0
    ensures MultisetLeaf.Hits([(t, p), (t, q)], t, q, q) == 1
  {
    BuildOutOfOrder(t, p, q);
    SearchOutOfOrder(p, q);
    HitsOutOfOrder(t, p, q);
  }

  lemma BuildOutOfOrder<T>(t: T, p: int, q: int)
    ensures t in Build([(t, p), (t, q)]).lists
    ensures Build([(t, p), (t, q)]).lists[t] == [p, q]
  {
    var log: seq<(T, int)> := [(t, p), (t, q)];
    var e: Index<T> := Index(map[]);
    assert log[..1][..0] == [];
    var one := Add(e, t, p);
    assert Build(log[..1]) == one;
    assert one.lists[t] == [p];
  }

  lemma SearchOutOfOrder(p: int, q: int)
    requires q < p
    ensures BinarySearch([p, q], q) == -1
    ensures LowerBound([p, q], q) == -1 && UpperBound([p, q], q) == -1
  {
    var a := [p, q];
    assert Search(a, q, 0, 1) == Search(a, q, 0, -1) == -1;
  }

  lemma HitsOutOfOrder<T>(t: T, p: int, q: int)
    requires q < p
    ensures MultisetLeaf.Hits([(t, p), (t, q)], t, q, q) == 1
  {
    var log: seq<(T, int)> := [(t, p), (t, q)];
    assert log[..1][..0] == [];
    assert MultisetLeaf.Hits(log[..1][..0], t, q, q) == 0;
    assert MultisetLeaf.Hits(log[..1], t, q, q) == 0;
    assert MultisetLeaf.Hits(log, t, q, q) == 1;
  }

  /** `add` as it is evidently meant to work: insert `pos` at the place the
      binary search gives, so that the list stays sorted whatever the order
      of the positions. */
  function Insert<T(==)>(ix: Index<T>, t: T, pos: int): (r: Index<T>)
    ensures Abs(r) == MultisetLeaf.Add(Abs(ix), t, pos)
    ensures AllSorted(ix) ==> AllSorted(r)
  {
    var r := Index(ix.lists[t := InsertSorted(Positions(ix, t), pos)]);
    AbsPut(ix, t, InsertSorted(Positions(ix, t), pos));
    assert AllSorted(ix) ==> Sorted(Positions(ix, t));
    r
  }

  /** `a` with `pos` inserted where the binary search places it. */
  function InsertSorted(a: seq<int>, pos: int): (b: seq<int>)
    ensures multiset(b) == multiset(a) + multiset{pos}
    ensures Sorted(a) ==> Sorted(b)
  {
    var i := BinarySearch(a, pos);
    var at := if i < 0 then -(i + 1) else i;
    assert a == a[..at] + a[at..];
    assert Sorted(a) ==> Sorted(a[..at] + [pos] + a[at..]) by {
      if Sorted(a) { InsertAt(a, pos, i); }
    }
    a[..at] + [pos] + a[at..]
  }

  /** Replacing one list replaces the matching multiset and nothing else. */
  lemma AbsPut<T>(ix: Index<T>, t: T, b: seq<int>)
    ensures Abs(Index(ix.lists[t := b])).obs == Abs(ix).obs[t := multiset(b)]
  {
    var x, y := Abs(Index(ix.lists[t := b])).obs, Abs(ix).obs[t := multiset(b)];
    assert x.Keys == y.Keys;
    forall k | k in x
      ensures x[k] == y[k]
    {
    }
  }

  /** Inserting at the place the binary search of a sorted list gives keeps
      it sorted. */
  lemma InsertAt(a: seq<int>, pos: int, i: int)
    requires Sorted(a) && i == BinarySearch(a, pos)
    ensures Sorted(a[..if i < 0 then -(i + 1) else i] + [pos] + a[if i < 0 then -(i + 1) else i..])
  {
    var at := if i < 0 then -(i + 1) else i;
    if i >= 0 {
      SortedUpTo(a, i);
      SortedFrom(a, i);
    }
    var b := a[..at] + [pos] + a[at..];
    forall x, y | 0 <= x < y < |b|
      ensures b[x] <= b[y]
    {
      if y < at {
        assert b[x] == a[x] && b[y] == a[y];
      } else if y == at {
        assert b[x] == a[x];
      } else if x == at {
        assert b[y] == a[y - 1];
      } else if x < at {
        assert b[x] == a[x] && b[y] == a[y - 1];
      } else {
        assert b[x] == a[x - 1] && b[y] == a[y - 1];
      }
    }
  }

  /** The index built by the corrected `add`. */
  function BuildInserted<T(==)>(log: seq<(T, int)>): Index<T>
    decreases |log|
  {
    if |log| == 0 then Index(map[])
    else Insert(BuildInserted(log[..|log| - 1]), log[|log| - 1].0, log[|log| - 1].1)
  }

  /** With the corrected `add`, every list stays sorted and the observations
      are the logged ones, whatever the order of the positions. */
  lemma {:induction false} BuildInsertedAbs<T>(log: seq<(T, int)>)
    ensures AllSorted(BuildInserted(log))
    ensures Abs(BuildInserted(log)) == MultisetLeaf.Build(log)
    decreases |log|
  {
    if |log| == 0 {
      assert Abs(BuildInserted(log)).obs == map[];
    } else {
      BuildInsertedAbs(log[..|log| - 1]);
    }
  }

  /** With the corrected `add`, `query` counts exactly the logged
      observations in range, for positions added in any order. */
  lemma BuildInsertedQuery<T>(log: seq<(T, int)>, t: T, l: int, r: int)
    ensures Query(BuildInserted(log), t, l, r) == MultisetLeaf.Hits(log, t, l, r)
  {
    BuildInsertedAbs(log);
    MultisetLeaf.BuildQuery(log, t, l, r);
  }
}
