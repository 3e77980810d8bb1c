/** `MultisetRecursiveRangeQueryIndex`: a trie keyed by successive criterion
    values. Each node owns a leaf index and a map of child branches; the last
    key of an exact path lands in the leaf of the node its other keys lead to.
    The cursor is passed by value; recursion depth is the cursor's arity. */
module Trie {
  import opened Wrappers
  import opened KeySets
  import Leaf = MultisetLeaf

  datatype Node<K(==)> = Node(leaf: Leaf.Index<K>, branches: map<K, Node<K>>)

  function Empty<K(==)>(): Node<K> {
    Node(Leaf.Empty(), map[])
  }

  /** The leaf index of the node that `path` leads to from `n`, or an empty
      leaf when the path leaves the trie. This is the trie's abstract content:
      the observations of path `q + [k]` are those of `k` in `ReachLeaf(n, q)`. */
  function ReachLeaf<K(==)>(n: Node<K>, path: seq<K>): Leaf.Index<K>
    decreases |path|
  {
    if |path| == 0 then n.leaf
    else if path[0] in n.branches then ReachLeaf(n.branches[path[0]], path[1..])
    else Leaf.Empty()
  }

  /** `p` is `q` extended by exactly one key. */
  predicate IsChildPath<K(==)>(p: seq<K>, q: seq<K>) {
    |p| == |q| + 1 && p[..|q|] == q
  }

  /** `add`: on the last key, record in this node's leaf; otherwise get or create
      the child for the front key, consume it and recurse. */
  function Add<K(==)>(n: Node<K>, ks: KeySet<K>, pos: int): (r: Node<K>)
    requires Valid(ks) && Arity(ks) >= 1
    ensures IsLast(ks) ==> r.leaf == Leaf.Add(n.leaf, Window(ks)[0], pos) && r.branches == n.branches
    ensures !IsLast(ks) ==> r.leaf == n.leaf
    ensures !IsLast(ks) ==> r.branches.Keys == n.branches.Keys + {Window(ks)[0]}
    decreases Arity(ks)
  {
    if IsLast(ks) then
      var (k, _) := Pop(ks);
      n.(leaf := Leaf.Add(n.leaf, k.value, pos))
    else
      var child := if Peek(ks) in n.branches then n.branches[Peek(ks)] else Empty();
      var (k, rest) := Pop(ks);
      n.(branches := n.branches[k.value := Add(child, rest, pos)])
  }

  /** `query`: follow the exact path; the last key is looked up in the leaf.
      A missing branch answers 0 without creating anything. */
  function Query<K(==)>(n: Node<K>, ks: KeySet<K>, s: int, e: int): (c: nat)
    requires Valid(ks) && Arity(ks) >= 1
    ensures c == Leaf.Query(ReachLeaf(n, Window(ks)[..Arity(ks) - 1]), Window(ks)[Arity(ks) - 1], s, e)
    decreases Arity(ks)
  {
    if IsLast(ks) then
      Leaf.Query(n.leaf, Pop(ks).0.value, s, e)
    else if Peek(ks) !in n.branches then
      0
    else
      var (k, rest) := Pop(ks);
      assert Window(ks)[1..][..|Window(rest)| - 1] == Window(ks)[..|Window(ks)| - 1][1..];
      Query(n.branches[k.value], rest, s, e)
  }

  /** `count`: follow the prefix path; where the cursor runs out, count the
      distinct last keys with an in-range observation. */
  function Count<K(==)>(n: Node<K>, ks: KeySet<K>, s: int, e: int): (c: nat)
    requires Valid(ks)
    ensures c == Leaf.Count(ReachLeaf(n, Window(ks)), s, e)
    decreases Arity(ks)
  {
    if !HasNext(ks) then
      Leaf.Count(n.leaf, s, e)
    else if Peek(ks) !in n.branches then
      0
    else
      var (k, rest) := Pop(ks);
      Count(n.branches[k.value], rest, s, e)
  }

  /** `accumulate`: the same walk as `count`, summing observations instead. */
  ghost function Accumulate<K>(n: Node<K>, ks: KeySet<K>, s: int, e: int): (c: int)
    requires Valid(ks)
    ensures c == Leaf.Accumulate(ReachLeaf(n, Window(ks)), s, e)
    decreases Arity(ks)
  {
    if !HasNext(ks) then
      Leaf.Accumulate(n.leaf, s, e)
    else if Peek(ks) !in n.branches then
      0
    else
      var (k, rest) := Pop(ks);
      Accumulate(n.branches[k.value], rest, s, e)
  }

  lemma ReachEmpty<K>(q: seq<K>)
    ensures ReachLeaf(Empty(), q) == Leaf.Empty()
  {
  }

  /** An `add` changes the leaf at exactly one place: the leaf reached by all
      but the last of its keys gains one observation of the last key. */
  lemma {:induction false} AddReach<K>(n: Node<K>, ks: KeySet<K>, pos: int, q: seq<K>)
    requires Valid(ks) && Arity(ks) >= 1
    ensures ReachLeaf(Add(n, ks, pos), q)
         == if IsChildPath(Window(ks), q) then Leaf.Add(ReachLeaf(n, q), Window(ks)[|q|], pos)
            else ReachLeaf(n, q)
    decreases Arity(ks)
  {
    var w := Window(ks);
    var r := Add(n, ks, pos);
    if IsLast(ks) {
      if |q| > 0 {
        assert !IsChildPath(w, q);
        assert ReachLeaf(r, q) == ReachLeaf(n, q);
      }
    } else if |q| == 0 {
      assert !IsChildPath(w, q);
    } else if q[0] != w[0] {
      AddReachOtherBranch(n, ks, pos, q);
    } else {
      var child := if w[0] in n.branches then n.branches[w[0]] else Empty();
      var rest := Pop(ks).1;
      AddReach(child, rest, pos, q[1..]);
      AddReachStep(n, ks, pos, q);
      ChildPathStep(w, q);
      assert Window(rest) == w[1..];
    }
  }

  lemma AddReachOtherBranch<K>(n: Node<K>, ks: KeySet<K>, pos: int, q: seq<K>)
    requires Valid(ks) && Arity(ks) >= 2 && |q| > 0 && q[0] != Window(ks)[0]
    ensures !IsChildPath(Window(ks), q)
    ensures ReachLeaf(Add(n, ks, pos), q) == ReachLeaf(n, q)
  {
    var r := Add(n, ks, pos);
    assert r.branches == n.branches[Window(ks)[0] := r.branches[Window(ks)[0]]];
    assert |Window(ks)| >= |q| + 1 ==> Window(ks)[..|q|][0] == Window(ks)[0];
  }

  /** Following the front key through the updated node leads into the child
      that the recursive `add` updated. */
  lemma AddReachStep<K>(n: Node<K>, ks: KeySet<K>, pos: int, q: seq<K>)
    requires Valid(ks) && Arity(ks) >= 2 && |q| > 0 && q[0] == Window(ks)[0]
    ensures ReachLeaf(Add(n, ks, pos), q)
         == ReachLeaf(Add(if q[0] in n.branches then n.branches[q[0]] else Empty(), Pop(ks).1, pos), q[1..])
    ensures ReachLeaf(if q[0] in n.branches then n.branches[q[0]] else Empty(), q[1..]) == ReachLeaf(n, q)
  {
    assert Peek(ks) == q[0];
    ReachEmpty(q[1..]);
  }

  lemma ChildPathStep<K>(w: seq<K>, q: seq<K>)
    requires |w| > 0 && |q| > 0 && q[0] == w[0]
    ensures IsChildPath(w, q) <==> IsChildPath(w[1..], q[1..])
  {
    if |w| == |q| + 1 {
      assert w[..|q|] == [w[0]] + w[1..][..|q| - 1];
      assert q == [q[0]] + q[1..];
    }
  }

  /** Round trip: after an `add`, the exact query of the same keys with a range
      holding the position has grown by one; every other query is unchanged. */
  lemma QueryAfterAdd<K>(n: Node<K>, ks: KeySet<K>, pos: int, ks2: KeySet<K>, s: int, e: int)
    requires Valid(ks) && Arity(ks) >= 1
    requires Valid(ks2) && Arity(ks2) >= 1
    ensures Query(Add(n, ks, pos), ks2, s, e)
         == Query(n, ks2, s, e) + (if Window(ks) == Window(ks2) && s <= pos <= e then 1 else 0)
  {
    var w, w2 := Window(ks), Window(ks2);
    var q, k2 := w2[..|w2| - 1], w2[|w2| - 1];
    var before, after := ReachLeaf(n, q), ReachLeaf(Add(n, ks, pos), q);
    assert Query(n, ks2, s, e) == Leaf.Query(before, k2, s, e);
    assert Query(Add(n, ks, pos), ks2, s, e) == Leaf.Query(after, k2, s, e);
    AddReach(n, ks, pos, q);
    SamePathIsChild(w, w2);
    if IsChildPath(w, q) {
      Leaf.QueryAfterAdd(before, w[|q|], pos, k2, s, e);
    }
  }

  /** Two paths are equal exactly when the first extends the second's parent
      path by the second's last key. */
  lemma SamePathIsChild<K>(w: seq<K>, w2: seq<K>)
    requires |w2| >= 1
    ensures w == w2 <==> IsChildPath(w, w2[..|w2| - 1]) && w[|w2| - 1] == w2[|w2| - 1]
  {
    if IsChildPath(w, w2[..|w2| - 1]) && w[|w2| - 1] == w2[|w2| - 1] {
      assert w == w[..|w2| - 1] + [w[|w2| - 1]];
      assert w2 == w2[..|w2| - 1] + [w2[|w2| - 1]];
    }
  }

  /** An empty trie answers 0 to everything. */
  lemma EmptyAnswersZero<K>(ks: KeySet<K>, s: int, e: int)
    requires Valid(ks)
    ensures Arity(ks) >= 1 ==> Query(Empty(), ks, s, e) == 0
    ensures Count(Empty(), ks, s, e) == 0
    ensures Accumulate(Empty(), ks, s, e) == 0
  {
    var w := Window(ks);
    ReachEmpty(w);
    if Arity(ks) >= 1 {
      ReachEmpty(w[..|w| - 1]);
    }
  }

  /** Distinct last keys never outnumber their observations, and they match
      exactly when every last key under the prefix has at most one
      observation in range. */
  lemma CountAtMostAccumulate<K>(n: Node<K>, ks: KeySet<K>, s: int, e: int)
    requires Valid(ks)
    ensures Count(n, ks, s, e) <= Accumulate(n, ks, s, e)
    ensures Count(n, ks, s, e) == Accumulate(n, ks, s, e) <==> Leaf.AtMostOnceInRange(ReachLeaf(n, Window(ks)), s, e)
  {
    Leaf.CountAtMostAccumulate(ReachLeaf(n, Window(ks)), s, e);
  }

  // ---------------------------------------------------------------------------
  // Reference semantics: the trie as a flat log of (key path, position)
  // observations, in the order they were added.

  predicate PathsNonEmpty<K>(log: seq<(seq<K>, int)>) {
    forall i :: 0 <= i < |log| ==> |log[i].0| >= 1
  }

  function Build<K(==)>(log: seq<(seq<K>, int)>): Node<K>
    requires PathsNonEmpty(log)
    decreases |log|
  {
    if |log| == 0 then Empty()
    else Add(Build(log[..|log| - 1]), Of(log[|log| - 1].0), log[|log| - 1].1)
  }

  /** Logged observations of exactly `path` in `[s, e]`. */
  function ExactHits<K(==)>(log: seq<(seq<K>, int)>, path: seq<K>, s: int, e: int): nat
    decreases |log|
  {
    if |log| == 0 then 0
    else ExactHits(log[..|log| - 1], path, s, e)
         + (if log[|log| - 1].0 == path && s <= log[|log| - 1].1 <= e then 1 else 0)
  }

  /** Logged observations in `[s, e]` whose path extends `q` by one key. */
  function PrefixHits<K(==)>(log: seq<(seq<K>, int)>, q: seq<K>, s: int, e: int): nat
    decreases |log|
  {
    if |log| == 0 then 0
    else PrefixHits(log[..|log| - 1], q, s, e)
         + (if IsChildPath(log[|log| - 1].0, q) && s <= log[|log| - 1].1 <= e then 1 else 0)
  }

  /** The distinct keys that extend `q` in some logged observation in `[s, e]`. */
  function PrefixKeys<K(==)>(log: seq<(seq<K>, int)>, q: seq<K>, s: int, e: int): set<K>
    decreases |log|
  {
    if |log| == 0 then {}
    else PrefixKeys(log[..|log| - 1], q, s, e)
         + (if IsChildPath(log[|log| - 1].0, q) && s <= log[|log| - 1].1 <= e
            then {log[|log| - 1].0[|q|]} else {})
  }

  /** The observations under prefix `q`, as (next key, position) pairs. */
  function Project<K(==)>(log: seq<(seq<K>, int)>, q: seq<K>): seq<(K, int)>
    decreases |log|
  {
    if |log| == 0 then []
    else Project(log[..|log| - 1], q)
         + (if IsChildPath(log[|log| - 1].0, q) then [(log[|log| - 1].0[|q|], log[|log| - 1].1)] else [])
  }

  lemma {:induction false} BuildReach<K>(log: seq<(seq<K>, int)>, q: seq<K>)
    requires PathsNonEmpty(log)
    ensures ReachLeaf(Build(log), q) == Leaf.Build(Project(log, q))
    decreases |log|
  {
    if |log| == 0 {
      ReachEmpty(q);
    } else {
      var init, last := log[..|log| - 1], log[|log| - 1];
      assert PathsNonEmpty(init);
      BuildReach(init, q);
      AddReach(Build(init), Of(last.0), last.1, q);
      var p := Project(log, q);
      if IsChildPath(last.0, q) {
        assert p[..|p| - 1] == Project(init, q);
      } else {
        assert p == Project(init, q);
      }
    }
  }

  lemma {:induction false} ProjectHits<K>(log: seq<(seq<K>, int)>, q: seq<K>, k: K, s: int, e: int)
    ensures Leaf.Hits(Project(log, q), k, s, e) == ExactHits(log, q + [k], s, e)
    decreases |log|
  {
    if |log| > 0 {
      var init, last := log[..|log| - 1], log[|log| - 1];
      ProjectHits(init, q, k, s, e);
      var p := Project(log, q);
      assert (q + [k])[..|q|] == q;
      if IsChildPath(last.0, q) {
        assert p[..|p| - 1] == Project(init, q);
        assert last.0 == q + [k] <==> last.0[|q|] == k by {
          assert last.0 == last.0[..|q|] + [last.0[|q|]];
        }
      } else {
        assert p == Project(init, q);
      }
    }
  }

  lemma {:induction false} ProjectTotal<K>(log: seq<(seq<K>, int)>, q: seq<K>, s: int, e: int)
    ensures Leaf.Total(Project(log, q), s, e) == PrefixHits(log, q, s, e)
    ensures Leaf.KeysIn(Project(log, q), s, e) == PrefixKeys(log, q, s, e)
    decreases |log|
  {
    if |log| > 0 {
      var init, last := log[..|log| - 1], log[|log| - 1];
      ProjectTotal(init, q, s, e);
      var p := Project(log, q);
      if IsChildPath(last.0, q) {
        assert p[..|p| - 1] == Project(init, q);
      } else {
        assert p == Project(init, q);
      }
    }
  }

  /** `query` of the built trie counts the logged observations of exactly the
      cursor's keys. */
  lemma QueryRefines<K>(log: seq<(seq<K>, int)>, ks: KeySet<K>, s: int, e: int)
    requires PathsNonEmpty(log)
    requires Valid(ks) && Arity(ks) >= 1
    ensures Query(Build(log), ks, s, e) == ExactHits(log, Window(ks), s, e)
  {
    var w := Window(ks);
    var q, k := w[..|w| - 1], w[|w| - 1];
    BuildReach(log, q);
    Leaf.BuildQuery(Project(log, q), k, s, e);
    ProjectHits(log, q, k, s, e);
    assert q + [k] == w;
  }

  /** `accumulate` of the built trie sums the logged in-range observations of
      every path one key longer than the cursor. */
  lemma AccumulateRefines<K>(log: seq<(seq<K>, int)>, ks: KeySet<K>, s: int, e: int)
    requires PathsNonEmpty(log)
    requires Valid(ks)
    ensures Accumulate(Build(log), ks, s, e) == PrefixHits(log, Window(ks), s, e)
  {
    var q := Window(ks);
    BuildReach(log, q);
    Leaf.BuildAccumulate(Project(log, q), s, e);
    ProjectTotal(log, q, s, e);
  }

  /** `count` of the built trie is the number of distinct keys that extend the
      cursor's keys in some logged in-range observation. */
  lemma CountRefines<K>(log: seq<(seq<K>, int)>, ks: KeySet<K>, s: int, e: int)
    requires PathsNonEmpty(log)
    requires Valid(ks)
    ensures Count(Build(log), ks, s, e) == |PrefixKeys(log, Window(ks), s, e)|
  {
    var q := Window(ks);
    BuildReach(log, q);
    Leaf.BuildCount(Project(log, q), s, e);
    ProjectTotal(log, q, s, e);
  }
}
