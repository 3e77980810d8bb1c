/** The key cursor of `query/IndexKeySet`: an array of keys with a window
    `[left, right)`. Keys are read from the front (`Pop`, `Peek`) and the window
    is narrowed from the back (`Drop`). The array itself never changes. */
module KeySets {
  import opened Wrappers

  datatype KeySet<K> = KeySet(keys: seq<K>, left: int, right: int)

  /** What every reachable cursor satisfies: `left` only moves up while it is
      below `right`, and `right` starts at the array length and only moves down. */
  predicate Valid<K>(ks: KeySet<K>) {
    0 <= ks.left <= |ks.keys| && ks.right <= |ks.keys|
  }

  /** `right - left`: the number of keys left, negative once more keys were
      dropped than remained. */
  function Arity<K>(ks: KeySet<K>): int {
    ks.right - ks.left
  }

  /** The keys that are still unconsumed, front first. */
  function Window<K>(ks: KeySet<K>): (w: seq<K>)
    requires Valid(ks)
    ensures |w| == if Arity(ks) > 0 then Arity(ks) else 0
  {
    if ks.left <= ks.right then ks.keys[ks.left..ks.right] else []
  }

  /** `IndexKeySet.of`: a cursor over the whole array. */
  function Of<K>(keys: seq<K>): (ks: KeySet<K>)
    ensures Valid(ks)
    ensures Arity(ks) == |keys|
    ensures Window(ks) == keys
  {
    KeySet(keys, 0, |keys|)
  }

  function HasNext<K>(ks: KeySet<K>): (b: bool)
    ensures Valid(ks) ==> (b <==> |Window(ks)| > 0)
  {
    ks.right > ks.left
  }

  function IsLast<K>(ks: KeySet<K>): (b: bool)
    ensures b ==> HasNext(ks)
    ensures Valid(ks) ==> (b <==> |Window(ks)| == 1)
  {
    ks.right - ks.left == 1
  }

  /** Take the front key; an exhausted cursor yields `None` (Java's null) and
      stays as it is. */
  function Pop<K>(ks: KeySet<K>): (r: (Option<K>, KeySet<K>))
    requires Valid(ks)
    ensures Valid(r.1) && r.1.keys == ks.keys && r.1.right == ks.right
    ensures HasNext(ks) ==> r.0 == Some(Window(ks)[0]) && Window(r.1) == Window(ks)[1..]
    ensures HasNext(ks) ==> Arity(r.1) == Arity(ks) - 1
    ensures !HasNext(ks) ==> r.0 == None && r.1 == ks
  {
    if HasNext(ks) then (Some(ks.keys[ks.left]), ks.(left := ks.left + 1)) else (None, ks)
  }

  /** The front key without consuming it. The source indexes the array at
      `left` without looking at `right`, so only the array bound is needed. */
  function Peek<K>(ks: KeySet<K>): (k: K)
    requires Valid(ks) && ks.left < |ks.keys|
    ensures HasNext(ks) ==> Some(k) == Pop(ks).0
  {
    ks.keys[ks.left]
  }

  /** `drop(n)` exactly as written: `right` goes down by one whatever `n` is. */
  function DropNAsWritten<K>(ks: KeySet<K>, n: int): (r: KeySet<K>)
    ensures Valid(ks) ==> Valid(r)
    ensures r.keys == ks.keys && r.left == ks.left
    ensures Arity(r) == Arity(ks) - 1
  {
    ks.(right := ks.right - 1)
  }

  /** `drop(n)` as its documentation promises: remove the last `n` keys. */
  function DropN<K>(ks: KeySet<K>, n: nat): (r: KeySet<K>)
    requires Valid(ks)
    ensures Valid(r) && r.keys == ks.keys && r.left == ks.left
    ensures Arity(r) == Arity(ks) - n
    ensures n <= Arity(ks) ==> Window(r) == Window(ks)[..Arity(ks) - n]
    ensures n >= Arity(ks) ==> Window(r) == []
  {
    ks.(right := ks.right - n)
  }

  /** `drop()`: remove the last key, the same as `drop(1)` in both readings. */
  function Drop<K>(ks: KeySet<K>): (r: KeySet<K>)
    requires Valid(ks)
    ensures r == DropN(ks, 1) && r == DropNAsWritten(ks, 1)
    ensures Valid(r) && Arity(r) == Arity(ks) - 1
    ensures Arity(ks) >= 1 ==> Window(r) == Window(ks)[..Arity(ks) - 1]
  {
    ks.(right := ks.right - 1)
  }

  /** `hasNull`, which the cursor class shown does not define: some still
      unconsumed key is null. */
  predicate HasNull<V>(ks: KeySet<Option<V>>)
    requires Valid(ks)
    ensures HasNull(ks) <==> None in Window(ks)
  {
    exists i :: ks.left <= i < ks.right && ks.keys[i] == None
  }

  /** Pops every key that is left, front first: the reference sequence that
      `DrainIsWindow` and `DrainOf` compare the window and the array with. */
  function Drain<K>(ks: KeySet<K>): seq<K>
    requires Valid(ks)
    decreases Arity(ks)
  {
    if !HasNext(ks) then [] else var (k, rest) := Pop(ks); [k.value] + Drain(rest)
  }

  /** Draining a cursor yields exactly its window. */
  lemma {:induction false} DrainIsWindow<K>(ks: KeySet<K>)
    requires Valid(ks)
    ensures Drain(ks) == Window(ks)
    decreases Arity(ks)
  {
    if HasNext(ks) {
      DrainIsWindow(Pop(ks).1);
    }
  }

  /** Round trip: popping a fresh cursor to exhaustion returns the array given
      to `of`. */
  lemma DrainOf<K>(keys: seq<K>)
    ensures Drain(Of(keys)) == keys
  {
    DrainIsWindow(Of(keys));
  }

  /** No operation widens the window or touches the array. */
  lemma NothingWidens<K>(ks: KeySet<K>, n: nat)
    requires Valid(ks)
    ensures Arity(Pop(ks).1) <= Arity(ks) && Pop(ks).1.keys == ks.keys
    ensures Arity(Drop(ks)) < Arity(ks) && Drop(ks).keys == ks.keys
    ensures Arity(DropNAsWritten(ks, n)) < Arity(ks) && DropNAsWritten(ks, n).keys == ks.keys
  {
  }

  /** `drop(n)` as written ignores `n`: dropping two keys from a three-key
      cursor leaves two keys, not one. */
  lemma DropNIgnoresCount()
    ensures Arity(DropNAsWritten(Of([1, 2, 3]), 2)) == 2
    ensures Window(DropN(Of([1, 2, 3]), 2)) == [1]
  {
    var ks := Of([1, 2, 3]);
    assert DropN(ks, 2) == KeySet([1, 2, 3], 0, 1);
    assert [1, 2, 3][0..1] == [1];
  }
}
