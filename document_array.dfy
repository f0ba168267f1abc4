/** An array of embedded documents (Mongoose's DocumentArray) as an ordered
    sequence. Every element carries an id; `key` projects it. The routes use
    three operations on such arrays: `push` (sequence append), `.id(x)`
    (IndexOf) and the element's `remove()` (RemoveAt). */
module DocumentArray {
  import opened Wrappers

  /** A document id. It stands for a MongoDB ObjectId, whose format is not
      modelled. */
  type Id = nat

  /** No two elements share an id. */
  predicate DistinctBy<T>(s: seq<T>, key: T -> Id) {
    forall i, j :: 0 <= i < j < |s| ==> key(s[i]) != key(s[j])
  }

  /** `.id(id)`: the position of the first element whose id is `id`, if any. */
  function IndexOf<T>(s: seq<T>, key: T -> Id, id: Id): (r: Option<nat>)
    ensures r.None? <==> forall i :: 0 <= i < |s| ==> key(s[i]) != id
    ensures r.Some? ==> r.value < |s| && key(s[r.value]) == id
    ensures r.Some? ==> forall i :: 0 <= i < r.value ==> key(s[i]) != id
  {
    if s == [] then None
    else if key(s[0]) == id then Some(0)
    else match IndexOf(s[1..], key, id)
      case None => None
      case Some(k) => Some(k + 1)
  }

  /** The sequence without its element at position `k`; the others keep
      their relative order. */
  function RemoveAt<T>(s: seq<T>, k: nat): (r: seq<T>)
    requires k < |s|
    ensures |r| == |s| - 1
    ensures forall i :: 0 <= i < k ==> r[i] == s[i]
    ensures forall i :: k <= i < |r| ==> r[i] == s[i + 1]
  {
    s[..k] + s[k + 1..]
  }

  /** An element pushed with an id that is not yet in the array is found by
      that id, at the end. */
  lemma {:induction false} IndexOfPushedFresh<T>(s: seq<T>, key: T -> Id, x: T)
    requires IndexOf(s, key, key(x)) == None
    ensures IndexOf(s + [x], key, key(x)) == Some(|s|)
  {
    if s != [] {
      assert (s + [x])[1..] == s[1..] + [x];
      IndexOfPushedFresh(s[1..], key, x);
    }
  }

  /** Pushing an element with a fresh id keeps the ids distinct. */
  lemma DistinctPushFresh<T>(s: seq<T>, key: T -> Id, x: T)
    requires DistinctBy(s, key)
    requires IndexOf(s, key, key(x)) == None
    ensures DistinctBy(s + [x], key)
  {
  }

  /** Replacing an element by one with the same id keeps the ids distinct,
      and the id still finds the same position. */
  lemma ReplaceSameId<T>(s: seq<T>, key: T -> Id, k: nat, x: T)
    requires DistinctBy(s, key) && k < |s| && key(x) == key(s[k])
    ensures DistinctBy(s[k := x], key)
    ensures IndexOf(s[k := x], key, key(x)) == Some(k)
  {
    assert s[k := x][k] == x;
  }

  /** Removing the element found by `id` removes exactly that element: the id
      is no longer found, every other element is still there, nothing else is
      removed, and the ids stay distinct. */
  lemma {:induction false} RemoveFound<T>(s: seq<T>, key: T -> Id, id: Id, k: nat)
    requires DistinctBy(s, key)
    requires IndexOf(s, key, id) == Some(k)
    ensures IndexOf(RemoveAt(s, k), key, id) == None
    ensures DistinctBy(RemoveAt(s, k), key)
    ensures forall x :: x in RemoveAt(s, k) <==> x in s && key(x) != id
  {
    var r := RemoveAt(s, k);
    forall x | x in s && key(x) != id ensures x in r {
      var i :| 0 <= i < |s| && s[i] == x;
      if i < k { assert r[i] == x; } else { assert i > k && r[i - 1] == x; }
    }
    forall x | x in r ensures x in s && key(x) != id {
      var i :| 0 <= i < |r| && r[i] == x;
      if i < k { assert s[i] == x; } else { assert s[i + 1] == x; }
    }
  }

}
