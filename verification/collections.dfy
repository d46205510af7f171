/** Id-keyed sequences: the store keeps each collection as a JavaScript array
    and finds an entity by a linear scan for its id. */
module Collections {
  import opened Results

  /** The key of every element, in order (`array.map(e => e.id)`). */
  function Keys<T>(xs: seq<T>, key: T -> int): (ks: seq<int>)
    ensures |ks| == |xs|
    ensures forall i :: 0 <= i < |xs| ==> ks[i] == key(xs[i])
  {
    seq(|xs|, i requires 0 <= i < |xs| => key(xs[i]))
  }

  /** No key occurs twice. */
  predicate Distinct(ks: seq<int>) {
    forall i, j :: 0 <= i < j < |ks| ==> ks[i] != ks[j]
  }

  /** Every key is a non-negative number below `bound`. */
  predicate Below(ks: seq<int>, bound: int) {
    forall i :: 0 <= i < |ks| ==> 0 <= ks[i] < bound
  }

  /** The keys a collection may hold when `next` is the id the store issues next:
      distinct ids, each one issued earlier. */
  predicate Issued(ks: seq<int>, next: int) {
    Distinct(ks) && Below(ks, next)
  }

  /** Position of the first key equal to `id`, as `array.findIndex` returns it
      (with `None` for JavaScript's -1). */
  function FindIndex(ks: seq<int>, id: int): (r: Option<nat>)
    ensures r.None? <==> id !in ks
    ensures r.Some? ==> r.value < |ks| && ks[r.value] == id
    ensures r.Some? ==> forall j :: 0 <= j < r.value ==> ks[j] != id
  {
    if |ks| == 0 then None
    else if ks[0] == id then Some(0)
    else match FindIndex(ks[1..], id)
      case None => None
      case Some(j) => Some(j + 1)
  }

  /** The sequence without its element at position `i` (`array.splice(i, 1)`). */
  function RemoveAt<T>(xs: seq<T>, i: nat): (r: seq<T>)
    requires i < |xs|
    ensures |r| == |xs| - 1
    ensures forall j :: 0 <= j < i ==> r[j] == xs[j]
    ensures forall j :: i <= j < |r| ==> r[j] == xs[j + 1]
  {
    xs[..i] + xs[i + 1..]
  }

  /** In a sequence of distinct keys, the scan finds each key at its own position. */
  lemma FindIndexOfDistinct(ks: seq<int>, i: nat)
    requires Distinct(ks) && i < |ks|
    ensures FindIndex(ks, ks[i]) == Some(i)
  {
    var r := FindIndex(ks, ks[i]);
    assert ks[i] in ks;
    var k := r.value;
    assert ks[k] == ks[i];
    assert k < i || k == i || i < k;
  }

  /** Appending the next id to an issued collection gives an issued collection
      for the incremented counter. */
  lemma IssuedAppend(ks: seq<int>, next: int)
    requires Issued(ks, next) && 0 <= next
    ensures Issued(ks + [next], next + 1)
  {
  }

  /** Removing one element keeps a collection issued, and its id is gone. */
  lemma IssuedRemoveAt(ks: seq<int>, next: int, i: nat)
    requires Issued(ks, next) && i < |ks|
    ensures Issued(RemoveAt(ks, i), next)
    ensures ks[i] !in RemoveAt(ks, i)
  {
    var r := RemoveAt(ks, i);
    forall j | 0 <= j < |r|
      ensures r[j] != ks[i]
    {
      if j < i {
        assert r[j] == ks[j];
      } else {
        assert r[j] == ks[j + 1];
      }
    }
  }

  lemma KeysAppend<T>(xs: seq<T>, x: T, key: T -> int)
    ensures Keys(xs + [x], key) == Keys(xs, key) + [key(x)]
  {
  }

  lemma KeysRemoveAt<T>(xs: seq<T>, i: nat, key: T -> int)
    requires i < |xs|
    ensures Keys(RemoveAt(xs, i), key) == RemoveAt(Keys(xs, key), i)
  {
  }

  lemma KeysUpdate<T>(xs: seq<T>, i: nat, x: T, key: T -> int)
    requires i < |xs| && key(x) == key(xs[i])
    ensures Keys(xs[i := x], key) == Keys(xs, key)
  {
  }

  /** A key of a collection below `bound` is itself below `bound`. */
  lemma InBelow(ks: seq<int>, bound: int, k: int)
    requires Below(ks, bound) && k in ks
    ensures 0 <= k < bound
  {
  }
}
