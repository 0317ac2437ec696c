/** The sorted-array machinery shared by the sparse maps and vectors: the
    first `used` entries of an index array are kept strictly ascending, a
    key is found by binary search, and entries are inserted or removed by
    shifting the rest of the array. */
module SortedArrays {
  import opened Wrappers

  /** Strictly ascending. */
  predicate Sorted(s: seq<int>)
  {
    forall i, j :: 0 <= i < j < |s| ==> s[i] < s[j]
  }

  /** The number of leading entries below key: in a sorted sequence, where
      key is or would be inserted. */
  function Position(s: seq<int>, key: int): (p: nat)
    ensures p <= |s|
    ensures forall t :: 0 <= t < p ==> s[t] < key
    ensures p < |s| ==> s[p] >= key
  {
    if s == [] || s[0] >= key then 0 else 1 + Position(s[1..], key)
  }

  /** In a sorted sequence every entry from the position on is at least key. */
  lemma PositionSplits(s: seq<int>, key: int)
    requires Sorted(s)
    ensures forall t :: Position(s, key) <= t < |s| ==> s[t] >= key
  {
  }

  /** The position is the one place that splits the entries below key from
      the others. */
  lemma PositionUnique(s: seq<int>, key: int, p: nat)
    requires p <= |s|
    requires forall t :: 0 <= t < p ==> s[t] < key
    requires p < |s| ==> s[p] >= key
    ensures Position(s, key) == p
  {
  }

  /** `Arrays.binarySearch` on a sorted range: the index of key, or
      -(insertion point) - 1 when key is absent. */
  function Search(s: seq<int>, key: int): int
  {
    var p := Position(s, key);
    if p < |s| && s[p] == key then p else -(p + 1)
  }

  /** On a sorted sequence the search finds key exactly when it is there. */
  lemma SearchFinds(s: seq<int>, key: int)
    requires Sorted(s)
    ensures Search(s, key) >= 0 <==> key in s
    ensures Search(s, key) >= 0 ==> Search(s, key) < |s| && s[Search(s, key)] == key
    ensures Search(s, key) < 0 ==> -(Search(s, key) + 1) == Position(s, key)
  {
    PositionSplits(s, key);
  }

  function InsertAt<T>(s: seq<T>, i: nat, x: T): (r: seq<T>)
    requires i <= |s|
    ensures |r| == |s| + 1 && r[i] == x
    ensures forall t :: 0 <= t < i ==> r[t] == s[t]
    ensures forall t :: i < t <= |s| ==> r[t] == s[t - 1]
  {
    s[..i] + [x] + s[i..]
  }

  function RemoveAt<T>(s: seq<T>, i: nat): (r: seq<T>)
    requires i < |s|
    ensures |r| == |s| - 1
    ensures forall t :: 0 <= t < i ==> r[t] == s[t]
    ensures forall t :: i <= t < |r| ==> r[t] == s[t + 1]
  {
    s[..i] + s[i + 1..]
  }

  /** The value stored for k in parallel key and value sequences, found by
      the search, or None when k is absent. */
  function Get<V>(keys: seq<int>, vals: seq<V>, k: int): Option<V>
    requires |keys| == |vals|
  {
    var p := Position(keys, k);
    if p < |keys| && keys[p] == k then Some(vals[p]) else None
  }

  /** In sorted keys, a key is found exactly when present, with the value
      at its own index. */
  lemma GetAt<V>(keys: seq<int>, vals: seq<V>, k: int)
    requires |keys| == |vals| && Sorted(keys)
    ensures Get(keys, vals, k).Some? <==> k in keys
    ensures forall t :: 0 <= t < |keys| && keys[t] == k ==> Get(keys, vals, k) == Some(vals[t])
  {
    SearchFinds(keys, k);
    forall t | 0 <= t < |keys| && keys[t] == k
      ensures Get(keys, vals, k) == Some(vals[t])
    {
      PositionUnique(keys, k, t);
    }
  }

  /** `put(k, v)` on the parallel sequences: overwrite the value of a present
      key, otherwise insert key and value at the insertion point. */
  function PutSpec<V>(keys: seq<int>, vals: seq<V>, k: int, v: V): (r: (seq<int>, seq<V>))
    requires |keys| == |vals|
    ensures |r.0| == |r.1|
  {
    var p := Position(keys, k);
    if p < |keys| && keys[p] == k then (keys, vals[p := v])
    else (InsertAt(keys, p, k), InsertAt(vals, p, v))
  }

  /** `remove(k)` of a present key. */
  function RemoveSpec<V>(keys: seq<int>, vals: seq<V>, k: int): (r: (seq<int>, seq<V>))
    requires |keys| == |vals| && k in keys
    ensures |r.0| == |r.1|
  {
    var p := Position(keys, k);
    (RemoveAt(keys, p), RemoveAt(vals, p))
  }

  /** Inserting a key at its insertion point keeps the keys sorted. */
  lemma InsertSorted(keys: seq<int>, k: int)
    requires Sorted(keys) && k !in keys
    ensures Sorted(InsertAt(keys, Position(keys, k), k))
  {
    PositionSplits(keys, k);
  }

  /** Removing an entry keeps the keys sorted. */
  lemma RemoveSorted(keys: seq<int>, p: nat)
    requires Sorted(keys) && p < |keys|
    ensures Sorted(RemoveAt(keys, p))
  {
  }

  /** Putting keeps the keys sorted. */
  lemma PutSpecSorted<V>(keys: seq<int>, vals: seq<V>, k: int, v: V)
    requires |keys| == |vals| && Sorted(keys)
    ensures Sorted(PutSpec(keys, vals, k, v).0)
  {
    SearchFinds(keys, k);
    if k !in keys {
      InsertSorted(keys, k);
    }
  }

  /** In sorted keys, the key at index u is found with the value at u. */
  lemma GetAtIndex<V>(keys: seq<int>, vals: seq<V>, u: nat)
    requires |keys| == |vals| && Sorted(keys) && u < |keys|
    ensures Get(keys, vals, keys[u]) == Some(vals[u])
  {
    PositionUnique(keys, keys[u], u);
  }

  /** After put(k, v), k holds v and every other key what it held. */
  lemma PutSpecGet<V>(keys: seq<int>, vals: seq<V>, k: int, v: V, k': int)
    requires |keys| == |vals| && Sorted(keys)
    ensures Get(PutSpec(keys, vals, k, v).0, PutSpec(keys, vals, k, v).1, k') ==
      if k' == k then Some(v) else Get(keys, vals, k')
  {
    var p := Position(keys, k);
    if !(p < |keys| && keys[p] == k) {
      PutSpecGetInserted(keys, vals, k, v, k');
    }
  }

  /** PutSpecGet for a key that is not yet present. */
  lemma PutSpecGetInserted<V>(keys: seq<int>, vals: seq<V>, k: int, v: V, k': int)
    requires |keys| == |vals| && Sorted(keys)
    requires var p := Position(keys, k); !(p < |keys| && keys[p] == k)
    ensures Get(PutSpec(keys, vals, k, v).0, PutSpec(keys, vals, k, v).1, k') ==
      if k' == k then Some(v) else Get(keys, vals, k')
  {
    var p := Position(keys, k);
    SearchFinds(keys, k);
    InsertSorted(keys, k);
    var ks, vs := InsertAt(keys, p, k), InsertAt(vals, p, v);
    assert PutSpec(keys, vals, k, v) == (ks, vs);
    if k' == k {
      GetAtIndex(ks, vs, p);
    } else if k' in keys {
      var u :| 0 <= u < |keys| && keys[u] == k';
      InsertKeepsEntry(keys, vals, p, k, v, u);
      GetAtIndex(keys, vals, u);
    } else {
      assert k' !in ks;
    }
  }

  /** An entry u of sorted keys is still found, with its value, after an
      insertion at p that keeps the keys sorted. */
  lemma InsertKeepsEntry<V>(keys: seq<int>, vals: seq<V>, p: nat, k: int, v: V, u: nat)
    requires |keys| == |vals| && p <= |keys| && u < |keys| && Sorted(InsertAt(keys, p, k))
    ensures Get(InsertAt(keys, p, k), InsertAt(vals, p, v), keys[u]) == Some(vals[u])
  {
    var w := if u < p then u else u + 1;
    assert InsertAt(keys, p, k)[w] == keys[u] && InsertAt(vals, p, v)[w] == vals[u];
    GetAtIndex(InsertAt(keys, p, k), InsertAt(vals, p, v), w);
  }

  /** After remove(k), k is absent and every other key holds what it held. */
  lemma RemoveSpecGet<V>(keys: seq<int>, vals: seq<V>, k: int, k': int)
    requires |keys| == |vals| && Sorted(keys) && k in keys
    ensures Sorted(RemoveSpec(keys, vals, k).0)
    ensures Get(RemoveSpec(keys, vals, k).0, RemoveSpec(keys, vals, k).1, k') ==
      if k' == k then None else Get(keys, vals, k')
  {
    var p := Position(keys, k);
    SearchFinds(keys, k);
    var (ks, vs) := RemoveSpec(keys, vals, k);
    RemoveSorted(keys, p);
    GetAt(keys, vals, k');
    GetAt(ks, vs, k');
    if k' in keys && k' != k {
      var u :| 0 <= u < |keys| && keys[u] == k';
      var w := if u < p then u else u - 1;
      assert ks[w] == k' && vs[w] == vals[u];
    }
    assert forall t :: 0 <= t < |ks| ==> ks[t] in keys && ks[t] != k;
  }

  /* ---------------- On arrays ---------------- */

  /** `Arrays.binarySearch(a, 0, used, key)`. */
  method BinarySearch(a: array<int>, used: nat, key: int) returns (i: int)
    requires used <= a.Length && Sorted(a[..used])
    ensures i == Search(a[..used], key)
  {
    ghost var s := a[..used];
    var low, high := 0, used - 1;
    while low <= high
      invariant 0 <= low <= high + 1 <= used
      invariant low > 0 ==> s[low - 1] < key
      invariant high + 1 < used ==> s[high + 1] > key
    {
      var mid := (low + high) / 2;
      var midVal := a[mid];
      if midVal < key {
        low := mid + 1;
      } else if midVal > key {
        high := mid - 1;
      } else {
        PositionUnique(s, key, mid);
        return mid;
      }
    }
    if low > 0 {
      SortedBelow(s, low - 1, key);
    }
    PositionUnique(s, key, low);
    i := -(low + 1);
  }

  /** In a sorted sequence every entry up to one below key is below key. */
  lemma SortedBelow(s: seq<int>, j: nat, key: int)
    requires Sorted(s) && j < |s| && s[j] < key
    ensures forall t :: 0 <= t <= j ==> s[t] < key
  {
  }

  /** The private `insert(array, i, val)` of the sparse maps: grows a full
      array first (to at least used + 1, as colt's `ensureCapacity` does),
      then shifts the entries from i on one place right and stores val at
      i. */
  method InsertInto<T(0)>(a: array<T>, used: nat, i: nat, x: T) returns (b: array<T>)
    requires i <= used <= a.Length
    modifies a
    ensures b == a || fresh(b)
    ensures used < b.Length
    ensures b[..used + 1] == InsertAt(old(a[..used]), i, x)
  {
    b := a;
    if used >= a.Length {
      b := Grow(a, used + 1);
      assert b[..used] == a[..used];
    }
    ShiftRightAndSet(b, used, i, x);
  }

  /** `System.arraycopy(array, i, array, i + 1, used - i)` followed by
      `array[i] = val`, on an array with room for one more entry. */
  method ShiftRightAndSet<T>(b: array<T>, used: nat, i: nat, x: T)
    requires i <= used < b.Length
    modifies b
    ensures b[..used + 1] == InsertAt(old(b[..used]), i, x)
  {
    var k := used;
    while k > i
      invariant i <= k <= used
      invariant forall t :: 0 <= t < k ==> b[t] == old(b[t])
      invariant forall t :: k < t <= used ==> b[t] == old(b[t - 1])
    {
      b[k] := b[k - 1];
      k := k - 1;
    }
    b[i] := x;
    assert b[..used + 1] == InsertAt(old(b[..used]), i, x);
  }

  /** colt's `ensureCapacity(array, minCapacity)`: a fresh copy with room
      for at least minCapacity entries. */
  method Grow<T(0)>(a: array<T>, minCapacity: nat) returns (b: array<T>)
    requires a.Length < minCapacity
    ensures fresh(b) && minCapacity <= b.Length
    ensures b[..a.Length] == a[..]
  {
    var capacity := a.Length * 3 / 2 + 1;
    if capacity < minCapacity {
      capacity := minCapacity;
    }
    b := new T[capacity];
    var k := 0;
    while k < a.Length
      invariant 0 <= k <= a.Length
      invariant b[..k] == a[..k]
    {
      b[k] := a[k];
      k := k + 1;
    }
  }

  /** `System.arraycopy(a, i + 1, a, i, used - i - 1)`: the entries after i
      move one place left; the entry at used - 1 stays. */
  method RemoveFrom<T>(a: array<T>, used: nat, i: nat)
    requires i < used <= a.Length
    modifies a
    ensures a[..used - 1] == RemoveAt(old(a[..used]), i)
    ensures a[used - 1..] == old(a[used - 1..])
  {
    var k := i;
    while k < used - 1
      invariant i <= k <= used - 1
      invariant a[..i] == old(a[..i])
      invariant a[i..k] == old(a[i + 1..k + 1])
      invariant a[k..] == old(a[k..])
    {
      a[k] := a[k + 1];
      k := k + 1;
    }
  }
  /** The inner loop of the two-cursor walks of `dot` and `hadamardProd`:
      from oc, step past every entry below key. */
  method SkipBelow(a: array<int>, used: nat, from: nat, key: int) returns (oc: nat)
    requires from <= used <= a.Length && Sorted(a[..used])
    requires from > 0 ==> a[from - 1] < key
    ensures from <= oc <= used
    ensures forall t :: 0 <= t < oc ==> a[t] < key
    ensures oc < used ==> a[oc] >= key
    ensures key in a[..used] <==> oc < used && a[oc] == key
  {
    forall t | 0 <= t < from - 1
      ensures a[t] < key
    {
      assert a[..used][t] < a[..used][from - 1];
    }
    oc := from;
    while oc < used && a[oc] < key
      invariant from <= oc <= used
      invariant forall t :: 0 <= t < oc ==> a[t] < key
    {
      oc := oc + 1;
    }
    PositionUnique(a[..used], key, oc);
    SearchFinds(a[..used], key);
  }
}
