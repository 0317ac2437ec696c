/** `SortedIntDoubleMap`: a map from int keys to double values kept as two
    parallel arrays whose first `used` keys are strictly ascending. Values
    are modelled as reals. */
module SortedIntDoubleMaps {
  import opened Wrappers
  import opened SortedArrays

  /** `Sort.isSortedAsc` on the value array: each value at most the next
      (Sort is not part of this model; the non-strict reading is assumed). */
  predicate Ascending(s: seq<real>)
  {
    forall i, j :: 0 <= i < j < |s| ==> s[i] <= s[j]
  }

  /** The array constructor's checks: keys first, then values; either
      failure raises IllegalStateException. */
  function CheckArrays(index: seq<int>, data: seq<real>): (o: Outcome)
    ensures o.Done? <==> Sorted(index) && Ascending(data)
    ensures o.Fail? ==> o.ex == IllegalState
  {
    if !Sorted(index) then Fail(IllegalState)
    else if !Ascending(data) then Fail(IllegalState)
    else Done
  }

  class SortedIntDoubleMap {
    var indices: array<int>
    var values: array<real>
    var used: nat

    ghost predicate Valid()
      reads this, indices
    {
      used <= indices.Length && used <= values.Length && Sorted(indices[..used])
    }

    /** The keys in ascending order. */
    ghost function Keys(): seq<int>
      reads this, indices
      requires Valid()
    {
      indices[..used]
    }

    /** The value of each key, at the key's index. */
    ghost function Vals(): seq<real>
      reads this, values
      requires used <= values.Length
    {
      values[..used]
    }

    /** `new SortedIntDoubleMap()`: empty, with no room. */
    constructor()
      ensures Valid() && Keys() == [] && Vals() == []
      ensures fresh(indices) && fresh(values)
    {
      used := 0;
      indices := new int[0];
      values := new real[0];
    }

    /** The array constructor once its checks have passed: it keeps the
        given arrays themselves, and the number of keys is the length of
        the index array. Values past that length are room to grow. */
    constructor Wrap(index: array<int>, data: array<real>)
      requires index.Length <= data.Length && CheckArrays(index[..], data[..]).Done?
      ensures Valid() && indices == index && values == data && used == index.Length
      ensures Keys() == index[..] && Vals() == data[..index.Length]
    {
      used := index.Length;
      indices := index;
      values := data;
      new;
      assert indices[..used] == index[..];
    }

    /** `new SortedIntDoubleMap(index, data)`. Neither length is checked;
        a data array at least as long as the index array is modelled. */
    static method FromArrays(index: array<int>, data: array<real>) returns (r: Result<SortedIntDoubleMap>)
      requires index.Length <= data.Length
      ensures r.Throw? <==> CheckArrays(index[..], data[..]).Fail?
      ensures r.Throw? ==> r.ex == IllegalState
      ensures r.Ok? ==> fresh(r.value) && r.value.Valid() && r.value.indices == index && r.value.values == data
      ensures r.Ok? ==> r.value.Keys() == index[..] && r.value.Vals() == data[..index.Length]
    {
      var check := CheckArrays(index[..], data[..]);
      if check.Fail? {
        return Throw(check.ex);
      }
      var m := new SortedIntDoubleMap.Wrap(index, data);
      r := Ok(m);
    }

    /** The copy constructor: fresh copies of both arrays. */
    constructor Copy(other: SortedIntDoubleMap)
      requires other.Valid()
      ensures Valid() && Keys() == other.Keys() && Vals() == other.Vals()
      ensures fresh(indices) && fresh(values)
      ensures indices[..] == other.indices[..] && values[..] == other.values[..]
    {
      used := other.used;
      var copyIdx := new int[other.indices.Length];
      var copyVal := new real[other.values.Length];
      forall k | 0 <= k < other.indices.Length { copyIdx[k] := other.indices[k]; }
      forall k | 0 <= k < other.values.Length { copyVal[k] := other.values[k]; }
      indices := copyIdx;
      values := copyVal;
      new;
      assert indices[..used] == other.indices[..used];
      assert values[..used] == other.values[..used];
    }

    /** `clear()`: forgets every entry, keeping the arrays. */
    method Clear()
      modifies this
      ensures used == 0 && indices == old(indices) && values == old(values)
      ensures Valid() && Keys() == []
    {
      used := 0;
    }

    /** `contains(idx)`. */
    method Contains(idx: int) returns (b: bool)
      requires Valid()
      ensures b <==> idx in Keys()
    {
      var i := BinarySearch(indices, used, idx);
      SearchFinds(indices[..used], idx);
      b := i >= 0;
    }

    /** `get(idx)`: a missing key raises IllegalArgumentException. */
    method GetOrThrow(idx: int) returns (r: Result<real>)
      requires Valid()
      ensures r.Ok? <==> idx in Keys()
      ensures r.Ok? ==> Get(Keys(), Vals(), idx) == Some(r.value)
      ensures r.Throw? ==> r.ex == IllegalArgument
    {
      var i := BinarySearch(indices, used, idx);
      SearchFinds(indices[..used], idx);
      GetAt(Keys(), Vals(), idx);
      if i < 0 {
        return Throw(IllegalArgument);
      }
      r := Ok(values[i]);
    }

    /** `getWithDefault(idx, defaultVal)`. */
    method GetWithDefault(idx: int, defaultVal: real) returns (v: real)
      requires Valid()
      ensures idx in Keys() ==> Get(Keys(), Vals(), idx) == Some(v)
      ensures idx !in Keys() ==> v == defaultVal
    {
      var i := BinarySearch(indices, used, idx);
      SearchFinds(indices[..used], idx);
      GetAt(Keys(), Vals(), idx);
      if i < 0 {
        return defaultVal;
      }
      v := values[i];
    }

    /** `remove(idx)`: a missing key raises IllegalArgumentException and
        changes nothing; otherwise the later entries shift left. */
    method Remove(idx: int) returns (o: Outcome)
      requires Valid()
      modifies this, indices, values
      ensures Valid() && indices == old(indices) && values == old(values)
      ensures o.Fail? <==> idx !in old(Keys())
      ensures o.Fail? ==> o.ex == IllegalArgument && Keys() == old(Keys()) && Vals() == old(Vals())
      ensures o.Done? ==> (Keys(), Vals()) == RemoveSpec(old(Keys()), old(Vals()), idx)
    {
      var i := BinarySearch(indices, used, idx);
      SearchFinds(indices[..used], idx);
      if i < 0 {
        return Fail(IllegalArgument);
      }
      ghost var ks, vs := Keys(), Vals();
      RemoveFrom(indices, used, i);
      RemoveFrom(values, used, i);
      used := used - 1;
      RemoveSorted(ks, i);
      o := Done;
    }

    /** `put(idx, val)`: a present key gets the new value; a new key is
        inserted at its insertion point, growing the arrays when full. */
    method Put(idx: int, val: real)
      requires Valid()
      modifies this, indices, values
      ensures Valid()
      ensures (Keys(), Vals()) == PutSpec(old(Keys()), old(Vals()), idx, val)
    {
      var i := BinarySearch(indices, used, idx);
      SearchFinds(indices[..used], idx);
      ghost var ks, vs := Keys(), Vals();
      if i >= 0 {
        values[i] := val;
        assert values[..used] == vs[i := val];
        return;
      }
      InsertEntry(-(i + 1), idx, val);
    }

    /** The branch of `put` for a new key: both arrays take the entry at
        its insertion point p. */
    method InsertEntry(p: nat, idx: int, val: real)
      requires Valid() && p == Position(Keys(), idx) && idx !in Keys()
      modifies this, indices, values
      ensures Valid()
      ensures Keys() == InsertAt(old(Keys()), p, idx) && Vals() == InsertAt(old(Vals()), p, val)
    {
      InsertSorted(Keys(), idx);
      var newIndices := InsertInto(indices, used, p, idx);
      var newValues := InsertInto(values, used, p, val);
      indices, values, used := newIndices, newValues, used + 1;
    }

    /** `size()` and `getUsed()`. */
    method Size() returns (n: nat)
      requires Valid()
      ensures n == |Keys()|
    {
      n := used;
    }

    /** `getIndices()`: the stored array itself when it is full, otherwise
        a copy of its first `used` entries. */
    method GetIndices() returns (r: array<int>)
      requires Valid()
      ensures r[..] == Keys()
      ensures used == indices.Length ==> r == indices
      ensures used != indices.Length ==> fresh(r)
    {
      if used == indices.Length {
        return indices;
      }
      r := new int[used];
      forall k | 0 <= k < used { r[k] := indices[k]; }
    }

    /** `getValues()`, likewise. */
    method GetValues() returns (r: array<real>)
      requires Valid()
      ensures r[..] == Vals()
      ensures used == values.Length ==> r == values
      ensures used != values.Length ==> fresh(r)
    {
      if used == values.Length {
        return values;
      }
      r := new real[used];
      forall k | 0 <= k < used { r[k] := values[k]; }
    }
  }

  /** The entry put is there afterwards with its value.  */
  lemma PutThenGet(keys: seq<int>, vals: seq<real>, k: int, v: real)
    requires |keys| == |vals| && Sorted(keys)
    ensures k in PutSpec(keys, vals, k, v).0
    ensures Get(PutSpec(keys, vals, k, v).0, PutSpec(keys, vals, k, v).1, k) == Some(v)
  {
    PutSpecGet(keys, vals, k, v, k);
    PutSpecSorted(keys, vals, k, v);
    GetAt(PutSpec(keys, vals, k, v).0, PutSpec(keys, vals, k, v).1, k);
  }
}
