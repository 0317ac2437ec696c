/** `SortedIntIntVector`: an unbounded sparse vector of Java `int`s, kept
    as parallel index and value arrays whose first `used` indices are
    strictly ascending.  `SortedIntIntMap`, which it extends, is not part
    of this model.  Its map operations are modelled after
    `SortedIntDoubleMap` on `int` values, with three assumptions:
    `Wrap` is only given ascending indices (the superclass check is not
    modelled), `Dense` passes that check because its indices are
    0, 1, 2, ..., and the entry iterator visits each entry once. */
module SortedIntIntVectors {
  import opened Wrappers
  import opened JavaLang
  import opened SortedArrays
  import opened IntEntries

  /** A copy of s as a fresh array (`toNativeArray`). */
  method ToArray(s: seq<int>) returns (a: array<int>)
    ensures fresh(a) && a[..] == s
  {
    a := new int[|s|](k requires 0 <= k < |s| => s[k]);
  }

  class SortedIntIntVector {
    var indices: array<int>
    var values: array<int>
    var used: nat

    ghost predicate Valid()
      reads this, indices
    {
      used <= indices.Length && used <= values.Length && indices != values && Sorted(indices[..used])
    }

    /** The stored indices in ascending order. */
    ghost function Keys(): seq<int>
      reads this, indices
      requires Valid()
    {
      indices[..used]
    }

    /** The stored values, at their indices' positions. */
    ghost function Vals(): seq<int>
      reads this, values
      requires used <= values.Length
    {
      values[..used]
    }

    /** `new SortedIntIntVector()`: empty. */
    constructor()
      ensures Valid() && Keys() == [] && Vals() == []
      ensures fresh(indices) && fresh(values)
    {
      used := 0;
      indices := new int[0];
      values := new int[0];
    }

    /** `new SortedIntIntVector(index, data)`: keeps the given arrays. */
    constructor Wrap(index: array<int>, data: array<int>)
      requires index.Length == data.Length && index != data && Sorted(index[..])
      ensures Valid() && indices == index && values == data
      ensures Keys() == index[..] && Vals() == data[..]
    {
      used := index.Length;
      indices := index;
      values := data;
      new;
      assert indices[..used] == index[..];
    }

    /** `new SortedIntIntVector(denseRow)`: index k holds denseRow[k]; the
        row itself becomes the value array. */
    constructor Dense(denseRow: array<int>)
      ensures Valid() && values == denseRow && fresh(indices)
      ensures Keys() == seq(denseRow.Length, k => k) && Vals() == denseRow[..]
    {
      used := denseRow.Length;
      indices := new int[denseRow.Length](k => k);
      values := denseRow;
      new;
      assert values[..used] == denseRow[..];
    }

    /** The copy constructor. */
    constructor Copy(vector: SortedIntIntVector)
      requires vector.Valid()
      ensures Valid() && Keys() == vector.Keys() && Vals() == vector.Vals()
      ensures fresh(indices) && fresh(values)
    {
      used := vector.used;
      indices := new int[vector.indices.Length](k requires 0 <= k < vector.indices.Length reads vector, vector.indices => vector.indices[k]);
      values := new int[vector.values.Length](k requires 0 <= k < vector.values.Length reads vector, vector.values => vector.values[k]);
      new;
      assert indices[..used] == vector.indices[..used];
      assert values[..used] == vector.values[..used];
    }

    /** `getWithDefault(idx, defaultVal)`. */
    method GetWithDefault(idx: int, defaultVal: int) returns (v: int)
      requires Valid()
      ensures idx in Keys() ==> Get(Keys(), Vals(), idx) == Some(v)
      ensures idx !in Keys() ==> v == defaultVal
    {
      var i := BinarySearch(indices, used, idx);
      SearchFinds(indices[..used], idx);
      GetAt(Keys(), Vals(), idx);
      if i < 0 {
        return defaultVal;
      }
      v := values[i];
    }

    /** `get(idx)`: an absent index reads as 0. */
    method GetAt0(idx: int) returns (v: int)
      requires Valid()
      ensures v == Get0(Keys(), Vals(), idx)
    {
      GetAt(Keys(), Vals(), idx);
      v := GetWithDefault(idx, 0);
    }

    /** `put(idx, val)` and `set(idx, val)`. */
    method Put(idx: int, val: int)
      requires Valid()
      modifies this, indices, values
      ensures Valid()
      ensures indices == old(indices) || fresh(indices)
      ensures values == old(values) || fresh(values)
      ensures (Keys(), Vals()) == PutSpec(old(Keys()), old(Vals()), idx, val)
    {
      var i := BinarySearch(indices, used, idx);
      SearchFinds(indices[..used], idx);
      ghost var ks, vs := Keys(), Vals();
      if i >= 0 {
        values[i] := val;
        assert values[..used] == vs[i := val];
        return;
      }
      InsertEntry(-(i + 1), idx, val);
    }

    /** The branch of `put` for a new index: both arrays take the entry at
        its insertion point p. */
    method InsertEntry(p: nat, idx: int, val: int)
      requires Valid() && p == Position(Keys(), idx) && idx !in Keys()
      modifies this, indices, values
      ensures Valid()
      ensures indices == old(indices) || fresh(indices)
      ensures values == old(values) || fresh(values)
      ensures Keys() == InsertAt(old(Keys()), p, idx) && Vals() == InsertAt(old(Vals()), p, val)
    {
      InsertSorted(Keys(), idx);
      var newIndices := InsertInto(indices, used, p, idx);
      var newValues := InsertInto(values, used, p, val);
      indices, values, used := newIndices, newValues, used + 1;
    }

    /** `add(idx, val)`: the old value (0 when absent) plus val, as an
        `int`. */
    method Add(idx: int, val: int)
      requires Valid()
      modifies this, indices, values
      ensures Valid()
      ensures (Keys(), Vals()) == PutSpec(old(Keys()), old(Vals()), idx, Wrap32(Get0(old(Keys()), old(Vals()), idx) + val))
    {
      var curVal := GetAt0(idx);
      Put(idx, Wrap32(curVal + val));
    }

    /** `dot(int[] other)`. */
    method DotArray(other: array<int>) returns (r: Result<int>)
      requires Valid()
      ensures r == Wrapped(DenseTerms(Keys(), Vals(), other[..]))
    {
      ghost var ks, vs := Keys(), Vals();
      var ret := 0;
      ghost var acc := 0;
      var c := 0;
      while c < used && indices[c] < other.Length
        invariant 0 <= c <= used
        invariant DenseTerms(ks, vs, other[..]) == Shift(DenseTerms(ks[c..], vs[c..], other[..]), acc)
        invariant ret == Wrap32(acc)
      {
        assert ks[c..][0] == indices[c] && vs[c..][0] == values[c];
        assert ks[c..][1..] == ks[c + 1..] && vs[c..][1..] == vs[c + 1..];
        if indices[c] < 0 {
          return Throw(IndexOutOfBounds);
        }
        var prod := values[c] * other[indices[c]];
        WrapAccum(ret, acc, prod);
        ret := Wrap32(ret + Wrap32(prod));
        acc := acc + prod;
        c := c + 1;
      }
      r := Ok(ret);
    }

    /** `dot(SortedIntIntVector y)`. */
    method Dot(y: SortedIntIntVector) returns (r: int)
      requires Valid() && y.Valid()
      ensures r == Wrap32(DotSparse(Keys(), Vals(), y.Keys(), y.Vals()))
    {
      ghost var ak, av, bk, bv := Keys(), Vals(), y.Keys(), y.Vals();
      var ret := 0;
      var oc := 0;
      var c := 0;
      while c < used
        invariant 0 <= c <= used && 0 <= oc <= y.used
        invariant oc > 0 ==> c > 0 && y.indices[oc - 1] < indices[c - 1]
        invariant ret == Wrap32(DotSparse(ak[..c], av[..c], bk, bv))
      {
        assert c > 0 ==> ak[c - 1] < ak[c];
        oc := SkipBelow(y.indices, y.used, oc, indices[c]);
        var found := oc < y.used && indices[c] == y.indices[oc];
        var prod := if found then values[c] * y.values[oc] else 0;
        DotWrapCursor(ak, av, bk, bv, c, oc, ret, prod);
        if found {
          ret := Wrap32(ret + Wrap32(prod));
        }
        c := c + 1;
      }
      assert ak[..c] == ak && av[..c] == av;
      r := ret;
    }

    /** `hadamardProd(other)`: a new vector.  Its indices arrive in
        ascending order, so each `put` into it appends; the entries are
        collected first and the vector is built from them. */
    method HadamardProd(other: SortedIntIntVector) returns (ip: SortedIntIntVector)
      requires Valid() && other.Valid()
      ensures fresh(ip) && ip.Valid()
      ensures (ip.Keys(), ip.Vals()) == Hadamard(Keys(), Vals(), other.Keys(), other.Vals())
    {
      ghost var ak, av, bk, bv := Keys(), Vals(), other.Keys(), other.Vals();
      var rk: seq<int>, rv: seq<int> := [], [];
      var oc := 0;
      var c := 0;
      while c < used
        invariant 0 <= c <= used && 0 <= oc <= other.used
        invariant oc > 0 ==> c > 0 && other.indices[oc - 1] < indices[c - 1]
        invariant (rk, rv) == Hadamard(ak[..c], av[..c], bk, bv)
      {
        assert c > 0 ==> ak[c - 1] < ak[c];
        oc := SkipBelow(other.indices, other.used, oc, indices[c]);
        HadamardCursor(ak, av, bk, bv, c, oc);
        if oc < other.used && indices[c] == other.indices[oc] {
          rk, rv := rk + [indices[c]], rv + [Wrap32(values[c] * other.values[oc])];
        }
        c := c + 1;
      }
      assert ak[..c] == ak && av[..c] == av;
      HadamardKeys(ak, av, bk, bv);
      var ki := ToArray(rk);
      var vi := ToArray(rv);
      ip := new SortedIntIntVector.Wrap(ki, vi);
    }

    /** `binaryOp(other, op)`: a merge of the two sorted index lists, taking
        the smaller index first, into fresh arrays. */
    method BinaryOp(other: SortedIntIntVector, op: (int, int) -> int)
      requires Valid() && other.Valid()
      modifies this
      ensures Valid() && fresh(indices) && fresh(values)
      ensures (Keys(), Vals()) == Merge(old(Keys()), old(Vals()), old(other.Keys()), old(other.Vals()), op)
    {
      var newIndices, newValues := MergeArrays(indices, values, used, other.indices, other.values, other.used, op);
      MergeKeys(Keys(), Vals(), other.Keys(), other.Vals(), op);
      used := |newIndices|;
      indices := ToArray(newIndices);
      values := ToArray(newValues);
      assert indices[..used] == newIndices && values[..used] == newValues;
    }

    /** `add(other)`: binaryOp with `int` addition. */
    method AddVector(other: SortedIntIntVector)
      requires Valid() && other.Valid()
      modifies this
      ensures Valid()
      ensures (Keys(), Vals()) == Merge(old(Keys()), old(Vals()), old(other.Keys()), old(other.Vals()), (a, b) => Wrap32(a + b))
    {
      BinaryOp(other, (a, b) => Wrap32(a + b));
    }

    /** `subtract(other)`: binaryOp with `int` subtraction. */
    method Subtract(other: SortedIntIntVector)
      requires Valid() && other.Valid()
      modifies this
      ensures Valid()
      ensures (Keys(), Vals()) == Merge(old(Keys()), old(Vals()), old(other.Keys()), old(other.Vals()), (a, b) => Wrap32(a - b))
    {
      BinaryOp(other, (a, b) => Wrap32(a - b));
    }

    /** `zero()`: every entry of the value array becomes 0; `used` and the
        indices stay, so explicit zeros remain. */
    method Zero() returns (r: SortedIntIntVector)
      requires Valid()
      modifies values
      ensures r == this && Valid() && Keys() == old(Keys())
      ensures values[..] == seq(values.Length, _ => 0)
      ensures Vals() == seq(used, _ => 0)
    {
      forall k | 0 <= k < values.Length {
        values[k] := 0;
      }
      r := this;
    }

    /** `set(other)`: this vector becomes a copy of other. */
    method SetFrom(other: SortedIntIntVector)
      requires other.Valid()
      modifies this
      ensures Valid() && fresh(indices) && fresh(values)
      ensures Keys() == old(other.Keys()) && Vals() == old(other.Vals())
    {
      var n := other.used;
      var otherIndices := other.indices;
      var otherValues := other.values;
      var newIndices := new int[otherIndices.Length](k requires 0 <= k < otherIndices.Length reads otherIndices => otherIndices[k]);
      var newValues := new int[otherValues.Length](k requires 0 <= k < otherValues.Length reads otherValues => otherValues[k]);
      used := n;
      indices := newIndices;
      values := newValues;
      assert indices[..used] == otherIndices[..n] && values[..used] == otherValues[..n];
    }

    /** `getIndices()` of the base map: the first `used` indices, the array
        itself when it is full. */
    method GetIndices() returns (r: array<int>)
      requires Valid()
      ensures r[..] == Keys()
      ensures used == indices.Length ==> r == indices
      ensures used != indices.Length ==> fresh(r)
    {
      if used == indices.Length {
        return indices;
      }
      r := new int[used];
      forall k | 0 <= k < used { r[k] := indices[k]; }
    }

    /** `getValues()` of the base map, likewise. */
    method GetValues() returns (r: array<int>)
      requires Valid()
      ensures r[..] == Vals()
      ensures used == values.Length ==> r == values
      ensures used != values.Length ==> fresh(r)
    {
      if used == values.Length {
        return values;
      }
      r := new int[used];
      forall k | 0 <= k < used { r[k] := values[k]; }
    }

    /** `getElementwiseSum(other)`: a copy of this vector plus other. */
    method GetElementwiseSum(other: SortedIntIntVector) returns (sum: SortedIntIntVector)
      requires Valid() && other.Valid()
      ensures fresh(sum) && sum.Valid()
      ensures (sum.Keys(), sum.Vals()) == Merge(Keys(), Vals(), other.Keys(), other.Vals(), (a, b) => Wrap32(a + b))
    {
      sum := new SortedIntIntVector.Copy(this);
      sum.AddVector(other);
    }

    /** `getElementwiseDiff(other)`: a copy of this vector minus other. */
    method GetElementwiseDiff(other: SortedIntIntVector) returns (diff: SortedIntIntVector)
      requires Valid() && other.Valid()
      ensures fresh(diff) && diff.Valid()
      ensures (diff.Keys(), diff.Vals()) == Merge(Keys(), Vals(), other.Keys(), other.Vals(), (a, b) => Wrap32(a - b))
    {
      diff := new SortedIntIntVector.Copy(this);
      diff.Subtract(other);
    }

    /** `equals(obj)` for another vector: both without their zeros, the
        same size, and each entry of either read back from the other. */
    method Equals(other: SortedIntIntVector) returns (b: bool)
      requires Valid() && other.Valid()
      ensures b <==> EqualsChecks(NoZeros(Keys(), Vals()), NoZeros(other.Keys(), other.Vals()))
      ensures b <==> forall k :: Get0(Keys(), Vals(), k) == Get0(other.Keys(), other.Vals(), k)
    {
      EqualsIff(Keys(), Vals(), other.Keys(), other.Vals());
      var v1 := GetWithNoZeroValues(this);
      var v2 := GetWithNoZeroValues(other);
      ghost var n1, n2 := NoZeros(Keys(), Vals()), NoZeros(other.Keys(), other.Vals());
      assert v1.Keys() == n1.0 && v1.Vals() == n1.1 && v2.Keys() == n2.0 && v2.Vals() == n2.1;
      var s1 := v1.Size();
      var s2 := v2.Size();
      if s2 != s1 {
        assert |n1.0| != |n2.0|;
        return false;
      }
      var ok1 := ReadsBack(v1, v2);
      if !ok1 {
        return false;
      }
      var ok2 := ReadsBack(v2, v1);
      if !ok2 {
        return false;
      }
      return true;
    }

    /** `size()`. */
    method Size() returns (n: nat)
      requires Valid()
      ensures n == |Keys()|
    {
      n := used;
    }
  }

  /** The three loops of `binaryOp`: both lists while both have entries,
      then the rest of either. */
  method MergeArrays(ai: array<int>, av: array<int>, n1: nat, bi: array<int>, bv: array<int>, n2: nat, op: (int, int) -> int)
    returns (newIndices: seq<int>, newValues: seq<int>)
    requires n1 <= ai.Length && n1 <= av.Length && n2 <= bi.Length && n2 <= bv.Length
    ensures (newIndices, newValues) == Merge(ai[..n1], av[..n1], bi[..n2], bv[..n2], op)
  {
    ghost var ak, avs, bk, bvs := ai[..n1], av[..n1], bi[..n2], bv[..n2];
    newIndices, newValues := [], [];
    var i, j := 0, 0;
    assert ak[0..] == ak && avs[0..] == avs && bk[0..] == bk && bvs[0..] == bvs;
    ghost var whole := Merge(ak, avs, bk, bvs, op);
    assert newIndices + whole.0 == whole.0 && newValues + whole.1 == whole.1;
    while i < n1 && j < n2
      invariant 0 <= i <= n1 && 0 <= j <= n2
      invariant whole == Cat((newIndices, newValues), Merge(ak[i..], avs[i..], bk[j..], bvs[j..], op))
    {
      var e1, v1, e2, v2 := ai[i], av[i], bi[j], bv[j];
      assert e1 == ak[i] && v1 == avs[i] && e2 == bk[j] && v2 == bvs[j];
      if e1 == e2 {
        MergeTakeBoth(ak, avs, bk, bvs, op, i, j, (newIndices, newValues));
        newIndices, newValues := newIndices + [e1], newValues + [op(v1, v2)];
        i, j := i + 1, j + 1;
      } else if e1 < e2 {
        MergeTakeLeft(ak, avs, bk, bvs, op, i, j, (newIndices, newValues));
        newIndices, newValues := newIndices + [e1], newValues + [op(v1, 0)];
        i := i + 1;
      } else {
        MergeTakeRight(ak, avs, bk, bvs, op, i, j, (newIndices, newValues));
        newIndices, newValues := newIndices + [e2], newValues + [op(0, v2)];
        j := j + 1;
      }
    }
    var ti, tv := MergeTails(ai, av, n1, bi, bv, n2, op, i, j);
    newIndices, newValues := newIndices + ti, newValues + tv;
  }

  /** The last two loops of `binaryOp`: once either list is used up, the
      rest of the other is copied, each value combined with 0. */
  method MergeTails(ai: array<int>, av: array<int>, n1: nat, bi: array<int>, bv: array<int>, n2: nat,
                    op: (int, int) -> int, i0: nat, j0: nat)
    returns (ti: seq<int>, tv: seq<int>)
    requires n1 <= ai.Length && n1 <= av.Length && n2 <= bi.Length && n2 <= bv.Length
    requires i0 <= n1 && j0 <= n2 && (i0 == n1 || j0 == n2)
    ensures (ti, tv) == Merge(ai[..n1][i0..], av[..n1][i0..], bi[..n2][j0..], bv[..n2][j0..], op)
  {
    ghost var ak, avs, bk, bvs := ai[..n1], av[..n1], bi[..n2], bv[..n2];
    ghost var whole := Merge(ak[i0..], avs[i0..], bk[j0..], bvs[j0..], op);
    ti, tv := [], [];
    assert ti + whole.0 == whole.0 && tv + whole.1 == whole.1;
    var i, j := i0, j0;
    while i < n1
      invariant i0 <= i <= n1 && (i < n1 ==> j == n2) && j0 <= j <= n2
      invariant whole == Cat((ti, tv), Merge(ak[i..], avs[i..], bk[j..], bvs[j..], op))
    {
      assert ai[i] == ak[i] && av[i] == avs[i];
      MergeTakeLeft(ak, avs, bk, bvs, op, i, j, (ti, tv));
      ti, tv := ti + [ai[i]], tv + [op(av[i], 0)];
      i := i + 1;
    }
    while j < n2
      invariant j0 <= j <= n2 && i == n1
      invariant whole == Cat((ti, tv), Merge(ak[i..], avs[i..], bk[j..], bvs[j..], op))
    {
      assert bi[j] == bk[j] && bv[j] == bvs[j];
      MergeTakeRight(ak, avs, bk, bvs, op, i, j, (ti, tv));
      ti, tv := ti + [bi[j]], tv + [op(0, bv[j])];
      j := j + 1;
    }
    assert ak[i..] == [] && bk[j..] == [] && avs[i..] == [] && bvs[j..] == [];
    assert ti + [] == ti && tv + [] == tv;
  }

  /** `countUnique(indices1, indices2)`: the two-cursor count, which
      passes over an index the two arrays share without counting it. */
  method CountUniqueOf(indices1: array<int>, indices2: array<int>) returns (numUniqueIndices: nat)
    ensures numUniqueIndices == CountUnique(indices1[..], indices2[..])
  {
    ghost var a, b := indices1[..], indices2[..];
    numUniqueIndices := 0;
    var i, j := 0, 0;
    assert a[0..] == a && b[0..] == b;
    while i < indices1.Length && j < indices2.Length
      invariant 0 <= i <= indices1.Length && 0 <= j <= indices2.Length
      invariant CountUnique(a, b) == numUniqueIndices + CountUnique(a[i..], b[j..])
    {
      assert a[i..][0] == a[i] && a[i..][1..] == a[i + 1..];
      assert b[j..][0] == b[j] && b[j..][1..] == b[j + 1..];
      if indices1[i] < indices2[j] {
        numUniqueIndices, i := numUniqueIndices + 1, i + 1;
      } else if indices2[j] < indices1[i] {
        numUniqueIndices, j := numUniqueIndices + 1, j + 1;
      } else {
        i, j := i + 1, j + 1;
      }
    }
    ghost var rest := numUniqueIndices + (indices1.Length - i) + (indices2.Length - j);
    assert CountUnique(a, b) == rest;
    while i < indices1.Length
      invariant 0 <= i <= indices1.Length
      invariant rest == numUniqueIndices + (indices1.Length - i) + (indices2.Length - j)
    {
      numUniqueIndices, i := numUniqueIndices + 1, i + 1;
    }
    while j < indices2.Length
      invariant 0 <= j <= indices2.Length
      invariant rest == numUniqueIndices + (indices2.Length - j)
    {
      numUniqueIndices, j := numUniqueIndices + 1, j + 1;
    }
  }

  /** `getWithNoZeroValues(row)`: the same vector when no stored value is 0,
      otherwise a new one with the zero entries dropped. */
  method GetWithNoZeroValues(row: SortedIntIntVector) returns (r: SortedIntIntVector)
    requires row.Valid()
    ensures r.Valid() && (r.Keys(), r.Vals()) == NoZeros(row.Keys(), row.Vals())
    ensures (forall t :: 0 <= t < |row.Vals()| ==> row.Vals()[t] != 0) <==> r == row
  {
    ghost var ks, vs := row.Keys(), row.Vals();
    NoZerosLength(ks, vs);
    var origIndex := row.GetIndices();
    var origData := row.GetValues();
    var n := row.used;
    var isNonZero, numNonZeros := CountNonZeros(origIndex, origData);
    var numZeros := n - numNonZeros;
    if numZeros > 0 {
      var newIndex, newData := CopyNonZeros(origIndex, origData, isNonZero, numNonZeros);
      NoZerosKeys(ks, vs);
      r := new SortedIntIntVector.Wrap(newIndex, newData);
    } else {
      r := row;
    }
  }

  /** The filling loop of `getWithNoZeroValues`: the entries flagged as
      nonzero, in order, into arrays of the counted size. */
  method CopyNonZeros(origIndex: array<int>, origData: array<int>, isNonZero: array<bool>, numNonZeros: nat)
    returns (newIndex: array<int>, newData: array<int>)
    requires origIndex.Length == origData.Length == isNonZero.Length
    requires forall t :: 0 <= t < isNonZero.Length ==> isNonZero[t] == (origData[t] != 0)
    requires numNonZeros == |NoZeros(origIndex[..], origData[..]).0|
    ensures fresh(newIndex) && fresh(newData) && newIndex != newData
    ensures (newIndex[..], newData[..]) == NoZeros(origIndex[..], origData[..])
  {
    ghost var ks, vs := origIndex[..], origData[..];
    newIndex := new int[numNonZeros];
    newData := new int[numNonZeros];
    var newIdx := 0;
    var i := 0;
    while i < isNonZero.Length
      invariant 0 <= i <= isNonZero.Length
      invariant newIdx <= numNonZeros
      invariant newIdx == |NoZeros(ks[..i], vs[..i]).0|
      invariant newIndex[..newIdx] == NoZeros(ks[..i], vs[..i]).0
      invariant newData[..newIdx] == NoZeros(ks[..i], vs[..i]).1
    {
      assert ks[..i + 1][..i] == ks[..i] && vs[..i + 1][..i] == vs[..i];
      NoZerosMono(ks, vs, i + 1);
      if isNonZero[i] {
        newIndex[newIdx] := origIndex[i];
        newData[newIdx] := origData[i];
        newIdx := newIdx + 1;
      }
      i := i + 1;
    }
    assert ks[..i] == ks && vs[..i] == vs;
    assert newIndex[..] == newIndex[..newIdx] && newData[..] == newData[..newIdx];
  }

  /** The counting loop of `getWithNoZeroValues`: a flag per entry and the
      number of nonzero values. */
  method CountNonZeros(origIndex: array<int>, origData: array<int>) returns (isNonZero: array<bool>, numNonZeros: nat)
    requires origIndex.Length == origData.Length
    ensures fresh(isNonZero) && isNonZero.Length == origData.Length
    ensures forall t :: 0 <= t < isNonZero.Length ==> isNonZero[t] == (origData[t] != 0)
    ensures numNonZeros == |NoZeros(origIndex[..], origData[..]).0|
  {
    ghost var ks, vs := origIndex[..], origData[..];
    numNonZeros := 0;
    isNonZero := new bool[origData.Length];
    var i := 0;
    while i < origData.Length
      invariant 0 <= i <= origData.Length
      invariant forall t :: 0 <= t < i ==> isNonZero[t] == (origData[t] != 0)
      invariant numNonZeros == |NoZeros(ks[..i], vs[..i]).0|
    {
      assert ks[..i + 1][..i] == ks[..i] && vs[..i + 1][..i] == vs[..i];
      if origData[i] != 0 {
        isNonZero[i] := true;
        numNonZeros := numNonZeros + 1;
      } else {
        isNonZero[i] := false;
      }
      i := i + 1;
    }
    assert ks[..i] == ks && vs[..i] == vs;
  }

  /** One loop of `equals`: every entry of v1 reads the same in v2. */
  method ReadsBack(v1: SortedIntIntVector, v2: SortedIntIntVector) returns (ok: bool)
    requires v1.Valid() && v2.Valid()
    ensures ok <==> ReadBack(v1.Keys(), v1.Vals(), v2.Keys(), v2.Vals())
  {
    var t := 0;
    while t < v1.used
      invariant 0 <= t <= v1.used
      invariant forall u :: 0 <= u < t ==> v1.Vals()[u] == Get0(v2.Keys(), v2.Vals(), v1.Keys()[u])
    {
      var g := v2.GetAt0(v1.indices[t]);
      assert v1.Vals()[t] == v1.values[t] && v1.Keys()[t] == v1.indices[t];
      if v1.values[t] != g {
        return false;
      }
      t := t + 1;
    }
    return true;
  }
}
