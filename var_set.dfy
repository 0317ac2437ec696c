/** `VarSet`: an ordered, duplicate-free list of variables, and the
    operations on it that count, decode and filter configurations.  The
    list is a value here; every operation below reads it without changing
    it. */
module VarSets {
  import opened Wrappers
  import opened JavaLang
  import opened Vars
  import opened VarConfigs

  /* ---------------- Number of configurations ---------------- */

  /** `calcNumConfigs` as written, over the state counts d: the running
      product is multiplied with 32-bit wrap-around and an exception is
      raised as soon as it is not positive. */
  function ProductAsWritten(d: seq<int>): (r: Result<int>)
    ensures r.Throw? ==> r.ex == IllegalState
  {
    if d == [] then Ok(1)
    else
      match ProductAsWritten(d[..|d| - 1])
      case Throw(ex) => Throw(ex)
      case Ok(p) =>
        var q := Wrap32(p * d[|d| - 1]);
        if q <= 0 then Throw(IllegalState) else Ok(q)
  }

  /** `calcNumConfigs()`: 0 for the empty set, otherwise the checked product. */
  function NumConfigsAsWritten(vs: seq<Var>): Result<int>
  {
    if vs == [] then Ok(0) else ProductAsWritten(Dims(vs))
  }

  /** The loop of `calcNumConfigs`. */
  method CalcNumConfigs(vs: seq<Var>) returns (r: Result<int>)
    ensures r == NumConfigsAsWritten(vs)
  {
    if |vs| == 0 {
      return Ok(0);
    }
    ghost var d := Dims(vs);
    var numConfigs := 1;
    var i := 0;
    assert d[..0] == [];
    while i < |vs|
      invariant 0 <= i <= |vs|
      invariant ProductAsWritten(d[..i]) == Ok(numConfigs)
    {
      assert d[..i + 1][..i] == d[..i];
      numConfigs := Wrap32(numConfigs * vs[i].numStates);
      if numConfigs <= 0 {
        ProductAsWrittenPrefix(d, i + 1);
        return Throw(IllegalState);
      }
      i := i + 1;
    }
    assert d[..i] == d;
    r := Ok(numConfigs);
  }

  /** Once a prefix raises, the whole product raises. */
  lemma {:induction false} ProductAsWrittenPrefix(d: seq<int>, k: nat)
    requires k <= |d| && ProductAsWritten(d[..k]).Throw?
    ensures ProductAsWritten(d).Throw?
    decreases |d| - k
  {
    if k < |d| {
      assert d[..k + 1][..k] == d[..k];
      ProductAsWrittenPrefix(d, k + 1);
    } else {
      assert d[..k] == d;
    }
  }

  /** While no product overflows, the checked product is the exact one. */
  lemma {:induction false} ProductAsWrittenExact(d: seq<int>)
    requires forall i :: 0 <= i < |d| ==> 0 < d[i] <= IntMax
    requires Product(d) <= IntMax
    ensures ProductAsWritten(d) == Ok(Product(d))
  {
    if d != [] {
      var n := |d| - 1;
      ProductPositive(d[..n]);
      MulAtLeast(Product(d[..n]), d[n]);
      ProductAsWrittenExact(d[..n]);
    }
  }

  /** A variable with no states always raises the exception. */
  lemma {:induction false} ProductAsWrittenZero(d: seq<int>, k: nat)
    requires k < |d| && d[k] == 0
    ensures ProductAsWritten(d).Throw?
  {
    var n := |d| - 1;
    if k < n {
      ProductAsWrittenZero(d[..n], k);
    }
  }

  /** The overflow check misses a wrap-around that lands on a positive
      number: two variables of 65537 states have 4295098369 configurations,
      but `calcNumConfigs` returns 131073 without raising. */
  lemma NumConfigsMissesOverflow(v: Var)
    requires v.numStates == 65537
    ensures Product(Dims([v, v])) > IntMax
    ensures NumConfigsAsWritten([v, v]) == Ok(131073)
  {
    assert Dims([v, v]) == [65537, 65537];
    assert [65537, 65537][..1] == [65537];
    assert [65537][..0] == [];
  }

  /** The product with the overflow check the exception message describes:
      raise when the true product is no longer in (0, IntMax]. */
  function ProductChecked(d: seq<int>): Result<int>
  {
    if d == [] then Ok(1)
    else
      match ProductChecked(d[..|d| - 1])
      case Throw(ex) => Throw(ex)
      case Ok(p) =>
        var q := p * d[|d| - 1];
        if q <= 0 || q > IntMax then Throw(IllegalState) else Ok(q)
  }

  /** The corrected `calcNumConfigs`. */
  function NumConfigsChecked(vs: seq<Var>): Result<int>
  {
    if vs == [] then Ok(0) else ProductChecked(Dims(vs))
  }

  /** The checked product is either the exact product or an exception, and
      it raises exactly when the product is zero or too large for an `int`. */
  lemma {:induction false} ProductCheckedCorrect(d: seq<int>)
    requires forall i :: 0 <= i < |d| ==> d[i] >= 0
    ensures ProductChecked(d).Ok? ==> ProductChecked(d).value == Product(d)
    ensures ProductChecked(d).Throw? <==> Product(d) <= 0 || Product(d) > IntMax
  {
    if d != [] {
      var n := |d| - 1;
      ProductCheckedCorrect(d[..n]);
      ProductNonNegative(d[..n]);
      var p := Product(d[..n]);
      assert Product(d) == p * d[n];
      if p > IntMax && d[n] > 0 {
        MulAtLeast(p, d[n]);
      }
    }
  }

  lemma {:induction false} ProductNonNegative(d: seq<int>)
    requires forall i :: 0 <= i < |d| ==> d[i] >= 0
    ensures Product(d) >= 0
  {
    if d != [] {
      ProductNonNegative(d[..|d| - 1]);
    }
  }

  /** The corrected count agrees with the source whenever nothing overflows. */
  lemma NumConfigsAgree(vs: seq<Var>)
    requires forall i :: 0 <= i < |vs| ==> 0 < vs[i].numStates <= IntMax
    requires Product(Dims(vs)) <= IntMax
    ensures NumConfigsAsWritten(vs) == NumConfigsChecked(vs)
    ensures vs != [] ==> NumConfigsChecked(vs) == Ok(Product(Dims(vs)))
  {
    if vs != [] {
      ProductAsWrittenExact(Dims(vs));
      ProductPositive(Dims(vs));
      ProductCheckedCorrect(Dims(vs));
    }
  }

  /* ---------------- Decoding a configuration index ---------------- */

  /** `getVarConfigAsArray` as written, over the state counts d: from the
      last variable to the first, the state is the Java remainder of the
      index by the state count and the index is divided by it; a variable
      with no states divides by zero (ArithmeticException). */
  function Decode(d: seq<int>, c: int): (r: Result<seq<int>>)
    ensures r.Ok? ==> |r.value| == |d|
    ensures r.Throw? ==> r.ex == Arithmetic
  {
    if d == [] then Ok([])
    else
      var n := |d| - 1;
      if d[n] == 0 then Throw(Arithmetic)
      else
        match Decode(d[..n], JavaDiv(c, d[n]))
        case Throw(ex) => Throw(ex)
        case Ok(s) => Ok(s + [JavaRem(c, d[n])])
  }

  /** Decoding fails exactly when some variable has no states. */
  lemma {:induction false} DecodeFails(d: seq<int>, c: int)
    ensures Decode(d, c).Throw? <==> exists k :: 0 <= k < |d| && d[k] == 0
  {
    if d != [] {
      var n := |d| - 1;
      if d[n] != 0 {
        DecodeFails(d[..n], JavaDiv(c, d[n]));
        if exists k :: 0 <= k < |d| && d[k] == 0 {
          var k :| 0 <= k < |d| && d[k] == 0;
          assert d[..n][k] == 0;
        }
      }
    }
  }

  /** A non-negative index decodes to in-range states. */
  lemma {:induction false} DecodeInRange(d: seq<int>, c: int)
    requires c >= 0 && forall i :: 0 <= i < |d| ==> d[i] > 0
    ensures Decode(d, c).Ok? && InRange(d, Decode(d, c).value)
  {
    if d != [] {
      var n := |d| - 1;
      JavaDivRemNonNegative(c, d[n]);
      DecodeInRange(d[..n], JavaDiv(c, d[n]));
    }
  }

  /** Round trip: every index below the product decodes to states that
      encode back to it. */
  lemma {:induction false} EncodeDecode(d: seq<int>, c: int)
    requires forall i :: 0 <= i < |d| ==> d[i] > 0
    requires 0 <= c < Product(d)
    ensures Decode(d, c).Ok? && Encode(d, Decode(d, c).value) == c
  {
    if d != [] {
      var n := |d| - 1;
      JavaDivRemNonNegative(c, d[n]);
      var q := c / d[n];
      assert Product(d) == Product(d[..n]) * d[n];
      QuotientBelow(c, d[n], Product(d[..n]));
      EncodeDecode(d[..n], q);
      var s := Decode(d, c).value;
      assert s[..n] == Decode(d[..n], q).value;
      assert s[n] == c % d[n];
    }
  }

  lemma QuotientBelow(c: int, b: int, p: int)
    requires b > 0 && 0 <= c < p * b
    ensures 0 <= c / b < p
  {
  }

  /** Round trip: in-range states encode to an index that decodes back to them. */
  lemma {:induction false} DecodeEncode(d: seq<int>, s: seq<int>)
    requires |d| == |s| && InRange(d, s)
    ensures Decode(d, Encode(d, s)) == Ok(s)
  {
    if d != [] {
      var n := |d| - 1;
      var e := Encode(d[..n], s[..n]);
      EncodeBounds(d[..n], s[..n]);
      var c := e * d[n] + s[n];
      assert Encode(d, s) == c;
      DivMod(e, d[n], s[n]);
      JavaDivRemNonNegative(c, d[n]);
      DecodeEncode(d[..n], s[..n]);
      assert s == s[..n] + [s[n]];
    }
  }

  lemma DivMod(e: int, b: int, r: int)
    requires e >= 0 && 0 <= r < b
    ensures (e * b + r) / b == e && (e * b + r) % b == r
  {
    var x := e * b + r;
    var q, m := x / b, x % b;
    assert x == q * b + m && 0 <= m < b;
    var k := e - q;
    assert k * b == m - r;
    if k >= 1 {
      MulAtLeast(k, b);
    } else if k <= -1 {
      MulAtLeast(-k, b);
    }
  }

  /** A decoding result with the states `tail` of later variables behind it. */
  function Extend(r: Result<seq<int>>, tail: seq<int>): Result<seq<int>>
  {
    match r
    case Throw(ex) => Throw(ex)
    case Ok(s) => Ok(s + tail)
  }

  lemma ExtendEmpty(r: Result<seq<int>>)
    ensures Extend(r, []) == r
  {
    if r.Ok? {
      assert r.value + [] == r.value;
    }
  }

  /** One step of decoding from the last variable: its state is the
      remainder, and the quotient is decoded over the variables before it. */
  lemma DecodeStep(d: seq<int>, k: nat, c: int, tail: seq<int>)
    requires k < |d| && d[k] != 0
    ensures Extend(Decode(d[..k + 1], c), tail)
      == Extend(Decode(d[..k], JavaDiv(c, d[k])), [JavaRem(c, d[k])] + tail)
  {
    assert d[..k + 1][..k] == d[..k];
    match Decode(d[..k], JavaDiv(c, d[k]))
    case Throw(ex) =>
    case Ok(s) =>
      assert s + [JavaRem(c, d[k])] + tail == s + ([JavaRem(c, d[k])] + tail);
  }

  /** A variable with no states makes the decoding fail. */
  lemma DecodeStepFails(d: seq<int>, k: nat, c: int, tail: seq<int>)
    requires k < |d| && d[k] == 0
    ensures Extend(Decode(d[..k + 1], c), tail) == Throw(Arithmetic)
  {
  }

  /** `getVarConfigAsArray(configIndex, putInto)`: the buffer's length must
      equal the number of variables (IllegalArgumentException); on success it
      holds the decoded states. */
  method GetVarConfigAsArrayInto(vs: seq<Var>, configIndex: int, putInto: array<int>) returns (o: Outcome)
    modifies putInto
    ensures putInto.Length != |vs| ==> o == Fail(IllegalArgument) && putInto[..] == old(putInto[..])
    ensures putInto.Length == |vs| ==> (o.Done? <==> Decode(Dims(vs), configIndex).Ok?)
    ensures o.Done? ==> putInto[..] == Decode(Dims(vs), configIndex).value
    ensures o.Fail? && putInto.Length == |vs| ==> o.ex == Arithmetic
  {
    if putInto.Length != |vs| {
      return Fail(IllegalArgument);
    }
    ghost var d := Dims(vs);
    var c := configIndex;
    var v := |vs| - 1;
    assert d[..v + 1] == d && putInto[v + 1..] == [];
    ExtendEmpty(Decode(d, configIndex));
    while v >= 0
      invariant -1 <= v < |vs|
      invariant Decode(d, configIndex) == Extend(Decode(d[..v + 1], c), putInto[v + 1..])
    {
      var ns := vs[v].numStates;
      if ns == 0 {
        DecodeStepFails(d, v, c, putInto[v + 1..]);
        return Fail(Arithmetic);
      }
      DecodeStep(d, v, c, putInto[v + 1..]);
      putInto[v] := JavaRem(c, ns);
      assert putInto[v..] == [putInto[v]] + putInto[v + 1..];
      c := JavaDiv(c, ns);
      v := v - 1;
    }
    assert putInto[0..] == putInto[..];
    o := Done;
  }

  /** `getVarConfigAsArray(configIndex)`: a new array of the decoded states. */
  method GetVarConfigAsArray(vs: seq<Var>, configIndex: int) returns (states: array<int>, o: Outcome)
    ensures fresh(states) && states.Length == |vs|
    ensures o.Done? <==> Decode(Dims(vs), configIndex).Ok?
    ensures o.Done? ==> states[..] == Decode(Dims(vs), configIndex).value
    ensures o.Fail? ==> o.ex == Arithmetic
  {
    states := new int[|vs|];
    o := GetVarConfigAsArrayInto(vs, configIndex, states);
  }

  /** `getVarConfig(configIndex)`: decode the index, then put each variable's
      state into a new assignment (the loop of `VarConfigs.FromStates`); a
      state out of range (from a negative index) raises
      IllegalArgumentException from `put`. */
  method GetVarConfig(vs: seq<Var>, configIndex: int) returns (r: Result<VarConfig>)
    requires Distinct(vs)
    ensures Decode(Dims(vs), configIndex).Throw? ==> r == Throw(Arithmetic)
    ensures Decode(Dims(vs), configIndex).Ok? ==>
      (r.Ok? <==> InRange(Dims(vs), Decode(Dims(vs), configIndex).value))
    ensures r.Throw? && Decode(Dims(vs), configIndex).Ok? ==> r.ex == IllegalArgument
    ensures r.Ok? ==> fresh(r.value) && r.value.Valid() && r.value.vars == vs
    ensures r.Ok? ==> (Decode(Dims(vs), configIndex).Ok?
      && r.value.config == Assign(vs, Decode(Dims(vs), configIndex).value))
  {
    var states, o := GetVarConfigAsArray(vs, configIndex);
    if o.Fail? {
      return Throw(o.ex);
    }
    assert InRange(Dims(vs), states[..]) <==>
      forall i :: 0 <= i < |vs| ==> 0 <= states[..][i] < vs[i].numStates;
    r := FromStates(vs, states[..]);
  }

  /** Round trip on assignments: for a duplicate-free set of variables whose
      configuration count fits in an `int`, the assignment decoded from any
      index in range has that index as its configuration index. */
  lemma GetVarConfigRoundTrip(vs: seq<Var>, c: int)
    requires Distinct(vs) && forall i :: 0 <= i < |vs| ==> vs[i].numStates > 0
    requires Product(Dims(vs)) <= IntMax && 0 <= c < Product(Dims(vs))
    ensures Decode(Dims(vs), c).Ok?
    ensures IndexOfSubset(Assign(vs, Decode(Dims(vs), c).value), vs) == Ok(c)
  {
    var d := Dims(vs);
    EncodeDecode(d, c);
    DecodeInRange(d, c);
    var s := Decode(d, c).value;
    var m := Assign(vs, s);
    AssignDistinct(vs, s);
    assert StatesOf(m, vs) == s;
    IndexOfSubsetExact(m, vs);
  }

  /* ---------------- Dimensions and type filters ---------------- */

  /** `getDims()`: a new array whose i-th entry is the i-th variable's
      state count. */
  method GetDims(vs: seq<Var>) returns (dims: array<int>)
    ensures fresh(dims) && dims[..] == Dims(vs)
  {
    dims := new int[|vs|];
    var i := 0;
    while i < |vs|
      invariant 0 <= i <= |vs|
      invariant forall k :: 0 <= k < i ==> dims[k] == vs[k].numStates
    {
      dims[i] := vs[i].numStates;
      i := i + 1;
    }
  }

  /** The variables of type t, in their original order. */
  function OfType(vs: seq<Var>, t: VarType): (r: seq<Var>)
    ensures |r| <= |vs|
  {
    if vs == [] then []
    else OfType(vs[..|vs| - 1], t) + (if vs[|vs| - 1].kind == t then [vs[|vs| - 1]] else [])
  }

  /** The filter keeps exactly the variables of the type. */
  lemma {:induction false} OfTypeMembers(vs: seq<Var>, t: VarType)
    ensures forall x :: x in OfType(vs, t) <==> x in vs && x.kind == t
  {
    if vs != [] {
      var n := |vs| - 1;
      OfTypeMembers(vs[..n], t);
      assert vs == vs[..n] + [vs[n]];
    }
  }

  lemma {:induction false} OfTypeNone(vs: seq<Var>, t: VarType)
    requires forall k :: 0 <= k < |vs| ==> vs[k].kind != t
    ensures OfType(vs, t) == []
  {
    if vs != [] {
      OfTypeNone(vs[..|vs| - 1], t);
    }
  }

  /** The filter of a duplicate-free list is duplicate-free. */
  lemma {:induction false} OfTypeDistinct(vs: seq<Var>, t: VarType)
    requires Distinct(vs)
    ensures Distinct(OfType(vs, t))
  {
    if vs != [] {
      var n := |vs| - 1;
      OfTypeDistinct(vs[..n], t);
      OfTypeMembers(vs[..n], t);
      assert vs[n] !in vs[..n];
    }
  }

  /** `getVarsOfType(List<Var>, type)`: collect the variables of the type. */
  method GetVarsOfType(vs: seq<Var>, t: VarType) returns (subset: seq<Var>)
    ensures subset == OfType(vs, t)
  {
    subset := [];
    var i := 0;
    while i < |vs|
      invariant 0 <= i <= |vs|
      invariant subset == OfType(vs[..i], t)
    {
      assert vs[..i + 1][..i] == vs[..i];
      if vs[i].kind == t {
        subset := subset + [vs[i]];
      }
      i := i + 1;
    }
    assert vs[..i] == vs;
  }

  /** `getVarsOfType(VarSet, type)`: the same loop adding to a new set; on a
      duplicate-free list the set's `add` never meets a duplicate. */
  method GetVarSetOfType(vs: seq<Var>, t: VarType) returns (subset: seq<Var>)
    requires Distinct(vs)
    ensures subset == OfType(vs, t)
  {
    subset := [];
    var i := 0;
    while i < |vs|
      invariant 0 <= i <= |vs|
      invariant subset == OfType(vs[..i], t)
    {
      assert vs[..i + 1][..i] == vs[..i];
      if vs[i].kind == t {
        OfTypeMembers(vs[..i], t);
        assert vs[i] !in vs[..i];
        subset := Add(subset, vs[i]);
      }
      i := i + 1;
    }
    assert vs[..i] == vs;
  }

  /** `hasVarsOfType(type)`: stop at the first variable of the type. */
  method HasVarsOfType(vs: seq<Var>, t: VarType) returns (b: bool)
    ensures b <==> exists i :: 0 <= i < |vs| && vs[i].kind == t
    ensures b <==> OfType(vs, t) != []
  {
    OfTypeMembers(vs, t);
    var i := 0;
    while i < |vs|
      invariant 0 <= i <= |vs|
      invariant forall k :: 0 <= k < i ==> vs[k].kind != t
    {
      if vs[i].kind == t {
        assert vs[i] in OfType(vs, t);
        return true;
      }
      i := i + 1;
    }
    OfTypeNone(vs, t);
    b := false;
  }
}
