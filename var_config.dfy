/** An assignment of states to variables (`VarConfig`) and its
    configuration index: a mixed-radix number whose digits are the states
    and whose radices are the state counts, the last variable being the
    least significant digit. */
module VarConfigs {
  import opened Wrappers
  import opened JavaLang
  import opened Vars

  /* ---------------- The index of an assignment ---------------- */

  /** The mathematical configuration index of states s over radices d:
      sum of s[i] * (product of d[j] for j > i). */
  function Encode(d: seq<int>, s: seq<int>): int
    requires |d| == |s|
  {
    if d == [] then 0 else Encode(d[..|d| - 1], s[..|s| - 1]) * d[|d| - 1] + s[|s| - 1]
  }

  /** Each state lies in its variable's range. */
  predicate InRange(d: seq<int>, s: seq<int>)
    requires |d| == |s|
  {
    forall i :: 0 <= i < |d| ==> 0 <= s[i] < d[i]
  }

  /** An in-range assignment encodes to an index in [0, product). */
  lemma {:induction false} EncodeBounds(d: seq<int>, s: seq<int>)
    requires |d| == |s| && InRange(d, s)
    ensures 0 <= Encode(d, s) < Product(d)
  {
    if d != [] {
      var n := |d| - 1;
      EncodeBounds(d[..n], s[..n]);
      var e, p := Encode(d[..n], s[..n]), Product(d[..n]);
      assert e <= p - 1;
      assert e * d[n] <= (p - 1) * d[n];
      assert Encode(d, s) == e * d[n] + s[n];
    }
  }

  /** The states of vars under config, in order (only meaningful when every
      variable is assigned). */
  function StatesOf(config: map<Var, int>, vars: seq<Var>): (s: seq<int>)
    requires forall i :: 0 <= i < |vars| ==> vars[i] in config
    ensures |s| == |vars| && forall i :: 0 <= i < |vars| ==> s[i] == config[vars[i]]
  {
    if vars == [] then [] else StatesOf(config, vars[..|vars| - 1]) + [config[vars[|vars| - 1]]]
  }

  /** `getConfigIndexOfSubset` as written, continuing from index ci and
      radix product prod after the variables past the prefix vars: walking
      from the last variable to the first, an unassigned variable unboxes
      `null` (NullPointerException), the index and the product grow with
      32-bit wrap-around, and a product that is no longer positive raises
      IllegalStateException. */
  function IndexFrom(config: map<Var, int>, vars: seq<Var>, ci: int, prod: int): Result<int>
  {
    if vars == [] then Ok(ci)
    else
      var v := vars[|vars| - 1];
      if v !in config then Throw(NullPointer)
      else
        var ci' := Wrap32(ci + Wrap32(config[v] * prod));
        var prod' := Wrap32(prod * v.numStates);
        if prod' <= 0 then Throw(IllegalState)
        else IndexFrom(config, vars[..|vars| - 1], ci', prod')
  }

  /** The index of the assignment config restricted to vars. */
  function IndexOfSubset(config: map<Var, int>, vars: seq<Var>): Result<int>
  {
    IndexFrom(config, vars, 0, 1)
  }

  /** The loop step proved once: continuing from a partial index ci below the
      running product prod adds prod times the prefix's own index. */
  lemma {:induction false} IndexFromExact(config: map<Var, int>, vars: seq<Var>, ci: int, prod: int)
    requires forall i :: 0 <= i < |vars| ==> vars[i] in config
    requires InRange(Dims(vars), StatesOf(config, vars))
    requires 0 <= ci < prod && prod * Product(Dims(vars)) <= IntMax
    ensures IndexFrom(config, vars, ci, prod)
         == Ok(ci + prod * Encode(Dims(vars), StatesOf(config, vars)))
  {
    if vars != [] {
      var n := |vars| - 1;
      var pre := vars[..n];
      var d, s := Dims(vars), StatesOf(config, vars);
      assert Dims(pre) == d[..n] && StatesOf(config, pre) == s[..n];
      var v := vars[n];
      assert s[n] == config[v] && d[n] == v.numStates;
      assert 0 <= s[n] < d[n];
      var p := Product(d[..n]);
      assert Product(d) == p * d[n];
      ProductPositive(d[..n]);
      var ci', prod' := ci + s[n] * prod, prod * d[n];
      StepFits(ci, prod, s[n], d[n], p);
      assert Wrap32(config[v] * prod) == s[n] * prod;
      assert Wrap32(ci + Wrap32(config[v] * prod)) == ci';
      assert Wrap32(prod * v.numStates) == prod';
      IndexFromExact(config, pre, ci', prod');
      var e := Encode(d[..n], s[..n]);
      assert Encode(d, s) == e * d[n] + s[n];
      StepValue(ci, prod, s[n], d[n], e);
    } else {
      assert Encode(Dims(vars), StatesOf(config, vars)) == 0;
    }
  }

  /** The arithmetic of one loop step: no wrap-around happens. */
  lemma StepFits(ci: int, prod: int, sn: int, dn: int, p: int)
    requires 0 <= ci < prod && 0 <= sn < dn && p >= 1 && prod * (p * dn) <= IntMax
    ensures 0 <= ci + sn * prod < prod * dn
    ensures 1 <= prod * dn <= IntMax && (prod * dn) * p == prod * (p * dn)
  {
    assert sn * prod <= (dn - 1) * prod;
    assert prod * dn <= prod * dn * p;
  }

  lemma StepValue(ci: int, prod: int, sn: int, dn: int, e: int)
    ensures ci + sn * prod + (prod * dn) * e == ci + prod * (e * dn + sn)
  {
  }

  /** When every variable is assigned an in-range state and the product of
      the state counts fits in an `int`, the loop computes the exact
      mixed-radix index. */
  lemma IndexOfSubsetExact(config: map<Var, int>, vars: seq<Var>)
    requires forall i :: 0 <= i < |vars| ==> vars[i] in config
    requires InRange(Dims(vars), StatesOf(config, vars))
    requires Product(Dims(vars)) <= IntMax
    ensures IndexOfSubset(config, vars) == Ok(Encode(Dims(vars), StatesOf(config, vars)))
  {
    IndexFromExact(config, vars, 0, 1);
  }

  /** An unassigned variable makes the index computation fail. */
  lemma {:induction false} IndexFromMissing(config: map<Var, int>, vars: seq<Var>, ci: int, prod: int, k: nat)
    requires k < |vars| && vars[k] !in config
    ensures IndexFrom(config, vars, ci, prod).Throw?
  {
    if k < |vars| - 1 {
      var v := vars[|vars| - 1];
      if v in config {
        var ci' := Wrap32(ci + Wrap32(config[v] * prod));
        var prod' := Wrap32(prod * v.numStates);
        if prod' > 0 {
          IndexFromMissing(config, vars[..|vars| - 1], ci', prod', k);
        }
      }
    }
  }

  /* ---------------- Set helpers for the variable list ---------------- */

  /** `SmallSet.add`: append the variable unless it is already there. */
  function Add(vs: seq<Var>, v: Var): (r: seq<Var>)
    ensures Distinct(vs) ==> Distinct(r)
    ensures forall x :: x in r <==> x in vs || x == v
  {
    if v in vs then vs else vs + [v]
  }

  /** `SmallSet.addAll`: add each variable of ws in turn. */
  function AddAll(vs: seq<Var>, ws: seq<Var>): (r: seq<Var>)
    ensures Distinct(vs) ==> Distinct(r)
    ensures forall x :: x in r <==> x in vs || x in ws
    decreases |ws|
  {
    if ws == [] then vs else AddAll(Add(vs, ws[0]), ws[1..])
  }

  /** The first occurrence of each of the first n variables of ws, in
      order: what adding them one at a time to an empty set gives. */
  function Dedup(ws: seq<Var>, n: nat): seq<Var>
    requires n <= |ws|
  {
    if n == 0 then [] else Add(Dedup(ws, n - 1), ws[n - 1])
  }

  /** Only the first n variables matter. */
  lemma {:induction false} DedupPrefix(ws: seq<Var>, xs: seq<Var>, n: nat)
    requires n <= |ws| && n <= |xs| && ws[..n] == xs[..n]
    ensures Dedup(ws, n) == Dedup(xs, n)
  {
    if n > 0 {
      assert ws[n - 1] == ws[..n][n - 1] && xs[n - 1] == xs[..n][n - 1];
      assert ws[..n - 1] == ws[..n][..n - 1] && xs[..n - 1] == xs[..n][..n - 1];
      DedupPrefix(ws, xs, n - 1);
    }
  }

  /** One more variable at the end is added last. */
  lemma DedupSnoc(a: seq<Var>, v: Var)
    ensures Dedup(a + [v], |a| + 1) == Add(Dedup(a, |a|), v)
  {
    assert (a + [v])[..|a|] == a[..|a|];
    DedupPrefix(a + [v], a, |a|);
  }

  /** Without repeated variables, nothing is dropped. */
  lemma {:induction false} DedupDistinct(ws: seq<Var>, n: nat)
    requires n <= |ws| && Distinct(ws)
    ensures Dedup(ws, n) == ws[..n]
  {
    if n > 0 {
      assert ws[n - 1] !in ws[..n - 1];
      DedupDistinct(ws, n - 1);
      assert ws[..n] == ws[..n - 1] + [ws[n - 1]];
    }
  }

  /** The variables of ws that m assigns, in ws' order. */
  function AssignedIn(ws: seq<Var>, m: map<Var, int>): (r: seq<Var>)
    ensures forall x :: x in r <==> x in ws && x in m
  {
    if ws == [] then []
    else
      var n := |ws| - 1;
      assert ws == ws[..n] + [ws[n]];
      AssignedIn(ws[..n], m) + (if ws[n] in m then [ws[n]] else [])
  }

  /** The part of m on the variables of ws. */
  function Restrict(m: map<Var, int>, ws: seq<Var>): (r: map<Var, int>)
    ensures forall x :: x in r <==> x in m && x in ws
    ensures forall x :: x in r ==> r[x] == m[x]
  {
    map x | x in m && x in ws :: m[x]
  }

  /** Restricting to one more variable adds its entry, if m has one. */
  lemma RestrictSnoc(m: map<Var, int>, ws: seq<Var>, v: Var)
    ensures Restrict(m, ws + [v]) == if v in m then Restrict(m, ws)[v := m[v]] else Restrict(m, ws)
  {
  }

  /** Keeping the assigned variables of a duplicate-free list keeps it
      duplicate-free. */
  lemma {:induction false} AssignedInDistinct(ws: seq<Var>, m: map<Var, int>)
    requires Distinct(ws)
    ensures Distinct(AssignedIn(ws, m))
  {
    if ws != [] {
      var n := |ws| - 1;
      assert forall i :: 0 <= i < n ==> ws[..n][i] == ws[i];
      assert ws[n] !in ws[..n];
      AssignedInDistinct(ws[..n], m);
    }
  }

  /** When m assigns every variable of ws, keeping the assigned ones keeps
      them all. */
  lemma {:induction false} AssignedInAll(ws: seq<Var>, m: map<Var, int>)
    requires forall x :: x in ws ==> x in m
    ensures AssignedIn(ws, m) == ws
  {
    if ws != [] {
      var n := |ws| - 1;
      assert ws == ws[..n] + [ws[n]];
      AssignedInAll(ws[..n], m);
    }
  }

  /** A duplicate-free list has as many elements as its set of elements. */
  lemma {:induction false} DistinctCard(vs: seq<Var>, keys: set<Var>)
    requires Distinct(vs)
    requires forall x :: x in keys <==> x in vs
    ensures |keys| == |vs|
  {
    if vs != [] {
      var n := |vs| - 1;
      var rest := keys - {vs[n]};
      assert forall x :: x in rest <==> x in vs[..n] by {
        forall x ensures x in rest <==> x in vs[..n] {
          if x in vs[..n] {
            var i :| 0 <= i < n && vs[..n][i] == x;
            assert vs[i] != vs[n];
          }
          assert x in vs ==> x in vs[..n] || x == vs[n] by {
            if x in vs {
              var i :| 0 <= i < |vs| && vs[i] == x;
              if i < n { assert vs[..n][i] == x; }
            }
          }
        }
      }
      DistinctCard(vs[..n], rest);
    }
  }

  /* ---------------- The mutable assignment ---------------- */

  class VarConfig {
    /** State of each assigned variable (`HashMap<Var,Integer> config`). */
    var config: map<Var, int>
    /** The assigned variables, in the order they were first put. */
    var vars: seq<Var>

    /** Every `put` keeps the map and the variable list in step, and only
        in-range states are ever stored. */
    ghost predicate Valid()
      reads this
    {
      Distinct(vars)
      && (forall v :: v in config <==> v in vars)
      && (forall v :: v in config ==> 0 <= config[v] < v.numStates)
    }

    /** `new VarConfig()`: the empty assignment. */
    constructor ()
      ensures Valid() && config == map[] && vars == []
    {
      config := map[];
      vars := [];
    }

    /** `put(var, state)`: reject a state outside [0, numStates); otherwise
        assign it, adding the variable if it is new. */
    method Put(v: Var, state: int) returns (o: Outcome)
      requires Valid()
      modifies this
      ensures Valid()
      ensures o.Fail? <==> state < 0 || state >= v.numStates
      ensures o.Fail? ==> o.ex == IllegalArgument && config == old(config) && vars == old(vars)
      ensures o.Done? ==> config == old(config)[v := state] && vars == Add(old(vars), v)
      ensures o.Done? ==> v in config && config[v] == state
    {
      if state < 0 || state >= v.numStates {
        return Fail(IllegalArgument);
      }
      config := config[v := state];
      vars := Add(vars, v);
      o := Done;
    }

    /** `put(var, stateName)`: an unknown name is rejected; otherwise the
        state with that name is assigned. */
    method PutName(v: Var, name: string) returns (o: Outcome)
      requires Valid()
      modifies this
      ensures Valid()
      ensures StateOfName(v, name) == -1 ==> o == Fail(IllegalArgument) && config == old(config) && vars == old(vars)
      ensures StateOfName(v, name) != -1 && StateOfName(v, name) >= v.numStates ==>
                o == Fail(IllegalArgument) && config == old(config) && vars == old(vars)
      ensures o.Done? <==> 0 <= StateOfName(v, name) < v.numStates
      ensures o.Done? ==> config == old(config)[v := StateOfName(v, name)] && vars == Add(old(vars), v)
    {
      var state := StateOfName(v, name);
      if state == -1 {
        return Fail(IllegalArgument);
      }
      o := Put(v, state);
    }

    /** `put(other)`: every variable of other takes other's state; the
        remaining assignments are unchanged. */
    method PutAll(other: VarConfig)
      requires Valid() && other.Valid()
      modifies this
      ensures Valid()
      ensures config == old(config) + old(other.config)
      ensures vars == AddAll(old(vars), old(other.vars))
      ensures forall v :: v in old(other.config) ==> config[v] == old(other.config)[v]
      ensures forall v :: v in old(config) && v !in old(other.config) ==> config[v] == old(config)[v]
    {
      config := config + other.config;
      vars := AddAll(vars, other.vars);
    }

    /** `contains(var)`. */
    predicate Contains(v: Var)
      reads this
    {
      v in config
    }

    /** `getState(var)`: the assigned state, or a RuntimeException when the
        variable is unassigned; an assigned state is always in range. */
    function GetState(v: Var): (r: Result<int>)
      reads this
      ensures Valid() ==> (r.Ok? <==> v in vars)
      ensures r.Throw? ==> r.ex == Runtime
      ensures Valid() && r.Ok? ==> 0 <= r.value < v.numStates
    {
      if v in config then Ok(config[v]) else Throw(Runtime)
    }

    /** `getState(var, defaultState)`: the assigned state, or the default. */
    function GetStateOr(v: Var, defaultState: int): (r: int)
      reads this
      ensures r == (if GetState(v).Ok? then GetState(v).value else defaultState)
    {
      if v in config then config[v] else defaultState
    }

    /** `size()`: the number of assigned variables. */
    method Size() returns (r: nat)
      requires Valid()
      ensures r == |config.Keys|
    {
      DistinctCard(vars, config.Keys);
      r := |vars|;
    }

    /** `getConfigIndexOfSubset(vars)`: the loop of the source, proved to
        compute the index function above. */
    method GetConfigIndexOfSubset(vs: seq<Var>) returns (r: Result<int>)
      ensures r == IndexOfSubset(config, vs)
    {
      var configIndex := 0;
      var numStatesProd := 1;
      var v := |vs| - 1;
      assert vs[..v + 1] == vs;
      while v >= 0
        invariant -1 <= v < |vs|
        invariant IndexOfSubset(config, vs) == IndexFrom(config, vs[..v + 1], configIndex, numStatesProd)
      {
        assert vs[..v + 1][..v] == vs[..v];
        var x := vs[v];
        if x !in config {
          return Throw(NullPointer);
        }
        var state := config[x];
        configIndex := Wrap32(configIndex + Wrap32(state * numStatesProd));
        numStatesProd := Wrap32(numStatesProd * x.numStates);
        if numStatesProd <= 0 {
          return Throw(IllegalState);
        }
        v := v - 1;
      }
      assert vs[..0] == [];
      r := Ok(configIndex);
    }

    /** `getConfigIndex()`: the index over this assignment's own variables. */
    method GetConfigIndex() returns (r: Result<int>)
      ensures r == IndexOfSubset(config, vars)
    {
      r := GetConfigIndexOfSubset(vars);
    }

    /** `getIntersection(otherVars)`: a new assignment holding exactly the
        variables of otherVars that this one assigns, with the same states,
        in otherVars' order (the first occurrence of each). */
    method GetIntersection(otherVars: seq<Var>) returns (sub: VarConfig)
      requires Valid()
      ensures fresh(sub) && sub.Valid()
      ensures forall v :: v in sub.config <==> v in otherVars && v in config
      ensures forall v :: v in sub.config ==> sub.config[v] == config[v]
      ensures sub.vars == Dedup(AssignedIn(otherVars, config), |AssignedIn(otherVars, config)|)
      ensures Distinct(otherVars) ==> sub.vars == AssignedIn(otherVars, config)
    {
      sub := new VarConfig();
      var i := 0;
      assert otherVars[..0] == [];
      while i < |otherVars|
        invariant 0 <= i <= |otherVars|
        invariant fresh(sub) && Intersected(sub, otherVars, i)
      {
        IntersectNext(sub, otherVars, i);
        i := i + 1;
      }
      assert otherVars[..i] == otherVars;
      if Distinct(otherVars) {
        AssignedInDistinct(otherVars, config);
        DedupDistinct(AssignedIn(otherVars, config), |AssignedIn(otherVars, config)|);
        assert AssignedIn(otherVars, config)[..|AssignedIn(otherVars, config)|] == AssignedIn(otherVars, config);
      }
    }

    /** sub holds this assignment restricted to the first n variables of
        otherVars, in their order. */
    ghost predicate Intersected(sub: VarConfig, otherVars: seq<Var>, n: nat)
      reads this, sub
    {
      n <= |otherVars| && sub.Valid()
      && sub.config == Restrict(config, otherVars[..n])
      && sub.vars == Dedup(AssignedIn(otherVars[..n], config), |AssignedIn(otherVars[..n], config)|)
    }

    /** One turn of `getIntersection`'s loop. */
    method IntersectNext(sub: VarConfig, otherVars: seq<Var>, n: nat)
      requires Valid() && sub != this && n < |otherVars| && Intersected(sub, otherVars, n)
      modifies sub
      ensures Intersected(sub, otherVars, n + 1)
    {
      var v := otherVars[n];
      var prev, next := otherVars[..n], otherVars[..n + 1];
      assert next == prev + [v] && next[..n] == prev;
      if v in config {
        assert AssignedIn(next, config) == AssignedIn(prev, config) + [v];
        DedupSnoc(AssignedIn(prev, config), v);
        RestrictSnoc(config, prev, v);
        var o := sub.Put(v, config[v]);
        assert o.Done?;
      } else {
        assert AssignedIn(next, config) == AssignedIn(prev, config);
        RestrictSnoc(config, prev, v);
      }
    }

    /** `getSubset(subsetVars)`: like the intersection, but every given
        variable must be assigned, otherwise IllegalStateException. */
    method GetSubset(subsetVars: seq<Var>) returns (r: Result<VarConfig>)
      requires Valid()
      ensures r.Throw? <==> exists v :: v in subsetVars && v !in vars
      ensures r.Throw? ==> r.ex == IllegalState
      ensures r.Ok? ==> fresh(r.value) && r.value.Valid()
      ensures r.Ok? ==> (forall v :: v in r.value.config <==> v in subsetVars)
      ensures r.Ok? ==> (forall v :: v in r.value.config ==> r.value.config[v] == config[v])
      ensures r.Ok? ==> r.value.vars == Dedup(subsetVars, |subsetVars|)
      ensures r.Ok? && Distinct(subsetVars) ==> r.value.vars == subsetVars
    {
      if exists v :: v in subsetVars && v !in vars {
        return Throw(IllegalState);
      }
      var sub := GetIntersection(subsetVars);
      AssignedInAll(subsetVars, config);
      r := Ok(sub);
    }
  }

  /** No later entry of vs is the variable at i. */
  predicate LastOccurrence(vs: seq<Var>, i: int)
    requires 0 <= i < |vs|
  {
    forall j :: i < j < |vs| ==> vs[j] != vs[i]
  }

  /** The assignment that gives the i-th variable the i-th state; a
      variable listed twice keeps the state of its last occurrence
      (`AssignLast`). */
  function Assign(vs: seq<Var>, s: seq<int>): (m: map<Var, int>)
    requires |vs| == |s|
    ensures forall v :: v in m <==> v in vs
  {
    assert vs[..|vs|] == vs;
    AssignUpTo(vs, s, |vs|)
  }

  /** The assignment of the first n variables. */
  function AssignUpTo(vs: seq<Var>, s: seq<int>, n: nat): (m: map<Var, int>)
    requires |vs| == |s| && n <= |vs|
    ensures forall v :: v in m <==> v in vs[..n]
  {
    if n == 0 then map[]
    else
      assert vs[..n] == vs[..n - 1] + [vs[n - 1]];
      AssignUpTo(vs, s, n - 1)[vs[n - 1] := s[n - 1]]
  }

  /** Each variable takes the state of its last occurrence. */
  lemma AssignLast(vs: seq<Var>, s: seq<int>, i: int)
    requires |vs| == |s| && 0 <= i < |vs| && LastOccurrence(vs, i)
    ensures Assign(vs, s)[vs[i]] == s[i]
  {
    AssignUpToLast(vs, s, |vs|, i);
  }

  /** Among the first n variables, the one at i, when no later one of
      them repeats it, takes the i-th state. */
  lemma {:induction false} AssignUpToLast(vs: seq<Var>, s: seq<int>, n: nat, i: int)
    requires |vs| == |s| && 0 <= i < n <= |vs|
    requires forall j :: i < j < n ==> vs[j] != vs[i]
    ensures vs[i] in AssignUpTo(vs, s, n) && AssignUpTo(vs, s, n)[vs[i]] == s[i]
  {
    if i < n - 1 {
      AssignUpToLast(vs, s, n - 1, i);
    }
  }

  /** Without repeated variables, the i-th variable takes the i-th state. */
  lemma AssignDistinct(vs: seq<Var>, s: seq<int>)
    requires |vs| == |s| && Distinct(vs)
    ensures forall i :: 0 <= i < |vs| ==> Assign(vs, s)[vs[i]] == s[i]
  {
    forall i | 0 <= i < |vs| ensures Assign(vs, s)[vs[i]] == s[i] {
      AssignLast(vs, s, i);
    }
  }

  /** Each of the first n states is in range for its variable. */
  predicate StatesFit(vs: seq<Var>, s: seq<int>, n: nat)
    requires |vs| == |s| && n <= |vs|
  {
    forall k :: 0 <= k < n ==> 0 <= s[k] < vs[k].numStates
  }

  lemma StatesFitSnoc(vs: seq<Var>, s: seq<int>, n: nat)
    requires |vs| == |s| && n < |vs|
    requires StatesFit(vs, s, n) && 0 <= s[n] < vs[n].numStates
    ensures StatesFit(vs, s, n + 1)
  {
  }

  /** `new VarConfig(vars, assignments)`: put each variable's state in turn
      into a new assignment; the first state out of range raises
      IllegalArgumentException. */
  method FromStates(vs: seq<Var>, s: seq<int>) returns (r: Result<VarConfig>)
    requires |vs| == |s|
    ensures r.Ok? <==> forall i :: 0 <= i < |vs| ==> 0 <= s[i] < vs[i].numStates
    ensures r.Throw? ==> r.ex == IllegalArgument
    ensures r.Ok? ==> fresh(r.value) && r.value.Valid() && r.value.vars == Dedup(vs, |vs|)
    ensures r.Ok? && Distinct(vs) ==> r.value.vars == vs
    ensures r.Ok? ==> r.value.config == Assign(vs, s)
  {
    var config := new VarConfig();
    var put := PutStates(config, vs, s);
    if put.Fail? {
      return Throw(put.ex);
    }
    PutFirstAll(config, vs, s);
    r := Ok(config);
  }

  /** The constructor's loop: put each state in turn into config, which
      starts empty, and stop at the first one out of range. */
  method PutStates(config: VarConfig, vs: seq<Var>, s: seq<int>) returns (o: Outcome)
    requires |vs| == |s| && config.Valid() && config.vars == [] && config.config == map[]
    modifies config
    ensures o.Fail? <==> !StatesFit(vs, s, |vs|)
    ensures o.Fail? ==> o.ex == IllegalArgument
    ensures o.Done? ==> PutFirst(config, vs, s, |vs|)
  {
    var i := 0;
    while i < |vs|
      invariant 0 <= i <= |vs|
      invariant PutFirst(config, vs, s, i)
    {
      o := PutNext(config, vs, s, i);
      if o.Fail? {
        return;
      }
      i := i + 1;
    }
    o := Done;
  }

  /** Once every state is put, the assignment is `Assign(vs, s)` over the
      variables in first-occurrence order. */
  lemma PutFirstAll(config: VarConfig, vs: seq<Var>, s: seq<int>)
    requires PutFirst(config, vs, s, |vs|)
    ensures config.Valid() && config.vars == Dedup(vs, |vs|) && config.config == Assign(vs, s)
    ensures forall i :: 0 <= i < |vs| ==> 0 <= s[i] < vs[i].numStates
    ensures Distinct(vs) ==> config.vars == vs
  {
    if Distinct(vs) {
      DedupDistinct(vs, |vs|);
      assert vs[..|vs|] == vs;
    }
  }

  /** The first n states of s are put on the first n variables of vs. */
  ghost predicate PutFirst(config: VarConfig, vs: seq<Var>, s: seq<int>, n: nat)
    reads config
  {
    |vs| == |s| && n <= |vs| && config.Valid()
    && config.vars == Dedup(vs, n) && config.config == AssignUpTo(vs, s, n) && StatesFit(vs, s, n)
  }

  /** One turn of the constructor's loop: put the n-th state. */
  method PutNext(config: VarConfig, vs: seq<Var>, s: seq<int>, n: nat) returns (o: Outcome)
    requires n < |vs| && PutFirst(config, vs, s, n)
    modifies config
    ensures o.Fail? <==> !(0 <= s[n] < vs[n].numStates)
    ensures o.Fail? ==> o.ex == IllegalArgument
    ensures o.Fail? ==> !StatesFit(vs, s, |vs|)
    ensures o.Done? ==> PutFirst(config, vs, s, n + 1)
  {
    o := config.Put(vs[n], s[n]);
    if o.Done? {
      StatesFitSnoc(vs, s, n);
    }
  }
}
