/** Discrete random variables as the model sees them.  `Var` is immutable
    once built, so it is a value here: its identity is its contents. */
module Vars {
  import opened JavaLang

  datatype VarType = Observed | Latent | Predicted

  /** The subclass of a variable.  Link variables of a dependency tree
      (`LinkVar`) and role variables of a semantic-role graph (`RoleVar`)
      carry the arc they stand for; a parent of -1 is the wall (root). */
  datatype VarClass = PlainVar | LinkVar(parent: int, child: int) | RoleVar(parent: int, child: int)

  /** A variable: its type, number of states (a Java `int`), name, state
      names and subclass. */
  datatype Var = Var(kind: VarType, numStates: int, name: string,
                     stateNames: seq<string>, cls: VarClass)

  /** The states of a link variable. */
  const LinkFalse: int := 0
  const LinkTrue: int := 1

  /** Well-formed variables have a state count a Java `int` can hold. */
  predicate ValidVar(v: Var) { 0 <= v.numStates <= IntMax }

  predicate ValidVars(vs: seq<Var>) { forall i :: 0 <= i < |vs| ==> ValidVar(vs[i]) }

  /** No variable occurs twice. */
  predicate Distinct<T(==)>(s: seq<T>)
  {
    forall i, j :: 0 <= i < j < |s| ==> s[i] != s[j]
  }

  /** A prefix one longer is the prefix and the next element. */
  lemma PrefixSnoc<T>(s: seq<T>, k: nat)
    requires k < |s|
    ensures s[..k + 1] == s[..k] + [s[k]]
  {
  }

  /** `Var.getState(name)`: the index of the state called name, or -1. */
  function StateOfName(v: Var, name: string): (r: int)
    ensures -1 <= r < |v.stateNames|
    ensures r >= 0 ==> v.stateNames[r] == name && name !in v.stateNames[..r]
    ensures r == -1 <==> name !in v.stateNames
  {
    IndexIn(v.stateNames, name)
  }

  function IndexIn<T(==)>(s: seq<T>, x: T): (r: int)
    ensures -1 <= r < |s|
    ensures r >= 0 ==> s[r] == x && x !in s[..r]
    ensures r == -1 <==> x !in s
  {
    if |s| == 0 then -1
    else if s[0] == x then 0
    else
      var k := IndexIn(s[1..], x);
      if k == -1 then assert s == [s[0]] + s[1..]; -1
      else assert s[..k + 1] == [s[0]] + s[1..][..k]; k + 1
  }

  /** The state counts of the variables, in order. */
  function Dims(vs: seq<Var>): (d: seq<int>)
    ensures |d| == |vs|
    ensures forall i :: 0 <= i < |vs| ==> d[i] == vs[i].numStates
  {
    if vs == [] then [] else Dims(vs[..|vs| - 1]) + [vs[|vs| - 1].numStates]
  }

  /** The exact (unbounded) product of a sequence of state counts. */
  function Product(d: seq<int>): int
  {
    if d == [] then 1 else Product(d[..|d| - 1]) * d[|d| - 1]
  }

  lemma {:induction false} ProductPositive(d: seq<int>)
    requires forall i :: 0 <= i < |d| ==> d[i] > 0
    ensures Product(d) >= 1
  {
    if d != [] {
      ProductPositive(d[..|d| - 1]);
      MulAtLeast(Product(d[..|d| - 1]), d[|d| - 1]);
    }
  }

  lemma MulAtLeast(a: int, b: int)
    requires a >= 1 && b >= 1
    ensures a * b >= a && a * b >= b
  {
  }

  /** A variable with no states makes the product zero. */
  lemma {:induction false} ProductZero(d: seq<int>, k: nat)
    requires k < |d| && d[k] == 0
    ensures Product(d) == 0
  {
    if k < |d| - 1 {
      ProductZero(d[..|d| - 1], k);
    }
  }
}
