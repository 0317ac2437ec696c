/** A factor that clamps one variable to one state: its table is the
    semiring one at that state and the semiring zero everywhere else. */
module ClampFactors {
  import opened Wrappers
  import opened JavaLang
  import opened Vars

  /** The two semirings the factor is built in. */
  datatype Semiring = LogSemiring | RealSemiring

  /** The semiring of `updateFromModel`: log iff logDomain. */
  function SemiringOf(logDomain: bool): (s: Semiring)
    ensures s.LogSemiring? <==> logDomain
  {
    if logDomain then LogSemiring else RealSemiring
  }

  /** The semiring zero: log(0) = -infinity, or 0. */
  function Zero(s: Semiring): Double
  {
    match s
    case LogSemiring => NegInf
    case RealSemiring => Finite(0.0)
  }

  /** The semiring one: log(1) = 0, or 1. */
  function One(s: Semiring): Double
  {
    match s
    case LogSemiring => Finite(0.0)
    case RealSemiring => Finite(1.0)
  }

  /** In both semirings one and zero differ, and neither is NaN. */
  lemma OneIsNotZero(s: Semiring)
    ensures One(s) != Zero(s) && One(s) != NaN && Zero(s) != NaN
  {
  }

  /** The table after `updateFromModel` in semiring s, for n states. */
  function ClampTable(n: nat, state: int, s: Semiring): (t: seq<Double>)
    ensures |t| == n
    ensures forall i :: 0 <= i < n ==> t[i] == (if i == state then One(s) else Zero(s))
  {
    seq(n, i => if i == state then One(s) else Zero(s))
  }

  /** A clamped table has one entry at the semiring one, the clamped state,
      when that state is in range, and none otherwise. */
  lemma ClampTableOneAt(n: nat, state: int, s: Semiring, i: int)
    requires 0 <= i < n
    ensures ClampTable(n, state, s)[i] == One(s) <==> i == state
    ensures ClampTable(n, state, s)[i] != NaN
  {
    OneIsNotZero(s);
  }

  class ClampFactor {
    /** The factor's variables: the single variable v. */
    const vars: seq<Var>
    /** The clamped state. */
    const state: int
    /** The explicit table, one entry per state of v. */
    const values: array<Double>

    /** The constructor: a table over v with every entry NaN. */
    constructor(v: Var, state: int)
      requires 0 <= v.numStates
      ensures vars == [v] && this.state == state
      ensures fresh(values) && values.Length == v.numStates
      ensures forall i :: 0 <= i < values.Length ==> values[i] == NaN
    {
      vars := [v];
      this.state := state;
      values := new Double[v.numStates](_ => NaN);
    }

    /** `updateFromModel(model, logDomain)`: every entry set to the semiring
        zero, then the clamped state's entry to the semiring one, which
        raises ArrayIndexOutOfBoundsException, after the fill, when the
        state is out of range. The model is not read. */
    method UpdateFromModel(logDomain: bool) returns (o: Outcome)
      modifies values
      ensures var s := SemiringOf(logDomain);
        values[..] == ClampTable(values.Length, if 0 <= state < values.Length then state else -1, s)
      ensures o.Fail? <==> !(0 <= state < values.Length)
      ensures o.Fail? ==> o.ex == IndexOutOfBounds
    {
      var s := SemiringOf(logDomain);
      var i := 0;
      while i < values.Length
        invariant 0 <= i <= values.Length
        invariant forall j :: 0 <= j < i ==> values[j] == Zero(s)
      {
        values[i] := Zero(s);
        i := i + 1;
      }
      if !(0 <= state < values.Length) {
        return Fail(IndexOutOfBounds);
      }
      values[state] := One(s);
      o := Done;
    }
  }
}
