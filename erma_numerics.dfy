/** The few numeric steps ErmaBp performs itself on message tensors: the
    residual between two messages and the unnormalisation of an adjoint.
    The tensor and algebra classes are not part of this model: a tensor is
    its sequence of entries, and an algebra is given by its constants and
    operations. */
module ErmaNumerics {
  import opened Wrappers
  import opened JavaLang

  /** The entries of a `VarTensor`, in configuration order. */
  type Tensor = seq<Double>

  /** An `Algebra`: its zero and one, the operations the tensor methods
      apply entry by entry, and `toLogProb`. */
  datatype Algebra = Algebra(
    zero: Double,
    one: Double,
    plus: (Double, Double) -> Double,
    times: (Double, Double) -> Double,
    minus: (Double, Double) -> Double,
    divide: (Double, Double) -> Double,
    toLogProb: Double -> Double)

  /** A tensor of n entries, all equal to x (`new VarTensor(s, vars, x)`,
      `fill(x)`). */
  function Filled(n: nat, x: Double): (t: Tensor)
    ensures |t| == n && forall c :: 0 <= c < n ==> t[c] == x
  {
    seq(n, _ => x)
  }

  /** |logp(t1[c]) - logp(t2[c])|, in Java double arithmetic. */
  function AbsLogDiff(s: Algebra, t1: Tensor, t2: Tensor, c: int): Double
    requires 0 <= c < |t1| && c < |t2|
  {
    DoubleAbs(DoubleSub(s.toLogProb(t1[c]), s.toLogProb(t2[c])))
  }

  /** The running maximum of `getResidual` after the first k entries: it
      starts at negative infinity and takes an entry's difference when that
      is greater. */
  function ResidualOver(s: Algebra, t1: Tensor, t2: Tensor, k: nat): (r: Double)
    requires k <= |t1| && k <= |t2|
    ensures r != NaN
  {
    if k == 0 then NegInf
    else
      var prev := ResidualOver(s, t1, t2, k - 1);
      var a := AbsLogDiff(s, t1, t2, k - 1);
      if DoubleGt(a, prev) then a else prev
  }

  /** The residual of two messages over their common entries. */
  function Residual(s: Algebra, t1: Tensor, t2: Tensor): Double
  {
    ResidualOver(s, t1, t2, if |t1| <= |t2| then |t1| else |t2|)
  }

  /** The residual is the maximum of the differences: no entry's difference
      is greater, and it is one of them unless there are no entries. */
  lemma {:induction false} ResidualIsMax(s: Algebra, t1: Tensor, t2: Tensor, k: nat)
    requires k <= |t1| && k <= |t2|
    ensures forall c :: 0 <= c < k ==> !DoubleGt(AbsLogDiff(s, t1, t2, c), ResidualOver(s, t1, t2, k))
    ensures ResidualOver(s, t1, t2, k) == NegInf
      || exists c :: 0 <= c < k && ResidualOver(s, t1, t2, k) == AbsLogDiff(s, t1, t2, c)
  {
    if k > 0 {
      ResidualIsMax(s, t1, t2, k - 1);
      var prev := ResidualOver(s, t1, t2, k - 1);
      var r := ResidualOver(s, t1, t2, k);
      forall c | 0 <= c < k
        ensures !DoubleGt(AbsLogDiff(s, t1, t2, c), r)
      {
        var a := AbsLogDiff(s, t1, t2, c);
        if a != NaN && c < k - 1 {
          DoubleOrder(a, prev, r);
        }
      }
    }
  }

  /** `getResidual(t1, t2)`: `Tensor.checkEqualSize` raises when the sizes
      differ (that class is not part of this model; its exception is taken
      to be IllegalStateException); otherwise the maximum over the entries. */
  method GetResidual(s: Algebra, t1: Tensor, t2: Tensor) returns (r: Result<Double>)
    ensures r.Throw? <==> |t1| != |t2|
    ensures r.Throw? ==> r.ex == IllegalState
    ensures r.Ok? ==> r.value == Residual(s, t1, t2)
  {
    if |t1| != |t2| {
      return Throw(IllegalState);
    }
    var residual := NegInf;
    var c := 0;
    while c < |t1|
      invariant 0 <= c <= |t1|
      invariant residual == ResidualOver(s, t1, t2, c)
    {
      var abs := DoubleAbs(DoubleSub(s.toLogProb(t1[c]), s.toLogProb(t2[c])));
      if DoubleGt(abs, residual) {
        residual := abs;
      }
      c := c + 1;
    }
    r := Ok(residual);
  }

  /** `getDotProduct` over the first k entries: the algebra sum of the
      entry-wise products, from the algebra zero. */
  function DotOver(s: Algebra, t1: Tensor, t2: Tensor, k: nat): Double
    requires k <= |t1| && k <= |t2|
  {
    if k == 0 then s.zero else s.plus(DotOver(s, t1, t2, k - 1), s.times(t1[k - 1], t2[k - 1]))
  }

  /** `dist.getDotProduct(distAdj)` over the common entries. */
  function Dot(s: Algebra, t1: Tensor, t2: Tensor): Double
  {
    DotOver(s, t1, t2, if |t1| <= |t2| then |t1| else |t2|)
  }

  /** `unnormalizeAdjInPlace(dist, distAdj, unormSum)`: an
      IllegalArgumentException when the sum equals the algebra zero;
      otherwise every entry of the adjoint has the dot product of the
      distribution and the adjoint subtracted and is divided by the sum. */
  function UnnormalizeAdj(s: Algebra, dist: Tensor, adj: Tensor, unormSum: Double): (r: Result<Tensor>)
    ensures r.Throw? <==> DoubleEq(unormSum, s.zero)
    ensures r.Throw? ==> r.ex == IllegalArgument
    ensures r.Ok? ==> |r.value| == |adj|
  {
    if DoubleEq(unormSum, s.zero) then Throw(IllegalArgument)
    else
      var d := Dot(s, dist, adj);
      Ok(seq(|adj|, c requires 0 <= c < |adj| => s.divide(s.minus(adj[c], d), unormSum)))
  }

  /** The algebra computes with real numbers on finite values. */
  ghost predicate IsReal(s: Algebra)
  {
    s.zero == Finite(0.0) && s.one == Finite(1.0)
    && (forall x: real, y: real {:trigger s.plus(Finite(x), Finite(y))} :: s.plus(Finite(x), Finite(y)) == Finite(x + y))
    && (forall x: real, y: real {:trigger s.times(Finite(x), Finite(y))} :: s.times(Finite(x), Finite(y)) == Finite(x * y))
    && (forall x: real, y: real {:trigger s.minus(Finite(x), Finite(y))} :: s.minus(Finite(x), Finite(y)) == Finite(x - y))
    && (forall x: real, y: real {:trigger s.divide(Finite(x), Finite(y))} :: y != 0.0 ==> s.divide(Finite(x), Finite(y)) == Finite(x / y))
  }

  predicate AllFinite(t: Tensor)
  {
    forall c :: 0 <= c < |t| ==> t[c].Finite?
  }

  /** The real sum of the first k entries. */
  function SumOver(t: Tensor, k: nat): real
    requires k <= |t| && AllFinite(t)
  {
    if k == 0 then 0.0 else SumOver(t, k - 1) + t[k - 1].r
  }

  /** The real dot product of the first k entries. */
  function RealDot(t1: Tensor, t2: Tensor, k: nat): real
    requires k <= |t1| && k <= |t2| && AllFinite(t1) && AllFinite(t2)
  {
    if k == 0 then 0.0 else RealDot(t1, t2, k - 1) + t1[k - 1].r * t2[k - 1].r
  }

  /** In a real algebra the dot product is the real one. */
  lemma {:induction false} DotIsReal(s: Algebra, t1: Tensor, t2: Tensor, k: nat)
    requires IsReal(s) && k <= |t1| && k <= |t2| && AllFinite(t1) && AllFinite(t2)
    ensures DotOver(s, t1, t2, k) == Finite(RealDot(t1, t2, k))
  {
    if k > 0 {
      DotIsReal(s, t1, t2, k - 1);
      var x, y := t1[k - 1].r, t2[k - 1].r;
      assert t1[k - 1] == Finite(x) && t2[k - 1] == Finite(y);
      var p := RealDot(t1, t2, k - 1);
      assert s.times(Finite(x), Finite(y)) == Finite(x * y);
      assert s.plus(Finite(p), Finite(x * y)) == Finite(p + x * y);
    }
  }

  /** One more weighted entry of ShiftedDot, in real arithmetic: from the
      sums p, q and the shifted sum e over the first entries, the entry with
      weight x and value y keeps the relation. */
  lemma ShiftedStep(p: real, q: real, e: real, x: real, y: real, z: real, d: real, u: real)
    requires u != 0.0 && e == (p - d * q) / u && z == (y - d) / u
    ensures e + x * z == ((p + x * y) - d * (q + x)) / u
  {
    assert x * z == (x * y - d * x) / u;
    assert (p - d * q) / u + (x * y - d * x) / u == ((p - d * q) + (x * y - d * x)) / u;
    assert (p - d * q) + (x * y - d * x) == (p + x * y) - d * (q + x);
  }

  /** Against weights w, the entries (a[c] - d) / u sum to
      (w.a - d * sum(w)) / u. */
  lemma {:induction false} ShiftedDot(w: Tensor, a: Tensor, r: Tensor, d: real, u: real, k: nat)
    requires u != 0.0 && k <= |w| && |w| == |a| == |r| && AllFinite(w) && AllFinite(a) && AllFinite(r)
    requires forall c :: 0 <= c < |r| ==> r[c].r == (a[c].r - d) / u
    ensures RealDot(w, r, k) == (RealDot(w, a, k) - d * SumOver(w, k)) / u
  {
    if k > 0 {
      ShiftedDot(w, a, r, d, u, k - 1);
      ShiftedStep(RealDot(w, a, k - 1), SumOver(w, k - 1), RealDot(w, r, k - 1), w[k - 1].r, a[k - 1].r, r[k - 1].r, d, u);
    }
  }

  /** In a real algebra, the unnormalised adjoint of a distribution whose
      entries sum to one is orthogonal to that distribution: the part of
      the adjoint along the distribution is removed. */
  lemma UnnormalizedAdjOrthogonal(s: Algebra, dist: Tensor, adj: Tensor, unormSum: real)
    requires IsReal(s) && |dist| == |adj| && AllFinite(dist) && AllFinite(adj)
    requires unormSum != 0.0 && SumOver(dist, |dist|) == 1.0
    ensures UnnormalizeAdj(s, dist, adj, Finite(unormSum)).Ok?
    ensures var r := UnnormalizeAdj(s, dist, adj, Finite(unormSum)).value;
      AllFinite(r) && RealDot(dist, r, |dist|) == 0.0
  {
    var r := UnnormalizeAdj(s, dist, adj, Finite(unormSum)).value;
    DotIsReal(s, dist, adj, |dist|);
    var d := RealDot(dist, adj, |dist|);
    assert Dot(s, dist, adj) == Finite(d);
    forall c | 0 <= c < |r|
      ensures r[c] == Finite((adj[c].r - d) / unormSum)
    {
      assert s.minus(Finite(adj[c].r), Finite(d)) == Finite(adj[c].r - d);
    }
    ShiftedDot(dist, adj, r, d, unormSum, |dist|);
  }
}
