/** Pure definitions behind `SortedIntIntVector`: the two-cursor walks of
    `binaryOp`, `countUnique`, `dot` and `hadamardProd` over parallel sorted
    index and value sequences, each with the meaning it has on sorted
    indices.  Values are Java `int`s: products and sums wrap. */
module IntEntries {
  import opened Wrappers
  import opened JavaLang
  import opened SortedArrays

  /** `get(idx)` of a sparse vector: an absent index reads as 0. */
  function Get0(keys: seq<int>, vals: seq<int>, k: int): int
    requires |keys| == |vals|
  {
    match Get(keys, vals, k)
    case Some(v) => v
    case None => 0
  }

  /** Looking past the first entry of a sorted sequence. */
  lemma GetFirst(keys: seq<int>, vals: seq<int>, k: int)
    requires |keys| == |vals| && keys != [] && Sorted(keys)
    ensures Get(keys, vals, k) == if k == keys[0] then Some(vals[0]) else Get(keys[1..], vals[1..], k)
  {
    if k < keys[0] {
      assert Position(keys[1..], k) == 0;
    }
  }

  /** The tail of a sorted sequence is sorted and lies above its head. */
  lemma SortedTail(s: seq<int>)
    requires s != [] && Sorted(s)
    ensures Sorted(s[1..]) && forall t :: 0 <= t < |s| - 1 ==> s[0] < s[1..][t]
  {
  }

  function Cons(k: int, v: int, r: (seq<int>, seq<int>)): (seq<int>, seq<int>)
  {
    ([k] + r.0, [v] + r.1)
  }

  /* ---------------- binaryOp ---------------- */

  /** The entries `binaryOp(other, op)` leaves, with the comparison of two
      indices made directly: the smaller index goes first, a shared index
      combines both values, and a missing side contributes 0. */
  function Merge(ak: seq<int>, av: seq<int>, bk: seq<int>, bv: seq<int>, op: (int, int) -> int): (r: (seq<int>, seq<int>))
    requires |ak| == |av| && |bk| == |bv|
    ensures |r.0| == |r.1|
    decreases |ak| + |bk|
  {
    if ak == [] && bk == [] then ([], [])
    else if bk == [] || (ak != [] && ak[0] < bk[0]) then
      Cons(ak[0], op(av[0], 0), Merge(ak[1..], av[1..], bk, bv, op))
    else if ak == [] || bk[0] < ak[0] then
      Cons(bk[0], op(0, bv[0]), Merge(ak, av, bk[1..], bv[1..], op))
    else
      Cons(ak[0], op(av[0], bv[0]), Merge(ak[1..], av[1..], bk[1..], bv[1..], op))
  }

  /** The same walk as the source writes it: the order of two indices is the
      sign of the `int` difference `e1 - e2`, which wraps. */
  function MergeAsWritten(ak: seq<int>, av: seq<int>, bk: seq<int>, bv: seq<int>, op: (int, int) -> int): (r: (seq<int>, seq<int>))
    requires |ak| == |av| && |bk| == |bv|
    ensures |r.0| == |r.1|
    decreases |ak| + |bk|
  {
    if ak == [] && bk == [] then ([], [])
    else if bk == [] then Cons(ak[0], op(av[0], 0), MergeAsWritten(ak[1..], av[1..], bk, bv, op))
    else if ak == [] then Cons(bk[0], op(0, bv[0]), MergeAsWritten(ak, av, bk[1..], bv[1..], op))
    else
      var diff := Wrap32(ak[0] - bk[0]);
      if diff == 0 then Cons(ak[0], op(av[0], bv[0]), MergeAsWritten(ak[1..], av[1..], bk[1..], bv[1..], op))
      else if diff < 0 then Cons(ak[0], op(av[0], 0), MergeAsWritten(ak[1..], av[1..], bk, bv, op))
      else Cons(bk[0], op(0, bv[0]), MergeAsWritten(ak, av, bk[1..], bv[1..], op))
  }

  /** Every index lies in [lo, hi]. */
  predicate Within(s: seq<int>, lo: int, hi: int)
  {
    forall t :: 0 <= t < |s| ==> lo <= s[t] <= hi
  }

  /** When no difference of two indices can overflow (all indices
      non-negative `int`s), the source's walk is the intended one. */
  lemma {:induction false} MergeAsWrittenAgrees(ak: seq<int>, av: seq<int>, bk: seq<int>, bv: seq<int>, op: (int, int) -> int)
    requires |ak| == |av| && |bk| == |bv| && Within(ak, 0, IntMax) && Within(bk, 0, IntMax)
    ensures MergeAsWritten(ak, av, bk, bv, op) == Merge(ak, av, bk, bv, op)
    decreases |ak| + |bk|
  {
    if ak == [] && bk == [] {
    } else if bk == [] {
      MergeAsWrittenAgrees(ak[1..], av[1..], bk, bv, op);
    } else if ak == [] {
      MergeAsWrittenAgrees(ak, av, bk[1..], bv[1..], op);
    } else {
      assert Wrap32(ak[0] - bk[0]) == ak[0] - bk[0];
      if ak[0] == bk[0] {
        MergeAsWrittenAgrees(ak[1..], av[1..], bk[1..], bv[1..], op);
      } else if ak[0] < bk[0] {
        MergeAsWrittenAgrees(ak[1..], av[1..], bk, bv, op);
      } else {
        MergeAsWrittenAgrees(ak, av, bk[1..], bv[1..], op);
      }
    }
  }

  /** With indices -2 and `Integer.MAX_VALUE` the difference wraps to a
      positive number, so the source emits the larger index first and the
      result is no longer sorted. */
  lemma MergeAsWrittenUnsorted(op: (int, int) -> int)
    ensures MergeAsWritten([-2], [1], [IntMax], [1], op).0 == [IntMax, -2]
    ensures !Sorted(MergeAsWritten([-2], [1], [IntMax], [1], op).0)
    ensures Merge([-2], [1], [IntMax], [1], op).0 == [-2, IntMax]
  {
    var one: seq<int> := [1];
    assert one[1..] == [];
    var big: seq<int> := [IntMax];
    assert big[1..] == [];
    var small: seq<int> := [-2];
    assert small[1..] == [];
    assert Wrap32(-2 - IntMax) == IntMax;
    var none: seq<int> := [];
    assert MergeAsWritten(none, none, none, none, op) == (none, none);
    assert MergeAsWritten(small, one, none, none, op) == Cons(-2, op(1, 0), MergeAsWritten(none, none, none, none, op));
    assert small + none == small && [op(1, 0)] + none == [op(1, 0)];
    assert MergeAsWritten(small, one, none, none, op) == ([-2], [op(1, 0)]);
    assert MergeAsWritten(small, one, big, one, op) == Cons(IntMax, op(0, 1), MergeAsWritten(small, one, [], [], op));
    assert Merge(none, none, big, one, op) == Cons(IntMax, op(0, 1), Merge(none, none, none, none, op));
    assert big + none == big && [op(0, 1)] + none == [op(0, 1)];
    assert Merge(none, none, big, one, op) == ([IntMax], [op(0, 1)]);
    assert Merge(small, one, big, one, op) == Cons(-2, op(1, 0), Merge(none, none, big, one, op));
    var r := MergeAsWritten(small, one, big, one, op).0;
    assert r == [IntMax, -2];
    assert !(r[0] < r[1]);
  }

  /** A key below every entry of a sorted sequence may go in front. */
  lemma SortedCons(h: int, t: seq<int>)
    requires Sorted(t) && forall x :: x in t ==> h < x
    ensures Sorted([h] + t)
  {
    var s := [h] + t;
    forall i, j | 0 <= i < j < |s| ensures s[i] < s[j] {
      if i == 0 {
        assert s[j] == t[j - 1] && t[j - 1] in t;
      } else {
        assert s[i] == t[i - 1] && s[j] == t[j - 1];
      }
    }
  }

  /** The merged indices are sorted and are exactly those of either side. */
  lemma {:induction false} MergeKeys(ak: seq<int>, av: seq<int>, bk: seq<int>, bv: seq<int>, op: (int, int) -> int)
    requires |ak| == |av| && |bk| == |bv| && Sorted(ak) && Sorted(bk)
    ensures Sorted(Merge(ak, av, bk, bv, op).0)
    ensures forall k :: k in Merge(ak, av, bk, bv, op).0 <==> k in ak || k in bk
    decreases |ak| + |bk|
  {
    if ak == [] && bk == [] {
    } else if bk == [] || (ak != [] && ak[0] < bk[0]) {
      SortedTail(ak);
      MergeKeys(ak[1..], av[1..], bk, bv, op);
      assert ak == [ak[0]] + ak[1..];
      var t := Merge(ak[1..], av[1..], bk, bv, op).0;
      assert forall x :: x in t ==> ak[0] < x;
      SortedCons(ak[0], t);
    } else if ak == [] || bk[0] < ak[0] {
      SortedTail(bk);
      MergeKeys(ak, av, bk[1..], bv[1..], op);
      assert bk == [bk[0]] + bk[1..];
      var t := Merge(ak, av, bk[1..], bv[1..], op).0;
      assert forall x :: x in t ==> bk[0] < x;
      SortedCons(bk[0], t);
    } else {
      SortedTail(ak);
      SortedTail(bk);
      MergeKeys(ak[1..], av[1..], bk[1..], bv[1..], op);
      assert ak == [ak[0]] + ak[1..];
      assert bk == [bk[0]] + bk[1..];
      var t := Merge(ak[1..], av[1..], bk[1..], bv[1..], op).0;
      assert forall x :: x in t ==> ak[0] < x;
      SortedCons(ak[0], t);
    }
  }

  /** Each merged index carries op of the two sides' values, 0 standing in
      for a side that lacks it. */
  lemma {:induction false} MergeGet(ak: seq<int>, av: seq<int>, bk: seq<int>, bv: seq<int>, op: (int, int) -> int, k: int)
    requires |ak| == |av| && |bk| == |bv| && Sorted(ak) && Sorted(bk)
    ensures Get(Merge(ak, av, bk, bv, op).0, Merge(ak, av, bk, bv, op).1, k) ==
      if k in ak || k in bk then Some(op(Get0(ak, av, k), Get0(bk, bv, k))) else None
    decreases |ak| + |bk|, 1
  {
    if ak == [] && bk == [] {
    } else if bk == [] || (ak != [] && ak[0] < bk[0]) {
      MergeGetLeft(ak, av, bk, bv, op, k);
    } else if ak == [] || bk[0] < ak[0] {
      MergeGetRight(ak, av, bk, bv, op, k);
    } else {
      MergeGetBoth(ak, av, bk, bv, op, k);
    }
  }

  /** Looking up k in a sorted sequence with head h: k is h, or k is
      looked up in the tail. */
  lemma Get0First(keys: seq<int>, vals: seq<int>, k: int)
    requires |keys| == |vals| && keys != [] && Sorted(keys)
    ensures k in keys <==> k == keys[0] || k in keys[1..]
    ensures Get0(keys, vals, k) == if k == keys[0] then vals[0] else Get0(keys[1..], vals[1..], k)
  {
    GetFirst(keys, vals, k);
    assert keys == [keys[0]] + keys[1..];
  }

  /** A key below the head of a sorted sequence is absent from it. */
  lemma Get0Below(keys: seq<int>, vals: seq<int>, k: int)
    requires |keys| == |vals| && Sorted(keys) && (keys == [] || k < keys[0])
    ensures k !in keys && Get0(keys, vals, k) == 0
  {
    GetAt(keys, vals, k);
  }

  lemma {:induction false} MergeGetLeft(ak: seq<int>, av: seq<int>, bk: seq<int>, bv: seq<int>, op: (int, int) -> int, k: int)
    requires |ak| == |av| && |bk| == |bv| && Sorted(ak) && Sorted(bk)
    requires ak != [] && (bk == [] || ak[0] < bk[0])
    ensures Get(Merge(ak, av, bk, bv, op).0, Merge(ak, av, bk, bv, op).1, k) ==
      if k in ak || k in bk then Some(op(Get0(ak, av, k), Get0(bk, bv, k))) else None
    decreases |ak| + |bk|, 0
  {
    MergeKeys(ak, av, bk, bv, op);
    var r := Merge(ak, av, bk, bv, op);
    GetFirst(r.0, r.1, k);
    SortedTail(ak);
    Get0First(ak, av, k);
    if k == ak[0] {
      Get0Below(bk, bv, k);
    } else {
      MergeGet(ak[1..], av[1..], bk, bv, op, k);
    }
  }

  lemma {:induction false} MergeGetRight(ak: seq<int>, av: seq<int>, bk: seq<int>, bv: seq<int>, op: (int, int) -> int, k: int)
    requires |ak| == |av| && |bk| == |bv| && Sorted(ak) && Sorted(bk)
    requires bk != [] && (ak == [] || bk[0] < ak[0])
    ensures Get(Merge(ak, av, bk, bv, op).0, Merge(ak, av, bk, bv, op).1, k) ==
      if k in ak || k in bk then Some(op(Get0(ak, av, k), Get0(bk, bv, k))) else None
    decreases |ak| + |bk|, 0
  {
    MergeKeys(ak, av, bk, bv, op);
    var r := Merge(ak, av, bk, bv, op);
    GetFirst(r.0, r.1, k);
    SortedTail(bk);
    Get0First(bk, bv, k);
    if k == bk[0] {
      Get0Below(ak, av, k);
    } else {
      MergeGet(ak, av, bk[1..], bv[1..], op, k);
    }
  }

  lemma {:induction false} MergeGetBoth(ak: seq<int>, av: seq<int>, bk: seq<int>, bv: seq<int>, op: (int, int) -> int, k: int)
    requires |ak| == |av| && |bk| == |bv| && Sorted(ak) && Sorted(bk)
    requires ak != [] && bk != [] && ak[0] == bk[0]
    ensures Get(Merge(ak, av, bk, bv, op).0, Merge(ak, av, bk, bv, op).1, k) ==
      if k in ak || k in bk then Some(op(Get0(ak, av, k), Get0(bk, bv, k))) else None
    decreases |ak| + |bk|, 0
  {
    MergeKeys(ak, av, bk, bv, op);
    var r := Merge(ak, av, bk, bv, op);
    GetFirst(r.0, r.1, k);
    SortedTail(ak);
    SortedTail(bk);
    Get0First(ak, av, k);
    Get0First(bk, bv, k);
    if k != ak[0] {
      MergeGet(ak[1..], av[1..], bk[1..], bv[1..], op, k);
    }
  }

  /* ---------------- countUnique ---------------- */

  /** `countUnique(indices1, indices2)`, the loop as written: an index
      below the other cursor's counts once, and an index present under
      both cursors is passed over without being counted. */
  function CountUnique(a: seq<int>, b: seq<int>): nat
    decreases |a| + |b|
  {
    if a == [] then |b|
    else if b == [] then |a|
    else if a[0] < b[0] then 1 + CountUnique(a[1..], b)
    else if b[0] < a[0] then 1 + CountUnique(a, b[1..])
    else CountUnique(a[1..], b[1..])
  }

  /** The indices a sequence holds. */
  function Elems(s: seq<int>): set<int>
  {
    set x | x in s
  }

  /** A strictly ascending sequence has as many elements as distinct
      values. */
  lemma {:induction false} SortedCard(s: seq<int>)
    requires Sorted(s)
    ensures |Elems(s)| == |s|
  {
    if s != [] {
      var p := s[..|s| - 1];
      SortedCard(p);
      assert Elems(s) == Elems(p) + {s[|s| - 1]};
      assert s[|s| - 1] !in p;
    }
  }

  /** The values of a non-empty sequence: its head and those of its tail. */
  lemma ElemsCons(s: seq<int>)
    requires s != []
    ensures Elems(s) == {s[0]} + Elems(s[1..])
  {
    assert s == [s[0]] + s[1..];
  }

  /** An index in neither A1 nor B, added to A1, adds one index that is
      in exactly one of the two sets. */
  lemma SymDiffAddOne(A1: set<int>, B: set<int>, x: int)
    requires x !in A1 && x !in B
    ensures |({x} + A1) - B| + |B - ({x} + A1)| == 1 + |A1 - B| + |B - A1|
  {
    assert ({x} + A1) - B == (A1 - B) + {x};
    assert B - ({x} + A1) == B - A1;
  }

  /** An index added to both sets changes nothing in their symmetric
      difference. */
  lemma SymDiffAddBoth(A1: set<int>, B1: set<int>, x: int)
    requires x !in A1 && x !in B1
    ensures |({x} + A1) - ({x} + B1)| + |({x} + B1) - ({x} + A1)| == |A1 - B1| + |B1 - A1|
  {
    assert ({x} + A1) - ({x} + B1) == A1 - B1;
    assert ({x} + B1) - ({x} + A1) == B1 - A1;
  }

  /** On sorted index arrays countUnique is the number of indices that
      occur in exactly one of the two arrays. */
  lemma {:induction false} CountUniqueSymDiff(a: seq<int>, b: seq<int>)
    requires Sorted(a) && Sorted(b)
    ensures CountUnique(a, b) ==
      |Elems(a) - Elems(b)| + |Elems(b) - Elems(a)|
    decreases |a| + |b|
  {
    if a == [] {
      SortedCard(b);
      assert Elems(a) == {};
    } else if b == [] {
      SortedCard(a);
      assert Elems(b) == {};
    } else {
      SortedTail(a);
      SortedTail(b);
      ElemsCons(a);
      ElemsCons(b);
      assert a[0] !in a[1..] && b[0] !in b[1..];
      if a[0] < b[0] {
        CountUniqueSymDiff(a[1..], b);
        assert a[0] !in b;
        SymDiffAddOne(Elems(a[1..]), Elems(b), a[0]);
      } else if b[0] < a[0] {
        CountUniqueSymDiff(a, b[1..]);
        assert b[0] !in a;
        SymDiffAddOne(Elems(b[1..]), Elems(a), b[0]);
      } else {
        CountUniqueSymDiff(a[1..], b[1..]);
        SymDiffAddBoth(Elems(a[1..]), Elems(b[1..]), a[0]);
      }
    }
  }

  /** On sorted index arrays countUnique is 0 exactly when both arrays
      hold the same indices. */
  lemma CountUniqueZero(a: seq<int>, b: seq<int>)
    requires Sorted(a) && Sorted(b)
    ensures CountUnique(a, b) == 0 <==> Elems(a) == Elems(b)
  {
    CountUniqueSymDiff(a, b);
    var A, B := Elems(a), Elems(b);
    if CountUnique(a, b) == 0 {
      assert A - B == {} && B - A == {};
      assert forall x :: x in A <==> x in B;
    }
  }

  /* ---------------- Lookups after appending ---------------- */

  /** Looking up k in sorted keys with a last entry x. */
  lemma GetSnoc(keys: seq<int>, vals: seq<int>, x: int, v: int, k: int)
    requires |keys| == |vals| && Sorted(keys + [x])
    ensures Sorted(keys)
    ensures Get(keys + [x], vals + [v], k) == if k == x then Some(v) else Get(keys, vals, k)
    ensures k in keys + [x] <==> k == x || k in keys
  {
    var ks := keys + [x];
    assert forall t :: 0 <= t < |keys| ==> ks[t] == keys[t];
    GetAt(ks, vals + [v], k);
    GetAt(keys, vals, k);
    if k != x && k in keys {
      var t :| 0 <= t < |keys| && keys[t] == k;
      assert ks[t] == k && (vals + [v])[t] == vals[t];
    }
    assert Get(ks, vals + [v], x) == Some(v) by {
      assert ks[|keys|] == x;
    }
  }

  /** The last entry of a sorted sequence lies above the others. */
  lemma SortedLast(s: seq<int>, pre: seq<int>)
    requires s != [] && Sorted(s) && pre == s[..|s| - 1]
    ensures s == pre + [s[|s| - 1]]
    ensures Sorted(pre) && forall x :: x in pre ==> x < s[|s| - 1]
  {
  }

  /** Putting a new largest key appends it. */
  lemma PutSpecAppends(keys: seq<int>, vals: seq<int>, k: int, v: int)
    requires |keys| == |vals| && forall x :: x in keys ==> x < k
    ensures PutSpec(keys, vals, k, v) == (keys + [k], vals + [v])
  {
    assert forall t :: 0 <= t < |keys| ==> keys[t] in keys;
    PositionUnique(keys, k, |keys|);
    assert keys[..|keys|] == keys && keys[|keys|..] == [];
    assert vals[..|keys|] == vals && vals[|keys|..] == [];
    assert InsertAt(keys, |keys|, k) == keys + [k];
    assert InsertAt(vals, |keys|, v) == vals + [v];
  }

  /* ---------------- dot(int[]) ---------------- */

  /** `dot(other)` against a dense array, as the loop runs: it stops at the
      first index not below other.length, and a negative index it reaches
      raises ArrayIndexOutOfBoundsException.  The sum is exact; the source's
      `int` sum is its wrap-around. */
  function DenseTerms(keys: seq<int>, vals: seq<int>, other: seq<int>): Result<int>
    requires |keys| == |vals|
  {
    if keys == [] || keys[0] >= |other| then Ok(0)
    else if keys[0] < 0 then Throw(IndexOutOfBounds)
    else
      match DenseTerms(keys[1..], vals[1..], other)
      case Ok(rest) => Ok(vals[0] * other[keys[0]] + rest)
      case Throw(e) => Throw(e)
  }

  /** An exact sum offset by acc, failures passed through. */
  function Shift(r: Result<int>, acc: int): Result<int>
  {
    match r
    case Ok(v) => Ok(v + acc)
    case Throw(e) => Throw(e)
  }

  /** The result the source returns: the exact sum wrapped to an `int`. */
  function Wrapped(r: Result<int>): Result<int>
  {
    match r
    case Ok(v) => Ok(Wrap32(v))
    case Throw(e) => Throw(e)
  }

  /** The sum of value times other[index] over the entries whose index is
      below other.length. */
  function DenseSum(keys: seq<int>, vals: seq<int>, other: seq<int>): int
    requires |keys| == |vals| && Within(keys, 0, IntMax)
  {
    if keys == [] then 0
    else (if keys[0] < |other| then vals[0] * other[keys[0]] else 0) + DenseSum(keys[1..], vals[1..], other)
  }

  lemma {:induction false} DenseSumBeyond(keys: seq<int>, vals: seq<int>, other: seq<int>)
    requires |keys| == |vals| && Within(keys, |other|, IntMax)
    ensures DenseSum(keys, vals, other) == 0
  {
    if keys != [] {
      DenseSumBeyond(keys[1..], vals[1..], other);
    }
  }

  /** On sorted indices the early stop loses nothing: the loop fails only
      when the smallest index is negative, and otherwise sums exactly the
      entries whose index is below other.length. */
  lemma {:induction false} DenseTermsSorted(keys: seq<int>, vals: seq<int>, other: seq<int>)
    requires |keys| == |vals| && Sorted(keys) && Within(keys, IntMin, IntMax)
    ensures DenseTerms(keys, vals, other).Throw? <==> keys != [] && keys[0] < 0
    ensures DenseTerms(keys, vals, other).Throw? ==> DenseTerms(keys, vals, other).ex == IndexOutOfBounds
    ensures keys == [] || keys[0] >= 0 ==> Within(keys, 0, IntMax) && DenseTerms(keys, vals, other) == Ok(DenseSum(keys, vals, other))
  {
    if keys != [] {
      SortedTail(keys);
      if keys[0] >= |other| {
        DenseSumBeyond(keys, vals, other);
      } else if keys[0] >= 0 {
        DenseTermsSorted(keys[1..], vals[1..], other);
      }
    }
  }

  /* ---------------- dot(SortedIntIntVector) and hadamardProd ---------------- */

  /** The sum over this vector's entries of value times the other vector's
      value at the same index (0 when the other lacks it). */
  function DotSparse(ak: seq<int>, av: seq<int>, bk: seq<int>, bv: seq<int>): int
    requires |ak| == |av| && |bk| == |bv|
  {
    if ak == [] then 0
    else DotSparse(ak[..|ak| - 1], av[..|ak| - 1], bk, bv) + av[|ak| - 1] * Get0(bk, bv, ak[|ak| - 1])
  }

  /** DotCursor for the `int` running sum of `dot`. */
  lemma DotWrapCursor(ak: seq<int>, av: seq<int>, bk: seq<int>, bv: seq<int>, c: nat, oc: nat, ret: int, p: int)
    requires |ak| == |av| && |bk| == |bv| && c < |ak| && oc <= |bk|
    requires forall t :: 0 <= t < oc ==> bk[t] < ak[c]
    requires oc < |bk| ==> bk[oc] >= ak[c]
    requires ret == Wrap32(DotSparse(ak[..c], av[..c], bk, bv))
    requires oc < |bk| && bk[oc] == ak[c] ==> p == av[c] * bv[oc]
    ensures oc < |bk| && bk[oc] == ak[c] ==> Wrap32(ret + Wrap32(p)) == Wrap32(DotSparse(ak[..c + 1], av[..c + 1], bk, bv))
    ensures !(oc < |bk| && bk[oc] == ak[c]) ==> ret == Wrap32(DotSparse(ak[..c + 1], av[..c + 1], bk, bv))
  {
    DotCursor(ak, av, bk, bv, c, oc);
    var d := DotSparse(ak[..c], av[..c], bk, bv);
    if oc < |bk| && bk[oc] == ak[c] {
      assert DotSparse(ak[..c + 1], av[..c + 1], bk, bv) == d + p;
      WrapAccum(ret, d, p);
    }
  }

  /** The entries of `hadamardProd(other)`: this vector's indices that the
      other also holds, in order, each with the `int` product of the two
      values. */
  function Hadamard(ak: seq<int>, av: seq<int>, bk: seq<int>, bv: seq<int>): (r: (seq<int>, seq<int>))
    requires |ak| == |av| && |bk| == |bv|
    ensures |r.0| == |r.1|
  {
    if ak == [] then ([], [])
    else
      var r := Hadamard(ak[..|ak| - 1], av[..|ak| - 1], bk, bv);
      match Get(bk, bv, ak[|ak| - 1])
      case Some(w) => (r.0 + [ak[|ak| - 1]], r.1 + [Wrap32(av[|ak| - 1] * w)])
      case None => r
  }

  /** One more entry of this vector in the sparse dot product, with a
      cursor oc at the first index of the other vector not below this
      vector's c-th index: the product of the two values is added exactly
      when the other vector holds the same index at oc. */
  lemma DotCursor(ak: seq<int>, av: seq<int>, bk: seq<int>, bv: seq<int>, c: nat, oc: nat)
    requires |ak| == |av| && |bk| == |bv| && c < |ak| && oc <= |bk|
    requires forall t :: 0 <= t < oc ==> bk[t] < ak[c]
    requires oc < |bk| ==> bk[oc] >= ak[c]
    ensures DotSparse(ak[..c + 1], av[..c + 1], bk, bv) ==
      DotSparse(ak[..c], av[..c], bk, bv) + if oc < |bk| && bk[oc] == ak[c] then av[c] * bv[oc] else 0
  {
    assert ak[..c + 1][..c] == ak[..c] && av[..c + 1][..c] == av[..c];
    PositionUnique(bk, ak[c], oc);
  }

  /** One more entry of this vector in the Hadamard product, with a cursor
      oc at the first index of the other vector not below this vector's c-th
      index: that entry is appended, with the wrapped product of the two
      values, exactly when the other vector holds the same index at oc. */
  lemma HadamardCursor(ak: seq<int>, av: seq<int>, bk: seq<int>, bv: seq<int>, c: nat, oc: nat)
    requires |ak| == |av| && |bk| == |bv| && c < |ak| && oc <= |bk|
    requires forall t :: 0 <= t < oc ==> bk[t] < ak[c]
    requires oc < |bk| ==> bk[oc] >= ak[c]
    ensures var h := Hadamard(ak[..c], av[..c], bk, bv);
      Hadamard(ak[..c + 1], av[..c + 1], bk, bv) ==
        if oc < |bk| && bk[oc] == ak[c] then (h.0 + [ak[c]], h.1 + [Wrap32(av[c] * bv[oc])]) else h
  {
    assert ak[..c + 1][..c] == ak[..c] && av[..c + 1][..c] == av[..c];
    PositionUnique(bk, ak[c], oc);
  }

  /** The product keeps only indices of this vector, in their order. */
  lemma {:induction false} HadamardKeys(ak: seq<int>, av: seq<int>, bk: seq<int>, bv: seq<int>)
    requires |ak| == |av| && |bk| == |bv| && Sorted(ak)
    ensures Sorted(Hadamard(ak, av, bk, bv).0)
    ensures forall x :: x in Hadamard(ak, av, bk, bv).0 ==> x in ak
  {
    if ak != [] {
      var pre := ak[..|ak| - 1];
      SortedLast(ak, pre);
      HadamardKeys(pre, av[..|ak| - 1], bk, bv);
      var r := Hadamard(pre, av[..|ak| - 1], bk, bv);
      if Get(bk, bv, ak[|ak| - 1]).Some? {
        SortedCons2(r.0, ak[|ak| - 1]);
      }
    }
  }

  /** The product holds exactly the shared indices, each with the product
      of the two values. */
  lemma {:induction false} HadamardGet(ak: seq<int>, av: seq<int>, bk: seq<int>, bv: seq<int>, k: int)
    requires |ak| == |av| && |bk| == |bv| && Sorted(ak) && Sorted(bk)
    ensures Get(Hadamard(ak, av, bk, bv).0, Hadamard(ak, av, bk, bv).1, k) ==
      if k in ak && k in bk then Some(Wrap32(Get0(ak, av, k) * Get0(bk, bv, k))) else None
  {
    GetAt(bk, bv, k);
    if ak == [] {
    } else {
      var n := |ak|;
      var pre, vpre := ak[..n - 1], av[..n - 1];
      SortedLast(ak, pre);
      assert av == vpre + [av[n - 1]];
      GetSnoc(pre, vpre, ak[n - 1], av[n - 1], k);
      HadamardKeys(pre, vpre, bk, bv);
      HadamardGet(pre, vpre, bk, bv, k);
      var r := Hadamard(pre, vpre, bk, bv);
      GetAt(bk, bv, ak[n - 1]);
      if Get(bk, bv, ak[n - 1]).Some? {
        assert forall x :: x in r.0 ==> x < ak[n - 1];
        SortedCons2(r.0, ak[n - 1]);
        GetSnoc(r.0, r.1, ak[n - 1], Wrap32(av[n - 1] * Get0(bk, bv, ak[n - 1])), k);
      } else if k == ak[n - 1] {
        assert k !in r.0;
        GetAt(r.0, r.1, k);
      }
    }
  }

  /** A key above every entry of a sorted sequence may go at the end. */
  lemma SortedCons2(t: seq<int>, h: int)
    requires Sorted(t) && forall x :: x in t ==> x < h
    ensures Sorted(t + [h])
  {
    var s := t + [h];
    forall i, j | 0 <= i < j < |s| ensures s[i] < s[j] {
      assert s[i] == t[i] && t[i] in t;
      if j < |t| {
        assert s[j] == t[j];
      }
    }
  }

  /** Pairs of sequences side by side. */
  function Cat(p: (seq<int>, seq<int>), q: (seq<int>, seq<int>)): (seq<int>, seq<int>)
  {
    (p.0 + q.0, p.1 + q.1)
  }

  /** One step of the merge from positions i and j, in the source's three
      cases. */
  lemma MergeFront(ak: seq<int>, av: seq<int>, bk: seq<int>, bv: seq<int>, op: (int, int) -> int, i: nat, j: nat)
    requires |ak| == |av| && |bk| == |bv| && i <= |ak| && j <= |bk| && (i < |ak| || j < |bk|)
    ensures Merge(ak[i..], av[i..], bk[j..], bv[j..], op) ==
      if j == |bk| || (i < |ak| && ak[i] < bk[j]) then
        Cons(ak[i], op(av[i], 0), Merge(ak[i + 1..], av[i + 1..], bk[j..], bv[j..], op))
      else if i == |ak| || bk[j] < ak[i] then
        Cons(bk[j], op(0, bv[j]), Merge(ak[i..], av[i..], bk[j + 1..], bv[j + 1..], op))
      else
        Cons(ak[i], op(av[i], bv[j]), Merge(ak[i + 1..], av[i + 1..], bk[j + 1..], bv[j + 1..], op))
  {
    if i < |ak| {
      assert ak[i..][0] == ak[i] && av[i..][0] == av[i] && ak[i..][1..] == ak[i + 1..] && av[i..][1..] == av[i + 1..];
    }
    if j < |bk| {
      assert bk[j..][0] == bk[j] && bv[j..][0] == bv[j] && bk[j..][1..] == bk[j + 1..] && bv[j..][1..] == bv[j + 1..];
    }
  }

  /** The merge takes the entry at i alone: its index is below the one at j,
      or the second list is exhausted. */
  lemma MergeTakeLeft(ak: seq<int>, av: seq<int>, bk: seq<int>, bv: seq<int>, op: (int, int) -> int, i: nat, j: nat,
                      acc: (seq<int>, seq<int>))
    requires |ak| == |av| && |bk| == |bv| && i < |ak| && j <= |bk| && (j == |bk| || ak[i] < bk[j])
    ensures Cat(acc, Merge(ak[i..], av[i..], bk[j..], bv[j..], op)) ==
            Cat((acc.0 + [ak[i]], acc.1 + [op(av[i], 0)]), Merge(ak[i + 1..], av[i + 1..], bk[j..], bv[j..], op))
  {
    MergeFront(ak, av, bk, bv, op, i, j);
    CatCons(acc, ak[i], op(av[i], 0), Merge(ak[i + 1..], av[i + 1..], bk[j..], bv[j..], op));
  }

  /** The merge takes the entry at j alone. */
  lemma MergeTakeRight(ak: seq<int>, av: seq<int>, bk: seq<int>, bv: seq<int>, op: (int, int) -> int, i: nat, j: nat,
                       acc: (seq<int>, seq<int>))
    requires |ak| == |av| && |bk| == |bv| && i <= |ak| && j < |bk| && (i == |ak| || bk[j] < ak[i])
    ensures Cat(acc, Merge(ak[i..], av[i..], bk[j..], bv[j..], op)) ==
            Cat((acc.0 + [bk[j]], acc.1 + [op(0, bv[j])]), Merge(ak[i..], av[i..], bk[j + 1..], bv[j + 1..], op))
  {
    MergeFront(ak, av, bk, bv, op, i, j);
    CatCons(acc, bk[j], op(0, bv[j]), Merge(ak[i..], av[i..], bk[j + 1..], bv[j + 1..], op));
  }

  /** The merge combines the entries at i and j, which share an index. */
  lemma MergeTakeBoth(ak: seq<int>, av: seq<int>, bk: seq<int>, bv: seq<int>, op: (int, int) -> int, i: nat, j: nat,
                      acc: (seq<int>, seq<int>))
    requires |ak| == |av| && |bk| == |bv| && i < |ak| && j < |bk| && ak[i] == bk[j]
    ensures Cat(acc, Merge(ak[i..], av[i..], bk[j..], bv[j..], op)) ==
            Cat((acc.0 + [ak[i]], acc.1 + [op(av[i], bv[j])]), Merge(ak[i + 1..], av[i + 1..], bk[j + 1..], bv[j + 1..], op))
  {
    MergeFront(ak, av, bk, bv, op, i, j);
    CatCons(acc, ak[i], op(av[i], bv[j]), Merge(ak[i + 1..], av[i + 1..], bk[j + 1..], bv[j + 1..], op));
  }

  /** Moving an entry from the front of the rest to the end of the output. */
  lemma CatCons(p: (seq<int>, seq<int>), k: int, v: int, q: (seq<int>, seq<int>))
    ensures Cat(p, Cons(k, v, q)) == Cat((p.0 + [k], p.1 + [v]), q)
  {
    assert p.0 + ([k] + q.0) == (p.0 + [k]) + q.0;
    assert p.1 + ([v] + q.1) == (p.1 + [v]) + q.1;
  }

  /** The sum of a sequence, from the left. */
  function Sum(s: seq<int>): int
  {
    if s == [] then 0 else Sum(s[..|s| - 1]) + s[|s| - 1]
  }

  /** The dot product of two vectors is the sum of their Hadamard product,
      up to `int` wrap-around. */
  lemma {:induction false} DotIsHadamardSum(ak: seq<int>, av: seq<int>, bk: seq<int>, bv: seq<int>)
    requires |ak| == |av| && |bk| == |bv|
    ensures Wrap32(Sum(Hadamard(ak, av, bk, bv).1)) == Wrap32(DotSparse(ak, av, bk, bv))
  {
    if ak != [] {
      var n := |ak|;
      DotIsHadamardSum(ak[..n - 1], av[..n - 1], bk, bv);
      match Get(bk, bv, ak[n - 1])
      case Some(w) =>
        SumWrapStep(Hadamard(ak[..n - 1], av[..n - 1], bk, bv).1, DotSparse(ak[..n - 1], av[..n - 1], bk, bv), av[n - 1] * w);
      case None =>
    }
  }

  /** Appending a wrapped term p to a sequence whose sum agrees with d up to
      wrap-around keeps that agreement with d + p. */
  lemma SumWrapStep(h: seq<int>, d: int, p: int)
    requires Wrap32(Sum(h)) == Wrap32(d)
    ensures Wrap32(Sum(h + [Wrap32(p)])) == Wrap32(d + p)
  {
    assert (h + [Wrap32(p)])[..|h|] == h;
    assert Sum(h + [Wrap32(p)]) == Sum(h) + Wrap32(p);
    WrapAdd(Sum(h), Wrap32(p));
    WrapAdd(Sum(h), p);
    WrapAdd(d, p);
  }

  /* ---------------- getWithNoZeroValues and equals ---------------- */

  /** The entries whose value is not 0, in order. */
  function NoZeros(keys: seq<int>, vals: seq<int>): (r: (seq<int>, seq<int>))
    requires |keys| == |vals|
    ensures |r.0| == |r.1| <= |keys|
  {
    if keys == [] then ([], [])
    else
      var r := NoZeros(keys[..|keys| - 1], vals[..|keys| - 1]);
      if vals[|keys| - 1] != 0 then (r.0 + [keys[|keys| - 1]], r.1 + [vals[|keys| - 1]]) else r
  }

  /** Dropping zeros removes something exactly when some value is 0, and
      what is left holds no 0. */
  lemma {:induction false} NoZerosLength(keys: seq<int>, vals: seq<int>)
    requires |keys| == |vals|
    ensures |NoZeros(keys, vals).0| == |keys| <==> forall t :: 0 <= t < |vals| ==> vals[t] != 0
    ensures (forall t :: 0 <= t < |vals| ==> vals[t] != 0) ==> NoZeros(keys, vals) == (keys, vals)
    ensures forall t :: 0 <= t < |NoZeros(keys, vals).1| ==> NoZeros(keys, vals).1[t] != 0
  {
    if keys != [] {
      var n := |keys|;
      NoZerosLength(keys[..n - 1], vals[..n - 1]);
      NoZerosLengthStep(keys, vals);
    }
  }

  /** The step of `NoZerosLength` for the last entry. */
  lemma NoZerosLengthStep(keys: seq<int>, vals: seq<int>)
    requires |keys| == |vals| > 0
    requires var pk, pv := keys[..|keys| - 1], vals[..|keys| - 1];
      && (|NoZeros(pk, pv).0| == |pk| <==> forall t :: 0 <= t < |pv| ==> pv[t] != 0)
      && ((forall t :: 0 <= t < |pv| ==> pv[t] != 0) ==> NoZeros(pk, pv) == (pk, pv))
      && (forall t :: 0 <= t < |NoZeros(pk, pv).1| ==> NoZeros(pk, pv).1[t] != 0)
    ensures |NoZeros(keys, vals).0| == |keys| <==> forall t :: 0 <= t < |vals| ==> vals[t] != 0
    ensures (forall t :: 0 <= t < |vals| ==> vals[t] != 0) ==> NoZeros(keys, vals) == (keys, vals)
    ensures forall t :: 0 <= t < |NoZeros(keys, vals).1| ==> NoZeros(keys, vals).1[t] != 0
  {
    var n := |keys|;
    assert keys == keys[..n - 1] + [keys[n - 1]];
    assert vals == vals[..n - 1] + [vals[n - 1]];
  }

  /** Dropping zeros keeps only indices of the vector, in order. */
  lemma {:induction false} NoZerosKeys(keys: seq<int>, vals: seq<int>)
    requires |keys| == |vals| && Sorted(keys)
    ensures Sorted(NoZeros(keys, vals).0)
    ensures forall x :: x in NoZeros(keys, vals).0 ==> x in keys
  {
    if keys != [] {
      var n := |keys|;
      var pre := keys[..n - 1];
      SortedLast(keys, pre);
      NoZerosKeys(pre, vals[..n - 1]);
      if vals[n - 1] != 0 {
        SortedCons2(NoZeros(pre, vals[..n - 1]).0, keys[n - 1]);
      }
    }
  }

  /** Dropping zeros keeps every lookup with default 0 unchanged; an index
      is kept exactly when its value is not 0. */
  lemma {:induction false} NoZerosGet(keys: seq<int>, vals: seq<int>, k: int)
    requires |keys| == |vals| && Sorted(keys)
    ensures Sorted(NoZeros(keys, vals).0)
    ensures forall x :: x in NoZeros(keys, vals).0 ==> x in keys
    ensures Get0(NoZeros(keys, vals).0, NoZeros(keys, vals).1, k) == Get0(keys, vals, k)
    ensures k in NoZeros(keys, vals).0 <==> Get0(keys, vals, k) != 0
  {
    NoZerosKeys(keys, vals);
    if keys != [] {
      var n := |keys|;
      var pre, vpre := keys[..n - 1], vals[..n - 1];
      SortedLast(keys, pre);
      assert vals == vpre + [vals[n - 1]];
      GetSnoc(pre, vpre, keys[n - 1], vals[n - 1], k);
      NoZerosGet(pre, vpre, k);
      var q := NoZeros(pre, vpre);
      if vals[n - 1] != 0 {
        GetSnoc(q.0, q.1, keys[n - 1], vals[n - 1], k);
      } else if k == keys[n - 1] {
        GetAt(q.0, q.1, k);
      }
    } else {
      GetAt(keys, vals, k);
    }
  }

  /** A non-empty sequence holds its head. */
  lemma HeadIn(s: seq<int>)
    ensures s != [] ==> s[0] in s
  {
  }

  /** Dropping zeros from a prefix leaves no more than from the whole. */
  lemma {:induction false} NoZerosMono(keys: seq<int>, vals: seq<int>, i: nat)
    requires |keys| == |vals| && i <= |keys|
    ensures |NoZeros(keys[..i], vals[..i]).0| <= |NoZeros(keys, vals).0|
  {
    if i < |keys| {
      var n := |keys|;
      assert keys[..n - 1][..i] == keys[..i] && vals[..n - 1][..i] == vals[..i];
      NoZerosMono(keys[..n - 1], vals[..n - 1], i);
    } else {
      assert keys[..i] == keys && vals[..i] == vals;
    }
  }

  /** Two sorted sequences with the same elements are equal. */
  lemma {:induction false} SortedSameElements(a: seq<int>, b: seq<int>)
    requires Sorted(a) && Sorted(b) && forall x :: x in a <==> x in b
    ensures a == b
  {
    if a != [] && b != [] {
      SortedTail(a);
      SortedTail(b);
      assert a[0] in b && b[0] in a;
      assert a[0] == b[0];
      assert a == [a[0]] + a[1..] && b == [b[0]] + b[1..];
      forall x ensures x in a[1..] <==> x in b[1..] {
        assert x in a[1..] ==> x in a && x != a[0];
        assert x in b[1..] ==> x in b && x != b[0];
      }
      SortedSameElements(a[1..], b[1..]);
    } else {
      HeadIn(a);
      HeadIn(b);
    }
  }

  /** What the loops of `equals` check, on the zero-free forms n1 and n2 of
      the two vectors: equal sizes, then every entry of each found with the
      same value in the other. */
  predicate EqualsChecks(n1: (seq<int>, seq<int>), n2: (seq<int>, seq<int>))
    requires |n1.0| == |n1.1| && |n2.0| == |n2.1|
  {
    |n1.0| == |n2.0| && ReadBack(n1.0, n1.1, n2.0, n2.1) && ReadBack(n2.0, n2.1, n1.0, n1.1)
  }

  /** Every entry of the first vector is found with the same value in the
      second. */
  predicate ReadBack(ak: seq<int>, av: seq<int>, bk: seq<int>, bv: seq<int>)
    requires |ak| == |av| && |bk| == |bv|
  {
    forall t :: 0 <= t < |ak| ==> av[t] == Get0(bk, bv, ak[t])
  }

  /** `equals` ignores explicit zeros: the checks pass exactly when the two
      vectors read the same at every index. */
  lemma EqualsIff(ak: seq<int>, av: seq<int>, bk: seq<int>, bv: seq<int>)
    requires |ak| == |av| && |bk| == |bv| && Sorted(ak) && Sorted(bk)
    ensures EqualsChecks(NoZeros(ak, av), NoZeros(bk, bv)) <==> forall k :: Get0(ak, av, k) == Get0(bk, bv, k)
  {
    var n1, n2 := NoZeros(ak, av), NoZeros(bk, bv);
    forall k ensures Get0(n1.0, n1.1, k) == Get0(ak, av, k) && (k in n1.0 <==> Get0(ak, av, k) != 0)
      && Get0(n2.0, n2.1, k) == Get0(bk, bv, k) && (k in n2.0 <==> Get0(bk, bv, k) != 0)
    {
      NoZerosGet(ak, av, k);
      NoZerosGet(bk, bv, k);
    }
    NoZerosGet(ak, av, 0);
    NoZerosGet(bk, bv, 0);
    if EqualsChecks(n1, n2) {
      forall k ensures Get0(ak, av, k) == Get0(bk, bv, k) {
        GetAt(n1.0, n1.1, k);
        GetAt(n2.0, n2.1, k);
        if k in n1.0 {
          var t :| 0 <= t < |n1.0| && n1.0[t] == k;
        }
      }
    }
    if forall k :: Get0(ak, av, k) == Get0(bk, bv, k) {
      SortedSameElements(n1.0, n2.0);
      forall t | 0 <= t < |n1.0| ensures n1.1[t] == Get0(n2.0, n2.1, n1.0[t]) {
        GetAt(n1.0, n1.1, n1.0[t]);
      }
      forall t | 0 <= t < |n2.0| ensures n2.1[t] == Get0(n1.0, n1.1, n2.0[t]) {
        GetAt(n2.0, n2.1, n2.0[t]);
      }
    }
  }
}
