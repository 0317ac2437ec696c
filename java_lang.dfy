/** The few JDK behaviours the modelled code relies on, stated explicitly:
    32-bit `int` arithmetic, `/` and `%` truncating toward zero,
    `Integer.toString`, `Integer.parseInt` and the two forms of
    `String.split` that the source uses. */
module JavaLang {
  import opened Wrappers

  const IntMin: int := -0x8000_0000
  const IntMax: int := 0x7fff_ffff
  const Two32: int := 0x1_0000_0000

  /** A Java `double`, as far as the modelled code distinguishes them: the
      special values, and every finite value as a real number (rounding is
      not modelled). */
  datatype Double = NaN | NegInf | PosInf | Finite(r: real)

  /** Java's `a > b` on doubles: false whenever either side is NaN. */
  predicate DoubleGt(a: Double, b: Double)
  {
    match (a, b)
    case (NaN, _) => false
    case (_, NaN) => false
    case (PosInf, _) => b != PosInf
    case (Finite(x), NegInf) => true
    case (Finite(x), Finite(y)) => x > y
    case _ => false
  }

  /** Java's `a <= b` on doubles: false whenever either side is NaN. */
  predicate DoubleLe(a: Double, b: Double)
  {
    a != NaN && b != NaN && !DoubleGt(a, b)
  }

  /** Java's `a == b` on doubles: NaN equals nothing, itself included. */
  predicate DoubleEq(a: Double, b: Double)
  {
    a != NaN && a == b
  }

  /** Java's `a - b` on doubles (IEEE 754 special cases; rounding is not
      modelled). */
  function DoubleSub(a: Double, b: Double): Double
  {
    match (a, b)
    case (NaN, _) => NaN
    case (_, NaN) => NaN
    case (PosInf, PosInf) => NaN
    case (NegInf, NegInf) => NaN
    case (PosInf, _) => PosInf
    case (NegInf, _) => NegInf
    case (Finite(_), PosInf) => NegInf
    case (Finite(_), NegInf) => PosInf
    case (Finite(x), Finite(y)) => Finite(x - y)
  }

  /** `Math.abs` on a double. */
  function DoubleAbs(a: Double): (r: Double)
    ensures r != NegInf
    ensures r == NaN <==> a == NaN
  {
    match a
    case NaN => NaN
    case NegInf => PosInf
    case PosInf => PosInf
    case Finite(x) => Finite(if x < 0.0 then -x else x)
  }

  /** On doubles other than NaN, `>` is a strict total order and `<=` is
      its complement. */
  lemma DoubleOrder(a: Double, b: Double, c: Double)
    requires a != NaN && b != NaN && c != NaN
    ensures DoubleGt(a, b) <==> !DoubleLe(a, b)
    ensures DoubleGt(a, b) ==> !DoubleGt(b, a)
    ensures DoubleGt(a, b) && DoubleGt(b, c) ==> DoubleGt(a, c)
    ensures !DoubleGt(a, b) && !DoubleGt(b, c) ==> !DoubleGt(a, c)
    ensures a == b || DoubleGt(a, b) || DoubleGt(b, a)
  {
  }

  /** A value a Java `int` can hold. */
  predicate IsInt32(x: int) { IntMin <= x <= IntMax }

  /** The two's-complement wrap-around of Java `int` arithmetic. */
  function Wrap32(x: int): (r: int)
    ensures IsInt32(r)
    ensures (x - r) % Two32 == 0
    ensures IsInt32(x) ==> r == x
  {
    (x - IntMin) % Two32 + IntMin
  }

  /** Two integers that differ by a multiple of 2^32 wrap to the same `int`. */
  lemma WrapCongruent(x: int, y: int)
    requires (x - y) % Two32 == 0
    ensures Wrap32(x) == Wrap32(y)
  {
    var k := (x - y) / Two32;
    assert x - IntMin == (y - IntMin) + k * Two32;
    ModShift(y - IntMin, k);
  }

  lemma ModShift(a: int, k: int)
    ensures (a + k * Two32) % Two32 == a % Two32
  {
  }

  /** Wrapping after each addition is wrapping the exact sum once. */
  lemma WrapAdd(a: int, b: int)
    ensures Wrap32(Wrap32(a) + Wrap32(b)) == Wrap32(a + b)
  {
    var ka := (a - Wrap32(a)) / Two32;
    var kb := (b - Wrap32(b)) / Two32;
    assert a - Wrap32(a) == ka * Two32;
    assert b - Wrap32(b) == kb * Two32;
    assert (Wrap32(a) + Wrap32(b)) - (a + b) == (-(ka + kb)) * Two32;
    ModShift(0, -(ka + kb));
    WrapCongruent(Wrap32(a) + Wrap32(b), a + b);
  }

  /** An `int` running sum: adding the wrapped term to the wrapped sum wraps
      the exact sum. */
  lemma WrapAccum(ret: int, acc: int, p: int)
    requires ret == Wrap32(acc)
    ensures Wrap32(ret + Wrap32(p)) == Wrap32(acc + p)
  {
    WrapAdd(acc, p);
  }

  /** Java's integer `/`: the quotient is truncated toward zero. */
  function JavaDiv(a: int, b: int): int
    requires b != 0
  {
    if (a >= 0) == (b > 0) then Abs(a) / Abs(b) else -(Abs(a) / Abs(b))
  }

  /** Java's integer `%`: the remainder takes the sign of the dividend. */
  function JavaRem(a: int, b: int): (r: int)
    requires b != 0
    ensures a == JavaDiv(a, b) * b + r
    ensures Abs(r) < Abs(b)
    ensures a >= 0 ==> r >= 0
    ensures a <= 0 ==> r <= 0
  {
    if a >= 0 then Abs(a) % Abs(b) else -(Abs(a) % Abs(b))
  }

  function Abs(x: int): nat { if x < 0 then -x else x }

  /** For a non-negative dividend and a positive divisor Java's operators
      agree with Dafny's. */
  lemma JavaDivRemNonNegative(a: int, b: int)
    requires a >= 0 && b > 0
    ensures JavaDiv(a, b) == a / b && JavaRem(a, b) == a % b
  {
  }

  /* ---------------- Integer.toString and Integer.parseInt ---------------- */

  predicate IsDigit(c: char) { '0' <= c <= '9' }

  function DigitChar(d: nat): (c: char)
    requires d < 10
    ensures IsDigit(c)
  {
    "0123456789"[d]
  }

  function DigitValue(c: char): (d: nat)
    requires IsDigit(c)
    ensures d < 10
  {
    (c as int) - ('0' as int)
  }

  /** Decimal digits of n, most significant first, without leading zeros. */
  function Digits(n: nat): (s: string)
    ensures |s| > 0
    ensures forall i :: 0 <= i < |s| ==> IsDigit(s[i])
  {
    if n < 10 then [DigitChar(n)] else Digits(n / 10) + [DigitChar(n % 10)]
  }

  /** The number a non-empty string of decimal digits denotes. */
  function DigitsValue(s: string): nat
    requires forall i :: 0 <= i < |s| ==> IsDigit(s[i])
  {
    if |s| == 0 then 0 else DigitsValue(s[..|s| - 1]) * 10 + DigitValue(s[|s| - 1])
  }

  lemma {:induction false} DigitsValueOfDigits(n: nat)
    ensures DigitsValue(Digits(n)) == n
  {
    var s := Digits(n);
    if n < 10 {
      assert s[..0] == [];
    } else {
      assert s[..|s| - 1] == Digits(n / 10);
      DigitsValueOfDigits(n / 10);
      assert DigitValue(DigitChar(n % 10)) == n % 10;
    }
  }

  /** `Integer.toString(int)`: decimal, with a leading '-' for negatives. */
  function IntToString(v: int): string
    decreases if v < 0 then 1 else 0
  {
    if v < 0 then "-" + IntToString(-v) else Digits(v)
  }

  /** `Integer.parseInt(String)` in radix 10 on ASCII digits: an optional sign,
      at least one digit, and a value a Java `int` can hold; anything else
      raises NumberFormatException (`None`). */
  function ParseInt(s: string): (r: Option<int>)
    ensures r.Some? ==> IsInt32(r.value)
  {
    if |s| == 0 then None
    else
      var neg := s[0] == '-';
      var body := if s[0] == '-' || s[0] == '+' then s[1..] else s;
      if |body| == 0 || !(forall i :: 0 <= i < |body| ==> IsDigit(body[i])) then None
      else
        var mag: int := DigitsValue(body);
        var v := if neg then -mag else mag;
        if IsInt32(v) then Some(v) else None
  }

  /** Reading back what `Integer.toString` writes gives the same `int`. */
  lemma ParseIntOfIntToString(v: int)
    requires IsInt32(v)
    ensures ParseInt(IntToString(v)) == Some(v)
  {
    if v < 0 {
      var s := IntToString(v);
      assert IntToString(-v) == Digits(-v);
      assert s == "-" + Digits(-v);
      assert s[1..] == Digits(-v);
      DigitsValueOfDigits(-v);
    } else {
      DigitsValueOfDigits(v);
    }
  }

  /* ---------------- String.split ---------------- */

  /** The pieces of s between occurrences of c, including empty ones. */
  function SplitAll(s: string, c: char): (parts: seq<string>)
    ensures |parts| > 0
    ensures forall k :: 0 <= k < |parts| ==> c !in parts[k]
    decreases |s|
  {
    if c !in s then [s]
    else
      var i := IndexOf(s, c);
      [s[..i]] + SplitAll(s[i + 1..], c)
  }

  function IndexOf(s: string, c: char): (i: nat)
    requires c in s
    ensures i < |s| && s[i] == c && c !in s[..i]
  {
    if s[0] == c then 0 else IndexOf(s[1..], c) + 1
  }

  /** Java drops the trailing empty strings of a split (limit 0). */
  function DropTrailingEmpty(parts: seq<string>): (r: seq<string>)
    ensures |r| <= |parts| && r == parts[..|r|]
    ensures r != [] ==> r[|r| - 1] != ""
    ensures forall k :: |r| <= k < |parts| ==> parts[k] == ""
  {
    if parts == [] then []
    else if parts[|parts| - 1] == "" then DropTrailingEmpty(parts[..|parts| - 1])
    else parts
  }

  /** `s.split(c)` for a single non-metacharacter c (as in `split(",")`):
      a string with no c splits into itself; otherwise the pieces between
      the c's, trailing empty pieces removed. */
  function JavaSplitChar(s: string, c: char): (r: seq<string>)
    ensures forall k :: 0 <= k < |r| ==> c !in r[k]
  {
    if c !in s then [s] else DropTrailingEmpty(SplitAll(s, c))
  }

  /** Joining the pieces with c gives the string back. */
  function Join(parts: seq<string>, sep: string): string
  {
    if parts == [] then "" else if |parts| == 1 then parts[0] else parts[0] + sep + Join(parts[1..], sep)
  }

  lemma {:induction false} JoinSplitAll(s: string, c: char)
    ensures Join(SplitAll(s, c), [c]) == s
    decreases |s|
  {
    if c in s {
      var i := IndexOf(s, c);
      JoinSplitAll(s[i + 1..], c);
      assert s == s[..i] + [c] + s[i + 1..];
    }
  }

  /** The first c of a + [c] + b is the one after a, when a holds none. */
  lemma IndexOfAfter(a: string, c: char, b: string)
    requires c !in a
    ensures IndexOf(a + [c] + b, c) == |a|
  {
    var s := a + [c] + b;
    var i := IndexOf(s, c);
    assert forall j :: 0 <= j < |a| ==> s[j] == a[j];
    assert s[|a|] == c;
  }

  /** Splitting a join of c-free pieces on c gives the pieces back. */
  lemma {:induction false} SplitAllJoin(parts: seq<string>, c: char)
    requires parts != [] && forall k :: 0 <= k < |parts| ==> c !in parts[k]
    ensures SplitAll(Join(parts, [c]), c) == parts
  {
    if |parts| > 1 {
      var p, tail := parts[0], parts[1..];
      var rest := Join(tail, [c]);
      SplitAllJoin(tail, c);
      var s := p + [c] + rest;
      assert Join(parts, [c]) == s;
      IndexOfAfter(p, c, rest);
      assert s[..|p|] == p && s[|p| + 1..] == rest;
      assert SplitAll(s, c) == [p] + SplitAll(rest, c);
      assert parts == [p] + tail;
    }
  }

  /** Joining two non-empty lists is joining each and putting sep between. */
  lemma {:induction false} JoinAppend(a: seq<string>, b: seq<string>, sep: string)
    requires a != [] && b != []
    ensures Join(a + b, sep) == Join(a, sep) + sep + Join(b, sep)
  {
    if |a| == 1 {
      assert (a + b)[1..] == b;
    } else {
      assert (a + b)[1..] == a[1..] + b;
      JoinAppend(a[1..], b, sep);
    }
  }

  /** A character in no piece and not in sep is not in the join. */
  lemma {:induction false} JoinAvoids(parts: seq<string>, sep: string, c: char)
    requires c !in sep && forall k :: 0 <= k < |parts| ==> c !in parts[k]
    ensures c !in Join(parts, sep)
  {
    if |parts| > 1 {
      JoinAvoids(parts[1..], sep, c);
    }
  }

  /** The characters matched by Java's regular expression `\s`. */
  predicate IsJavaWhitespace(ch: char)
  {
    ch == ' ' || ch == '\t' || ch == '\n' || ch == '\U{0B}' || ch == '\U{0C}' || ch == '\r'
  }

  predicate HasWhitespace(s: string)
  {
    exists i :: 0 <= i < |s| && IsJavaWhitespace(s[i])
  }

  /** Length of the longest prefix of s with no whitespace. */
  function WordLength(s: string): (k: nat)
    ensures k <= |s|
    ensures forall i :: 0 <= i < k ==> !IsJavaWhitespace(s[i])
    ensures k < |s| ==> IsJavaWhitespace(s[k])
  {
    if s == [] || IsJavaWhitespace(s[0]) then 0 else WordLength(s[1..]) + 1
  }

  /** The maximal runs of non-whitespace characters of s, in order. */
  function Words(s: string): (ws: seq<string>)
    ensures forall k :: 0 <= k < |ws| ==> ws[k] != "" && !HasWhitespace(ws[k])
    decreases |s|
  {
    if s == [] then []
    else if IsJavaWhitespace(s[0]) then Words(s[1..])
    else
      var k := WordLength(s);
      [s[..k]] + Words(s[k..])
  }

  /** `s.split("\\s+")`: a string with no whitespace splits into itself;
      otherwise the words of s, preceded by an empty string when s starts
      with whitespace and has a word at all (Java keeps the empty leading
      piece of a positive-width match at index 0 and drops trailing empty
      pieces). */
  function JavaSplitWhitespace(s: string): (r: seq<string>)
    ensures !HasWhitespace(s) ==> r == [s]
  {
    if !HasWhitespace(s) then [s]
    else
      var ws := Words(s);
      if IsJavaWhitespace(s[0]) && ws != [] then [""] + ws else ws
  }

  /** A whitespace-free prefix followed by whitespace (or nothing) is the
      first word. */
  lemma {:induction false} WordLengthOf(p: string, t: string)
    requires !HasWhitespace(p)
    requires t == [] || IsJavaWhitespace(t[0])
    ensures WordLength(p + t) == |p|
  {
    if p != [] {
      assert !IsJavaWhitespace(p[0]);
      assert (p + t)[1..] == p[1..] + t;
      assert !HasWhitespace(p[1..]) by {
        forall i | 0 <= i < |p[1..]| ensures !IsJavaWhitespace(p[1..][i]) {
          assert p[1..][i] == p[i + 1];
        }
      }
      WordLengthOf(p[1..], t);
    } else {
      assert p + t == t;
    }
  }

  /** Words written with a separator of whitespace are read back. */
  lemma {:induction false} WordsOfJoin(parts: seq<string>, sep: string)
    requires forall k :: 0 <= k < |parts| ==> parts[k] != "" && !HasWhitespace(parts[k])
    requires sep != [] && forall i :: 0 <= i < |sep| ==> IsJavaWhitespace(sep[i])
    ensures Words(Join(parts, sep)) == parts
    decreases |parts|
  {
    if parts == [] {
    } else if |parts| == 1 {
      WordLengthOf(parts[0], []);
      assert parts[0] + [] == parts[0];
      assert Join(parts, sep) == parts[0];
      assert Join(parts, sep)[..|parts[0]|] == parts[0];
      assert Join(parts, sep)[|parts[0]|..] == [];
    } else {
      var p := parts[0];
      var rest := Join(parts[1..], sep);
      var s := p + (sep + rest);
      assert Join(parts, sep) == s;
      WordLengthOf(p, sep + rest);
      assert !IsJavaWhitespace(s[0]) by { assert s[0] == p[0]; }
      assert s[..|p|] == p;
      assert s[|p|..] == sep + rest;
      WordsAfterWhitespace(sep, rest);
      WordsOfJoin(parts[1..], sep);
      assert parts == [p] + parts[1..];
    }
  }

  /** Leading whitespace is skipped by Words. */
  lemma {:induction false} WordsAfterWhitespace(w: string, t: string)
    requires forall i :: 0 <= i < |w| ==> IsJavaWhitespace(w[i])
    ensures Words(w + t) == Words(t)
    decreases |w|
  {
    if w != [] {
      assert (w + t)[0] == w[0];
      assert (w + t)[1..] == w[1..] + t;
      WordsAfterWhitespace(w[1..], t);
    } else {
      assert w + t == t;
    }
  }

  /** Splitting on whitespace reads back fields joined by whitespace. */
  lemma SplitWhitespaceOfJoin(parts: seq<string>, sep: string)
    requires parts != []
    requires forall k :: 0 <= k < |parts| ==> parts[k] != "" && !HasWhitespace(parts[k])
    requires sep != [] && forall i :: 0 <= i < |sep| ==> IsJavaWhitespace(sep[i])
    ensures JavaSplitWhitespace(Join(parts, sep)) == parts
  {
    WordsOfJoin(parts, sep);
    var s := Join(parts, sep);
    if |parts| == 1 {
      assert s == parts[0];
    } else {
      assert s == parts[0] + sep + Join(parts[1..], sep);
      assert s[0] == parts[0][0];
      assert IsJavaWhitespace(s[|parts[0]|]) by { assert s[|parts[0]|] == sep[0]; }
    }
  }
}
