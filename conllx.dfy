/** One token of a CoNLL-X formatted file: ten fields of a line, with the
    dummy value "_" standing for a missing optional field. */
module CoNLLX {
  import opened Wrappers
  import opened JavaLang

  /** A token. The optional fields (LEMMA, FEATS, PHEAD, PDEPREL) are
      `None` where the source holds null; the getters are the destructors. */
  datatype Token = Token(
    id: int,
    form: string,
    lemmaStr: Option<string>,
    cpostag: string,
    postag: string,
    feats: Option<set<string>>,
    head: int,
    deprel: string,
    phead: Option<string>,
    pdeprel: Option<string>)

  /** `fromUnderscoreString`: "_" is the null representation. */
  function FromUnderscore(value: string): (r: Option<string>)
    ensures r == None <==> value == "_"
  {
    if value == "_" then None else Some(value)
  }

  /** `toUnderscoreString`: null is written "_". */
  function ToUnderscore(value: Option<string>): (r: string)
    ensures value.Some? && value.value != "_" ==> r != "_"
  {
    if value.None? then "_" else value.value
  }

  /** Writing a read field gives the field back. */
  lemma ToFromUnderscore(value: string)
    ensures ToUnderscore(FromUnderscore(value)) == value
  {
  }

  /** Reading a written value gives it back, except an explicit "_", which
      reads as missing. */
  lemma FromToUnderscore(value: Option<string>)
    ensures FromUnderscore(ToUnderscore(value)) == value <==> value != Some("_")
  {
  }

  /** `getFeats`: null stays null; otherwise the set of the pieces that
      `split` gives: `SplitAtEveryChar` below as written, `SplitAtBars` as
      intended. */
  function Feats(featsStr: Option<string>, split: string -> seq<string>): (r: Option<set<string>>)
    ensures r.None? <==> featsStr.None?
    ensures r.Some? ==> forall x :: x in r.value <==> x in split(featsStr.value)
  {
    match featsStr
    case None => None
    case Some(s) => Some(set x | x in split(s))
  }

  /** `getFeatsString`: "_" for a missing or empty set, otherwise the
      elements joined by "|" in the set's iteration order, which is
      `iterate` (the hash order of the set is not part of this model). */
  function FeatsString(feats: Option<set<string>>, iterate: set<string> -> seq<string>): (r: string)
    ensures feats.None? || feats == Some({}) ==> r == "_"
  {
    if feats.None? || feats.value == {} then "_" else Join(iterate(feats.value), "|")
  }

  /** The elements of xs are exactly those of the set s. */
  predicate Enumerates(xs: seq<string>, s: set<string>)
  {
    (forall x :: x in xs ==> x in s) && (forall x :: x in s ==> x in xs)
  }

  /** When the iteration lists the set and no element holds a bar, the
      written FEATS field splits at its bars back into the set. */
  lemma FeatsStringSplits(s: set<string>, iterate: set<string> -> seq<string>)
    requires s != {} && Enumerates(iterate(s), s)
    requires forall x :: x in s ==> '|' !in x
    ensures FeatsString(Some(s), iterate) != "_" || s == {"_"}
    ensures forall x :: x in SplitAll(FeatsString(Some(s), iterate), '|') <==> x in s
  {
    var xs := iterate(s);
    var x0 :| x0 in s;
    assert x0 in xs;
    forall k | 0 <= k < |xs| ensures '|' !in xs[k] {
      assert xs[k] in s;
    }
    SplitAllJoin(xs, '|');
    if FeatsString(Some(s), iterate) == "_" {
      assert SplitAll("_", '|') == ["_"];
      forall x | x in s ensures x == "_" {
        assert x in xs;
      }
    }
  }

  /** The splitting of FEATS as written, `verticalBar.split(s)` with the
      pattern "|": an alternation of two empty expressions, which matches
      the empty string at every position, so the pieces are the single
      characters of s (no leading empty piece, as in Java 8 and later); the
      empty string gives one empty piece. */
  function SplitAtEveryChar(s: string): (r: seq<string>)
    ensures s != "" ==> |r| == |s| && forall k :: 0 <= k < |s| ==> r[k] == [s[k]]
    ensures s == "" ==> r == [""]
  {
    if s == "" then [""] else seq(|s|, k requires 0 <= k < |s| => [s[k]])
  }

  /** The splitting of FEATS as the file format intends it: at every bar. */
  function SplitAtBars(s: string): (r: seq<string>)
    ensures |r| > 0 && forall k :: 0 <= k < |r| ==> '|' !in r[k]
  {
    SplitAll(s, '|')
  }

  /** As written, a FEATS field with a bar yields the bar itself as a
      feature, where splitting at the bars never does. */
  lemma FeatsAsWrittenHoldBar(s: string)
    requires '|' in s
    ensures "|" in Feats(Some(s), SplitAtEveryChar).value
    ensures "|" !in Feats(Some(s), SplitAtBars).value
  {
    var k :| 0 <= k < |s| && s[k] == '|';
    assert SplitAtEveryChar(s)[k] == "|";
  }

  /** With the split at bars, writing a non-empty set of bar-free features
      and reading the field back gives the set. */
  lemma FeatsRoundTrip(s: set<string>, iterate: set<string> -> seq<string>)
    requires s != {} && s != {"_"} && Enumerates(iterate(s), s)
    requires forall x :: x in s ==> '|' !in x
    ensures Feats(FromUnderscore(FeatsString(Some(s), iterate)), SplitAtBars) == Some(s)
  {
    FeatsStringSplits(s, iterate);
    var f := FeatsString(Some(s), iterate);
    assert FromUnderscore(f) == Some(f);
    assert Feats(Some(f), SplitAtBars).value == s;
  }

  /** The line constructor: the line split at runs of whitespace, with an
      exception from the first access that fails, in the source's order:
      field 1 parsed as ID, fields 2 to 6 read, field 7 parsed as HEAD,
      fields 8 to 10 read. Extra fields are ignored. */
  function FromLine(line: string, split: string -> seq<string>): (r: Result<Token>)
    ensures r.Ok? ==> |JavaSplitWhitespace(line)| >= 10
  {
    var splits := JavaSplitWhitespace(line);
    if |splits| < 1 then Throw(IndexOutOfBounds)
    else if ParseInt(splits[0]).None? then Throw(NumberFormat)
    else if |splits| < 7 then Throw(IndexOutOfBounds)
    else if ParseInt(splits[6]).None? then Throw(NumberFormat)
    else if |splits| < 10 then Throw(IndexOutOfBounds)
    else Ok(Token(
      ParseInt(splits[0]).value,
      splits[1],
      FromUnderscore(splits[2]),
      splits[3],
      splits[4],
      Feats(FromUnderscore(splits[5]), split),
      ParseInt(splits[6]).value,
      splits[7],
      FromUnderscore(splits[8]),
      FromUnderscore(splits[9])))
  }

  /** A line is accepted exactly when it has ten fields and integer ID and
      HEAD; then every field is read from its column, the optional ones
      with "_" as missing. */
  lemma FromLineFields(line: string, split: string -> seq<string>)
    ensures var splits := JavaSplitWhitespace(line);
      FromLine(line, split).Ok? <==>
        |splits| >= 10 && ParseInt(splits[0]).Some? && ParseInt(splits[6]).Some?
    ensures var splits := JavaSplitWhitespace(line);
      FromLine(line, split).Ok? ==>
        var t := FromLine(line, split).value;
        Some(t.id) == ParseInt(splits[0]) && Some(t.head) == ParseInt(splits[6])
        && t.form == splits[1] && t.cpostag == splits[3] && t.postag == splits[4] && t.deprel == splits[7]
        && ToUnderscore(t.lemmaStr) == splits[2] && ToUnderscore(t.phead) == splits[8] && ToUnderscore(t.pdeprel) == splits[9]
        && (t.feats.None? <==> splits[5] == "_")
  {
  }

  /** A line with fewer than ten fields is rejected. */
  lemma ShortLineRejected(line: string, split: string -> seq<string>)
    requires |JavaSplitWhitespace(line)| < 10
    ensures FromLine(line, split).Throw?
    ensures FromLine(line, split).ex == IndexOutOfBounds || FromLine(line, split).ex == NumberFormat
  {
  }

  /** The ten fields of a token as its file line holds them, with the FEATS
      column given as written. */
  function Fields(t: Token, featsField: string): (r: seq<string>)
    ensures |r| == 10
  {
    [IntToString(t.id), t.form, ToUnderscore(t.lemmaStr), t.cpostag, t.postag, featsField,
     IntToString(t.head), t.deprel, ToUnderscore(t.phead), ToUnderscore(t.pdeprel)]
  }

  /** A field that can be written in a line: not empty and without
      whitespace. */
  predicate Writable(s: string)
  {
    s != "" && !HasWhitespace(s)
  }

  lemma IntToStringWritable(v: int)
    ensures Writable(IntToString(v))
    decreases if v < 0 then 1 else 0
  {
    if v < 0 {
      IntToStringWritable(-v);
      assert IntToString(v) == "-" + IntToString(-v);
      assert forall i :: 1 <= i < |IntToString(v)| ==> IntToString(v)[i] == IntToString(-v)[i - 1];
    } else {
      var s := Digits(v);
      assert forall i :: 0 <= i < |s| ==> IsDigit(s[i]);
    }
  }

  /** A token whose fields are writable, written as a tab-separated line,
      is read back by the line constructor (FEATS is read from the written
      column by `split`). */
  lemma FromLineOfFields(t: Token, featsField: string, split: string -> seq<string>)
    requires IsInt32(t.id) && IsInt32(t.head)
    requires Writable(t.form) && Writable(t.cpostag) && Writable(t.postag) && Writable(t.deprel) && Writable(featsField)
    requires forall o :: o in [t.lemmaStr, t.phead, t.pdeprel] && o.Some? ==> Writable(o.value) && o.value != "_"
    ensures FromLine(Join(Fields(t, featsField), "\t"), split) == Ok(t.(feats := Feats(FromUnderscore(featsField), split)))
  {
    FieldsWritable(t, featsField);
    SplitWhitespaceOfJoin(Fields(t, featsField), "\t");
    ParseIntOfIntToString(t.id);
    ParseIntOfIntToString(t.head);
  }

  /** Each of the ten written columns of such a token is a writable field. */
  lemma FieldsWritable(t: Token, featsField: string)
    requires IsInt32(t.id) && IsInt32(t.head)
    requires Writable(t.form) && Writable(t.cpostag) && Writable(t.postag) && Writable(t.deprel) && Writable(featsField)
    requires forall o :: o in [t.lemmaStr, t.phead, t.pdeprel] && o.Some? ==> Writable(o.value) && o.value != "_"
    ensures |Fields(t, featsField)| == 10
    ensures forall k :: 0 <= k < 10 ==> Writable(Fields(t, featsField)[k])
  {
    var fs := Fields(t, featsField);
    IntToStringWritable(t.id);
    IntToStringWritable(t.head);
    assert t.lemmaStr in [t.lemmaStr, t.phead, t.pdeprel];
    assert t.phead in [t.lemmaStr, t.phead, t.pdeprel];
    assert t.pdeprel in [t.lemmaStr, t.phead, t.pdeprel];
    assert Writable("_") by {
      assert !IsJavaWhitespace("_"[0]);
    }
    forall k | 0 <= k < 10 ensures Writable(fs[k]) {
    }
  }
}
