/** The train/dev/test corpus handler: which splits are configured, the
    caches of each split, the random split of the training data into a dev
    sample and the rest, and the parsing of annotation-type lists. */
module CorpusHandlers {
  import opened Wrappers
  import opened JavaLang
  import opened TemplateLanguage

  /* ---------------- Annotation-type lists ---------------- */

  /** The `name()` of each annotation type. */
  function AtName(a: AnnoType): (s: string)
    ensures s != "" && ',' !in s
  {
    match a
    case AtWord => "WORD" case AtLemma => "LEMMA" case AtPos => "POS" case AtBrown => "BROWN"
    case AtMorpho => "MORPHO" case AtDepTree => "DEP_TREE" case AtLabelDepTree => "LABEL_DEP_TREE"
  }

  /** `AT.valueOf(s)`: the constant of that exact name, or
      IllegalArgumentException. */
  function AtValueOf(s: string): (r: Result<AnnoType>)
    ensures r.Ok? ==> AtName(r.value) == s
    ensures r.Throw? ==> r.ex == IllegalArgument
  {
    if s == "WORD" then Ok(AtWord)
    else if s == "LEMMA" then Ok(AtLemma)
    else if s == "POS" then Ok(AtPos)
    else if s == "BROWN" then Ok(AtBrown)
    else if s == "MORPHO" then Ok(AtMorpho)
    else if s == "DEP_TREE" then Ok(AtDepTree)
    else if s == "LABEL_DEP_TREE" then Ok(AtLabelDepTree)
    else Throw(IllegalArgument)
  }

  /** Every constant is found by its name, so valueOf and name() are
      inverse. */
  lemma AtValueOfName(a: AnnoType)
    ensures AtValueOf(AtName(a)) == Ok(a)
  {
  }

  /** The types named by the pieces, in order; the first unknown name
      raises. */
  function ValuesOf(names: seq<string>): (r: Result<seq<AnnoType>>)
    ensures r.Ok? <==> forall k :: 0 <= k < |names| ==> AtValueOf(names[k]).Ok?
    ensures r.Ok? ==> |r.value| == |names| && forall k :: 0 <= k < |names| ==> AtName(r.value[k]) == names[k]
    ensures r.Throw? ==> r.ex == IllegalArgument
  {
    if names == [] then Ok([])
    else
      var last := AtValueOf(names[|names| - 1]);
      var init := ValuesOf(names[..|names| - 1]);
      assert forall k :: 0 <= k < |names| - 1 ==> names[..|names| - 1][k] == names[k];
      if init.Throw? then init
      else if last.Throw? then Throw(last.ex)
      else Ok(init.value + [last.value])
  }

  /** `getAts(atsStr)`: null gives the empty list; otherwise the string is
      split at commas and each piece is looked up with valueOf. */
  method GetAts(atsStr: Option<string>) returns (r: Result<seq<AnnoType>>)
    ensures atsStr.None? ==> r == Ok([])
    ensures atsStr.Some? ==> r == ValuesOf(JavaSplitChar(atsStr.value, ','))
  {
    if atsStr.None? {
      return Ok([]);
    }
    var splits := JavaSplitChar(atsStr.value, ',');
    var ats: seq<AnnoType> := [];
    var i := 0;
    while i < |splits|
      invariant 0 <= i <= |splits|
      invariant ValuesOf(splits[..i]) == Ok(ats)
    {
      assert splits[..i + 1][..i] == splits[..i];
      var a := AtValueOf(splits[i]);
      if a.Throw? {
        assert !ValuesOf(splits).Ok?;
        return Throw(a.ex);
      }
      ats := ats + [a.value];
      i := i + 1;
    }
    assert splits[..i] == splits;
    r := Ok(ats);
  }

  /** The names of a list of types. */
  function Names(ats: seq<AnnoType>): (r: seq<string>)
    ensures |r| == |ats| && forall k :: 0 <= k < |ats| ==> r[k] == AtName(ats[k])
  {
    if ats == [] then [] else [AtName(ats[0])] + Names(ats[1..])
  }

  /** A non-empty list of types written comma-separated is read back by
      getAts. (The empty list is written "", which getAts rejects, since
      "".split(",") is [""].) */
  lemma GetAtsOfJoin(ats: seq<AnnoType>)
    ensures ats != [] ==> ValuesOf(JavaSplitChar(Join(Names(ats), ","), ',')) == Ok(ats)
    ensures ats == [] ==> ValuesOf(JavaSplitChar(Join(Names(ats), ","), ',')).Throw?
  {
    var names := Names(ats);
    if ats != [] {
      SplitJoinNames(names);
      ValuesOfNames(ats);
    } else {
      assert Join(names, ",") == "";
      assert JavaSplitChar("", ',') == [""];
    }
  }

  /** Comma-free, non-empty names joined by commas split back. */
  lemma SplitJoinNames(names: seq<string>)
    requires names != [] && forall k :: 0 <= k < |names| ==> names[k] != "" && ',' !in names[k]
    ensures JavaSplitChar(Join(names, ","), ',') == names
  {
    SplitAllJoin(names, ',');
    var s := Join(names, ",");
    if |names| == 1 {
      assert s == names[0];
    } else {
      assert s == names[0] + "," + Join(names[1..], ",");
      assert s[|names[0]|] == ',';
      assert names[|names| - 1] != "";
    }
  }

  /** Looking up the names of types gives the types. */
  lemma ValuesOfNames(ats: seq<AnnoType>)
    ensures ValuesOf(Names(ats)) == Ok(ats)
  {
    var names := Names(ats);
    forall k | 0 <= k < |names| ensures AtValueOf(names[k]) == Ok(ats[k]) {
      AtValueOfName(ats[k]);
    }
    var r := ValuesOf(names);
    forall k | 0 <= k < |ats| ensures r.value[k] == ats[k] {
      assert AtValueOf(AtName(r.value[k])) == Ok(r.value[k]) by { AtValueOfName(r.value[k]); }
    }
    assert r.value == ats;
  }

  /* ---------------- Splitting the training data ---------------- */

  /** `Math.ceil` followed by the cast to int, on the reals. */
  function Ceil(x: real): (n: int)
    ensures n as real >= x && (n - 1) as real < x
  {
    var f := x.Floor;
    if f as real == x then f else f + 1
  }

  lemma MulNonNegative(a: real, b: real)
    requires a >= 0.0 && b >= 0.0
    ensures a * b >= 0.0
  {
  }

  /** The number of dev examples asked of the sampler: ceil(prop * n),
      between 0 and n for a valid proportion. */
  function NumDev(prop: real, n: nat): (k: int)
    ensures 0.0 <= prop <= 1.0 ==> 0 <= k <= n
  {
    var x := prop * n as real;
    assert 0.0 <= prop <= 1.0 ==> 0.0 <= x <= n as real by {
      if 0.0 <= prop <= 1.0 {
        var m := n as real;
        MulNonNegative(prop, m);
        MulNonNegative(1.0 - prop, m);
        assert x + (1.0 - prop) * m == m;
      }
    }
    Ceil(x)
  }

  /** The two lists the loop fills: element i goes to the first iff
      isDev[i]. */
  function SplitByMask<T>(xs: seq<T>, isDev: seq<bool>): (r: (seq<T>, seq<T>))
    requires |xs| <= |isDev|
    ensures |r.0| + |r.1| == |xs|
  {
    if xs == [] then ([], [])
    else
      var n := |xs|;
      var p := SplitByMask(xs[..n - 1], isDev);
      if isDev[n - 1] then (p.0 + [xs[n - 1]], p.1) else (p.0, p.1 + [xs[n - 1]])
  }

  /** The number of trues among the first n entries of the mask. */
  function CountTrue(isDev: seq<bool>, n: nat): (c: nat)
    requires n <= |isDev|
    ensures c <= n
  {
    if n == 0 then 0 else CountTrue(isDev, n - 1) + (if isDev[n - 1] then 1 else 0)
  }

  /** Interleaving the two lists by the mask, the reverse of the split. */
  function Unsplit<T>(a: seq<T>, b: seq<T>, isDev: seq<bool>, n: nat): seq<T>
    requires n <= |isDev| && |a| == CountTrue(isDev, n) && |a| + |b| == n
  {
    if n == 0 then []
    else if isDev[n - 1] then Unsplit(a[..|a| - 1], b, isDev, n - 1) + [a[|a| - 1]]
    else Unsplit(a, b[..|b| - 1], isDev, n - 1) + [b[|b| - 1]]
  }

  /** The split keeps every element exactly once and in its order: the
      first list holds as many elements as the mask has trues, and
      interleaving the two lists by the mask gives the input back. */
  lemma {:induction false} SplitByMaskUnsplit<T>(xs: seq<T>, isDev: seq<bool>)
    requires |xs| <= |isDev|
    ensures |SplitByMask(xs, isDev).0| == CountTrue(isDev, |xs|)
    ensures Unsplit(SplitByMask(xs, isDev).0, SplitByMask(xs, isDev).1, isDev, |xs|) == xs
  {
    if xs != [] {
      SplitByMaskUnsplit(xs[..|xs| - 1], isDev);
      SplitByMaskUnsplitStep(xs, isDev);
    }
  }

  /** The last element of a nonempty input: its split adds it to one list,
      and the interleaving takes it back from there. */
  lemma SplitByMaskUnsplitStep<T>(xs: seq<T>, isDev: seq<bool>)
    requires 0 < |xs| <= |isDev|
    requires |SplitByMask(xs[..|xs| - 1], isDev).0| == CountTrue(isDev, |xs| - 1)
    requires Unsplit(SplitByMask(xs[..|xs| - 1], isDev).0, SplitByMask(xs[..|xs| - 1], isDev).1, isDev, |xs| - 1) == xs[..|xs| - 1]
    ensures |SplitByMask(xs, isDev).0| == CountTrue(isDev, |xs|)
    ensures Unsplit(SplitByMask(xs, isDev).0, SplitByMask(xs, isDev).1, isDev, |xs|) == xs
  {
    var n := |xs|;
    var p := SplitByMask(xs[..n - 1], isDev);
    var r := SplitByMask(xs, isDev);
    if isDev[n - 1] {
      assert r.0[..|r.0| - 1] == p.0;
    } else {
      assert r.1[..|r.1| - 1] == p.1;
    }
    assert xs == xs[..n - 1] + [xs[n - 1]];
  }

  /** The elements split off are exactly the input's, counted with
      multiplicity. */
  lemma {:induction false} SplitByMaskPermutes<T>(xs: seq<T>, isDev: seq<bool>)
    requires |xs| <= |isDev|
    ensures multiset(SplitByMask(xs, isDev).0) + multiset(SplitByMask(xs, isDev).1) == multiset(xs)
  {
    if xs != [] {
      var n := |xs|;
      SplitByMaskPermutes(xs[..n - 1], isDev);
      assert xs == xs[..n - 1] + [xs[n - 1]];
    }
  }

  /** A list a caller passes in and the source appends to. */
  class ListOf<T> {
    var items: seq<T>

    constructor()
      ensures items == []
    {
      items := [];
    }
  }

  /** `sample(inList, prop, outList1, outList2)`. The random mask of
      `Sample.sampleWithoutReplacementBooleans(numDev, n)` is `sampler`.
      A proportion outside [0, 1] raises IllegalStateException before
      anything is added; a mask shorter than the list raises
      ArrayIndexOutOfBoundsException after the elements it covers. */
  method Sample<T>(inList: seq<T>, prop: real, sampler: (int, int) -> seq<bool>, outList1: ListOf<T>, outList2: ListOf<T>)
    returns (r: Outcome)
    requires outList1 != outList2
    modifies outList1, outList2
    ensures prop < 0.0 || 1.0 < prop ==> r == Fail(IllegalState) && outList1.items == old(outList1.items) && outList2.items == old(outList2.items)
    ensures 0.0 <= prop <= 1.0 ==>
      var isDev := sampler(NumDev(prop, |inList|), |inList|);
      var m := if |isDev| < |inList| then |isDev| else |inList|;
      var p := SplitByMask(inList[..m], isDev);
      r == (if m < |inList| then Fail(IndexOutOfBounds) else Done)
      && outList1.items == old(outList1.items) + p.0
      && outList2.items == old(outList2.items) + p.1
  {
    if prop < 0.0 || 1.0 < prop {
      return Fail(IllegalState);
    }
    var numDev := NumDev(prop, |inList|);
    var isDev := sampler(numDev, |inList|);
    var i := 0;
    while i < |inList|
      invariant 0 <= i <= |inList| && i <= |isDev|
      invariant outList1.items == old(outList1.items) + SplitByMask(inList[..i], isDev).0
      invariant outList2.items == old(outList2.items) + SplitByMask(inList[..i], isDev).1
    {
      if i >= |isDev| {
        return Fail(IndexOutOfBounds);
      }
      assert inList[..i + 1][..i] == inList[..i];
      if isDev[i] {
        outList1.items := outList1.items + [inList[i]];
      } else {
        outList2.items := outList2.items + [inList[i]];
      }
      i := i + 1;
    }
    assert inList[..i] == inList;
    r := Done;
  }

  /* ---------------- Configured splits ---------------- */

  /** The static options that decide which splits exist: whether each input
      file and dataset type is set (non-null), propTrainAsDev, and the
      annotation-type lists removeAts and predAts (null is `None`). */
  datatype Options = Options(
    train: bool, trainType: bool,
    dev: bool, devType: bool,
    test: bool, testType: bool,
    propTrainAsDev: real,
    removeAts: Option<string>, predAts: Option<string>)

  /** What `getAts(atsStr)` returns: the empty list for null, otherwise
      the types named between the commas (`GetAts` computes it). */
  function AtsOf(atsStr: Option<string>): Result<seq<AnnoType>>
  {
    if atsStr.None? then Ok([]) else ValuesOf(JavaSplitChar(atsStr.value, ','))
  }

  /** Whether `getAts(removeAts)` and `getAts(predAts)`, which every load
      calls to build the input sentences, both succeed. */
  predicate AtsValid(o: Options)
  {
    AtsOf(o.removeAts).Ok? && AtsOf(o.predAts).Ok?
  }

  /** `hasTrain()`: a training file and its dataset type are both set. */
  function HasTrain(o: Options): bool
  {
    o.train && o.trainType
  }

  /** `hasTest()`: a test file and its dataset type are both set. */
  function HasTest(o: Options): bool
  {
    o.test && o.testType
  }

  /** `hasDev()`: a dev file, or training data with a positive proportion
      set aside as dev. */
  function HasDev(o: Options): bool
  {
    (o.dev && o.devType) || (o.train && o.trainType && o.propTrainAsDev > 0.0)
  }

  /** Whether `loadTrain` samples part of the training data off as dev. */
  predicate SplitsTrain(o: Options)
  {
    HasTrain(o) && o.propTrainAsDev > 0.0
  }

  /** The training sentences `loadTrain` caches as gold, given the
      sentences read from the training file and the sampler's mask: the
      part the mask does not set aside when the data is split, all of them
      otherwise. `sample` raises IllegalStateException for a proportion
      above 1; then `getAts` raises IllegalArgumentException for an
      unknown annotation type in removeAts or predAts. */
  function TrainGold<T>(o: Options, trainSents: seq<T>, isDev: seq<bool>): (r: Result<seq<T>>)
    requires |trainSents| <= |isDev|
  {
    if SplitsTrain(o) && o.propTrainAsDev > 1.0 then Throw(IllegalState)
    else if !AtsValid(o) then Throw(IllegalArgument)
    else if SplitsTrain(o) then Ok(SplitByMask(trainSents, isDev).1)
    else Ok(trainSents)
  }

  /** The dev sentences `loadDev` caches as gold on a handler that has
      loaded nothing yet: the dev file's sentences when a dev file and type
      are set (`readDev`, whose `getAts` may raise first), then (through
      `loadTrainAsDev`, which runs `loadTrain`) the training sentences the
      mask sets aside, appended to a new collection if there was no dev
      file. `None` is the null left when neither runs. */
  function DevGold<T>(o: Options, devSents: seq<T>, trainSents: seq<T>, isDev: seq<bool>): (r: Result<Option<seq<T>>>)
    requires |trainSents| <= |isDev|
  {
    var fromFile: Option<seq<T>> := if o.dev && o.devType then Some(devSents) else None;
    if fromFile.Some? && !AtsValid(o) then Throw(IllegalArgument)
    else if !SplitsTrain(o) then Ok(fromFile)
    else if o.propTrainAsDev > 1.0 then Throw(IllegalState)
    else if !AtsValid(o) then Throw(IllegalArgument)
    else
      var base := if fromFile.Some? then fromFile.value else [];
      Ok(Some(base + SplitByMask(trainSents, isDev).0))
  }

  /** `hasDev()` says exactly whether `getDevGold()` has dev data: when
      loading the dev split succeeds, it leaves a non-null collection iff
      `hasDev()`. It fails only when something is loaded and either the
      split's proportion is above 1 (IllegalStateException) or an
      annotation-type list names an unknown type
      (IllegalArgumentException). */
  lemma DevGoldIffHasDev<T>(o: Options, devSents: seq<T>, trainSents: seq<T>, isDev: seq<bool>)
    requires |trainSents| <= |isDev|
    ensures DevGold(o, devSents, trainSents, isDev).Throw? <==>
      (SplitsTrain(o) && o.propTrainAsDev > 1.0) || (HasDev(o) && !AtsValid(o))
    ensures DevGold(o, devSents, trainSents, isDev).Throw? && AtsValid(o) ==>
      DevGold(o, devSents, trainSents, isDev).ex == IllegalState
    ensures DevGold(o, devSents, trainSents, isDev).Throw? && !(SplitsTrain(o) && o.propTrainAsDev > 1.0) ==>
      DevGold(o, devSents, trainSents, isDev).ex == IllegalArgument
    ensures DevGold(o, devSents, trainSents, isDev).Ok? ==>
      (DevGold(o, devSents, trainSents, isDev).value.Some? <==> HasDev(o))
  {
  }

  /** With training data and a proportion in (0, 1], loading succeeds
      exactly when the annotation-type lists are valid, and then the
      training sentences are shared out between train and dev: every
      sentence read goes to exactly one of them, the dev split is the dev
      file's sentences followed by the sampled ones, and without a dev file
      it is the sampled ones alone. */
  lemma {:induction false} TrainDevSplit<T>(o: Options, devSents: seq<T>, trainSents: seq<T>, isDev: seq<bool>)
    requires |trainSents| <= |isDev|
    requires HasTrain(o) && 0.0 < o.propTrainAsDev <= 1.0
    ensures TrainGold(o, trainSents, isDev).Ok? <==> AtsValid(o)
    ensures DevGold(o, devSents, trainSents, isDev).Ok? <==> AtsValid(o)
    ensures AtsValid(o) ==>
      var dev := DevGold(o, devSents, trainSents, isDev).value;
      var sampled := SplitByMask(trainSents, isDev).0;
      dev.Some?
      && dev.value == (if o.dev && o.devType then devSents else []) + sampled
      && multiset(TrainGold(o, trainSents, isDev).value) + multiset(sampled) == multiset(trainSents)
  {
    SplitByMaskPermutes(trainSents, isDev);
  }

  /** Without the split, the training data is kept whole and the dev split
      is the dev file alone (null without one); only an unknown annotation
      type makes loading fail. */
  lemma NoSplitKeepsTrain<T>(o: Options, devSents: seq<T>, trainSents: seq<T>, isDev: seq<bool>)
    requires |trainSents| <= |isDev|
    requires !HasTrain(o) || o.propTrainAsDev <= 0.0
    ensures TrainGold(o, trainSents, isDev) == if AtsValid(o) then Ok(trainSents) else Throw(IllegalArgument)
    ensures DevGold(o, devSents, trainSents, isDev) ==
      if !(o.dev && o.devType) then Ok(None)
      else if AtsValid(o) then Ok(Some(devSents))
      else Throw(IllegalArgument)
  {
  }

  /** A loaded sentence collection; sentences are not part of this model. */
  type Sentences = seq<int>

  /** The per-split caches of gold and input sentences; `None` is null. */
  class CorpusHandler {
    var trainGoldSents: Option<Sentences>
    var trainInputSents: Option<Sentences>
    var devGoldSents: Option<Sentences>
    var devInputSents: Option<Sentences>
    var testGoldSents: Option<Sentences>
    var testInputSents: Option<Sentences>
    var trainAsDevSents: Option<Sentences>

    constructor()
      ensures trainGoldSents == None && trainInputSents == None
      ensures devGoldSents == None && devInputSents == None
      ensures testGoldSents == None && testInputSents == None
      ensures trainAsDevSents == None
    {
      trainGoldSents, trainInputSents := None, None;
      devGoldSents, devInputSents := None, None;
      testGoldSents, testInputSents := None, None;
      trainAsDevSents := None;
    }

    /** `clearTrainCache()`: both train caches reset, nothing else. */
    method ClearTrainCache()
      modifies this
      ensures trainGoldSents == None && trainInputSents == None
      ensures devGoldSents == old(devGoldSents) && devInputSents == old(devInputSents)
      ensures testGoldSents == old(testGoldSents) && testInputSents == old(testInputSents)
      ensures trainAsDevSents == old(trainAsDevSents)
    {
      trainGoldSents := None;
      trainInputSents := None;
    }

    /** `clearDevCache()`: both dev caches reset, nothing else. */
    method ClearDevCache()
      modifies this
      ensures devGoldSents == None && devInputSents == None
      ensures trainGoldSents == old(trainGoldSents) && trainInputSents == old(trainInputSents)
      ensures testGoldSents == old(testGoldSents) && testInputSents == old(testInputSents)
      ensures trainAsDevSents == old(trainAsDevSents)
    {
      devGoldSents := None;
      devInputSents := None;
    }

    /** `clearTestCache()`: both test caches reset, nothing else. */
    method ClearTestCache()
      modifies this
      ensures testGoldSents == None && testInputSents == None
      ensures trainGoldSents == old(trainGoldSents) && trainInputSents == old(trainInputSents)
      ensures devGoldSents == old(devGoldSents) && devInputSents == old(devInputSents)
      ensures trainAsDevSents == old(trainAsDevSents)
    {
      testGoldSents := None;
      testInputSents := None;
    }
  }
}
