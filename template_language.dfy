/** The little language of structured feature templates: the structure
    elements, their descriptions and required annotation levels, the
    feature templates with their names and structures, and the checks of
    which annotations a sentence must carry. */
module TemplateLanguage {
  import opened Wrappers
  import opened JavaLang

  /* ---------------- Structures of the language ---------------- */

  /** Word property: a mapping from a position to a string. */
  datatype TokProperty = Word | Lemma | Pos | Bc0 | Bc1 | Morpho | Deprel | Lc | Unk | Chpre5

  /** Word property list expansion. */
  datatype TokPropList = MorphoList

  /** Directed edge property. */
  datatype EdgeProperty = Dir

  /** Position modifier: a mapping from one position to another. */
  datatype PositionModifier =
    | Identity | Before1 | After1
    | Head | Lns | Rns | Lmc | Rmc | Lnc | Rnc
    | LowSv | LowSn | HighSv | HighSn

  /** Position list: a mapping from one or two positions to a list. */
  datatype PositionList = LinePC | ChildrenP | NoFarChildrenP | PathPC | PathPRoot | PathCRoot | PathLcaRoot

  /** List modifier. */
  datatype ListModifier = SeqMod | Bag | NoDup

  /** Additional features of a parent and child position. */
  datatype OtherFeat = Relative | Distance | Geneology | DepSubCat | PathLen

  /** Positions. */
  datatype Position = Parent | Child

  /** Annotation type (`AT`): a part of an annotated sentence. */
  datatype AnnoType = AtWord | AtLemma | AtPos | AtBrown | AtMorpho | AtDepTree | AtLabelDepTree

  /** A constant of any of the language's enumerations (`Enum<?>`). */
  datatype Elem =
    | TokProp(tp: TokProperty)
    | PropList(tl: TokPropList)
    | Edge(ep: EdgeProperty)
    | Modifier(pm: PositionModifier)
    | PosList(pl: PositionList)
    | ListMod(lm: ListModifier)
    | Other(of: OtherFeat)
    | Place(p: Position)

  /* ---------------- Enum constant names (`name()`) ---------------- */

  function TokPropertyName(p: TokProperty): string
  {
    match p
    case Word => "WORD" case Lemma => "LEMMA" case Pos => "POS" case Bc0 => "BC0" case Bc1 => "BC1"
    case Morpho => "MORPHO" case Deprel => "DEPREL" case Lc => "LC" case Unk => "UNK" case Chpre5 => "CHPRE5"
  }

  function TokPropListName(p: TokPropList): string
  {
    match p
    case MorphoList => "MORPHO"
  }

  function ModifierName(m: PositionModifier): string
  {
    match m
    case Identity => "IDENTITY" case Before1 => "BEFORE1" case After1 => "AFTER1"
    case Head => "HEAD" case Lns => "LNS" case Rns => "RNS" case Lmc => "LMC" case Rmc => "RMC"
    case Lnc => "LNC" case Rnc => "RNC"
    case LowSv => "LOW_SV" case LowSn => "LOW_SN" case HighSv => "HIGH_SV" case HighSn => "HIGH_SN"
  }

  function PositionListName(l: PositionList): string
  {
    match l
    case LinePC => "LINE_P_C" case ChildrenP => "CHILDREN_P" case NoFarChildrenP => "NO_FAR_CHILDREN_P"
    case PathPC => "PATH_P_C" case PathPRoot => "PATH_P_ROOT" case PathCRoot => "PATH_C_ROOT"
    case PathLcaRoot => "PATH_LCA_ROOT"
  }

  function ListModifierName(m: ListModifier): string
  {
    match m
    case SeqMod => "SEQ" case Bag => "BAG" case NoDup => "NO_DUP"
  }

  function OtherFeatName(f: OtherFeat): string
  {
    match f
    case Relative => "RELATIVE" case Distance => "DISTANCE" case Geneology => "GENEOLOGY"
    case DepSubCat => "DEP_SUB_CAT" case PathLen => "PATH_LEN"
  }

  function PositionName(p: Position): string
  {
    match p
    case Parent => "PARENT" case Child => "CHILD"
  }

  /* ---------------- Descriptions ---------------- */

  /** `Description.normalizeName`: every whitespace character removed. */
  function NormalizeName(name: string): (r: string)
    ensures !HasWhitespace(r)
    ensures |r| <= |name|
  {
    if name == [] then ""
    else if IsJavaWhitespace(name[0]) then NormalizeName(name[1..])
    else [name[0]] + NormalizeName(name[1..])
  }

  /** A name is left as it is exactly when it has no whitespace. */
  lemma {:induction false} NormalizeNameFixed(name: string)
    ensures NormalizeName(name) == name <==> !HasWhitespace(name)
  {
    if name != [] {
      NormalizeNameFixed(name[1..]);
      if IsJavaWhitespace(name[0]) {
        assert |NormalizeName(name)| < |name|;
      } else if !HasWhitespace(name[1..]) {
        assert forall i :: 0 < i < |name| ==> name[i] == name[1..][i - 1];
      } else {
        var i :| 0 <= i < |name[1..]| && IsJavaWhitespace(name[1..][i]);
        assert IsJavaWhitespace(name[i + 1]);
        assert NormalizeName(name)[1..] == NormalizeName(name[1..]);
      }
    }
  }

  /** Normalizing twice is normalizing once. */
  lemma NormalizeNameIdempotent(name: string)
    ensures NormalizeName(NormalizeName(name)) == NormalizeName(name)
  {
    NormalizeNameFixed(NormalizeName(name));
  }

  /** A feature-function description; the private constructor stores the
      name normalized. */
  datatype Description = Description(obj: Elem, name: string, description: string, requiredLevels: seq<AnnoType>)

  function Desc(obj: Elem, name: string, description: string, levels: seq<AnnoType>): (d: Description)
    ensures d.obj == obj && d.requiredLevels == levels && d.description == description
    ensures d.name == NormalizeName(name) && !HasWhitespace(d.name)
  {
    Description(obj, NormalizeName(name), description, levels)
  }

  /** The descriptions of the word properties. */
  function TokPropertyDesc(p: TokProperty): (d: Description)
    ensures d.obj == TokProp(p)
  {
    match p
    case Word => Desc(TokProp(Word), "word", "Word", [AtWord])
    case Lemma => Desc(TokProp(Lemma), "lemma", "Lemma", [AtLemma])
    case Pos => Desc(TokProp(Pos), "pos", "POS Tag", [AtPos])
    case Bc0 => Desc(TokProp(Bc0), "bc0", "Coarse-grained Brown cluster", [AtBrown])
    case Bc1 => Desc(TokProp(Bc1), "bc1", "Fine-grained Brown cluster", [AtBrown])
    case Morpho => Desc(TokProp(Morpho), "morpho", "Morphological features", [AtMorpho])
    case Deprel => Desc(TokProp(Deprel), "deprel", "Dependency relation to head", [AtLabelDepTree])
    case Lc => Desc(TokProp(Lc), "lc", "Lower-cased word", [AtWord])
    case Unk => Desc(TokProp(Unk), "unk", "Unknown word class", [AtWord])
    case Chpre5 => Desc(TokProp(Chpre5), "chpre5", "5-character prefix of a word", [AtWord])
  }

  /** The descriptions of the position modifiers. */
  function ModifierDesc(m: PositionModifier): (d: Description)
    ensures d.obj == Modifier(m)
  {
    match m
    case Identity => Desc(Modifier(Identity), "w", "No modification", [AtWord])
    case Before1 => Desc(Modifier(Before1), "-1", "1 before w", [AtWord])
    case After1 => Desc(Modifier(After1), "1", "1 after w", [AtWord])
    case Head => Desc(Modifier(Head), "head", "Syntactic head of w", [AtDepTree])
    case Lns => Desc(Modifier(Lns), "lns", "Left nearest sibling", [AtDepTree])
    case Rns => Desc(Modifier(Rns), "rns", "Right nearest sibling", [AtDepTree])
    case Lmc => Desc(Modifier(Lmc), "lmc", "Leftmost child", [AtDepTree])
    case Rmc => Desc(Modifier(Rmc), "rmc", "Rightmost child", [AtDepTree])
    case Lnc => Desc(Modifier(Lnc), "lnc", "Left nearest child", [AtDepTree])
    case Rnc => Desc(Modifier(Rnc), "rnc", "Right nearest child", [AtDepTree])
    case LowSv => Desc(Modifier(LowSv), "first(t, VERB, path(p, root))", "Low support Verb", [AtPos, AtDepTree])
    case LowSn => Desc(Modifier(LowSn), "first(t, NOUN, path(p, root))", "Low support Noun", [AtPos, AtDepTree])
    case HighSv => Desc(Modifier(HighSv), "first(t, VERB, path(root, p))", "High support Verb", [AtPos, AtDepTree])
    case HighSn => Desc(Modifier(HighSn), "first(t, NOUN, path(root, p))", "High support Noun", [AtPos, AtDepTree])
  }

  /** The descriptions of the position lists. */
  function PositionListDesc(l: PositionList): (d: Description)
    ensures d.obj == PosList(l)
  {
    match l
    case LinePC => Desc(PosList(LinePC), "line(p,c)", "horizontal path between p and c", [AtWord])
    case ChildrenP => Desc(PosList(ChildrenP), "children(p)", "Children of p", [AtDepTree])
    case NoFarChildrenP => Desc(PosList(NoFarChildrenP), "noFarChildren(p)", "children without the leftmost or rightmost included", [AtDepTree])
    case PathPC => Desc(PosList(PathPC), "path(p,c)", "from parent to child", [AtDepTree])
    case PathPRoot => Desc(PosList(PathPRoot), "path(p,root)", "from parent to root", [AtDepTree])
    case PathCRoot => Desc(PosList(PathCRoot), "path(c,root)", "from child to root", [AtDepTree])
    case PathLcaRoot => Desc(PosList(PathLcaRoot), "path(lca(p,c),root)", "from least-common-ancestor to root ", [AtDepTree])
  }

  /** The descriptions of the list modifiers, which need no annotation. */
  function ListModifierDesc(m: ListModifier): (d: Description)
    ensures d.obj == ListMod(m) && d.requiredLevels == []
  {
    match m
    case SeqMod => Desc(ListMod(SeqMod), "seq", "Identity function.", [])
    case Bag => Desc(ListMod(Bag), "bag", "List to set.", [])
    case NoDup => Desc(ListMod(NoDup), "noDup", "Unix “uniq” on original list.", [])
  }

  /** The descriptions of the additional features. */
  function OtherFeatDesc(f: OtherFeat): (d: Description)
    ensures d.obj == Other(f)
  {
    match f
    case Relative => Desc(Other(Relative), "relative(p,c)", "Relative position of p and c: before, after, on.", [AtWord])
    case Distance => Desc(Other(Distance), "distance(p,c)", "Distance binned into greater than: 2, 5, 10, 20, 30, or 40", [AtWord])
    case Geneology => Desc(Other(Geneology), "geneology(p,c)", "geneological relationship between p and c in a syntactic parse: parent, child, ancestor, descendent.", [AtDepTree])
    case DepSubCat => Desc(Other(DepSubCat), "DepSubCat", "DepSubCat from Bjorkelund et al. (2009)", [AtLabelDepTree])
    case PathLen => Desc(Other(PathLen), "len(path(p,c))", "Path length binned into greater than: 2, 5, 10, 20, 30, or 40", [AtDepTree])
  }

  /** The description the static initializer gives each constant. */
  function DescOf(e: Elem): (d: Description)
    ensures d.obj == e
  {
    match e
    case TokProp(p) => TokPropertyDesc(p)
    case PropList(l) => Desc(PropList(l), "morphoExp", "Morphological features", [AtMorpho])
    case Edge(p) => Desc(Edge(p), "dir", "Direction of an edge in a path", [AtDepTree])
    case Modifier(m) => ModifierDesc(m)
    case PosList(l) => PositionListDesc(l)
    case ListMod(m) => ListModifierDesc(m)
    case Other(f) => OtherFeatDesc(f)
    case Place(p) => (match p
      case Parent => Desc(Place(Parent), "p", "Parent", [])
      case Child => Desc(Place(Child), "c", "Child", []))
  }

  function TokProperties(): seq<Elem>
  {
    [TokProp(Word), TokProp(Lemma), TokProp(Pos), TokProp(Bc0), TokProp(Bc1),
     TokProp(Morpho), TokProp(Deprel), TokProp(Lc), TokProp(Unk), TokProp(Chpre5)]
  }

  function Modifiers(): seq<Elem>
  {
    [Modifier(Identity), Modifier(Before1), Modifier(After1),
     Modifier(Head), Modifier(Lns), Modifier(Rns), Modifier(Lmc), Modifier(Rmc), Modifier(Lnc), Modifier(Rnc),
     Modifier(LowSv), Modifier(LowSn), Modifier(HighSv), Modifier(HighSn)]
  }

  function PositionLists(): seq<Elem>
  {
    [PosList(LinePC), PosList(ChildrenP), PosList(NoFarChildrenP), PosList(PathPC),
     PosList(PathPRoot), PosList(PathCRoot), PosList(PathLcaRoot)]
  }

  function ListModifiers(): seq<Elem>
  {
    [ListMod(SeqMod), ListMod(Bag), ListMod(NoDup)]
  }

  function OtherFeats(): seq<Elem>
  {
    [Other(Relative), Other(Distance), Other(Geneology), Other(DepSubCat), Other(PathLen)]
  }

  /** The constants in the order the static initializer describes them. */
  function DescribedElems(): seq<Elem>
  {
    TokProperties() + [PropList(MorphoList), Edge(Dir)] + Modifiers() + PositionLists()
      + ListModifiers() + OtherFeats() + [Place(Parent), Place(Child)]
  }

  /** The `desc` list the static initializer fills, in its order. */
  function Descs(): (r: seq<Description>)
    ensures |r| == |DescribedElems()|
    ensures forall i :: 0 <= i < |r| ==> r[i] == DescOf(DescribedElems()[i]) && r[i].obj == DescribedElems()[i]
  {
    seq(|DescribedElems()|, i requires 0 <= i < |DescribedElems()| => DescOf(DescribedElems()[i]))
  }

  /** Every constant of the language is described by the initializer. */
  lemma {:induction false} ElemDescribed(e: Elem)
    ensures e in DescribedElems()
  {
    match e
    case TokProp(p) => assert e in TokProperties() by { match p
      case Word => case Lemma => case Pos => case Bc0 => case Bc1 =>
      case Morpho => case Deprel => case Lc => case Unk => case Chpre5 => }
    case PropList(l) => assert l == MorphoList;
    case Edge(p) => assert p == Dir;
    case Modifier(m) => assert e in Modifiers() by { match m
      case Identity => case Before1 => case After1 => case Head => case Lns => case Rns =>
      case Lmc => case Rmc => case Lnc => case Rnc => case LowSv => case LowSn => case HighSv => case HighSn => }
    case PosList(l) => assert e in PositionLists() by { match l
      case LinePC => case ChildrenP => case NoFarChildrenP => case PathPC =>
      case PathPRoot => case PathCRoot => case PathLcaRoot => }
    case ListMod(m) => assert e in ListModifiers() by { match m case SeqMod => case Bag => case NoDup => }
    case Other(f) => assert e in OtherFeats() by { match f
      case Relative => case Distance => case Geneology => case DepSubCat => case PathLen => }
    case Place(p) => match p case Parent => case Child =>
  }

  /** A map from the key of each description to the description, later
      entries replacing earlier ones, as the initializer's loop builds it. */
  function ByKey<K>(desc: seq<Description>, key: Description -> K): (m: map<K, Description>)
  {
    if desc == [] then map[]
    else ByKey(desc[..|desc| - 1], key)[key(desc[|desc| - 1]) := desc[|desc| - 1]]
  }

  /** A key is in the map iff some description has it, and the value is the
      last description with that key. */
  lemma {:induction false} ByKeyLookup<K>(desc: seq<Description>, key: Description -> K, k: K)
    ensures k in ByKey(desc, key) <==> exists i :: 0 <= i < |desc| && key(desc[i]) == k
    ensures forall i :: 0 <= i < |desc| && key(desc[i]) == k && (forall j :: i < j < |desc| ==> key(desc[j]) != k) ==>
      ByKey(desc, key)[k] == desc[i]
  {
    if desc != [] {
      var n := |desc|;
      var pre := desc[..n - 1];
      ByKeyLookup(pre, key, k);
      assert forall i :: 0 <= i < n - 1 ==> pre[i] == desc[i];
      if key(desc[n - 1]) != k {
        forall i | 0 <= i < n && key(desc[i]) == k
          ensures i < n - 1
        {
        }
      }
    }
  }

  /** The loop of the static initializer over `desc`, filling the two maps. */
  method BuildMaps(desc: seq<Description>) returns (enumDescMap: map<Elem, Description>, nameDescMap: map<string, Description>)
    ensures enumDescMap == ByKey(desc, (d: Description) => d.obj)
    ensures nameDescMap == ByKey(desc, (d: Description) => d.name)
  {
    enumDescMap, nameDescMap := map[], map[];
    var i := 0;
    while i < |desc|
      invariant 0 <= i <= |desc|
      invariant enumDescMap == ByKey(desc[..i], (d: Description) => d.obj)
      invariant nameDescMap == ByKey(desc[..i], (d: Description) => d.name)
    {
      assert desc[..i + 1][..i] == desc[..i];
      var d := desc[i];
      enumDescMap := enumDescMap[d.obj := d];
      nameDescMap := nameDescMap[d.name := d];
      i := i + 1;
    }
    assert desc[..i] == desc;
  }

  /** `enumDescMap` as built from Descs(). */
  function EnumDescMap(): map<Elem, Description>
  {
    ByKey(Descs(), (d: Description) => d.obj)
  }

  /** `nameDescMap` as built from Descs(). */
  function NameDescMap(): map<string, Description>
  {
    ByKey(Descs(), (d: Description) => d.name)
  }

  /** In a list where each entry is the description of its own constant,
      the map from constants gives each constant its description. */
  lemma {:induction false} ByObjOfDescs(desc: seq<Description>, e: Elem)
    requires forall i :: 0 <= i < |desc| ==> desc[i] == DescOf(desc[i].obj)
    requires e in ByKey(desc, (d: Description) => d.obj)
    ensures ByKey(desc, (d: Description) => d.obj)[e] == DescOf(e)
  {
    var n := |desc|;
    var last := desc[n - 1];
    assert ByKey(desc, (d: Description) => d.obj)
      == ByKey(desc[..n - 1], (d: Description) => d.obj)[last.obj := last];
    if last.obj != e {
      assert forall i :: 0 <= i < n - 1 ==> desc[..n - 1][i] == desc[i];
      ByObjOfDescs(desc[..n - 1], e);
    }
  }

  /** Every constant of the language has its description in the map. */
  lemma EveryElemDescribed(e: Elem)
    ensures e in EnumDescMap() && EnumDescMap()[e] == DescOf(e)
  {
    ElemDescribed(e);
    var i :| 0 <= i < |DescribedElems()| && DescribedElems()[i] == e;
    assert Descs()[i].obj == e;
    ByKeyLookup(Descs(), (d: Description) => d.obj, e);
    ByObjOfDescs(Descs(), e);
  }

  /** `getDescByName(name)`: the name normalized, then looked up; None for
      the source's null. */
  function GetDescByName(nameDescMap: map<string, Description>, name: string): (r: Option<Description>)
    ensures r.Some? <==> NormalizeName(name) in nameDescMap
    ensures r.Some? ==> r.value == nameDescMap[NormalizeName(name)]
  {
    var n := NormalizeName(name);
    if n in nameDescMap then Some(nameDescMap[n]) else None
  }

  /** The lookup does not see whitespace: a name and its normal form find
      the same description. */
  lemma GetDescByNameNormal(nameDescMap: map<string, Description>, name: string)
    ensures GetDescByName(nameDescMap, name) == GetDescByName(nameDescMap, NormalizeName(name))
  {
    NormalizeNameIdempotent(name);
  }

  /** A description with a name no later description shares is found by
      that name, written with or without whitespace. */
  lemma GetDescByNameFinds(desc: seq<Description>, i: nat, name: string)
    requires i < |desc| && desc[i].name == NormalizeName(name)
    requires forall j :: i < j < |desc| ==> desc[j].name != desc[i].name
    ensures GetDescByName(ByKey(desc, (d: Description) => d.name), name) == Some(desc[i])
  {
    ByKeyLookup(desc, (d: Description) => d.name, NormalizeName(name));
  }

  /* ---------------- Feature templates ---------------- */

  /** The structure feature templates. `FeatTemplate3.includeDir` is a
      field of the template object. */
  datatype FeatTemplate =
    | FeatTemplate1(pos: Position, mod: PositionModifier, prop: TokProperty)
    | FeatTemplate2(pos: Position, mod: PositionModifier, propList: TokPropList)
    | FeatTemplate3(posList: PositionList, prop: TokProperty, includeDir: bool, lmod: ListModifier)
    | FeatTemplate4(feat: OtherFeat)
    | BigramTemplate(tpl1: FeatTemplate, tpl2: FeatTemplate)

  /** The `FeatTemplate3` constructor as written: the includeDir argument is
      never stored, so the field keeps its default, false. */
  function NewFeatTemplate3AsWritten(pl: PositionList, prop: TokProperty, includeDir: bool, lmod: ListModifier): (t: FeatTemplate)
    ensures t.FeatTemplate3? && !t.includeDir
  {
    FeatTemplate3(pl, prop, false, lmod)
  }

  /** The `FeatTemplate3` constructor as documented: includeDir is stored. */
  function NewFeatTemplate3(pl: PositionList, prop: TokProperty, includeDir: bool, lmod: ListModifier): (t: FeatTemplate)
    ensures t.FeatTemplate3? && t.includeDir == includeDir
  {
    FeatTemplate3(pl, prop, includeDir, lmod)
  }

  /** The enum names a single template's name is made of. */
  function Parts(t: FeatTemplate): seq<string>
    requires !t.BigramTemplate?
  {
    match t
    case FeatTemplate1(pos, mod, prop) => [PositionName(pos), ModifierName(mod), TokPropertyName(prop)]
    case FeatTemplate2(pos, mod, pl) => [PositionName(pos), ModifierName(mod), TokPropListName(pl)]
    case FeatTemplate3(pl, prop, _, lmod) => [PositionListName(pl), TokPropertyName(prop), ListModifierName(lmod)]
    case FeatTemplate4(feat) => [OtherFeatName(feat)]
  }

  /** `getName()`: the parts joined by "." (`STRUCTURE_SEP`); a bigram joins
      the two names with "+" (`TEMPLATE_SEP`). */
  function Name(t: FeatTemplate): string
  {
    if t.BigramTemplate? then Join([Name(t.tpl1), Name(t.tpl2)], "+") else Join(Parts(t), ".")
  }

  /** `getStructure()`. */
  function Structure(t: FeatTemplate): (s: seq<Elem>)
    ensures t.FeatTemplate1? ==> s == [Place(t.pos), Modifier(t.mod), TokProp(t.prop)]
    ensures t.FeatTemplate2? ==> s == [Place(t.pos), Modifier(t.mod), PropList(t.propList)]
    ensures t.FeatTemplate4? ==> s == [Other(t.feat)]
  {
    match t
    case FeatTemplate1(pos, mod, prop) => [Place(pos), Modifier(mod), TokProp(prop)]
    case FeatTemplate2(pos, mod, pl) => [Place(pos), Modifier(mod), PropList(pl)]
    case FeatTemplate3(pl, prop, includeDir, _) =>
      if includeDir then [PosList(pl), TokProp(prop), Edge(Dir), TokProp(prop)]
      else [PosList(pl), TokProp(prop), TokProp(prop)]
    case FeatTemplate4(feat) => [Other(feat)]
    case BigramTemplate(t1, t2) => Structure(t1) + Structure(t2)
  }

  /** As written, a `FeatTemplate3` never has the edge direction in its
      structure, even when built with includeDir = true. */
  lemma FeatTemplate3AsWrittenDropsDir(pl: PositionList, prop: TokProperty, lmod: ListModifier)
    ensures Structure(NewFeatTemplate3AsWritten(pl, prop, true, lmod)) == [PosList(pl), TokProp(prop), TokProp(prop)]
    ensures Edge(Dir) !in Structure(NewFeatTemplate3AsWritten(pl, prop, true, lmod))
    ensures Edge(Dir) in Structure(NewFeatTemplate3(pl, prop, true, lmod))
  {
  }

  /** With the argument stored, the direction is in the structure exactly
      when includeDir is set, between the two properties. */
  lemma FeatTemplate3Dir(pl: PositionList, prop: TokProperty, includeDir: bool, lmod: ListModifier)
    ensures Edge(Dir) in Structure(NewFeatTemplate3(pl, prop, includeDir, lmod)) <==> includeDir
    ensures var s := Structure(NewFeatTemplate3(pl, prop, includeDir, lmod));
      s[0] == PosList(pl) && s[1] == TokProp(prop) && s[|s| - 1] == TokProp(prop)
  {
  }

  /** A name with neither separator in it. */
  predicate Plain(name: string)
  {
    '.' !in name && '+' !in name
  }

  lemma TokPropertyNamePlain(p: TokProperty)
    ensures Plain(TokPropertyName(p))
  {
    match p
    case Word => case Lemma => case Pos => case Bc0 => case Bc1 =>
    case Morpho => case Deprel => case Lc => case Unk => case Chpre5 =>
  }

  lemma ModifierNamePlain(m: PositionModifier)
    ensures Plain(ModifierName(m))
  {
    match m
    case Identity => case Before1 => case After1 => case Head => case Lns => case Rns =>
    case Lmc => case Rmc => case Lnc => case Rnc => case LowSv => case LowSn => case HighSv => case HighSn =>
  }

  lemma PositionListNamePlain(l: PositionList)
    ensures Plain(PositionListName(l))
  {
    match l
    case LinePC => case ChildrenP => case NoFarChildrenP => case PathPC =>
    case PathPRoot => case PathCRoot => case PathLcaRoot =>
  }

  lemma OtherNamesPlain(l: ListModifier, f: OtherFeat, p: Position)
    ensures Plain(ListModifierName(l)) && Plain(OtherFeatName(f)) && Plain(PositionName(p))
    ensures Plain(TokPropListName(MorphoList))
  {
    match l case SeqMod => case Bag => case NoDup =>
    match f case Relative => case Distance => case Geneology => case DepSubCat => case PathLen =>
    match p case Parent => case Child =>
  }

  /** No enum name holds "." or "+". */
  lemma PartsPlain(t: FeatTemplate)
    requires !t.BigramTemplate?
    ensures |Parts(t)| > 0
    ensures forall k :: 0 <= k < |Parts(t)| ==> '.' !in Parts(t)[k] && '+' !in Parts(t)[k]
  {
    match t
    case FeatTemplate1(pos, mod, prop) =>
      OtherNamesPlain(SeqMod, Relative, pos); ModifierNamePlain(mod); TokPropertyNamePlain(prop);
    case FeatTemplate2(pos, mod, pl) =>
      OtherNamesPlain(SeqMod, Relative, pos); ModifierNamePlain(mod);
    case FeatTemplate3(pl, prop, _, lmod) =>
      PositionListNamePlain(pl); TokPropertyNamePlain(prop); OtherNamesPlain(lmod, Relative, Parent);
    case FeatTemplate4(feat) =>
      OtherNamesPlain(SeqMod, feat, Parent);
  }

  /** A single template's name splits on "." back into its enum names, and
      holds no "+". */
  lemma NameSplits(t: FeatTemplate)
    requires !t.BigramTemplate?
    ensures SplitAll(Name(t), '.') == Parts(t)
    ensures '+' !in Name(t)
  {
    PartsPlain(t);
    SplitAllJoin(Parts(t), '.');
    JoinAvoids(Parts(t), ".", '+');
  }

  /** The single templates of a bigram tree, left to right. */
  function Leaves(t: FeatTemplate): (r: seq<FeatTemplate>)
    ensures r != [] && forall k :: 0 <= k < |r| ==> !r[k].BigramTemplate?
  {
    if t.BigramTemplate? then Leaves(t.tpl1) + Leaves(t.tpl2) else [t]
  }

  function Names(ts: seq<FeatTemplate>): (r: seq<string>)
    ensures |r| == |ts|
  {
    if ts == [] then [] else [Name(ts[0])] + Names(ts[1..])
  }

  lemma {:induction false} NamesAppend(a: seq<FeatTemplate>, b: seq<FeatTemplate>)
    ensures Names(a + b) == Names(a) + Names(b)
  {
    if a != [] {
      assert (a + b)[0] == a[0] && (a + b)[1..] == a[1..] + b;
      NamesAppend(a[1..], b);
    } else {
      assert a + b == b;
    }
  }

  /** A template's name is the names of its single templates joined by "+". */
  lemma {:induction false} NameOfLeaves(t: FeatTemplate)
    ensures Name(t) == Join(Names(Leaves(t)), "+")
    ensures forall k :: 0 <= k < |Leaves(t)| ==> Names(Leaves(t))[k] == Name(Leaves(t)[k])
  {
    NamesIndex(Leaves(t));
    if t.BigramTemplate? {
      NameOfLeaves(t.tpl1);
      NameOfLeaves(t.tpl2);
      NamesAppend(Leaves(t.tpl1), Leaves(t.tpl2));
      JoinAppend(Names(Leaves(t.tpl1)), Names(Leaves(t.tpl2)), "+");
      var two := [Name(t.tpl1), Name(t.tpl2)];
      assert two[1..] == [Name(t.tpl2)];
      assert Join(two, "+") == Name(t.tpl1) + "+" + Name(t.tpl2);
    } else {
      assert Names([t]) == [Name(t)];
    }
  }

  lemma {:induction false} NamesIndex(ts: seq<FeatTemplate>)
    ensures forall k :: 0 <= k < |ts| ==> Names(ts)[k] == Name(ts[k])
  {
    if ts != [] {
      NamesIndex(ts[1..]);
    }
  }

  /** A bigram template's name splits on "+" into the names of its single
      templates, in order. */
  lemma BigramNameSplits(t: FeatTemplate)
    ensures SplitAll(Name(t), '+') == Names(Leaves(t))
  {
    NameOfLeaves(t);
    var leaves := Leaves(t);
    forall k | 0 <= k < |leaves|
      ensures '+' !in Names(leaves)[k]
    {
      NameSplits(leaves[k]);
    }
    SplitAllJoin(Names(leaves), '+');
  }

  /** The concatenated structures of a list of templates. */
  function Structures(ts: seq<FeatTemplate>): seq<Elem>
  {
    if ts == [] then [] else Structure(ts[0]) + Structures(ts[1..])
  }

  lemma {:induction false} StructuresAppend(a: seq<FeatTemplate>, b: seq<FeatTemplate>)
    ensures Structures(a + b) == Structures(a) + Structures(b)
  {
    if a != [] {
      assert (a + b)[0] == a[0] && (a + b)[1..] == a[1..] + b;
      StructuresAppend(a[1..], b);
    } else {
      assert a + b == b;
    }
  }

  /** A bigram's structure is the structures of its single templates one
      after the other. */
  lemma {:induction false} StructureOfLeaves(t: FeatTemplate)
    ensures Structure(t) == Structures(Leaves(t))
  {
    if t.BigramTemplate? {
      StructureOfLeaves(t.tpl1);
      StructureOfLeaves(t.tpl2);
      StructuresAppend(Leaves(t.tpl1), Leaves(t.tpl2));
    } else {
      assert Structures([t]) == Structure(t) + Structures([]);
    }
  }

  /* ---------------- Required annotation types ---------------- */

  /** Which parts of a sentence are present (non-null); the sentence class
      is not part of this model. */
  datatype Annotations = Annotations(
    words: bool, lemmas: bool, posTags: bool, clusters: bool, parents: bool, deprels: bool, feats: bool)

  /** `hasRequiredAnnotationType(sent, type)`. */
  function HasRequiredAnnotationType(sent: Annotations, t: AnnoType): bool
  {
    match t
    case AtWord => sent.words
    case AtLemma => sent.lemmas
    case AtPos => sent.posTags
    case AtBrown => sent.clusters
    case AtDepTree => sent.parents
    case AtLabelDepTree => sent.parents && sent.deprels
    case AtMorpho => sent.feats
  }

  /** A labeled tree needs the tree and the labels. */
  lemma LabelDepTreeNeedsBoth(sent: Annotations)
    ensures HasRequiredAnnotationType(sent, AtLabelDepTree) <==>
      HasRequiredAnnotationType(sent, AtDepTree) && sent.deprels
  {
  }

  /** `hasRequiredAnnotationTypes(sent, types)`: the loop over the set,
      stopping at the first type that is missing. */
  method HasRequiredAnnotationTypes(sent: Annotations, types: set<AnnoType>) returns (b: bool)
    ensures b <==> forall t :: t in types ==> HasRequiredAnnotationType(sent, t)
  {
    var rest := types;
    while rest != {}
      invariant rest <= types
      invariant forall t :: t in types && t !in rest ==> HasRequiredAnnotationType(sent, t)
      decreases |rest|
    {
      var t :| t in rest;
      if !HasRequiredAnnotationType(sent, t) {
        return false;
      }
      rest := rest - {t};
    }
    return true;
  }

  /** Every structure element of every template has a description. */
  predicate AllDescribed(enumDescMap: map<Elem, Description>, tpls: seq<FeatTemplate>)
  {
    forall i, k :: 0 <= i < |tpls| && 0 <= k < |Structure(tpls[i])| ==> Structure(tpls[i])[k] in enumDescMap
  }

  /** The levels a description requires, as a set. */
  function Levels(d: Description): (r: set<AnnoType>)
    ensures forall a :: a in r <==> a in d.requiredLevels
  {
    set a | a in d.requiredLevels
  }

  /** The levels required by a list of elements. */
  function ElemLevels(enumDescMap: map<Elem, Description>, s: seq<Elem>): set<AnnoType>
    requires forall k :: 0 <= k < |s| ==> s[k] in enumDescMap
  {
    if s == [] then {}
    else ElemLevels(enumDescMap, s[..|s| - 1]) + Levels(enumDescMap[s[|s| - 1]])
  }

  /** The levels required by a list of templates. */
  function TemplateLevels(enumDescMap: map<Elem, Description>, tpls: seq<FeatTemplate>): set<AnnoType>
    requires AllDescribed(enumDescMap, tpls)
  {
    if tpls == [] then {}
    else
      assert AllDescribed(enumDescMap, tpls[..|tpls| - 1]);
      var last := Structure(tpls[|tpls| - 1]);
      assert forall k :: 0 <= k < |last| ==> last[k] in enumDescMap;
      TemplateLevels(enumDescMap, tpls[..|tpls| - 1]) + ElemLevels(enumDescMap, last)
  }

  /** A level is required by elements iff one of them lists it. */
  lemma {:induction false} ElemLevelsIn(enumDescMap: map<Elem, Description>, s: seq<Elem>, a: AnnoType)
    requires forall k :: 0 <= k < |s| ==> s[k] in enumDescMap
    ensures a in ElemLevels(enumDescMap, s) <==> exists k :: 0 <= k < |s| && a in enumDescMap[s[k]].requiredLevels
  {
    if s != [] {
      var n := |s|;
      ElemLevelsIn(enumDescMap, s[..n - 1], a);
      assert forall k :: 0 <= k < n - 1 ==> s[..n - 1][k] == s[k];
    }
  }

  /** Some structure element of t requires level a. */
  predicate RequiredBy(enumDescMap: map<Elem, Description>, t: FeatTemplate, a: AnnoType)
  {
    exists k :: 0 <= k < |Structure(t)| && Structure(t)[k] in enumDescMap && a in enumDescMap[Structure(t)[k]].requiredLevels
  }

  /** `getRequiredAnnotationTypes` is the union of the required levels of
      every structure element of every template. */
  lemma {:induction false} TemplateLevelsIn(enumDescMap: map<Elem, Description>, tpls: seq<FeatTemplate>, a: AnnoType)
    requires AllDescribed(enumDescMap, tpls)
    ensures a in TemplateLevels(enumDescMap, tpls) <==> exists i :: 0 <= i < |tpls| && RequiredBy(enumDescMap, tpls[i], a)
  {
    if tpls != [] {
      var n := |tpls|;
      var pre := tpls[..n - 1];
      assert forall i :: 0 <= i < n - 1 ==> pre[i] == tpls[i];
      assert AllDescribed(enumDescMap, pre);
      TemplateLevelsIn(enumDescMap, pre, a);
      var last := Structure(tpls[n - 1]);
      assert forall k :: 0 <= k < |last| ==> last[k] in enumDescMap;
      ElemLevelsIn(enumDescMap, last, a);
      assert a in ElemLevels(enumDescMap, last) <==> RequiredBy(enumDescMap, tpls[n - 1], a);
      if exists i :: 0 <= i < n && RequiredBy(enumDescMap, tpls[i], a) {
        var i :| 0 <= i < n && RequiredBy(enumDescMap, tpls[i], a);
        if i < n - 1 {
          assert RequiredBy(enumDescMap, pre[i], a);
        }
      }
    }
  }

  /** The result of `getRequiredAnnotationTypes`: the source dereferences
      the description of each element, so an undescribed one raises
      NullPointerException. */
  function RequiredAnnotationTypes(enumDescMap: map<Elem, Description>, tpls: seq<FeatTemplate>): (r: Result<set<AnnoType>>)
    ensures r.Ok? <==> AllDescribed(enumDescMap, tpls)
  {
    if AllDescribed(enumDescMap, tpls) then Ok(TemplateLevels(enumDescMap, tpls)) else Throw(NullPointer)
  }

  /** With the language's own table nothing is undescribed. */
  lemma RequiredAnnotationTypesDefined(tpls: seq<FeatTemplate>)
    ensures RequiredAnnotationTypes(EnumDescMap(), tpls).Ok?
  {
    forall i, k | 0 <= i < |tpls| && 0 <= k < |Structure(tpls[i])|
      ensures Structure(tpls[i])[k] in EnumDescMap()
    {
      EveryElemDescribed(Structure(tpls[i])[k]);
    }
  }

  /** One more template adds the levels of its elements. */
  lemma TemplateLevelsSnoc(enumDescMap: map<Elem, Description>, tpls: seq<FeatTemplate>, i: nat)
    requires i < |tpls| && AllDescribed(enumDescMap, tpls[..i])
    requires forall k :: 0 <= k < |Structure(tpls[i])| ==> Structure(tpls[i])[k] in enumDescMap
    ensures AllDescribed(enumDescMap, tpls[..i + 1])
    ensures TemplateLevels(enumDescMap, tpls[..i + 1]) == TemplateLevels(enumDescMap, tpls[..i]) + ElemLevels(enumDescMap, Structure(tpls[i]))
  {
    var pre := tpls[..i + 1];
    assert pre[..i] == tpls[..i];
    assert forall j :: 0 <= j < i ==> pre[j] == tpls[..i][j];
    assert pre[i] == tpls[i];
  }

  /** `getRequiredAnnotationTypes(tpls)`: the three nested loops adding to
      a set. */
  method GetRequiredAnnotationTypes(enumDescMap: map<Elem, Description>, tpls: seq<FeatTemplate>) returns (r: Result<set<AnnoType>>)
    ensures r == RequiredAnnotationTypes(enumDescMap, tpls)
  {
    var types: set<AnnoType> := {};
    var i := 0;
    while i < |tpls|
      invariant 0 <= i <= |tpls|
      invariant AllDescribed(enumDescMap, tpls[..i])
      invariant types == TemplateLevels(enumDescMap, tpls[..i])
    {
      var s := Structure(tpls[i]);
      var types1 := AddElemLevels(enumDescMap, s, types);
      if types1.Throw? {
        assert !AllDescribed(enumDescMap, tpls) by {
          var k :| 0 <= k < |s| && s[k] !in enumDescMap;
        }
        return Throw(NullPointer);
      }
      TemplateLevelsSnoc(enumDescMap, tpls, i);
      types := types1.value;
      i := i + 1;
    }
    assert tpls[..i] == tpls;
    r := Ok(types);
  }

  /** The two inner loops of `getRequiredAnnotationTypes` for one template. */
  method AddElemLevels(enumDescMap: map<Elem, Description>, s: seq<Elem>, types0: set<AnnoType>) returns (r: Result<set<AnnoType>>)
    ensures r.Ok? <==> forall k :: 0 <= k < |s| ==> s[k] in enumDescMap
    ensures r.Ok? ==> r.value == types0 + ElemLevels(enumDescMap, s)
  {
    var types := types0;
    var j := 0;
    while j < |s|
      invariant 0 <= j <= |s|
      invariant forall k :: 0 <= k < j ==> s[k] in enumDescMap
      invariant types == types0 + ElemLevels(enumDescMap, s[..j])
    {
      assert s[..j + 1][..j] == s[..j];
      if s[j] !in enumDescMap {
        return Throw(NullPointer);
      }
      var levels := enumDescMap[s[j]].requiredLevels;
      var m := 0;
      ghost var before := types;
      while m < |levels|
        invariant 0 <= m <= |levels|
        invariant types == before + Levels(Description(s[j], "", "", levels[..m]))
      {
        assert levels[..m + 1] == levels[..m] + [levels[m]];
        types := types + {levels[m]};
        m := m + 1;
      }
      assert levels[..m] == levels;
      assert s[..j + 1][j] == s[j];
      j := j + 1;
    }
    assert s[..j] == s;
    r := Ok(types);
  }
}
