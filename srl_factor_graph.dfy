/** The factor graph of one sentence for semantic role labelling: a role
    variable per (predicate, argument) pair the role structure allows, a
    link variable per dependency arc, and unary and binary factors over
    them. */
module SrlFactorGraphs {
  import opened Wrappers
  import opened JavaLang
  import opened Vars
  import opened ProjDepTree

  /** `RoleStructure`: the pairs that get a role variable. */
  datatype RoleStructure = PredsGiven | AllPairs

  /** `SrlFactorGraphPrm`; a `roleStructure` of `None` is a null field.
      `predictSense` is not read by the graph and is left out. */
  datatype Prm = Prm(roleStructure: Option<RoleStructure>, makeUnknownPredRolesLatent: bool,
                     linkVarType: VarType, useProjDepTreeFactor: bool)

  /** The field initialisers of `SrlFactorGraphPrm`. */
  function DefaultPrm(): (p: Prm)
    ensures p.roleStructure == Some(AllPairs) && p.makeUnknownPredRolesLatent
    ensures p.linkVarType == Latent && !p.useProjDepTreeFactor
  {
    Prm(Some(AllPairs), true, Latent, false)
  }

  /** What the constructor is given: the parameters, the sentence length,
      the positions of the known predicates and the role state names of the
      corpus statistics. */
  datatype Input = Input(prm: Prm, n: nat, knownPreds: set<int>, roleStateNames: seq<string>)

  /** The link variables come from the global tree factor. */
  predicate UsesTree(prm: Prm)
  {
    prm.useProjDepTreeFactor && prm.linkVarType != Observed
  }

  /** The constructor runs to the end: the role structure is set, and with
      PREDS_GIVEN over a non-empty sentence every known predicate indexes a
      row of the role table. */
  predicate Supported(g: Input)
  {
    g.prm.roleStructure.Some?
    && (g.prm.roleStructure.value == PredsGiven && g.n > 0 ==>
          forall p :: p in g.knownPreds ==> 0 <= p < g.n)
  }

  /** The name "Role_parent_child". */
  function RoleName(parent: int, child: int): string
  {
    "Role_" + IntToString(parent) + "_" + IntToString(child)
  }

  /** `createRoleVar(parent, child, knownPreds, cs)`. */
  function RoleVarOf(g: Input, parent: int, child: int): (v: Var)
    ensures v.cls == RoleVar(parent, child) && v.name == RoleName(parent, child)
    ensures v.stateNames == g.roleStateNames
    ensures v.kind == Predicted <==> RolePredicted(g, parent)
    ensures v.kind == Predicted ==> v.numStates == |g.roleStateNames|
    ensures v.kind != Predicted ==> v.kind == Latent && v.numStates == 0
  {
    if !g.prm.makeUnknownPredRolesLatent || parent in g.knownPreds then
      Var(Predicted, |g.roleStateNames|, RoleName(parent, child), g.roleStateNames, RoleVar(parent, child))
    else
      Var(Latent, 0, RoleName(parent, child), g.roleStateNames, RoleVar(parent, child))
  }

  /** The role structure gives (i, j) a role variable: PREDS_GIVEN the rows
      of the known predicates, ALL_PAIRS every cell, the diagonal included. */
  predicate HasRole(g: Input, i: int, j: int)
  {
    0 <= i < g.n && 0 <= j < g.n &&
    (g.prm.roleStructure == Some(AllPairs) || (g.prm.roleStructure == Some(PredsGiven) && i in g.knownPreds))
  }

  /** The roles of predicate i are predicted rather than latent. */
  predicate RolePredicted(g: Input, i: int)
  {
    !g.prm.makeUnknownPredRolesLatent || i in g.knownPreds
  }

  /** `roleVars[i][j]` once the constructor is done: PREDS_GIVEN fills the
      rows of the known predicates, ALL_PAIRS every cell, the diagonal
      included. */
  function RoleAt(g: Input, i: int, j: int): (r: Option<Var>)
    ensures r.Some? <==> HasRole(g, i, j)
    ensures r.Some? ==> r.value == RoleVarOf(g, i, j)
  {
    if !(0 <= i < g.n && 0 <= j < g.n) then None
    else match g.prm.roleStructure
      case Some(AllPairs) => Some(RoleVarOf(g, i, j))
      case Some(PredsGiven) => if i in g.knownPreds then Some(RoleVarOf(g, i, j)) else None
      case None => None
  }

  /** The link from parent i (the wall for -1) to child j once the
      constructor is done: the tree factor has none on the diagonal; the
      graph's own links cover every pair, the diagonal included. */
  function LinkAt(g: Input, i: int, j: int): (r: Option<Var>)
    ensures r.Some? <==> -1 <= i < g.n && 0 <= j < g.n && !(UsesTree(g.prm) && i == j)
    ensures r.Some? ==> r.value == LinkVarOf(g.prm.linkVarType, i, j)
  {
    if -1 <= i < g.n && 0 <= j < g.n && !(UsesTree(g.prm) && i == j) then
      Some(LinkVarOf(g.prm.linkVarType, i, j))
    else None
  }

  /* ---------------- Factors ---------------- */

  /** A factor of the graph: the global tree factor over the links, or a
      dense factor over one or two variables. */
  datatype Factor = GlobalTree(n: nat, linkType: VarType) | Unary(v: Var) | Binary(role: Var, link: Var)

  /** The factors added for cell (i, j) of the factor loop: a unary factor on
      the root link for the wall row; otherwise a unary factor on the role,
      one on the link and one binary factor on both, for those that exist. */
  function CellFactors(g: Input, i: int, j: int): seq<Factor>
  {
    if i == -1 then
      (if LinkAt(g, i, j).Some? then [Unary(LinkAt(g, i, j).value)] else [])
    else
      var r, l := RoleAt(g, i, j), LinkAt(g, i, j);
      (if r.Some? then [Unary(r.value)] else [])
      + (if l.Some? then [Unary(l.value)] else [])
      + (if r.Some? && l.Some? then [Binary(r.value, l.value)] else [])
  }

  /** The factors of cells (i, 0) .. (i, j-1). */
  function RowFactors(g: Input, i: int, j: nat): seq<Factor>
  {
    if j == 0 then [] else RowFactors(g, i, j - 1) + CellFactors(g, i, j - 1)
  }

  /** The factors of rows -1 .. i-1. */
  function Rows(g: Input, i: int): seq<Factor>
    requires -1 <= i
    decreases i + 1
  {
    if i == -1 then [] else Rows(g, i - 1) + RowFactors(g, i - 1, g.n)
  }

  /** The factor list of the finished graph: the tree factor first when it
      is used, then the factors of every cell, row by row. */
  function FactorsOf(g: Input): seq<Factor>
  {
    (if UsesTree(g.prm) then [GlobalTree(g.n, g.prm.linkVarType)] else []) + Rows(g, g.n)
  }

  lemma {:induction false} RowFactorsMembers(g: Input, i: int, j: nat, f: Factor)
    ensures f in RowFactors(g, i, j) <==> exists c :: 0 <= c < j && f in CellFactors(g, i, c)
  {
    if j > 0 {
      RowFactorsMembers(g, i, j - 1, f);
      RowFactorsMembersStep(g, i, j, f);
    }
  }

  /** One more cell of the row. */
  lemma RowFactorsMembersStep(g: Input, i: int, j: nat, f: Factor)
    requires j > 0
    requires f in RowFactors(g, i, j - 1) <==> exists c :: 0 <= c < j - 1 && f in CellFactors(g, i, c)
    ensures f in RowFactors(g, i, j) <==> exists c :: 0 <= c < j && f in CellFactors(g, i, c)
  {
    var last := CellFactors(g, i, j - 1);
    assert RowFactors(g, i, j) == RowFactors(g, i, j - 1) + last;
    if f in last {
      assert 0 <= j - 1 < j;
    } else if f !in RowFactors(g, i, j - 1) {
      forall c | 0 <= c < j ensures f !in CellFactors(g, i, c) {
        if c == j - 1 {
          assert f !in last;
        }
      }
    }
  }

  lemma {:induction false} RowsMembers(g: Input, i: int, f: Factor)
    requires -1 <= i
    ensures f in Rows(g, i) <==> exists p, c :: -1 <= p < i && 0 <= c < g.n && f in CellFactors(g, p, c)
    decreases i + 1
  {
    if i > -1 {
      RowsMembers(g, i - 1, f);
      RowFactorsMembers(g, i - 1, g.n, f);
      if f in Rows(g, i) {
        if f in RowFactors(g, i - 1, g.n) {
          var c :| 0 <= c < g.n && f in CellFactors(g, i - 1, c);
          assert -1 <= i - 1 < i;
        }
      } else {
        forall p, c | -1 <= p < i && 0 <= c < g.n ensures f !in CellFactors(g, p, c) {
          if p == i - 1 {
            assert f !in RowFactors(g, i - 1, g.n);
          } else {
            assert f !in Rows(g, i - 1);
          }
        }
      }
    }
  }

  /** The global tree factor is never a cell's. */
  lemma CellsHoldNoTree(g: Input, f: Factor)
    requires f.GlobalTree?
    ensures f !in Rows(g, g.n)
  {
    RowsMembers(g, g.n, f);
  }

  /** With the tree factor it is the first factor and occurs once; without
      it there is no global factor. */
  lemma TreeFactorFirst(g: Input)
    ensures UsesTree(g.prm) ==> FactorsOf(g)[0] == GlobalTree(g.n, g.prm.linkVarType)
    ensures forall k :: 0 < k < |FactorsOf(g)| ==> !FactorsOf(g)[k].GlobalTree?
    ensures !UsesTree(g.prm) ==> forall k :: 0 <= k < |FactorsOf(g)| ==> !FactorsOf(g)[k].GlobalTree?
  {
    var fs, rs := FactorsOf(g), Rows(g, g.n);
    forall k | 0 <= k < |rs| ensures !rs[k].GlobalTree? {
      if rs[k].GlobalTree? {
        CellsHoldNoTree(g, rs[k]);
      }
    }
  }

  /** A unary factor over v exists exactly when v is a role or link of some
      cell. */
  lemma UnaryFactors(g: Input, v: Var)
    ensures Unary(v) in FactorsOf(g) <==>
      exists p, c :: -1 <= p < g.n && 0 <= c < g.n && (RoleAt(g, p, c) == Some(v) || LinkAt(g, p, c) == Some(v))
  {
    var f := Unary(v);
    RowsMembers(g, g.n, f);
    assert f in FactorsOf(g) <==> f in Rows(g, g.n);
    if f in Rows(g, g.n) {
      var p, c :| -1 <= p < g.n && 0 <= c < g.n && f in CellFactors(g, p, c);
      CellUnary(g, p, c, v);
    }
    if exists p, c :: -1 <= p < g.n && 0 <= c < g.n && (RoleAt(g, p, c) == Some(v) || LinkAt(g, p, c) == Some(v)) {
      var p, c :| -1 <= p < g.n && 0 <= c < g.n && (RoleAt(g, p, c) == Some(v) || LinkAt(g, p, c) == Some(v));
      CellUnary(g, p, c, v);
    }
  }

  /** The unary factors of one cell are over its role and its link. */
  lemma CellUnary(g: Input, p: int, c: int, v: Var)
    requires -1 <= p
    ensures Unary(v) in CellFactors(g, p, c) <==> RoleAt(g, p, c) == Some(v) || LinkAt(g, p, c) == Some(v)
  {
  }

  /** The binary factor of one cell is over its role and its link, when
      its parent is a word and it has both. */
  lemma CellBinary(g: Input, p: int, c: int, r: Var, l: Var)
    requires -1 <= p
    ensures Binary(r, l) in CellFactors(g, p, c) <==> 0 <= p && RoleAt(g, p, c) == Some(r) && LinkAt(g, p, c) == Some(l)
  {
  }

  /** A binary factor over (r, l) exists exactly when r is the role and l
      the link of one cell with a word as parent. */
  lemma BinaryFactors(g: Input, r: Var, l: Var)
    ensures Binary(r, l) in FactorsOf(g) <==>
      exists p, c :: 0 <= p < g.n && 0 <= c < g.n && RoleAt(g, p, c) == Some(r) && LinkAt(g, p, c) == Some(l)
  {
    var f := Binary(r, l);
    RowsMembers(g, g.n, f);
    assert f in FactorsOf(g) <==> f in Rows(g, g.n);
    if f in Rows(g, g.n) {
      var p, c :| -1 <= p < g.n && 0 <= c < g.n && f in CellFactors(g, p, c);
      CellBinary(g, p, c, r, l);
    }
    if exists p, c :: 0 <= p < g.n && 0 <= c < g.n && RoleAt(g, p, c) == Some(r) && LinkAt(g, p, c) == Some(l) {
      var p, c :| 0 <= p < g.n && 0 <= c < g.n && RoleAt(g, p, c) == Some(r) && LinkAt(g, p, c) == Some(l);
      CellBinary(g, p, c, r, l);
    }
  }

  lemma {:induction false} AllPairsRowLength(g: Input, i: int, j: nat)
    requires g.prm.roleStructure == Some(AllPairs) && !UsesTree(g.prm)
    requires -1 <= i < g.n && j <= g.n
    ensures |RowFactors(g, i, j)| == if i == -1 then j else 3 * j
  {
    if j > 0 {
      AllPairsRowLength(g, i, j - 1);
    }
  }

  lemma {:induction false} AllPairsRowsLength(g: Input, i: int)
    requires g.prm.roleStructure == Some(AllPairs) && !UsesTree(g.prm)
    requires 0 <= i <= g.n
    ensures |Rows(g, i)| == g.n + 3 * i * g.n
  {
    if i == 0 {
      AllPairsRowLength(g, -1, g.n);
    } else {
      AllPairsRowsLength(g, i - 1);
      AllPairsRowLength(g, i - 1, g.n);
      RowsStep(g.n, i);
    }
  }

  lemma RowsStep(n: int, i: int)
    ensures n + 3 * (i - 1) * n + 3 * n == n + 3 * i * n
  {
  }

  /** The default N**2 model without the tree factor has n root link
      factors and three factors for each of the n*n cells. */
  lemma AllPairsFactorCount(g: Input)
    requires g.prm.roleStructure == Some(AllPairs) && !UsesTree(g.prm)
    ensures |FactorsOf(g)| == g.n + 3 * g.n * g.n
  {
    AllPairsRowsLength(g, g.n);
  }

  /* ---------------- Building the tables ---------------- */

  /** One row of the role table: `roleVars[i][j] = createRoleVar(i, j, ..)`
      for every j. */
  method FillRoleRow(g: Input, a: array2<Option<Var>>, i: int)
    requires a.Length0 == g.n && a.Length1 == g.n
    requires g.n > 0 ==> 0 <= i < g.n
    modifies a
    ensures forall p, c :: 0 <= p < g.n && 0 <= c < g.n ==>
      a[p, c] == if p == i then Some(RoleVarOf(g, p, c)) else old(a[p, c])
  {
    var j := 0;
    while j < g.n
      invariant 0 <= j <= g.n
      invariant forall p, c :: 0 <= p < g.n && 0 <= c < g.n ==>
        a[p, c] == if p == i && c < j then Some(RoleVarOf(g, p, c)) else old(a[p, c])
    {
      a[i, j] := Some(RoleVarOf(g, i, j));
      j := j + 1;
    }
  }

  lemma NonEmptyHas(s: set<int>)
    requires s != {}
    ensures exists x :: x in s
  {
    if forall x :: x !in s {
      assert false;
    }
  }

  /** The rows of the known predicates, in the set's iteration order. */
  method FillPredRows(g: Input, a: array2<Option<Var>>)
    requires a.Length0 == g.n && a.Length1 == g.n
    requires g.n > 0 ==> forall p :: p in g.knownPreds ==> 0 <= p < g.n
    requires forall p, c :: 0 <= p < g.n && 0 <= c < g.n ==> a[p, c] == None
    modifies a
    ensures forall p, c :: 0 <= p < g.n && 0 <= c < g.n ==>
      a[p, c] == if p in g.knownPreds then Some(RoleVarOf(g, p, c)) else None
  {
    var rest := g.knownPreds;
    ghost var done: set<int> := {};
    while rest != {}
      invariant rest <= g.knownPreds && done == g.knownPreds - rest
      invariant forall p, c :: 0 <= p < g.n && 0 <= c < g.n ==>
        a[p, c] == if p in done then Some(RoleVarOf(g, p, c)) else None
      decreases |rest|
    {
      NonEmptyHas(rest);
      var pred :| pred in rest;
      FillRoleRow(g, a, pred);
      rest := rest - {pred};
      done := done + {pred};
    }
  }

  /** Every row, for ALL_PAIRS. */
  method FillAllRows(g: Input, a: array2<Option<Var>>)
    requires a.Length0 == g.n && a.Length1 == g.n
    requires forall p, c :: 0 <= p < g.n && 0 <= c < g.n ==> a[p, c] == None
    modifies a
    ensures forall p, c :: 0 <= p < g.n && 0 <= c < g.n ==> a[p, c] == Some(RoleVarOf(g, p, c))
  {
    var i := 0;
    while i < g.n
      invariant 0 <= i <= g.n
      invariant forall p, c :: 0 <= p < g.n && 0 <= c < g.n ==>
        a[p, c] == if p < i then Some(RoleVarOf(g, p, c)) else None
    {
      FillRoleRow(g, a, i);
      i := i + 1;
    }
  }

  /** The role table: the rows of the known predicates, in the set's
      iteration order, for PREDS_GIVEN; every row for ALL_PAIRS. */
  method NewRoleVars(g: Input) returns (a: array2<Option<Var>>)
    requires Supported(g)
    ensures fresh(a) && a.Length0 == g.n && a.Length1 == g.n
    ensures forall i, j :: 0 <= i < g.n && 0 <= j < g.n ==> a[i, j] == RoleAt(g, i, j)
  {
    a := new Option<Var>[g.n, g.n]((_, _) => None);
    if g.prm.roleStructure.value == PredsGiven {
      FillPredRows(g, a);
    } else {
      FillAllRows(g, a);
    }
  }

  /** The graph's own links: the root table and the child table, every
      cell filled, row -1 being the wall. */
  method NewLinkVars(g: Input) returns (roots: array<Option<Var>>, kids: array2<Option<Var>>)
    requires !UsesTree(g.prm)
    ensures fresh(roots) && fresh(kids)
    ensures roots.Length == g.n && kids.Length0 == g.n && kids.Length1 == g.n
    ensures forall c :: 0 <= c < g.n ==> roots[c] == LinkAt(g, Wall, c)
    ensures forall p, c :: 0 <= p < g.n && 0 <= c < g.n ==> kids[p, c] == LinkAt(g, p, c)
  {
    var t := g.prm.linkVarType;
    roots := new Option<Var>[g.n](_ => None);
    kids := new Option<Var>[g.n, g.n]((_, _) => None);
    var i := -1;
    while i < g.n
      invariant -1 <= i <= g.n
      invariant forall c :: 0 <= c < g.n ==> roots[c] == if -1 < i then Some(LinkVarOf(t, Wall, c)) else None
      invariant forall p, c :: 0 <= p < g.n && 0 <= c < g.n ==>
        kids[p, c] == if p < i then Some(LinkVarOf(t, p, c)) else None
    {
      var j := 0;
      while j < g.n
        invariant 0 <= j <= g.n
        invariant forall c :: 0 <= c < g.n ==>
          roots[c] == if -1 < i || c < j then Some(LinkVarOf(t, Wall, c)) else None
        invariant forall p, c :: 0 <= p < g.n && 0 <= c < g.n ==>
          kids[p, c] == if p < i || (p == i && c < j) then Some(LinkVarOf(t, p, c)) else None
      {
        if i == -1 {
          roots[j] := Some(LinkVarOf(t, i, j));
        } else {
          kids[i, j] := Some(LinkVarOf(t, i, j));
        }
        j := j + 1;
      }
      i := i + 1;
    }
  }

  /** The factors the loop body adds for cell (i, j). */
  method CellOf(g: Input, roles: array2<Option<Var>>, roots: array<Option<Var>>,
                kids: array2<Option<Var>>, i: int, j: int) returns (cell: seq<Factor>)
    requires roles.Length0 == g.n && roles.Length1 == g.n && roots.Length == g.n
    requires kids.Length0 == g.n && kids.Length1 == g.n
    requires -1 <= i < g.n && 0 <= j < g.n
    requires i == -1 ==> roots[j] == LinkAt(g, Wall, j)
    requires i != -1 ==> roles[i, j] == RoleAt(g, i, j) && kids[i, j] == LinkAt(g, i, j)
    ensures cell == CellFactors(g, i, j)
  {
    cell := [];
    if i == -1 {
      if roots[j].Some? {
        cell := [Unary(roots[j].value)];
      }
    } else {
      if roles[i, j].Some? {
        cell := cell + [Unary(roles[i, j].value)];
      }
      if kids[i, j].Some? {
        cell := cell + [Unary(kids[i, j].value)];
      }
      if roles[i, j].Some? && kids[i, j].Some? {
        cell := cell + [Binary(roles[i, j].value, kids[i, j].value)];
      }
    }
  }

  /** The inner factor loop: the factors of row i of the finished tables. */
  method CollectRow(g: Input, roles: array2<Option<Var>>, roots: array<Option<Var>>,
                    kids: array2<Option<Var>>, i: int) returns (row: seq<Factor>)
    requires roles.Length0 == g.n && roles.Length1 == g.n && roots.Length == g.n
    requires kids.Length0 == g.n && kids.Length1 == g.n && -1 <= i < g.n
    requires i == -1 ==> forall c :: 0 <= c < g.n ==> roots[c] == LinkAt(g, Wall, c)
    requires i != -1 ==> forall c :: 0 <= c < g.n ==> roles[i, c] == RoleAt(g, i, c) && kids[i, c] == LinkAt(g, i, c)
    ensures row == RowFactors(g, i, g.n)
  {
    row := [];
    var j := 0;
    while j < g.n
      invariant 0 <= j <= g.n
      invariant row == RowFactors(g, i, j)
    {
      var cell := CellOf(g, roles, roots, kids, i, j);
      row := row + cell;
      j := j + 1;
    }
  }

  /** The factor loop over the finished tables. */
  method CollectFactors(g: Input, roles: array2<Option<Var>>, roots: array<Option<Var>>,
                        kids: array2<Option<Var>>) returns (fs: seq<Factor>)
    requires roles.Length0 == g.n && roles.Length1 == g.n && roots.Length == g.n
    requires kids.Length0 == g.n && kids.Length1 == g.n
    requires forall i, j :: 0 <= i < g.n && 0 <= j < g.n ==> roles[i, j] == RoleAt(g, i, j)
    requires forall c :: 0 <= c < g.n ==> roots[c] == LinkAt(g, Wall, c)
    requires forall p, c :: 0 <= p < g.n && 0 <= c < g.n ==> kids[p, c] == LinkAt(g, p, c)
    ensures fs == Rows(g, g.n)
  {
    fs := [];
    var i := -1;
    while i < g.n
      invariant -1 <= i <= g.n
      invariant fs == Rows(g, i)
    {
      if i != -1 {
        assert forall c :: 0 <= c < g.n ==> roles[i, c] == RoleAt(g, i, c) && kids[i, c] == LinkAt(g, i, c);
      }
      var row := CollectRow(g, roles, roots, kids, i);
      assert Rows(g, i + 1) == Rows(g, i) + row;
      fs := fs + row;
      i := i + 1;
    }
  }

  /* ---------------- The graph ---------------- */

  class SrlFactorGraph {
    const prm: Prm
    /** The sentence length. */
    const n: nat
    ghost const knownPreds: set<int>
    ghost const roleStateNames: seq<string>
    /** `roleVars[i][j]`: the role of argument j for predicate i. */
    const roleVars: array2<Option<Var>>
    /** `rootVars[j]`: the link from the wall to j. */
    const rootVars: array<Option<Var>>
    /** `childVars[i][j]`: the link from i to j. */
    const childVars: array2<Option<Var>>
    /** The factors, in the order they were added. */
    var factors: seq<Factor>

    ghost function Arguments(): Input
      reads this
    {
      Input(prm, n, knownPreds, roleStateNames)
    }

    /** The tables and the factor list are those the constructor builds for
      its arguments. */
    ghost predicate Valid()
      reads this, roleVars, rootVars, childVars
    {
      roleVars.Length0 == n && roleVars.Length1 == n && rootVars.Length == n
      && childVars.Length0 == n && childVars.Length1 == n
      && (forall i, j :: 0 <= i < n && 0 <= j < n ==> roleVars[i, j] == RoleAt(Arguments(), i, j))
      && (forall j :: 0 <= j < n ==> rootVars[j] == LinkAt(Arguments(), Wall, j))
      && (forall i, j :: 0 <= i < n && 0 <= j < n ==> childVars[i, j] == LinkAt(Arguments(), i, j))
      && factors == FactorsOf(Arguments())
    }

    /** The constructor, for arguments under which it does not throw: the
      role variables, then the link variables (from a new tree factor, which
      is added as the first factor, or the graph's own), then the factors of
      every cell. */
    constructor (g: Input)
      requires Supported(g)
      ensures Valid() && Arguments() == g
    {
      var roles := NewRoleVars(g);
      var roots, kids;
      var fs: seq<Factor> := [];
      if UsesTree(g.prm) {
        var tree := new ProjDepTreeFactor(g.n, g.prm.linkVarType);
        roots, kids := tree.rootVars, tree.childVars;
        fs := [GlobalTree(g.n, g.prm.linkVarType)];
      } else {
        roots, kids := NewLinkVars(g);
      }
      var cells := CollectFactors(g, roles, roots, kids);
      prm := g.prm;
      n := g.n;
      knownPreds := g.knownPreds;
      roleStateNames := g.roleStateNames;
      roleVars := roles;
      rootVars := roots;
      childVars := kids;
      factors := fs + cells;
    }

    /** `getLinkVar(parent, child)`: null outside -1 <= parent < n and
      0 <= child < n, otherwise the table entry. */
    function GetLinkVar(parent: int, child: int): (r: Option<Var>)
      requires Valid()
      reads this, roleVars, rootVars, childVars
      ensures r == LinkAt(Arguments(), parent, child)
      ensures !(-1 <= parent < n && 0 <= child < n) ==> r == None
    {
      if !(-1 <= parent < n && 0 <= child < n) then None
      else if parent == Wall then rootVars[child]
      else childVars[parent, child]
    }

    /** `getRoleVar(i, j)`: null outside the table, otherwise its entry. */
    function GetRoleVar(i: int, j: int): (r: Option<Var>)
      requires Valid()
      reads this, roleVars, rootVars, childVars
      ensures r == RoleAt(Arguments(), i, j)
      ensures !(0 <= i < n && 0 <= j < n) ==> r == None
    {
      if 0 <= i < roleVars.Length0 && 0 <= j < roleVars.Length1 then roleVars[i, j] else None
    }
  }

  /** `new SrlFactorGraph(prm, sentence, knownPreds, cs)`: an unset role
      structure raises IllegalArgumentException; with PREDS_GIVEN, a known
      predicate outside a non-empty sentence raises
      ArrayIndexOutOfBoundsException. */
  method NewSrlFactorGraph(g: Input) returns (r: Result<SrlFactorGraph>)
    ensures r.Throw? <==> !Supported(g)
    ensures r.Throw? ==> r.ex == if g.prm.roleStructure.None? then IllegalArgument else IndexOutOfBounds
    ensures r.Ok? ==> r.value.Valid() && r.value.Arguments() == g
  {
    if g.prm.roleStructure.None? {
      return Throw(IllegalArgument);
    }
    if g.prm.roleStructure.value == PredsGiven && g.n > 0 && !(forall p :: p in g.knownPreds ==> 0 <= p < g.n) {
      return Throw(IndexOutOfBounds);
    }
    var sfg := new SrlFactorGraph(g);
    r := Ok(sfg);
  }
}
