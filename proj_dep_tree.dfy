/** The bookkeeping of the projective dependency-tree factor
    (`ProjDepTreeFactor`): the n*n link variables of a sentence of n tokens,
    their lookup by (parent, child), the one-parent-per-token check, parent
    extraction, the 0 / -infinity score rule, and the gathering and
    scattering of TRUE/FALSE message entries by arc.  The inside-outside
    dynamic program and the tree test `ParentsArray.isDepTree` are not part
    of this model; the tree test is a parameter. */
module ProjDepTree {
  import opened Wrappers
  import opened JavaLang
  import opened Vars
  import opened VarConfigs
  import VarSets

  /** The value `getParents` leaves for a token without a parent. */
  const Unset: int := -2
  /** `ParentsArray.WALL_POSITION`. */
  const Wall: int := -1

  /** The name the factor gives the link from p to c. */
  function LinkName(p: int, c: int): string
  {
    "Link_" + IntToString(p) + "_" + IntToString(c)
  }

  /** `new LinkVar(type, name, p, c)`: a two-state link variable. */
  function LinkVarOf(t: VarType, p: int, c: int): (v: Var)
    ensures v.cls == LinkVar(p, c) && v.kind == t && v.numStates == 2
  {
    Var(t, 2, LinkName(p, c), ["FALSE", "TRUE"], LinkVar(p, c))
  }

  /** x is the link variable of type t for the arc it names. */
  predicate IsLinkOf(t: VarType, x: Var)
  {
    x.cls.LinkVar? && x == LinkVarOf(t, x.cls.parent, x.cls.child)
  }

  /* ---------------- Layout of the variables ---------------- */

  /** An arc (parent, child); the wall is parent -1. */
  type Arc = (int, int)

  /** The link variables of the arcs, in the same order. */
  function Links(t: VarType, arcs: seq<Arc>): (vs: seq<Var>)
    ensures |vs| == |arcs|
    ensures forall k :: 0 <= k < |arcs| ==> vs[k] == LinkVarOf(t, arcs[k].0, arcs[k].1)
  {
    seq(|arcs|, k requires 0 <= k < |arcs| => LinkVarOf(t, arcs[k].0, arcs[k].1))
  }

  /** Arcs from token i to the children j < m other than i, in order of j. */
  function RowArcs(i: int, m: nat): seq<Arc>
  {
    if m == 0 then [] else RowArcs(i, m - 1) + (if m - 1 != i then [(i, m - 1)] else [])
  }

  /** The rows of the parents 0..k-1 over children 0..n-1. */
  function RowsArcs(n: nat, k: nat): seq<Arc>
  {
    if k == 0 then [] else RowsArcs(n, k - 1) + RowArcs(k - 1, n)
  }

  /** Arcs from the wall to the children 0..m-1. */
  function RootArcs(m: nat): seq<Arc>
  {
    if m == 0 then [] else RootArcs(m - 1) + [(Wall, m - 1)]
  }

  /** The arcs of `createVarSet(n, type)`: every child arc i != j, row by
      row, followed by the n arcs from the wall. */
  function TreeArcs(n: nat): seq<Arc>
  {
    RowsArcs(n, n) + RootArcs(n)
  }

  /** The variable set of `createVarSet(n, type)`. */
  function TreeVars(t: VarType, n: nat): seq<Var>
  {
    Links(t, TreeArcs(n))
  }

  lemma {:induction false} RowArcsMembers(i: int, m: nat)
    ensures forall a :: a in RowArcs(i, m) <==> a.0 == i && 0 <= a.1 < m && a.1 != i
    ensures |RowArcs(i, m)| == if 0 <= i < m then m - 1 else m
    ensures Distinct(RowArcs(i, m))
  {
    if m > 0 {
      RowArcsMembers(i, m - 1);
    }
  }

  lemma {:induction false} RowsArcsMembers(n: nat, k: nat)
    requires k <= n
    ensures forall a :: a in RowsArcs(n, k) <==> 0 <= a.0 < k && 0 <= a.1 < n && a.1 != a.0
  {
    if k > 0 {
      RowsArcsMembers(n, k - 1);
      RowsArcsMembersStep(n, k);
    }
  }

  /** One more row of child arcs. */
  lemma RowsArcsMembersStep(n: nat, k: nat)
    requires 0 < k <= n
    requires forall a :: a in RowsArcs(n, k - 1) <==> 0 <= a.0 < k - 1 && 0 <= a.1 < n && a.1 != a.0
    ensures forall a :: a in RowsArcs(n, k) <==> 0 <= a.0 < k && 0 <= a.1 < n && a.1 != a.0
  {
    RowArcsMembers(k - 1, n);
    assert RowsArcs(n, k) == RowsArcs(n, k - 1) + RowArcs(k - 1, n);
  }

  lemma {:induction false} RowsArcsDistinct(n: nat, k: nat)
    requires k <= n
    ensures Distinct(RowsArcs(n, k))
  {
    if k > 0 {
      RowsArcsDistinct(n, k - 1);
      RowsArcsDistinctStep(n, k);
    }
  }

  /** A new row shares no arc with the rows before it. */
  lemma RowsArcsDistinctStep(n: nat, k: nat)
    requires 0 < k <= n && Distinct(RowsArcs(n, k - 1))
    ensures Distinct(RowsArcs(n, k))
  {
    RowsArcsDisjoint(n, k - 1);
    RowArcsDistinct(k - 1, n);
    DistinctConcat(RowsArcs(n, k - 1), RowArcs(k - 1, n));
  }

  /** The row of parent k shares no arc with the rows before it. */
  lemma RowsArcsDisjoint(n: nat, k: nat)
    requires k < n
    ensures forall a :: a in RowsArcs(n, k) ==> a !in RowArcs(k, n)
  {
    forall a | a in RowsArcs(n, k) ensures a !in RowArcs(k, n) {
      RowsArcsParent(n, k, a);
      if a in RowArcs(k, n) {
        RowArcsParent(k, n, a);
      }
    }
  }

  /** An arc of the rows 0..k-1 has its parent below k. */
  lemma RowsArcsParent(n: nat, k: nat, a: Arc)
    requires k <= n && a in RowsArcs(n, k)
    ensures 0 <= a.0 < k
  {
    RowsArcsMembers(n, k);
  }

  /** A row holds no arc twice. */
  lemma RowArcsDistinct(i: int, m: nat)
    ensures Distinct(RowArcs(i, m))
  {
    RowArcsMembers(i, m);
  }

  /** An arc of row i has parent i. */
  lemma RowArcsParent(i: int, m: nat, a: Arc)
    requires a in RowArcs(i, m)
    ensures a.0 == i
  {
    RowArcsMembers(i, m);
  }

  lemma {:induction false} RowsArcsLength(n: nat, k: nat)
    requires k <= n
    ensures |RowsArcs(n, k)| == k * (n - 1)
  {
    if k > 0 {
      RowsArcsLength(n, k - 1);
      RowArcsMembers(k - 1, n);
      assert k * (n - 1) == (k - 1) * (n - 1) + (n - 1);
    }
  }

  lemma {:induction false} RootArcsMembers(m: nat)
    ensures forall a :: a in RootArcs(m) <==> a.0 == Wall && 0 <= a.1 < m
    ensures |RootArcs(m)| == m
    ensures Distinct(RootArcs(m))
  {
    if m > 0 {
      RootArcsMembers(m - 1);
    }
  }

  lemma DistinctConcat<T>(a: seq<T>, b: seq<T>)
    requires Distinct(a) && Distinct(b)
    requires forall x :: x in a ==> x !in b
    ensures Distinct(a + b)
  {
    forall i, j | 0 <= i < j < |a + b| ensures (a + b)[i] != (a + b)[j] {
      if i < |a| && j >= |a| {
        assert (a + b)[i] in a && (a + b)[j] in b;
      }
    }
  }

  /** The arcs are the pairs (p, c) with -1 <= p < n, 0 <= c < n and p != c,
      each once, n*n of them. */
  lemma TreeArcsMembers(n: nat)
    ensures forall a :: a in TreeArcs(n) <==> -1 <= a.0 < n && 0 <= a.1 < n && a.1 != a.0
    ensures Distinct(TreeArcs(n))
    ensures |TreeArcs(n)| == n * n
  {
    RowsArcsMembers(n, n);
    RowsArcsDistinct(n, n);
    RowsArcsLength(n, n);
    RootArcsMembers(n);
    DistinctConcat(RowsArcs(n, n), RootArcs(n));
    assert n * (n - 1) + n == n * n;
  }

  /** Each arc of the layout is in range and off the diagonal. */
  lemma TreeArcInRange(n: nat, k: nat)
    requires k < |TreeArcs(n)|
    ensures -1 <= TreeArcs(n)[k].0 < n && 0 <= TreeArcs(n)[k].1 < n
    ensures TreeArcs(n)[k].0 != TreeArcs(n)[k].1
  {
    TreeArcsMembers(n);
    assert TreeArcs(n)[k] in TreeArcs(n);
  }

  /** A variable is among the links of some arcs exactly when it is the link
      of one of them; distinct arcs have distinct links. */
  lemma LinksMembers(t: VarType, arcs: seq<Arc>)
    ensures forall x :: x in Links(t, arcs) <==> IsLinkOf(t, x) && (x.cls.parent, x.cls.child) in arcs
    ensures Distinct(arcs) ==> Distinct(Links(t, arcs))
  {
    var vs := Links(t, arcs);
    forall x | IsLinkOf(t, x) && (x.cls.parent, x.cls.child) in arcs ensures x in vs {
      var k :| 0 <= k < |arcs| && arcs[k] == (x.cls.parent, x.cls.child);
      assert vs[k] == x;
    }
    forall i, j | 0 <= i < j < |vs| && Distinct(arcs) ensures vs[i] != vs[j] {
      assert vs[i].cls == LinkVar(arcs[i].0, arcs[i].1);
      assert vs[j].cls == LinkVar(arcs[j].0, arcs[j].1);
    }
  }

  /** The variables are exactly the links (p, c) with -1 <= p < n, 0 <= c < n
      and p != c, none twice, and there are n*n of them. */
  lemma TreeVarsMembers(t: VarType, n: nat)
    ensures forall x :: x in TreeVars(t, n) <==>
      IsLinkOf(t, x) && -1 <= x.cls.parent < n && 0 <= x.cls.child < n && x.cls.child != x.cls.parent
    ensures Distinct(TreeVars(t, n))
    ensures |TreeVars(t, n)| == n * n
  {
    TreeArcsMembers(n);
    LinksMembers(t, TreeArcs(n));
  }

  /** Adding the link of a new arc appends it. */
  lemma AddLink(t: VarType, arcs: seq<Arc>, a: Arc)
    requires a !in arcs
    ensures Add(Links(t, arcs), LinkVarOf(t, a.0, a.1)) == Links(t, arcs + [a])
  {
    LinksMembers(t, arcs);
    assert LinkVarOf(t, a.0, a.1) !in Links(t, arcs);
    assert Links(t, arcs) + [LinkVarOf(t, a.0, a.1)] == Links(t, arcs + [a]);
  }

  /** The arc (i, j) is new when row i reaches child j, and extends it. */
  lemma RowStep(n: nat, i: nat, j: nat)
    requires i < n && j < n
    ensures i != j ==> (i, j) !in RowsArcs(n, i) + RowArcs(i, j)
    ensures RowsArcs(n, i) + RowArcs(i, j + 1)
      == RowsArcs(n, i) + RowArcs(i, j) + (if i != j then [(i, j)] else [])
  {
    RowsArcsMembers(n, i);
    RowArcsMembers(i, j);
    assert RowArcs(i, j + 1) == RowArcs(i, j) + (if i != j then [(i, j)] else []);
  }

  /** The arc from the wall to j is new after the rows and the roots below j. */
  lemma RootStep(n: nat, j: nat)
    requires j < n
    ensures (Wall, j) !in RowsArcs(n, n) + RootArcs(j)
    ensures RowsArcs(n, n) + RootArcs(j + 1) == RowsArcs(n, n) + RootArcs(j) + [(Wall, j)]
  {
    RowsArcsMembers(n, n);
    RootArcsMembers(j);
  }

  /** No link occurs twice. */
  lemma TreeVarsDistinct(t: VarType, n: nat)
    ensures Distinct(TreeVars(t, n))
  {
    TreeArcsMembers(n);
    LinksMembers(t, TreeArcs(n));
  }

  /** One pass of the inner loop of `createVarSet`: add the links from
      token i to every other token, in order of the child. */
  method AddRow(n: nat, t: VarType, i: nat, vs0: seq<Var>) returns (vs: seq<Var>)
    requires i < n && vs0 == Links(t, RowsArcs(n, i))
    ensures vs == Links(t, RowsArcs(n, i + 1))
  {
    vs := vs0;
    ghost var arcs := RowsArcs(n, i);
    assert arcs == RowsArcs(n, i) + RowArcs(i, 0);
    var j := 0;
    while j < n
      invariant 0 <= j <= n
      invariant arcs == RowsArcs(n, i) + RowArcs(i, j) && vs == Links(t, arcs)
    {
      RowStep(n, i, j);
      if i != j {
        AddLink(t, arcs, (i, j));
        vs := Add(vs, LinkVarOf(t, i, j));
        arcs := arcs + [(i, j)];
      }
      j := j + 1;
    }
  }

  /** The second loop of `createVarSet`: add the links from the wall. */
  method AddRoots(n: nat, t: VarType, vs0: seq<Var>) returns (vs: seq<Var>)
    requires vs0 == Links(t, RowsArcs(n, n))
    ensures vs == TreeVars(t, n)
  {
    vs := vs0;
    ghost var arcs := RowsArcs(n, n);
    assert arcs == RowsArcs(n, n) + RootArcs(0);
    var j := 0;
    while j < n
      invariant 0 <= j <= n
      invariant arcs == RowsArcs(n, n) + RootArcs(j) && vs == Links(t, arcs)
    {
      RootStep(n, j);
      AddLink(t, arcs, (Wall, j));
      vs := Add(vs, LinkVarOf(t, Wall, j));
      arcs := arcs + [(Wall, j)];
      j := j + 1;
    }
  }

  /** `createVarSet(n, type)`: every child link row by row, then the links
      from the wall, each added to the set. */
  method CreateVarSet(n: nat, t: VarType) returns (vs: seq<Var>)
    ensures vs == TreeVars(t, n)
  {
    vs := [];
    var i := 0;
    while i < n
      invariant 0 <= i <= n
      invariant vs == Links(t, RowsArcs(n, i))
    {
      vs := AddRow(n, t, i, vs);
      i := i + 1;
    }
    vs := AddRoots(n, t, vs);
  }

  /** Some arc among the first k is (p, c). */
  ghost predicate Filed(arcs: seq<Arc>, k: nat, p: int, c: int)
  {
    exists j :: 0 <= j < k && j < |arcs| && arcs[j] == (p, c)
  }

  lemma FiledStep(arcs: seq<Arc>, k: nat)
    requires k < |arcs|
    ensures forall p, c :: Filed(arcs, k + 1, p, c) <==> Filed(arcs, k, p, c) || arcs[k] == (p, c)
  {
  }

  lemma FiledAll(arcs: seq<Arc>)
    ensures forall p, c :: Filed(arcs, |arcs|, p, c) <==> (p, c) in arcs
  {
    forall p, c | (p, c) in arcs ensures Filed(arcs, |arcs|, p, c) {
      var j :| 0 <= j < |arcs| && arcs[j] == (p, c);
    }
  }

  /** The tables after the links of the first k arcs are filed. */
  ghost predicate Tables(roots: array<Option<Var>>, kids: array2<Option<Var>>, n: nat, t: VarType, arcs: seq<Arc>, k: nat)
    reads roots, kids
  {
    roots.Length == n && kids.Length0 == n && kids.Length1 == n
    && (forall c :: 0 <= c < n ==>
         roots[c] == if Filed(arcs, k, Wall, c) then Some(LinkVarOf(t, Wall, c)) else None)
    && (forall p, c :: 0 <= p < n && 0 <= c < n ==>
         kids[p, c] == if Filed(arcs, k, p, c) then Some(LinkVarOf(t, p, c)) else None)
  }

  /** The two tables before the loop: every cell `null`. */
  method EmptyTables(n: nat, t: VarType, ghost arcs: seq<Arc>) returns (roots: array<Option<Var>>, kids: array2<Option<Var>>)
    ensures fresh(roots) && fresh(kids)
    ensures Tables(roots, kids, n, t, arcs, 0)
  {
    roots := new Option<Var>[n](_ => None);
    kids := new Option<Var>[n, n]((_, _) => None);
  }

  /** One pass of the constructor's loop: the link of arc k goes into the
      wall's table or the tokens' table. */
  method FileLink(roots: array<Option<Var>>, kids: array2<Option<Var>>, n: nat, t: VarType, ghost arcs: seq<Arc>,
                  k: nat, link: Var)
    requires k < |arcs| && Tables(roots, kids, n, t, arcs, k)
    requires -1 <= arcs[k].0 < n && 0 <= arcs[k].1 < n && arcs[k].0 != arcs[k].1
    requires link == LinkVarOf(t, arcs[k].0, arcs[k].1)
    modifies roots, kids
    ensures Tables(roots, kids, n, t, arcs, k + 1)
  {
    FiledStep(arcs, k);
    if link.cls.parent == Wall {
      roots[link.cls.child] := Some(link);
    } else {
      kids[link.cls.parent, link.cls.child] := Some(link);
    }
  }

  /** The loop of the constructor: file each link of `vs` under its arc in a
      table for the wall and a table for the tokens (`null` is `None`). */
  method FileLinks(n: nat, t: VarType, vs: seq<Var>)
    returns (roots: array<Option<Var>>, kids: array2<Option<Var>>)
    requires vs == TreeVars(t, n)
    ensures fresh(roots) && fresh(kids)
    ensures roots.Length == n && kids.Length0 == n && kids.Length1 == n
    ensures forall c :: 0 <= c < n ==> roots[c] == Some(LinkVarOf(t, Wall, c))
    ensures forall p, c :: 0 <= p < n && 0 <= c < n ==>
      kids[p, c] == if p == c then None else Some(LinkVarOf(t, p, c))
  {
    ghost var arcs := TreeArcs(n);
    roots, kids := EmptyTables(n, t, arcs);
    assert |arcs| == |vs|;
    var k := 0;
    while k < |vs|
      invariant 0 <= k <= |vs|
      invariant Tables(roots, kids, n, t, arcs, k)
    {
      TreeArcInRange(n, k);
      assert vs[k] == LinkVarOf(t, arcs[k].0, arcs[k].1);
      FileLink(roots, kids, n, t, arcs, k, vs[k]);
      k := k + 1;
    }
    TablesFull(roots, kids, n, t);
  }

  /** Once every arc of the tree is filed, the wall's table holds a link for
      every token and the tokens' table one for every pair but the diagonal. */
  lemma TablesFull(roots: array<Option<Var>>, kids: array2<Option<Var>>, n: nat, t: VarType)
    requires Tables(roots, kids, n, t, TreeArcs(n), |TreeArcs(n)|)
    ensures forall c :: 0 <= c < n ==> roots[c] == Some(LinkVarOf(t, Wall, c))
    ensures forall p, c :: 0 <= p < n && 0 <= c < n ==>
      kids[p, c] == if p == c then None else Some(LinkVarOf(t, p, c))
  {
    FiledAll(TreeArcs(n));
    TreeArcsMembers(n);
  }

  /* ---------------- The factor and its lookup tables ---------------- */

  class ProjDepTreeFactor {
    /** The sentence length. */
    const n: nat
    /** The type given to every link variable. */
    ghost const varType: VarType
    const vars: seq<Var>
    /** `rootVars[c]`: the link from the wall to c (`null` is `None`). */
    const rootVars: array<Option<Var>>
    /** `childVars[p][c]`: the link from p to c; `None` on the diagonal. */
    const childVars: array2<Option<Var>>

    ghost predicate Valid()
      reads this, rootVars, childVars
    {
      vars == TreeVars(varType, n)
      && rootVars.Length == n && childVars.Length0 == n && childVars.Length1 == n
      && (forall c :: 0 <= c < n ==> rootVars[c] == Some(LinkVarOf(varType, Wall, c)))
      && (forall p, c :: 0 <= p < n && 0 <= c < n ==>
            childVars[p, c] == if p == c then None else Some(LinkVarOf(varType, p, c)))
    }

    /** `new ProjDepTreeFactor(n, type)`: create the variables, then file each
        link under its arc. */
    constructor (len: nat, t: VarType)
      ensures Valid() && n == len && varType == t
    {
      var vs := CreateVarSet(len, t);
      n := len;
      varType := t;
      vars := vs;
      var roots, kids := FileLinks(len, t, vs);
      rootVars := roots;
      childVars := kids;
    }

    /** `getLinkVar(parent, child)`: the wall's table for parent -1, the
        child table otherwise; an index outside the tables raises
        ArrayIndexOutOfBoundsException, and the diagonal holds `null`. */
    function GetLinkVar(parent: int, child: int): (r: Result<Option<Var>>)
      reads this, rootVars, childVars
      ensures Valid() && -1 <= parent < n && 0 <= child < n && parent != child ==>
        r == Ok(Some(LinkVarOf(varType, parent, child)))
      ensures Valid() && 0 <= parent < n && parent == child ==> r == Ok(None)
      ensures Valid() && !(-1 <= parent < n && 0 <= child < n) ==> r == Throw(IndexOutOfBounds)
    {
      if parent == Wall then
        if 0 <= child < rootVars.Length then Ok(rootVars[child]) else Throw(IndexOutOfBounds)
      else if 0 <= parent < childVars.Length0 && 0 <= child < childVars.Length1 then
        Ok(childVars[parent, child])
      else Throw(IndexOutOfBounds)
    }

    /** `getLogUnormalizedScore(vc)`: the check, then the parents, then the
        tree test. */
    method GetLogUnormalizedScore(vc: VarConfig, isDepTree: seq<int> -> bool) returns (r: Result<Double>)
      requires vc.Valid()
      ensures r == ScoreOf(n, vc.config, vc.vars, isDepTree)
    {
      var one := HasOneParentPerToken(n, vc);
      if one.Throw? {
        return Throw(one.ex);
      }
      if !one.value {
        return Ok(NegInf);
      }
      var parents := GetParents(n, vc);
      if parents.Throw? {
        return Throw(parents.ex);
      }
      if !isDepTree(parents.value[..]) {
        return Ok(NegInf);
      }
      return Ok(Finite(0.0));
    }

    /** `getLogUnormalizedScore(configId)`: decode the index over the
        factor's variables, then score that assignment. */
    method GetLogUnormalizedScoreOfIndex(configId: int, isDepTree: seq<int> -> bool) returns (r: Result<Double>)
      requires Valid()
      ensures r == ScoreOfIndex(varType, n, configId, isDepTree)
    {
      TreeVarsDistinct(varType, n);
      var vc :- VarSets.GetVarConfig(vars, configId);
      r := GetLogUnormalizedScore(vc, isDepTree);
    }
  }

  /* ---------------- One parent per token ---------------- */

  /** A link variable that the assignment sets to TRUE. */
  predicate IsTrueLink(config: map<Var, int>, v: Var)
  {
    v.cls.LinkVar? && v in config && config[v] == LinkTrue
  }

  /** Where the scan of `hasOneParentPerToken` / `getParents` stands: the
      parents filled in so far, a second TRUE link into a token, or a TRUE
      link whose child is outside the array. */
  datatype Scan = Filled(parents: seq<int>) | Duplicate | OutOfBounds

  /** One iteration of the two loops: a TRUE link files its parent under its
      child, unless that child already has one. */
  function ScanStep(p: seq<int>, config: map<Var, int>, v: Var): Scan
  {
    if !IsTrueLink(config, v) then Filled(p)
    else if !(0 <= v.cls.child < |p|) then OutOfBounds
    else if p[v.cls.child] != Unset then Duplicate
    else Filled(p[v.cls.child := v.cls.parent])
  }

  /** The scan over the variables in order, from an array of n `Unset`s; the
      first failure ends it. */
  function ScanParents(n: nat, config: map<Var, int>, vars: seq<Var>): (r: Scan)
    ensures r.Filled? ==> |r.parents| == n
  {
    if vars == [] then Filled(seq(n, _ => Unset))
    else
      match ScanParents(n, config, vars[..|vars| - 1])
      case Filled(p) => ScanStep(p, config, vars[|vars| - 1])
      case other => other
  }

  /** `hasOneParentPerToken(n, vc)`: false on a second parent, otherwise
      whether no token was left without one. */
  function OneParentPerToken(n: nat, config: map<Var, int>, vars: seq<Var>): (r: Result<bool>)
    ensures r.Throw? <==> ScanParents(n, config, vars).OutOfBounds?
    ensures r.Throw? ==> r.ex == IndexOutOfBounds
    ensures r == Ok(true) ==> ScanParents(n, config, vars).Filled?
  {
    match ScanParents(n, config, vars)
    case Filled(p) => Ok(Unset !in p)
    case Duplicate => Ok(false)
    case OutOfBounds => Throw(IndexOutOfBounds)
  }

  /** `getParents(n, vc)`: the parent of each token (`Unset` if none), or
      IllegalStateException on a second parent. */
  function ParentsOf(n: nat, config: map<Var, int>, vars: seq<Var>): (r: Result<seq<int>>)
    ensures r.Ok? ==> |r.value| == n
    ensures r.Throw? ==> (r.ex == IllegalState <==> ScanParents(n, config, vars).Duplicate?)
    ensures r.Throw? ==> (r.ex == IndexOutOfBounds <==> ScanParents(n, config, vars).OutOfBounds?)
  {
    match ScanParents(n, config, vars)
    case Filled(p) => Ok(p)
    case Duplicate => Throw(IllegalState)
    case OutOfBounds => Throw(IndexOutOfBounds)
  }

  /** A failed scan stays failed as more variables are read. */
  lemma {:induction false} ScanAbsorbs(n: nat, config: map<Var, int>, vars: seq<Var>, k: nat)
    requires k <= |vars| && !ScanParents(n, config, vars[..k]).Filled?
    ensures ScanParents(n, config, vars) == ScanParents(n, config, vars[..k])
    decreases |vars| - k
  {
    if k < |vars| {
      PrefixSnoc(vars, k);
      assert vars[..k + 1][..k] == vars[..k];
      ScanAbsorbs(n, config, vars, k + 1);
    } else {
      assert vars[..k] == vars;
    }
  }

  /** One iteration of the scan over a `parents` array: a TRUE link files
      its parent under its child, unless the child lies outside the array or
      already has a parent. */
  method FileParent(parents: array<int>, vc: VarConfig, v: Var) returns (s: Scan)
    requires vc.Valid() && v in vc.config
    modifies parents
    ensures s == ScanStep(old(parents[..]), vc.config, v)
    ensures s.Filled? ==> parents[..] == s.parents
  {
    assert vc.GetState(v) == Ok(vc.config[v]);
    if v.cls.LinkVar? {
      var state := vc.GetState(v).value;
      if state == LinkTrue {
        if !(0 <= v.cls.child < parents.Length) {
          return OutOfBounds;
        }
        if parents[v.cls.child] != Unset {
          return Duplicate;
        }
        parents[v.cls.child] := v.cls.parent;
      }
    }
    s := Filled(parents[..]);
  }

  /** The scan of `hasOneParentPerToken`: the loop of the source over a
      `parents` array filled with -2. */
  method HasOneParentPerToken(n: nat, vc: VarConfig) returns (r: Result<bool>)
    requires vc.Valid()
    ensures r == OneParentPerToken(n, vc.config, vc.vars)
  {
    var parents := new int[n](_ => Unset);
    var vars := vc.vars;
    var k := 0;
    assert vars[..0] == [];
    while k < |vars|
      invariant 0 <= k <= |vars|
      invariant ScanParents(n, vc.config, vars[..k]) == Filled(parents[..])
    {
      PrefixSnoc(vars, k);
      assert vars[..k + 1][..k] == vars[..k];
      var s := FileParent(parents, vc, vars[k]);
      if !s.Filled? {
        ScanAbsorbs(n, vc.config, vars, k + 1);
        return if s.Duplicate? then Ok(false) else Throw(IndexOutOfBounds);
      }
      k := k + 1;
    }
    assert vars[..k] == vars;
    r := Ok(Unset !in parents[..]);
  }

  /** `getParents(n, vc)`: the same scan, throwing on a second parent. */
  method GetParents(n: nat, vc: VarConfig) returns (r: Result<array<int>>)
    requires vc.Valid()
    ensures ParentsOf(n, vc.config, vc.vars).Ok? <==> r.Ok?
    ensures r.Ok? ==> fresh(r.value) && r.value[..] == ParentsOf(n, vc.config, vc.vars).value
    ensures r.Throw? ==> r.ex == ParentsOf(n, vc.config, vc.vars).ex
  {
    var parents := new int[n](_ => Unset);
    var vars := vc.vars;
    var k := 0;
    assert vars[..0] == [];
    while k < |vars|
      invariant 0 <= k <= |vars|
      invariant ScanParents(n, vc.config, vars[..k]) == Filled(parents[..])
    {
      PrefixSnoc(vars, k);
      assert vars[..k + 1][..k] == vars[..k];
      var s := FileParent(parents, vc, vars[k]);
      if !s.Filled? {
        ScanAbsorbs(n, vc.config, vars, k + 1);
        return Throw(if s.Duplicate? then IllegalState else IndexOutOfBounds);
      }
      k := k + 1;
    }
    assert vars[..k] == vars;
    r := Ok(parents);
  }

  /* ---------------- What the scan computes ---------------- */

  /** The number of TRUE links into token c. */
  function CountInto(config: map<Var, int>, vars: seq<Var>, c: int): nat
  {
    if vars == [] then 0
    else
      var x := vars[|vars| - 1];
      CountInto(config, vars[..|vars| - 1], c) + (if IsTrueLink(config, x) && x.cls.child == c then 1 else 0)
  }

  /** The parent of the last TRUE link into token c, or `Unset`. */
  function ParentInto(config: map<Var, int>, vars: seq<Var>, c: int): int
  {
    if vars == [] then Unset
    else
      var x := vars[|vars| - 1];
      if IsTrueLink(config, x) && x.cls.child == c then x.cls.parent
      else ParentInto(config, vars[..|vars| - 1], c)
  }

  /** Every TRUE link points into the sentence from a real parent (the
      wall or a token), as every link of the factor does. */
  predicate TrueLinksInRange(n: nat, config: map<Var, int>, vars: seq<Var>)
  {
    forall i :: 0 <= i < |vars| && IsTrueLink(config, vars[i]) ==>
      0 <= vars[i].cls.child < n && vars[i].cls.parent != Unset
  }

  lemma TrueLinksInRangePrefix(n: nat, config: map<Var, int>, vars: seq<Var>)
    requires vars != [] && TrueLinksInRange(n, config, vars)
    ensures TrueLinksInRange(n, config, vars[..|vars| - 1])
  {
    var pre := vars[..|vars| - 1];
    forall i | 0 <= i < |pre| && IsTrueLink(config, pre[i])
      ensures 0 <= pre[i].cls.child < n && pre[i].cls.parent != Unset
    {
      assert pre[i] == vars[i];
    }
  }

  /** A token has no recorded parent exactly when no TRUE link enters it. */
  lemma {:induction false} ParentUnsetIff(n: nat, config: map<Var, int>, vars: seq<Var>, c: int)
    requires TrueLinksInRange(n, config, vars)
    ensures ParentInto(config, vars, c) == Unset <==> CountInto(config, vars, c) == 0
  {
    if vars != [] {
      TrueLinksInRangePrefix(n, config, vars);
      ParentUnsetIff(n, config, vars[..|vars| - 1], c);
    }
  }

  /** The scan never runs out of the array when the links are in range; it
      reports a second parent exactly when some token has two TRUE links
      into it, and otherwise records for each token the parent of its TRUE
      link, or `Unset` if it has none. */
  lemma {:induction false} ScanCharacterised(n: nat, config: map<Var, int>, vars: seq<Var>)
    requires TrueLinksInRange(n, config, vars)
    ensures !ScanParents(n, config, vars).OutOfBounds?
    ensures ScanParents(n, config, vars).Duplicate? <==>
      exists c :: 0 <= c < n && CountInto(config, vars, c) >= 2
    ensures ScanParents(n, config, vars).Filled? ==> forall c :: 0 <= c < n ==>
      CountInto(config, vars, c) <= 1 && ScanParents(n, config, vars).parents[c] == ParentInto(config, vars, c)
  {
    if vars != [] {
      var pre, x := vars[..|vars| - 1], vars[|vars| - 1];
      TrueLinksInRangePrefix(n, config, vars);
      ScanCharacterised(n, config, pre);
      match ScanParents(n, config, pre)
      case Duplicate =>
        var c :| 0 <= c < n && CountInto(config, pre, c) >= 2;
        assert CountInto(config, vars, c) >= 2;
      case Filled(p) =>
        if IsTrueLink(config, x) {
          var cx := x.cls.child;
          assert 0 <= cx < n;
          ParentUnsetIff(n, config, pre, cx);
          if p[cx] != Unset {
            assert CountInto(config, vars, cx) == 2;
          } else {
            forall c | 0 <= c < n ensures CountInto(config, vars, c) <= 1 {
              assert CountInto(config, pre, c) <= 1;
            }
          }
        } else {
          forall c | 0 <= c < n ensures CountInto(config, vars, c) <= 1 {
            assert CountInto(config, pre, c) <= 1;
          }
        }
    }
  }

  /** `hasOneParentPerToken` holds exactly when every token has exactly one
      TRUE link into it. */
  lemma OneParentIff(n: nat, config: map<Var, int>, vars: seq<Var>)
    requires TrueLinksInRange(n, config, vars)
    ensures OneParentPerToken(n, config, vars).Ok?
    ensures OneParentPerToken(n, config, vars).value <==> forall c :: 0 <= c < n ==> CountInto(config, vars, c) == 1
  {
    ScanCharacterised(n, config, vars);
    match ScanParents(n, config, vars)
    case Duplicate =>
    case Filled(p) =>
      forall c | 0 <= c < n ensures p[c] == Unset <==> CountInto(config, vars, c) == 0 {
        ParentUnsetIff(n, config, vars, c);
      }
      if Unset in p {
        var c :| 0 <= c < n && p[c] == Unset;
        assert CountInto(config, vars, c) != 1;
      } else {
        forall c | 0 <= c < n ensures CountInto(config, vars, c) == 1 {
          assert p[c] in p;
        }
      }
  }

  /** `getParents` succeeds exactly when no token has two TRUE links into
      it, and then maps each token to the parent of its TRUE link. */
  lemma ParentsOfIff(n: nat, config: map<Var, int>, vars: seq<Var>)
    requires TrueLinksInRange(n, config, vars)
    ensures ParentsOf(n, config, vars).Ok? <==> forall c :: 0 <= c < n ==> CountInto(config, vars, c) <= 1
    ensures ParentsOf(n, config, vars).Ok? ==> forall c :: 0 <= c < n ==>
      ParentsOf(n, config, vars).value[c] == ParentInto(config, vars, c)
    ensures ParentsOf(n, config, vars).Throw? ==> ParentsOf(n, config, vars).ex == IllegalState
  {
    ScanCharacterised(n, config, vars);
    if ScanParents(n, config, vars).Duplicate? {
      var c :| 0 <= c < n && CountInto(config, vars, c) >= 2;
    }
  }

  /* ---------------- The assignments of the factor's tests ---------------- */

  /** When the only TRUE link into c that can occur is x, the count is 1 if
      x is present and 0 otherwise, and the parent is x's. */
  lemma {:induction false} CountOnly(config: map<Var, int>, vars: seq<Var>, c: int, x: Var)
    requires Distinct(vars) && IsTrueLink(config, x) && x.cls.child == c
    requires forall i :: 0 <= i < |vars| && IsTrueLink(config, vars[i]) && vars[i].cls.child == c ==> vars[i] == x
    ensures CountInto(config, vars, c) == if x in vars then 1 else 0
    ensures ParentInto(config, vars, c) == if x in vars then x.cls.parent else Unset
  {
    if vars != [] {
      var pre := vars[..|vars| - 1];
      assert forall i :: 0 <= i < |pre| ==> pre[i] == vars[i];
      CountOnly(config, pre, c, x);
      CountOnlyStep(config, vars, c, x);
    }
  }

  /** The last variable of the list in CountOnly: it adds 1 and its parent
      exactly when it is x, which then occurs nowhere before it. */
  lemma CountOnlyStep(config: map<Var, int>, vars: seq<Var>, c: int, x: Var)
    requires vars != [] && Distinct(vars) && IsTrueLink(config, x) && x.cls.child == c
    requires var y := vars[|vars| - 1]; IsTrueLink(config, y) && y.cls.child == c ==> y == x
    requires var pre := vars[..|vars| - 1];
      CountInto(config, pre, c) == (if x in pre then 1 else 0) &&
      ParentInto(config, pre, c) == (if x in pre then x.cls.parent else Unset)
    ensures CountInto(config, vars, c) == if x in vars then 1 else 0
    ensures ParentInto(config, vars, c) == if x in vars then x.cls.parent else Unset
  {
    var pre, y := vars[..|vars| - 1], vars[|vars| - 1];
    assert vars == pre + [y];
    if y == x {
      assert x !in pre;
    }
  }

  /** Two different TRUE links into c make its count at least 2. */
  lemma {:induction false} CountTwo(config: map<Var, int>, vars: seq<Var>, c: int, x: Var, y: Var)
    requires x != y && IsTrueLink(config, x) && IsTrueLink(config, y) && x.cls.child == c && y.cls.child == c
    ensures CountInto(config, vars, c) >= (if x in vars then 1 else 0) + (if y in vars then 1 else 0)
  {
    if vars != [] {
      var pre := vars[..|vars| - 1];
      CountTwo(config, pre, c, x, y);
      assert vars == pre + [vars[|vars| - 1]];
    }
  }

  /** The link variables of the factor, in any order, each once. */
  ghost predicate ListsTreeVars(t: VarType, n: nat, vars: seq<Var>)
  {
    Distinct(vars) && forall x :: x in vars <==> x in TreeVars(t, n)
  }

  /** The left-branching assignment of the tests: the link (p, c) is TRUE
      exactly when p == c - 1, apart from the links listed as flipped. */
  predicate LeftBranching(t: VarType, n: nat, config: map<Var, int>, vars: seq<Var>, flipped: set<Var>)
  {
    forall x :: x in vars ==>
      (x in config && config[x] == if (x.cls.LinkVar? && x.cls.parent == x.cls.child - 1) != (x in flipped) then LinkTrue else LinkFalse)
  }

  lemma TreeLinksInRange(t: VarType, n: nat, config: map<Var, int>, vars: seq<Var>)
    requires ListsTreeVars(t, n, vars)
    ensures TrueLinksInRange(n, config, vars)
    ensures forall x :: x in vars ==> x.cls.LinkVar? && -1 <= x.cls.parent < n && 0 <= x.cls.child < n
  {
    TreeVarsMembers(t, n);
    assert forall i :: 0 <= i < |vars| ==> vars[i] in vars;
  }

  /** The left-branching tree: every token c has exactly the parent c - 1
      (the wall for token 0), so `getParents` gives [-1, 0, ..., n-2] and
      `hasOneParentPerToken` holds. */
  lemma LeftBranchingParents(t: VarType, n: nat, config: map<Var, int>, vars: seq<Var>)
    requires ListsTreeVars(t, n, vars) && LeftBranching(t, n, config, vars, {})
    ensures ParentsOf(n, config, vars) == Ok(seq(n, c => c - 1))
    ensures OneParentPerToken(n, config, vars) == Ok(true)
  {
    TreeLinksInRange(t, n, config, vars);
    TreeVarsMembers(t, n);
    forall c | 0 <= c < n
      ensures CountInto(config, vars, c) == 1 && ParentInto(config, vars, c) == c - 1
    {
      var x := LinkVarOf(t, c - 1, c);
      assert x in vars;
      forall i | 0 <= i < |vars| && IsTrueLink(config, vars[i]) && vars[i].cls.child == c
        ensures vars[i] == x
      {
        assert vars[i] in vars;
      }
      CountOnly(config, vars, c, x);
    }
    ParentsOfIff(n, config, vars);
    OneParentIff(n, config, vars);
    assert ParentsOf(n, config, vars).value == seq(n, c => c - 1);
  }

  /** Setting one more link (p, c) TRUE gives token c two parents, and the
      check fails. */
  lemma ExtraParent(t: VarType, n: nat, config: map<Var, int>, vars: seq<Var>, p: int, c: int)
    requires ListsTreeVars(t, n, vars)
    requires -1 <= p < n && 0 <= c < n && p != c && p != c - 1
    requires LeftBranching(t, n, config, vars, {LinkVarOf(t, p, c)})
    ensures OneParentPerToken(n, config, vars) == Ok(false)
  {
    TreeLinksInRange(t, n, config, vars);
    TreeVarsMembers(t, n);
    var x, y := LinkVarOf(t, c - 1, c), LinkVarOf(t, p, c);
    assert x in vars && y in vars;
    CountTwo(config, vars, c, x, y);
    OneParentIff(n, config, vars);
  }

  /** Setting the link (c - 1, c) FALSE leaves token c without a parent, and
      the check fails. */
  lemma MissingParent(t: VarType, n: nat, config: map<Var, int>, vars: seq<Var>, c: int)
    requires ListsTreeVars(t, n, vars) && 0 <= c < n
    requires LeftBranching(t, n, config, vars, {LinkVarOf(t, c - 1, c)})
    ensures OneParentPerToken(n, config, vars) == Ok(false)
  {
    TreeLinksInRange(t, n, config, vars);
    forall i | 0 <= i < |vars| ensures !(IsTrueLink(config, vars[i]) && vars[i].cls.child == c) {
      assert vars[i] in vars;
    }
    CountNone(config, vars, c);
    OneParentIff(n, config, vars);
  }

  lemma {:induction false} CountNone(config: map<Var, int>, vars: seq<Var>, c: int)
    requires forall i :: 0 <= i < |vars| ==> !(IsTrueLink(config, vars[i]) && vars[i].cls.child == c)
    ensures CountInto(config, vars, c) == 0
  {
    if vars != [] {
      var pre := vars[..|vars| - 1];
      assert forall i :: 0 <= i < |pre| ==> pre[i] == vars[i];
      CountNone(config, pre, c);
    }
  }

  /** For n = 6 the parents are [-1, 0, 1, 2, 3, 4]. */
  lemma LeftBranchingSix(t: VarType, n: nat, config: map<Var, int>, vars: seq<Var>)
    requires n == 6 && ListsTreeVars(t, n, vars) && LeftBranching(t, n, config, vars, {})
    ensures ParentsOf(n, config, vars) == Ok([-1, 0, 1, 2, 3, 4])
  {
    LeftBranchingParents(t, n, config, vars);
    SixParents(n);
  }

  lemma SixParents(n: nat)
    requires n == 6
    ensures seq(n, c => c - 1) == [-1, 0, 1, 2, 3, 4]
  {
  }

  /* ---------------- The score ---------------- */

  /** `getLogUnormalizedScore(vc)` in the log semiring: zero (-infinity)
      unless every token has one parent and the parents form a tree, one
      (0.0) otherwise.  `isDepTree` stands for `ParentsArray.isDepTree`. */
  function ScoreOf(n: nat, config: map<Var, int>, vars: seq<Var>, isDepTree: seq<int> -> bool): Result<Double>
  {
    match OneParentPerToken(n, config, vars)
    case Throw(ex) => Throw(ex)
    case Ok(one) =>
      if !one then Ok(NegInf)
      else
        match ParentsOf(n, config, vars)
        case Throw(ex) => Throw(ex)
        case Ok(p) => Ok(if isDepTree(p) then Finite(0.0) else NegInf)
  }

  /** The score of the assignment with index `configId` over the factor's
      variables; a negative index decodes to negative states, which `put`
      rejects. */
  function ScoreOfIndex(t: VarType, n: nat, configId: int, isDepTree: seq<int> -> bool): Result<Double>
  {
    var vars := TreeVars(t, n);
    TreeVarsDistinct(t, n);
    match VarSets.Decode(Dims(vars), configId)
    case Throw(ex) => Throw(ex)
    case Ok(s) =>
      if !InRange(Dims(vars), s) then Throw(IllegalArgument)
      else ScoreOf(n, Assign(vars, s), vars, isDepTree)
  }

  /** Every non-negative index scores 0.0 or -infinity; a negative one is
      rejected with IllegalArgumentException. */
  lemma ScoreOfIndexRule(t: VarType, n: nat, configId: int, isDepTree: seq<int> -> bool)
    ensures configId >= 0 ==> ScoreOfIndex(t, n, configId, isDepTree).Ok?
    ensures ScoreOfIndex(t, n, configId, isDepTree).Throw? ==>
      ScoreOfIndex(t, n, configId, isDepTree).ex == IllegalArgument
    ensures ScoreOfIndex(t, n, configId, isDepTree).Ok? ==>
      ScoreOfIndex(t, n, configId, isDepTree).value in {Finite(0.0), NegInf}
  {
    var vars := TreeVars(t, n);
    var d := Dims(vars);
    TreeVarsDistinct(t, n);
    TreeVarsMembers(t, n);
    assert forall i :: 0 <= i < |d| ==> d[i] == 2 by {
      forall i | 0 <= i < |d| ensures d[i] == 2 {
        assert vars[i] in vars;
      }
    }
    VarSets.DecodeFails(d, configId);
    if configId >= 0 {
      VarSets.DecodeInRange(d, configId);
    }
    match VarSets.Decode(d, configId)
    case Throw(_) =>
    case Ok(s) =>
      if InRange(d, s) {
        var m := Assign(vars, s);
        TreeLinksInRange(t, n, m, vars);
        ScoreRule(n, m, vars, isDepTree);
      }
  }

  /** The parent of each token by the reference definition. */
  function ParentTable(n: nat, config: map<Var, int>, vars: seq<Var>): (p: seq<int>)
    ensures |p| == n && forall c :: 0 <= c < n ==> p[c] == ParentInto(config, vars, c)
  {
    seq(n, c => ParentInto(config, vars, c))
  }

  /** The score is 0.0 exactly when each token has exactly one TRUE link into
      it and those parents pass the tree test, and -infinity otherwise; it
      never throws on links in range. */
  lemma ScoreRule(n: nat, config: map<Var, int>, vars: seq<Var>, isDepTree: seq<int> -> bool)
    requires TrueLinksInRange(n, config, vars)
    ensures ScoreOf(n, config, vars, isDepTree).Ok?
    ensures ScoreOf(n, config, vars, isDepTree).value == Finite(0.0) <==>
      (forall c :: 0 <= c < n ==> CountInto(config, vars, c) == 1) && isDepTree(ParentTable(n, config, vars))
    ensures ScoreOf(n, config, vars, isDepTree).value != Finite(0.0) ==> ScoreOf(n, config, vars, isDepTree).value == NegInf
  {
    OneParentIff(n, config, vars);
    ParentsOfIff(n, config, vars);
    if forall c :: 0 <= c < n ==> CountInto(config, vars, c) == 1 {
      assert OneParentPerToken(n, config, vars) == Ok(true);
      var p := ParentsOf(n, config, vars).value;
      assert p == ParentTable(n, config, vars);
      assert ScoreOf(n, config, vars, isDepTree) == Ok(if isDepTree(p) then Finite(0.0) else NegInf);
    } else {
      var c :| 0 <= c < n && CountInto(config, vars, c) != 1;
      assert OneParentPerToken(n, config, vars).Ok?;
      assert OneParentPerToken(n, config, vars).value ==> CountInto(config, vars, c) == 1;
      assert !OneParentPerToken(n, config, vars).value;
    }
  }
}
