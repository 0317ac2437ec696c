/** Training examples for semantic role labelling: the known predicates of
    a sentence and the gold assignment of its factor graph's variables. */
module SrlFgExamples {
  import opened Wrappers
  import opened Vars
  import opened VarConfigs
  import opened ProjDepTree
  import opened SrlFactorGraphs

  /** An edge of the sentence's SRL graph: a predicate position, an
      argument position and the role label. */
  datatype SrlEdge = SrlEdge(pred: int, arg: int, roleLabel: string)

  /** `getKnownPreds(srlGraph)`: the predicate position of every edge. */
  method GetKnownPreds(edges: seq<SrlEdge>) returns (preds: set<int>)
    ensures forall p :: p in preds <==> exists k :: 0 <= k < |edges| && edges[k].pred == p
  {
    preds := {};
    var k := 0;
    while k < |edges|
      invariant 0 <= k <= |edges|
      invariant forall p :: p in preds <==> exists i :: 0 <= i < k && edges[i].pred == p
    {
      preds := preds + {edges[k].pred};
      k := k + 1;
    }
  }

  /** `getData(SimpleAnnoSentenceCollection)`: not implemented, it always
      raises RuntimeException. */
  function GetDataOfAnnoSentences(numSentences: nat): (r: Result<seq<int>>)
    ensures r.Throw? && r.ex == Runtime
  {
    Throw(Runtime)
  }

  /** The label of the last edge from p to c, or "_" when there is none. */
  function LastLabel(edges: seq<SrlEdge>, p: int, c: int): string
  {
    if edges == [] then "_"
    else
      var e := edges[|edges| - 1];
      if e.pred == p && e.arg == c then e.roleLabel else LastLabel(edges[..|edges| - 1], p, c)
  }

  /** The pair (p, c) of an edge. */
  predicate OnPair(e: SrlEdge, p: int, c: int)
  {
    e.pred == p && e.arg == c
  }

  /** With no edge from p to c the last label is "_". */
  lemma {:induction false} LastLabelNone(edges: seq<SrlEdge>, p: int, c: int)
    requires forall k :: 0 <= k < |edges| ==> !OnPair(edges[k], p, c)
    ensures LastLabel(edges, p, c) == "_"
  {
    if edges != [] {
      var n := |edges| - 1;
      assert forall k :: 0 <= k < n ==> edges[..n][k] == edges[k];
      LastLabelNone(edges[..n], p, c);
    }
  }

  /** The last label is that of the latest edge from p to c. */
  lemma {:induction false} LastLabelLatest(edges: seq<SrlEdge>, p: int, c: int, k: int)
    requires 0 <= k < |edges| && OnPair(edges[k], p, c)
    requires forall k' :: k < k' < |edges| ==> !OnPair(edges[k'], p, c)
    ensures LastLabel(edges, p, c) == edges[k].roleLabel
  {
    var n := |edges| - 1;
    if k < n {
      assert forall i :: 0 <= i < n ==> edges[..n][i] == edges[i];
      LastLabelLatest(edges[..n], p, c, k);
    }
  }

  /** The parents the gold links are read from: HEAD with gold syntax,
      PHEAD otherwise. */
  function Parents(useGoldSyntax: bool, fromHead: seq<int>, fromPhead: seq<int>): seq<int>
  {
    if useGoldSyntax then fromHead else fromPhead
  }

  /** A link off the diagonal that exists and is not latent. */
  predicate AssignedLink(g: Input, v: Var)
  {
    v.cls.LinkVar? && v.cls.parent != v.cls.child && LinkAt(g, v.cls.parent, v.cls.child) == Some(v)
    && v.kind != Latent
  }

  /** A role variable that exists and is not latent. */
  predicate AssignedRole(g: Input, v: Var)
  {
    v.cls.RoleVar? && RoleAt(g, v.cls.parent, v.cls.child) == Some(v) && v.kind != Latent
  }

  /** The variables of the gold assignment. */
  predicate Assigned(g: Input, v: Var)
  {
    AssignedLink(g, v) || AssignedRole(g, v)
  }

  /** The pair (p, c) has a role variable that is not latent. */
  predicate ObservedRole(g: Input, p: int, c: int)
  {
    HasRole(g, p, c) && RolePredicted(g, p)
  }

  lemma ObservedRoleIs(g: Input, p: int, c: int)
    ensures ObservedRole(g, p, c) <==> RoleAt(g, p, c).Some? && RoleAt(g, p, c).value.kind != Latent
  {
  }

  /** The gold state of an assigned variable: TRUE for the link from the
      token's gold parent, FALSE for the other links; the state named by the
      last label of an edge on the pair, or "_", for a role. */
  function GoldState(parents: seq<int>, edges: seq<SrlEdge>, v: Var): int
  {
    if v.cls.LinkVar? then
      if 0 <= v.cls.child < |parents| && parents[v.cls.child] == v.cls.parent then LinkTrue else LinkFalse
    else if v.cls.RoleVar? then StateOfName(v, LastLabel(edges, v.cls.parent, v.cls.child))
    else -1
  }

  /** Every assigned variable of the configuration holds its gold state
      for the parents and the edges seen so far. */
  predicate GoldSoFar(config: map<Var, int>, parents: seq<int>, seen: seq<SrlEdge>)
  {
    forall v :: v in config ==> config[v] == GoldState(parents, seen, v)
  }

  /** The edge's label is to be put on an assigned role but is not one of
      its state names. */
  predicate BadLabel(g: Input, e: SrlEdge)
  {
    ObservedRole(g, e.pred, e.arg) && e.roleLabel !in g.roleStateNames
  }

  /** The assignment fails: a role is to be set to "_", which is not a role
      state name, or an edge on an assigned role carries a label that is
      not one. */
  predicate GoldFails(g: Input, edges: seq<SrlEdge>)
  {
    ((exists p, c :: 0 <= p < g.n && 0 <= c < g.n && ObservedRole(g, p, c)) && "_" !in g.roleStateNames)
    || exists k :: 0 <= k < |edges| && BadLabel(g, edges[k])
  }

  /** An observed role has the corpus's role state names, one state per
      name, so a name is a state of it exactly when it is one of them. */
  lemma RoleStates(g: Input, p: int, c: int)
    requires ObservedRole(g, p, c)
    ensures var v := RoleAt(g, p, c).value;
      v.stateNames == g.roleStateNames && v.numStates == |g.roleStateNames|
      && forall name :: 0 <= StateOfName(v, name) < v.numStates <==> name in g.roleStateNames
  {
  }

  /** An edge changes the gold state of the role on its own pair only. */
  lemma GoldStep(parents: seq<int>, edges: seq<SrlEdge>, k: int, v: Var)
    requires 0 <= k < |edges|
    ensures GoldState(parents, edges[..k + 1], v) ==
      if v.cls.RoleVar? && v.cls.parent == edges[k].pred && v.cls.child == edges[k].arg
      then StateOfName(v, edges[k].roleLabel)
      else GoldState(parents, edges[..k], v)
  {
    assert edges[..k + 1][..k] == edges[..k];
  }

  /** An assigned link among the cells before (i, j), row by row. */
  predicate LinkDone(g: Input, v: Var, i: int, j: int)
  {
    AssignedLink(g, v) && (v.cls.parent < i || (v.cls.parent == i && v.cls.child < j))
  }

  /** Passing cell (i, j) adds its link, if it is assigned. */
  lemma LinkDoneStep(g: Input, v: Var, i: int, j: int)
    ensures LinkDone(g, v, i, j + 1) <==>
      LinkDone(g, v, i, j) || (j != i && LinkAt(g, i, j).Some? && LinkAt(g, i, j).value.kind != Latent
                               && v == LinkAt(g, i, j).value)
  {
  }

  /** One row of the link loop. */
  method AssignLinkRow(sfg: SrlFactorGraph, parents: seq<int>, vc: VarConfig, i: int)
    requires sfg.Valid() && |parents| == sfg.n && vc.Valid() && -1 <= i < sfg.n
    requires forall v :: v in vc.config <==> LinkDone(sfg.Arguments(), v, i, 0)
    requires GoldSoFar(vc.config, parents, [])
    modifies vc
    ensures vc.Valid()
    ensures forall v :: v in vc.config <==> LinkDone(sfg.Arguments(), v, i + 1, 0)
    ensures GoldSoFar(vc.config, parents, [])
  {
    ghost var g := sfg.Arguments();
    var n := sfg.n;
    var j := 0;
    while j < n
      invariant 0 <= j <= n && vc.Valid()
      invariant forall v :: v in vc.config <==> LinkDone(g, v, i, j)
      invariant GoldSoFar(vc.config, parents, [])
    {
      var link := sfg.GetLinkVar(i, j);
      ghost var before := vc.config;
      if j != i && link.Some? && link.value.kind != Latent {
        var state := if parents[j] != i then LinkFalse else LinkTrue;
        var o := vc.Put(link.value, state);
        assert o.Done?;
        assert state == GoldState(parents, [], link.value);
      }
      forall v ensures v in vc.config <==> LinkDone(g, v, i, j + 1) {
        LinkDoneStep(g, v, i, j);
      }
      j := j + 1;
    }
    assert forall v :: LinkDone(g, v, i, n) <==> LinkDone(g, v, i + 1, 0);
  }

  /** The link loop: every existing non-latent link (i, j), j != i, for
      parents -1 .. n-1, set to TRUE exactly when parents[j] == i. */
  method AssignLinks(sfg: SrlFactorGraph, parents: seq<int>, vc: VarConfig)
    requires sfg.Valid() && |parents| == sfg.n
    requires vc.Valid() && vc.config == map[]
    modifies vc
    ensures vc.Valid()
    ensures forall v :: v in vc.config <==> AssignedLink(sfg.Arguments(), v)
    ensures GoldSoFar(vc.config, parents, [])
  {
    ghost var g := sfg.Arguments();
    var n := sfg.n;
    var i: int := -1;
    while i < n
      invariant -1 <= i <= n && vc.Valid()
      invariant forall v :: v in vc.config <==> LinkDone(g, v, i, 0)
      invariant GoldSoFar(vc.config, parents, [])
    {
      AssignLinkRow(sfg, parents, vc, i);
      i := i + 1;
    }
    assert forall v :: LinkDone(g, v, n, 0) <==> AssignedLink(g, v);
  }

  /** An assigned role among the cells before (i, j), row by row. */
  predicate RoleDone(g: Input, v: Var, i: int, j: int)
  {
    AssignedRole(g, v) && (v.cls.parent < i || (v.cls.parent == i && v.cls.child < j))
  }

  /** Passing cell (i, j) adds its role, if it is assigned. */
  lemma RoleDoneStep(g: Input, v: Var, i: int, j: int)
    ensures RoleDone(g, v, i, j + 1) <==>
      RoleDone(g, v, i, j) || (ObservedRole(g, i, j) && v == RoleAt(g, i, j).value)
  {
  }

  /** The end of a row is the start of the next. */
  lemma RoleDoneRow(g: Input, v: Var, i: int)
    requires 0 <= i < g.n
    ensures RoleDone(g, v, i, g.n) <==> RoleDone(g, v, i + 1, 0)
  {
  }

  /** One row of the first role loop. */
  method AssignBlankRow(sfg: SrlFactorGraph, parents: seq<int>, vc: VarConfig, i: int) returns (o: Outcome)
    requires sfg.Valid() && |parents| == sfg.n && vc.Valid() && 0 <= i < sfg.n
    requires forall v :: v in vc.config <==> AssignedLink(sfg.Arguments(), v) || RoleDone(sfg.Arguments(), v, i, 0)
    requires GoldSoFar(vc.config, parents, [])
    modifies vc
    ensures vc.Valid()
    ensures o.Fail? <==> ("_" !in sfg.roleStateNames && exists c :: 0 <= c < sfg.n && ObservedRole(sfg.Arguments(), i, c))
    ensures o.Fail? ==> o.ex == IllegalArgument
    ensures o.Done? ==> forall v :: v in vc.config <==> AssignedLink(sfg.Arguments(), v) || RoleDone(sfg.Arguments(), v, i + 1, 0)
    ensures o.Done? ==> GoldSoFar(vc.config, parents, [])
  {
    ghost var g := sfg.Arguments();
    var n := sfg.n;
    var j := 0;
    while j < n
      invariant 0 <= j <= n && vc.Valid()
      invariant forall v :: v in vc.config <==> AssignedLink(g, v) || RoleDone(g, v, i, j)
      invariant GoldSoFar(vc.config, parents, [])
      invariant "_" !in g.roleStateNames ==> forall c :: 0 <= c < j ==> !ObservedRole(g, i, c)
    {
      var role := sfg.GetRoleVar(i, j);
      ghost var before := vc.config;
      if role.Some? && role.value.kind != Latent {
        RoleStates(g, i, j);
        var put := vc.PutName(role.value, "_");
        if put.Fail? {
          assert g == sfg.Arguments() && 0 <= j < sfg.n && ObservedRole(g, i, j);
          return Fail(IllegalArgument);
        }
        assert vc.config == before[role.value := GoldState(parents, [], role.value)];
      } else {
        assert !ObservedRole(g, i, j);
      }
      forall v ensures v in vc.config <==> AssignedLink(g, v) || RoleDone(g, v, i, j + 1) {
        RoleDoneStep(g, v, i, j);
      }
      j := j + 1;
    }
    forall v ensures v in vc.config <==> AssignedLink(g, v) || RoleDone(g, v, i + 1, 0) {
      RoleDoneRow(g, v, i);
    }
    o := Done;
  }

  /** No pair in the rows before i has an observed role. */
  predicate NoRoleBefore(g: Input, i: int, n: int)
  {
    forall p, c :: 0 <= p < i && 0 <= c < n ==> !ObservedRole(g, p, c)
  }

  lemma NoRoleBeforeStep(g: Input, i: int, n: int)
    requires NoRoleBefore(g, i, n)
    requires forall c :: 0 <= c < n ==> !ObservedRole(g, i, c)
    ensures NoRoleBefore(g, i + 1, n)
  {
  }

  /** The first role loop: every existing non-latent role set to "_"; the
      first one fails when "_" is not a role state name. */
  method AssignBlankRoles(sfg: SrlFactorGraph, parents: seq<int>, vc: VarConfig) returns (o: Outcome)
    requires sfg.Valid() && |parents| == sfg.n && vc.Valid()
    requires forall v :: v in vc.config <==> AssignedLink(sfg.Arguments(), v)
    requires GoldSoFar(vc.config, parents, [])
    modifies vc
    ensures vc.Valid()
    ensures o.Fail? <==> ("_" !in sfg.roleStateNames &&
      exists p, c :: 0 <= p < sfg.n && 0 <= c < sfg.n && ObservedRole(sfg.Arguments(), p, c))
    ensures o.Fail? ==> o.ex == IllegalArgument
    ensures o.Done? ==> forall v :: v in vc.config <==> Assigned(sfg.Arguments(), v)
    ensures o.Done? ==> GoldSoFar(vc.config, parents, [])
  {
    ghost var g := sfg.Arguments();
    var n := sfg.n;
    var i := 0;
    while i < n
      invariant 0 <= i <= n && vc.Valid()
      invariant forall v :: v in vc.config <==> AssignedLink(g, v) || RoleDone(g, v, i, 0)
      invariant GoldSoFar(vc.config, parents, [])
      invariant "_" !in g.roleStateNames ==> NoRoleBefore(g, i, n)
    {
      o := AssignBlankRow(sfg, parents, vc, i);
      if o.Fail? {
        return;
      }
      assert g == sfg.Arguments() && n == sfg.n;
      if "_" !in g.roleStateNames {
        NoRoleBeforeStep(g, i, n);
      }
      i := i + 1;
    }
    forall v ensures v in vc.config <==> Assigned(g, v) {
      assert RoleDone(g, v, n, 0) <==> AssignedRole(g, v);
    }
    o := Done;
  }

  /** One iteration of the edge loop: the label of edge k put on its role,
      when that role exists and is not latent. */
  method AssignEdge(sfg: SrlFactorGraph, parents: seq<int>, edges: seq<SrlEdge>, k: int, vc: VarConfig)
    returns (o: Outcome)
    requires sfg.Valid() && 0 <= k < |edges| && EdgesPut(vc, sfg.Arguments(), parents, edges, k)
    modifies vc
    ensures vc.Valid()
    ensures o.Fail? <==> BadLabel(sfg.Arguments(), edges[k])
    ensures o.Fail? ==> o.ex == IllegalArgument
    ensures o.Done? ==> EdgesPut(vc, sfg.Arguments(), parents, edges, k + 1)
  {
    ghost var g := sfg.Arguments();
    var edge := edges[k];
    var role := sfg.GetRoleVar(edge.pred, edge.arg);
    ghost var before := vc.config;
    if role.Some? && role.value.kind != Latent {
      RoleStates(g, edge.pred, edge.arg);
      assert Assigned(g, role.value);
      var put := vc.PutName(role.value, edge.roleLabel);
      if put.Fail? {
        return Fail(IllegalArgument);
      }
    }
    EdgeGoldStep(g, parents, edges, k, role, before, vc.config);
    o := Done;
  }

  /** Edge k's label put on its role, when that role is assigned, turns the
      gold assignment for the first k edges into the one for k + 1. */
  lemma EdgeGoldStep(g: Input, parents: seq<int>, edges: seq<SrlEdge>, k: int, role: Option<Var>,
                     before: map<Var, int>, after: map<Var, int>)
    requires 0 <= k < |edges| && role == RoleAt(g, edges[k].pred, edges[k].arg)
    requires forall v :: v in before <==> Assigned(g, v)
    requires GoldSoFar(before, parents, edges[..k])
    requires after == if role.Some? && role.value.kind != Latent
      then before[role.value := StateOfName(role.value, edges[k].roleLabel)] else before
    ensures forall v :: v in after <==> Assigned(g, v)
    ensures GoldSoFar(after, parents, edges[..k + 1])
  {
    var edge := edges[k];
    if role.Some? && role.value.kind != Latent {
      assert AssignedRole(g, role.value);
    }
    forall v | v in after ensures after[v] == GoldState(parents, edges[..k + 1], v) {
      GoldStep(parents, edges, k, v);
      if v.cls.RoleVar? && v.cls.parent == edge.pred && v.cls.child == edge.arg {
        assert AssignedRole(g, v);
      }
    }
  }

  /** The state of the edge loop after k edges: every gold variable
      assigned, its value the gold state for those edges, and none of them
      with a bad label. */
  ghost predicate EdgesPut(vc: VarConfig, g: Input, parents: seq<int>, edges: seq<SrlEdge>, k: int)
    reads vc
  {
    0 <= k <= |edges| && vc.Valid()
    && (forall v :: v in vc.config <==> Assigned(g, v))
    && GoldSoFar(vc.config, parents, edges[..k])
    && forall i :: 0 <= i < k ==> !BadLabel(g, edges[i])
  }

  /** The edge loop: each edge's label put on its role, when that role
      exists and is not latent; a later edge on the same pair wins. */
  method AssignEdgeRoles(sfg: SrlFactorGraph, parents: seq<int>, edges: seq<SrlEdge>, vc: VarConfig)
    returns (o: Outcome)
    requires sfg.Valid() && vc.Valid()
    requires forall v :: v in vc.config <==> Assigned(sfg.Arguments(), v)
    requires GoldSoFar(vc.config, parents, [])
    modifies vc
    ensures vc.Valid()
    ensures o.Fail? <==> exists k :: 0 <= k < |edges| && BadLabel(sfg.Arguments(), edges[k])
    ensures o.Fail? ==> o.ex == IllegalArgument
    ensures o.Done? ==> forall v :: v in vc.config <==> Assigned(sfg.Arguments(), v)
    ensures o.Done? ==> forall v :: v in vc.config ==> vc.config[v] == GoldState(parents, edges, v)
  {
    ghost var g := sfg.Arguments();
    var k := 0;
    assert edges[..0] == [];
    while k < |edges|
      invariant EdgesPut(vc, g, parents, edges, k)
    {
      o := AssignEdge(sfg, parents, edges, k, vc);
      if o.Fail? {
        return;
      }
      k := k + 1;
    }
    EdgesPutAll(vc, g, parents, edges);
    o := Done;
  }

  /** After the last edge, the loop state is the gold assignment. */
  lemma EdgesPutAll(vc: VarConfig, g: Input, parents: seq<int>, edges: seq<SrlEdge>)
    requires EdgesPut(vc, g, parents, edges, |edges|)
    ensures vc.Valid()
    ensures !exists k :: 0 <= k < |edges| && BadLabel(g, edges[k])
    ensures forall v :: v in vc.config <==> Assigned(g, v)
    ensures forall v :: v in vc.config ==> vc.config[v] == GoldState(parents, edges, v)
  {
    assert edges[..|edges|] == edges;
  }

  /** `getTrainAssignment(sent, srlGraph, sfg)`: the links, then every role
      set to "_", then the labels of the edges. An unknown state name raises
      IllegalArgumentException. */
  method GetTrainAssignment(sfg: SrlFactorGraph, useGoldSyntax: bool, fromHead: seq<int>, fromPhead: seq<int>,
                            edges: seq<SrlEdge>) returns (r: Result<VarConfig>)
    requires sfg.Valid() && |fromHead| == sfg.n && |fromPhead| == sfg.n
    ensures r.Throw? <==> GoldFails(sfg.Arguments(), edges)
    ensures r.Throw? ==> r.ex == IllegalArgument
    ensures r.Ok? ==> r.value.Valid()
    ensures r.Ok? ==> forall v :: v in r.value.config <==> Assigned(sfg.Arguments(), v)
    ensures r.Ok? ==> forall v :: v in r.value.config ==>
      r.value.config[v] == GoldState(Parents(useGoldSyntax, fromHead, fromPhead), edges, v)
  {
    var parents := if useGoldSyntax then fromHead else fromPhead;
    var vc := new VarConfig();
    AssignLinks(sfg, parents, vc);
    var blank := AssignBlankRoles(sfg, parents, vc);
    if blank.Fail? {
      return Throw(blank.ex);
    }
    var labels := AssignEdgeRoles(sfg, parents, edges, vc);
    if labels.Fail? {
      return Throw(labels.ex);
    }
    r := Ok(vc);
  }

  /* ---------------- Properties of the gold assignment ---------------- */

  /** Latent variables are never assigned. */
  lemma LatentNotAssigned(g: Input, v: Var)
    requires v.kind == Latent
    ensures !Assigned(g, v)
  {
  }

  /** With non-latent links, the link from a token's gold parent is
      assigned TRUE, unless it would be a self-loop or lies outside the
      sentence. */
  lemma GoldParentIsTrue(g: Input, parents: seq<int>, edges: seq<SrlEdge>, c: int)
    requires |parents| == g.n && 0 <= c < g.n
    requires g.prm.linkVarType != Latent
    requires -1 <= parents[c] < g.n && parents[c] != c
    ensures LinkAt(g, parents[c], c).Some?
    ensures var v := LinkAt(g, parents[c], c).value;
      Assigned(g, v) && GoldState(parents, edges, v) == LinkTrue
  {
  }

  /** No token gets two TRUE links. */
  lemma OneTrueLinkPerChild(g: Input, parents: seq<int>, edges: seq<SrlEdge>, v: Var, w: Var)
    requires |parents| == g.n
    requires AssignedLink(g, v) && AssignedLink(g, w) && v.cls.child == w.cls.child
    requires GoldState(parents, edges, v) == LinkTrue && GoldState(parents, edges, w) == LinkTrue
    ensures v == w
  {
    assert v.cls.parent == parents[v.cls.child] == w.cls.parent;
    assert v == LinkAt(g, v.cls.parent, v.cls.child).value;
  }

  /** An assigned role takes the label of the last edge on its pair. */
  lemma LastEdgeWins(g: Input, parents: seq<int>, edges: seq<SrlEdge>, k: int)
    requires |parents| == g.n && 0 <= k < |edges|
    requires ObservedRole(g, edges[k].pred, edges[k].arg)
    requires forall k' :: k < k' < |edges| ==> !OnPair(edges[k'], edges[k].pred, edges[k].arg)
    ensures var v := RoleAt(g, edges[k].pred, edges[k].arg).value;
      Assigned(g, v) && GoldState(parents, edges, v) == StateOfName(v, edges[k].roleLabel)
  {
    LastLabelLatest(edges, edges[k].pred, edges[k].arg, k);
  }

  /** An assigned role that no edge touches takes the state "_". */
  lemma UntouchedRoleBlank(g: Input, parents: seq<int>, edges: seq<SrlEdge>, p: int, c: int)
    requires |parents| == g.n && ObservedRole(g, p, c)
    requires forall k :: 0 <= k < |edges| ==> !OnPair(edges[k], p, c)
    ensures var v := RoleAt(g, p, c).value;
      Assigned(g, v) && GoldState(parents, edges, v) == StateOfName(v, "_")
  {
    LastLabelNone(edges, p, c);
  }

  /** When the known predicates are those of the edges, the role of every
      edge inside the sentence exists under either role structure and is
      predicted, so every such edge's label is assigned. */
  lemma EdgeRolesPredicted(g: Input, edges: seq<SrlEdge>, k: int)
    requires g.prm.roleStructure.Some?
    requires forall p :: p in g.knownPreds <==> exists i :: 0 <= i < |edges| && edges[i].pred == p
    requires 0 <= k < |edges| && 0 <= edges[k].pred < g.n && 0 <= edges[k].arg < g.n
    ensures RoleAt(g, edges[k].pred, edges[k].arg).Some?
    ensures RoleAt(g, edges[k].pred, edges[k].arg).value.kind == Predicted
    ensures ObservedRole(g, edges[k].pred, edges[k].arg)
  {
    assert edges[k].pred in g.knownPreds;
  }
}
