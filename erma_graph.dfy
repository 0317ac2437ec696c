/** The part of the factor graph that ErmaBp's message passing looks at,
    its parameters, and the choice of the order in which the messages of
    one iteration are sent. */
module ErmaGraphs {
  import opened Wrappers
  import opened JavaLang

  /** An edge of the factor graph, by its id. */
  type EdgeId = int

  /** What message passing reads of an edge: the node that sends along it,
      whether it runs from a variable to a factor, whether its factor is a
      `GlobalFactor`, and the number of states of its variable. */
  datatype FgEdge = FgEdge(parent: int, varToFactor: bool, globalFactor: bool, numStates: nat)

  /** The edges indexed by id and, indexed by node id, the out-edges of
      every node. */
  datatype FactorGraph = FactorGraph(edges: seq<FgEdge>, outEdges: seq<seq<EdgeId>>)

  /** Ids and node lists agree: an edge is an out-edge of its own parent,
      and every out-edge of node n is an edge whose parent is n. */
  predicate WellFormed(fg: FactorGraph)
  {
    (forall e :: 0 <= e < |fg.edges| ==>
       0 <= fg.edges[e].parent < |fg.outEdges| && e in fg.outEdges[fg.edges[e].parent])
    && (forall n, k :: 0 <= n < |fg.outEdges| && 0 <= k < |fg.outEdges[n]| ==>
          0 <= fg.outEdges[n][k] < |fg.edges| && fg.edges[fg.outEdges[n][k]].parent == n)
  }

  /** `edge.getParent().getOutEdges()`; empty for an id that is no edge. */
  function OutEdges(fg: FactorGraph, e: EdgeId): seq<EdgeId>
  {
    if 0 <= e < |fg.edges| && 0 <= fg.edges[e].parent < |fg.outEdges| then fg.outEdges[fg.edges[e].parent]
    else []
  }

  /** `isConstantMsg`: the edge's message is constant exactly when its
      sending node has a single out-edge, that is, it is a leaf. */
  predicate IsConstantMsg(fg: FactorGraph, e: EdgeId)
  {
    |OutEdges(fg, e)| == 1
  }

  /** The edge carries a message from a global factor to a variable. */
  predicate GlobalToVar(fg: FactorGraph, e: EdgeId)
  {
    0 <= e < |fg.edges| && !fg.edges[e].varToFactor && fg.edges[e].globalFactor
  }

  /** The edges of `order` whose message is constant (`constant`) or not,
      in the order they come. */
  function KeepIf(fg: FactorGraph, order: seq<EdgeId>, constant: bool): (r: seq<EdgeId>)
    ensures |r| <= |order|
    ensures forall e :: e in r <==> e in order && IsConstantMsg(fg, e) == constant
  {
    if order == [] then []
    else
      var rest := KeepIf(fg, order[..|order| - 1], constant);
      var e := order[|order| - 1];
      assert order == order[..|order| - 1] + [e];
      if IsConstantMsg(fg, e) == constant then rest + [e] else rest
  }

  /** Filtering a concatenation filters each part: the kept edges stay in
      schedule order. */
  lemma {:induction false} KeepIfAppend(fg: FactorGraph, a: seq<EdgeId>, b: seq<EdgeId>, constant: bool)
    ensures KeepIf(fg, a + b, constant) == KeepIf(fg, a, constant) + KeepIf(fg, b, constant)
    decreases |b|
  {
    if b == [] {
      assert a + b == a;
    } else {
      var b' := b[..|b| - 1];
      assert (a + b)[..|a + b| - 1] == a + b';
      assert b == b' + [b[|b| - 1]];
      KeepIfAppend(fg, a, b', constant);
    }
  }

  /** The two filters split the schedule: every occurrence of an edge goes
      to exactly one of them, the one its leaf test picks. */
  lemma {:induction false} FiltersPartition(fg: FactorGraph, order: seq<EdgeId>)
    ensures multiset(KeepIf(fg, order, true)) + multiset(KeepIf(fg, order, false)) == multiset(order)
    ensures forall e :: multiset(KeepIf(fg, order, IsConstantMsg(fg, e)))[e] == multiset(order)[e]
    ensures forall e :: multiset(KeepIf(fg, order, !IsConstantMsg(fg, e)))[e] == 0
  {
    if order != [] {
      var o' := order[..|order| - 1];
      assert order == o' + [order[|order| - 1]];
      FiltersPartition(fg, o');
    }
  }

  /** `BpScheduleType`, as far as the constructor tells the kinds apart. */
  datatype BpScheduleType = TreeLike | RandomSchedule | OtherScheduleType

  /** `BpUpdateOrder`. */
  datatype BpUpdateOrder = Sequential | Parallel

  /** The algebra an ErmaBp runs in, by name. */
  datatype AlgebraName = LogSemiringAlgebra | RealAlgebra | OtherAlgebra(id: int)

  /** `ErmaBpPrm`; a null `s` is `None`. */
  datatype ErmaBpPrm = ErmaBpPrm(
    schedule: BpScheduleType,
    maxIterations: int,
    updateOrder: BpUpdateOrder,
    logDomain: bool,
    s: Option<AlgebraName>,
    normalizeMessages: bool,
    convergenceThreshold: Double,
    keepTape: bool)

  /** The field initialisers of `ErmaBpPrm`. */
  function DefaultPrm(): (p: ErmaBpPrm)
    ensures p.schedule == TreeLike && p.maxIterations == 100 && p.updateOrder == Parallel
    ensures p.logDomain && p.s.None? && p.normalizeMessages && p.keepTape
    ensures p.convergenceThreshold == Finite(0.0)
  {
    ErmaBpPrm(TreeLike, 100, Parallel, true, None, true, Finite(0.0), true)
  }

  /** `getAlgebra()`: the algebra set in the parameters, or else the log
      semiring in the log domain and the real algebra otherwise. */
  function GetAlgebra(prm: ErmaBpPrm): (a: AlgebraName)
    ensures prm.s.Some? ==> a == prm.s.value
    ensures prm.s.None? ==> (a == LogSemiringAlgebra <==> prm.logDomain) && (a == RealAlgebra <==> !prm.logDomain)
  {
    if prm.s.None? then (if prm.logDomain then LogSemiringAlgebra else RealAlgebra) else prm.s.value
  }

  /** The schedule the constructor builds: breadth-first or random for
      SEQUENTIAL updates, all edges in id order for PARALLEL ones. */
  datatype BpSchedule = BfsSchedule | RandomBpSchedule | AllEdgesSchedule

  /** The constructor's schedule choice; SEQUENTIAL with a schedule type
      other than TREE_LIKE and RANDOM raises a RuntimeException. */
  function SelectSchedule(prm: ErmaBpPrm): (r: Result<BpSchedule>)
    ensures r.Throw? <==> prm.updateOrder == Sequential && prm.schedule == OtherScheduleType
    ensures r.Throw? ==> r.ex == Runtime
    ensures r.Ok? ==> (r.value == AllEdgesSchedule <==> prm.updateOrder == Parallel)
    ensures r.Ok? && prm.updateOrder == Sequential ==>
      (r.value == BfsSchedule <==> prm.schedule == TreeLike)
  {
    match (prm.updateOrder, prm.schedule)
    case (Sequential, TreeLike) => Ok(BfsSchedule)
    case (Sequential, RandomSchedule) => Ok(RandomBpSchedule)
    case (Sequential, OtherScheduleType) => Throw(Runtime)
    case (Parallel, _) => Ok(AllEdgesSchedule)
  }

  /** The ids 0 .. n-1, `fg.getEdges()` as ids. */
  function AllEdgeIds(n: nat): (r: seq<EdgeId>)
    ensures |r| == n && forall i :: 0 <= i < n ==> r[i] == i
  {
    seq(n, i => i)
  }

  /** `sched.getOrder()` at iteration `iter`: all edges for PARALLEL; for
      the breadth-first and random schedules, whose classes are not part of
      this model, the order `scheduled(iter)` that they return. */
  function GetOrder(fg: FactorGraph, sched: BpSchedule, scheduled: int -> seq<EdgeId>, iter: int): seq<EdgeId>
  {
    if sched == AllEdgesSchedule then AllEdgeIds(|fg.edges|) else scheduled(iter)
  }

  /** The previous order is kept from iteration 1 on unless the updates are
      SEQUENTIAL or the schedule is RANDOM. */
  predicate ReusesOrder(prm: ErmaBpPrm, iter: int)
  {
    iter >= 1 && !(prm.updateOrder == Sequential || prm.schedule == RandomSchedule)
  }

  /** What `updateOrder(order, iter)` returns: the previous order reused,
      or the schedule's order filtered to the constant messages at iteration
      -1 and to the others from iteration 0 on. */
  function NextOrder(prm: ErmaBpPrm, fg: FactorGraph, sched: BpSchedule, scheduled: int -> seq<EdgeId>,
                       order: seq<EdgeId>, iter: int): (r: seq<EdgeId>)
    ensures ReusesOrder(prm, iter) ==> r == order
    ensures !ReusesOrder(prm, iter) ==>
      r == KeepIf(fg, GetOrder(fg, sched, scheduled, iter), iter == -1)
  {
    if ReusesOrder(prm, iter) then order
    else
      var o := GetOrder(fg, sched, scheduled, iter);
      if iter == -1 then KeepIf(fg, o, true) else KeepIf(fg, o, false)
  }

  /** At iteration -1 only constant messages are scheduled; from iteration 0
      on, provided the order passed in came from an iteration >= 0, only
      non-constant ones. */
  lemma UpdateOrderSplits(prm: ErmaBpPrm, fg: FactorGraph, sched: BpSchedule, scheduled: int -> seq<EdgeId>,
                          order: seq<EdgeId>, iter: int)
    requires iter >= 1 ==> forall e :: e in order ==> !IsConstantMsg(fg, e)
    ensures iter == -1 ==>
      forall e :: e in NextOrder(prm, fg, sched, scheduled, order, iter) ==> IsConstantMsg(fg, e)
    ensures iter >= 0 ==>
      forall e :: e in NextOrder(prm, fg, sched, scheduled, order, iter) ==> !IsConstantMsg(fg, e)
  {
  }

  /** Every edge in the list is an edge of the graph. */
  predicate ValidIds(fg: FactorGraph, order: seq<EdgeId>)
  {
    forall e :: e in order ==> 0 <= e < |fg.edges|
  }

  /** The schedules only return edges of the graph. */
  ghost predicate SchedulesValid(fg: FactorGraph, scheduled: int -> seq<EdgeId>)
  {
    forall iter :: ValidIds(fg, scheduled(iter))
  }

  /** The order chosen for an iteration only holds edges of the graph. */
  lemma NextOrderValid(prm: ErmaBpPrm, fg: FactorGraph, sched: BpSchedule, scheduled: int -> seq<EdgeId>,
                       order: seq<EdgeId>, iter: int)
    requires SchedulesValid(fg, scheduled) && ValidIds(fg, order)
    ensures ValidIds(fg, NextOrder(prm, fg, sched, scheduled, order, iter))
  {
    assert ValidIds(fg, scheduled(iter));
  }
}
