/** The forward pass of ErmaBp as functions of its state: the messages of
    every edge, the count of converged messages and the tape. The methods of
    the ErmaBp class are proved to compute exactly these functions. */
module ErmaForward {
  import opened Wrappers
  import opened JavaLang
  import opened ErmaGraphs
  import opened ErmaNumerics

  /** `Messages` of one edge: the message last sent, the pending message,
      and the residual of the last send. */
  datatype Messages = Messages(message: Tensor, newMessage: Tensor, residual: Double)

  /** One entry of the `Tape`: the edge, the message it held before the new
      one was normalised, the normalising sum and the created flag; or the
      END_OF_EDGE_CREATION marker, whose edge is null. */
  datatype TapeEntry =
    | EndOfEdgeCreation
    | Entry(edge: EdgeId, msg: Tensor, msgSum: Double, created: bool)

  /** The fields the forward pass updates: `msgs`, `numConverged`, `tape`. */
  datatype BpState = BpState(msgs: seq<Messages>, numConverged: int, tape: seq<TapeEntry>)

  /** The computations of classes that are not part of this model, as
      functions of what they read: the message products and marginals of
      `forwardVarToFactor`/`forwardFactorToVar`; whether a global factor's
      `createMessages` creates its messages at an iteration, and the message
      it then writes to each out-edge; `VarTensor.normalize`, with the
      tensor it leaves and the sum it returns. */
  datatype Numerics = Numerics(
    newMessage: (seq<Messages>, EdgeId) -> Tensor,
    globalCreates: (seq<Messages>, EdgeId, int) -> bool,
    globalMessage: (seq<Messages>, EdgeId) -> Tensor,
    normalize: Tensor -> Tensor,
    normSum: Tensor -> Double)

  /** What stays fixed during a forward pass: the parameters, the graph, the
      algebra, the foreign computations, the schedule with the orders it
      returns, and the residual a fresh `Messages` starts with. */
  datatype Setup = Setup(
    prm: ErmaBpPrm,
    fg: FactorGraph,
    s: Algebra,
    num: Numerics,
    sched: BpSchedule,
    scheduled: int -> seq<EdgeId>,
    initResidual: Double)

  function Threshold(c: Setup): Double
  {
    c.prm.convergenceThreshold
  }

  /** `new Messages(s, edge, s.one())` for every edge: both tensors all ones
      over the edge's variable. */
  function InitMsgs(c: Setup): (ms: seq<Messages>)
    ensures |ms| == |c.fg.edges|
    ensures forall e :: 0 <= e < |ms| ==>
      ms[e] == Messages(Filled(c.fg.edges[e].numStates, c.s.one), Filled(c.fg.edges[e].numStates, c.s.one), c.initResidual)
  {
    seq(|c.fg.edges|, e requires 0 <= e < |c.fg.edges| =>
      Messages(Filled(c.fg.edges[e].numStates, c.s.one), Filled(c.fg.edges[e].numStates, c.s.one), c.initResidual))
  }

  /** The residuals of all edges, by edge id. */
  function Residuals(ms: seq<Messages>): (rs: seq<Double>)
    ensures |rs| == |ms| && forall e :: 0 <= e < |ms| ==> rs[e] == ms[e].residual
  {
    seq(|ms|, e requires 0 <= e < |ms| => ms[e].residual)
  }

  /** The pending message of edge e replaced by t. */
  function SetPending(ms: seq<Messages>, e: EdgeId, t: Tensor): (r: seq<Messages>)
    ensures |r| == |ms| && Residuals(r) == Residuals(ms)
    ensures forall e2 :: 0 <= e2 < |ms| ==>
      r[e2] == if e2 == e then ms[e2].(newMessage := t) else ms[e2]
  {
    if 0 <= e < |ms| then ms[e := ms[e].(newMessage := t)] else ms
  }

  /** The normalising sum `normalizeAndAddToTape` stores: that of
      `forwardNormalize` when messages are normalised, else 0. */
  function MsgSum(c: Setup, t: Tensor): Double
  {
    if c.prm.normalizeMessages then c.num.normSum(t) else Finite(0.0)
  }

  /** A tape entry as `normalizeAndAddToTape` can record it: only when the
      tape is kept, and with a zero sum when messages are not normalised. */
  predicate EntryOk(c: Setup, en: TapeEntry)
  {
    en.Entry? ==> c.prm.keepTape && (!c.prm.normalizeMessages ==> en.msgSum == Finite(0.0))
  }

  /** t1 is t0 followed by tape entries (no markers) each recorded as
      `normalizeAndAddToTape` records them. */
  predicate AddsEntries(c: Setup, t0: seq<TapeEntry>, t1: seq<TapeEntry>)
  {
    |t0| <= |t1| && t1[..|t0|] == t0
    && forall t :: |t0| <= t < |t1| ==> t1[t].Entry? && EntryOk(c, t1[t])
  }

  lemma AddsEntriesTrans(c: Setup, t0: seq<TapeEntry>, t1: seq<TapeEntry>, t2: seq<TapeEntry>)
    requires AddsEntries(c, t0, t1) && AddsEntries(c, t1, t2)
    ensures AddsEntries(c, t0, t2)
  {
    assert t2[..|t0|] == t1[..|t1|][..|t0|];
  }

  /** `normalizeAndAddToTape(edge, created)`: the pending message of e is
      normalised when messages are normalised, and when the tape is kept an
      entry is appended holding the message e currently holds and the sum. */
  function AfterNormalize(c: Setup, st: BpState, e: EdgeId, created: bool): (r: BpState)
    ensures |r.msgs| == |st.msgs| && Residuals(r.msgs) == Residuals(st.msgs)
    ensures r.numConverged == st.numConverged
    ensures AddsEntries(c, st.tape, r.tape)
    ensures 0 <= e < |st.msgs| && c.prm.keepTape ==>
      r.tape == st.tape + [Entry(e, st.msgs[e].message, MsgSum(c, st.msgs[e].newMessage), created)]
    ensures !c.prm.keepTape ==> r.tape == st.tape
  {
    if !(0 <= e < |st.msgs|) then st
    else
      var m := st.msgs[e];
      var pending := if c.prm.normalizeMessages then c.num.normalize(m.newMessage) else m.newMessage;
      var tape := if c.prm.keepTape then st.tape + [Entry(e, m.message, MsgSum(c, m.newMessage), created)] else st.tape;
      BpState(SetPending(st.msgs, e, pending), st.numConverged, tape)
  }

  /** The writes of the global factor's `createMessages`: the pending
      message of every out-edge, computed from the messages before the call. */
  function GlobalPending(c: Setup, ms: seq<Messages>, snapshot: seq<Messages>, outs: seq<EdgeId>): (r: seq<Messages>)
    ensures |r| == |ms| && Residuals(r) == Residuals(ms)
  {
    if outs == [] then ms
    else
      var e2 := outs[|outs| - 1];
      SetPending(GlobalPending(c, ms, snapshot, outs[..|outs| - 1]), e2, c.num.globalMessage(snapshot, e2))
  }

  /** The out-edges other than e, in their order. */
  function Others(outs: seq<EdgeId>, e: EdgeId): (r: seq<EdgeId>)
    ensures forall x :: x in r <==> x in outs && x != e
  {
    if outs == [] then []
    else
      var rest := Others(outs[..|outs| - 1], e);
      var e2 := outs[|outs| - 1];
      assert outs == outs[..|outs| - 1] + [e2];
      if e2 != e then rest + [e2] else rest
  }

  /** The loop of `forwardCreateMessage` over the other out-edges of a
      global factor, each normalised and recorded as not created. */
  function AfterOthers(c: Setup, st: BpState, outs: seq<EdgeId>, e: EdgeId): (r: BpState)
    ensures |r.msgs| == |st.msgs| && Residuals(r.msgs) == Residuals(st.msgs)
    ensures r.numConverged == st.numConverged
    ensures AddsEntries(c, st.tape, r.tape)
  {
    if outs == [] then st
    else
      var p := AfterOthers(c, st, outs[..|outs| - 1], e);
      var e2 := outs[|outs| - 1];
      if e2 != e then
        var q := AfterNormalize(c, p, e2, false);
        AddsEntriesTrans(c, st.tape, p.tape, q.tape);
        q
      else p
  }

  /** The work of `forwardCreateMessage` for the global factor of e once
      its messages were created: its pending messages are written, e is
      normalised and recorded as created, then every other out-edge. */
  function AfterGlobalCreate(c: Setup, st: BpState, e: EdgeId): (r: BpState)
    ensures |r.msgs| == |st.msgs| && Residuals(r.msgs) == Residuals(st.msgs)
    ensures r.numConverged == st.numConverged
    ensures AddsEntries(c, st.tape, r.tape)
  {
    var outs := OutEdges(c.fg, e);
    var st1 := st.(msgs := GlobalPending(c, st.msgs, st.msgs, outs));
    var st2 := AfterNormalize(c, st1, e, true);
    var r := AfterOthers(c, st2, outs, e);
    AddsEntriesTrans(c, st.tape, st2.tape, r.tape);
    r
  }

  /** `forwardCreateMessage(edge, iter)`: for a message from a global factor
      to a variable, the factor's `createMessages` and, when it created the
      messages, the global work above; for any other edge, the new pending
      message, normalised and recorded as created. */
  function AfterCreate(c: Setup, st: BpState, e: EdgeId, iter: int): (r: BpState)
    ensures |r.msgs| == |st.msgs| && Residuals(r.msgs) == Residuals(st.msgs)
    ensures r.numConverged == st.numConverged
    ensures AddsEntries(c, st.tape, r.tape)
  {
    if GlobalToVar(c.fg, e) then
      if c.num.globalCreates(st.msgs, e, iter) then AfterGlobalCreate(c, st, e)
      else st
    else
      AfterNormalize(c, st.(msgs := SetPending(st.msgs, e, c.num.newMessage(st.msgs, e))), e, true)
  }

  /** `smartResidual`: 0.0 for a constant message (not the algebra zero),
      otherwise the residual between the two messages. */
  function SmartResidual(c: Setup, t1: Tensor, t2: Tensor, e: EdgeId): (r: Double)
    ensures r != NaN
    ensures IsConstantMsg(c.fg, e) ==> r == Finite(0.0)
  {
    if IsConstantMsg(c.fg, e) then Finite(0.0) else Residual(c.s, t1, t2)
  }

  /** `forwardSendMessage(edge)`: the residual is updated, the counter goes
      up when it falls from above the threshold to at most the threshold and
      down on the opposite crossing, and the two messages are swapped. */
  function AfterSend(c: Setup, st: BpState, e: EdgeId): (r: BpState)
    ensures |r.msgs| == |st.msgs| && r.tape == st.tape
    ensures forall e2 :: 0 <= e2 < |st.msgs| && e2 != e ==> r.msgs[e2] == st.msgs[e2]
    ensures 0 <= e < |st.msgs| ==>
      r.msgs[e].message == st.msgs[e].newMessage && r.msgs[e].newMessage == st.msgs[e].message
  {
    if !(0 <= e < |st.msgs|) then st
    else
      var ec := st.msgs[e];
      var thr := Threshold(c);
      var residual := SmartResidual(c, ec.message, ec.newMessage, e);
      var up := DoubleGt(ec.residual, thr) && DoubleLe(residual, thr);
      var down := DoubleLe(ec.residual, thr) && DoubleGt(residual, thr);
      var n := st.numConverged + (if up then 1 else 0) - (if down then 1 else 0);
      BpState(st.msgs[e := Messages(ec.newMessage, ec.message, residual)], n, st.tape)
  }

  /** The counter moves by one only at a threshold crossing, in the
      direction of the crossing, and a constant message gets residual 0. */
  lemma SendCounter(c: Setup, st: BpState, e: EdgeId)
    requires 0 <= e < |st.msgs|
    ensures var r := AfterSend(c, st, e); var thr := Threshold(c);
      var was, now := st.msgs[e].residual, r.msgs[e].residual;
      (r.numConverged == st.numConverged + 1 <==> DoubleGt(was, thr) && DoubleLe(now, thr))
      && (r.numConverged == st.numConverged - 1 <==> DoubleLe(was, thr) && DoubleGt(now, thr))
      && (r.numConverged == st.numConverged <==> !(DoubleGt(was, thr) && DoubleLe(now, thr)) && !(DoubleLe(was, thr) && DoubleGt(now, thr)))
      && (IsConstantMsg(c.fg, e) ==> now == Finite(0.0))
      && now != NaN
  {
  }

  /** `isConverged()`: every message counted as converged. */
  predicate Converged(st: BpState)
  {
    st.numConverged == |st.msgs|
  }

  /** The first loop of a PARALLEL iteration: create every message of the
      order. */
  function AfterCreateAll(c: Setup, st: BpState, order: seq<EdgeId>, iter: int): (r: BpState)
    ensures |r.msgs| == |st.msgs| && Residuals(r.msgs) == Residuals(st.msgs)
    ensures r.numConverged == st.numConverged
    ensures AddsEntries(c, st.tape, r.tape)
  {
    if order == [] then st
    else
      var p := AfterCreateAll(c, st, order[..|order| - 1], iter);
      var q := AfterCreate(c, p, order[|order| - 1], iter);
      AddsEntriesTrans(c, st.tape, p.tape, q.tape);
      q
  }

  /** The second loop of a PARALLEL iteration: send every message of the
      order. */
  function AfterSendAll(c: Setup, st: BpState, order: seq<EdgeId>): (r: BpState)
    ensures |r.msgs| == |st.msgs| && r.tape == st.tape
  {
    if order == [] then st
    else AfterSend(c, AfterSendAll(c, st, order[..|order| - 1]), order[|order| - 1])
  }

  /** A SEQUENTIAL iteration: create and send each message in turn, and stop
      after any send that leaves every message converged. */
  function AfterSequentialSweep(c: Setup, st: BpState, order: seq<EdgeId>, iter: int): (r: BpState)
    ensures |r.msgs| == |st.msgs|
    ensures AddsEntries(c, st.tape, r.tape)
  {
    if order == [] then st
    else
      var prev := AfterSequentialSweep(c, st, order[..|order| - 1], iter);
      if |order| > 1 && Converged(prev) then prev
      else
        var q := AfterCreate(c, prev, order[|order| - 1], iter);
        AddsEntriesTrans(c, st.tape, prev.tape, q.tape);
        AfterSend(c, q, order[|order| - 1])
  }

  /** Once a SEQUENTIAL iteration has left every message converged after
      at least one send, the remaining edges of the order change nothing. */
  lemma {:induction false} SequentialStays(c: Setup, st: BpState, order: seq<EdgeId>, i: int, iter: int)
    requires 1 <= i <= |order| && Converged(AfterSequentialSweep(c, st, order[..i], iter))
    ensures AfterSequentialSweep(c, st, order, iter) == AfterSequentialSweep(c, st, order[..i], iter)
    decreases |order|
  {
    if i < |order| {
      var o' := order[..|order| - 1];
      assert o'[..i] == order[..i];
      SequentialStays(c, st, o', i, iter);
    } else {
      assert order[..i] == order;
    }
  }

  /** A PARALLEL iteration: every creation, one END_OF_EDGE_CREATION marker
      (also when the tape is not kept), then every send. */
  function AfterParallelSweep(c: Setup, st: BpState, order: seq<EdgeId>, iter: int): (r: BpState)
    ensures |r.msgs| == |st.msgs|
  {
    var created := AfterCreateAll(c, st, order, iter);
    AfterSendAll(c, created.(tape := created.tape + [EndOfEdgeCreation]), order)
  }

  /** One iteration, in the update order of the parameters. */
  function AfterSweep(c: Setup, st: BpState, order: seq<EdgeId>, iter: int): (r: BpState)
    ensures |r.msgs| == |st.msgs|
  {
    if c.prm.updateOrder == Sequential then AfterSequentialSweep(c, st, order, iter)
    else AfterParallelSweep(c, st, order, iter)
  }

  /** The state of the loop of `forward()` before an iteration: the
      messages, counter and tape, the order of the last iteration, and
      whether the loop has stopped on convergence. */
  datatype Progress = Progress(st: BpState, order: seq<EdgeId>, stopped: bool)

  /** The loop of `forward()` before iteration `iter`, having run the
      iterations -1 .. iter-1 unless it stopped on convergence. */
  function Run(c: Setup, init: BpState, iter: int): (p: Progress)
    requires iter >= -1
    ensures |p.st.msgs| == |init.msgs|
    decreases iter + 1
  {
    if iter == -1 then Progress(init, [], false)
    else
      var p := Run(c, init, iter - 1);
      if p.stopped then p
      else
        var order := NextOrder(c.prm, c.fg, c.sched, c.scheduled, p.order, iter - 1);
        var st := AfterSweep(c, p.st, order, iter - 1);
        Progress(st, order, Converged(st))
  }

  /** Once the loop has stopped it stays stopped with the same state. */
  lemma {:induction false} RunStays(c: Setup, init: BpState, k: int, m: int)
    requires -1 <= k <= m && Run(c, init, k).stopped
    ensures Run(c, init, m) == Run(c, init, k)
    decreases m - k
  {
    if k == m {
    } else {
      RunStays(c, init, k, m - 1);
      RunStaysStep(c, init, m);
    }
  }

  lemma RunStaysStep(c: Setup, init: BpState, m: int)
    requires m >= 0 && Run(c, init, m - 1).stopped
    ensures Run(c, init, m) == Run(c, init, m - 1)
  {
  }

  /** The loop of `forward()` reaches iteration `iter` with state `st`,
      order `order`, stopped or not. */
  ghost predicate Reached(c: Setup, init: BpState, iter: int, st: BpState, order: seq<EdgeId>, stopped: bool)
  {
    iter >= -1 && Run(c, init, iter) == Progress(st, order, stopped)
  }

  /** A loop that stopped before the last iteration keeps its state to the
      end. */
  lemma RunStops(c: Setup, init: BpState, k: int, st: BpState, order: seq<EdgeId>)
    requires k <= LastIteration(c) && Reached(c, init, k, st, order, true)
    ensures Run(c, init, LastIteration(c)).st == st
  {
    RunStays(c, init, k, LastIteration(c));
  }

  /** The iteration the loop of `forward()` ends before when it does not
      stop on convergence. */
  function LastIteration(c: Setup): int
  {
    if c.prm.maxIterations < -1 then -1 else c.prm.maxIterations
  }

  /** The state `forward()` starts message passing in: a new tape, fresh
      messages, and the counter as the previous pass left it. */
  function InitState(c: Setup, numConverged: int): (st: BpState)
    ensures st.msgs == InitMsgs(c) && st.numConverged == numConverged && st.tape == []
  {
    BpState(InitMsgs(c), numConverged, [])
  }

  /** The messages, counter and tape after `forward()`; `numConverged` is
      the value before the call, since `forward()` does not reset it. */
  function AfterForward(c: Setup, numConverged: int): BpState
  {
    Run(c, InitState(c, numConverged), LastIteration(c)).st
  }

  // ---------------------------------------------------------------------
  // One more edge of each loop

  lemma GlobalPendingSnoc(c: Setup, ms: seq<Messages>, snapshot: seq<Messages>, outs: seq<EdgeId>, k: int)
    requires 0 <= k < |outs|
    ensures GlobalPending(c, ms, snapshot, outs[..k + 1])
      == SetPending(GlobalPending(c, ms, snapshot, outs[..k]), outs[k], c.num.globalMessage(snapshot, outs[k]))
  {
    assert outs[..k + 1][..k] == outs[..k];
  }

  lemma OthersSnoc(c: Setup, st: BpState, outs: seq<EdgeId>, e: EdgeId, k: int)
    requires 0 <= k < |outs|
    ensures AfterOthers(c, st, outs[..k + 1], e)
      == if outs[k] != e then AfterNormalize(c, AfterOthers(c, st, outs[..k], e), outs[k], false)
         else AfterOthers(c, st, outs[..k], e)
  {
    assert outs[..k + 1][..k] == outs[..k];
  }

  lemma CreateAllSnoc(c: Setup, st: BpState, order: seq<EdgeId>, i: int, iter: int)
    requires 0 <= i < |order|
    ensures AfterCreateAll(c, st, order[..i + 1], iter) == AfterCreate(c, AfterCreateAll(c, st, order[..i], iter), order[i], iter)
  {
    assert order[..i + 1][..i] == order[..i];
  }

  lemma SendAllSnoc(c: Setup, st: BpState, order: seq<EdgeId>, i: int)
    requires 0 <= i < |order|
    ensures AfterSendAll(c, st, order[..i + 1]) == AfterSend(c, AfterSendAll(c, st, order[..i]), order[i])
  {
    assert order[..i + 1][..i] == order[..i];
  }

  lemma SequentialSnoc(c: Setup, st: BpState, order: seq<EdgeId>, i: int, iter: int)
    requires 0 <= i < |order| && (i > 0 ==> !Converged(AfterSequentialSweep(c, st, order[..i], iter)))
    ensures AfterSequentialSweep(c, st, order[..i + 1], iter)
      == AfterSend(c, AfterCreate(c, AfterSequentialSweep(c, st, order[..i], iter), order[i], iter), order[i])
  {
    assert order[..i + 1][..i] == order[..i];
  }

  /** One more iteration of the loop of `forward()` that did not stop. */
  lemma RunSnoc(c: Setup, init: BpState, iter: int, st: BpState, order: seq<EdgeId>)
    requires iter >= -1 && Run(c, init, iter) == Progress(st, order, false)
    ensures var o := NextOrder(c.prm, c.fg, c.sched, c.scheduled, order, iter);
      var st' := AfterSweep(c, st, o, iter);
      Run(c, init, iter + 1) == Progress(st', o, Converged(st'))
  {
  }

  // ---------------------------------------------------------------------
  // The counter of converged messages

  /** One for a residual at most the threshold. */
  function Below(r: Double, thr: Double): nat
  {
    if DoubleLe(r, thr) then 1 else 0
  }

  /** The number of residuals at most the threshold. */
  function CountBelow(rs: seq<Double>, thr: Double): (n: nat)
    ensures n <= |rs|
  {
    if rs == [] then 0 else CountBelow(rs[..|rs| - 1], thr) + Below(rs[|rs| - 1], thr)
  }

  /** Changing one residual changes the count by the change of that one. */
  lemma {:induction false} CountBelowUpdate(rs: seq<Double>, thr: Double, i: int, x: Double)
    requires 0 <= i < |rs|
    ensures CountBelow(rs[i := x], thr) == CountBelow(rs, thr) - Below(rs[i], thr) + Below(x, thr)
    decreases |rs|
  {
    var n := |rs| - 1;
    if i == n {
      assert rs[i := x][..n] == rs[..n];
    } else {
      assert rs[i := x][..n] == rs[..n][i := x];
      CountBelowUpdate(rs[..n], thr, i, x);
    }
  }

  /** The count is the length exactly when every residual is at most the
      threshold, and it is zero exactly when none is. */
  lemma {:induction false} CountBelowExtremes(rs: seq<Double>, thr: Double)
    ensures CountBelow(rs, thr) == |rs| <==> forall i :: 0 <= i < |rs| ==> DoubleLe(rs[i], thr)
    ensures CountBelow(rs, thr) == 0 <==> forall i :: 0 <= i < |rs| ==> !DoubleLe(rs[i], thr)
  {
    if rs != [] {
      var n := |rs| - 1;
      CountBelowExtremes(rs[..n], thr);
      assert forall i :: 0 <= i < n ==> rs[..n][i] == rs[i];
    }
  }

  /** No residual is NaN. */
  predicate NoNaN(ms: seq<Messages>)
  {
    forall e :: 0 <= e < |ms| ==> ms[e].residual != NaN
  }

  /** The counter exceeds the number of residuals at most the threshold by
      `base`, and no residual is NaN. */
  predicate Balanced(c: Setup, st: BpState, base: int)
  {
    NoNaN(st.msgs) && st.numConverged == base + CountBelow(Residuals(st.msgs), Threshold(c))
  }

  /** A send keeps the counter balanced: it moves exactly as the count. */
  lemma SendBalanced(c: Setup, st: BpState, e: EdgeId, base: int)
    requires Balanced(c, st, base)
    ensures Balanced(c, AfterSend(c, st, e), base)
  {
    if 0 <= e < |st.msgs| {
      var r := AfterSend(c, st, e);
      var thr := Threshold(c);
      assert Residuals(r.msgs) == Residuals(st.msgs)[e := r.msgs[e].residual];
      CountBelowUpdate(Residuals(st.msgs), thr, e, r.msgs[e].residual);
      assert st.msgs[e].residual != NaN;
      if thr != NaN {
        DoubleOrder(st.msgs[e].residual, thr, thr);
        DoubleOrder(r.msgs[e].residual, thr, thr);
      }
    }
  }

  lemma {:induction false} SendAllBalanced(c: Setup, st: BpState, order: seq<EdgeId>, base: int)
    requires Balanced(c, st, base)
    ensures Balanced(c, AfterSendAll(c, st, order), base)
  {
    if order != [] {
      SendAllBalanced(c, st, order[..|order| - 1], base);
      SendBalanced(c, AfterSendAll(c, st, order[..|order| - 1]), order[|order| - 1], base);
    }
  }

  lemma {:induction false} SequentialSweepBalanced(c: Setup, st: BpState, order: seq<EdgeId>, iter: int, base: int)
    requires Balanced(c, st, base)
    ensures Balanced(c, AfterSequentialSweep(c, st, order, iter), base)
  {
    if order != [] {
      SequentialSweepBalanced(c, st, order[..|order| - 1], iter, base);
      var prev := AfterSequentialSweep(c, st, order[..|order| - 1], iter);
      SendBalanced(c, AfterCreate(c, prev, order[|order| - 1], iter), order[|order| - 1], base);
    }
  }

  lemma SweepBalanced(c: Setup, st: BpState, order: seq<EdgeId>, iter: int, base: int)
    requires Balanced(c, st, base)
    ensures Balanced(c, AfterSweep(c, st, order, iter), base)
  {
    if c.prm.updateOrder == Sequential {
      SequentialSweepBalanced(c, st, order, iter, base);
    } else {
      var created := AfterCreateAll(c, st, order, iter);
      SendAllBalanced(c, created.(tape := created.tape + [EndOfEdgeCreation]), order, base);
    }
  }

  lemma {:induction false} RunBalanced(c: Setup, init: BpState, iter: int, base: int)
    requires iter >= -1 && Balanced(c, init, base)
    ensures Balanced(c, Run(c, init, iter).st, base)
    decreases iter + 1
  {
    if iter >= 0 {
      RunBalanced(c, init, iter - 1, base);
      RunBalancedStep(c, init, iter, base);
    }
  }

  /** One more iteration of the loop keeps the counter balanced. */
  lemma RunBalancedStep(c: Setup, init: BpState, iter: int, base: int)
    requires iter >= 0 && Balanced(c, Run(c, init, iter - 1).st, base)
    ensures Balanced(c, Run(c, init, iter).st, base)
  {
    var p := Run(c, init, iter - 1);
    if !p.stopped {
      var order := NextOrder(c.prm, c.fg, c.sched, c.scheduled, p.order, iter - 1);
      SweepBalanced(c, p.st, order, iter - 1, base);
    }
  }

  /** Through a whole forward pass the counter keeps its offset from the
      number of converged messages, the offset it had on the fresh
      messages: the counter before the call less all edges when the initial
      residual is at most the threshold. */
  lemma ForwardBalanced(c: Setup, numConverged: int)
    requires c.initResidual != NaN
    ensures var st := AfterForward(c, numConverged);
      NoNaN(st.msgs) && |st.msgs| == |c.fg.edges|
      && st.numConverged == numConverged - (if DoubleLe(c.initResidual, Threshold(c)) then |c.fg.edges| else 0)
                            + CountBelow(Residuals(st.msgs), Threshold(c))
  {
    var init := InitState(c, numConverged);
    var thr := Threshold(c);
    var rs := Residuals(init.msgs);
    if DoubleLe(c.initResidual, thr) {
      assert forall i :: 0 <= i < |rs| ==> DoubleLe(rs[i], thr);
    } else {
      assert forall i :: 0 <= i < |rs| ==> !DoubleLe(rs[i], thr);
    }
    CountBelowExtremes(rs, thr);
    var base := numConverged - (if DoubleLe(c.initResidual, thr) then |c.fg.edges| else 0);
    RunBalanced(c, init, LastIteration(c), base);
  }

  /** With no offset the state is converged exactly when every residual is
      at most the threshold; with an offset of all edges, exactly when
      none is. */
  lemma BalancedConverged(c: Setup, st: BpState, base: int)
    requires Balanced(c, st, base) && (base == 0 || base == |st.msgs|)
    ensures base == 0 ==>
      (Converged(st) <==> forall e :: 0 <= e < |st.msgs| ==> DoubleLe(st.msgs[e].residual, Threshold(c)))
    ensures base == |st.msgs| ==>
      (Converged(st) <==> forall e :: 0 <= e < |st.msgs| ==> !DoubleLe(st.msgs[e].residual, Threshold(c)))
  {
    CountBelowExtremes(Residuals(st.msgs), Threshold(c));
  }

  /** On a first forward pass (the counter starts at 0) from messages whose
      initial residual is above the threshold, the pass ends converged
      exactly when every message's residual is at most the threshold. */
  lemma FirstForwardConverged(c: Setup)
    requires c.initResidual != NaN && DoubleGt(c.initResidual, Threshold(c))
    ensures var st := AfterForward(c, 0);
      Converged(st) <==> forall e :: 0 <= e < |st.msgs| ==> DoubleLe(st.msgs[e].residual, Threshold(c))
  {
    ForwardBalanced(c, 0);
    var st := AfterForward(c, 0);
    assert !DoubleLe(c.initResidual, Threshold(c));
    assert Balanced(c, st, 0);
    BalancedConverged(c, st, 0);
  }

  /** Since the counter is not reset, a second forward pass after one that
      converged starts with every edge counted, and then ends converged
      exactly when no message's residual is at most the threshold. */
  lemma ForwardAfterConvergedPass(c: Setup)
    requires c.initResidual != NaN && DoubleGt(c.initResidual, Threshold(c))
    ensures var st := AfterForward(c, |c.fg.edges|);
      Converged(st) <==> forall e :: 0 <= e < |st.msgs| ==> !DoubleLe(st.msgs[e].residual, Threshold(c))
  {
    ForwardBalanced(c, |c.fg.edges|);
    var st := AfterForward(c, |c.fg.edges|);
    assert !DoubleLe(c.initResidual, Threshold(c));
    assert Balanced(c, st, |st.msgs|);
    BalancedConverged(c, st, |st.msgs|);
  }

  // ---------------------------------------------------------------------
  // The tape

  /** The parallel sweep records its creations, then one marker; the sends
      leave the tape alone. */
  lemma ParallelSweepTape(c: Setup, st: BpState, order: seq<EdgeId>, iter: int)
    ensures var created := AfterCreateAll(c, st, order, iter);
      AfterParallelSweep(c, st, order, iter).tape == created.tape + [EndOfEdgeCreation]
      && AddsEntries(c, st.tape, created.tape)
  {
  }

  /** The tape as the forward pass leaves it: every entry recorded as
      `normalizeAndAddToTape` records it; with SEQUENTIAL updates no
      marker; with PARALLEL updates every iteration's entries closed by a
      marker, so a non-empty tape ends with one. */
  predicate TapeShape(c: Setup, tape: seq<TapeEntry>)
  {
    (forall t :: 0 <= t < |tape| ==> EntryShape(c, tape[t]))
    && (c.prm.updateOrder == Parallel && tape != [] ==> tape[|tape| - 1] == EndOfEdgeCreation)
  }

  /** An entry recorded as `normalizeAndAddToTape` records it, and no
      marker with SEQUENTIAL updates. */
  predicate EntryShape(c: Setup, en: TapeEntry)
  {
    EntryOk(c, en) && (c.prm.updateOrder == Sequential ==> en.Entry?)
  }

  lemma SweepTape(c: Setup, st: BpState, order: seq<EdgeId>, iter: int)
    requires TapeShape(c, st.tape)
    ensures TapeShape(c, AfterSweep(c, st, order, iter).tape)
  {
    if c.prm.updateOrder == Sequential {
      var r := AfterSequentialSweep(c, st, order, iter);
      assert forall t :: 0 <= t < |st.tape| ==> r.tape[t] == st.tape[t];
    } else {
      var created := AfterCreateAll(c, st, order, iter);
      ParallelSweepTape(c, st, order, iter);
      var tape := created.tape + [EndOfEdgeCreation];
      assert forall t :: 0 <= t < |st.tape| ==> tape[t] == st.tape[t];
    }
  }

  /** One more iteration of the loop keeps the shape of the tape. */
  lemma RunTapeStep(c: Setup, init: BpState, iter: int)
    requires iter >= 0 && TapeShape(c, Run(c, init, iter - 1).st.tape)
    ensures TapeShape(c, Run(c, init, iter).st.tape)
  {
    var p := Run(c, init, iter - 1);
    if !p.stopped {
      var order := NextOrder(c.prm, c.fg, c.sched, c.scheduled, p.order, iter - 1);
      SweepTape(c, p.st, order, iter - 1);
    }
  }

  lemma {:induction false} RunTape(c: Setup, init: BpState, iter: int)
    requires iter >= -1 && TapeShape(c, init.tape)
    ensures TapeShape(c, Run(c, init, iter).st.tape)
    decreases iter + 1
  {
    if iter >= 0 {
      RunTape(c, init, iter - 1);
      RunTapeStep(c, init, iter);
    }
  }

  /** After `forward()`, without `keepTape` the tape holds only markers,
      without normalisation every entry's sum is 0, SEQUENTIAL updates
      leave no marker and PARALLEL updates end the tape with one. */
  lemma ForwardTape(c: Setup, numConverged: int)
    ensures TapeShape(c, AfterForward(c, numConverged).tape)
    ensures var tape := AfterForward(c, numConverged).tape;
      !c.prm.keepTape ==> forall t :: 0 <= t < |tape| ==> tape[t] == EndOfEdgeCreation
  {
    RunTape(c, InitState(c, numConverged), LastIteration(c));
  }

  /** The entries record the edges `edges`, one each and in order, all
      with the created flag `created`. */
  predicate Records(entries: seq<TapeEntry>, edges: seq<EdgeId>, created: bool)
  {
    |entries| == |edges|
    && forall k :: 0 <= k < |edges| ==>
         entries[k].Entry? && entries[k].edge == edges[k] && entries[k].created == created
  }

  lemma RecordsSnoc(entries: seq<TapeEntry>, edges: seq<EdgeId>, created: bool, x: TapeEntry, e: EdgeId)
    requires Records(entries, edges, created) && x.Entry? && x.edge == e && x.created == created
    ensures Records(entries + [x], edges + [e], created)
  {
  }

  /** The tape entries of the other out-edges: one per occurrence, each
      marked as not created. */
  lemma {:induction false} OthersTape(c: Setup, st: BpState, outs: seq<EdgeId>, e: EdgeId)
    requires c.prm.keepTape && forall k :: 0 <= k < |outs| ==> 0 <= outs[k] < |st.msgs|
    ensures var r := AfterOthers(c, st, outs, e);
      Records(r.tape[|st.tape|..], Others(outs, e), false)
  {
    if outs == [] {
      assert AfterOthers(c, st, outs, e).tape[|st.tape|..] == [];
    } else {
      var n := |outs| - 1;
      var e2 := outs[n];
      OthersTape(c, st, outs[..n], e);
      var p := AfterOthers(c, st, outs[..n], e);
      var rest := Others(outs[..n], e);
      if e2 != e {
        var r := AfterNormalize(c, p, e2, false);
        var x := Entry(e2, p.msgs[e2].message, MsgSum(c, p.msgs[e2].newMessage), false);
        assert AfterOthers(c, st, outs, e) == r;
        assert Others(outs, e) == rest + [e2];
        assert r.tape == p.tape + [x];
        assert r.tape[|st.tape|..] == p.tape[|st.tape|..] + [x];
        RecordsSnoc(p.tape[|st.tape|..], rest, false, x, e2);
      } else {
        assert AfterOthers(c, st, outs, e) == p;
        assert Others(outs, e) == rest;
      }
    }
  }

  /** When a global factor creates its messages with the tape kept, the
      tape gains one entry for the triggering edge, marked created, followed
      by one entry for each other out-edge of the factor, marked not
      created: so the recorded edges are exactly the factor's out-edges. */
  lemma GlobalCreateTape(c: Setup, st: BpState, e: EdgeId, iter: int)
    requires WellFormed(c.fg) && |st.msgs| == |c.fg.edges| && c.prm.keepTape
    requires GlobalToVar(c.fg, e) && c.num.globalCreates(st.msgs, e, iter)
    ensures var added := AfterCreate(c, st, e, iter).tape[|st.tape|..]; var others := Others(OutEdges(c.fg, e), e);
      |added| == 1 + |others| && added[0].Entry? && added[0].edge == e && added[0].created
      && Records(added[1..], others, false)
      && (forall x :: x in [e] + others <==> x in OutEdges(c.fg, e))
  {
    var outs := OutEdges(c.fg, e);
    assert e in outs;
    var st1 := st.(msgs := GlobalPending(c, st.msgs, st.msgs, outs));
    var st2 := AfterNormalize(c, st1, e, true);
    assert st2.tape == st.tape + [Entry(e, st1.msgs[e].message, MsgSum(c, st1.msgs[e].newMessage), true)];
    assert forall k :: 0 <= k < |outs| ==> 0 <= outs[k] < |st2.msgs|;
    OthersTape(c, st2, outs, e);
    var r := AfterOthers(c, st2, outs, e);
    assert AfterCreate(c, st, e, iter) == r;
    var added := r.tape[|st.tape|..];
    assert r.tape[..|st2.tape|] == st2.tape;
    assert added[0] == st2.tape[|st.tape|];
    assert added[1..] == r.tape[|st2.tape|..];
  }

  // ---------------------------------------------------------------------
  // Message sizes

  /** Every edge's two messages have one entry per state of its variable. */
  predicate Sized(c: Setup, ms: seq<Messages>)
  {
    |ms| == |c.fg.edges|
    && forall e :: 0 <= e < |ms| ==>
         |ms[e].message| == c.fg.edges[e].numStates && |ms[e].newMessage| == c.fg.edges[e].numStates
  }

  /** The foreign computations return messages over the edge's variable and
      normalising keeps the size. */
  ghost predicate KeepsSizes(c: Setup)
  {
    (forall ms, e :: 0 <= e < |c.fg.edges| ==> |c.num.newMessage(ms, e)| == c.fg.edges[e].numStates)
    && (forall ms, e :: 0 <= e < |c.fg.edges| ==> |c.num.globalMessage(ms, e)| == c.fg.edges[e].numStates)
    && (forall t :: |c.num.normalize(t)| == |t|)
  }

  lemma InitSized(c: Setup)
    ensures Sized(c, InitMsgs(c))
  {
  }

  lemma NormalizeSized(c: Setup, st: BpState, e: EdgeId, created: bool)
    requires KeepsSizes(c) && Sized(c, st.msgs)
    ensures Sized(c, AfterNormalize(c, st, e, created).msgs)
  {
  }

  lemma {:induction false} GlobalPendingSized(c: Setup, ms: seq<Messages>, snapshot: seq<Messages>, outs: seq<EdgeId>)
    requires KeepsSizes(c) && Sized(c, ms)
    ensures Sized(c, GlobalPending(c, ms, snapshot, outs))
  {
    if outs != [] {
      GlobalPendingSized(c, ms, snapshot, outs[..|outs| - 1]);
    }
  }

  lemma {:induction false} OthersSized(c: Setup, st: BpState, outs: seq<EdgeId>, e: EdgeId)
    requires KeepsSizes(c) && Sized(c, st.msgs)
    ensures Sized(c, AfterOthers(c, st, outs, e).msgs)
  {
    if outs != [] {
      OthersSized(c, st, outs[..|outs| - 1], e);
      var p := AfterOthers(c, st, outs[..|outs| - 1], e);
      NormalizeSized(c, p, outs[|outs| - 1], false);
    }
  }

  /** Creating and sending a message keep every message's size. */
  lemma StepSized(c: Setup, st: BpState, e: EdgeId, iter: int)
    requires KeepsSizes(c) && Sized(c, st.msgs)
    ensures Sized(c, AfterCreate(c, st, e, iter).msgs)
    ensures Sized(c, AfterSend(c, st, e).msgs)
  {
    if GlobalToVar(c.fg, e) {
      if c.num.globalCreates(st.msgs, e, iter) {
        var outs := OutEdges(c.fg, e);
        var st1 := st.(msgs := GlobalPending(c, st.msgs, st.msgs, outs));
        GlobalPendingSized(c, st.msgs, st.msgs, outs);
        NormalizeSized(c, st1, e, true);
        OthersSized(c, AfterNormalize(c, st1, e, true), outs, e);
      }
    } else {
      NormalizeSized(c, st.(msgs := SetPending(st.msgs, e, c.num.newMessage(st.msgs, e))), e, true);
    }
  }
}
