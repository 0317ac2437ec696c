/** The ErmaBp inferencer as an object: its configuration, the messages of
    every edge, the counter of converged messages, the tape and the message
    adjoints. Every method is proved to leave the state that the functions
    of ErmaForward and ErmaBackward describe. */
module ErmaBps {
  import opened Wrappers
  import opened JavaLang
  import opened ErmaGraphs
  import opened ErmaNumerics
  import opened ErmaForward
  import opened ErmaBackward

  class ErmaBp {
    const prm: ErmaBpPrm
    const fg: FactorGraph
    const s: Algebra
    const sched: BpSchedule
    /** The computations of the classes this one calls. */
    const num: Numerics
    /** The orders the breadth-first and random schedules return. */
    const scheduled: int -> seq<EdgeId>
    /** The residual of a fresh `Messages`. */
    const initResidual: Double

    var msgs: array<Messages>
    var numConverged: int
    var tape: seq<TapeEntry>
    var msgsAdj: array<Messages>

    /** What stays fixed, as the specification functions take it. */
    function Config(): Setup
    {
      Setup(prm, fg, s, num, sched, scheduled, initResidual)
    }

    /** The fields the forward pass updates. */
    function State(): BpState
      reads this, msgs
    {
      BpState(msgs[..], numConverged, tape)
    }

    /** The fields the backward pass updates. */
    function Back(): BackState
      reads this, msgs, msgsAdj
    {
      BackState(msgs[..], msgsAdj[..])
    }

    /** What the code relies on of the graph and of the classes it calls:
        edge ids and node lists agree, messages keep the size of their
        variable, and the schedules return edges of the graph. */
    ghost predicate Consistent()
    {
      WellFormed(fg) && KeepsSizes(Config()) && SchedulesValid(fg, scheduled)
    }

    /** There is a message pair of the right size for every edge. */
    predicate Ready()
      reads this, msgs
    {
      Sized(Config(), msgs[..])
    }

    /** The constructor once the schedule type is known to be supported:
        the algebra of the parameters, the schedule they select, and no
        messages yet. */
    constructor (fg: FactorGraph, prm: ErmaBpPrm, algebraOf: AlgebraName -> Algebra, num: Numerics,
                 scheduled: int -> seq<EdgeId>, initResidual: Double)
      requires SelectSchedule(prm).Ok?
      ensures this.fg == fg && this.prm == prm && s == algebraOf(GetAlgebra(prm))
      ensures sched == SelectSchedule(prm).value
      ensures this.num == num && this.scheduled == scheduled && this.initResidual == initResidual
      ensures numConverged == 0 && tape == [] && msgs.Length == 0 && msgsAdj.Length == 0
    {
      this.fg := fg;
      this.prm := prm;
      s := algebraOf(GetAlgebra(prm));
      sched := SelectSchedule(prm).value;
      this.num := num;
      this.scheduled := scheduled;
      this.initResidual := initResidual;
      msgs := new Messages[0];
      numConverged := 0;
      tape := [];
      msgsAdj := new Messages[0];
    }

    /** `new ErmaBp(fg, prm, effm)`: an IllegalArgumentException when a
        module's algebra `effm` is given and is not the algebra of the
        parameters, then a RuntimeException for an unsupported SEQUENTIAL
        schedule type; otherwise a new inferencer. */
    static method Create(fg: FactorGraph, prm: ErmaBpPrm, effm: Option<AlgebraName>, algebraOf: AlgebraName -> Algebra,
                         num: Numerics, scheduled: int -> seq<EdgeId>, initResidual: Double)
      returns (r: Result<ErmaBp>)
      ensures r.Throw? <==> (effm.Some? && effm.value != GetAlgebra(prm)) || SelectSchedule(prm).Throw?
      ensures effm.Some? && effm.value != GetAlgebra(prm) ==> r == Throw(IllegalArgument)
      ensures r.Throw? && !(effm.Some? && effm.value != GetAlgebra(prm)) ==> r == Throw(Runtime)
      ensures r.Ok? ==> (fresh(r.value) && r.value.fg == fg && r.value.prm == prm
        && r.value.s == algebraOf(GetAlgebra(prm)) && r.value.sched == SelectSchedule(prm).value
        && r.value.num == num && r.value.scheduled == scheduled && r.value.initResidual == initResidual
        && r.value.numConverged == 0 && r.value.tape == [])
    {
      if effm.Some? && effm.value != GetAlgebra(prm) {
        return Throw(IllegalArgument);
      }
      var sel := SelectSchedule(prm);
      if sel.Throw? {
        return Throw(sel.ex);
      }
      var bp := new ErmaBp(fg, prm, algebraOf, num, scheduled, initResidual);
      r := Ok(bp);
    }

    /** `isConverged()`. */
    method IsConverged() returns (b: bool)
      ensures b <==> Converged(State())
    {
      b := numConverged == msgs.Length;
    }

    /** `filterConstantMsgs`: the edges whose message is not constant, in
        order. */
    method FilterConstantMsgs(order: seq<EdgeId>) returns (filt: seq<EdgeId>)
      ensures filt == KeepIf(fg, order, false)
    {
      filt := [];
      var i := 0;
      while i < |order|
        invariant 0 <= i <= |order|
        invariant filt == KeepIf(fg, order[..i], false)
      {
        var e := order[i];
        assert order[..i + 1][..i] == order[..i];
        if !IsConstantMsg(fg, e) {
          filt := filt + [e];
        }
        i := i + 1;
      }
      assert order[..|order|] == order;
    }

    /** `filterNonConstantMsgs`: the edges whose message is constant, in
        order. */
    method FilterNonConstantMsgs(order: seq<EdgeId>) returns (filt: seq<EdgeId>)
      ensures filt == KeepIf(fg, order, true)
    {
      filt := [];
      var i := 0;
      while i < |order|
        invariant 0 <= i <= |order|
        invariant filt == KeepIf(fg, order[..i], true)
      {
        var e := order[i];
        assert order[..i + 1][..i] == order[..i];
        if IsConstantMsg(fg, e) {
          filt := filt + [e];
        }
        i := i + 1;
      }
      assert order[..|order|] == order;
    }

    /** `updateOrder(order, iter)`. */
    method UpdateOrder(order: seq<EdgeId>, iter: int) returns (r: seq<EdgeId>)
      ensures r == NextOrder(prm, fg, sched, scheduled, order, iter)
    {
      if iter >= 1 && !(prm.updateOrder == Sequential || prm.schedule == RandomSchedule) {
        return order;
      }
      var o := GetOrder(fg, sched, scheduled, iter);
      if iter == -1 {
        r := FilterNonConstantMsgs(o);
      } else {
        r := FilterConstantMsgs(o);
      }
    }

    /** `normalizeAndAddToTape(edge, created)`. */
    method NormalizeAndAddToTape(e: EdgeId, created: bool)
      requires 0 <= e < msgs.Length
      modifies this, msgs
      ensures msgs == old(msgs)
      ensures State() == AfterNormalize(Config(), old(State()), e, created)
    {
      var m := msgs[e];
      var msgSum := Finite(0.0);
      if prm.normalizeMessages {
        msgSum := num.normSum(m.newMessage);
        msgs[e] := m.(newMessage := num.normalize(m.newMessage));
      }
      if prm.keepTape {
        tape := tape + [Entry(e, m.message, msgSum, created)];
      }
    }

    /** `forwardGlobalFactorToVar(edge, iter)`: the global factor says
        whether it creates its messages at this iteration and, when it
        does, writes the pending message of each of its out-edges from the
        messages as they were before. */
    method ForwardGlobalFactorToVar(e: EdgeId, iter: int) returns (created: bool)
      requires WellFormed(fg) && msgs.Length == |fg.edges| && 0 <= e < msgs.Length
      modifies msgs
      ensures created == num.globalCreates(old(msgs[..]), e, iter)
      ensures msgs[..] == if created then GlobalPending(Config(), old(msgs[..]), old(msgs[..]), OutEdges(fg, e)) else old(msgs[..])
    {
      var snapshot := msgs[..];
      created := num.globalCreates(snapshot, e, iter);
      if created {
        var outs := OutEdges(fg, e);
        var parent := fg.edges[e].parent;
        var k := 0;
        while k < |outs|
          invariant 0 <= k <= |outs|
          invariant msgs[..] == GlobalPending(Config(), snapshot, snapshot, outs[..k])
        {
          var e2 := outs[k];
          assert 0 <= fg.outEdges[parent][k] < |fg.edges|;
          GlobalPendingSnoc(Config(), snapshot, snapshot, outs, k);
          msgs[e2] := msgs[e2].(newMessage := num.globalMessage(snapshot, e2));
          k := k + 1;
        }
        assert outs[..|outs|] == outs;
      }
    }

    /** `forwardCreateMessage(edge, iter)`. */
    method ForwardCreateMessage(e: EdgeId, iter: int)
      requires WellFormed(fg) && msgs.Length == |fg.edges| && 0 <= e < msgs.Length
      modifies this, msgs
      ensures msgs == old(msgs)
      ensures State() == AfterCreate(Config(), old(State()), e, iter)
    {
      if !fg.edges[e].varToFactor && fg.edges[e].globalFactor {
        var created := ForwardGlobalFactorToVar(e, iter);
        if created {
          ghost var st1 := State();
          NormalizeAndAddToTape(e, true);
          NormalizeOthers(e);
        }
      } else {
        msgs[e] := msgs[e].(newMessage := num.newMessage(msgs[..], e));
        NormalizeAndAddToTape(e, true);
      }
    }

    /** The loop of `forwardCreateMessage` over the out-edges of a global
        factor: each one other than e is normalised and recorded as not
        created. */
    method NormalizeOthers(e: EdgeId)
      requires WellFormed(fg) && msgs.Length == |fg.edges| && 0 <= e < msgs.Length
      modifies this, msgs
      ensures msgs == old(msgs)
      ensures State() == AfterOthers(Config(), old(State()), OutEdges(fg, e), e)
    {
      ghost var st := State();
      var outs := OutEdges(fg, e);
      var parent := fg.edges[e].parent;
      var k := 0;
      while k < |outs|
        invariant 0 <= k <= |outs| && msgs == old(msgs)
        invariant State() == AfterOthers(Config(), st, outs[..k], e)
      {
        var e2 := outs[k];
        assert 0 <= fg.outEdges[parent][k] < |fg.edges|;
        OthersSnoc(Config(), st, outs, e, k);
        if e2 != e {
          NormalizeAndAddToTape(e2, false);
        }
        k := k + 1;
      }
      assert outs[..|outs|] == outs;
    }

    /** `smartResidual(message, newMessage, edge)`: 0.0 for a constant
        message; otherwise `getResidual`, which raises when the sizes
        differ. */
    method SmartResidual(t1: Tensor, t2: Tensor, e: EdgeId) returns (r: Result<Double>)
      ensures r.Throw? <==> !IsConstantMsg(fg, e) && |t1| != |t2|
      ensures r.Throw? ==> r.ex == IllegalState
      ensures r.Ok? ==> r.value == ErmaForward.SmartResidual(Config(), t1, t2, e)
    {
      if IsConstantMsg(fg, e) {
        r := Ok(Finite(0.0));
      } else {
        r := GetResidual(s, t1, t2);
      }
    }

    /** `forwardSendMessage(edge)`. */
    method ForwardSendMessage(e: EdgeId)
      requires Ready() && 0 <= e < msgs.Length
      modifies this, msgs
      ensures msgs == old(msgs)
      ensures State() == AfterSend(Config(), old(State()), e)
    {
      var ec := msgs[e];
      var oldResidual := ec.residual;
      var res := SmartResidual(ec.message, ec.newMessage, e);
      var residual := res.value;
      var thr := prm.convergenceThreshold;
      if DoubleGt(oldResidual, thr) && DoubleLe(residual, thr) {
        numConverged := numConverged + 1;
      }
      if DoubleLe(oldResidual, thr) && DoubleGt(residual, thr) {
        numConverged := numConverged - 1;
      }
      msgs[e] := Messages(ec.newMessage, ec.message, residual);
    }

    /** One message of a SEQUENTIAL iteration created and sent. */
    method SequentialStep(order: seq<EdgeId>, i: int, iter: int, ghost st0: BpState)
      requires Consistent() && Ready() && ValidIds(fg, order) && 0 <= i < |order|
      requires State() == AfterSequentialSweep(Config(), st0, order[..i], iter)
      requires 0 < i ==> !Converged(State())
      modifies this, msgs
      ensures msgs == old(msgs) && Ready()
      ensures State() == AfterSequentialSweep(Config(), st0, order[..i + 1], iter)
    {
      var e := order[i];
      assert e in order;
      SequentialSnoc(Config(), st0, order, i, iter);
      StepSized(Config(), State(), e, iter);
      ForwardCreateMessage(e, iter);
      StepSized(Config(), State(), e, iter);
      ForwardSendMessage(e);
    }

    /** One iteration of `forward()` with SEQUENTIAL updates: each message
        of the order created and sent, stopping on convergence. */
    method SequentialSweep(order: seq<EdgeId>, iter: int)
      requires Consistent() && Ready() && ValidIds(fg, order)
      modifies this, msgs
      ensures msgs == old(msgs) && Ready()
      ensures State() == AfterSequentialSweep(Config(), old(State()), order, iter)
    {
      ghost var st0 := State();
      var i := 0;
      while i < |order|
        invariant 0 <= i <= |order| && msgs == old(msgs) && Ready()
        invariant State() == AfterSequentialSweep(Config(), st0, order[..i], iter)
        invariant 0 < i ==> !Converged(State())
      {
        SequentialStep(order, i, iter, st0);
        i := i + 1;
        var converged := IsConverged();
        if converged {
          SequentialStays(Config(), st0, order, i, iter);
          break;
        }
      }
      assert order[..|order|] == order;
    }

    /** One iteration of `forward()` with PARALLEL updates: every message
        of the order created, the END_OF_EDGE_CREATION marker taped, then
        every message sent. */
    method ParallelSweep(order: seq<EdgeId>, iter: int)
      requires Consistent() && Ready() && ValidIds(fg, order)
      modifies this, msgs
      ensures msgs == old(msgs) && Ready()
      ensures State() == AfterParallelSweep(Config(), old(State()), order, iter)
    {
      ghost var st0 := State();
      var i := 0;
      while i < |order|
        invariant 0 <= i <= |order| && msgs == old(msgs) && Ready()
        invariant State() == AfterCreateAll(Config(), st0, order[..i], iter)
      {
        var e := order[i];
        assert e in order;
        CreateAllSnoc(Config(), st0, order, i, iter);
        StepSized(Config(), State(), e, iter);
        ForwardCreateMessage(e, iter);
        i := i + 1;
      }
      assert order[..|order|] == order;
      tape := tape + [EndOfEdgeCreation];
      ghost var mid := State();
      i := 0;
      while i < |order|
        invariant 0 <= i <= |order| && msgs == old(msgs) && Ready()
        invariant State() == AfterSendAll(Config(), mid, order[..i])
      {
        var e := order[i];
        assert e in order;
        SendAllSnoc(Config(), mid, order, i);
        StepSized(Config(), State(), e, iter);
        ForwardSendMessage(e);
        i := i + 1;
      }
      assert order[..|order|] == order;
    }

    /** The start of `forward()`: a new tape and, for every edge, a message
        and a pending message of all ones in the algebra. */
    method InitMessages()
      modifies this
      ensures fresh(msgs) && Ready()
      ensures State() == InitState(Config(), old(numConverged))
    {
      tape := [];
      var n := |fg.edges|;
      msgs := new Messages[n];
      var i := 0;
      while i < n
        modifies msgs
        invariant 0 <= i <= n && msgs.Length == n && fresh(msgs)
        invariant msgs[..i] == InitMsgs(Config())[..i]
      {
        msgs[i] := Messages(Filled(fg.edges[i].numStates, s.one), Filled(fg.edges[i].numStates, s.one), initResidual);
        assert msgs[..i + 1] == msgs[..i] + [msgs[i]];
        i := i + 1;
      }
      assert msgs[..] == msgs[..n];
      assert InitMsgs(Config())[..n] == InitMsgs(Config());
      InitSized(Config());
    }

    /** One iteration of the loop of `forward()`: the order `updateOrder`
        gives, swept in the update order of the parameters; `converged`
        tells whether the loop stops after it. */
    method ForwardIteration(order: seq<EdgeId>, iter: int, ghost init: BpState) returns (order': seq<EdgeId>, converged: bool)
      requires Consistent() && Ready() && ValidIds(fg, order)
      requires Reached(Config(), init, iter, State(), order, false)
      modifies this, msgs
      ensures msgs == old(msgs) && Ready() && ValidIds(fg, order')
      ensures Reached(Config(), init, iter + 1, State(), order', converged)
    {
      NextOrderValid(prm, fg, sched, scheduled, order, iter);
      RunSnoc(Config(), init, iter, State(), order);
      order' := UpdateOrder(order, iter);
      if prm.updateOrder == Sequential {
        SequentialSweep(order', iter);
      } else {
        ParallelSweep(order', iter);
      }
      converged := IsConverged();
    }

    /** The loop of `forward()`, from the initial state `init`: iterations
        -1 .. maxIterations-1, stopping early on convergence. */
    method ForwardLoop(ghost init: BpState)
      requires Consistent() && Ready() && State() == init
      modifies this, msgs
      ensures msgs == old(msgs) && Ready()
      ensures State() == Run(Config(), init, LastIteration(Config())).st
    {
      var order: seq<EdgeId> := [];
      var iter := -1;
      ghost var last := LastIteration(Config());
      while iter < prm.maxIterations
        invariant -1 <= iter <= last
        invariant msgs == old(msgs) && Ready() && ValidIds(fg, order)
        invariant Reached(Config(), init, iter, State(), order, false)
      {
        var converged;
        order, converged := ForwardIteration(order, iter, init);
        if converged {
          RunStops(Config(), init, iter + 1, State(), order);
          return;
        }
        iter := iter + 1;
      }
      assert iter == last;
    }

    /** `forward()`, up to the beliefs: a new tape, fresh messages, then
        the loop over the iterations. */
    method Forward()
      requires Consistent()
      modifies this
      ensures Ready()
      ensures State() == AfterForward(Config(), old(numConverged))
    {
      InitMessages();
      ForwardLoop(State());
    }

    /** Copies the adjoints a foreign computation returned into `msgsAdj`. */
    method StoreAdj(a: seq<Messages>)
      requires |a| == msgsAdj.Length
      modifies msgsAdj
      ensures msgsAdj[..] == a
    {
      forall k | 0 <= k < |a| {
        msgsAdj[k] := a[k];
      }
    }

    /** `backwardSendMessage(t)`. */
    method BackwardSendMessage(t: int) returns (o: Outcome)
      requires msgs != msgsAdj
      modifies msgs, msgsAdj
      ensures (o, Back()) == SendBack(Config(), tape, old(Back()), t)
    {
      if !(0 <= t < |tape|) {
        return Fail(IndexOutOfBounds);
      }
      if tape[t] == EndOfEdgeCreation {
        return Fail(NullPointer);
      }
      var i := tape[t].edge;
      if !(0 <= i < msgs.Length && i < msgsAdj.Length) {
        return Fail(IndexOutOfBounds);
      }
      msgs[i] := msgs[i].(newMessage := msgs[i].message, message := tape[t].msg);
      var tmp := Zeroed(s, msgsAdj[i].newMessage);
      msgsAdj[i] := msgsAdj[i].(newMessage := msgsAdj[i].message, message := tmp);
      o := Done;
    }

    /** `backwardNormalize(t)`. */
    method BackwardNormalize(t: int) returns (o: Outcome)
      requires msgs != msgsAdj
      modifies msgsAdj
      ensures (o, Back()) == NormalizeBack(Config(), tape, old(Back()), t)
    {
      if !prm.normalizeMessages {
        return Done;
      }
      if !(0 <= t < |tape|) {
        return Fail(IndexOutOfBounds);
      }
      if tape[t] == EndOfEdgeCreation {
        return Fail(NullPointer);
      }
      var i := tape[t].edge;
      if !(0 <= i < msgs.Length && i < msgsAdj.Length) {
        return Fail(IndexOutOfBounds);
      }
      var u := UnnormalizeAdj(s, msgs[i].newMessage, msgsAdj[i].newMessage, tape[t].msgSum);
      if u.Throw? {
        return Fail(u.ex);
      }
      msgsAdj[i] := msgsAdj[i].(newMessage := u.value);
      o := Done;
    }

    /** `backwardCreateMessage(t)`. */
    method BackwardCreateMessage(bn: BackNumerics, t: int) returns (o: Outcome)
      requires msgs != msgsAdj && KeepsAdjSizes(bn)
      modifies msgsAdj
      ensures (o, Back()) == CreateBack(Config(), bn, tape, old(Back()), t)
    {
      if !(0 <= t < |tape|) {
        return Fail(IndexOutOfBounds);
      }
      if tape[t] == EndOfEdgeCreation {
        return Fail(NullPointer);
      }
      var i := tape[t].edge;
      if !(0 <= i < msgs.Length && i < msgsAdj.Length) {
        return Fail(IndexOutOfBounds);
      }
      if GlobalToVar(fg, i) {
        if tape[t].created {
          StoreAdj(bn.globalAdj(msgs[..], msgsAdj[..], i));
        }
      } else {
        StoreAdj(bn.localAdj(msgs[..], msgsAdj[..], i));
      }
      o := Done;
    }

    /** One step x of the replay, after steps `done` that raised nothing,
        with `rest` (starting with x) the steps still to come: either it
        raises nothing, or its exception ends the whole replay. */
    method ReplayStep(bn: BackNumerics, x: Step, ghost bs0: BackState, ghost done: seq<Step>, ghost rest: seq<Step>)
      returns (o: Outcome)
      requires msgs != msgsAdj && KeepsAdjSizes(bn)
      requires rest != [] && rest[0] == x
      requires Exec(Config(), bn, tape, bs0, done) == (Done, Back())
      modifies msgs, msgsAdj
      ensures o.Done? ==> Exec(Config(), bn, tape, bs0, done + [x]) == (Done, Back())
      ensures o.Fail? ==> Exec(Config(), bn, tape, bs0, done + rest) == (o, Back())
    {
      ExecSnoc(Config(), bn, tape, bs0, done, x);
      match x {
        case BackSend(t) => o := BackwardSendMessage(t);
        case BackNormalize(t) => o := BackwardNormalize(t);
        case BackCreate(t) => o := BackwardCreateMessage(bn, t);
      }
      if o.Fail? {
        Shift(done, rest);
        ExecFailStays(Config(), bn, tape, bs0, done + [x], rest[1..]);
      }
    }

    /** The three steps of tape entry t in the sequential replay: sent,
        normalised and created, with `below` the steps after them. */
    method ReplayEntry(bn: BackNumerics, t: int, ghost bs0: BackState, ghost done0: seq<Step>,
                       ghost below: seq<Step>, ghost all: seq<Step>)
      returns (o: Outcome, ghost done: seq<Step>)
      requires msgs != msgsAdj && KeepsAdjSizes(bn)
      requires done0 + ([BackSend(t), BackNormalize(t), BackCreate(t)] + below) == all
      requires Exec(Config(), bn, tape, bs0, done0) == (Done, Back())
      modifies msgs, msgsAdj
      ensures o.Fail? ==> Exec(Config(), bn, tape, bs0, all) == (o, Back())
      ensures o.Done? ==> done + below == all && Exec(Config(), bn, tape, bs0, done) == (Done, Back())
    {
      ghost var rest := [BackSend(t), BackNormalize(t), BackCreate(t)] + below;
      done := done0;
      o := ReplayStep(bn, BackSend(t), bs0, done, rest);
      if o.Fail? {
        return;
      }
      Shift(done, rest);
      done, rest := done + [BackSend(t)], rest[1..];
      o := ReplayStep(bn, BackNormalize(t), bs0, done, rest);
      if o.Fail? {
        return;
      }
      Shift(done, rest);
      done, rest := done + [BackNormalize(t)], rest[1..];
      o := ReplayStep(bn, BackCreate(t), bs0, done, rest);
      if o.Fail? {
        return;
      }
      Shift(done, rest);
      done, rest := done + [BackCreate(t)], rest[1..];
      assert rest == below;
    }

    /** The SEQUENTIAL replay of `backward()`: every tape entry from the
        last down, sent, normalised and created. */
    method BackwardSequential(bn: BackNumerics) returns (o: Outcome)
      requires msgs != msgsAdj && KeepsAdjSizes(bn)
      modifies msgs, msgsAdj
      ensures (o, Back()) == Exec(Config(), bn, tape, old(Back()), SequentialSteps(|tape|))
    {
      ghost var bs0 := Back();
      ghost var all := SequentialSteps(|tape|);
      ghost var done: seq<Step> := [];
      ghost var rest := all;
      var t := |tape| - 1;
      while t >= 0
        invariant -1 <= t < |tape|
        invariant done + rest == all && rest == SequentialDown(t, 0)
        invariant Exec(Config(), bn, tape, bs0, done) == (Done, Back())
      {
        ghost var below := SequentialDown(t - 1, 0);
        assert rest == [BackSend(t), BackNormalize(t), BackCreate(t)] + below;
        o, done := ReplayEntry(bn, t, bs0, done, below, all);
        if o.Fail? {
          return;
        }
        rest := below;
        t := t - 1;
      }
      assert done == all;
      o := Done;
    }

    /** The first inner loop of a PARALLEL segment: from entry t0 down to
        the marker m below it, each entry sent and normalised; `tail` is
        the rest of the replay after these steps. */
    method SendNormSegment(bn: BackNumerics, t0: int, ghost m: int, ghost bs0: BackState, ghost done0: seq<Step>,
                           ghost tail: seq<Step>, ghost all: seq<Step>)
      returns (o: Outcome, t: int, ghost done: seq<Step>)
      requires msgs != msgsAdj && KeepsAdjSizes(bn)
      requires 0 <= t0 < |tape| && m == MarkerBelow(tape, t0)
      requires done0 + (SendNormDown(t0, m + 1) + tail) == all
      requires Exec(Config(), bn, tape, bs0, done0) == (Done, Back())
      modifies msgs, msgsAdj
      ensures o.Fail? ==> Exec(Config(), bn, tape, bs0, all) == (o, Back())
      ensures o.Done? ==> t == m && done + tail == all && Exec(Config(), bn, tape, bs0, done) == (Done, Back())
    {
      done := done0;
      ghost var rest := SendNormDown(t0, m + 1) + tail;
      t := t0;
      while t >= 0
        invariant m <= t <= t0
        invariant done + rest == all && rest == SendNormDown(t, m + 1) + tail
        invariant Exec(Config(), bn, tape, bs0, done) == (Done, Back())
      {
        if tape[t] == EndOfEdgeCreation {
          break;
        }
        ghost var after := SendNormDown(t - 1, m + 1) + tail;
        assert rest == [BackSend(t), BackNormalize(t)] + after;
        o := ReplayStep(bn, BackSend(t), bs0, done, rest);
        if o.Fail? {
          return;
        }
        Shift(done, rest);
        done, rest := done + [BackSend(t)], rest[1..];
        o := ReplayStep(bn, BackNormalize(t), bs0, done, rest);
        if o.Fail? {
          return;
        }
        Shift(done, rest);
        done, rest := done + [BackNormalize(t)], rest[1..];
        assert rest == after;
        t := t - 1;
      }
      assert rest == tail;
      o := Done;
    }

    /** The second inner loop of a PARALLEL segment: from entry tTop down
        to the marker m below it, each entry created; the loop then steps
        past the marker. `below` is the replay under the marker. */
    method CreateSegment(bn: BackNumerics, tTop: int, ghost m: int, ghost bs0: BackState, ghost done0: seq<Step>,
                         ghost below: seq<Step>, ghost all: seq<Step>)
      returns (o: Outcome, t: int, ghost done: seq<Step>)
      requires msgs != msgsAdj && KeepsAdjSizes(bn)
      requires 0 <= tTop < |tape| && m == MarkerBelow(tape, tTop)
      requires done0 + (CreateDown(tTop, m + 1) + below) == all
      requires Exec(Config(), bn, tape, bs0, done0) == (Done, Back())
      modifies msgs, msgsAdj
      ensures o.Fail? ==> Exec(Config(), bn, tape, bs0, all) == (o, Back())
      ensures o.Done? ==> (0 <= m && t == m - 1) || t == m == -1
      ensures o.Done? ==> done + below == all && Exec(Config(), bn, tape, bs0, done) == (Done, Back())
    {
      done := done0;
      ghost var rest := CreateDown(tTop, m + 1) + below;
      t := tTop;
      while t >= 0
        invariant m <= t <= tTop
        invariant done + rest == all && rest == CreateDown(t, m + 1) + below
        invariant Exec(Config(), bn, tape, bs0, done) == (Done, Back())
      {
        if tape[t] == EndOfEdgeCreation {
          t := t - 1;
          break;
        }
        ghost var after := CreateDown(t - 1, m + 1) + below;
        assert rest == [BackCreate(t)] + after;
        o := ReplayStep(bn, BackCreate(t), bs0, done, rest);
        if o.Fail? {
          return;
        }
        Shift(done, rest);
        done, rest := done + [BackCreate(t)], rest[1..];
        assert rest == after;
        t := t - 1;
      }
      assert rest == below;
      o := Done;
    }

    /** One block of the PARALLEL replay: the entries from `tTop` down to
        the next marker sent and normalised, then the same entries created. */
    method ParallelBlock(bn: BackNumerics, tTop: int, ghost bs0: BackState, ghost done0: seq<Step>, ghost all: seq<Step>)
      returns (o: Outcome, t: int, ghost done: seq<Step>)
      requires msgs != msgsAdj && KeepsAdjSizes(bn)
      requires 0 <= tTop < |tape| && done0 + ParallelSteps(tape, tTop) == all
      requires Exec(Config(), bn, tape, bs0, done0) == (Done, Back())
      modifies msgs, msgsAdj
      ensures o.Fail? ==> Exec(Config(), bn, tape, bs0, all) == (o, Back())
      ensures o.Done? ==> -1 <= t < tTop && done + ParallelSteps(tape, t) == all
      ensures o.Done? ==> Exec(Config(), bn, tape, bs0, done) == (Done, Back())
    {
      ghost var m := MarkerBelow(tape, tTop);
      ghost var below := ParallelSteps(tape, m - 1);
      ghost var creates := CreateDown(tTop, m + 1);
      AppendAssoc(SendNormDown(tTop, m + 1), creates, below);
      o, t, done := SendNormSegment(bn, tTop, m, bs0, done0, creates + below, all);
      if o.Fail? {
        return;
      }
      o, t, done := CreateSegment(bn, tTop, m, bs0, done, below, all);
      if o.Fail? {
        return;
      }
      assert ParallelSteps(tape, t) == below;
    }

    /** The PARALLEL replay of `backward()`: from the top of the tape, one
        block per marker, down to the bottom. */
    method BackwardParallel(bn: BackNumerics) returns (o: Outcome)
      requires msgs != msgsAdj && KeepsAdjSizes(bn)
      modifies msgs, msgsAdj
      ensures (o, Back()) == Exec(Config(), bn, tape, old(Back()), ParallelSteps(tape, |tape| - 1))
    {
      ghost var bs0 := Back();
      ghost var all := ParallelSteps(tape, |tape| - 1);
      ghost var done: seq<Step> := [];
      assert bs0 == old(Back());
      var t := |tape| - 1;
      while t >= 0
        invariant -1 <= t < |tape|
        invariant bs0 == old(Back()) && all == ParallelSteps(tape, |tape| - 1)
        invariant done + ParallelSteps(tape, t) == all
        invariant Exec(Config(), bn, tape, bs0, done) == (Done, Back())
        decreases t + 1
      {
        o, t, done := ParallelBlock(bn, t, bs0, done, all);
        if o.Fail? {
          return;
        }
      }
      assert done == all;
      o := Done;
    }

    /** `backward()` from the message adjoints `initAdj` that running the
        belief computation in reverse produced: the tape replayed in the
        update order of the parameters, up to the first exception. */
    method Backward(bn: BackNumerics, initAdj: seq<Messages>) returns (o: Outcome)
      requires KeepsAdjSizes(bn)
      modifies this, msgs
      ensures msgs == old(msgs) && tape == old(tape) && numConverged == old(numConverged)
      ensures (o, Back()) == AfterBackward(Config(), bn, tape, old(msgs[..]), initAdj)
    {
      msgsAdj := new Messages[|initAdj|](k requires 0 <= k < |initAdj| => initAdj[k]);
      assert Back() == BackState(old(msgs[..]), initAdj);
      if prm.updateOrder == Sequential {
        o := BackwardSequential(bn);
      } else {
        o := BackwardParallel(bn);
      }
    }
  }
}
