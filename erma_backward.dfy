/** The backward pass of ErmaBp: the order in which the tape is replayed,
    and what each replayed step does to the messages and their adjoints. */
module ErmaBackward {
  import opened Wrappers
  import opened JavaLang
  import opened ErmaGraphs
  import opened ErmaNumerics
  import opened ErmaForward

  /** One call of the replay on tape entry t: `backwardSendMessage(t)`,
      `backwardNormalize(t)` or `backwardCreateMessage(t)`. */
  datatype Step = BackSend(t: int) | BackNormalize(t: int) | BackCreate(t: int)

  /** The number of times step x occurs in steps. */
  function Count(steps: seq<Step>, x: Step): (n: nat)
    ensures n <= |steps|
  {
    if steps == [] then 0
    else Count(steps[..|steps| - 1], x) + (if steps[|steps| - 1] == x then 1 else 0)
  }

  lemma {:induction false} CountAppend(a: seq<Step>, b: seq<Step>, x: Step)
    ensures Count(a + b, x) == Count(a, x) + Count(b, x)
    decreases |b|
  {
    if b == [] {
      assert a + b == a;
    } else {
      var b' := b[..|b| - 1];
      assert (a + b)[..|a + b| - 1] == a + b';
      CountAppend(a, b', x);
    }
  }

  /** The count is the multiplicity in the multiset of the steps. */
  lemma {:induction false} CountIsMultiplicity(steps: seq<Step>, x: Step)
    ensures Count(steps, x) == multiset(steps)[x]
  {
    if steps != [] {
      var s' := steps[..|steps| - 1];
      assert steps == s' + [steps[|steps| - 1]];
      CountIsMultiplicity(s', x);
    }
  }

  // ---------------------------------------------------------------------
  // SEQUENTIAL replay

  /** The SEQUENTIAL replay of entries hi down to lo: for each, send,
      normalize, create. */
  function SequentialDown(hi: int, lo: int): seq<Step>
    decreases hi - lo
  {
    if lo > hi then [] else [BackSend(hi), BackNormalize(hi), BackCreate(hi)] + SequentialDown(hi - 1, lo)
  }

  /** The SEQUENTIAL replay of a tape of n entries. */
  function SequentialSteps(n: int): seq<Step>
  {
    SequentialDown(n - 1, 0)
  }

  /** The SEQUENTIAL replay visits the entries strictly descending, three
      steps each: the j-th entry visited is hi - j, sent, normalised, then
      created. */
  lemma {:induction false} SequentialDownShape(hi: int, lo: int)
    requires lo <= hi + 1
    ensures var r := SequentialDown(hi, lo);
      |r| == 3 * (hi - lo + 1)
      && forall j :: 0 <= j <= hi - lo ==>
           r[3 * j] == BackSend(hi - j) && r[3 * j + 1] == BackNormalize(hi - j) && r[3 * j + 2] == BackCreate(hi - j)
    decreases hi - lo
  {
    if lo <= hi {
      SequentialDownShape(hi - 1, lo);
      var r, rest := SequentialDown(hi, lo), SequentialDown(hi - 1, lo);
      assert r == [BackSend(hi), BackNormalize(hi), BackCreate(hi)] + rest;
      forall j | 1 <= j <= hi - lo
        ensures r[3 * j] == BackSend(hi - j) && r[3 * j + 1] == BackNormalize(hi - j) && r[3 * j + 2] == BackCreate(hi - j)
      {
        var k := j - 1;
        assert rest[3 * k] == BackSend(hi - 1 - k) && rest[3 * k + 1] == BackNormalize(hi - 1 - k);
        assert rest[3 * k + 2] == BackCreate(hi - 1 - k);
        assert r[3 * j] == rest[3 * k] && r[3 * j + 1] == rest[3 * k + 1] && r[3 * j + 2] == rest[3 * k + 2];
      }
    }
  }

  /** Every entry lo .. hi gets exactly one step of each kind. */
  lemma {:induction false} SequentialDownCounts(hi: int, lo: int, x: Step)
    ensures Count(SequentialDown(hi, lo), x) == if lo <= x.t <= hi then 1 else 0
    decreases hi - lo
  {
    if lo <= hi {
      var first := [BackSend(hi), BackNormalize(hi), BackCreate(hi)];
      CountAppend(first, SequentialDown(hi - 1, lo), x);
      assert first[..2] == [BackSend(hi), BackNormalize(hi)] && first[..2][..1] == [BackSend(hi)];
      assert [BackSend(hi)][..0] == [];
      assert Count([BackSend(hi)], x) == if x == BackSend(hi) then 1 else 0;
      assert Count(first[..2], x) == Count([BackSend(hi)], x) + (if x == BackNormalize(hi) then 1 else 0);
      assert Count(first, x) == if x.t == hi then 1 else 0;
      SequentialDownCounts(hi - 1, lo, x);
    }
  }

  /** For a tape of n entries: 3n steps, entry n-1-j at positions 3j, 3j+1
      and 3j+2 as send, normalize and create, so each entry exactly once in
      each phase. */
  lemma SequentialStepsOrder(n: nat)
    ensures var r := SequentialSteps(n);
      |r| == 3 * n
      && (forall j :: 0 <= j < n ==>
            r[3 * j] == BackSend(n - 1 - j) && r[3 * j + 1] == BackNormalize(n - 1 - j)
            && r[3 * j + 2] == BackCreate(n - 1 - j))
      && forall x: Step :: multiset(r)[x] == if 0 <= x.t < n then 1 else 0
  {
    SequentialDownShape(n - 1, 0);
    forall x: Step
      ensures multiset(SequentialSteps(n))[x] == if 0 <= x.t < n then 1 else 0
    {
      SequentialStepCount(n, x);
    }
  }

  lemma SequentialStepCount(n: nat, x: Step)
    ensures multiset(SequentialSteps(n))[x] == if 0 <= x.t < n then 1 else 0
  {
    SequentialDownCounts(n - 1, 0, x);
    CountIsMultiplicity(SequentialSteps(n), x);
  }

  // ---------------------------------------------------------------------
  // PARALLEL replay

  /** The first END_OF_EDGE_CREATION marker at or below t, or -1. */
  function MarkerBelow(tape: seq<TapeEntry>, t: int): (m: int)
    requires t < |tape|
    ensures m == -1 || 0 <= m <= t
    ensures m >= 0 ==> tape[m] == EndOfEdgeCreation
    ensures forall k :: m < k <= t ==> tape[k].Entry?
    decreases t + 1
  {
    if t < 0 then -1
    else if tape[t] == EndOfEdgeCreation then t
    else MarkerBelow(tape, t - 1)
  }

  /** The first inner loop of a PARALLEL segment: entries hi down to lo,
      each sent and normalised. */
  function SendNormDown(hi: int, lo: int): seq<Step>
    decreases hi - lo
  {
    if lo > hi then [] else [BackSend(hi), BackNormalize(hi)] + SendNormDown(hi - 1, lo)
  }

  /** The second inner loop of a PARALLEL segment: entries hi down to lo,
      each created. */
  function CreateDown(hi: int, lo: int): seq<Step>
    decreases hi - lo
  {
    if lo > hi then [] else [BackCreate(hi)] + CreateDown(hi - 1, lo)
  }

  /** The PARALLEL replay from entry t down: the entries above the next
      marker below, all sent and normalised, then all created; then the
      same below that marker. */
  function ParallelSteps(tape: seq<TapeEntry>, t: int): seq<Step>
    requires t < |tape|
    decreases t + 1
  {
    if t < 0 then []
    else
      var m := MarkerBelow(tape, t);
      SendNormDown(t, m + 1) + CreateDown(t, m + 1) + ParallelSteps(tape, m - 1)
  }

  lemma {:induction false} SendNormCounts(hi: int, lo: int, x: Step)
    ensures Count(SendNormDown(hi, lo), x) == if lo <= x.t <= hi && !x.BackCreate? then 1 else 0
    decreases hi - lo
  {
    if lo <= hi {
      var first := [BackSend(hi), BackNormalize(hi)];
      CountAppend(first, SendNormDown(hi - 1, lo), x);
      assert first[..1] == [BackSend(hi)];
      assert Count(first, x) == if x.t == hi && !x.BackCreate? then 1 else 0;
      SendNormCounts(hi - 1, lo, x);
    }
  }

  lemma {:induction false} CreateCounts(hi: int, lo: int, x: Step)
    ensures Count(CreateDown(hi, lo), x) == if lo <= x.t <= hi && x.BackCreate? then 1 else 0
    decreases hi - lo
  {
    if lo <= hi {
      CountAppend([BackCreate(hi)], CreateDown(hi - 1, lo), x);
      assert [BackCreate(hi)][..0] == [];
      CreateCounts(hi - 1, lo, x);
    }
  }

  /** The steps of a PARALLEL replay are those of its first segment and
      those of the rest. */
  lemma ParallelSplit(tape: seq<TapeEntry>, t: int, x: Step)
    requires 0 <= t < |tape|
    ensures var m := MarkerBelow(tape, t);
      Count(ParallelSteps(tape, t), x)
      == Count(SendNormDown(t, m + 1), x) + Count(CreateDown(t, m + 1), x) + Count(ParallelSteps(tape, m - 1), x)
  {
    var m := MarkerBelow(tape, t);
    var a, b, rest := SendNormDown(t, m + 1), CreateDown(t, m + 1), ParallelSteps(tape, m - 1);
    assert ParallelSteps(tape, t) == (a + b) + rest;
    CountAppend(a + b, rest, x);
    CountAppend(a, b, x);
  }

  /** In the PARALLEL replay every entry at or below t gets exactly one
      step of each kind and a marker none, and nothing above t is
      visited. */
  lemma {:induction false} ParallelCounts(tape: seq<TapeEntry>, t: int, x: Step)
    requires t < |tape|
    ensures Count(ParallelSteps(tape, t), x) == if 0 <= x.t <= t && tape[x.t].Entry? then 1 else 0
    decreases t + 1
  {
    if t >= 0 {
      ParallelCounts(tape, MarkerBelow(tape, t) - 1, x);
      ParallelCountStep(tape, t, x);
    }
  }

  /** The count for a replay from t, given the count for the rest below
      the first marker. */
  lemma ParallelCountStep(tape: seq<TapeEntry>, t: int, x: Step)
    requires 0 <= t < |tape|
    requires var m := MarkerBelow(tape, t);
      Count(ParallelSteps(tape, m - 1), x) == if 0 <= x.t <= m - 1 && tape[x.t].Entry? then 1 else 0
    ensures Count(ParallelSteps(tape, t), x) == if 0 <= x.t <= t && tape[x.t].Entry? then 1 else 0
  {
    var m := MarkerBelow(tape, t);
    ParallelSplit(tape, t, x);
    SendNormCounts(t, m + 1, x);
    CreateCounts(t, m + 1, x);
    if m < x.t <= t {
      assert tape[x.t].Entry?;
    } else if 0 <= x.t && x.t == m {
      assert tape[x.t] == EndOfEdgeCreation;
    }
  }

  /** The replay `backward()` performs on the tape. */
  function BackwardSteps(prm: ErmaBpPrm, tape: seq<TapeEntry>): seq<Step>
  {
    if prm.updateOrder == Sequential then SequentialSteps(|tape|) else ParallelSteps(tape, |tape| - 1)
  }

  /** Every entry of the tape is sent, normalised and created exactly once
      by the replay, and every marker is skipped (a SEQUENTIAL tape has
      none). */
  lemma BackwardVisitsOnce(prm: ErmaBpPrm, tape: seq<TapeEntry>, x: Step)
    requires prm.updateOrder == Sequential ==> forall k :: 0 <= k < |tape| ==> tape[k].Entry?
    ensures multiset(BackwardSteps(prm, tape))[x] == if 0 <= x.t < |tape| && tape[x.t].Entry? then 1 else 0
  {
    if prm.updateOrder == Sequential {
      SequentialStepsOrder(|tape|);
    } else {
      ParallelCounts(tape, |tape| - 1, x);
      CountIsMultiplicity(ParallelSteps(tape, |tape| - 1), x);
    }
  }

  // ---------------------------------------------------------------------
  // What the steps do

  /** The messages and their adjoints, `msgs` and `msgsAdj`. */
  datatype BackState = BackState(msgs: seq<Messages>, adj: seq<Messages>)

  /** The adjoint computations of classes that are not part of this model:
      `backwardVarToFactor`/`backwardFactorToVar` for an ordinary edge, and
      the global factor's `backwardCreateMessages`; each takes the messages
      and adjoints and returns the new adjoints. */
  datatype BackNumerics = BackNumerics(
    localAdj: (seq<Messages>, seq<Messages>, EdgeId) -> seq<Messages>,
    globalAdj: (seq<Messages>, seq<Messages>, EdgeId) -> seq<Messages>)

  /** The edge of tape entry t: a NullPointerException for a marker, whose
      edge is null, and an index error for an entry or edge id that does not
      exist. */
  function EntryEdge(tape: seq<TapeEntry>, bs: BackState, t: int): (r: Result<EdgeId>)
    ensures r.Ok? <==> 0 <= t < |tape| && tape[t].Entry? && 0 <= tape[t].edge < |bs.msgs| && tape[t].edge < |bs.adj|
    ensures r.Ok? ==> r.value == tape[t].edge
    ensures r.Throw? && 0 <= t < |tape| && tape[t] == EndOfEdgeCreation ==> r.ex == NullPointer
  {
    if !(0 <= t < |tape|) then Throw(IndexOutOfBounds)
    else if tape[t] == EndOfEdgeCreation then Throw(NullPointer)
    else if !(0 <= tape[t].edge < |bs.msgs| && tape[t].edge < |bs.adj|) then Throw(IndexOutOfBounds)
    else Ok(tape[t].edge)
  }

  /** `msg.multiply(0)`, taken as the algebra product of every entry
      with 0 (the tensor class is not part of this model). */
  function Zeroed(s: Algebra, t: Tensor): (r: Tensor)
    ensures |r| == |t|
  {
    seq(|t|, c requires 0 <= c < |t| => s.times(t[c], Finite(0.0)))
  }

  /** `backwardSendMessage(t)`: the message of the entry's edge moves to
      the pending slot and the taped message comes back; the adjoint of the
      sent message moves to the pending slot and the other adjoint, zeroed,
      takes its place. */
  function SendBack(c: Setup, tape: seq<TapeEntry>, bs: BackState, t: int): (r: (Outcome, BackState))
    ensures r.0.Fail? <==> EntryEdge(tape, bs, t).Throw?
    ensures r.0.Fail? ==> r.1 == bs
    ensures r.0.Done? ==> var i := tape[t].edge;
      |r.1.msgs| == |bs.msgs| && |r.1.adj| == |bs.adj|
      && r.1.msgs[i].message == tape[t].msg && r.1.msgs[i].newMessage == bs.msgs[i].message
      && r.1.adj[i].newMessage == bs.adj[i].message && r.1.adj[i].message == Zeroed(c.s, bs.adj[i].newMessage)
      && (forall e :: 0 <= e < |bs.msgs| && e != i ==> r.1.msgs[e] == bs.msgs[e])
      && (forall e :: 0 <= e < |bs.adj| && e != i ==> r.1.adj[e] == bs.adj[e])
  {
    match EntryEdge(tape, bs, t)
    case Throw(ex) => (Fail(ex), bs)
    case Ok(i) =>
      var m := bs.msgs[i].(newMessage := bs.msgs[i].message, message := tape[t].msg);
      var a := bs.adj[i].(newMessage := bs.adj[i].message, message := Zeroed(c.s, bs.adj[i].newMessage));
      (Done, BackState(bs.msgs[i := m], bs.adj[i := a]))
  }

  /** `backwardNormalize(t)`: nothing unless messages are normalised;
      otherwise the pending adjoint of the entry's edge is unnormalised
      against its pending message with the taped sum, which raises when
      that sum is the algebra zero. */
  function NormalizeBack(c: Setup, tape: seq<TapeEntry>, bs: BackState, t: int): (r: (Outcome, BackState))
    ensures !c.prm.normalizeMessages ==> r == (Done, bs)
    ensures r.0.Done? ==> r.1.msgs == bs.msgs && |r.1.adj| == |bs.adj|
    ensures c.prm.normalizeMessages && EntryEdge(tape, bs, t).Ok? ==>
      var i := tape[t].edge;
      var u := UnnormalizeAdj(c.s, bs.msgs[i].newMessage, bs.adj[i].newMessage, tape[t].msgSum);
      (r.0.Fail? <==> u.Throw?)
      && (u.Ok? ==> r.1 == bs.(adj := bs.adj[i := bs.adj[i].(newMessage := u.value)]))
  {
    if !c.prm.normalizeMessages then (Done, bs)
    else
      match EntryEdge(tape, bs, t)
      case Throw(ex) => (Fail(ex), bs)
      case Ok(i) =>
        match UnnormalizeAdj(c.s, bs.msgs[i].newMessage, bs.adj[i].newMessage, tape[t].msgSum)
        case Throw(ex) => (Fail(ex), bs)
        case Ok(u) => (Done, bs.(adj := bs.adj[i := bs.adj[i].(newMessage := u)]))
  }

  /** `backwardCreateMessage(t)`: for a message from a global factor, the
      factor's `backwardCreateMessages` when the entry is the one marked
      created and nothing otherwise; for any other edge, the adjoint
      computation of the edge. */
  function CreateBack(c: Setup, bn: BackNumerics, tape: seq<TapeEntry>, bs: BackState, t: int): (r: (Outcome, BackState))
    ensures r.0.Fail? <==> EntryEdge(tape, bs, t).Throw?
    ensures r.0.Done? ==> r.1.msgs == bs.msgs
    ensures r.0.Done? && GlobalToVar(c.fg, tape[t].edge) ==>
      r.1.adj == if tape[t].created then bn.globalAdj(bs.msgs, bs.adj, tape[t].edge) else bs.adj
    ensures r.0.Done? && !GlobalToVar(c.fg, tape[t].edge) ==>
      r.1.adj == bn.localAdj(bs.msgs, bs.adj, tape[t].edge)
  {
    match EntryEdge(tape, bs, t)
    case Throw(ex) => (Fail(ex), bs)
    case Ok(i) =>
      if GlobalToVar(c.fg, i) then
        if tape[t].created then (Done, bs.(adj := bn.globalAdj(bs.msgs, bs.adj, i))) else (Done, bs)
      else (Done, bs.(adj := bn.localAdj(bs.msgs, bs.adj, i)))
  }

  /** The adjoint computations write the adjoints of the existing edges:
      they return as many as they are given. */
  ghost predicate KeepsAdjSizes(bn: BackNumerics)
  {
    (forall ms, adj, e :: |bn.localAdj(ms, adj, e)| == |adj|)
    && (forall ms, adj, e :: |bn.globalAdj(ms, adj, e)| == |adj|)
  }

  function StepOf(c: Setup, bn: BackNumerics, tape: seq<TapeEntry>, bs: BackState, step: Step): (Outcome, BackState)
  {
    match step
    case BackSend(t) => SendBack(c, tape, bs, t)
    case BackNormalize(t) => NormalizeBack(c, tape, bs, t)
    case BackCreate(t) => CreateBack(c, bn, tape, bs, t)
  }

  /** The steps run in turn from bs, stopping at the first exception. */
  function Exec(c: Setup, bn: BackNumerics, tape: seq<TapeEntry>, bs: BackState, steps: seq<Step>): (Outcome, BackState)
  {
    if steps == [] then (Done, bs)
    else
      var p := Exec(c, bn, tape, bs, steps[..|steps| - 1]);
      if p.0.Fail? then p else StepOf(c, bn, tape, p.1, steps[|steps| - 1])
  }

  /** One more step after steps that raised nothing. */
  lemma ExecSnoc(c: Setup, bn: BackNumerics, tape: seq<TapeEntry>, bs: BackState, steps: seq<Step>, x: Step)
    requires Exec(c, bn, tape, bs, steps).0.Done?
    ensures Exec(c, bn, tape, bs, steps + [x]) == StepOf(c, bn, tape, Exec(c, bn, tape, bs, steps).1, x)
  {
    assert (steps + [x])[..|steps|] == steps;
  }

  lemma AppendAssoc(a: seq<Step>, b: seq<Step>, c: seq<Step>)
    ensures a + b + c == a + (b + c)
  {
  }

  /** Moving the first of the steps to come onto the steps done. */
  lemma Shift(done: seq<Step>, rest: seq<Step>)
    requires rest != []
    ensures (done + [rest[0]]) + rest[1..] == done + rest
  {
    assert rest == [rest[0]] + rest[1..];
  }

  /** After an exception the remaining steps change nothing. */
  lemma {:induction false} ExecFailStays(c: Setup, bn: BackNumerics, tape: seq<TapeEntry>, bs: BackState,
                                         a: seq<Step>, b: seq<Step>)
    requires Exec(c, bn, tape, bs, a).0.Fail?
    ensures Exec(c, bn, tape, bs, a + b) == Exec(c, bn, tape, bs, a)
    decreases |b|
  {
    if b == [] {
      assert a + b == a;
    } else {
      var b' := b[..|b| - 1];
      assert (a + b)[..|a + b| - 1] == a + b';
      ExecFailStays(c, bn, tape, bs, a, b');
    }
  }

  /** What `backward()` leaves in `msgs` and `msgsAdj`, from the adjoints
      the belief computation was run backwards into, with the outcome. */
  function AfterBackward(c: Setup, bn: BackNumerics, tape: seq<TapeEntry>, msgs: seq<Messages>, initAdj: seq<Messages>): (Outcome, BackState)
  {
    Exec(c, bn, tape, BackState(msgs, initAdj), BackwardSteps(c.prm, tape))
  }

  /** Sending a message in reverse undoes the forward send: after an
      ordinary edge's message is created and sent with the tape kept, the
      backward send of the entry just taped puts back the message the edge
      held before, and moves the sent one to the pending slot. */
  lemma SendUndone(c: Setup, st: BpState, e: EdgeId, iter: int, adj: seq<Messages>)
    requires 0 <= e < |st.msgs| && e < |adj| && c.prm.keepTape && !GlobalToVar(c.fg, e)
    ensures var sent := AfterSend(c, AfterCreate(c, st, e, iter), e);
      var r := SendBack(c, sent.tape, BackState(sent.msgs, adj), |sent.tape| - 1);
      r.0.Done? && r.1.msgs[e].message == st.msgs[e].message && r.1.msgs[e].newMessage == sent.msgs[e].message
  {
    var st1 := st.(msgs := SetPending(st.msgs, e, c.num.newMessage(st.msgs, e)));
    var created := AfterNormalize(c, st1, e, true);
    assert AfterCreate(c, st, e, iter) == created;
    assert created.tape == st.tape + [Entry(e, st1.msgs[e].message, MsgSum(c, st1.msgs[e].newMessage), true)];
  }

  /** The tape a forward pass leaves is replayed by `backward()` with every
      recorded message visited once in each phase and every marker
      skipped. */
  lemma ForwardThenBackward(c: Setup, numConverged: int, x: Step)
    ensures var tape := AfterForward(c, numConverged).tape;
      multiset(BackwardSteps(c.prm, tape))[x] == if 0 <= x.t < |tape| && tape[x.t].Entry? then 1 else 0
  {
    ForwardTape(c, numConverged);
    var tape := AfterForward(c, numConverged).tape;
    assert c.prm.updateOrder == Sequential ==> forall k :: 0 <= k < |tape| ==> EntryShape(c, tape[k]);
    BackwardVisitsOnce(c.prm, tape, x);
  }
}
