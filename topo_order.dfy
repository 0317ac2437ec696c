/** A topologically ordered list of modules combined into one module:
    forward() runs the modules in order, backward() in reverse order. */
module TopoOrders {
  import opened Wrappers

  /** A module of the list, by identity; modules are not part of this model
      beyond the calls made on them. */
  type ModuleId = int

  /** A call made on a module. */
  datatype Call = Forward(m: ModuleId) | Backward(m: ModuleId) | ZeroOutputAdj(m: ModuleId)

  /** The three calls, as functions of the module. */
  const ForwardOf: ModuleId -> Call := m => Forward(m)
  const BackwardOf: ModuleId -> Call := m => Backward(m)
  const ZeroOutputAdjOf: ModuleId -> Call := m => ZeroOutputAdj(m)

  /** The record of calls the modules receive, in the order they come. */
  class CallLog {
    var calls: seq<Call>

    constructor()
      ensures calls == []
    {
      calls := [];
    }
  }

  /** The calls `call(m)` for every m of ms, in order. */
  function CallsOf(call: ModuleId -> Call, ms: seq<ModuleId>): (r: seq<Call>)
    ensures |r| == |ms|
    ensures forall i {:trigger r[i]} :: 0 <= i < |ms| ==> r[i] == call(ms[i])
  {
    if ms == [] then [] else [call(ms[0])] + CallsOf(call, ms[1..])
  }

  lemma CallsOfAppend(call: ModuleId -> Call, a: seq<ModuleId>, b: seq<ModuleId>)
    ensures CallsOf(call, a + b) == CallsOf(call, a) + CallsOf(call, b)
  {
  }

  /** `Collections.reverse` on a list. */
  function Reverse(s: seq<ModuleId>): (r: seq<ModuleId>)
    ensures |r| == |s|
  {
    if s == [] then [] else Reverse(s[1..]) + [s[0]]
  }

  /** The i-th of the reversed list is the i-th from the end. */
  lemma {:induction false} ReverseIndex(s: seq<ModuleId>)
    ensures forall i :: 0 <= i < |s| ==> Reverse(s)[i] == s[|s| - 1 - i]
  {
    if s != [] {
      ReverseIndex(s[1..]);
    }
  }

  /** Reversing twice gives the list back. */
  lemma ReverseReverse(s: seq<ModuleId>)
    ensures Reverse(Reverse(s)) == s
  {
    ReverseIndex(s);
    ReverseIndex(Reverse(s));
  }

  /** The calls of a backward pass are those of a forward pass in reverse. */
  lemma BackwardMirrorsForward(ms: seq<ModuleId>)
    ensures var f := CallsOf(ForwardOf, ms);
      var b := CallsOf(BackwardOf, Reverse(ms));
      |b| == |f| && forall i :: 0 <= i < |f| ==> b[i] == Backward(f[|f| - 1 - i].m)
  {
    ReverseIndex(ms);
  }

  /** The module of getLast(): the last of the list; an empty list has none
      (`get(-1)` raises IndexOutOfBoundsException). */
  function Last(ms: seq<ModuleId>): (r: Result<ModuleId>)
    ensures r.Ok? <==> ms != []
    ensures r.Ok? ==> r.value == ms[|ms| - 1]
  {
    if ms == [] then Throw(IndexOutOfBounds) else Ok(ms[|ms| - 1])
  }

  class TopoOrder {
    var topoOrder: seq<ModuleId>

    constructor()
      ensures topoOrder == []
    {
      topoOrder := [];
    }

    /** `add`: appended at the end. */
    method Add(m: ModuleId)
      modifies this
      ensures topoOrder == old(topoOrder) + [m]
    {
      topoOrder := topoOrder + [m];
    }

    /** `getLast()`: `Last` of the modules added so far. */
    function GetLast(): (r: Result<ModuleId>)
      reads this
      ensures r.Ok? <==> topoOrder != []
      ensures r.Ok? ==> r.value == topoOrder[|topoOrder| - 1]
      ensures r.Throw? ==> r.ex == IndexOutOfBounds
    {
      Last(topoOrder)
    }

    /** `forward()`: forward on every module in insertion order; the output
      returned is that of the last module. */
    method DoForward(log: CallLog) returns (r: Result<ModuleId>)
      modifies log
      ensures log.calls == old(log.calls) + CallsOf(ForwardOf, topoOrder)
      ensures r == Last(topoOrder)
    {
      var ms := topoOrder;
      var i := 0;
      while i < |ms|
        invariant 0 <= i <= |ms|
        invariant log.calls == old(log.calls) + CallsOf(ForwardOf, ms[..i])
      {
        CallsOfAppend(ForwardOf, ms[..i], [ms[i]]);
        assert ms[..i + 1] == ms[..i] + [ms[i]];
        log.calls := log.calls + [Forward(ms[i])];
        i := i + 1;
      }
      assert ms[..i] == ms;
      r := GetLast();
    }

    /** `backward()`: backward on every module of a reversed copy, so in
      reverse insertion order; the list itself is left as it was. */
    method DoBackward(log: CallLog)
      modifies log
      ensures log.calls == old(log.calls) + CallsOf(BackwardOf, Reverse(topoOrder))
    {
      var ms := topoOrder;
      var revTopo := Reverse(ms);
      var i := 0;
      while i < |revTopo|
        invariant 0 <= i <= |revTopo|
        invariant log.calls == old(log.calls) + CallsOf(BackwardOf, revTopo[..i])
      {
        CallsOfAppend(BackwardOf, revTopo[..i], [revTopo[i]]);
        assert revTopo[..i + 1] == revTopo[..i] + [revTopo[i]];
        log.calls := log.calls + [Backward(revTopo[i])];
        i := i + 1;
      }
      assert revTopo[..i] == revTopo;
    }

    /** `zeroOutputAdj()`: every module once, in order. */
    method DoZeroOutputAdj(log: CallLog)
      modifies log
      ensures log.calls == old(log.calls) + CallsOf(ZeroOutputAdjOf, topoOrder)
    {
      var ms := topoOrder;
      var i := 0;
      while i < |ms|
        invariant 0 <= i <= |ms|
        invariant log.calls == old(log.calls) + CallsOf(ZeroOutputAdjOf, ms[..i])
      {
        CallsOfAppend(ZeroOutputAdjOf, ms[..i], [ms[i]]);
        assert ms[..i + 1] == ms[..i] + [ms[i]];
        log.calls := log.calls + [ZeroOutputAdj(ms[i])];
        i := i + 1;
      }
      assert ms[..i] == ms;
    }

    /** `getInputs()`: all modules in insertion order. */
    method GetInputs() returns (inputs: seq<ModuleId>)
      ensures inputs == topoOrder
    {
      inputs := [];
      var i := 0;
      while i < |topoOrder|
        invariant 0 <= i <= |topoOrder|
        invariant inputs == topoOrder[..i]
      {
        assert topoOrder[..i + 1] == topoOrder[..i] + [topoOrder[i]];
        inputs := inputs + [topoOrder[i]];
        i := i + 1;
      }
      assert topoOrder[..i] == topoOrder;
    }

    /** `getOutput()` and `getOutputAdj()` delegate to the last module. */
    method GetOutput() returns (r: Result<ModuleId>)
      ensures r.Ok? <==> topoOrder != []
      ensures r.Ok? ==> r.value == topoOrder[|topoOrder| - 1]
    {
      r := GetLast();
    }
  }

  /** An order built by adding the modules one by one. */
  method BuildOrder(ms: seq<ModuleId>) returns (t: TopoOrder)
    ensures fresh(t) && t.topoOrder == ms
  {
    t := new TopoOrder();
    var i := 0;
    while i < |ms|
      invariant 0 <= i <= |ms| && t.topoOrder == ms[..i]
    {
      assert ms[..i + 1] == ms[..i] + [ms[i]];
      t.Add(ms[i]);
      i := i + 1;
    }
    assert ms[..i] == ms;
  }

  /** The backward calls over the reversed list, read from the front,
      take the modules from the back. */
  lemma BackwardCalls(ms: seq<ModuleId>)
    ensures var b := CallsOf(BackwardOf, Reverse(ms));
      |b| == |ms| && forall j :: 0 <= j < |ms| ==> b[j] == Backward(ms[|ms| - 1 - j])
  {
    ReverseIndex(ms);
  }

  /** Laying the forward calls before the backward ones. */
  lemma ConcatCalls(ms: seq<ModuleId>, f: seq<Call>, b: seq<Call>, calls: seq<Call>)
    requires |f| == |ms| && |b| == |ms| && calls == f + b
    requires forall i :: 0 <= i < |ms| ==> f[i] == Forward(ms[i])
    requires forall j :: 0 <= j < |ms| ==> b[j] == Backward(ms[|ms| - 1 - j])
    ensures |calls| == 2 * |ms|
    ensures forall i :: 0 <= i < |ms| ==> calls[i] == Forward(ms[i])
    ensures forall i :: |ms| <= i < 2 * |ms| ==> calls[i] == Backward(ms[2 * |ms| - 1 - i])
  {
    forall i | |ms| <= i < 2 * |ms|
      ensures calls[i] == Backward(ms[2 * |ms| - 1 - i])
    {
      var j := i - |ms|;
      assert calls[i] == b[j];
      assert |ms| - 1 - j == 2 * |ms| - 1 - i;
    }
  }

  /** A forward then a backward pass over modules added one by one calls
      each module twice, and the backward calls come in the opposite order. */
  method ForwardBackward(ms: seq<ModuleId>) returns (calls: seq<Call>)
    ensures |calls| == 2 * |ms|
    ensures forall i :: 0 <= i < |ms| ==> calls[i] == Forward(ms[i])
    ensures forall i :: |ms| <= i < 2 * |ms| ==> calls[i] == Backward(ms[2 * |ms| - 1 - i])
  {
    var t := BuildOrder(ms);
    var log := new CallLog();
    var _ := t.DoForward(log);
    t.DoBackward(log);
    calls := log.calls;
    BackwardCalls(ms);
    ConcatCalls(ms, CallsOf(ForwardOf, ms), CallsOf(BackwardOf, Reverse(ms)), calls);
  }
}
