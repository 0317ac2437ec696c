/** The message plumbing of `ProjDepTreeFactor`: gathering the TRUE or FALSE
    entry of each incoming link message into a table indexed by
    (parent, child), and scattering a table back into the messages, either
    overwriting (`setMsgs`) or adding (`addMsgs`).  The table is the
    `EdgeScores` of the source (not part of this model, so its layout is the
    one its uses imply: a root row and an n by n child table); message values
    are reals. */
module ProjDepMsgs {
  import opened Wrappers
  import opened Vars
  import ProjDepTree

  /** A message over the variables `vars` with one value per state
      (`VarTensor`). */
  datatype Tensor = Tensor(vars: seq<Var>, values: seq<real>)

  /** `EdgeScores`: the score of each arc from the wall and between tokens. */
  datatype EdgeScores = EdgeScores(root: seq<real>, child: seq<seq<real>>)

  /** `new EdgeScores(n, value)`: every entry is `value`. */
  function NewEdgeScores(n: nat, value: real): (es: EdgeScores)
    ensures |es.root| == n && |es.child| == n
    ensures forall c :: 0 <= c < n ==> es.root[c] == value
    ensures forall p :: 0 <= p < n ==> |es.child[p]| == n && forall c :: 0 <= c < n ==> es.child[p][c] == value
  {
    EdgeScores(seq(n, _ => value), seq(n, _ => seq(n, _ => value)))
  }

  /** The entry (p, c) is inside the table. */
  predicate HasArc(es: EdgeScores, p: int, c: int)
  {
    if p == ProjDepTree.Wall then 0 <= c < |es.root|
    else 0 <= p < |es.child| && 0 <= c < |es.child[p]|
  }

  /** `getScore(p, c)`: an entry outside the table raises
      ArrayIndexOutOfBoundsException. */
  function GetScore(es: EdgeScores, p: int, c: int): (r: Result<real>)
    ensures r.Ok? <==> HasArc(es, p, c)
    ensures r.Throw? ==> r.ex == IndexOutOfBounds
  {
    if !HasArc(es, p, c) then Throw(IndexOutOfBounds)
    else if p == ProjDepTree.Wall then Ok(es.root[c])
    else Ok(es.child[p][c])
  }

  /** `setScore(p, c, v)`. */
  function SetScore(es: EdgeScores, p: int, c: int, v: real): (r: Result<EdgeScores>)
    ensures r.Ok? <==> HasArc(es, p, c)
    ensures r.Throw? ==> r.ex == IndexOutOfBounds
  {
    if !HasArc(es, p, c) then Throw(IndexOutOfBounds)
    else if p == ProjDepTree.Wall then Ok(EdgeScores(es.root[c := v], es.child))
    else Ok(EdgeScores(es.root, es.child[p := es.child[p][c := v]]))
  }

  /** Setting an entry changes that entry and no other, and keeps the shape. */
  lemma SetGetScore(es: EdgeScores, p: int, c: int, v: real, p': int, c': int)
    requires HasArc(es, p, c)
    ensures HasArc(SetScore(es, p, c, v).value, p', c') <==> HasArc(es, p', c')
    ensures GetScore(SetScore(es, p, c, v).value, p', c') ==
      if (p', c') == (p, c) then Ok(v) else GetScore(es, p', c')
  {
  }

  /** `(LinkVar) msg.getVars().get(0)`: the arc of a message's first
      variable; an empty variable list raises IndexOutOfBoundsException and
      a variable that is not a link raises ClassCastException. */
  function ArcOf(m: Tensor): Result<(int, int)>
  {
    if |m.vars| == 0 then Throw(IndexOutOfBounds)
    else if !m.vars[0].cls.LinkVar? then Throw(ClassCast)
    else Ok((m.vars[0].cls.parent, m.vars[0].cls.child))
  }

  /** `getValue(tf)`. */
  function ValueAt(m: Tensor, tf: int): (r: Result<real>)
    ensures r.Ok? <==> 0 <= tf < |m.values|
  {
    if 0 <= tf < |m.values| then Ok(m.values[tf]) else Throw(IndexOutOfBounds)
  }

  /** The loop of `getMsgs` over the messages in order, from the table es. */
  function Gather(ms: seq<Tensor>, es: EdgeScores, tf: int): Result<EdgeScores>
  {
    if ms == [] then Ok(es)
    else
      var acc :- Gather(ms[..|ms| - 1], es, tf);
      var m := ms[|ms| - 1];
      var arc :- ArcOf(m);
      var val :- ValueAt(m, tf);
      SetScore(acc, arc.0, arc.1, val)
  }

  /** `getMsgs(inMsgs, tf)`: the algebra, and so its zero, comes from the
      first message, so an empty array raises
      ArrayIndexOutOfBoundsException. */
  function GetMsgsSpec(n: nat, ms: seq<Tensor>, tf: int, zero: real): Result<EdgeScores>
  {
    if ms == [] then Throw(IndexOutOfBounds)
    else Gather(ms, NewEdgeScores(n, zero), tf)
  }

  /** The messages' state `tf` for the arc (p, c), from the last message on
      that arc, or `dflt` when no message is on it. */
  function LastValue(ms: seq<Tensor>, p: int, c: int, tf: int, dflt: real): real
    requires forall i :: 0 <= i < |ms| ==> 0 <= tf < |ms[i].values|
  {
    if ms == [] then dflt
    else
      var m := ms[|ms| - 1];
      if ArcOf(m) == Ok((p, c)) then m.values[tf]
      else LastValue(ms[..|ms| - 1], p, c, tf, dflt)
  }

  /** Every message names an arc inside the table and has a state tf. */
  predicate Gatherable(ms: seq<Tensor>, es: EdgeScores, tf: int)
  {
    forall i :: 0 <= i < |ms| ==>
      ArcOf(ms[i]).Ok? && HasArc(es, ArcOf(ms[i]).value.0, ArcOf(ms[i]).value.1) && 0 <= tf < |ms[i].values|
  }

  /** When each message is gatherable the loop succeeds, keeps the table's
      shape, and leaves in each entry the value of the last message on that
      arc, or the starting entry if none. */
  lemma {:induction false} GatherValues(ms: seq<Tensor>, es: EdgeScores, tf: int)
    requires Gatherable(ms, es, tf)
    ensures Gather(ms, es, tf).Ok?
    ensures forall p, c :: HasArc(Gather(ms, es, tf).value, p, c) <==> HasArc(es, p, c)
    ensures forall p, c :: HasArc(es, p, c) ==>
      GetScore(Gather(ms, es, tf).value, p, c) == Ok(LastValue(ms, p, c, tf, GetScore(es, p, c).value))
  {
    if ms != [] {
      var pre := ms[..|ms| - 1];
      assert forall i :: 0 <= i < |pre| ==> pre[i] == ms[i];
      GatherValues(pre, es, tf);
      var acc := Gather(pre, es, tf).value;
      var m := ms[|ms| - 1];
      var arc := ArcOf(m).value;
      forall p, c ensures HasArc(Gather(ms, es, tf).value, p, c) <==> HasArc(es, p, c) {
        SetGetScore(acc, arc.0, arc.1, m.values[tf], p, c);
      }
      forall p, c | HasArc(es, p, c)
        ensures GetScore(Gather(ms, es, tf).value, p, c) == Ok(LastValue(ms, p, c, tf, GetScore(es, p, c).value))
      {
        SetGetScore(acc, arc.0, arc.1, m.values[tf], p, c);
      }
    }
  }

  /** `getMsgs`: the loop of the source over the incoming messages. */
  method GetMsgs(n: nat, inMsgs: array<Tensor>, tf: int, zero: real) returns (r: Result<EdgeScores>)
    ensures r == GetMsgsSpec(n, inMsgs[..], tf, zero)
  {
    if inMsgs.Length == 0 {
      return Throw(IndexOutOfBounds);
    }
    var es := NewEdgeScores(n, zero);
    var i := 0;
    while i < inMsgs.Length
      invariant 0 <= i <= inMsgs.Length
      invariant Gather(inMsgs[..i], NewEdgeScores(n, zero), tf) == Ok(es)
    {
      var m := inMsgs[i];
      PrefixSnoc(inMsgs[..], i);
      assert inMsgs[..i + 1][..i] == inMsgs[..i];
      var arc := ArcOf(m);
      if arc.Throw? {
        GatherAbsorbs(inMsgs[..], NewEdgeScores(n, zero), tf, i + 1);
        return Throw(arc.ex);
      }
      var val := ValueAt(m, tf);
      if val.Throw? {
        GatherAbsorbs(inMsgs[..], NewEdgeScores(n, zero), tf, i + 1);
        return Throw(val.ex);
      }
      var next := SetScore(es, arc.value.0, arc.value.1, val.value);
      if next.Throw? {
        GatherAbsorbs(inMsgs[..], NewEdgeScores(n, zero), tf, i + 1);
        return Throw(next.ex);
      }
      es := next.value;
      i := i + 1;
    }
    assert inMsgs[..i] == inMsgs[..];
    r := Ok(es);
  }

  /** A failure stops the loop: later messages do not change the outcome. */
  lemma {:induction false} GatherAbsorbs(ms: seq<Tensor>, es: EdgeScores, tf: int, k: nat)
    requires k <= |ms| && Gather(ms[..k], es, tf).Throw?
    ensures Gather(ms, es, tf) == Gather(ms[..k], es, tf)
    decreases |ms| - k
  {
    if k < |ms| {
      PrefixSnoc(ms, k);
      assert ms[..k + 1][..k] == ms[..k];
      GatherAbsorbs(ms, es, tf, k + 1);
    } else {
      assert ms[..k] == ms;
    }
  }

  /* ---------------- Scattering ---------------- */

  /** `msg.setValue(tf, v)` (add = false) or `msg.addValue(tf, v)`
      (add = true). */
  function UpdateValue(m: Tensor, tf: int, v: real, add: bool): (r: Result<Tensor>)
    ensures r.Ok? <==> 0 <= tf < |m.values|
    ensures r.Ok? ==> r.value.vars == m.vars && |r.value.values| == |m.values|
  {
    if 0 <= tf < |m.values| then
      Ok(Tensor(m.vars, m.values[tf := if add then m.values[tf] + v else v]))
    else Throw(IndexOutOfBounds)
  }

  /** One iteration of `setMsgs` / `addMsgs` on one message. */
  function ScatterOne(m: Tensor, es: EdgeScores, tf: int, add: bool): Result<Tensor>
  {
    var arc :- ArcOf(m);
    var val :- GetScore(es, arc.0, arc.1);
    UpdateValue(m, tf, val, add)
  }

  /** The messages after the loop, and how it ended: the messages before
      the first failure are updated, that one and the later ones are not. */
  function Scatter(ms: seq<Tensor>, es: EdgeScores, tf: int, add: bool): (r: (seq<Tensor>, Outcome))
    ensures |r.0| == |ms|
  {
    if ms == [] then ([], Done)
    else
      var (out, o) := Scatter(ms[..|ms| - 1], es, tf, add);
      var m := ms[|ms| - 1];
      if o.Fail? then (out + [m], o)
      else
        match ScatterOne(m, es, tf, add)
        case Ok(m') => (out + [m'], Done)
        case Throw(ex) => (out + [m], Fail(ex))
  }

  /** `setMsgs(msgs, t, tf)` / `addMsgs(msgs, t, tf)`: the loop of the
      source, replacing each message in the array by its updated value. */
  method ScatterMsgs(msgs: array<Tensor>, es: EdgeScores, tf: int, add: bool) returns (o: Outcome)
    modifies msgs
    ensures (msgs[..], o) == Scatter(old(msgs[..]), es, tf, add)
  {
    ghost var ms := msgs[..];
    var i := 0;
    assert ms[..0] == [];
    while i < msgs.Length
      invariant 0 <= i <= msgs.Length
      invariant msgs[i..] == ms[i..]
      invariant (msgs[..i], Done) == Scatter(ms[..i], es, tf, add)
    {
      var m := msgs[i];
      assert m == ms[i];
      PrefixSnoc(ms, i);
      assert ms[..i + 1][..i] == ms[..i];
      var next := ScatterOne(m, es, tf, add);
      if next.Throw? {
        ScatterAbsorbs(ms, es, tf, add, i + 1, msgs[..i] + ms[i..]);
        assert msgs[..] == msgs[..i] + ms[i..];
        return Fail(next.ex);
      }
      msgs[i] := next.value;
      assert msgs[..i + 1] == msgs[..i] + [next.value];
      i := i + 1;
    }
    assert msgs[..i] == msgs[..] && ms[..i] == ms;
    o := Done;
  }

  /** A failure at message k - 1 leaves the messages from k - 1 on as they
      were. */
  lemma {:induction false} ScatterAbsorbs(ms: seq<Tensor>, es: EdgeScores, tf: int, add: bool, k: nat, whole: seq<Tensor>)
    requires 0 < k <= |ms| && Scatter(ms[..k], es, tf, add).1.Fail?
    requires whole == Scatter(ms[..k - 1], es, tf, add).0 + ms[k - 1..]
    requires Scatter(ms[..k], es, tf, add).0 == Scatter(ms[..k - 1], es, tf, add).0 + [ms[k - 1]]
    ensures Scatter(ms, es, tf, add) == (whole, Scatter(ms[..k], es, tf, add).1)
    decreases |ms| - k
  {
    if k < |ms| {
      PrefixSnoc(ms, k);
      assert ms[..k + 1][..k] == ms[..k];
      assert ms[k - 1..] == [ms[k - 1]] + ms[k..];
      assert ms[k..] == [ms[k]] + ms[k + 1..];
      var wk := Scatter(ms[..k], es, tf, add).0;
      assert Scatter(ms[..k + 1], es, tf, add).0 == wk + [ms[k]];
      ScatterAbsorbs(ms, es, tf, add, k + 1, whole);
    } else {
      assert ms[..k] == ms;
      assert ms[k - 1..] == [ms[k - 1]];
    }
  }
  /** When every message can be updated the loop finishes, and each message
      is its own update: its state tf set to (or increased by) the table's
      entry for its arc, every other state and its variables unchanged. */
  lemma {:induction false} ScatterValues(ms: seq<Tensor>, es: EdgeScores, tf: int, add: bool)
    requires forall i :: 0 <= i < |ms| ==> ScatterOne(ms[i], es, tf, add).Ok?
    ensures Scatter(ms, es, tf, add).1 == Done
    ensures forall i :: 0 <= i < |ms| ==> Scatter(ms, es, tf, add).0[i] == ScatterOne(ms[i], es, tf, add).value
  {
    if ms != [] {
      var pre := ms[..|ms| - 1];
      assert forall i :: 0 <= i < |pre| ==> pre[i] == ms[i];
      ScatterValues(pre, es, tf, add);
    }
  }

  /** What one update does to the message. */
  lemma ScatterOneValue(m: Tensor, es: EdgeScores, tf: int, add: bool)
    requires ScatterOne(m, es, tf, add).Ok?
    ensures ArcOf(m).Ok? && 0 <= tf < |m.values|
    ensures HasArc(es, ArcOf(m).value.0, ArcOf(m).value.1)
    ensures var v := GetScore(es, ArcOf(m).value.0, ArcOf(m).value.1).value;
      ScatterOne(m, es, tf, add).value == Tensor(m.vars, m.values[tf := if add then m.values[tf] + v else v])
  {
  }

  /** No two messages are on the same arc. */
  predicate DistinctArcs(ms: seq<Tensor>)
  {
    forall i, j :: 0 <= i < j < |ms| ==> ArcOf(ms[i]) != ArcOf(ms[j])
  }

  /** With distinct arcs, the last message on a message's arc is that
      message. */
  lemma {:induction false} LastValueOwn(ms: seq<Tensor>, i: nat, tf: int, dflt: real)
    requires i < |ms| && DistinctArcs(ms) && ArcOf(ms[i]).Ok?
    requires forall j :: 0 <= j < |ms| ==> 0 <= tf < |ms[j].values|
    ensures LastValue(ms, ArcOf(ms[i]).value.0, ArcOf(ms[i]).value.1, tf, dflt) == ms[i].values[tf]
  {
    if i < |ms| - 1 {
      var pre := ms[..|ms| - 1];
      assert forall j :: 0 <= j < |pre| ==> pre[j] == ms[j];
      assert ArcOf(ms[i]) != ArcOf(ms[|ms| - 1]);
      LastValueOwn(pre, i, tf, dflt);
    }
  }

  /** setMsgs is the inverse of getMsgs: writing back the table read from
      messages on distinct arcs leaves every message as it was. */
  lemma SetOfGetMsgs(n: nat, ms: seq<Tensor>, tf: int, zero: real)
    requires ms != [] && Gatherable(ms, NewEdgeScores(n, zero), tf) && DistinctArcs(ms)
    ensures GetMsgsSpec(n, ms, tf, zero).Ok?
    ensures Scatter(ms, GetMsgsSpec(n, ms, tf, zero).value, tf, false) == (ms, Done)
  {
    var es0 := NewEdgeScores(n, zero);
    GatherValues(ms, es0, tf);
    var es := Gather(ms, es0, tf).value;
    forall i | 0 <= i < |ms|
      ensures ScatterOne(ms[i], es, tf, false) == Ok(ms[i])
    {
      var arc := ArcOf(ms[i]).value;
      LastValueOwn(ms, i, tf, GetScore(es0, arc.0, arc.1).value);
      assert GetScore(es, arc.0, arc.1) == Ok(ms[i].values[tf]);
      assert ms[i].values[tf := ms[i].values[tf]] == ms[i].values;
    }
    ScatterValues(ms, es, tf, false);
    assert GetMsgsSpec(n, ms, tf, zero).value == es;
    assert Scatter(ms, es, tf, false).0 == ms;
  }
}
