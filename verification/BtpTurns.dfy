/** When an endpoint acknowledges: the order of receptions and acks in a run of the session actor
    (crates/mat-controller/src/btp.rs). */
module BtpTurns {
  import opened Wrappers
  import opened BtpFraming
  import opened BtpSession

  /** Half a window of data has come in since the last ack, one segment at least. */
  predicate HalfWindow(n: Node) { n.s.segsSinceAck >= 1 && n.s.segsSinceAck >= n.params.windowSize / 2 }

  /** A reception that calls for an ack of its own, at once. While a message is incomplete it is half a window of data
      that does; a completed one does only in the middle of sending, since otherwise the answer carries the ack. */
  predicate Calls(m: Node, step: Step)
    requires OutOk(m)
  {
    && step.Receive? && m.closed.None?
    && var q := Next(m, step);
       && q.closed.None? && Enabled(q, SendAck)
       && if |q.delivered| == |m.delivered| then HalfWindow(q) else m.out.Some?
  }

  /** What receiving a frame is followed by. */
  function Turn(m: Node, frame: bytes): seq<Step>
    requires OutOk(m)
  {
    if Calls(m, Receive(frame)) then [Receive(frame), SendAck] else [Receive(frame)]
  }

  /** In the run `steps` from `m`, a separate ack stands behind every reception that calls for one, and nowhere else but
      for at most `ticks` times. A run that is not `whole` was cut off, and the ack of its last reception may be missing. */
  ghost predicate Orderly(m: Node, steps: seq<Step>, ticks: nat, whole: bool)
    requires OutOk(m)
    decreases |steps|
  {
    if steps == [] then true
    else if !Enabled(m, steps[0]) then false
    else
      NextKeepsOutOk(m, steps[0]);
      var m1 := Next(m, steps[0]);
      if Calls(m, steps[0]) then
        if |steps| == 1 then !whole
        else
          NextKeepsOutOk(m1, SendAck);
          steps[1] == SendAck && Orderly(Next(m1, SendAck), steps[2..], ticks, whole)
      else if steps[0] == SendAck then ticks > 0 && Orderly(m1, steps[1..], ticks - 1, whole)
      else Orderly(m1, steps[1..], ticks, whole)
  }

  lemma ExecOne(n: Node, step: Step)
    requires OutOk(n)
    ensures Exec(n, [step]) == if Enabled(n, step) then Some(Next(n, step)) else None
  {
    assert [step][..0] == [];
  }

  /** A run in two parts. */
  lemma {:induction false} ExecTail(n: Node, a: seq<Step>, b: seq<Step>)
    requires OutOk(n) && Exec(n, a).Some?
    ensures Exec(n, a + b) == Exec(Exec(n, a).value, b)
    decreases |b|
  {
    hide Next, Enabled;
    if b == [] {
      assert a + b == a;
    } else {
      var front := b[..|b| - 1];
      ExecTail(n, a, front);
      assert (a + b)[..|a + b| - 1] == a + front;
    }
  }

  lemma {:induction false} OrderlyAppend(m: Node, a: seq<Step>, j: nat, b: seq<Step>, k: nat, whole: bool)
    requires OutOk(m) && Exec(m, a).Some? && Orderly(m, a, j, true)
    requires Orderly(Exec(m, a).value, b, k, whole)
    ensures Orderly(m, a + b, j + k, whole)
    decreases |a|
  {
    hide Next, Enabled, Calls, Exec;
    if a == [] {
      ExecNothing(m);
      assert a + b == b;
      MoreTicks(m, b, k, j + k, whole);
    } else {
      NextKeepsOutOk(m, a[0]);
      var m1 := Next(m, a[0]);
      assert a == [a[0]] + a[1..] && (a + b)[1..] == a[1..] + b;
      ExecOne(m, a[0]);
      ExecTail(m, [a[0]], a[1..]);
      if Calls(m, a[0]) {
        CallEnables(m, a[0]);
        NextKeepsOutOk(m1, SendAck);
        assert a[1..] == [SendAck] + a[2..] && (a + b)[2..] == a[2..] + b;
        ExecOne(m1, SendAck);
        ExecTail(m1, [SendAck], a[2..]);
        OrderlyAppend(Next(m1, SendAck), a[2..], j, b, k, whole);
      } else {
        OrderlyAppend(m1, a[1..], if a[0] == SendAck then j - 1 else j, b, k, whole);
      }
    }
  }

  lemma CallEnables(m: Node, step: Step)
    requires OutOk(m) && Calls(m, step)
    ensures Enabled(m, step) && Enabled(Next(m, step), SendAck)
  {
  }

  lemma ExecNothing(m: Node)
    requires OutOk(m)
    ensures Exec(m, []) == Some(m)
  {
  }

  lemma {:induction false} MoreTicks(m: Node, steps: seq<Step>, j: nat, k: nat, whole: bool)
    requires OutOk(m) && j <= k && Orderly(m, steps, j, whole)
    ensures Orderly(m, steps, k, whole)
    decreases |steps|
  {
    hide Next, Enabled, Calls;
    if steps != [] {
      NextKeepsOutOk(m, steps[0]);
      var m1 := Next(m, steps[0]);
      if Calls(m, steps[0]) {
        CallEnables(m, steps[0]);
        NextKeepsOutOk(m1, SendAck);
        if |steps| > 1 { MoreTicks(Next(m1, SendAck), steps[2..], j, k, whole); }
      } else if steps[0] == SendAck {
        MoreTicks(m1, steps[1..], j - 1, k - 1, whole);
      } else {
        MoreTicks(m1, steps[1..], j, k, whole);
      }
    }
  }

  /** A reception with what follows it. */
  lemma TurnIsOrderly(m: Node, frame: bytes)
    requires OutOk(m) && Enabled(m, Receive(frame))
    ensures Orderly(m, Turn(m, frame), 0, true) && Exec(m, Turn(m, frame)).Some?
    ensures Orderly(m, [Receive(frame)], 0, false)
    ensures !Calls(m, Receive(frame)) ==> Orderly(m, [Receive(frame)], 0, true)
  {
    hide Next, Enabled, Calls;
    var step := Receive(frame);
    NextKeepsOutOk(m, step);
    ExecOne(m, step);
    if Calls(m, step) {
      CallEnables(m, step);
      NextKeepsOutOk(Next(m, step), SendAck);
      ExecOne(Next(m, step), SendAck);
      ExecTail(m, [step], [SendAck]);
      assert [step] + [SendAck] == [step, SendAck];
    }
  }

  /** Steps of its own other than acks, and the ack of a tick. */
  lemma OwnStepIsOrderly(m: Node, step: Step)
    requires OutOk(m) && Enabled(m, step) && !step.Receive?
    ensures Orderly(m, [step], if step.SendAck? then 1 else 0, true)
    ensures Exec(m, [step]) == Some(Next(m, step))
  {
    hide Next, Enabled;
    NextKeepsOutOk(m, step);
    ExecOne(m, step);
  }
}
