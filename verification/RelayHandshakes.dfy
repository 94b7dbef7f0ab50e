/**
  When handshake frames keep their order. Bulk frames always do; a handshake frame can be
  overtaken, and this says exactly by which step.
*/
module RelayHandshakes {

  import opened Prelude
  import opened RelayLine
  import opened RelayConservation

  /** The handshake frames handed over, then those held, are in arrival order. */
  ghost predicate InOrder(l: Line, rest: seq<SpooledFrame>) {
    Climbs(Trace(l, rest, true), |l.submitted|)
  }

  predicate HoldsHandshake(l: Line) {
    exists i :: 0 <= i < |l.spool| && l.spool[i].frame.hiPrio
  }

  /** The socket a handshake frame would ride is open. */
  predicate HandshakePathOpen(l: Line) {
    var lane := l.Conns().Pick(true);
    lane.Some? && l.Conns().Slot(lane.value).value.tx.open
  }

  /** The channel a handshake frame would ride takes it at once. */
  predicate TakesHandshake(l: Line) {
    HandshakePathOpen(l) && !l.Conns().Slot(l.Conns().Pick(true).value).value.tx.Full()
  }

  /** A handshake frame is handed over past one that is still held. */
  predicate Overtakes(l: Line, op: Op) {
    op.OpForward? && op.hiPrio && TakesHandshake(l) && HoldsHandshake(l)
  }

  lemma {:induction false} HoldsExactly(q: seq<SpooledFrame>)
    ensures HeldOf(q, true) != [] <==> exists i :: 0 <= i < |q| && q[i].frame.hiPrio
    decreases |q|
  {
    if q != [] {
      HoldsExactly(q[1..]);
      if HeldOf(q[1..], true) != [] {
        var i :| 0 <= i < |q[1..]| && q[1..][i].frame.hiPrio;
        assert q[i + 1].frame.hiPrio;
      }
      if i :| 1 <= i < |q| && q[i].frame.hiPrio {
        assert q[1..][i - 1].frame.hiPrio;
      }
    }
  }

  lemma RouteInOrder(l: Line, h: SpooledFrame, rest: seq<SpooledFrame>, now: Time)
    requires InOrder(l, [h] + rest)
    requires h.frame.hiPrio && TakesHandshake(l) ==> HeldOf(l.spool, true) == []
    ensures InOrder(Route(l, h.frame, now), rest)
  {
    hide Climbs, HandedOf, HeldOf;
    var lane := l.Conns().Pick(h.frame.hiPrio);
    if lane.None? || !l.Conns().Slot(lane.value).value.tx.open {
      HoldClimbs(l, h, rest, now, true);
    } else if l.Conns().Slot(lane.value).value.tx.Full() {
      DropClimbs(l, h, rest, ChannelFull, true);
    } else {
      var fate := Handed(lane.value, l.Conns().Slot(lane.value).value.id, h.frame);
      HandClimbs(l, Route(l, h.frame, now), h, rest, fate, true);
    }
  }

  lemma RouteKeepsPath(l: Line, h: SpooledFrame, now: Time)
    requires HandshakePathOpen(l) ==> HeldOf(l.spool, true) == []
    ensures var l' := Route(l, h.frame, now);
            HandshakePathOpen(l') ==> HeldOf(l'.spool, true) == []
  {
    hide HeldOf;
    if |l.spool| >= SPOOL_CAP {
      HeldAppended(l.spool[1..], h.frame, now, true);
      HeldRest(l.spool);
    } else {
      HeldAppended(l.spool, h.frame, now, true);
    }
  }

  lemma HeldRest(q: seq<SpooledFrame>)
    requires q != []
    ensures HeldOf(q, true) == [] ==> HeldOf(q[1..], true) == []
  {
  }

  /** A flush routes the held frames oldest first and so keeps their order. */
  lemma {:induction false} FlushInOrder(l: Line, held: seq<SpooledFrame>, now: Time)
    requires InOrder(l, held) && (HandshakePathOpen(l) ==> HeldOf(l.spool, true) == [])
    ensures InOrder(Flush(l, held, now), [])
    decreases |held|
  {
    hide HandshakePathOpen, InOrder, Route;
    if held != [] {
      var h, rest := held[0], held[1..];
      assert held == [h] + rest;
      FlushOneInOrder(l, h, rest, now);
      FlushInOrder(FlushOne(l, h, now), rest, now);
    }
  }

  lemma FlushOneInOrder(l: Line, h: SpooledFrame, rest: seq<SpooledFrame>, now: Time)
    requires InOrder(l, [h] + rest) && (HandshakePathOpen(l) ==> HeldOf(l.spool, true) == [])
    ensures var l' := FlushOne(l, h, now);
            InOrder(l', rest) && (HandshakePathOpen(l') ==> HeldOf(l'.spool, true) == [])
  {
    hide Climbs, Trace, HeldOf, Route;
    if Stale(h, now) {
      DropClimbs(l, h, rest, Expired, true);
    } else {
      RouteInOrder(l, h, rest, now);
      RouteKeepsPath(l, h, now);
    }
  }

  lemma RegisterInOrder(l: Line, lane: Lane, id: nat, tx: Channel, now: Time)
    requires InOrder(l, [])
    ensures InOrder(Register(l, lane, id, tx, now), [])
  {
    var l1 := Install(l, lane, id, tx);
    assert Trace(l1, l.spool, true) == Trace(l, [], true);
    FlushInOrder(l1, l.spool, now);
  }

  lemma ClimbsMore(s: seq<nat>, n: nat)
    requires Climbs(s, n)
    ensures Climbs(s, n + 1) && Climbs(s + [n], n + 1)
  {
  }

  lemma OvertakenDoesNotClimb(a: seq<nat>, b: seq<nat>, n: nat, bound: nat)
    requires b != [] && Climbs(a + b, n)
    ensures !Climbs(a + [n] + b, bound)
  {
    var s := a + [n] + b;
    assert s[|a|] == n && s[|a| + 1] == b[0] == (a + b)[|a|];
  }

  /** A handshake frame given to `forward` keeps the order if and only if it overtakes none. */
  lemma ForwardInOrderExactly(l: Line, bytes: Bytes, hiPrio: bool, now: Time)
    requires InOrder(l, [])
    ensures InOrder(Forward(l, bytes, hiPrio, now), []) <==> !Overtakes(l, OpForward(bytes, hiPrio, now))
  {
    hide Climbs, HandedOf, HeldOf;
    var n := |l.submitted|;
    var f := Frame(n, hiPrio, bytes);
    var l1, h := l.(submitted := l.submitted + [f]), SpooledFrame(now, f);
    TraceSplit(l1, h, [], true);
    NothingHeld();
    assert Trace(l, [], true) == HandedOf(l.fates, true) + HeldOf(l.spool, true);
    assert Trace(l1, [h] + [], true) == Trace(l, [], true) + Stamp(f, true);
    ClimbsMore(Trace(l, [], true), n);
    HoldsExactly(l.spool);
    if Overtakes(l, OpForward(bytes, hiPrio, now)) {
      var lane := l.Conns().Pick(true).value;
      FateAppended(l.fates, Handed(lane, l.Conns().Slot(lane).value.id, f), 0, true);
      OvertakenDoesNotClimb(HandedOf(l.fates, true), HeldOf(l.spool, true), n, n + 1);
      var l' := Forward(l, bytes, hiPrio, now);
      assert Trace(l', [], true) == HandedOf(l.fates, true) + [n] + HeldOf(l.spool, true);
    } else {
      assert Trace(l, [], true) + [] == Trace(l, [], true);
      RouteInOrder(l1, h, [], now);
    }
  }

  lemma NothingHeld()
    ensures HeldOf([], true) == []
  {
  }

  /** Over all operations: a step keeps the handshake frames in order if and only if it does not overtake. */
  lemma StepInOrderExactly(l: Line, op: Op)
    requires Enabled(l, op) && InOrder(l, [])
    ensures InOrder(Step(l, op), []) <==> !Overtakes(l, op)
  {
    hide Climbs, HeldOf, HandedOf, Forward, Register, ReapExpired, DropPubkey;
    match op
    case OpRegister(lane, id, cap, open, now) => RegisterInOrder(l, lane, id, Channel(cap, [], open), now);
    case OpForward(bytes, hiPrio, now) => ForwardInOrderExactly(l, bytes, hiPrio, now);
    case OpDropPubkey =>
      DropPubkeyClimbs(l, true);
      SubmittedKept(l, 0);
    case OpReapExpired(now) =>
      ReapExpiredClimbs(l, now, true);
      SubmittedKept(l, now);
    case _ => assert Trace(Step(l, op), [], true) == Trace(l, [], true);
  }

  lemma SubmittedKept(l: Line, now: Time)
    ensures DropPubkey(l).submitted == l.submitted && ReapExpired(l, now).submitted == l.submitted
  {
  }

  // ---------------------------------------------------------------- runs

  ghost predicate AlwaysInOrder(l: Line, ops: seq<Op>)
    requires Runs(l, ops)
    decreases |ops|
  {
    InOrder(l, []) && (ops == [] || AlwaysInOrder(Step(l, ops[0]), ops[1..]))
  }

  predicate NeverOvertakes(l: Line, ops: seq<Op>)
    requires Runs(l, ops)
    decreases |ops|
  {
    ops == [] || (!Overtakes(l, ops[0]) && NeverOvertakes(Step(l, ops[0]), ops[1..]))
  }

  /** Each operation is enabled when its turn comes. */
  predicate Runs(l: Line, ops: seq<Op>)
    decreases |ops|
  {
    ops == [] || (Enabled(l, ops[0]) && Runs(Step(l, ops[0]), ops[1..]))
  }

  /**
    Over whole runs: the handshake frames handed over, followed by those held, are in arrival
    order in every state of a run if and only if no step of it overtakes.
  */
  lemma {:induction false} HandshakesInOrderExactly(l: Line, ops: seq<Op>)
    requires Runs(l, ops) && InOrder(l, [])
    ensures AlwaysInOrder(l, ops) <==> NeverOvertakes(l, ops)
    decreases |ops|
  {
    hide InOrder, Overtakes, Step;
    if ops != [] {
      StepInOrderExactly(l, ops[0]);
      if !Overtakes(l, ops[0]) {
        HandshakesInOrderExactly(Step(l, ops[0]), ops[1..]);
      }
    }
  }
}
