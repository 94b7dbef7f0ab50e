/**
  Who owns a lane slot, with `unregister` split at its two lock scopes and any other
  operation in between, and what the sockets on each lane carry.
*/
module RelayOwnership {

  import opened Prelude
  import opened RelayLine
  import opened RelayConservation

  /** The only operations that take the registration `id` off `lane`. */
  predicate Ends(l: Line, op: Op, lane: Lane, id: nat) {
    || op == OpUnregisterClear(lane, id)
    || (op.OpRegister? && op.lane == lane)
    || op.OpDropPubkey?
    || (op.OpReapClosed? && l.Conns().Slot(lane).Some? && !l.Conns().Slot(lane).value.tx.open)
  }

  /** The slots' owners: everything but the state of their channels. */
  function Owners(l: Line): (Option<nat>, Option<nat>) {
    (Owner(l.Conns().hi), Owner(l.Conns().lo))
  }

  function Owner(c: Option<LaneConn>): Option<nat> {
    if c.Some? then Some(c.value.id) else None
  }

  lemma {:induction false} FlushKeepsOwners(l: Line, held: seq<SpooledFrame>, now: Time)
    ensures Owners(Flush(l, held, now)) == Owners(l)
    ensures Flush(l, held, now).newest == l.newest
    decreases |held|
  {
    if held != [] {
      FlushKeepsOwners(FlushOne(l, held[0], now), held[1..], now);
    }
  }

  /** Exactly the operations in `Ends` end a registration. */
  lemma {:induction false} StepEndsExactly(l: Line, op: Op, lane: Lane, id: nat)
    requires Enabled(l, op) && l.Holds(lane, id) && id <= l.newest
    ensures Step(l, op).Holds(lane, id) <==> !Ends(l, op, lane, id)
  {
    if op.OpRegister? {
      FlushKeepsOwners(Install(l, op.lane, op.id, Channel(op.cap, [], op.open)), l.spool, op.now);
    }
  }

  lemma {:induction false} StepKeepsNewest(l: Line, op: Op)
    requires Enabled(l, op)
    ensures l.newest <= Step(l, op).newest
  {
    if op.OpRegister? {
      FlushKeepsOwners(Install(l, op.lane, op.id, Channel(op.cap, [], op.open)), l.spool, op.now);
    }
  }

  /**
    Over any run, a registration disappears only at a step of `Ends`: the end of its own
    socket, a newer registration on its lane, the peer leaving, or a reap after its receiver
    closed. `k` is that step and `mid` the state before it.
  */
  lemma {:induction false} RegistrationEndsOnlyFor(l: Line, ops: seq<Op>, l': Line, lane: Lane, id: nat)
    returns (k: nat, mid: Line)
    requires Reaches(l, ops, l') && l.Holds(lane, id) && id <= l.newest
    requires !l'.Holds(lane, id)
    ensures k < |ops| && Reaches(l, ops[..k], mid)
    ensures mid.Holds(lane, id) && Ends(mid, ops[k], lane, id)
    decreases |ops|
  {
    StepEndsExactly(l, ops[0], lane, id);
    StepKeepsNewest(l, ops[0]);
    if Ends(l, ops[0], lane, id) {
      k, mid := 0, l;
    } else {
      var i;
      i, mid := RegistrationEndsOnlyFor(Step(l, ops[0]), ops[1..], l', lane, id);
      k := i + 1;
      assert ops[..k][1..] == ops[1..][..i];
    }
  }

  /** Ids are never reused: a registration that is gone stays gone. */
  lemma {:induction false} EndedForGood(l: Line, ops: seq<Op>, l': Line, lane: Lane, id: nat)
    requires Reaches(l, ops, l') && !l.Holds(lane, id) && id <= l.newest
    ensures !l'.Holds(lane, id)
    decreases |ops|
  {
    if ops != [] {
      StepKeepsNewest(l, ops[0]);
      if ops[0].OpRegister? {
        var op := ops[0];
        FlushKeepsOwners(Install(l, op.lane, op.id, Channel(op.cap, [], op.open)), l.spool, op.now);
      }
      EndedForGood(Step(l, ops[0]), ops[1..], l', lane, id);
    }
  }

  /** Whenever no unregister is half done, the pubkey has no empty entry. */
  lemma {:induction false} NoEmptyEntry(ops: seq<Op>, l: Line)
    requires Reaches(FRESH, ops, l) && l.halfDone == 0
    ensures l.entry.Some? ==> !l.entry.value.IsEmpty()
  {
    RunSound(FRESH, ops, l);
  }

  /**
    In every reachable state a hi socket holds handshake frames only, and each socket's queue
    is the unreceived end of exactly what was handed to it, in order.
  */
  lemma {:induction false} LanesStayPure(ops: seq<Op>, l: Line)
    requires Reaches(FRESH, ops, l)
    ensures HiPure(l)
    ensures forall lane | l.Conns().Slot(lane).Some? ::
              var c := l.Conns().Slot(lane).value;
              IsSuffix(c.tx.queue, HandedTo(l.fates, c.id)) && |c.tx.queue| <= c.tx.cap
  {
    RunSound(FRESH, ops, l);
    assert forall lane :: l.Conns().Slot(lane) == l.Conns().hi || l.Conns().Slot(lane) == l.Conns().lo;
  }

  /** The fates from position `from` on put a handshake frame on lo only if hi is absent. */
  ghost predicate FallbackOnly(l: Line, from: nat) {
    forall i :: from <= i < |l.fates| && l.fates[i].Handed? && l.fates[i].lane.Lo? && l.fates[i].frame.hiPrio
                ==> l.Conns().hi.None?
  }

  lemma {:induction false} FlushFallbackOnly(l: Line, held: seq<SpooledFrame>, now: Time, from: nat)
    requires FallbackOnly(l, from)
    ensures FallbackOnly(Flush(l, held, now), from)
    decreases |held|
  {
    if held != [] {
      FlushFallbackOnly(FlushOne(l, held[0], now), held[1..], now, from);
    }
  }

  /** A handshake frame enters a lo channel only when the hi slot is empty at that moment. */
  lemma {:induction false} HandshakeFallsBackOnlyWithoutHi(l: Line, op: Op)
    requires Enabled(l, op)
    ensures FallbackOnly(Step(l, op), |l.fates|)
  {
    if op.OpRegister? {
      var tx := Channel(op.cap, [], op.open);
      FlushFallbackOnly(Install(l, op.lane, op.id, tx), l.spool, op.now, |l.fates|);
    }
  }

  /** Holding keeps the newest frames: what remains is the end of the old spool and the new frame. */
  lemma HoldKeepsNewest(l: Line, f: Frame, now: Time)
    requires |l.spool| <= SPOOL_CAP
    ensures var held, all := Hold(l, f, now).spool, l.spool + [SpooledFrame(now, f)];
            IsSuffix(held, all) && |held| == if |all| <= SPOOL_CAP then |all| else SPOOL_CAP
  {
  }

  predicate NoEviction(fates: seq<Fate>, from: nat) {
    forall i :: from <= i < |fates| ==> !(fates[i].Dropped? && fates[i].why == Evicted)
  }

  lemma {:induction false} FlushEvictsNothing(l: Line, held: seq<SpooledFrame>, now: Time, from: nat)
    requires |l.spool| + |held| <= SPOOL_CAP && NoEviction(l.fates, from)
    ensures NoEviction(Flush(l, held, now).fates, from)
    decreases |held|
  {
    if held != [] {
      var l' := FlushOne(l, held[0], now);
      assert l'.fates == l.fates || l'.fates == l.fates + [l'.fates[|l.fates|]];
      FlushEvictsNothing(l', held[1..], now, from);
    }
  }

  /** The lane's socket is open and has room for `n` more frames. */
  predicate Ready(l: Line, lane: Lane, id: nat, n: nat) {
    && l.Holds(lane, id)
    && var tx := l.Conns().Slot(lane).value.tx; tx.open && |tx.queue| + n <= tx.cap
  }

  lemma {:induction false} FlushDelivers(l: Line, held: seq<SpooledFrame>, now: Time, lane: Lane, id: nat, k: nat)
    requires Ready(l, lane, id, |held|)
    requires k < |held| && !Stale(held[k], now) && l.Conns().Pick(held[k].frame.hiPrio) == Some(lane)
    ensures Handed(lane, id, held[k].frame) in Flush(l, held, now).fates
    decreases |held|
  {
    var l' := FlushOne(l, held[0], now);
    assert Owners(l') == Owners(l);
    if k == 0 {
      FlushExtends(l', held[1..], now);
      assert l'.fates[|l.fates|] == Handed(lane, id, held[k].frame);
    } else {
      FlushDelivers(l', held[1..], now, lane, id, k - 1);
    }
  }

  lemma {:induction false} FlushExtends(l: Line, held: seq<SpooledFrame>, now: Time)
    ensures l.fates <= Flush(l, held, now).fates
    decreases |held|
  {
    if held != [] {
      FlushExtends(FlushOne(l, held[0], now), held[1..], now);
    }
  }

  /**
    What the spool is for: when a live socket with room for the spool registers, every frame
    held for it and still young is handed to it, and nothing is evicted while doing so.
  */
  lemma {:induction false} RegisterDeliversHeldFrames(ops: seq<Op>, l: Line, op: Op)
    requires Reaches(FRESH, ops, l)
    requires op.OpRegister? && Enabled(l, op) && op.open && op.cap >= SPOOL_CAP
    ensures NoEviction(Step(l, op).fates, |l.fates|)
    ensures forall sf :: sf in l.spool && !Stale(sf, op.now)
                         && Step(l, op).Conns().Pick(sf.frame.hiPrio) == Some(op.lane)
                         ==> Handed(op.lane, op.id, sf.frame) in Step(l, op).fates
  {
    hide Flush, HandedTo, HandedOf, HeldOf, Reaches;
    SpoolBounded(ops, l);
    var l1 := Install(l, op.lane, op.id, Channel(op.cap, [], true));
    FlushEvictsNothing(l1, l.spool, op.now, |l.fates|);
    FlushKeepsOwners(l1, l.spool, op.now);
    forall sf | sf in l.spool && !Stale(sf, op.now) && Step(l, op).Conns().Pick(sf.frame.hiPrio) == Some(op.lane)
      ensures Handed(op.lane, op.id, sf.frame) in Step(l, op).fates
    {
      var k :| 0 <= k < |l.spool| && l.spool[k] == sf;
      FlushDelivers(l1, l.spool, op.now, op.lane, op.id, k);
    }
  }

  lemma SpoolBounded(ops: seq<Op>, l: Line)
    requires Reaches(FRESH, ops, l)
    ensures |l.spool| <= SPOOL_CAP
  {
    RunSound(FRESH, ops, l);
  }
}
