/** What the relay registry does not promise: two reachable runs that show its limits. */
module RelayLimits {

  import opened Prelude
  import opened RelayLine

  lemma Before(l: Line, op: Op, next: Line, ops: seq<Op>, last: Line)
    requires Enabled(l, op) && Step(l, op) == next && Reaches(next, ops, last)
    ensures Reaches(l, [op] + ops, last)
  {
    assert ([op] + ops)[1..] == ops;
  }

  function Open(queue: seq<Frame>): Channel { Channel(16, queue, true) }

  function Sock(id: nat, tx: Channel): Option<LaneConn> { Some(LaneConn(id, tx)) }

  lemma First<T>(x: T)
    ensures [] + [x] == [x]
  {
  }

  lemma FlushSingle(l: Line, sf: SpooledFrame, now: Time)
    ensures Flush(l, [sf], now) == FlushOne(l, sf, now)
  {
    assert [sf][1..] == [];
  }

  /**
    Handshake frames can be reordered: one held while the hi socket is closed is overtaken,
    once that socket is unregistered, by a newer one falling back to lo.
  */
  lemma HandshakesCanBeReordered(a: Bytes, b: Bytes) returns (ops: seq<Op>, l: Line)
    ensures Reaches(FRESH, ops, l)
    ensures l.submitted == [Frame(0, true, a), Frame(1, true, b)]
    ensures l.fates == [Handed(Lo, 1, Frame(1, true, b)), Handed(Hi, 2, Frame(0, true, a))]
  {
    var fa, fb := Frame(0, true, a), Frame(1, true, b);
    var held := SpooledFrame(0, fa);
    var shut := Channel(16, [], false);
    var l1 := Line(Some(PeerConns(Sock(0, Open([])), None)), [], 0, 0, [], []);
    var l2 := Line(Some(PeerConns(Sock(0, Open([])), Sock(1, Open([])))), [], 1, 0, [], []);
    var l3 := l2.(entry := Some(PeerConns(Sock(0, shut), Sock(1, Open([])))));
    var l4 := l3.(spool := [held], submitted := [fa]);
    var l5 := l4.(entry := Some(PeerConns(None, Sock(1, Open([])))));
    var l6 := l5.(entry := Some(PeerConns(None, Sock(1, Open([fb])))), submitted := [fa, fb], fates := [Handed(Lo, 1, fb)]);
    l := Line(Some(PeerConns(Sock(2, Open([fa])), Sock(1, Open([fb])))), [], 2, 0, [fa, fb],
              [Handed(Lo, 1, fb), Handed(Hi, 2, fa)]);
    First(fa);
    First(fb);
    First(Handed(Lo, 1, fb));
    assert [fa] + [fb] == [fa, fb] && [Handed(Lo, 1, fb)] + [Handed(Hi, 2, fa)] == l.fates;
    FlushSingle(Install(l6, Hi, 2, Open([])), held, 0);
    ops := [];
    Before(l6, OpRegister(Hi, 2, 16, true, 0), l, ops, l);
    ops := [OpRegister(Hi, 2, 16, true, 0)] + ops;
    Before(l5, OpForward(b, true, 0), l6, ops, l);
    ops := [OpForward(b, true, 0)] + ops;
    Before(l4, OpUnregisterClear(Hi, 0), l5, ops, l);
    ops := [OpUnregisterClear(Hi, 0)] + ops;
    Before(l3, OpForward(a, true, 0), l4, ops, l);
    ops := [OpForward(a, true, 0)] + ops;
    Before(l2, OpCloseReceiver(Hi), l3, ops, l);
    ops := [OpCloseReceiver(Hi)] + ops;
    Before(l1, OpRegister(Lo, 1, 16, true, 0), l2, ops, l);
    ops := [OpRegister(Lo, 1, 16, true, 0)] + ops;
    Before(FRESH, OpRegister(Hi, 0, 16, true, 0), l1, ops, l);
    ops := [OpRegister(Hi, 0, 16, true, 0)] + ops;
  }

  /**
    The time to live bounds each hold, not the age of a frame: a flush that holds a frame
    again stamps it anew, so a bulk frame can be handed over at twice that age.
  */
  lemma HeldAgainStampedAnew(bytes: Bytes) returns (ops: seq<Op>, l: Line)
    ensures Reaches(FRESH, ops, l) && ops != [] && ops[0] == OpForward(bytes, false, 0)
    ensures l.fates == [Handed(Lo, 1, Frame(0, false, bytes))]
    ensures ops[|ops| - 1] == OpRegister(Lo, 1, 16, true, 2 * SPOOL_TTL)
  {
    var f := Frame(0, false, bytes);
    var first, again := SpooledFrame(0, f), SpooledFrame(SPOOL_TTL, f);
    var l1 := Line(None, [first], -1, 0, [f], []);
    var l2 := Line(Some(PeerConns(Sock(0, Open([])), None)), [again], 0, 0, [f], []);
    l := Line(Some(PeerConns(Sock(0, Open([])), Sock(1, Open([f])))), [], 1, 0, [f], [Handed(Lo, 1, f)]);
    First(f);
    First(Handed(Lo, 1, f));
    FlushSingle(Install(l1, Hi, 0, Open([])), first, SPOOL_TTL);
    FlushSingle(Install(l2, Lo, 1, Open([])), again, 2 * SPOOL_TTL);
    ops := [];
    Before(l2, OpRegister(Lo, 1, 16, true, 2 * SPOOL_TTL), l, ops, l);
    ops := [OpRegister(Lo, 1, 16, true, 2 * SPOOL_TTL)] + ops;
    Before(l1, OpRegister(Hi, 0, 16, true, SPOOL_TTL), l2, ops, l);
    ops := [OpRegister(Hi, 0, 16, true, SPOOL_TTL)] + ops;
    Before(FRESH, OpForward(bytes, false, 0), l1, ops, l);
    ops := [OpForward(bytes, false, 0)] + ops;
  }
}
