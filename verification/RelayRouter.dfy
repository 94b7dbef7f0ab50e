/** The relay frame codec, the lanes, and what routing one uplink frame does to a destination. */
module RelayRouter {

  import opened Prelude
  import opened Ula
  import opened PolicyModel
  import opened Roster
  import opened Visibility
  import opened RelayLine
  import opened RelayConservation
  import opened RelayOwnership
  import opened RelayRegistryModel

  const RELAY_HI_CAP: nat := 1024
  const RELAY_LO_CAP: nat := 256

  function ParseLane(lane: Option<string>): Lane {
    if lane == Some("hi") then Hi else Lo
  }

  function LaneChannelCap(lane: Lane): nat {
    match lane
    case Hi => RELAY_HI_CAP
    case Lo => RELAY_LO_CAP
  }

  /** A pubkey and the opaque datagram behind it. */
  datatype Datagram = Datagram(key: Bytes, payload: Bytes) {
    predicate Proper() { |key| == 32 && |payload| > 0 }
  }

  function Encode(key: Bytes, payload: Bytes): Bytes { key + payload }

  function Decode(buf: Bytes): Option<Datagram> {
    if |buf| < 33 then None else Some(Datagram(buf[..32], buf[32..]))
  }

  /** Decoding accepts exactly the encodings of a 32-byte key and a non-empty payload. */
  lemma DecodeExact(buf: Bytes, d: Datagram)
    ensures Decode(buf) == Some(d) <==> d.Proper() && buf == Encode(d.key, d.payload)
  {
    if d.Proper() && buf == Encode(d.key, d.payload) {
      assert buf[..32] == d.key && buf[32..] == d.payload;
    }
  }

  /** Message types 1 to 3 are handshake and cookie messages, 4 is data. */
  predicate IsHandshake(payload: Bytes) { payload != [] && 1 <= payload[0] <= 3 }

  predicate IsInit(payload: Bytes) { payload != [] && payload[0] == 1 }

  // ---------------------------------------------------------------- routing one frame

  /** Sent to a destination that had no live socket, to make it answer the source. */
  datatype RelayWake = RelayWake(recipient: PeerId, sourceUla: Addr, timestamp: Time)

  /** The frame names `dst`, and roster and policy let `src` relay to it. */
  predicate Accepts(m: Mesh, p: Policy, src: Key, buf: Bytes, dst: Key) {
    |src| == 32 && Decode(buf).Some? && Decode(buf).value.key == dst && CanRelay(m, p, src, dst)
  }

  /** What an uplink frame does to the line of `dst`: forwarded with its source in front, or nothing. */
  function RouteOn(m: Mesh, p: Policy, l: Line, dst: Key, src: Key, buf: Bytes, now: Time): Line {
    if Accepts(m, p, src, buf, dst) then
      var payload := Decode(buf).value.payload;
      Forward(l, Encode(src, payload), IsHandshake(payload), now)
    else l
  }

  /** An accepted frame that was not delivered, now that the line is `l'`, wakes its destination. */
  predicate Rouses(proactive: bool, woken: Option<Time>, l: Line, l': Line, payload: Bytes, now: Time) {
    && l'.entry == l.entry && IsInit(payload) && proactive
    && (woken.Some? ==> now - woken.value >= WAKE_COOLDOWN)
  }

  lemma {:induction false} FlushSubmitsNothing(l: Line, held: seq<SpooledFrame>, now: Time)
    ensures Flush(l, held, now).submitted == l.submitted
    decreases |held|
  {
    if held != [] {
      FlushSubmitsNothing(FlushOne(l, held[0], now), held[1..], now);
    }
  }

  lemma OnlyForwardSubmits(l: Line, op: Op)
    requires Enabled(l, op) && !op.OpForward?
    ensures Step(l, op).submitted == l.submitted
  {
    if op.OpRegister? {
      FlushSubmitsNothing(Install(l, op.lane, op.id, Channel(op.cap, [], op.open)), l.spool, op.now);
    }
  }

  // ---------------------------------------------------------------- every frame anywhere

  /** The frame is queued for a socket, held, or has left. */
  ghost predicate Present(l: Line, f: Frame) {
    || (l.Conns().hi.Some? && f in l.Conns().hi.value.tx.queue)
    || (l.Conns().lo.Some? && f in l.Conns().lo.value.tx.queue)
    || f in SpoolFrames(l.spool)
    || f in FateFrames(l.fates)
  }

  lemma {:induction false} HandedAreFates(fs: seq<Fate>, id: nat, f: Frame)
    requires f in HandedTo(fs, id)
    ensures f in FateFrames(fs)
    decreases |fs|
  {
    var n := |fs| - 1;
    if fs[n].Handed? && fs[n].id == id && fs[n].frame == f {
      assert FateFrames(fs)[n] == f;
    } else {
      HandedAreFates(fs[..n], id, f);
      var i :| 0 <= i < n && FateFrames(fs[..n])[i] == f;
      assert FateFrames(fs)[i] == f;
    }
  }

  lemma PresentWasSubmitted(l: Line, f: Frame)
    requires Sound(l, []) && Present(l, f)
    ensures f in l.submitted
  {
    if l.Conns().hi.Some? && f in l.Conns().hi.value.tx.queue {
      HandedAreFates(l.fates, l.Conns().hi.value.id, f);
    }
    if l.Conns().lo.Some? && f in l.Conns().lo.value.tx.queue {
      HandedAreFates(l.fates, l.Conns().lo.value.id, f);
    }
    hide HandedTo, HandedOf, HeldOf;
    assert f in multiset(FateFrames(l.fates)) + multiset(SpoolFrames(l.spool));
    assert f in multiset(l.submitted);
  }

  /**
    Both lanes' channels are larger than the spool, so a socket that upgrades with any lane
    query receives every young frame held for its lane, and the flush evicts none.
  */
  lemma ReconnectReceivesHeldFrames(ops: seq<Op>, l: Line, query: Option<string>, id: nat, now: Time)
    requires Reaches(FRESH, ops, l) && id > l.newest
    ensures var lane := ParseLane(query);
            var l' := Step(l, OpRegister(lane, id, LaneChannelCap(lane), true, now));
            && NoEviction(l'.fates, |l.fates|)
            && forall sf :: sf in l.spool && !Stale(sf, now) && l'.Conns().Pick(sf.frame.hiPrio) == Some(lane)
                            ==> Handed(lane, id, sf.frame) in l'.fates
  {
    var lane := ParseLane(query);
    RegisterDeliversHeldFrames(ops, l, OpRegister(lane, id, LaneChannelCap(lane), true, now));
  }

  /** Only the query `hi` asks for the handshake lane, which has 1024 places; any other has 256. */
  lemma LanesExactly(query: Option<string>)
    ensures ParseLane(query) == Hi <==> query == Some("hi")
    ensures LaneChannelCap(ParseLane(query)) == if query == Some("hi") then 1024 else 256
  {
  }
}
