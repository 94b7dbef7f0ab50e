/**
  The relay registry as seen from ONE destination pubkey: its two lane sockets, the frames
  held for it, and everything that ever happened to a frame addressed to it.

  No registry operation on one pubkey touches another one (see `RelayRegistry`), so a run
  of the registry is a run of this machine for every pubkey. Two parts of the state are
  bookkeeping of the model and are never read by an operation: the `arrival` stamp of a
  frame, and the histories `submitted` and `fates`.
*/
module RelayLine {

  import opened Prelude

  const SPOOL_CAP: nat := 16
  const SPOOL_TTL: Time := 2_000_000

  datatype Lane = Hi | Lo

  /** A downlink frame travelling with its priority. `arrival` numbers the frames of one pubkey. */
  datatype Frame = Frame(arrival: nat, hiPrio: bool, bytes: Bytes)

  /** The sending half of a bounded channel; `open` turns false when the receiver is dropped. */
  datatype Channel = Channel(cap: nat, queue: seq<Frame>, open: bool) {
    predicate Full() { |queue| >= cap }
  }

  datatype LaneConn = LaneConn(id: nat, tx: Channel)

  datatype PeerConns = PeerConns(hi: Option<LaneConn>, lo: Option<LaneConn>) {
    function Slot(lane: Lane): Option<LaneConn> {
      if lane.Hi? then hi else lo
    }

    function With(lane: Lane, c: Option<LaneConn>): PeerConns {
      if lane.Hi? then this.(hi := c) else this.(lo := c)
    }

    /** The lane a frame rides: handshakes prefer `hi` and fall back to `lo`, bulk uses `lo` only. */
    function Pick(hiPrio: bool): (lane: Option<Lane>)
      ensures lane.Some? ==> Slot(lane.value).Some?
    {
      if hiPrio && hi.Some? then Some(Hi)
      else if lo.Some? then Some(Lo)
      else None
    }

    predicate IsEmpty() { hi.None? && lo.None? }
  }

  const NO_CONNS := PeerConns(None, None)

  datatype SpooledFrame = SpooledFrame(at: Time, frame: Frame)

  datatype Reason = ChannelFull | Evicted | Expired | Cleared

  /** How a frame left the registry. */
  datatype Fate =
    | Handed(lane: Lane, id: nat, frame: Frame)
    | Dropped(why: Reason, frame: Frame)

  datatype Line = Line(
    entry: Option<PeerConns>,     // the pubkey's entry in the connection map
    spool: seq<SpooledFrame>,     // frames held for it, oldest first
    newest: int,                  // highest registration id this pubkey ever had, -1 before any
    halfDone: nat,                // unregisters between their two lock scopes
    submitted: seq<Frame>,        // history: frames given to `forward`
    fates: seq<Fate>)             // history: frames that left, in order
  {
    function Conns(): PeerConns {
      if entry.Some? then entry.value else NO_CONNS
    }

    predicate Holds(lane: Lane, id: nat) {
      Conns().Slot(lane).Some? && Conns().Slot(lane).value.id == id
    }
  }

  const FRESH := Line(None, [], -1, 0, [], [])

  // ---------------------------------------------------------------- operations

  predicate Stale(sf: SpooledFrame, now: Time) { now - sf.at > SPOOL_TTL }

  function Hold(l: Line, f: Frame, now: Time): Line {
    var sf := SpooledFrame(now, f);
    if |l.spool| >= SPOOL_CAP then
      l.(spool := l.spool[1..] + [sf], fates := l.fates + [Dropped(Evicted, l.spool[0].frame)])
    else
      l.(spool := l.spool + [sf])
  }

  function Route(l: Line, f: Frame, now: Time): Line {
    var lane := l.Conns().Pick(f.hiPrio);
    if lane.None? then Hold(l, f, now)
    else
      var c := l.entry.value.Slot(lane.value).value;
      if !c.tx.open then Hold(l, f, now)
      else if c.tx.Full() then l.(fates := l.fates + [Dropped(ChannelFull, f)])
      else
        var c' := c.(tx := c.tx.(queue := c.tx.queue + [f]));
        l.(entry := Some(l.entry.value.With(lane.value, Some(c'))),
           fates := l.fates + [Handed(lane.value, c.id, f)])
  }

  function Forward(l: Line, bytes: Bytes, hiPrio: bool, now: Time): Line {
    var f := Frame(|l.submitted|, hiPrio, bytes);
    Route(l.(submitted := l.submitted + [f]), f, now)
  }

  /** Re-route the frames taken out of the spool, dropping the stale ones. */
  function Flush(l: Line, held: seq<SpooledFrame>, now: Time): Line
    decreases |held|
  {
    if held == [] then l
    else Flush(FlushOne(l, held[0], now), held[1..], now)
  }

  function FlushOne(l: Line, sf: SpooledFrame, now: Time): Line {
    if Stale(sf, now) then l.(fates := l.fates + [Dropped(Expired, sf.frame)])
    else Route(l, sf.frame, now)
  }

  function Install(l: Line, lane: Lane, id: nat, tx: Channel): Line {
    l.(entry := Some(l.Conns().With(lane, Some(LaneConn(id, tx)))), newest := id, spool := [])
  }

  function Register(l: Line, lane: Lane, id: nat, tx: Channel, now: Time): Line {
    Flush(Install(l, lane, id, tx), l.spool, now)
  }

  /** First lock scope of `unregister`: clear the slot if it still has this id. */
  function UnregisterClear(l: Line, lane: Lane, id: nat): Line {
    if l.entry.None? then l
    else
      var pc := if l.Holds(lane, id) then l.entry.value.With(lane, None) else l.entry.value;
      l.(entry := Some(pc), halfDone := if pc.IsEmpty() then l.halfDone + 1 else l.halfDone)
  }

  /** Second lock scope of `unregister`: remove the entry if it is still empty. */
  function UnregisterSweep(l: Line): Line
    requires l.halfDone > 0
  {
    l.(halfDone := l.halfDone - 1,
       entry := if l.Conns().IsEmpty() then None else l.entry)
  }

  function DropPubkey(l: Line): Line {
    l.(entry := None, spool := [], fates := l.fates + DropAll(Cleared, l.spool))
  }

  function ReapSlot(c: Option<LaneConn>): Option<LaneConn> {
    if c.Some? && !c.value.tx.open then None else c
  }

  function ReapClosed(l: Line): Line {
    if l.entry.None? then l
    else
      var pc := PeerConns(ReapSlot(l.entry.value.hi), ReapSlot(l.entry.value.lo));
      l.(entry := if pc.IsEmpty() then None else Some(pc))
  }

  function ReapExpired(l: Line, now: Time): Line {
    l.(spool := Keep(l.spool, now), fates := l.fates + DropAll(Expired, Lose(l.spool, now)))
  }

  function DropAll(why: Reason, q: seq<SpooledFrame>): seq<Fate> {
    seq(|q|, i requires 0 <= i < |q| => Dropped(why, q[i].frame))
  }

  /** The frames young enough to stay. */
  function Keep(q: seq<SpooledFrame>, now: Time): (r: seq<SpooledFrame>)
    ensures |r| <= |q|
    ensures forall sf :: sf in r ==> sf in q && !Stale(sf, now)
  {
    if q == [] then []
    else if Stale(q[0], now) then Keep(q[1..], now)
    else [q[0]] + Keep(q[1..], now)
  }

  /** The frames too old to stay. */
  function Lose(q: seq<SpooledFrame>, now: Time): (r: seq<SpooledFrame>)
    ensures forall sf :: sf in r ==> sf in q && Stale(sf, now)
  {
    if q == [] then []
    else if Stale(q[0], now) then [q[0]] + Lose(q[1..], now)
    else Lose(q[1..], now)
  }

  // The environment: a socket's send task takes a frame, or its receiver is dropped.

  function Receive(l: Line, lane: Lane): Line {
    var c := l.Conns().Slot(lane);
    if c.None? || c.value.tx.queue == [] then l
    else
      var tx := c.value.tx;
      l.(entry := Some(l.Conns().With(lane, Some(c.value.(tx := tx.(queue := tx.queue[1..]))))))
  }

  function CloseReceiver(l: Line, lane: Lane): Line {
    var c := l.Conns().Slot(lane);
    if c.None? then l
    else l.(entry := Some(l.Conns().With(lane, Some(c.value.(tx := c.value.tx.(open := false))))))
  }

  // ---------------------------------------------------------------- runs

  datatype Op =
    | OpRegister(lane: Lane, id: nat, cap: nat, open: bool, now: Time)
    | OpForward(bytes: Bytes, hiPrio: bool, now: Time)
    | OpUnregisterClear(lane: Lane, id: nat)
    | OpUnregisterSweep
    | OpDropPubkey
    | OpReapClosed
    | OpReapExpired(now: Time)
    | OpReceive(lane: Lane)
    | OpCloseReceiver(lane: Lane)

  /** Registration ids come from one global counter; a sweep finishes an unregister. */
  predicate Enabled(l: Line, op: Op) {
    && (op.OpRegister? ==> op.id > l.newest)
    && (op.OpUnregisterSweep? ==> l.halfDone > 0)
  }

  function Step(l: Line, op: Op): Line
    requires Enabled(l, op)
  {
    match op
    case OpRegister(lane, id, cap, open, now) => Register(l, lane, id, Channel(cap, [], open), now)
    case OpForward(bytes, hiPrio, now) => Forward(l, bytes, hiPrio, now)
    case OpUnregisterClear(lane, id) => UnregisterClear(l, lane, id)
    case OpUnregisterSweep => UnregisterSweep(l)
    case OpDropPubkey => DropPubkey(l)
    case OpReapClosed => ReapClosed(l)
    case OpReapExpired(now) => ReapExpired(l, now)
    case OpReceive(lane) => Receive(l, lane)
    case OpCloseReceiver(lane) => CloseReceiver(l, lane)
  }

  /** `after` is reached from `before` by the operations `ops`, in any interleaving. */
  ghost predicate Reaches(before: Line, ops: seq<Op>, after: Line)
    decreases |ops|
  {
    if ops == [] then after == before
    else Enabled(before, ops[0]) && Reaches(Step(before, ops[0]), ops[1..], after)
  }
}
