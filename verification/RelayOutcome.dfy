/**
  What becomes of one frame, told from the two slots of its destination alone: the socket it
  rides, and whether that socket is there, open and has room.
*/
module RelayOutcome {

  import opened Prelude
  import opened RelayLine

  /** The socket of a frame: hi for a handshake frame when there is one, otherwise lo. */
  function Ride(l: Line, hiPrio: bool): Option<LaneConn> {
    if l.entry.None? then None
    else if hiPrio && l.entry.value.hi.Some? then l.entry.value.hi
    else l.entry.value.lo
  }

  function RideLane(l: Line, hiPrio: bool): Lane {
    if hiPrio && l.entry.Some? && l.entry.value.hi.Some? then Hi else Lo
  }

  /** Held behind the others, the oldest of sixteen making room. */
  predicate IsHeld(l: Line, l': Line, f: Frame, now: Time) {
    && l' == l.(spool := l'.spool, fates := l'.fates)
    && (|l.spool| < 16 ==> l'.spool == l.spool + [SpooledFrame(now, f)] && l'.fates == l.fates)
    && (|l.spool| >= 16 ==>
          && l'.spool == l.spool[1..] + [SpooledFrame(now, f)]
          && l'.fates == l.fates + [Dropped(Evicted, l.spool[0].frame)])
  }

  predicate IsDiscarded(l: Line, l': Line, f: Frame) {
    l' == l.(fates := l.fates + [Dropped(ChannelFull, f)])
  }

  /** Queued behind the others on its socket; the other lane, the spool and the ids stay. */
  predicate IsHanded(l: Line, l': Line, f: Frame) {
    var ride := Ride(l, f.hiPrio);
    && ride.Some? && l'.entry.Some?
    && l' == l.(entry := l'.entry, fates := l.fates + [Handed(RideLane(l, f.hiPrio), ride.value.id, f)])
    && Ride(l', f.hiPrio) == Some(LaneConn(ride.value.id, Channel(ride.value.tx.cap, ride.value.tx.queue + [f], ride.value.tx.open)))
    && (if RideLane(l, f.hiPrio).Hi? then l'.entry.value.lo == l.entry.value.lo else l'.entry.value.hi == l.entry.value.hi)
  }

  /**
    A frame is held if and only if its socket is absent or closed, discarded as congestion if
    and only if that socket is open and full, and handed to it if and only if it is open and
    has room.
  */
  lemma RouteOutcomeExactly(l: Line, f: Frame, now: Time)
    ensures var l', ride := Route(l, f, now), Ride(l, f.hiPrio);
            && (IsHeld(l, l', f, now) <==> ride.None? || !ride.value.tx.open)
            && (IsDiscarded(l, l', f) <==> ride.Some? && ride.value.tx.open && |ride.value.tx.queue| >= ride.value.tx.cap)
            && (IsHanded(l, l', f) <==> ride.Some? && ride.value.tx.open && |ride.value.tx.queue| < ride.value.tx.cap)
  {
    var l', ride := Route(l, f, now), Ride(l, f.hiPrio);
    if ride.None? || !ride.value.tx.open {
      assert IsHeld(l, l', f, now);
      assert |l.spool| < 16 ==> |l'.spool| == |l.spool| + 1;
      assert |l.spool| >= 16 ==> l'.fates[|l.fates|] == Dropped(Evicted, l.spool[0].frame);
    } else {
      assert |l'.fates| == |l.fates| + 1;
      assert l'.fates[|l.fates|].Handed? || l'.fates[|l.fates|] == Dropped(ChannelFull, f);
    }
  }

  /** The same for a frame given to `forward`, which numbers it and keeps its bytes. */
  lemma ForwardOutcomeExactly(l: Line, bytes: Bytes, hiPrio: bool, now: Time)
    ensures var f := Frame(|l.submitted|, hiPrio, bytes);
            var l1, l', ride := l.(submitted := l.submitted + [f]), Forward(l, bytes, hiPrio, now), Ride(l, hiPrio);
            && (IsHeld(l1, l', f, now) <==> ride.None? || !ride.value.tx.open)
            && (IsDiscarded(l1, l', f) <==> ride.Some? && ride.value.tx.open && |ride.value.tx.queue| >= ride.value.tx.cap)
            && (IsHanded(l1, l', f) <==> ride.Some? && ride.value.tx.open && |ride.value.tx.queue| < ride.value.tx.cap)
  {
    hide Route, IsHeld, IsDiscarded, IsHanded;
    var f := Frame(|l.submitted|, hiPrio, bytes);
    RouteOutcomeExactly(l.(submitted := l.submitted + [f]), f, now);
  }

  /** A flush expires a frame if and only if it has been held for more than two seconds, and routes it otherwise. */
  lemma FlushExpiresExactly(l: Line, sf: SpooledFrame, now: Time)
    ensures var l', ride := FlushOne(l, sf, now), Ride(l, sf.frame.hiPrio);
            && (now - sf.at > 2_000_000 <==> l' == l.(fates := l.fates + [Dropped(Expired, sf.frame)]))
            && (now - sf.at <= 2_000_000 ==>
                  && (ride.None? || !ride.value.tx.open ==> IsHeld(l, l', sf.frame, now))
                  && (ride.Some? && ride.value.tx.open ==> IsDiscarded(l, l', sf.frame) || IsHanded(l, l', sf.frame)))
  {
    RouteOutcomeExactly(l, sf.frame, now);
    var l' := FlushOne(l, sf, now);
    if now - sf.at <= 2_000_000 {
      if IsHeld(l, l', sf.frame, now) {
        assert |l.spool| < 16 ==> |l'.spool| == |l.spool| + 1;
        assert |l.spool| >= 16 ==> l'.fates[|l.fates|] == Dropped(Evicted, l.spool[0].frame);
      } else {
        assert l'.fates[|l.fates|] != Dropped(Expired, sf.frame);
      }
    }
  }

  // ---------------------------------------------------------------- registering

  /** The same socket, possibly with more frames queued. */
  predicate Fed(c: Option<LaneConn>, c': Option<LaneConn>) {
    if c.None? then c' == None
    else
      && c'.Some? && c'.value.id == c.value.id && c'.value.tx.cap == c.value.tx.cap
      && c'.value.tx.open == c.value.tx.open && c.value.tx.queue <= c'.value.tx.queue
  }

  lemma FlushOneFeeds(l: Line, sf: SpooledFrame, now: Time)
    ensures var l' := FlushOne(l, sf, now);
            Fed(l.Conns().hi, l'.Conns().hi) && Fed(l.Conns().lo, l'.Conns().lo)
  {
  }

  lemma {:induction false} FlushFeeds(l: Line, held: seq<SpooledFrame>, now: Time)
    ensures var l' := Flush(l, held, now);
            Fed(l.Conns().hi, l'.Conns().hi) && Fed(l.Conns().lo, l'.Conns().lo)
    decreases |held|
  {
    hide FlushOne;
    if held != [] {
      FlushOneFeeds(l, held[0], now);
      FlushFeeds(FlushOne(l, held[0], now), held[1..], now);
    }
  }

  /** A register puts the new socket into its lane, flushed frames queued on it, and keeps the other lane's socket. */
  lemma RegisterInstalls(l: Line, lane: Lane, id: nat, cap: nat, open: bool, now: Time)
    requires Enabled(l, OpRegister(lane, id, cap, open, now))
    ensures var l' := Step(l, OpRegister(lane, id, cap, open, now));
            var mine, other := if lane.Hi? then l'.Conns().hi else l'.Conns().lo,
                               if lane.Hi? then l'.Conns().lo else l'.Conns().hi;
            && Fed(Some(LaneConn(id, Channel(cap, [], open))), mine)
            && Fed(if lane.Hi? then l.Conns().lo else l.Conns().hi, other)
  {
    FlushFeeds(Install(l, lane, id, Channel(cap, [], open)), l.spool, now);
  }

  // ---------------------------------------------------------------- sweeping and leaving

  lemma {:induction false} KeepsExactly(q: seq<SpooledFrame>, now: Time, sf: SpooledFrame)
    ensures sf in Keep(q, now) <==> sf in q && now - sf.at <= 2_000_000
    decreases |q|
  {
    if q != [] {
      KeepsExactly(q[1..], now, sf);
      assert sf in q <==> sf == q[0] || sf in q[1..];
    }
  }

  /** The expiry sweep removes exactly the frames held for more than two seconds, naming them expired. */
  lemma SweepExpiresExactly(l: Line, now: Time, sf: SpooledFrame)
    ensures var l' := ReapExpired(l, now);
            && (sf in l'.spool <==> sf in l.spool && now - sf.at <= 2_000_000)
            && l' == l.(spool := l'.spool, fates := l'.fates) && l.fates <= l'.fates
            && forall i :: |l.fates| <= i < |l'.fates| ==> l'.fates[i].Dropped? && l'.fates[i].why == Expired
  {
    KeepsExactly(l.spool, now, sf);
  }

  /** A leave closes both lanes and clears what was held, frame by frame. */
  lemma LeaveClearsExactly(l: Line)
    ensures var l' := Step(l, OpDropPubkey);
            && l'.entry == None && l'.spool == [] && |l'.fates| == |l.fates| + |l.spool| && l.fates <= l'.fates
            && forall i :: 0 <= i < |l.spool| ==> l'.fates[|l.fates| + i] == Dropped(Cleared, l.spool[i].frame)
  {
  }
}
