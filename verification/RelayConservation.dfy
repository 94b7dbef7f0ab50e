/**
  What every run of the relay registry keeps, for one pubkey: no frame is lost or doubled,
  bulk frames keep their order, and each lane carries only what belongs on it.
*/
module RelayConservation {

  import opened Prelude
  import opened RelayLine

  // ---------------------------------------------------------------- histories

  function FateFrames(fs: seq<Fate>): seq<Frame> {
    seq(|fs|, i requires 0 <= i < |fs| => fs[i].frame)
  }

  function SpoolFrames(q: seq<SpooledFrame>): seq<Frame> {
    seq(|q|, i requires 0 <= i < |q| => q[i].frame)
  }

  /** The stamp a frame adds to the trace of its priority. */
  function Stamp(f: Frame, hi: bool): seq<nat> {
    if f.hiPrio == hi then [f.arrival] else []
  }

  /** Arrival stamps of the frames of one priority handed to a socket, in the order they were handed. */
  function HandedOf(fs: seq<Fate>, hi: bool): seq<nat> {
    if fs == [] then []
    else
      var f := fs[|fs| - 1];
      HandedOf(fs[..|fs| - 1], hi) + if f.Handed? then Stamp(f.frame, hi) else []
  }

  function HeldOf(q: seq<SpooledFrame>, hi: bool): seq<nat> {
    if q == [] then [] else Stamp(q[0].frame, hi) + HeldOf(q[1..], hi)
  }

  /** Everything handed to the socket registered as `id`, in order. */
  function HandedTo(fs: seq<Fate>, id: nat): seq<Frame> {
    if fs == [] then []
    else
      var f := fs[|fs| - 1];
      HandedTo(fs[..|fs| - 1], id) + if f.Handed? && f.id == id then [f.frame] else []
  }

  // ---------------------------------------------------------------- invariants

  // `rest` holds the frames a flush has taken out of the spool and not yet routed; it is
  // empty between operations.

  ghost predicate Balanced(l: Line, rest: seq<SpooledFrame>) {
    && (forall i :: 0 <= i < |l.submitted| ==> l.submitted[i].arrival == i)
    && multiset(l.submitted)
       == multiset(FateFrames(l.fates)) + multiset(SpoolFrames(l.spool)) + multiset(SpoolFrames(rest))
  }

  predicate LoBlocked(l: Line) {
    l.Conns().lo.None? || !l.Conns().lo.value.tx.open
  }

  /** The frames of one priority in the order they were or will be handed over. */
  function Trace(l: Line, rest: seq<SpooledFrame>, hi: bool): seq<nat> {
    HandedOf(l.fates, hi) + HeldOf(l.spool, hi) + HeldOf(rest, hi)
  }

  ghost predicate Climbs(s: seq<nat>, bound: nat) {
    Ascending(s) && forall i :: 0 <= i < |s| ==> s[i] < bound
  }

  ghost predicate Ordered(l: Line, rest: seq<SpooledFrame>) {
    && Climbs(Trace(l, rest, false), |l.submitted|)
    && (HeldOf(l.spool, false) != [] ==> LoBlocked(l))
  }

  /** A slot's queue is what was handed to it and not yet received: the newest of it, in order. */
  ghost predicate Fifo(fates: seq<Fate>, newest: int, c: Option<LaneConn>) {
    c.Some? ==>
      var tx, handed := c.value.tx, HandedTo(fates, c.value.id);
      c.value.id <= newest && |tx.queue| <= tx.cap && IsSuffix(tx.queue, handed)
  }

  /** The slot after one more frame is queued. */
  function Fed(c: LaneConn, f: Frame): LaneConn {
    c.(tx := c.tx.(queue := c.tx.queue + [f]))
  }

  ghost predicate IsSuffix<T>(a: seq<T>, b: seq<T>) {
    |a| <= |b| && a == b[|b| - |a|..]
  }

  ghost predicate HiPure(l: Line) {
    && (forall i :: 0 <= i < |l.fates| && l.fates[i].Handed? && l.fates[i].lane.Hi? ==> l.fates[i].frame.hiPrio)
    && (l.Conns().hi.Some? ==>
          var q := l.Conns().hi.value.tx.queue; forall i :: 0 <= i < |q| ==> q[i].hiPrio)
  }

  ghost predicate KnownIds(l: Line) {
    && (forall i :: 0 <= i < |l.fates| && l.fates[i].Handed? ==> l.fates[i].id <= l.newest)
    && (l.Conns().hi.Some? && l.Conns().lo.Some? ==> l.Conns().hi.value.id != l.Conns().lo.value.id)
  }

  ghost predicate Laned(l: Line) {
    && Fifo(l.fates, l.newest, l.Conns().hi)
    && Fifo(l.fates, l.newest, l.Conns().lo)
    && KnownIds(l)
    && HiPure(l)
  }

  ghost predicate Tidy(l: Line) {
    && |l.spool| <= SPOOL_CAP
    && (l.entry.Some? && l.entry.value.IsEmpty() ==> l.halfDone > 0)
  }

  ghost predicate Sound(l: Line, rest: seq<SpooledFrame>) {
    Balanced(l, rest) && Ordered(l, rest) && Laned(l) && Tidy(l)
  }

  // ---------------------------------------------------------------- histories grow at the end

  lemma {:induction false} FateAppended(fs: seq<Fate>, f: Fate, id: nat, hi: bool)
    ensures FateFrames(fs + [f]) == FateFrames(fs) + [f.frame]
    ensures HandedOf(fs + [f], hi) == HandedOf(fs, hi) + if f.Handed? then Stamp(f.frame, hi) else []
    ensures HandedTo(fs + [f], id)
            == HandedTo(fs, id) + if f.Handed? && f.id == id then [f.frame] else []
  {
    assert (fs + [f])[..|fs|] == fs;
  }

  lemma DropsFramed(fs: seq<Fate>, why: Reason, q: seq<SpooledFrame>)
    ensures FateFrames(fs + DropAll(why, q)) == FateFrames(fs) + SpoolFrames(q)
  {
  }

  /** Discarding hands nothing over. */
  lemma {:induction false} DropsAppended(fs: seq<Fate>, why: Reason, q: seq<SpooledFrame>, id: nat, hi: bool)
    ensures HandedOf(fs + DropAll(why, q), hi) == HandedOf(fs, hi)
    ensures HandedTo(fs + DropAll(why, q), id) == HandedTo(fs, id)
    decreases |q|
  {
    if q == [] {
      assert fs + DropAll(why, q) == fs;
    } else {
      var n := |q| - 1;
      assert fs + DropAll(why, q) == fs + DropAll(why, q[..n]) + [Dropped(why, q[n].frame)];
      hide DropAll, HandedOf, HandedTo, FateFrames;
      DropsAppended(fs, why, q[..n], id, hi);
      FateAppended(fs + DropAll(why, q[..n]), Dropped(why, q[n].frame), id, hi);
    }
  }

  lemma {:induction false} HeldConcat(a: seq<SpooledFrame>, b: seq<SpooledFrame>, hi: bool)
    ensures HeldOf(a + b, hi) == HeldOf(a, hi) + HeldOf(b, hi)
    decreases |a|
  {
    if a == [] {
      assert a + b == b;
    } else {
      var head := Stamp(a[0].frame, hi);
      assert (a + b)[0] == a[0] && (a + b)[1..] == a[1..] + b;
      assert HeldOf(a + b, hi) == head + HeldOf(a[1..] + b, hi);
      assert HeldOf(a, hi) == head + HeldOf(a[1..], hi);
      HeldConcat(a[1..], b, hi);
    }
  }

  lemma {:induction false} ClimbsWithout(a: seq<nat>, x: seq<nat>, b: seq<nat>, bound: nat)
    requires Climbs(a + x + b, bound)
    ensures Climbs(a + b, bound)
  {
    var s, t := a + x + b, a + b;
    assert forall i :: 0 <= i < |t| ==> t[i] == s[if i < |a| then i else i + |x|];
  }

  lemma Regroup(a: seq<nat>, b: seq<nat>, c: seq<nat>, d: seq<nat>, e: seq<nat>)
    ensures a + (b + c) + d + e == a + b + (c + d + e)
    ensures a + (c + d) + e == a + (c + d + e)
  {
  }

  // ---------------------------------------------------------------- routing one frame

  lemma {:induction false} HoldBalanced(l: Line, h: SpooledFrame, rest: seq<SpooledFrame>, now: Time)
    requires Balanced(l, [h] + rest)
    ensures Balanced(Hold(l, h.frame, now), rest)
  {
    assert SpoolFrames([h] + rest) == [h.frame] + SpoolFrames(rest);
    var sf := SpooledFrame(now, h.frame);
    if |l.spool| >= SPOOL_CAP {
      FateAppended(l.fates, Dropped(Evicted, l.spool[0].frame), 0, false);
      assert SpoolFrames(l.spool) == [l.spool[0].frame] + SpoolFrames(l.spool[1..]);
      assert SpoolFrames(l.spool[1..] + [sf]) == SpoolFrames(l.spool[1..]) + [h.frame];
    } else {
      assert SpoolFrames(l.spool + [sf]) == SpoolFrames(l.spool) + [h.frame];
    }
  }

  lemma {:induction false} RouteBalanced(l: Line, h: SpooledFrame, rest: seq<SpooledFrame>, now: Time)
    requires Balanced(l, [h] + rest)
    ensures Balanced(Route(l, h.frame, now), rest)
  {
    HoldBalanced(l, h, rest, now);
    assert SpoolFrames([h] + rest) == [h.frame] + SpoolFrames(rest);
    forall f: Fate | f.frame == h.frame
      ensures FateFrames(l.fates + [f]) == FateFrames(l.fates) + [h.frame]
    {
      FateAppended(l.fates, f, 0, false);
    }
  }

  lemma {:induction false} TraceSplit(l: Line, h: SpooledFrame, rest: seq<SpooledFrame>, hi: bool)
    ensures Trace(l, [h] + rest, hi)
            == HandedOf(l.fates, hi) + HeldOf(l.spool, hi) + Stamp(h.frame, hi) + HeldOf(rest, hi)
  {
    HeldConcat([h], rest, hi);
  }

  lemma {:induction false} HeldAppended(q: seq<SpooledFrame>, f: Frame, now: Time, hi: bool)
    ensures HeldOf(q + [SpooledFrame(now, f)], hi) == HeldOf(q, hi) + Stamp(f, hi)
  {
    HeldConcat(q, [SpooledFrame(now, f)], hi);
  }

  lemma {:induction false} EvictClimbs(l: Line, h: SpooledFrame, rest: seq<SpooledFrame>, now: Time, hi: bool)
    requires Climbs(Trace(l, [h] + rest, hi), |l.submitted|) && |l.spool| >= SPOOL_CAP
    ensures Climbs(Trace(Hold(l, h.frame, now), rest, hi), |l.submitted|)
  {
    hide Climbs;
    var l', oldest := Hold(l, h.frame, now), l.spool[0];
    var later := HeldOf(l.spool[1..], hi) + Stamp(h.frame, hi) + HeldOf(rest, hi);
    TraceSplit(l, h, rest, hi);
    assert HeldOf(l.spool, hi) == Stamp(oldest.frame, hi) + HeldOf(l.spool[1..], hi);
    Regroup(HandedOf(l.fates, hi), Stamp(oldest.frame, hi), HeldOf(l.spool[1..], hi), Stamp(h.frame, hi), HeldOf(rest, hi));
    ClimbsWithout(HandedOf(l.fates, hi), Stamp(oldest.frame, hi), later, |l.submitted|);
    HeldAppended(l.spool[1..], h.frame, now, hi);
    FateAppended(l.fates, Dropped(Evicted, oldest.frame), 0, hi);
    assert HandedOf(l'.fates, hi) == HandedOf(l.fates, hi);
  }

  lemma {:induction false} HoldClimbs(l: Line, h: SpooledFrame, rest: seq<SpooledFrame>, now: Time, hi: bool)
    requires Climbs(Trace(l, [h] + rest, hi), |l.submitted|)
    ensures Climbs(Trace(Hold(l, h.frame, now), rest, hi), |l.submitted|)
  {
    hide Climbs, HeldOf, HandedOf;
    if |l.spool| >= SPOOL_CAP {
      EvictClimbs(l, h, rest, now, hi);
    } else {
      TraceSplit(l, h, rest, hi);
      HeldAppended(l.spool, h.frame, now, hi);
      assert Trace(Hold(l, h.frame, now), rest, hi) == Trace(l, [h] + rest, hi);
    }
  }

  lemma {:induction false} HoldOrdered(l: Line, h: SpooledFrame, rest: seq<SpooledFrame>, now: Time)
    requires Ordered(l, [h] + rest)
    requires !h.frame.hiPrio ==> LoBlocked(l)
    ensures Ordered(Hold(l, h.frame, now), rest)
  {
    hide Trace, Climbs, HeldOf;
    HoldClimbs(l, h, rest, now, false);
    HoldBlocked(l, h.frame, now);
  }

  lemma {:induction false} HoldBlocked(l: Line, f: Frame, now: Time)
    requires HeldOf(l.spool, false) != [] ==> LoBlocked(l)
    requires !f.hiPrio ==> LoBlocked(l)
    ensures HeldOf(Hold(l, f, now).spool, false) != [] ==> LoBlocked(Hold(l, f, now))
  {
    if |l.spool| >= SPOOL_CAP {
      HeldAppended(l.spool[1..], f, now, false);
    } else {
      HeldAppended(l.spool, f, now, false);
    }
  }

  /** Handing a frame over keeps the trace when no frame of its priority is held. */
  lemma {:induction false} HandClimbs(l: Line, l': Line, h: SpooledFrame, rest: seq<SpooledFrame>, fate: Fate, hi: bool)
    requires fate.Handed? && fate.frame == h.frame
    requires Stamp(h.frame, hi) == [] || HeldOf(l.spool, hi) == []
    requires l'.fates == l.fates + [fate] && l'.spool == l.spool
    ensures Trace(l', rest, hi) == Trace(l, [h] + rest, hi)
  {
    TraceSplit(l, h, rest, hi);
    FateAppended(l.fates, fate, 0, hi);
    assert HandedOf(l'.fates, hi) == HandedOf(l.fates, hi) + Stamp(h.frame, hi);
  }

  // A bulk frame is handed only over an open lo socket, when no bulk frame is held.
  lemma {:induction false} HandOrdered(l: Line, l': Line, h: SpooledFrame, rest: seq<SpooledFrame>, fate: Fate)
    requires Ordered(l, [h] + rest)
    requires fate.Handed? && fate.frame == h.frame
    requires !h.frame.hiPrio ==> !LoBlocked(l)
    requires l'.fates == l.fates + [fate]
    requires l'.spool == l.spool && l'.submitted == l.submitted && LoBlocked(l') == LoBlocked(l)
    ensures Ordered(l', rest)
  {
    HandClimbs(l, l', h, rest, fate, false);
  }

  lemma {:induction false} DropClimbs(l: Line, h: SpooledFrame, rest: seq<SpooledFrame>, why: Reason, hi: bool)
    requires Climbs(Trace(l, [h] + rest, hi), |l.submitted|)
    ensures Climbs(Trace(l.(fates := l.fates + [Dropped(why, h.frame)]), rest, hi), |l.submitted|)
  {
    TraceSplit(l, h, rest, hi);
    FateAppended(l.fates, Dropped(why, h.frame), 0, hi);
    assert HandedOf(l.fates + [Dropped(why, h.frame)], hi) == HandedOf(l.fates, hi);
    ClimbsWithout(HandedOf(l.fates, hi) + HeldOf(l.spool, hi), Stamp(h.frame, hi), HeldOf(rest, hi), |l.submitted|);
  }

  lemma {:induction false} DropOrdered(l: Line, h: SpooledFrame, rest: seq<SpooledFrame>, why: Reason)
    requires Ordered(l, [h] + rest)
    ensures Ordered(l.(fates := l.fates + [Dropped(why, h.frame)]), rest)
  {
    DropClimbs(l, h, rest, why, false);
  }

  lemma {:induction false} RouteOrdered(l: Line, h: SpooledFrame, rest: seq<SpooledFrame>, now: Time)
    requires Ordered(l, [h] + rest)
    ensures Ordered(Route(l, h.frame, now), rest)
  {
    var lane := l.Conns().Pick(h.frame.hiPrio);
    if lane.None? || !l.Conns().Slot(lane.value).value.tx.open {
      HoldOrdered(l, h, rest, now);
    } else if l.Conns().Slot(lane.value).value.tx.Full() {
      DropOrdered(l, h, rest, ChannelFull);
    } else {
      HandOrdered(l, Route(l, h.frame, now), h, rest, Handed(lane.value, l.Conns().Slot(lane.value).value.id, h.frame));
    }
  }

  lemma {:induction false} DropKeepsLaned(l: Line, l': Line, why: Reason, q: seq<SpooledFrame>)
    requires Laned(l)
    requires l'.Conns() == l.Conns() && l'.newest == l.newest
    requires l'.fates == l.fates + DropAll(why, q)
    ensures Laned(l')
  {
    if l.Conns().hi.Some? { DropsAppended(l.fates, why, q, l.Conns().hi.value.id, false); }
    if l.Conns().lo.Some? { DropsAppended(l.fates, why, q, l.Conns().lo.value.id, false); }
  }

  lemma SuffixAppended<T>(a: seq<T>, b: seq<T>, x: T)
    requires IsSuffix(a, b)
    ensures IsSuffix(a + [x], b + [x])
  {
  }

  lemma {:induction false} HandKeepsFifo(fates: seq<Fate>, newest: int, fate: Fate, c: LaneConn)
    requires fate.Handed? && Fifo(fates, newest, Some(c))
    ensures c.id != fate.id ==> Fifo(fates + [fate], newest, Some(c))
    ensures c.id == fate.id && !c.tx.Full() ==> Fifo(fates + [fate], newest, Some(Fed(c, fate.frame)))
  {
    hide HandedTo, HandedOf, FateFrames, IsSuffix;
    FateAppended(fates, fate, c.id, false);
    if c.id == fate.id {
      SuffixAppended(c.tx.queue, HandedTo(fates, c.id), fate.frame);
    } else {
      assert HandedTo(fates, c.id) + [] == HandedTo(fates, c.id);
    }
  }

  lemma {:induction false} HandKeepsLaned(l: Line, lane: Lane, f: Frame, now: Time)
    requires Laned(l)
    requires l.Conns().Pick(f.hiPrio) == Some(lane)
    requires var tx := l.Conns().Slot(lane).value.tx; tx.open && !tx.Full()
    ensures Laned(Route(l, f, now))
  {
    hide HandedTo, IsSuffix;
    var l', c := Route(l, f, now), l.Conns().Slot(lane).value;
    var fate := Handed(lane, c.id, f);
    assert l'.fates == l.fates + [fate];
    assert l'.Conns() == l.Conns().With(lane, Some(Fed(c, f)));
    assert Fifo(l'.fates, l'.newest, l'.Conns().hi) && Fifo(l'.fates, l'.newest, l'.Conns().lo) by {
      hide Fifo;
      if l.Conns().hi.Some? { HandKeepsFifo(l.fates, l.newest, fate, l.Conns().hi.value); }
      if l.Conns().lo.Some? { HandKeepsFifo(l.fates, l.newest, fate, l.Conns().lo.value); }
    }
  }

  lemma {:induction false} RouteLaned(l: Line, f: Frame, now: Time)
    requires Laned(l)
    ensures Laned(Route(l, f, now))
  {
    var l' := Route(l, f, now);
    var lane := l.Conns().Pick(f.hiPrio);
    if l'.fates == l.fates {
    } else if l'.fates[|l.fates|].Handed? {
      HandKeepsLaned(l, lane.value, f, now);
    } else {
      var Dropped(why, g) := l'.fates[|l.fates|];
      DropKeepsLaned(l, l', why, [SpooledFrame(0, g)]);
    }
  }

  lemma {:induction false} RouteSound(l: Line, h: SpooledFrame, rest: seq<SpooledFrame>, now: Time)
    requires Sound(l, [h] + rest)
    ensures Sound(Route(l, h.frame, now), rest)
  {
    RouteBalanced(l, h, rest, now);
    RouteOrdered(l, h, rest, now);
    RouteLaned(l, h.frame, now);
    RouteTidy(l, h.frame, now);
  }

  lemma {:induction false} RouteTidy(l: Line, f: Frame, now: Time)
    requires Tidy(l)
    ensures Tidy(Route(l, f, now))
  {
  }

  // ---------------------------------------------------------------- whole operations

  lemma {:induction false} FlushOneSound(l: Line, h: SpooledFrame, rest: seq<SpooledFrame>, now: Time)
    requires Sound(l, [h] + rest)
    ensures Sound(FlushOne(l, h, now), rest)
  {
    if Stale(h, now) {
      var l' := FlushOne(l, h, now);
      FateAppended(l.fates, Dropped(Expired, h.frame), 0, false);
      assert SpoolFrames([h] + rest) == [h.frame] + SpoolFrames(rest);
      DropOrdered(l, h, rest, Expired);
      DropKeepsLaned(l, l', Expired, [h]);
    } else {
      RouteSound(l, h, rest, now);
    }
  }

  lemma {:induction false} FlushSound(l: Line, held: seq<SpooledFrame>, now: Time)
    requires Sound(l, held)
    ensures Sound(Flush(l, held, now), [])
    decreases |held|
  {
    if held != [] {
      assert held == [held[0]] + held[1..];
      FlushOneSound(l, held[0], held[1..], now);
      FlushSound(FlushOne(l, held[0], now), held[1..], now);
    }
  }

  lemma {:induction false} UnknownIdUnused(fs: seq<Fate>, id: nat)
    requires forall i :: 0 <= i < |fs| && fs[i].Handed? ==> fs[i].id < id
    ensures HandedTo(fs, id) == []
    decreases |fs|
  {
    if fs != [] {
      UnknownIdUnused(fs[..|fs| - 1], id);
    }
  }

  lemma {:induction false} InstallSound(l: Line, lane: Lane, id: nat, cap: nat, open: bool)
    requires Sound(l, []) && id > l.newest
    ensures Sound(Install(l, lane, id, Channel(cap, [], open)), l.spool)
  {
    UnknownIdUnused(l.fates, id);
    var l' := Install(l, lane, id, Channel(cap, [], open));
    assert SpoolFrames(l'.spool) == SpoolFrames([]);
    assert Trace(l', l.spool, false) == Trace(l, [], false);
  }

  lemma {:induction false} RegisterSound(l: Line, lane: Lane, id: nat, cap: nat, open: bool, now: Time)
    requires Sound(l, []) && id > l.newest
    ensures Sound(Register(l, lane, id, Channel(cap, [], open), now), [])
  {
    InstallSound(l, lane, id, cap, open);
    FlushSound(Install(l, lane, id, Channel(cap, [], open)), l.spool, now);
  }

  lemma {:induction false} ForwardSound(l: Line, bytes: Bytes, hiPrio: bool, now: Time)
    requires Sound(l, [])
    ensures Sound(Forward(l, bytes, hiPrio, now), [])
  {
    var f := Frame(|l.submitted|, hiPrio, bytes);
    var l', h := l.(submitted := l.submitted + [f]), SpooledFrame(now, f);
    assert SpoolFrames([h]) == [f];
    assert [h] + [] == [h];
    TraceSplit(l', h, [], false);
    assert Trace(l', [h], false) == Trace(l, [], false) + Stamp(f, false);
    RouteSound(l', h, [], now);
  }

  lemma FramesCons(sf: SpooledFrame, q: seq<SpooledFrame>)
    ensures multiset(SpoolFrames([sf] + q)) == multiset{sf.frame} + multiset(SpoolFrames(q))
  {
    assert SpoolFrames([sf] + q) == [sf.frame] + SpoolFrames(q);
  }

  lemma {:induction false} SplitByAge(q: seq<SpooledFrame>, now: Time)
    ensures multiset(SpoolFrames(q)) == multiset(SpoolFrames(Keep(q, now))) + multiset(SpoolFrames(Lose(q, now)))
    decreases |q|
  {
    hide SpoolFrames;
    if q == [] {
      NoFrames();
    } else {
      SplitByAge(q[1..], now);
      assert q == [q[0]] + q[1..];
      FramesCons(q[0], q[1..]);
      if Stale(q[0], now) {
        FramesCons(q[0], Lose(q[1..], now));
      } else {
        FramesCons(q[0], Keep(q[1..], now));
      }
    }
  }

  lemma NoFrames()
    ensures SpoolFrames([]) == []
  {
  }

  lemma {:induction false} KeepHeld(q: seq<SpooledFrame>, now: Time, hi: bool)
    requires q != []
    ensures HeldOf(q, hi) == Stamp(q[0].frame, hi) + HeldOf(q[1..], hi)
    ensures HeldOf(Keep(q, now), hi)
            == if Stale(q[0], now) then HeldOf(Keep(q[1..], now), hi)
               else Stamp(q[0].frame, hi) + HeldOf(Keep(q[1..], now), hi)
  {
    HeldConcat([q[0]], Keep(q[1..], now), hi);
  }

  lemma KeepNone(now: Time)
    ensures Keep([], now) == []
  {
  }

  lemma {:induction false} KeepClimbs(a: seq<nat>, q: seq<SpooledFrame>, now: Time, bound: nat, hi: bool)
    requires Climbs(a + HeldOf(q, hi), bound)
    ensures Climbs(a + HeldOf(Keep(q, now), hi), bound)
    ensures HeldOf(q, hi) == [] ==> HeldOf(Keep(q, now), hi) == []
    decreases |q|
  {
    hide Climbs, HeldOf, Keep, Stamp;
    if q == [] {
      KeepNone(now);
    } else {
      KeepHeld(q, now, hi);
      var stamp, later := Stamp(q[0].frame, hi), HeldOf(q[1..], hi);
      assert a + (stamp + later) == a + stamp + later;
      if Stale(q[0], now) {
        ClimbsWithout(a, stamp, later, bound);
        KeepClimbs(a, q[1..], now, bound, hi);
      } else {
        KeepClimbs(a + stamp, q[1..], now, bound, hi);
        var kept := HeldOf(Keep(q[1..], now), hi);
        assert a + stamp + kept == a + (stamp + kept);
      }
    }
  }

  lemma {:induction false} ReapExpiredClimbs(l: Line, now: Time, hi: bool)
    requires Climbs(Trace(l, [], hi), |l.submitted|)
    ensures Climbs(Trace(ReapExpired(l, now), [], hi), |l.submitted|)
    ensures HeldOf(l.spool, hi) == [] ==> HeldOf(ReapExpired(l, now).spool, hi) == []
  {
    var l' := ReapExpired(l, now);
    DropsAppended(l.fates, Expired, Lose(l.spool, now), 0, hi);
    assert Trace(l, [], hi) == HandedOf(l.fates, hi) + HeldOf(l.spool, hi);
    KeepClimbs(HandedOf(l.fates, hi), l.spool, now, |l.submitted|, hi);
    assert Trace(l', [], hi) == HandedOf(l.fates, hi) + HeldOf(Keep(l.spool, now), hi);
  }

  lemma {:induction false} ReapExpiredSound(l: Line, now: Time)
    requires Sound(l, [])
    ensures Sound(ReapExpired(l, now), [])
  {
    var lost := Lose(l.spool, now);
    assert Balanced(ReapExpired(l, now), []) by {
      DropsFramed(l.fates, Expired, lost);
      SplitByAge(l.spool, now);
    }
    ReapExpiredClimbs(l, now, false);
    DropKeepsLaned(l, ReapExpired(l, now), Expired, lost);
  }

  lemma {:induction false} DropPubkeyClimbs(l: Line, hi: bool)
    requires Climbs(Trace(l, [], hi), |l.submitted|)
    ensures Climbs(Trace(DropPubkey(l), [], hi), |l.submitted|)
  {
    var l' := DropPubkey(l);
    DropsAppended(l.fates, Cleared, l.spool, 0, hi);
    assert Trace(l, [], hi) == HandedOf(l.fates, hi) + HeldOf(l.spool, hi) + [];
    ClimbsWithout(HandedOf(l.fates, hi), HeldOf(l.spool, hi), [], |l.submitted|);
    assert Trace(l', [], hi) == HandedOf(l.fates, hi) + [];
  }

  lemma {:induction false} DropPubkeySound(l: Line)
    requires Sound(l, [])
    ensures Sound(DropPubkey(l), [])
  {
    var l' := DropPubkey(l);
    DropPubkeyClimbs(l, false);
    DropsFramed(l.fates, Cleared, l.spool);
    assert SpoolFrames(l'.spool) == SpoolFrames([]);
    DropKeepsLaned(l.(entry := None), l', Cleared, l.spool);
  }

  lemma {:induction false} StepSound(l: Line, op: Op)
    requires Sound(l, []) && Enabled(l, op)
    ensures Sound(Step(l, op), [])
  {
    hide Sound, Register, Forward, DropPubkey, ReapExpired, UnregisterClear, ReapClosed, Receive, CloseReceiver;
    match op
    case OpRegister(lane, id, cap, open, now) => RegisterSound(l, lane, id, cap, open, now);
    case OpForward(bytes, hiPrio, now) => ForwardSound(l, bytes, hiPrio, now);
    case OpDropPubkey => DropPubkeySound(l);
    case OpReapExpired(now) => ReapExpiredSound(l, now);
    case OpUnregisterClear(lane, id) => UnregisterSound(l, lane, id);
    case OpUnregisterSweep => SweepSound(l);
    case OpReapClosed => ReapClosedSound(l);
    case OpReceive(lane) => ReceiveSound(l, lane);
    case OpCloseReceiver(lane) => CloseSound(l, lane);
  }

  lemma {:induction false} SweepSound(l: Line)
    requires Sound(l, []) && l.halfDone > 0
    ensures Sound(UnregisterSweep(l), [])
  {
    SlotsChangedSound(l, UnregisterSweep(l));
  }

  lemma {:induction false} UnregisterSound(l: Line, lane: Lane, id: nat)
    requires Sound(l, [])
    ensures Sound(UnregisterClear(l, lane, id), [])
  {
    SlotsChangedSound(l, UnregisterClear(l, lane, id));
  }

  lemma {:induction false} ReapClosedSound(l: Line)
    requires Sound(l, [])
    ensures Sound(ReapClosed(l), [])
  {
    SlotsChangedSound(l, ReapClosed(l));
  }

  lemma {:induction false} ReceiveSound(l: Line, lane: Lane)
    requires Sound(l, [])
    ensures Sound(Receive(l, lane), [])
  {
    SlotsChangedSound(l, Receive(l, lane));
  }

  lemma {:induction false} CloseSound(l: Line, lane: Lane)
    requires Sound(l, [])
    ensures Sound(CloseReceiver(l, lane), [])
  {
    SlotsChangedSound(l, CloseReceiver(l, lane));
  }

  /** A slot may only be emptied, closed or drained. */
  ghost predicate Weaker(c': Option<LaneConn>, c: Option<LaneConn>) {
    c'.Some? ==>
      && c.Some? && c'.value.id == c.value.id && c'.value.tx.cap == c.value.tx.cap
      && IsSuffix(c'.value.tx.queue, c.value.tx.queue)
      && (c'.value.tx.open ==> c.value.tx.open)
  }

  lemma {:induction false} SlotsChangedSound(l: Line, l': Line)
    requires Sound(l, [])
    requires l' == l.(entry := l'.entry, halfDone := l'.halfDone)
    requires Weaker(l'.Conns().hi, l.Conns().hi) && Weaker(l'.Conns().lo, l.Conns().lo)
    requires l'.entry.Some? && l'.entry.value.IsEmpty() ==> l'.halfDone > 0
    ensures Sound(l', [])
  {
  }

  lemma {:induction false} RunSound(l: Line, ops: seq<Op>, l': Line)
    requires Sound(l, []) && Reaches(l, ops, l')
    ensures Sound(l', [])
    decreases |ops|
  {
    if ops != [] {
      StepSound(l, ops[0]);
      RunSound(Step(l, ops[0]), ops[1..], l');
    }
  }

  // ---------------------------------------------------------------- main results

  /**
    Conservation. In every run, every frame given to `forward` is accounted for exactly once:
    in one channel, in the spool, or discarded for one reason.
  */
  lemma {:induction false} EveryFrameAccountedOnce(ops: seq<Op>, l: Line, n: nat)
    requires Reaches(FRESH, ops, l)
    requires n < |l.submitted|
    ensures multiset(FateFrames(l.fates) + SpoolFrames(l.spool))[l.submitted[n]] == 1
    ensures multiset(FateFrames(l.fates) + SpoolFrames(l.spool)) == multiset(l.submitted)
  {
    RunSound(FRESH, ops, l);
    assert SpoolFrames([]) == [];
    OccursOnce(l.submitted, n);
  }

  lemma {:induction false} OccursOnce(s: seq<Frame>, n: nat)
    requires n < |s| && forall i :: 0 <= i < |s| ==> s[i].arrival == i
    ensures multiset(s)[s[n]] == 1
  {
    assert s == s[..n] + [s[n]] + s[n + 1..];
    assert s[n] !in s[..n] && s[n] !in s[n + 1..];
  }

  /**
    Bulk frames are never reordered: over a whole run the bulk frames handed to this pubkey's
    sockets, across reconnects, come out in the order they were submitted, and what is still
    held comes after all of them.
  */
  lemma {:induction false} BulkNeverReordered(ops: seq<Op>, l: Line)
    requires Reaches(FRESH, ops, l)
    ensures Ascending(HandedOf(l.fates, false) + HeldOf(l.spool, false))
    ensures HeldOf(l.spool, false) != [] ==> LoBlocked(l)
  {
    RunSound(FRESH, ops, l);
    assert Trace(l, [], false) == HandedOf(l.fates, false) + HeldOf(l.spool, false);
  }
}
