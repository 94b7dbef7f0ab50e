/**
  How old a frame can be when it is handed over. The machine of `RelayLine` with three more
  histories: when each frame was submitted, each hold of it, and when it was handed over.
*/
module RelayAge {

  import opened Prelude
  import opened RelayLine

  datatype HandOver = HandOver(arrival: nat, at: Time)

  datatype Aged = Aged(
    line: Line,
    since: seq<Time>,           // submission time, by arrival
    holds: seq<nat>,            // arrival of a frame, once for each time it was held
    handed: seq<HandOver>)

  const NEWBORN := Aged(FRESH, [], [], [])

  /** How often a frame has been held. */
  function Holds(a: Aged, arrival: nat): nat {
    multiset(a.holds)[arrival]
  }

  /** The age that so many holds allow. */
  function Allowance(holds: nat): nat { holds * SPOOL_TTL }

  lemma AllowanceGrows(k: nat)
    ensures Allowance(k + 1) == Allowance(k) + SPOOL_TTL && Allowance(0) == 0
  {
  }

  // ---------------------------------------------------------------- the machine

  function RouteAged(a: Aged, f: Frame, now: Time): Aged {
    var a', lane := a.(line := Route(a.line, f, now)), a.line.Conns().Pick(f.hiPrio);
    if lane.None? || !a.line.Conns().Slot(lane.value).value.tx.open then a'.(holds := a.holds + [f.arrival])
    else if a.line.Conns().Slot(lane.value).value.tx.Full() then a'
    else a'.(handed := a.handed + [HandOver(f.arrival, now)])
  }

  function FlushOneAged(a: Aged, sf: SpooledFrame, now: Time): Aged {
    if Stale(sf, now) then a.(line := FlushOne(a.line, sf, now)) else RouteAged(a, sf.frame, now)
  }

  function FlushAged(a: Aged, held: seq<SpooledFrame>, now: Time): (a': Aged)
    ensures a'.line == Flush(a.line, held, now)
    decreases |held|
  {
    if held == [] then a else FlushAged(FlushOneAged(a, held[0], now), held[1..], now)
  }

  function StepAged(a: Aged, op: Op): (a': Aged)
    requires Enabled(a.line, op)
    ensures a'.line == Step(a.line, op)
  {
    match op
    case OpForward(bytes, hiPrio, now) =>
      var f := Frame(|a.line.submitted|, hiPrio, bytes);
      RouteAged(a.(line := a.line.(submitted := a.line.submitted + [f]), since := a.since + [now]), f, now)
    case OpRegister(lane, id, cap, open, now) =>
      FlushAged(a.(line := Install(a.line, lane, id, Channel(cap, [], open))), a.line.spool, now)
    case _ => a.(line := Step(a.line, op))
  }

  ghost predicate Reaches(a: Aged, ops: seq<Op>, a': Aged)
    decreases |ops|
  {
    if ops == [] then a' == a
    else Enabled(a.line, ops[0]) && Reaches(StepAged(a, ops[0]), ops[1..], a')
  }

  // ---------------------------------------------------------------- what it keeps

  /** Held within the time its earlier holds allow. */
  ghost predicate HeldInTime(a: Aged, sf: SpooledFrame) {
    && sf.frame.arrival < |a.since| && Holds(a, sf.frame.arrival) >= 1
    && sf.at + SPOOL_TTL <= a.since[sf.frame.arrival] + Allowance(Holds(a, sf.frame.arrival))
  }

  ghost predicate HandedInTime(a: Aged, h: HandOver) {
    h.arrival < |a.since| && h.at <= a.since[h.arrival] + Allowance(Holds(a, h.arrival))
  }

  /** `rest` holds the frames a flush has not routed yet. */
  ghost predicate InTime(a: Aged, rest: seq<SpooledFrame>) {
    && |a.since| == |a.line.submitted|
    && (forall i :: 0 <= i < |a.line.spool| ==> HeldInTime(a, a.line.spool[i]))
    && (forall i :: 0 <= i < |rest| ==> HeldInTime(a, rest[i]))
    && (forall i :: 0 <= i < |a.handed| ==> HandedInTime(a, a.handed[i]))
  }

  lemma HeldMore(a: Aged, a': Aged, arrival: nat)
    requires a.since <= a'.since && a'.holds == a.holds + [arrival]
    ensures forall sf :: HeldInTime(a, sf) ==> HeldInTime(a', sf)
    ensures forall h :: HandedInTime(a, h) ==> HandedInTime(a', h)
    ensures Holds(a', arrival) == Holds(a, arrival) + 1
  {
    hide Allowance;
    assert forall n :: Holds(a', n) == Holds(a, n) + if n == arrival then 1 else 0;
    AllowanceGrows(Holds(a, arrival));
  }

  lemma RouteInTime(a: Aged, f: Frame, rest: seq<SpooledFrame>, now: Time)
    requires InTime(a, rest) && f.arrival < |a.since|
    requires now <= a.since[f.arrival] + Allowance(Holds(a, f.arrival))
    ensures InTime(RouteAged(a, f, now), rest)
  {
    hide Allowance, Holds;
    var a' := RouteAged(a, f, now);
    if a'.holds != a.holds {
      HeldMore(a, a', f.arrival);
      AllowanceGrows(Holds(a, f.arrival));
      assert a'.line == Hold(a.line, f, now);
    } else {
      assert a'.line.spool == a.line.spool;
      assert forall sf :: HeldInTime(a, sf) ==> HeldInTime(a', sf) by { SameHolds(a, a'); }
      assert forall h :: HandedInTime(a, h) ==> HandedInTime(a', h) by { SameHolds(a, a'); }
    }
  }

  lemma SameHolds(a: Aged, a': Aged)
    requires a'.since == a.since && a'.holds == a.holds
    ensures forall n :: Holds(a', n) == Holds(a, n)
  {
  }

  lemma {:induction false} FlushInTime(a: Aged, held: seq<SpooledFrame>, now: Time)
    requires InTime(a, held)
    ensures InTime(FlushAged(a, held, now), [])
    decreases |held|
  {
    hide Allowance, Holds, RouteAged;
    if held != [] {
      var sf, rest := held[0], held[1..];
      assert HeldInTime(a, sf);
      if Stale(sf, now) {
        Untouched(a, FlushOneAged(a, sf, now), held, rest);
      } else {
        RouteInTime(a, sf.frame, rest, now);
      }
      FlushInTime(FlushOneAged(a, sf, now), rest, now);
    }
  }

  /** Steps that only drop frames. */
  lemma Untouched(a: Aged, a': Aged, rest: seq<SpooledFrame>, rest': seq<SpooledFrame>)
    requires InTime(a, rest) && a' == a.(line := a'.line) && a'.line.submitted == a.line.submitted
    requires forall sf :: sf in a'.line.spool || sf in rest' ==> sf in a.line.spool || sf in rest
    ensures InTime(a', rest')
  {
    hide Allowance, Holds;
    SameHolds(a, a');
    forall sf | sf in a'.line.spool || sf in rest' ensures HeldInTime(a', sf) {
      assert HeldInTime(a, sf);
    }
  }

  lemma ForwardInTime(a: Aged, bytes: Bytes, hiPrio: bool, now: Time)
    requires InTime(a, [])
    ensures InTime(StepAged(a, OpForward(bytes, hiPrio, now)), [])
  {
    hide Allowance, Holds, RouteAged;
    var f := Frame(|a.line.submitted|, hiPrio, bytes);
    var a1 := a.(line := a.line.(submitted := a.line.submitted + [f]), since := a.since + [now]);
    SameCounts(a, a1);
    RouteInTime(a1, f, [], now);
  }

  lemma SameCounts(a: Aged, a': Aged)
    requires a.since <= a'.since && a'.holds == a.holds
    ensures forall sf :: HeldInTime(a, sf) ==> HeldInTime(a', sf)
    ensures forall h :: HandedInTime(a, h) ==> HandedInTime(a', h)
  {
  }

  lemma StepInTime(a: Aged, op: Op)
    requires Enabled(a.line, op) && InTime(a, [])
    ensures InTime(StepAged(a, op), [])
  {
    hide Allowance, Holds, HeldInTime, HandedInTime, RouteAged, FlushAged, Route, Flush;
    match op
    case OpForward(bytes, hiPrio, now) => ForwardInTime(a, bytes, hiPrio, now);
    case OpRegister(lane, id, cap, open, now) =>
      var a1 := a.(line := Install(a.line, lane, id, Channel(cap, [], open)));
      Untouched(a, a1, [], a.line.spool);
      FlushInTime(a1, a.line.spool, now);
    case _ => Untouched(a, StepAged(a, op), [], []);
  }

  lemma {:induction false} RunInTime(a: Aged, ops: seq<Op>, a': Aged)
    requires InTime(a, []) && Reaches(a, ops, a')
    ensures InTime(a', [])
    decreases |ops|
  {
    if ops != [] {
      hide InTime, StepAged;
      StepInTime(a, ops[0]);
      RunInTime(StepAged(a, ops[0]), ops[1..], a');
    }
  }

  // ---------------------------------------------------------------- the history is the line's own

  /** Arrival stamps of everything handed over. */
  function HandedArrivals(fs: seq<Fate>): seq<nat> {
    if fs == [] then []
    else
      var f := fs[|fs| - 1];
      HandedArrivals(fs[..|fs| - 1]) + if f.Handed? then [f.frame.arrival] else []
  }

  function Arrivals(hs: seq<HandOver>): seq<nat> {
    seq(|hs|, i requires 0 <= i < |hs| => hs[i].arrival)
  }

  ghost predicate Recorded(a: Aged) {
    HandedArrivals(a.line.fates) == Arrivals(a.handed)
  }

  lemma OneMoreFate(fs: seq<Fate>, f: Fate)
    ensures HandedArrivals(fs + [f]) == HandedArrivals(fs) + if f.Handed? then [f.frame.arrival] else []
  {
    assert (fs + [f])[..|fs|] == fs;
  }

  lemma {:induction false} DropsHandNothing(fs: seq<Fate>, why: Reason, q: seq<SpooledFrame>)
    ensures HandedArrivals(fs + DropAll(why, q)) == HandedArrivals(fs)
    decreases |q|
  {
    if q == [] {
      assert fs + DropAll(why, q) == fs;
    } else {
      var n := |q| - 1;
      assert fs + DropAll(why, q) == fs + DropAll(why, q[..n]) + [Dropped(why, q[n].frame)];
      DropsHandNothing(fs, why, q[..n]);
      OneMoreFate(fs + DropAll(why, q[..n]), Dropped(why, q[n].frame));
    }
  }

  lemma RouteRecorded(a: Aged, f: Frame, now: Time)
    requires Recorded(a)
    ensures Recorded(RouteAged(a, f, now))
  {
    hide HandedArrivals;
    var l, l' := a.line, Route(a.line, f, now);
    if l'.fates != l.fates {
      assert l'.fates == l.fates + [l'.fates[|l.fates|]];
      OneMoreFate(l.fates, l'.fates[|l.fates|]);
    }
  }

  lemma {:induction false} FlushRecorded(a: Aged, held: seq<SpooledFrame>, now: Time)
    requires Recorded(a)
    ensures Recorded(FlushAged(a, held, now))
    decreases |held|
  {
    hide HandedArrivals, RouteAged, Route;
    if held != [] {
      if Stale(held[0], now) {
        OneMoreFate(a.line.fates, Dropped(Expired, held[0].frame));
      } else {
        RouteRecorded(a, held[0].frame, now);
      }
      FlushRecorded(FlushOneAged(a, held[0], now), held[1..], now);
    }
  }

  lemma StepRecorded(a: Aged, op: Op)
    requires Enabled(a.line, op) && Recorded(a)
    ensures Recorded(StepAged(a, op))
  {
    hide HandedArrivals, RouteAged, Route, Flush;
    match op
    case OpForward(bytes, hiPrio, now) =>
      var f := Frame(|a.line.submitted|, hiPrio, bytes);
      RouteRecorded(a.(line := a.line.(submitted := a.line.submitted + [f]), since := a.since + [now]), f, now);
    case OpRegister(lane, id, cap, open, now) =>
      FlushRecorded(a.(line := Install(a.line, lane, id, Channel(cap, [], open))), a.line.spool, now);
    case OpDropPubkey => DropsHandNothing(a.line.fates, Cleared, a.line.spool);
    case OpReapExpired(now) => DropsHandNothing(a.line.fates, Expired, Lose(a.line.spool, now));
    case _ =>
  }

  /** The recorded hand-overs are the line's, one for one and in order. */
  lemma {:induction false} HandOversAreRecorded(a: Aged, ops: seq<Op>, a': Aged)
    requires Recorded(a) && Reaches(a, ops, a')
    ensures Recorded(a')
    decreases |ops|
  {
    if ops != [] {
      hide Recorded, StepAged;
      StepRecorded(a, ops[0]);
      HandOversAreRecorded(StepAged(a, ops[0]), ops[1..], a');
    }
  }

  /**
    The spool's time to live bounds each hold. In every run a frame is handed over at most
    `SPOOL_TTL` after its submission for each time it was held: at once if it never was, and
    within the time to live if it was held once. The hand-overs meant are all of the line's.
  */
  lemma AgeBoundedByHolds(ops: seq<Op>, a: Aged)
    requires Reaches(NEWBORN, ops, a)
    ensures HandedArrivals(a.line.fates) == Arrivals(a.handed) && |a.since| == |a.line.submitted|
    ensures forall i :: 0 <= i < |a.handed| ==>
              var h := a.handed[i];
              h.arrival < |a.since| && h.at - a.since[h.arrival] <= Holds(a, h.arrival) * SPOOL_TTL
  {
    RunInTime(NEWBORN, ops, a);
    HandOversAreRecorded(NEWBORN, ops, a);
    forall i | 0 <= i < |a.handed| ensures HandedInTime(a, a.handed[i]) {
    }
  }
}
