/**
  The relay together with what it depends on: one destination's line, the roster, the policy
  and the wake gate, under every kind of event. Permission to relay is decided in the state
  an uplink frame meets, and a peer that leaves takes its line with it.
*/
module RelayWorld {

  import opened Prelude
  import opened Ula
  import opened PolicyModel
  import opened Roster
  import opened Visibility
  import opened RelayLine
  import opened RelayConservation
  import opened RelayRegistryModel
  import opened RelayRouter
  import opened RelayOutcome
  import Identity
  import Registration

  datatype World = World(
    mesh: Mesh,
    policy: Policy,
    proactive: bool,
    line: Line,                 // the relay line of the destination
    woken: Option<Time>,        // its entry in the wake cooldown
    wakes: seq<RelayWake>)      // history: wakes sent to it

  function Start(policy: Policy, proactive: bool): World {
    World(EMPTY_MESH, policy, proactive, FRESH, None, [])
  }

  datatype Event =
    | OnUplink(src: Key, buf: Bytes, now: Time)
    | OnRegistry(op: Op)
    | OnMesh(change: Registration.Op)
    | OnPolicy(policy: Policy)
    | OnGate(proactive: bool)

  /** The peer an operation removes from the roster: the one that leaves, or a silent address holder. */
  ghost function Departing(m: Mesh, op: Registration.Op, timeout: Time): Option<Key> {
    match op
    case OpLeave(id) => if id in m.peers then Some(m.peers[id].pubkey) else None
    case OpRegister(req, claims, _, _, now) =>
      if Registration.AuthorizeFixed(req.requestedUla, claims).Some? || |req.pubkey| != 32 || req.pubkey in m.byPubkey
         || req.requestedUla.None? || req.requestedUla.value.None? then None
      else
        var h := Registration.Holder(m, req.requestedUla.value.value);
        if h.Some? && Registration.Stale(m.peers[h.value], now, timeout) then Some(m.peers[h.value].pubkey) else None
    case _ => None
  }

  ghost function Uplinked(dst: Key, w: World, src: Key, buf: Bytes, now: Time): World {
    var line := RouteOn(w.mesh, w.policy, w.line, dst, src, buf, now);
    if Accepts(w.mesh, w.policy, src, buf, dst)
       && Rouses(w.proactive, w.woken, w.line, line, Decode(buf).value.payload, now) then
      var wake := RelayWake(w.mesh.byPubkey[dst], w.mesh.peers[w.mesh.byPubkey[src]].ula, now);
      w.(line := line, woken := Some(now), wakes := w.wakes + [wake])
    else w.(line := line)
  }

  /** Frames enter the line through the router only; an event that cannot happen changes nothing. */
  ghost function Next(dst: Key, timeout: Time, w: World, e: Event): World {
    match e
    case OnUplink(src, buf, now) => Uplinked(dst, w, src, buf, now)
    case OnRegistry(op) => if !op.OpForward? && Enabled(w.line, op) then w.(line := Step(w.line, op)) else w
    case OnMesh(op) =>
      if !Registration.Enabled(w.mesh, op) then w
      else w.(mesh := Registration.Step(w.mesh, op, timeout),
              line := if Departing(w.mesh, op, timeout) == Some(dst) then DropPubkey(w.line) else w.line)
    case OnPolicy(policy) => w.(policy := policy)
    case OnGate(proactive) => w.(proactive := proactive)
  }

  ghost function Run(dst: Key, timeout: Time, w: World, events: seq<Event>): World {
    if events == [] then w
    else Next(dst, timeout, Run(dst, timeout, w, events[..|events| - 1]), events[|events| - 1])
  }

  // ---------------------------------------------------------------- the index

  lemma AdmitKeepsIndex(m: Mesh, req: Identity.RegisterRequest, claims: Option<Identity.Claims>,
                        observed: Option<string>, newId: PeerId, now: Time)
    ensures m.byPubkey.Keys <= Registration.Admit(m, req, claims, observed, newId, now).mesh.byPubkey.Keys
  {
    hide Identity.Stamp, IsFixedInfra, NetworkSlot;
  }

  lemma RegisterKeepsIndex(m: Mesh, op: Registration.Op, timeout: Time, key: Key)
    requires op.OpRegister? && key in m.byPubkey && Departing(m, op, timeout) != Some(key)
    ensures key in Registration.Step(m, op, timeout).byPubkey
  {
    hide Identity.Stamp, IsFixedInfra, NetworkSlot, Registration.Admit, Registration.AuthorizeFixed, Allocate;
    var m1 := Registration.EvictStaleHolder(m, op.req.requestedUla, op.now, timeout);
    AdmitKeepsIndex(m1, op.req, op.claims, op.observed, op.newId, op.now);
    if op.req.pubkey in m.byPubkey {
      RefreshKeepsIndex(m, m.byPubkey[op.req.pubkey], op.req, op.claims, op.observed, op.now);
    }
  }

  lemma RefreshKeepsIndex(m: Mesh, id: PeerId, req: Identity.RegisterRequest, claims: Option<Identity.Claims>,
                          observed: Option<string>, now: Time)
    ensures Registration.RefreshExisting(m, id, req, claims, observed, now).mesh.byPubkey == m.byPubkey
  {
    hide Identity.Stamp, NetworkSlot;
  }

  /** Only the departure of a peer takes its pubkey out of the index. */
  lemma IndexKept(m: Mesh, op: Registration.Op, timeout: Time, key: Key)
    requires key in m.byPubkey && Departing(m, op, timeout) != Some(key)
    ensures key in Registration.Step(m, op, timeout).byPubkey
  {
    if op.OpRegister? {
      RegisterKeepsIndex(m, op, timeout, key);
    }
    hide Registration.Register;
  }

  // ---------------------------------------------------------------- what every run keeps

  /** Frames are held only for a pubkey that is in the index. */
  predicate HeldForMembers(w: World, dst: Key) {
    w.line.spool != [] ==> dst in w.mesh.byPubkey
  }

  ghost predicate Rested(w: World) {
    && (w.woken == if w.wakes == [] then None else Some(w.wakes[|w.wakes| - 1].timestamp))
    && forall i :: 0 <= i < |w.wakes| - 1 ==> w.wakes[i + 1].timestamp - w.wakes[i].timestamp >= WAKE_COOLDOWN
  }

  ghost predicate Good(w: World, dst: Key) {
    Consistent(w.mesh) && Sound(w.line, []) && HeldForMembers(w, dst) && Rested(w)
  }

  lemma RegistryHolds(l: Line, op: Op)
    requires Enabled(l, op) && !op.OpForward?
    ensures Step(l, op).spool != [] ==> l.spool != []
  {
  }

  lemma UplinkGood(dst: Key, w: World, src: Key, buf: Bytes, now: Time)
    requires Good(w, dst)
    ensures Good(Uplinked(dst, w, src, buf, now), dst)
  {
    hide Consistent, Sound, Forward, CanSee;
    if Accepts(w.mesh, w.policy, src, buf, dst) {
      var payload := Decode(buf).value.payload;
      ForwardSound(w.line, Encode(src, payload), IsHandshake(payload), now);
    }
  }

  lemma NextGood(dst: Key, timeout: Time, w: World, e: Event)
    requires Good(w, dst)
    ensures Good(Next(dst, timeout, w, e), dst)
  {
    hide Consistent, Sound, Uplinked, Step, Departing, Registration.Step, Rested, DropPubkey;
    match e
    case OnUplink(src, buf, now) => UplinkGood(dst, w, src, buf, now);
    case OnRegistry(op) =>
      if !op.OpForward? && Enabled(w.line, op) {
        StepSound(w.line, op);
        RegistryHolds(w.line, op);
      }
      SameWakes(w, Next(dst, timeout, w, e));
    case OnMesh(op) =>
      if Registration.Enabled(w.mesh, op) {
        Registration.StepConsistent(w.mesh, op, timeout);
        if Departing(w.mesh, op, timeout) == Some(dst) {
          DropPubkeySound(w.line);
          Emptied(w.line);
        } else if dst in w.mesh.byPubkey {
          IndexKept(w.mesh, op, timeout, dst);
        }
      }
      SameWakes(w, Next(dst, timeout, w, e));
    case _ => SameWakes(w, Next(dst, timeout, w, e));
  }

  lemma Emptied(l: Line)
    ensures DropPubkey(l).spool == []
  {
  }

  lemma SameWakes(w: World, w': World)
    requires Rested(w) && w'.woken == w.woken && w'.wakes == w.wakes
    ensures Rested(w')
  {
  }

  lemma StartGood(policy: Policy, proactive: bool, dst: Key)
    ensures Good(Start(policy, proactive), dst)
  {
    assert FateFrames([]) == [] && SpoolFrames([]) == [];
  }

  lemma {:induction false} RunGood(dst: Key, timeout: Time, w: World, events: seq<Event>)
    requires Good(w, dst)
    ensures Good(Run(dst, timeout, w, events), dst)
    decreases |events|
  {
    hide Good, Next;
    if events != [] {
      var prior := events[..|events| - 1];
      RunGood(dst, timeout, w, prior);
      NextGood(dst, timeout, Run(dst, timeout, w, prior), events[|events| - 1]);
    }
  }

  /** Over any run a pubkey's spool holds frames only while the pubkey is in the index. */
  lemma SpoolOnlyForMembers(dst: Key, timeout: Time, policy: Policy, proactive: bool, events: seq<Event>)
    ensures var w := Run(dst, timeout, Start(policy, proactive), events);
            Consistent(w.mesh) && (w.line.spool != [] ==> dst in w.mesh.byPubkey)
  {
    StartGood(policy, proactive, dst);
    RunGood(dst, timeout, Start(policy, proactive), events);
  }

  /** However many inits arrive for a cold destination, two wakes of it are at least 5 s apart. */
  lemma WakesAreSpaced(dst: Key, timeout: Time, policy: Policy, proactive: bool, events: seq<Event>, i: nat)
    requires i + 1 < |Run(dst, timeout, Start(policy, proactive), events).wakes|
    ensures var wakes := Run(dst, timeout, Start(policy, proactive), events).wakes;
            wakes[i + 1].timestamp - wakes[i].timestamp >= WAKE_COOLDOWN
  {
    StartGood(policy, proactive, dst);
    RunGood(dst, timeout, Start(policy, proactive), events);
  }

  // ---------------------------------------------------------------- where frames come from

  /** The frame is this uplink: the sender's key in front, the payload untouched, the lane by message type. */
  ghost predicate Is(f: Frame, e: Event) {
    && e.OnUplink? && Decode(e.buf).Some?
    && Decode(f.bytes) == Some(Datagram(e.src, Decode(e.buf).value.payload))
    && f.hiPrio == IsHandshake(Decode(e.buf).value.payload)
  }

  ghost predicate TakenBy(dst: Key, w: World, e: Event) {
    e.OnUplink? && Accepts(w.mesh, w.policy, e.src, e.buf, dst)
  }

  lemma NextSubmits(dst: Key, timeout: Time, w: World, e: Event)
    ensures var s, s' := w.line.submitted, Next(dst, timeout, w, e).line.submitted;
            s' == s || (|s'| == |s| + 1 && s'[..|s|] == s && TakenBy(dst, w, e) && Is(s'[|s|], e))
  {
    hide CanRelay, Departing, Registration.Step, Step;
    match e
    case OnUplink(src, buf, now) =>
      if Accepts(w.mesh, w.policy, src, buf, dst) {
        var payload := Decode(buf).value.payload;
        DecodeExact(Encode(src, payload), Datagram(src, payload));
        DecodeExact(buf, Decode(buf).value);
        ForwardSubmits(w.line, Encode(src, payload), IsHandshake(payload), now);
      }
    case OnRegistry(op) =>
      if !op.OpForward? && Enabled(w.line, op) {
        OnlyForwardSubmits(w.line, op);
      }
    case _ =>
  }

  lemma ForwardSubmits(l: Line, bytes: Bytes, hiPrio: bool, now: Time)
    ensures Forward(l, bytes, hiPrio, now).submitted == l.submitted + [Frame(|l.submitted|, hiPrio, bytes)]
  {
  }

  lemma {:induction false} SubmittedBy(dst: Key, timeout: Time, policy: Policy, proactive: bool, events: seq<Event>, i: nat)
    returns (k: nat)
    requires i < |Run(dst, timeout, Start(policy, proactive), events).line.submitted|
    ensures k < |events|
    ensures TakenBy(dst, Run(dst, timeout, Start(policy, proactive), events[..k]), events[k])
    ensures Is(Run(dst, timeout, Start(policy, proactive), events).line.submitted[i], events[k])
    decreases |events|
  {
    hide Next, Is, TakenBy;
    var n := |events| - 1;
    var before := Run(dst, timeout, Start(policy, proactive), events[..n]);
    NextSubmits(dst, timeout, before, events[n]);
    if i < |before.line.submitted| {
      k := SubmittedBy(dst, timeout, policy, proactive, events[..n], i);
      assert events[..n][..k] == events[..k] && events[..n][k] == events[k];
    } else {
      k := n;
    }
  }

  /**
    The relay is no way round the access check. Over any run of uplinks, socket events,
    registrations, heartbeats, leaves and policy changes, every frame queued for a destination,
    held for it or handed to it is an uplink frame of the run, with the sender's pubkey in front
    and the payload unchanged. When that uplink arrived, sender and destination were both in
    the roster and the policy then in force let them see each other.
  */
  lemma EveryFrameAttributed(dst: Key, timeout: Time, policy: Policy, proactive: bool, events: seq<Event>, f: Frame)
    returns (k: nat, mid: World)
    requires Present(Run(dst, timeout, Start(policy, proactive), events).line, f)
    ensures k < |events| && mid == Run(dst, timeout, Start(policy, proactive), events[..k]) && Is(f, events[k])
    ensures var m, src := mid.mesh, events[k].src;
            && Consistent(m) && src in m.byPubkey && dst in m.byPubkey
            && m.byPubkey[src] in m.peers && m.byPubkey[dst] in m.peers
            && CanSee(mid.policy, m.peers[m.byPubkey[src]].tags, m.peers[m.byPubkey[dst]].tags)
  {
    hide Run, CanSee, Consistent, Sound, Present;
    var start := Start(policy, proactive);
    StartGood(policy, proactive, dst);
    RunGood(dst, timeout, start, events);
    var w := Run(dst, timeout, start, events);
    PresentWasSubmitted(w.line, f);
    var i :| 0 <= i < |w.line.submitted| && w.line.submitted[i] == f;
    k := SubmittedBy(dst, timeout, policy, proactive, events, i);
    mid := Run(dst, timeout, start, events[..k]);
    RunGood(dst, timeout, start, events[..k]);
  }

  /** A hi channel only ever holds messages of type 1, 2 or 3, spool flushes included. */
  lemma HiChannelHoldsHandshakes(dst: Key, timeout: Time, policy: Policy, proactive: bool, events: seq<Event>, f: Frame)
    requires var hi := Run(dst, timeout, Start(policy, proactive), events).line.Conns().hi;
             hi.Some? && f in hi.value.tx.queue
    ensures var d := Decode(f.bytes); d.Some? && d.value.payload != [] && 1 <= d.value.payload[0] <= 3
  {
    var w := Run(dst, timeout, Start(policy, proactive), events);
    var k, mid := EveryFrameAttributed(dst, timeout, policy, proactive, events, f);
    StartGood(policy, proactive, dst);
    RunGood(dst, timeout, Start(policy, proactive), events);
    assert HiPure(w.line);
  }

  // ---------------------------------------------------------------- one uplink, byte by byte

  /** The frame is long enough, names this destination, and both keys are those of peers the policy lets see each other. */
  predicate Passes(dst: Key, w: World, src: Key, buf: Bytes) {
    && |src| == 32 && |buf| >= 33 && buf[..32] == dst
    && src in w.mesh.byPubkey && w.mesh.byPubkey[src] in w.mesh.peers
    && dst in w.mesh.byPubkey && w.mesh.byPubkey[dst] in w.mesh.peers
    && CanSee(w.policy, w.mesh.peers[w.mesh.byPubkey[src]].tags, w.mesh.peers[w.mesh.byPubkey[dst]].tags)
  }

  /** A frame of this priority would be taken at once. */
  predicate Takes(l: Line, hiPrio: bool) {
    var ride := Ride(l, hiPrio);
    ride.Some? && ride.value.tx.open && |ride.value.tx.queue| < ride.value.tx.cap
  }

  /**
    An uplink frame changes the line of `dst` only if it passes. Then it is submitted with the
    sender's key in place of the destination's and every other byte as it was, as a handshake
    frame if and only if the byte after the key is 1, 2 or 3. Such a frame is queued on an open
    hi socket with room and leaves lo alone; any other leaves hi alone.
  */
  lemma UplinkExactly(dst: Key, timeout: Time, w: World, src: Key, buf: Bytes, now: Time)
    ensures var w' := Next(dst, timeout, w, OnUplink(src, buf, now));
            && (w'.line != w.line <==> Passes(dst, w, src, buf))
            && (Passes(dst, w, src, buf) ==>
                  var hiPrio := buf[32] == 1 || buf[32] == 2 || buf[32] == 3;
                  var f := Frame(|w.line.submitted|, hiPrio, src + buf[32..]);
                  && w'.line.submitted == w.line.submitted + [f]
                  && (hiPrio && w.line.Conns().hi.Some? ==> w'.line.Conns().lo == w.line.Conns().lo)
                  && (hiPrio && w.line.Conns().hi.Some? && Takes(w.line, true) ==>
                        w'.line.Conns().hi.Some? && w'.line.Conns().hi.value.tx.queue == w.line.Conns().hi.value.tx.queue + [f])
                  && (!hiPrio ==> w'.line.Conns().hi == w.line.Conns().hi))
  {
    hide CanSee;
    var w' := Next(dst, timeout, w, OnUplink(src, buf, now));
    assert Passes(dst, w, src, buf) <==> Accepts(w.mesh, w.policy, src, buf, dst);
    if Passes(dst, w, src, buf) {
      var payload := buf[32..];
      assert payload[0] == buf[32];
      ForwardSubmits(w.line, src + payload, IsHandshake(payload), now);
      assert |w'.line.submitted| == |w.line.submitted| + 1;
      ForwardOutcomeExactly(w.line, src + payload, IsHandshake(payload), now);
    }
  }

  /**
    A destination is woken if and only if the frame passes, its message type is 1, no socket
    takes it, the gate is on, and no wake went to the destination in the last five seconds.
    The wake names the destination's peer and the sender's address.
  */
  lemma WakesExactly(dst: Key, timeout: Time, w: World, src: Key, buf: Bytes, now: Time)
    ensures var w' := Next(dst, timeout, w, OnUplink(src, buf, now));
            && (w'.wakes != w.wakes <==>
                  && Passes(dst, w, src, buf) && buf[32] == 1 && !Takes(w.line, true) && w.proactive
                  && (w.woken.Some? ==> now - w.woken.value >= 5_000_000))
            && (w'.wakes != w.wakes ==>
                  && w'.wakes == w.wakes + [RelayWake(w.mesh.byPubkey[dst], w.mesh.peers[w.mesh.byPubkey[src]].ula, now)]
                  && w'.woken == Some(now))
            && (w'.wakes == w.wakes ==> w'.woken == w.woken)
  {
    hide CanSee;
    var w' := Next(dst, timeout, w, OnUplink(src, buf, now));
    assert Passes(dst, w, src, buf) <==> Accepts(w.mesh, w.policy, src, buf, dst);
    if Passes(dst, w, src, buf) {
      var payload := buf[32..];
      assert payload[0] == buf[32];
      ForwardOutcomeExactly(w.line, src + payload, IsHandshake(payload), now);
      if buf[32] == 1 {
        TakenChangesEntry(w.line, src + payload, now);
      }
    }
    assert |w'.wakes| != |w.wakes| ==> w'.wakes != w.wakes;
  }

  lemma TakenChangesEntry(l: Line, bytes: Bytes, now: Time)
    ensures Forward(l, bytes, true, now).entry != l.entry <==> Takes(l, true)
  {
    ForwardOutcomeExactly(l, bytes, true, now);
    if Takes(l, true) {
      assert |Ride(Forward(l, bytes, true, now), true).value.tx.queue| == |Ride(l, true).value.tx.queue| + 1;
    }
  }

  /** A line is dropped exactly when its pubkey leaves the index. */
  lemma DepartsExactly(m: Mesh, op: Registration.Op, timeout: Time, key: Key)
    requires Consistent(m) && Registration.Enabled(m, op)
    ensures Departing(m, op, timeout) == Some(key)
            <==> key in m.byPubkey && key !in Registration.Step(m, op, timeout).byPubkey
  {
    if Departing(m, op, timeout) == Some(key) {
      DepartedIsGone(m, op, timeout, key);
    } else if key in m.byPubkey {
      IndexKept(m, op, timeout, key);
    }
  }

  lemma DepartedIsGone(m: Mesh, op: Registration.Op, timeout: Time, key: Key)
    requires Consistent(m) && Departing(m, op, timeout) == Some(key)
    ensures key in m.byPubkey && key !in Registration.Step(m, op, timeout).byPubkey
  {
    if op.OpRegister? {
      var m1 := Registration.EvictStaleHolder(m, op.req.requestedUla, op.now, timeout);
      assert key !in m1.byPubkey && key != op.req.pubkey;
      AdmitAddsOnly(m1, op.req, op.claims, op.observed, op.newId, op.now, key);
    }
  }

  lemma AdmitAddsOnly(m: Mesh, req: Identity.RegisterRequest, claims: Option<Identity.Claims>,
                      observed: Option<string>, newId: PeerId, now: Time, key: Key)
    requires key !in m.byPubkey && key != req.pubkey
    ensures key !in Registration.Admit(m, req, claims, observed, newId, now).mesh.byPubkey
  {
    hide Identity.Stamp, IsFixedInfra, NetworkSlot;
  }
}
