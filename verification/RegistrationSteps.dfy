/**
  A first-time register is not atomic: it awaits between evicting a stale address holder,
  resolving the address and joining. One lock keeps registers apart, but heartbeats and leaves
  need no lock and may come at each of those points.
*/
module RegistrationSteps {

  import opened Prelude
  import opened Ula
  import opened Identity
  import opened Roster
  import opened Registration

  datatype Job = Job(req: RegisterRequest, claims: Option<Claims>, observed: Option<string>, newId: PeerId) {
    function Network(): Network { Stamp(req, claims).network }
  }

  /** How far the register that holds the lock has come. */
  datatype Phase =
    | Unlocked
    | Evicting(job: Job, holder: PeerId)
    | Resolving(job: Job)
    | Joins(job: Job, ula: Addr)

  datatype State = State(mesh: Mesh, phase: Phase)

  datatype Event =
    | Begin(job: Job, now: Time)
    | Evict
    | Resolve
    | Join(now: Time)
    | Heartbeat(event: PeerHeartbeat, now: Time)
    | Leave(id: PeerId)

  predicate Enabled(s: State, e: Event) {
    match e
    case Begin(job, _) => s.phase.Unlocked? && job.newId !in s.mesh.peers
    case Evict => s.phase.Evicting?
    case Resolve => s.phase.Resolving?
    case Join(_) => s.phase.Joins?
    case Heartbeat(_, _) => true
    case Leave(_) => true
  }

  /** The silent holder that a register decides to evict. */
  ghost function Victim(m: Mesh, requested: Option<Option<Addr>>, now: Time, timeout: Time): (r: Option<PeerId>)
    ensures r.Some? ==> r.value in m.peers && Stale(m.peers[r.value], now, timeout)
  {
    if requested.None? || requested.value.None? then None
    else
      var h := Holder(m, requested.value.value);
      if h.Some? && Stale(m.peers[h.value], now, timeout) then h else None
  }

  ghost function Begun(m: Mesh, job: Job, now: Time, timeout: Time): State {
    if AuthorizeFixed(job.req.requestedUla, job.claims).Some? || |job.req.pubkey| != 32 then State(m, Unlocked)
    else if job.req.pubkey in m.byPubkey then
      State(RefreshExisting(m, m.byPubkey[job.req.pubkey], job.req, job.claims, job.observed, now).mesh, Unlocked)
    else
      var v := Victim(m, job.req.requestedUla, now, timeout);
      State(m, if v.Some? then Evicting(job, v.value) else Resolving(job))
  }

  function Resolved(m: Mesh, job: Job): State {
    var (m', ula) := ResolveUla(m, job.Network(), job.req.requestedUla);
    State(m', if ula.Ok? then Joins(job, ula.value) else Unlocked)
  }

  function Joined(m: Mesh, job: Job, ula: Addr, now: Time): Outcome {
    var (m', r) := ApplyJoined(m, Joining(job.req, Stamp(job.req, job.claims), job.newId, ula), now);
    Observe(Outcome(m', r), job.observed)
  }

  ghost function Next(s: State, e: Event, timeout: Time): State
    requires Enabled(s, e)
  {
    match e
    case Begin(job, now) => Begun(s.mesh, job, now, timeout)
    case Evict => State(ApplyLeft(s.mesh, s.phase.holder), Resolving(s.phase.job))
    case Resolve => Resolved(s.mesh, s.phase.job)
    case Join(now) => State(Joined(s.mesh, s.phase.job, s.phase.ula, now).mesh, Unlocked)
    case Heartbeat(event, now) => s.(mesh := ApplyHeartbeat(s.mesh, event, now))
    case Leave(id) => s.(mesh := ApplyLeft(s.mesh, id))
  }

  ghost predicate Reaches(s: State, events: seq<Event>, s': State, timeout: Time)
    decreases |events|
  {
    if events == [] then s' == s
    else Enabled(s, events[0]) && Reaches(Next(s, events[0], timeout), events[1..], s', timeout)
  }

  // ---------------------------------------------------------------- what every interleaving keeps

  /** The job's key and id are still new, and an address once resolved is still free. */
  ghost predicate StillOpen(m: Mesh, phase: Phase) {
    && (!phase.Unlocked? ==> phase.job.newId !in m.peers && phase.job.req.pubkey !in m.byPubkey)
    && (phase.Joins? ==> forall p :: p in m.peers ==> m.peers[p].ula != phase.ula)
  }

  ghost predicate Safe(s: State) {
    Consistent(s.mesh) && StillOpen(s.mesh, s.phase)
  }

  lemma LeaveStillOpen(m: Mesh, id: PeerId, phase: Phase)
    requires StillOpen(m, phase)
    ensures StillOpen(ApplyLeft(m, id), phase)
  {
  }

  lemma HeartbeatStillOpen(m: Mesh, e: PeerHeartbeat, now: Time, phase: Phase)
    requires StillOpen(m, phase)
    ensures StillOpen(ApplyHeartbeat(m, e, now), phase)
  {
  }

  /** Whatever came in between, the join at the end succeeds, at the resolved address. */
  lemma JoinSucceeds(m: Mesh, job: Job, ula: Addr, now: Time)
    requires Safe(State(m, Joins(job, ula)))
    ensures var o := Joined(m, job, ula, now);
            && Consistent(o.mesh) && o.result.Ok? && o.mesh.peers == m.peers[job.newId := o.result.value]
            && o.result.value.peerId == job.newId && o.result.value.ula == ula && o.result.value.pubkey == job.req.pubkey
  {
    hide Consistent, Stamp, ApplyJoined;
    var e := Joining(job.req, Stamp(job.req, job.claims), job.newId, ula);
    NewPeerJoins(m, e, now);
    ObserveConsistent(Outcome(ApplyJoined(m, e, now).0, ApplyJoined(m, e, now).1), job.observed);
  }

  lemma BeginSafe(m: Mesh, job: Job, now: Time, timeout: Time)
    requires Consistent(m) && job.newId !in m.peers
    ensures Safe(Begun(m, job, now, timeout))
  {
    hide Consistent, RefreshExisting, AuthorizeFixed, Victim;
    if job.req.pubkey in m.byPubkey {
      RefreshSafe(m, job.req, job.claims, job.observed, now, timeout);
    }
  }

  lemma ResolveSafe(m: Mesh, job: Job)
    requires Safe(State(m, Resolving(job)))
    ensures Safe(Resolved(m, job))
  {
    hide Consistent, ResolveUla, Stamp;
    ResolveConsistent(m, job.Network(), job.req.requestedUla);
  }

  lemma NextSafe(s: State, e: Event, timeout: Time)
    requires Safe(s) && Enabled(s, e)
    ensures Safe(Next(s, e, timeout))
  {
    hide Consistent, StillOpen, ApplyLeft, ApplyHeartbeat, Begun, Resolved, Joined;
    match e
    case Begin(job, now) => BeginSafe(s.mesh, job, now, timeout);
    case Evict =>
      LeaveConsistent(s.mesh, s.phase.holder);
      LeaveStillOpen(s.mesh, s.phase.holder, s.phase);
      SamePhase(ApplyLeft(s.mesh, s.phase.holder), s.phase, Resolving(s.phase.job));
    case Resolve => ResolveSafe(s.mesh, s.phase.job);
    case Join(now) =>
      JoinSucceeds(s.mesh, s.phase.job, s.phase.ula, now);
      NothingOpen(Joined(s.mesh, s.phase.job, s.phase.ula, now).mesh);
    case Heartbeat(event, now) =>
      HeartbeatConsistent(s.mesh, event, now);
      HeartbeatStillOpen(s.mesh, event, now, s.phase);
    case Leave(id) =>
      LeaveConsistent(s.mesh, id);
      LeaveStillOpen(s.mesh, id, s.phase);
  }

  lemma SamePhase(m: Mesh, phase: Phase, next: Phase)
    requires StillOpen(m, phase) && phase.Evicting? && next == Resolving(phase.job)
    ensures StillOpen(m, next)
  {
  }

  lemma NothingOpen(m: Mesh)
    ensures StillOpen(m, Unlocked)
  {
  }

  /**
    With heartbeats and leaves at every await point of every register, roster and index stay
    inverse, addresses distinct and counters ahead, and no register ever fails at its join.
  */
  lemma {:induction false} EveryInterleavingSafe(s: State, events: seq<Event>, s': State, timeout: Time)
    requires Safe(s) && Reaches(s, events, s', timeout)
    ensures Safe(s')
    ensures s'.phase.Joins? ==> forall now :: Joined(s'.mesh, s'.phase.job, s'.phase.ula, now).result.Ok?
    decreases |events|
  {
    if events == [] {
      if s.phase.Joins? {
        forall now ensures Joined(s.mesh, s.phase.job, s.phase.ula, now).result.Ok? {
          JoinSucceeds(s.mesh, s.phase.job, s.phase.ula, now);
        }
      }
    } else {
      NextSafe(s, events[0], timeout);
      EveryInterleavingSafe(Next(s, events[0], timeout), events[1..], s', timeout);
    }
  }

  /** Left alone, the steps are the atomic register. */
  lemma UninterruptedIsRegister(m: Mesh, job: Job, now: Time, timeout: Time)
    requires Consistent(m) && job.newId !in m.peers
    ensures var s1 := Begun(m, job, now, timeout);
            var s2 := if s1.phase.Evicting? then Next(s1, Evict, timeout) else s1;
            var s3 := if s2.phase.Resolving? then Next(s2, Resolve, timeout) else s2;
            var s4 := if s3.phase.Joins? then Next(s3, Join(now), timeout) else s3;
            s4 == State(Register(m, job.req, job.claims, job.observed, job.newId, now, timeout).mesh, Unlocked)
  {
    hide Consistent, Stamp, ResolveUla, ApplyJoined, RefreshExisting, Observe, AuthorizeFixed;
    var s1 := Begun(m, job, now, timeout);
    if !s1.phase.Unlocked? {
      var m1 := EvictStaleHolder(m, job.req.requestedUla, now, timeout);
      var s2 := if s1.phase.Evicting? then Next(s1, Evict, timeout) else s1;
      assert s2 == State(m1, Resolving(job));
      var s3 := Next(s2, Resolve, timeout);
      var o := Admit(m1, job.req, job.claims, job.observed, job.newId, now);
      if s3.phase.Joins? {
        assert Joined(s3.mesh, job, s3.phase.ula, now) == o;
        assert Next(s3, Join(now), timeout) == State(o.mesh, Unlocked);
      } else {
        var (m2, ula) := ResolveUla(m1, Stamp(job.req, job.claims).network, job.req.requestedUla);
        assert s3 == State(m2, Unlocked) && ula.Err?;
        assert o == Outcome(m2, Err(ula.error));
      }
      assert Register(m, job.req, job.claims, job.observed, job.newId, now, timeout) == o;
    }
  }

  // ---------------------------------------------------------------- the staleness gate

  /** While a register awaits, others send heartbeats in the order of the clock, or leave. */
  ghost predicate Meanwhile(events: seq<Event>) {
    && (forall i :: 0 <= i < |events| ==> events[i].Heartbeat? || events[i].Leave?)
    && (forall i, j :: 0 <= i < j < |events| && events[i].Heartbeat? && events[j].Heartbeat? ==> events[i].now <= events[j].now)
  }

  predicate IsHeard(e: Event, p: PeerId, since: int) {
    e.Heartbeat? && e.event.peerId == Some(p) && e.now >= since
  }

  /** The peer was heard from at `since` or later. */
  ghost predicate Heard(events: seq<Event>, p: PeerId, since: int) {
    exists i :: 0 <= i < |events| && IsHeard(events[i], p, since)
  }

  lemma MeanwhileRest(events: seq<Event>)
    requires events != [] && Meanwhile(events)
    ensures Meanwhile(events[1..])
    ensures events[0].Heartbeat? ==> forall i :: 0 <= i < |events[1..]| && events[1..][i].Heartbeat? ==> events[0].now <= events[1..][i].now
  {
    assert forall i :: 0 <= i < |events[1..]| ==> events[1..][i] == events[i + 1];
  }

  lemma HeardRest(events: seq<Event>, p: PeerId, since: int)
    requires events != []
    ensures Heard(events, p, since) <==> IsHeard(events[0], p, since) || Heard(events[1..], p, since)
  {
    if i :| 0 <= i < |events| && IsHeard(events[i], p, since) {
      if i > 0 {
        assert IsHeard(events[1..][i - 1], p, since);
      }
    }
    if i :| 0 <= i < |events[1..]| && IsHeard(events[1..][i], p, since) {
      assert IsHeard(events[i + 1], p, since);
    }
  }

  lemma NextHeard(s: State, e: Event, timeout: Time, p: PeerId)
    requires (e.Heartbeat? || e.Leave?) && p in Next(s, e, timeout).mesh.peers
    ensures var s' := Next(s, e, timeout);
            && p in s.mesh.peers && s'.phase == s.phase
            && s'.mesh.peers[p].lastHeartbeat == if IsHeard(e, p, 0) then e.now else s.mesh.peers[p].lastHeartbeat
  {
  }

  lemma {:induction false} PresentBefore(s: State, events: seq<Event>, s': State, timeout: Time, p: PeerId)
    requires Meanwhile(events) && Reaches(s, events, s', timeout) && p in s'.mesh.peers
    ensures p in s.mesh.peers
    decreases |events|
  {
    hide Next;
    if events != [] {
      MeanwhileRest(events);
      PresentBefore(Next(s, events[0], timeout), events[1..], s', timeout, p);
      NextHeard(s, events[0], timeout, p);
    }
  }

  lemma {:induction false} LiveStaysLive(s: State, events: seq<Event>, s': State, timeout: Time, p: PeerId, since: int)
    requires Meanwhile(events) && Reaches(s, events, s', timeout) && p in s.mesh.peers && p in s'.mesh.peers
    requires s.mesh.peers[p].lastHeartbeat >= since
    requires forall i :: 0 <= i < |events| && events[i].Heartbeat? ==> events[i].now >= since
    ensures s'.mesh.peers[p].lastHeartbeat >= since
    decreases |events|
  {
    hide Next;
    if events != [] {
      MeanwhileRest(events);
      PresentBefore(Next(s, events[0], timeout), events[1..], s', timeout, p);
      NextHeard(s, events[0], timeout, p);
      LiveStaysLive(Next(s, events[0], timeout), events[1..], s', timeout, p, since);
    }
  }

  lemma {:induction false} SilentExactly(s: State, events: seq<Event>, s': State, timeout: Time, p: PeerId, since: int)
    requires Meanwhile(events) && Reaches(s, events, s', timeout) && p in s'.mesh.peers && p in s.mesh.peers
    requires s.mesh.peers[p].lastHeartbeat < since
    ensures s'.mesh.peers[p].lastHeartbeat < since <==> !Heard(events, p, since)
    decreases |events|
  {
    hide Next;
    if events != [] {
      var next := Next(s, events[0], timeout);
      MeanwhileRest(events);
      HeardRest(events, p, since);
      PresentBefore(next, events[1..], s', timeout, p);
      NextHeard(s, events[0], timeout, p);
      if IsHeard(events[0], p, since) {
        LiveStaysLive(next, events[1..], s', timeout, p, since);
      } else {
        SilentExactly(next, events[1..], s', timeout, p, since);
      }
    }
  }

  /**
    The staleness gate over the await. The decision to evict is not taken again, so at the
    removal the holder is still silent if and only if it was not heard from, within the
    timeout, after the decision.
  */
  lemma EvictedSilentExactly(m: Mesh, job: Job, decided: Time, events: seq<Event>, s: State, now: Time, timeout: Time)
    requires decided <= now && Begun(m, job, decided, timeout).phase.Evicting?
    requires Meanwhile(events) && Reaches(Begun(m, job, decided, timeout), events, s, timeout)
    requires Begun(m, job, decided, timeout).phase.holder in s.mesh.peers
    ensures var holder := Begun(m, job, decided, timeout).phase.holder;
            Stale(s.mesh.peers[holder], now, timeout) <==> !Heard(events, holder, now - timeout)
  {
    var begun := Begun(m, job, decided, timeout);
    SilentExactly(begun, events, s, timeout, begun.phase.holder, now - timeout);
  }

  /** A heartbeat in between comes too late: the holder is live again, and removed all the same. */
  lemma HeartbeatComesTooLate(s: State, beat: PeerHeartbeat, now: Time, timeout: Time)
    requires s.phase.Evicting? && beat.peerId == Some(s.phase.holder) && s.phase.holder in s.mesh.peers
    ensures var heard := Next(s, Heartbeat(beat, now), timeout);
            && heard.phase == s.phase && !Stale(heard.mesh.peers[s.phase.holder], now, timeout)
            && s.phase.holder !in Next(heard, Evict, timeout).mesh.peers
  {
  }
}
