/**
  The reaper against the back-off. A pair is reaped one time to live after its last emit, and
  the cooldown grows up to the very same time, so a decayed pair can be forgotten between two
  claims although its peers are alive.
*/
module PunchSweep {

  import opened Prelude
  import opened HolePunch

  /** The periodic sweep at `now`, as seen by one pair. */
  function Sweep(st: Option<PunchState>, now: int): Option<PunchState> {
    Reap(st, now - PAIR_TTL)
  }

  /** A sweep forgets a pair, and with it the streak, exactly when its last emit is older than the time to live. */
  predicate Forgets(st: Option<PunchState>, now: int) {
    st.Some? && now > st.value.lastEmit + PAIR_TTL
  }

  lemma SweepForgetsExactly(st: Option<PunchState>, now: int)
    ensures Sweep(st, now) == if Forgets(st, now) then None else st
  {
  }

  /** A pair claimed once every `period` is claimed by `claim` at the latest after it becomes due. */
  predicate ClaimedOnceDue(st: PunchState, claim: int, period: nat) {
    0 <= claim - (st.lastEmit + ReemitCooldown(st.streak)) <= period
  }

  /** No sweep before the next due claim forgets the pair. */
  ghost predicate SafeFromSweeps(st: PunchState, period: nat) {
    forall claim, sweep :: ClaimedOnceDue(st, claim, period) && sweep <= claim ==> Sweep(Some(st), sweep) == Some(st)
  }

  /**
    A live pair is safe from the reaper if and only if its cooldown leaves room for one more
    claim period within the time to live. From streak 5 on, outside the overflowing streaks,
    it leaves none: any delay at all lets a sweep forget the pair.
  */
  lemma LivePairSafeExactly(st: PunchState, period: nat)
    requires !Overflows(st.streak)
    ensures SafeFromSweeps(st, period) <==> ReemitCooldown(st.streak) + period <= PAIR_TTL
    ensures st.streak >= 5 ==> (SafeFromSweeps(st, period) <==> period == 0)
    ensures st.streak < 5 && period <= 60_000_000 ==> SafeFromSweeps(st, period)
  {
    CooldownFollowsLawExactly(st.streak);
    IntendedSteps(st.streak);
    hide ReemitCooldown, IntendedCooldown;
    var last := st.lastEmit + ReemitCooldown(st.streak) + period;
    if ReemitCooldown(st.streak) + period > PAIR_TTL {
      assert ClaimedOnceDue(st, last, period) && Sweep(Some(st), last) == None;
    }
  }

  /**
    What being forgotten does to the back-off: after it, a claim and another one 15 s later
    are both granted. Without the sweep the second is granted only at an overflowing streak.
  */
  lemma ForgottenPairStartsOver(st: PunchState, sweep: int, now: int)
    requires Forgets(Some(st), sweep) && sweep <= now && 0 < st.streak < U32_MAX && !Overflows(st.streak)
    ensures var again := ClaimPair(Sweep(Some(st), sweep), now, true);
            again == (Some(PunchState(now, 0)), true) && ClaimPair(again.0, now + BASE, true).1
    ensures var kept := ClaimPair(Some(st), now, true);
            kept.1 && (ClaimPair(kept.0, now + BASE, true).1 <==> Overflows(st.streak + 1))
  {
    CooldownFollowsLawExactly(0);
    CooldownFollowsLawExactly(st.streak);
    CooldownFollowsLawExactly(st.streak + 1);
    IntendedSteps(st.streak + 1);
    hide ReemitCooldown, IntendedCooldown;
  }

  // ---------------------------------------------------------------- claims and sweeps over runs

  datatype Event = Claim(now: int, token: bool) | SweepAt(now: int)

  /** A pair, every emit of it with the streak it left, and the latest clock reading. */
  datatype Swept = Swept(st: Option<PunchState>, emits: seq<int>, streaks: seq<nat>, clock: int)

  function Untracked(clock: int): Swept { Swept(None, [], [], clock) }

  function Next(t: Swept, e: Event): Swept {
    match e
    case Claim(now, token) =>
      var (st, ok) := ClaimPair(t.st, now, token);
      if ok then Swept(st, t.emits + [now], t.streaks + [st.value.streak], now) else t.(clock := now)
    case SweepAt(now) => t.(st := Sweep(t.st, now), clock := now)
  }

  ghost predicate Reaches(t: Swept, events: seq<Event>, t': Swept)
    decreases |events|
  {
    if events == [] then t' == t
    else t.clock <= events[0].now && Reaches(Next(t, events[0]), events[1..], t')
  }

  /** One gap: the streak went up and the cooldown was kept, or it started over after the time to live. */
  predicate GapKept(gap: int, streak: nat, next: nat) {
    || (next == (if streak < U32_MAX then streak + 1 else U32_MAX) && gap >= ReemitCooldown(streak))
    || (next == 0 && gap > PAIR_TTL)
  }

  ghost predicate Kept(t: Swept) {
    && |t.emits| == |t.streaks|
    && (forall k :: 0 <= k < |t.emits| - 1 ==> GapKept(t.emits[k + 1] - t.emits[k], t.streaks[k], t.streaks[k + 1]))
    && (t.emits == [] ==> t.st.None?)
    && (t.emits != [] ==>
          var n := |t.emits| - 1;
          && t.emits[n] <= t.clock
          && (t.st == Some(PunchState(t.emits[n], t.streaks[n])) || (t.st.None? && t.clock > t.emits[n] + PAIR_TTL)))
  }

  lemma NextKept(t: Swept, e: Event)
    requires Kept(t) && t.clock <= e.now
    ensures Kept(Next(t, e))
  {
    hide ReemitCooldown;
    var t' := Next(t, e);
    if |t'.emits| > |t.emits| && t.emits != [] {
      var n := |t.emits| - 1;
      assert GapKept(t'.emits[n + 1] - t'.emits[n], t'.streaks[n], t'.streaks[n + 1]);
      assert forall k :: 0 <= k <= n ==> t'.emits[k] == t.emits[k] && t'.streaks[k] == t.streaks[k];
    }
  }

  lemma {:induction false} RunKept(t: Swept, events: seq<Event>, t': Swept)
    requires Kept(t) && Reaches(t, events, t')
    ensures Kept(t')
    decreases |events|
  {
    hide Kept, Next;
    if events != [] {
      NextKept(t, events[0]);
      RunKept(Next(t, events[0]), events[1..], t');
    }
  }

  /** Some claim of the run finds the pair forgotten and emits again. */
  predicate StartsOver(t: Swept, events: seq<Event>)
    decreases |events|
  {
    events != [] &&
    ((events[0].Claim? && events[0].token && t.st.None? && t.emits != []) || StartsOver(Next(t, events[0]), events[1..]))
  }

  function Capped(k: nat): nat { if k < U32_MAX then k else U32_MAX }

  /** The back-off was never interrupted: the k-th emit left streak k. */
  ghost predicate Unbroken(t: Swept) {
    forall k :: 0 <= k < |t.streaks| ==> t.streaks[k] == Capped(k)
  }

  lemma {:induction false} StreaksGrow(t: Swept, events: seq<Event>, t': Swept)
    requires Reaches(t, events, t')
    ensures t.streaks <= t'.streaks
    decreases |events|
  {
    hide ClaimPair, Sweep;
    if events != [] {
      StreaksGrow(Next(t, events[0]), events[1..], t');
    }
  }

  lemma NextUnbroken(t: Swept, e: Event)
    requires Kept(t) && Unbroken(t)
    ensures Unbroken(Next(t, e)) <==> !(e.Claim? && e.token && t.st.None? && t.emits != [])
  {
    hide ReemitCooldown, GapKept;
    var t' := Next(t, e);
    if |t'.streaks| > |t.streaks| {
      var n := |t.streaks|;
      assert forall k :: 0 <= k < n ==> t'.streaks[k] == t.streaks[k];
      assert t'.streaks[n] == if t.st.None? then 0 else Capped(n);
    }
  }

  /** The back-off is uninterrupted if and only if no claim found the pair forgotten. */
  lemma {:induction false} UnbrokenExactly(t: Swept, events: seq<Event>, t': Swept)
    requires Kept(t) && Unbroken(t) && Reaches(t, events, t')
    ensures Unbroken(t') <==> !StartsOver(t, events)
    decreases |events|
  {
    hide Kept, Next;
    if events != [] {
      NextUnbroken(t, events[0]);
      NextKept(t, events[0]);
      if Unbroken(Next(t, events[0])) {
        UnbrokenExactly(Next(t, events[0]), events[1..], t');
      } else {
        StreaksGrow(Next(t, events[0]), events[1..], t');
      }
    }
  }

  /**
    Over any run of claims and sweeps by a clock that does not go back: each gap keeps the
    cooldown of the streak before it, or exceeds the time to live and the streak starts over.
    The gaps are those of the uninterrupted back-off if no claim found the pair forgotten, and
    exactly then does every streak count all emits so far.
  */
  lemma GapsUnderSweeps(start: int, events: seq<Event>, t: Swept)
    requires Reaches(Untracked(start), events, t)
    ensures Kept(t)
    ensures Unbroken(t) <==> !StartsOver(Untracked(start), events)
    ensures !StartsOver(Untracked(start), events) ==> Decays(t.emits)
  {
    RunKept(Untracked(start), events, t);
    UnbrokenExactly(Untracked(start), events, t);
    if Unbroken(t) {
      forall k | 0 <= k < |t.emits| - 1 ensures t.emits[k + 1] - t.emits[k] >= ReemitCooldown(k) {
        assert GapKept(t.emits[k + 1] - t.emits[k], t.streaks[k], t.streaks[k + 1]);
      }
    }
  }
}
