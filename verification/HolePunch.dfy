/**
  Hole-punch pairs: the escalating re-emit cooldown, the cold-start budget and the reaper.
  Times are microseconds.
*/
module HolePunch {

  import opened Prelude
  import opened Words

  type PeerId = nat

  /** Two peers in canonical order. */
  datatype Pair = Pair(a: PeerId, b: PeerId)

  const BASE: int := 15_000_000
  const CAP: int := 300_000_000
  const PAIR_TTL: int := 300_000_000
  const MAX_NEW_EMITS: nat := 8
  const WINDOW: int := 1_000_000
  const U32_MAX: nat := 0xffff_ffff
  const I64_MAX: int := 0x7fff_ffff_ffff_ffff

  // ---------------------------------------------------------------- the cooldown

  /** The two's-complement value of the low 64 bits of `n`. */
  function Wrap64(n: nat): int {
    var low := n % 0x1_0000_0000_0000_0000;
    if low <= I64_MAX then low else low - 0x1_0000_0000_0000_0000
  }

  /** The checked shift refuses only an amount of 64 or more; bits shifted out are lost. */
  function ReemitCooldown(streak: nat): int {
    var shifted := if streak < 64 then Wrap64(BASE * Pow2(streak)) else I64_MAX;
    if shifted < CAP then shifted else CAP
  }

  /** The documented law: double from the base up to the cap. */
  function IntendedCooldown(streak: nat): int {
    if BASE * Pow2(streak) < CAP then BASE * Pow2(streak) else CAP
  }

  /** The streaks at which the shift turns the base negative or into zero. */
  predicate Overflows(streak: nat) {
    || 40 <= streak <= 42 || streak == 45 || 48 <= streak <= 50 || 55 <= streak <= 63
  }

  lemma {:induction false} Pow2Grows(a: nat, b: nat)
    requires a <= b
    ensures Pow2(a) <= Pow2(b)
    decreases b
  {
    if a < b {
      Pow2Grows(a, b - 1);
    }
  }

  function Shifted(streak: nat): int
    requires 40 <= streak < 64
  {
    if streak == 40 then -1954069657069551616
    else if streak == 41 then -3908139314139103232
    else if streak == 42 then -7816278628278206464
    else if streak == 43 then 2814186817153138688
    else if streak == 44 then 5628373634306277376
    else if streak == 45 then -7189996805096996864
    else if streak == 46 then 4066750463515557888
    else if streak == 47 then 8133500927031115776
    else if streak == 48 then -2179742219647320064
    else if streak == 49 then -4359484439294640128
    else if streak == 50 then -8718968878589280256
    else if streak == 51 then 1008806316530991104
    else if streak == 52 then 2017612633061982208
    else if streak == 53 then 4035225266123964416
    else if streak == 54 then 8070450532247928832
    else if streak == 55 then -2305843009213693952
    else if streak == 56 then -4611686018427387904
    else if streak == 57 then -9223372036854775808
    else 0
  }

  function Doubled(v: int): int {
    if 2 * v > I64_MAX then 2 * v - 0x1_0000_0000_0000_0000
    else if 2 * v < -I64_MAX - 1 then 2 * v + 0x1_0000_0000_0000_0000
    else 2 * v
  }

  lemma WrapDoubles(n: nat)
    ensures Wrap64(2 * n) == Doubled(Wrap64(n))
  {
  }

  lemma TableDoubles(streak: nat)
    requires 40 <= streak < 63
    ensures Doubled(Shifted(streak)) == Shifted(streak + 1)
  {
  }

  lemma {:induction false} ShiftedBase(streak: nat)
    requires 40 <= streak < 64
    ensures Wrap64(BASE * Pow2(streak)) == Shifted(streak)
    decreases streak
  {
    if streak == 40 {
      WordSizes();
      Octave(16);
      Octave(24);
      Octave(32);
    } else {
      ShiftedBase(streak - 1);
      WrapDoubles(BASE * Pow2(streak - 1));
      TableDoubles(streak - 1);
      assert BASE * Pow2(streak) == 2 * (BASE * Pow2(streak - 1));
    }
  }

  lemma WrapFits(n: nat)
    requires n <= I64_MAX
    ensures Wrap64(n) == n
  {
  }

  lemma FitsBelow40(streak: nat)
    requires streak < 40
    ensures BASE * Pow2(streak) <= I64_MAX
  {
    WordSizes();
    Octave(16);
    Octave(24);
    Octave(32);
    assert Pow2(40) == 2 * Pow2(39);
    Pow2Grows(streak, 39);
  }

  lemma Doublings(streak: nat)
    ensures Pow2(streak) >= 1
    ensures streak >= 5 ==> Pow2(streak) >= 32
    ensures streak == 0 ==> Pow2(streak) == 1
  {
    if 5 <= streak {
      assert Pow2(5) == 32;
      Pow2Grows(5, streak);
    }
  }

  /** The code follows the documented law exactly at the streaks that do not overflow. */
  lemma CooldownFollowsLawExactly(streak: nat)
    ensures ReemitCooldown(streak) == IntendedCooldown(streak) <==> !Overflows(streak)
    ensures Overflows(streak) ==> ReemitCooldown(streak) <= 0
    ensures !Overflows(streak) ==> BASE <= ReemitCooldown(streak) <= CAP
    ensures streak == 0 ==> ReemitCooldown(streak) == BASE
  {
    hide Pow2, Wrap64;
    Doublings(streak);
    if streak < 40 {
      FitsBelow40(streak);
      WrapFits(BASE * Pow2(streak));
    } else if streak < 64 {
      ShiftedBase(streak);
    }
  }

  // ---------------------------------------------------------------- the cold-start budget

  datatype Budget = Budget(windowStart: int, count: nat)

  /** One attempt to draw a token; the 32-bit counter wraps. */
  function TakeToken(b: Budget, now: int): (Budget, bool) {
    var b' := if now - b.windowStart >= WINDOW then Budget(now, 0) else b;
    (b'.(count := if b'.count < U32_MAX then b'.count + 1 else 0), b'.count < MAX_NEW_EMITS)
  }

  ghost predicate Nondecreasing(times: seq<int>) {
    forall i, j :: 0 <= i < j < |times| ==> times[i] <= times[j]
  }

  /** How many of the attempts made in `[lo, lo + WINDOW)` are granted. */
  function Granted(b: Budget, times: seq<int>, lo: int): nat
    decreases |times|
  {
    if times == [] then 0
    else
      var (b', ok) := TakeToken(b, times[0]);
      (if ok && lo <= times[0] < lo + WINDOW then 1 else 0) + Granted(b', times[1..], lo)
  }

  /** No attempt makes the counter wrap round. */
  predicate NoWrap(b: Budget, times: seq<int>)
    decreases |times|
  {
    times == [] ||
    var b' := TakeToken(b, times[0]).0;
    b'.count != 0 && NoWrap(b', times[1..])
  }

  function Remaining(b: Budget): nat {
    if b.count < MAX_NEW_EMITS then MAX_NEW_EMITS - b.count else 0
  }

  lemma {:induction false} NoneAfter(b: Budget, times: seq<int>, lo: int)
    requires forall i :: 0 <= i < |times| ==> times[i] >= lo + WINDOW
    ensures Granted(b, times, lo) == 0
    decreases |times|
  {
    if times != [] {
      NoneAfter(TakeToken(b, times[0]).0, times[1..], lo);
    }
  }

  /** A window opened inside the interval outlasts it: what it has left is all there is. */
  lemma {:induction false} OpenedInside(b: Budget, times: seq<int>, lo: int)
    requires Nondecreasing(times) && NoWrap(b, times) && b.windowStart >= lo
    ensures Granted(b, times, lo) <= Remaining(b)
    decreases |times|
  {
    if times != [] {
      var b' := TakeToken(b, times[0]).0;
      if times[0] - b.windowStart >= WINDOW {
        NoneAfter(b', times[1..], lo);
      } else {
        OpenedInside(b', times[1..], lo);
      }
    }
  }

  lemma {:induction false} OpenedBefore(b: Budget, times: seq<int>, lo: int)
    requires Nondecreasing(times) && NoWrap(b, times)
    requires forall i :: 0 <= i < |times| ==> lo <= times[i]
    ensures Granted(b, times, lo) <= Remaining(b) + MAX_NEW_EMITS
    decreases |times|
  {
    if times != [] {
      var b' := TakeToken(b, times[0]).0;
      if times[0] - b.windowStart >= WINDOW {
        OpenedInside(b', times[1..], lo);
      } else {
        OpenedBefore(b', times[1..], lo);
      }
    }
  }

  /** The window was opened by an attempt, which has spent a token of it, or ends before the first one. */
  predicate Spent(b: Budget, times: seq<int>) {
    b.count >= 1 || (times != [] ==> times[0] - b.windowStart >= WINDOW)
  }

  /** No second sees more first emits than one window and the unspent rest of another. */
  lemma {:induction false} AtMostFifteen(b: Budget, times: seq<int>, lo: int)
    requires Nondecreasing(times) && NoWrap(b, times) && Spent(b, times)
    ensures Granted(b, times, lo) <= 2 * MAX_NEW_EMITS - 1
    decreases |times|
  {
    if times != [] {
      var b' := TakeToken(b, times[0]).0;
      if times[0] < lo {
        AtMostFifteen(b', times[1..], lo);
      } else if times[0] - b.windowStart >= WINDOW {
        OpenedInside(b', times[1..], lo);
      } else {
        OpenedBefore(b, times, lo);
      }
    }
  }

  /** At `lo` a window that opened less than a window ago still has tokens left. */
  predicate HalfSpent(b: Budget, lo: int) {
    lo - WINDOW < b.windowStart < lo && Remaining(b) > 0
  }

  /** Otherwise one window's worth is all that the second from `lo` on sees. */
  lemma AtMostEight(b: Budget, times: seq<int>, lo: int)
    requires Nondecreasing(times) && NoWrap(b, times) && forall i :: 0 <= i < |times| ==> lo <= times[i]
    requires b.windowStart <= lo && !HalfSpent(b, lo)
    ensures Granted(b, times, lo) <= MAX_NEW_EMITS
  {
    if b.windowStart == lo {
      OpenedInside(b, times, lo);
    } else if Remaining(b) == 0 {
      OpenedBefore(b, times, lo);
    } else if times != [] {
      OpenedInside(TakeToken(b, times[0]).0, times[1..], lo);
    }
  }

  lemma {:induction false} FewDoNotWrap(b: Budget, times: seq<int>)
    requires b.count + |times| <= U32_MAX
    ensures NoWrap(b, times)
    decreases |times|
  {
    if times != [] {
      FewDoNotWrap(TakeToken(b, times[0]).0, times[1..]);
    }
  }

  function Burst(t: int, n: nat): seq<int> { seq(n, _ => t) }

  lemma {:induction false} BurstGranted(b: Budget, t: int, n: nat, rest: seq<int>, lo: int)
    requires 0 <= t - b.windowStart < WINDOW && lo <= t < lo + WINDOW
    requires b.count + n <= MAX_NEW_EMITS
    ensures Granted(b, Burst(t, n) + rest, lo) == n + Granted(Budget(b.windowStart, b.count + n), rest, lo)
    decreases n
  {
    var times := Burst(t, n) + rest;
    if n == 0 {
      assert times == rest;
    } else {
      assert times[1..] == Burst(t, n - 1) + rest;
      BurstGranted(TakeToken(b, t).0, t, n - 1, rest, lo);
    }
  }

  /** The rest of a window in its last microsecond, then the whole of the next one. */
  function TwoBursts(b: Budget): seq<int> {
    Burst(b.windowStart + WINDOW - 1, Remaining(b)) + Burst(b.windowStart + WINDOW, MAX_NEW_EMITS)
  }

  lemma TwoBurstsGranted(b: Budget, lo: int)
    requires b.count <= MAX_NEW_EMITS && lo <= b.windowStart + WINDOW - 1 && b.windowStart < lo
    ensures Granted(b, TwoBursts(b), lo) == Remaining(b) + MAX_NEW_EMITS
    ensures Nondecreasing(TwoBursts(b)) && NoWrap(b, TwoBursts(b))
  {
    var s := b.windowStart;
    var next := Burst(s + WINDOW, MAX_NEW_EMITS);
    BurstGranted(b, s + WINDOW - 1, Remaining(b), next, lo);
    var spent := Budget(s, MAX_NEW_EMITS);
    assert next[1..] == Burst(s + WINDOW, MAX_NEW_EMITS - 1) + [];
    BurstGranted(TakeToken(spent, s + WINDOW).0, s + WINDOW, MAX_NEW_EMITS - 1, [], lo);
    FewDoNotWrap(b, TwoBursts(b));
  }

  function Draws(b: Budget, now: int, n: nat): Budget {
    if n == 0 then b else TakeToken(Draws(b, now, n - 1), now).0
  }

  lemma {:induction false} DrawsCount(b: Budget, now: int, n: nat)
    requires 0 <= now - b.windowStart < WINDOW && b.count + n <= U32_MAX
    ensures Draws(b, now, n) == Budget(b.windowStart, b.count + n)
    decreases n
  {
    if n > 0 {
      DrawsCount(b, now, n - 1);
    }
  }

  /** Without `NoWrap` the window's budget starts again: 2^32 attempts in one window reset it. */
  lemma CounterWraps(now: int)
    requires 0 <= now < WINDOW
    ensures Draws(Budget(0, 0), now, U32_MAX + 1) == Budget(0, 0)
    ensures TakeToken(Draws(Budget(0, 0), now, U32_MAX), now).1 == false
    ensures TakeToken(Draws(Budget(0, 0), now, U32_MAX + 1), now).1
  {
    DrawsCount(Budget(0, 0), now, U32_MAX);
  }

  // ---------------------------------------------------------------- one pair

  datatype PunchState = PunchState(lastEmit: int, streak: nat)

  predicate Due(st: PunchState, now: int) { now - st.lastEmit >= ReemitCooldown(st.streak) }

  /** One claim for a pair; `token` says whether a new pair gets one from the budget. */
  function ClaimPair(st: Option<PunchState>, now: int, token: bool): (Option<PunchState>, bool) {
    match st
    case None => if token then (Some(PunchState(now, 0)), true) else (None, false)
    case Some(p) =>
      if Due(p, now) then (Some(PunchState(now, if p.streak < U32_MAX then p.streak + 1 else U32_MAX)), true)
      else (st, false)
  }

  function Confirm(st: Option<PunchState>): Option<PunchState> {
    if st.Some? then Some(st.value.(streak := 0)) else None
  }

  function Reap(st: Option<PunchState>, cutoff: int): Option<PunchState> {
    if st.Some? && st.value.lastEmit < cutoff then None else st
  }

  /** Within the base cooldown a claim is granted exactly when the streak overflows. */
  lemma EarlyEmitExactlyOnOverflow(st: PunchState, now: int)
    requires st.lastEmit <= now < st.lastEmit + BASE
    ensures Due(st, now) <==> Overflows(st.streak)
  {
    CooldownFollowsLawExactly(st.streak);
  }

  /**
    A claim is granted if and only if the pair is new and gets a token, or its last emit is at
    least min(15 s times 2^streak, 300 s) ago. A grant records the instant and raises the streak.
  */
  lemma ClaimExactly(st: Option<PunchState>, now: int, token: bool)
    requires st.Some? ==> !Overflows(st.value.streak)
    ensures var (st', granted) := ClaimPair(st, now, token);
            && (granted <==> (st.None? && token) || (st.Some? && now - st.value.lastEmit >= IntendedCooldown(st.value.streak)))
            && (!granted ==> st' == st)
            && (granted ==> st'.Some? && st'.value.lastEmit == now)
            && (granted ==> st'.value.streak == if st.None? then 0
                                                else if st.value.streak < 0xffff_ffff then st.value.streak + 1 else 0xffff_ffff)
  {
    hide ReemitCooldown, IntendedCooldown, Overflows;
    if st.Some? {
      CooldownFollowsLawExactly(st.value.streak);
    }
  }

  /** A confirmed pair is brisk again: its next emit is due 15 s after the last, and the last is not forgotten. */
  lemma ConfirmedPairIsBrisk(st: PunchState, now: int, token: bool)
    ensures ClaimPair(Confirm(Some(st)), now, token).1 <==> now - st.lastEmit >= 15_000_000
    ensures Confirm(None) == None
  {
    hide ReemitCooldown;
    CooldownFollowsLawExactly(0);
  }

  /** An attempt opens a new window if the last one opened a second ago or earlier, and is granted if fewer than eight came before it in its window. */
  lemma TokenExactly(b: Budget, now: int)
    ensures var (b', granted) := TakeToken(b, now);
            && (now - b.windowStart >= 1_000_000 ==> granted && b' == Budget(now, 1))
            && (now - b.windowStart < 1_000_000 ==>
                  && (granted <==> b.count < 8) && b'.windowStart == b.windowStart
                  && b'.count == if b.count < 0xffff_ffff then b.count + 1 else 0)
  {
  }

  datatype Attempt = Attempt(now: int, token: bool)

  function After(cs: seq<Attempt>): Option<PunchState> {
    if cs == [] then None
    else
      var c := cs[|cs| - 1];
      ClaimPair(After(cs[..|cs| - 1]), c.now, c.token).0
  }

  /** The instants at which a pair that never confirms is punched. */
  function Emits(cs: seq<Attempt>): seq<int> {
    if cs == [] then []
    else
      var c := cs[|cs| - 1];
      Emits(cs[..|cs| - 1]) + if ClaimPair(After(cs[..|cs| - 1]), c.now, c.token).1 then [c.now] else []
  }

  ghost predicate Decays(es: seq<int>) {
    forall k :: 0 <= k < |es| - 1 ==> es[k + 1] - es[k] >= ReemitCooldown(k)
  }

  /** The state kept for a pair punched at exactly the instants `es`. */
  ghost predicate Tracks(st: Option<PunchState>, es: seq<int>) {
    st == if es == [] then None
          else Some(PunchState(es[|es| - 1], if |es| - 1 < U32_MAX then |es| - 1 else U32_MAX))
  }

  lemma ClaimDecays(st: Option<PunchState>, es: seq<int>, now: int, token: bool)
    requires Tracks(st, es) && Decays(es)
    ensures var (st', ok) := ClaimPair(st, now, token);
            var es' := es + if ok then [now] else [];
            Tracks(st', es') && Decays(es')
  {
    if |es| > U32_MAX {
      assert ReemitCooldown(|es| - 1) == ReemitCooldown(U32_MAX);
    }
    hide ReemitCooldown;
    var (st', ok) := ClaimPair(st, now, token);
    if ok {
      assert forall k :: 0 <= k < |es| ==> (es + [now])[k] == es[k];
    } else {
      assert es + [] == es;
    }
  }

  lemma {:induction false} GapsFollowCooldown(cs: seq<Attempt>)
    ensures Tracks(After(cs), Emits(cs)) && Decays(Emits(cs))
    decreases |cs|
  {
    if cs != [] {
      var prior, c := cs[..|cs| - 1], cs[|cs| - 1];
      GapsFollowCooldown(prior);
      ClaimDecays(After(prior), Emits(prior), c.now, c.token);
      hide Tracks, Decays, ClaimPair;
    }
  }

  /** The gap after the k-th emit of an unconfirmed pair is the documented one, unless the shift overflows. */
  lemma StuckPairDecays(cs: seq<Attempt>, k: nat)
    requires k + 1 < |Emits(cs)| && !Overflows(k)
    ensures Emits(cs)[k + 1] - Emits(cs)[k] >= IntendedCooldown(k)
  {
    GapsFollowCooldown(cs);
    CooldownFollowsLawExactly(k);
  }

  lemma IntendedSteps(k: nat)
    ensures k < 5 ==> IntendedCooldown(k) == BASE * [1, 2, 4, 8, 16][k]
    ensures k >= 5 ==> IntendedCooldown(k) == CAP
  {
    Doublings(k);
  }

  /** An unconfirmed pair is punched at most n times in its first 465 s + 300 s (n - 5), for n up to 40. */
  lemma {:induction false} StuckPairIsCheap(cs: seq<Attempt>, n: nat)
    requires 5 <= n <= 40 && n < |Emits(cs)|
    ensures Emits(cs)[n] - Emits(cs)[0] >= 31 * BASE + CAP * (n - 5)
    decreases n
  {
    StuckPairDecays(cs, n - 1);
    IntendedSteps(n - 1);
    if n > 5 {
      StuckPairIsCheap(cs, n - 1);
    } else {
      StuckPairDecays(cs, 0);
      StuckPairDecays(cs, 1);
      StuckPairDecays(cs, 2);
      StuckPairDecays(cs, 3);
      IntendedSteps(0);
      IntendedSteps(1);
      IntendedSteps(2);
      IntendedSteps(3);
    }
  }

  function Paced(n: nat): seq<Attempt> {
    if n == 0 then [] else Paced(n - 1) + [Attempt((n - 1) * CAP, true)]
  }

  lemma {:induction false} PacedAlwaysDue(n: nat)
    requires n <= 41
    ensures After(Paced(n)) == if n == 0 then None else Some(PunchState((n - 1) * CAP, n - 1))
    decreases n
  {
    if n > 0 {
      PacedAlwaysDue(n - 1);
      assert Paced(n)[..|Paced(n)| - 1] == Paced(n - 1);
      if n > 1 {
        CooldownFollowsLawExactly(n - 2);
      }
    }
  }

  /** The overflow is reached: after 41 emits spaced by the cap, the pair is due again at once. */
  lemma DecayBreaksAfter41()
    ensures After(Paced(41)) == Some(PunchState(40 * CAP, 40))
    ensures Due(PunchState(40 * CAP, 40), 40 * CAP)
  {
    PacedAlwaysDue(41);
    CooldownFollowsLawExactly(40);
  }

  // ---------------------------------------------------------------- claims, confirmations and reaps

  datatype Event = OnClaim(now: int, token: bool) | OnConfirm(now: int) | OnReap(now: int)

  /** A pair with every instant it was punched and the latest clock reading. */
  datatype Track = Track(st: Option<PunchState>, emits: seq<int>, clock: int)

  function Next(t: Track, e: Event): Track {
    match e
    case OnClaim(now, token) =>
      var (st, ok) := ClaimPair(t.st, now, token);
      Track(st, t.emits + if ok then [now] else [], now)
    case OnConfirm(now) => Track(Confirm(t.st), t.emits, now)
    case OnReap(now) => Track(Reap(t.st, now - PAIR_TTL), t.emits, now)
  }

  /** The clock does not go back and no claim is made at an overflowing streak. */
  ghost predicate Runs(t: Track, events: seq<Event>, t': Track)
    decreases |events|
  {
    if events == [] then t' == t
    else
      && t.clock <= events[0].now
      && (events[0].OnClaim? && t.st.Some? ==> !Overflows(t.st.value.streak))
      && Runs(Next(t, events[0]), events[1..], t')
  }

  ghost predicate Spaced(es: seq<int>) {
    forall k :: 0 <= k < |es| - 1 ==> es[k + 1] - es[k] >= BASE
  }

  /** A pair not tracked any more was last punched longer ago than its time to live. */
  ghost predicate Remembers(t: Track) {
    && Spaced(t.emits)
    && (t.st.Some? ==> t.emits != [] && t.st.value.lastEmit == t.emits[|t.emits| - 1])
    && (t.emits != [] ==> t.emits[|t.emits| - 1] <= t.clock)
    && (t.emits != [] && t.st.None? ==> t.clock - t.emits[|t.emits| - 1] > PAIR_TTL)
  }

  lemma NextRemembers(t: Track, e: Event)
    requires Remembers(t) && t.clock <= e.now
    requires e.OnClaim? && t.st.Some? ==> !Overflows(t.st.value.streak)
    ensures Remembers(Next(t, e))
  {
    if e.OnClaim? && t.st.Some? {
      CooldownFollowsLawExactly(t.st.value.streak);
    }
    hide ReemitCooldown;
  }

  /**
    However confirmations and the reaper interleave with claims, two punches of one pair are
    never closer than the base cooldown: neither forgetting a pair nor resetting its streak
    lets it be punched early.
  */
  lemma {:induction false} NeverPunchedEarly(t: Track, events: seq<Event>, t': Track)
    requires Remembers(t) && Runs(t, events, t')
    ensures Spaced(t'.emits)
    decreases |events|
  {
    if events != [] {
      NextRemembers(t, events[0]);
      NeverPunchedEarly(Next(t, events[0]), events[1..], t');
    }
  }

  // ---------------------------------------------------------------- the tracker

  function CanonicalPair(a: PeerId, b: PeerId): (p: Pair)
    ensures p.a <= p.b && {p.a, p.b} == {a, b}
  {
    if a <= b then Pair(a, b) else Pair(b, a)
  }

  /** Two pairs of peers share a tracker entry exactly when they are the same two peers. */
  lemma CanonicalPairExact(a: PeerId, b: PeerId, c: PeerId, d: PeerId)
    ensures CanonicalPair(a, b) == CanonicalPair(c, d) <==> {a, b} == {c, d}
  {
    var p, q := CanonicalPair(a, b), CanonicalPair(c, d);
    if {a, b} == {c, d} {
      assert p.a in {q.a, q.b} && p.b in {q.a, q.b} && q.a in {p.a, p.b} && q.b in {p.a, p.b};
    }
  }

  datatype PunchPeer = PunchPeer(peerId: PeerId, dialEndpoint: string)

  datatype Initiate = Initiate(initiator: PeerId, target: PeerId, targetEndpoint: string, timestamp: int)

  datatype Tracker = Tracker(pairs: map<Pair, PunchState>, coldStart: Budget) {
    function At(pair: Pair): Option<PunchState> {
      if pair in pairs then Some(pairs[pair]) else None
    }
  }

  const NEW_TRACKER := Tracker(map[], Budget(0, 0))

  /** Only a pair not tracked yet draws from the budget. */
  function ClaimIn(t: Tracker, pair: Pair, now: int): (Tracker, bool) {
    var (coldStart, token) := TakeToken(t.coldStart, now);
    var (st, granted) := ClaimPair(t.At(pair), now, token);
    (Tracker(if st.Some? then t.pairs[pair := st.value] else t.pairs,
             if pair in t.pairs then t.coldStart else coldStart), granted)
  }

  function ConfirmIn(t: Tracker, pair: Pair): Tracker {
    if pair in t.pairs then t.(pairs := t.pairs[pair := t.pairs[pair].(streak := 0)]) else t
  }

  function RemoveIn(t: Tracker, id: PeerId): Tracker {
    t.(pairs := map p | p in t.pairs && id != p.a && id != p.b :: t.pairs[p])
  }

  function ReapIn(t: Tracker, cutoff: int): Tracker {
    t.(pairs := map p | p in t.pairs && t.pairs[p].lastEmit >= cutoff :: t.pairs[p])
  }

  class PunchTracker {
    var pairs: map<Pair, PunchState>
    var coldStart: Budget

    ghost function View(): Tracker
      reads this
    {
      Tracker(pairs, coldStart)
    }

    ghost function At(pair: Pair): Option<PunchState>
      reads this
    {
      View().At(pair)
    }

    constructor ()
      ensures View() == NEW_TRACKER
    {
      pairs, coldStart := map[], Budget(0, 0);
    }

    method TakeColdStartToken(now: int) returns (ok: bool)
      modifies this`coldStart
      ensures (coldStart, ok) == TakeToken(old(coldStart), now)
    {
      if now - coldStart.windowStart >= WINDOW {
        coldStart := Budget(now, 0);
      }
      ok := coldStart.count < MAX_NEW_EMITS;
      coldStart := coldStart.(count := if coldStart.count < U32_MAX then coldStart.count + 1 else 0);
    }

    method Claim(pair: Pair, now: int) returns (granted: bool)
      modifies this
      ensures (View(), granted) == ClaimIn(old(View()), pair, now)
      ensures (At(pair), granted) == ClaimPair(old(At(pair)), now, TakeToken(old(coldStart), now).1)
      ensures coldStart == if old(At(pair)).None? then TakeToken(old(coldStart), now).0 else old(coldStart)
      ensures forall p :: p != pair ==> At(p) == old(At(p))
    {
      if pair in pairs {
        var st := pairs[pair];
        if now - st.lastEmit >= ReemitCooldown(st.streak) {
          pairs := pairs[pair := PunchState(now, if st.streak < U32_MAX then st.streak + 1 else U32_MAX)];
          return true;
        }
        assert pairs[pair := st] == pairs;
        return false;
      }
      var token := TakeColdStartToken(now);
      if !token {
        return false;
      }
      pairs := pairs[pair := PunchState(now, 0)];
      return true;
    }

    method NoteConfirmed(pair: Pair)
      modifies this`pairs
      ensures View() == ConfirmIn(old(View()), pair) && At(pair) == Confirm(old(At(pair)))
      ensures forall p :: p != pair ==> At(p) == old(At(p))
    {
      if pair in pairs {
        pairs := pairs[pair := pairs[pair].(streak := 0)];
      }
    }

    method RemovePeer(id: PeerId) returns (removed: nat)
      modifies this`pairs
      ensures View() == RemoveIn(old(View()), id)
      ensures forall p :: At(p) == if id == p.a || id == p.b then None else old(At(p))
      ensures removed == |set p | p in old(pairs) && (id == p.a || id == p.b)|
    {
      ghost var gone := set p | p in pairs && (id == p.a || id == p.b);
      var kept := map p | p in pairs && id != p.a && id != p.b :: pairs[p];
      assert pairs.Keys == kept.Keys + gone && kept.Keys !! gone;
      removed := |pairs| - |kept|;
      pairs := kept;
    }

    method ReapOlderThan(cutoff: int) returns (removed: nat)
      modifies this`pairs
      ensures View() == ReapIn(old(View()), cutoff)
      ensures forall p :: At(p) == Reap(old(At(p)), cutoff)
      ensures removed == |set p | p in old(pairs) && old(pairs)[p].lastEmit < cutoff|
    {
      ghost var gone := set p | p in pairs && pairs[p].lastEmit < cutoff;
      var kept := map p | p in pairs && pairs[p].lastEmit >= cutoff :: pairs[p];
      assert pairs.Keys == kept.Keys + gone && kept.Keys !! gone;
      removed := |pairs| - |kept|;
      pairs := kept;
    }

    /** Both directions are announced, each naming the other side's endpoint, or neither is. */
    method TryEmitPair(a: PunchPeer, b: PunchPeer, now: int) returns (emitted: bool, events: seq<Initiate>)
      modifies this
      ensures var pair := CanonicalPair(a.peerId, b.peerId);
              var able := a.peerId != b.peerId && a.dialEndpoint != "" && b.dialEndpoint != "";
              && (able ==> (At(pair), emitted) == ClaimPair(old(At(pair)), now, TakeToken(old(coldStart), now).1))
              && (!able ==> !emitted && unchanged(this))
              && (forall p :: p != pair ==> At(p) == old(At(p)))
      ensures events == if emitted then [Initiate(a.peerId, b.peerId, b.dialEndpoint, now),
                                         Initiate(b.peerId, a.peerId, a.dialEndpoint, now)] else []
    {
      if a.peerId == b.peerId || a.dialEndpoint == "" || b.dialEndpoint == "" {
        return false, [];
      }
      emitted := Claim(CanonicalPair(a.peerId, b.peerId), now);
      if !emitted {
        return false, [];
      }
      events := [Initiate(a.peerId, b.peerId, b.dialEndpoint, now), Initiate(b.peerId, a.peerId, a.dialEndpoint, now)];
    }
  }
}
