/**
  The cold-start budget over runs of the whole tracker: claims on any pairs, with
  confirmations, departures and reaps in between.
*/
module PunchBudget {

  import opened HolePunch

  datatype Event = OnClaim(pair: Pair, now: int) | OnConfirm(pair: Pair) | OnRemove(id: PeerId) | OnReap(cutoff: int)

  function Apply(t: Tracker, e: Event): Tracker {
    match e
    case OnClaim(pair, now) => ClaimIn(t, pair, now).0
    case OnConfirm(pair) => ConfirmIn(t, pair)
    case OnRemove(id) => RemoveIn(t, id)
    case OnReap(cutoff) => ReapIn(t, cutoff)
  }

  /** The claim finds its pair untracked, so an emit would be the pair's first. */
  predicate IsNew(t: Tracker, e: Event) { e.OnClaim? && e.pair !in t.pairs }

  /** How many pairs have their first emit in `[lo, lo + WINDOW)`. */
  function FirstEmits(t: Tracker, events: seq<Event>, lo: int): nat
    decreases |events|
  {
    if events == [] then 0
    else
      var e := events[0];
      (if IsNew(t, e) && ClaimIn(t, e.pair, e.now).1 && lo <= e.now < lo + WINDOW then 1 else 0)
      + FirstEmits(Apply(t, e), events[1..], lo)
  }

  /** When new pairs ask for a token. */
  function Attempts(t: Tracker, events: seq<Event>): seq<int>
    decreases |events|
  {
    if events == [] then []
    else (if IsNew(t, events[0]) then [events[0].now] else []) + Attempts(Apply(t, events[0]), events[1..])
  }

  /** Claims are made in the order of the clock, none before `from`. */
  predicate InOrder(events: seq<Event>, from: int)
    decreases |events|
  {
    events == [] ||
    (if events[0].OnClaim? then from <= events[0].now && InOrder(events[1..], events[0].now)
     else InOrder(events[1..], from))
  }

  lemma {:induction false} FirstEmitsAreGrants(t: Tracker, events: seq<Event>, lo: int)
    ensures FirstEmits(t, events, lo) == Granted(t.coldStart, Attempts(t, events), lo)
    decreases |events|
  {
    if events != [] {
      var e := events[0];
      FirstEmitsAreGrants(Apply(t, e), events[1..], lo);
      if IsNew(t, e) {
        assert Attempts(t, events)[1..] == Attempts(Apply(t, e), events[1..]);
        assert ClaimIn(t, e.pair, e.now).1 == TakeToken(t.coldStart, e.now).1;
      } else {
        assert Attempts(t, events) == Attempts(Apply(t, e), events[1..]);
        assert Apply(t, e).coldStart == t.coldStart;
      }
    }
  }

  lemma {:induction false} AttemptsInOrder(t: Tracker, events: seq<Event>, from: int)
    requires InOrder(events, from)
    ensures Nondecreasing(Attempts(t, events))
    ensures forall i :: 0 <= i < |Attempts(t, events)| ==> from <= Attempts(t, events)[i]
    decreases |events|
  {
    hide Apply;
    if events != [] {
      var e := events[0];
      AttemptsInOrder(Apply(t, e), events[1..], if e.OnClaim? then e.now else from);
      var rest := Attempts(Apply(t, e), events[1..]);
      if IsNew(t, e) {
        assert forall i :: 0 < i < |Attempts(t, events)| ==> Attempts(t, events)[i] == rest[i - 1];
      } else {
        assert Attempts(t, events) == rest;
      }
    }
  }

  /** Fewer than 2^32 attempts fall into any budget window. */
  predicate NeverWraps(t: Tracker, events: seq<Event>) {
    NoWrap(t.coldStart, Attempts(t, events))
  }

  /**
    The burst bound: from a new tracker, with a clock that has left the first second of the
    epoch, any one second sees at most 15 first emits, whatever pairs are claimed, confirmed,
    removed and reaped.
  */
  lemma FifteenASecond(events: seq<Event>, lo: int)
    requires InOrder(events, WINDOW) && NeverWraps(NEW_TRACKER, events)
    ensures FirstEmits(NEW_TRACKER, events, lo) <= 15
  {
    hide FirstEmits, Attempts, Granted;
    FirstEmitsAreGrants(NEW_TRACKER, events, lo);
    AttemptsInOrder(NEW_TRACKER, events, WINDOW);
    AtMostFifteen(Budget(0, 0), Attempts(NEW_TRACKER, events), lo);
  }

  // ---------------------------------------------------------------- claims on fresh pairs

  function ClaimsOf(ps: seq<Pair>, times: seq<int>): seq<Event>
    requires |ps| == |times|
  {
    seq(|ps|, i requires 0 <= i < |ps| => Event.OnClaim(ps[i], times[i]))
  }

  ghost predicate AllNew(t: Tracker, ps: seq<Pair>) {
    && (forall i :: 0 <= i < |ps| ==> ps[i] !in t.pairs)
    && (forall i, j :: 0 <= i < j < |ps| ==> ps[i] != ps[j])
  }

  lemma {:induction false} NewPairsAttempt(t: Tracker, ps: seq<Pair>, times: seq<int>)
    requires |ps| == |times| && AllNew(t, ps)
    ensures Attempts(t, ClaimsOf(ps, times)) == times
    decreases |ps|
  {
    if ps != [] {
      var events := ClaimsOf(ps, times);
      assert events[1..] == ClaimsOf(ps[1..], times[1..]);
      var t' := Apply(t, events[0]);
      assert forall p :: p in t'.pairs ==> p in t.pairs || p == ps[0];
      assert AllNew(t', ps[1..]);
      NewPairsAttempt(t', ps[1..], times[1..]);
      assert times == [times[0]] + times[1..];
    }
  }

  lemma {:induction false} ClaimsInOrder(ps: seq<Pair>, times: seq<int>, from: int)
    requires |ps| == |times| && Nondecreasing(times) && (times != [] ==> from <= times[0])
    ensures InOrder(ClaimsOf(ps, times), from)
    decreases |ps|
  {
    if ps != [] {
      assert ClaimsOf(ps, times)[1..] == ClaimsOf(ps[1..], times[1..]);
      ClaimsInOrder(ps[1..], times[1..], times[0]);
    }
  }

  lemma {:induction false} Beyond(pairs: set<Pair>) returns (n: nat)
    ensures forall p :: p in pairs ==> p.a < n
    decreases pairs
  {
    if pairs == {} {
      n := 0;
    } else {
      var q :| q in pairs;
      var m := Beyond(pairs - {q});
      n := if q.a < m then m else q.a + 1;
      assert forall p :: p in pairs ==> p == q || p in pairs - {q};
    }
  }

  lemma NewPairs(t: Tracker, count: nat) returns (ps: seq<Pair>)
    ensures |ps| == count && AllNew(t, ps)
  {
    var n := Beyond(t.pairs.Keys);
    ps := seq(count, i requires 0 <= i < count => Pair(n + i, n + i + 1));
    forall i | 0 <= i < |ps| ensures ps[i] !in t.pairs {
      assert ps[i].a == n + i;
    }
  }

  /** Any attempts in clock order are made by some run of claims on new pairs. */
  lemma SomeRun(t: Tracker, times: seq<int>, from: int, lo: int) returns (events: seq<Event>)
    requires Nondecreasing(times) && (times != [] ==> from <= times[0])
    ensures InOrder(events, from) && Attempts(t, events) == times
    ensures FirstEmits(t, events, lo) == Granted(t.coldStart, times, lo)
  {
    var ps := NewPairs(t, |times|);
    events := ClaimsOf(ps, times);
    NewPairsAttempt(t, ps, times);
    ClaimsInOrder(ps, times, from);
    FirstEmitsAreGrants(t, events, lo);
  }

  /** Fifteen is attained, at any clock reading: one claim opens a window, the rest come as it turns. */
  lemma FifteenAttained(s: int) returns (events: seq<Event>)
    requires s >= WINDOW
    ensures InOrder(events, s) && NeverWraps(NEW_TRACKER, events)
    ensures FirstEmits(NEW_TRACKER, events, s + WINDOW - 1) == 15
  {
    hide Attempts, FirstEmits;
    var window := Budget(s, 1);
    var times := [s] + TwoBursts(window);
    TwoBurstsGranted(window, s + WINDOW - 1);
    assert times[1..] == TwoBursts(window);
    assert TakeToken(Budget(0, 0), s).0 == window;
    assert forall i :: 0 < i < |times| ==> times[i] == TwoBursts(window)[i - 1] >= s;
    FewDoNotWrap(Budget(0, 0), times);
    events := SomeRun(NEW_TRACKER, times, s, s + WINDOW - 1);
  }

  /** From this state on, whatever happens, the second from `lo` sees one window's worth at most. */
  ghost predicate WithinOneWindow(t: Tracker, lo: int) {
    forall events :: InOrder(events, lo) && NeverWraps(t, events) ==> FirstEmits(t, events, lo) <= MAX_NEW_EMITS
  }

  /**
    The documented bound of eight a second holds from an instant on if and only if no window
    that window less than a window before it still has tokens left.
  */
  lemma EightExactly(t: Tracker, lo: int)
    requires t.coldStart.windowStart <= lo
    ensures WithinOneWindow(t, lo) <==> !HalfSpent(t.coldStart, lo)
  {
    hide FirstEmits, Attempts, Granted, NoWrap, InOrder;
    var b := t.coldStart;
    if HalfSpent(b, lo) {
      TwoBurstsGranted(b, lo);
      var events := SomeRun(t, TwoBursts(b), lo, lo);
      assert FirstEmits(t, events, lo) > MAX_NEW_EMITS;
    } else {
      forall events | InOrder(events, lo) && NeverWraps(t, events) ensures FirstEmits(t, events, lo) <= MAX_NEW_EMITS {
        FirstEmitsAreGrants(t, events, lo);
        AttemptsInOrder(t, events, lo);
        AtMostEight(b, Attempts(t, events), lo);
      }
    }
  }
}
