/** The reboot loop-guard: at most three reboots an hour, remembered in a file. Times are seconds. */
module RebootGuardModel {

  const MAX_PER_WINDOW: nat := 3
  const WINDOW_SECS: nat := 3600

  function Cutoff(now: nat): nat {
    if now < WINDOW_SECS then 0 else now - WINDOW_SECS
  }

  function Retain(h: seq<nat>, cutoff: nat): seq<nat> {
    if h == [] then []
    else
      var n := |h| - 1;
      Retain(h[..n], cutoff) + if h[n] >= cutoff then [h[n]] else []
  }

  /** The history to save after a request, and whether the reboot is granted. */
  function TryReboot(h: seq<nat>, now: nat): (seq<nat>, bool) {
    var kept := Retain(h, Cutoff(now));
    if |kept| >= MAX_PER_WINDOW then (kept, false) else (kept + [now], true)
  }

  class RebootGuard {
    var disk: seq<nat>

    constructor ()
      ensures disk == []
    {
      disk := [];
    }

    /** `saved` says whether the file is written; a failed write leaves the earlier history. */
    method TryRebootAt(now: nat, saved: bool) returns (granted: bool)
      modifies this
      ensures granted == TryReboot(old(disk), now).1
      ensures disk == if saved then TryReboot(old(disk), now).0 else old(disk)
    {
      var cutoff := if now < WINDOW_SECS then 0 else now - WINDOW_SECS;
      var h, kept := disk, [];
      for i := 0 to |h|
        invariant kept == Retain(h[..i], cutoff) && disk == h
      {
        assert h[..i + 1][..i] == h[..i];
        if h[i] >= cutoff {
          kept := kept + [h[i]];
        }
      }
      assert h[..|h|] == h;
      granted := |kept| < MAX_PER_WINDOW;
      if granted {
        kept := kept + [now];
      }
      if saved {
        disk := kept;
      }
    }
  }

  // ---------------------------------------------------------------- runs

  datatype Request = Request(now: nat, saved: bool)

  /** The file, every grant so far, and the latest clock reading. */
  datatype Log = Log(disk: seq<nat>, granted: seq<nat>, clock: nat)

  function Next(l: Log, r: Request): Log {
    var (h, ok) := TryReboot(l.disk, r.now);
    Log(if r.saved then h else l.disk, if ok then l.granted + [r.now] else l.granted, r.now)
  }

  /** The clock does not go back, and a grant is saved; a failed save of a refusal is harmless. */
  ghost predicate Reaches(l: Log, rs: seq<Request>, l': Log)
    decreases |rs|
  {
    if rs == [] then l' == l
    else
      && l.clock <= rs[0].now && (TryReboot(l.disk, rs[0].now).1 ==> rs[0].saved)
      && Reaches(Next(l, rs[0]), rs[1..], l')
  }

  ghost predicate Nondecreasing(s: seq<nat>) {
    forall i, j :: 0 <= i < j < |s| ==> s[i] <= s[j]
  }

  /** No four grants fall into one closed window. */
  ghost predicate Limited(g: seq<nat>) {
    forall i, j :: 0 <= i < j < |g| && g[j] <= g[i] + 3600 ==> j - i < 3
  }

  ghost predicate Past(g: seq<nat>, clock: nat) {
    Nondecreasing(g) && forall i :: 0 <= i < |g| ==> g[i] <= clock
  }

  /** `h` is the end of `g`, and what it lacks is older than `cutoff`. */
  ghost predicate EndOf(h: seq<nat>, g: seq<nat>, cutoff: nat) {
    && |h| <= |g| && h == g[|g| - |h|..]
    && forall i :: 0 <= i < |g| - |h| ==> g[i] < cutoff
  }

  /** The file holds the latest grants; those it forgot are older than the window. */
  ghost predicate Remembers(l: Log) {
    Past(l.granted, l.clock) && EndOf(l.disk, l.granted, Cutoff(l.clock))
  }

  lemma {:induction false} RetainsSuffix(h: seq<nat>, cutoff: nat) returns (k: nat)
    requires Nondecreasing(h)
    ensures k <= |h| && Retain(h, cutoff) == h[k..]
    ensures forall i :: 0 <= i < |h| ==> (h[i] < cutoff <==> i < k)
    decreases |h|
  {
    if h == [] {
      k := 0;
    } else {
      var n := |h| - 1;
      var init := h[..n];
      assert Retain(h, cutoff) == Retain(init, cutoff) + if h[n] >= cutoff then [h[n]] else [];
      hide Retain;
      assert forall i :: 0 <= i < n ==> init[i] == h[i] <= h[n];
      assert Nondecreasing(init);
      k := RetainsSuffix(init, cutoff);
      hide Nondecreasing;
      if h[n] >= cutoff {
        assert h[k..] == init[k..] + [h[n]];
      } else {
        assert init[k..] == [];
        k := n + 1;
      }
    }
  }

  /** Three grants lie within the window before `now`. */
  predicate Spent(granted: seq<nat>, now: nat) {
    |granted| >= 3 && granted[|granted| - 3] + 3600 >= now
  }

  /** What a request keeps of the file is exactly the grants inside its window. */
  lemma KeepsWindow(l: Log, now: nat) returns (k: nat)
    requires Remembers(l) && l.clock <= now
    ensures k <= |l.granted| && Retain(l.disk, Cutoff(now)) == l.granted[k..]
    ensures forall i :: 0 <= i < |l.granted| ==> (l.granted[i] < Cutoff(now) <==> i < k)
  {
    var gone := |l.granted| - |l.disk|;
    assert forall i :: 0 <= i < |l.disk| ==> l.disk[i] == l.granted[gone + i];
    assert Nondecreasing(l.disk);
    k := RetainsSuffix(l.disk, Cutoff(now));
    hide Retain, Nondecreasing;
    assert l.disk[k..] == l.granted[gone + k..];
    forall i | 0 <= i < |l.granted| ensures l.granted[i] < Cutoff(now) <==> i < gone + k {
      if i >= gone {
        assert l.granted[i] == l.disk[i - gone];
      }
    }
    k := gone + k;
  }

  /** A request is refused exactly when three grants lie within the preceding window. */
  lemma RefusedExactlyWhenSpent(l: Log, now: nat)
    requires Remembers(l) && l.clock <= now
    ensures TryReboot(l.disk, now).1 <==> !Spent(l.granted, now)
  {
    var k := KeepsWindow(l, now);
    hide Retain, Remembers;
  }

  lemma GrantKeepsLimit(g: seq<nat>, now: nat)
    requires Limited(g) && Nondecreasing(g) && !Spent(g, now)
    ensures Limited(g + [now])
  {
    var g' := g + [now];
    forall i, j | 0 <= i < j < |g'| && j - i >= MAX_PER_WINDOW ensures g'[j] - g'[i] > WINDOW_SECS {
      if j < |g| {
        assert g'[i] == g[i] && g'[j] == g[j];
      } else {
        assert g'[i] <= g[|g| - MAX_PER_WINDOW];
      }
    }
  }

  lemma PastAppended(g: seq<nat>, clock: nat, now: nat)
    requires Past(g, clock) && clock <= now
    ensures Past(g, now) && Past(g + [now], now)
  {
  }

  lemma EndAppended(g: seq<nat>, k: nat, now: nat, cutoff: nat)
    requires k <= |g| && forall i :: 0 <= i < k ==> g[i] < cutoff
    ensures EndOf(g[k..], g, cutoff) && EndOf(g[k..] + [now], g + [now], cutoff)
  {
  }

  lemma NextRemembers(l: Log, r: Request)
    requires Remembers(l) && l.clock <= r.now && (TryReboot(l.disk, r.now).1 ==> r.saved)
    ensures Remembers(Next(l, r))
  {
    var k := KeepsWindow(l, r.now);
    EndAppended(l.granted, k, r.now, Cutoff(r.now));
    PastAppended(l.granted, l.clock, r.now);
    hide Retain, Past;
  }

  /**
    Sliding-window limit: for every sequence of requests with a clock that does not go back
    and saved grants, any closed hour contains at most three reboots, however many were asked.
  */
  lemma {:induction false} AtMostThreeAnHour(l: Log, rs: seq<Request>, l': Log)
    requires Remembers(l) && Limited(l.granted) && Reaches(l, rs, l')
    ensures Limited(l'.granted)
    decreases |rs|
  {
    if rs != [] {
      RefusedExactlyWhenSpent(l, rs[0].now);
      NextRemembers(l, rs[0]);
      if TryReboot(l.disk, rs[0].now).1 {
        GrantKeepsLimit(l.granted, rs[0].now);
      }
      AtMostThreeAnHour(Next(l, rs[0]), rs[1..], l');
    }
  }

  lemma KeepsOne(t: nat, cutoff: nat)
    requires t >= cutoff
    ensures Retain([t], cutoff) == [t]
  {
    assert [t][..0] == [];
  }

  /**
    A clock that goes back defeats the limit. After three grants, one reading past the window
    empties the file, and a reading back inside it is granted a fourth.
  */
  lemma ClockBackDefeatsLimit(h: seq<nat>, now: nat, back: nat)
    requires |h| == MAX_PER_WINDOW && Nondecreasing(h)
    requires h[0] <= h[2] <= back <= h[0] + WINDOW_SECS && h[2] + WINDOW_SECS < now
    ensures TryReboot(h, now) == ([now], true)
    ensures TryReboot([now], back) == ([now, back], true)
  {
    hide Retain;
    var k := RetainsSuffix(h, Cutoff(now));
    assert h[1] <= h[2];
    hide Nondecreasing;
    KeepsOne(now, Cutoff(back));
    assert [] + [now] == [now] && [now] + [back] == [now, back];
  }

  function After(l: Log, rs: seq<Request>): Log {
    if rs == [] then l else Next(After(l, rs[..|rs| - 1]), rs[|rs| - 1])
  }

  function Unsaved(now: nat, n: nat): seq<Request> { seq(n, _ => Request(now, false)) }

  /**
    Saves that fail defeat the limit: as long as the file has room, any number of requests at
    one instant are all granted, because the file never learns of them.
  */
  lemma {:induction false} UnsavedAllGranted(l: Log, now: nat, n: nat)
    requires |Retain(l.disk, Cutoff(now))| < MAX_PER_WINDOW
    ensures After(l, Unsaved(now, n)) == Log(l.disk, l.granted + seq(n, _ => now), if n == 0 then l.clock else now)
    decreases n
  {
    hide Retain;
    var rs := Unsaved(now, n);
    if n == 0 {
      assert l.granted + [] == l.granted;
    } else {
      assert rs[..n - 1] == Unsaved(now, n - 1);
      UnsavedAllGranted(l, now, n - 1);
      assert l.granted + seq(n - 1, _ => now) + [now] == l.granted + seq(n, _ => now);
    }
  }

  /** From the fourth on they break the hourly limit, whatever was granted before. */
  lemma UnsavedBreaksLimit(l: Log, now: nat, n: nat)
    requires |Retain(l.disk, Cutoff(now))| < MAX_PER_WINDOW && n > MAX_PER_WINDOW
    ensures !Limited(After(l, Unsaved(now, n)).granted)
  {
    UnsavedAllGranted(l, now, n);
    var g, k := After(l, Unsaved(now, n)).granted, |l.granted|;
    assert g[k] == now && g[k + MAX_PER_WINDOW] == now;
  }
}
