/**
  The per-network index counter under concurrency: any number of threads interleave the
  load and compare-exchange steps of `allocate_in_slot` and `bump_slot_at_least` on one slot.
*/
module UlaAllocatorModel {

  import opened Prelude
  import opened Ula

  /** Where a thread stands; `current` is the value it last loaded. */
  datatype Thread =
    | AllocLoad
    | AllocCas(current: u16)
    | Granted(idx: u16)
    | Exhausted
    | BumpLoad(target: u16)
    | BumpCas(target: u16, current: u16)
    | Bumped(target: u16)

  datatype Shared = Shared(counter: u16, threads: seq<Thread>, grants: seq<u16>)

  const IDLE := Shared(0, [], [])

  datatype Event = StartAllocate | StartBump(target: u16) | Move(tid: nat)

  predicate Enabled(s: Shared, e: Event) { e.Move? ==> e.tid < |s.threads| }

  /** A bump that has just seen `current`. */
  function BumpSaw(target: u16, current: u16): Thread {
    if current < target then BumpCas(target, current) else Bumped(target)
  }

  function Next(s: Shared, e: Event): Shared
    requires Enabled(s, e)
  {
    match e
    case StartAllocate => s.(threads := s.threads + [AllocLoad])
    case StartBump(target) => s.(threads := s.threads + [BumpLoad(target)])
    case Move(tid) =>
      match s.threads[tid]
      case AllocLoad =>
        s.(threads := s.threads[tid := if s.counter == MAX_INDEX then Exhausted else AllocCas(s.counter)])
      case AllocCas(current) =>
        if s.counter == current && current < MAX_INDEX then
          Shared(current + 1, s.threads[tid := Granted(current + 1)], s.grants + [current + 1])
        else
          s.(threads := s.threads[tid := AllocLoad])
      case BumpLoad(target) => s.(threads := s.threads[tid := BumpSaw(target, s.counter)])
      case BumpCas(target, current) =>
        if s.counter == current then s.(counter := target, threads := s.threads[tid := Bumped(target)])
        else s.(threads := s.threads[tid := BumpSaw(target, s.counter)])
      case _ => s
  }

  ghost predicate Reaches(s: Shared, es: seq<Event>, s': Shared)
    decreases |es|
  {
    if es == [] then s' == s
    else Enabled(s, es[0]) && Reaches(Next(s, es[0]), es[1..], s')
  }

  ghost predicate Inv(s: Shared) {
    && Ascending(s.grants)
    && (forall i :: 0 <= i < |s.grants| ==> 1 <= s.grants[i] <= s.counter)
    && (forall t :: 0 <= t < |s.threads| ==> ThreadInv(s, s.threads[t]))
    && (forall t, u :: 0 <= t < u < |s.threads| && s.threads[t].Granted? && s.threads[u].Granted?
                       ==> s.threads[t].idx != s.threads[u].idx)
  }

  ghost predicate ThreadInv(s: Shared, t: Thread) {
    match t
    case AllocCas(current) => current < MAX_INDEX
    case Granted(idx) => idx in s.grants
    case Exhausted => s.counter == MAX_INDEX
    case BumpCas(target, current) => current < target
    case Bumped(target) => target <= s.counter
    case _ => true
  }

  lemma NextInv(s: Shared, e: Event)
    requires Inv(s) && Enabled(s, e)
    ensures Inv(Next(s, e)) && s.counter <= Next(s, e).counter && s.grants <= Next(s, e).grants
  {
    var s' := Next(s, e);
    forall t | 0 <= t < |s'.threads| ensures ThreadInv(s', s'.threads[t]) {
      assert t < |s.threads| ==> ThreadInv(s, s.threads[t]);
    }
  }

  lemma {:induction false} RunInv(s: Shared, es: seq<Event>, s': Shared)
    requires Inv(s) && Reaches(s, es, s')
    ensures Inv(s') && s.counter <= s'.counter && s.grants <= s'.grants
    decreases |es|
  {
    hide Inv, Next;
    if es != [] {
      NextInv(s, es[0]);
      RunInv(Next(s, es[0]), es[1..], s');
    }
  }

  /**
    Over every interleaving from a new slot, at any two points `mid` and `s` of it: no index is
    granted twice, grants strictly increase, the counter never goes back, a finished bump
    leaves the counter at its target or beyond, and a thread is told `Exhausted` only once the
    counter has reached its maximum, where it stays.
  */
  lemma EveryInterleavingSafe(earlier: seq<Event>, mid: Shared, later: seq<Event>, s: Shared)
    requires Reaches(IDLE, earlier, mid) && Reaches(mid, later, s)
    ensures Ascending(s.grants) && mid.grants <= s.grants && mid.counter <= s.counter
    ensures forall t, u :: 0 <= t < u < |s.threads| && s.threads[t].Granted? && s.threads[u].Granted?
                           ==> s.threads[t].idx != s.threads[u].idx
    ensures forall t :: 0 <= t < |s.threads| && s.threads[t].Bumped? ==> s.threads[t].target <= s.counter
    ensures forall t :: 0 <= t < |mid.threads| && mid.threads[t].Exhausted? ==> mid.counter == s.counter == MAX_INDEX
  {
    RunInv(IDLE, earlier, mid);
    RunInv(mid, later, s);
    forall t | 0 <= t < |s.threads| ensures ThreadInv(s, s.threads[t]) {
    }
    forall t | 0 <= t < |mid.threads| ensures ThreadInv(mid, mid.threads[t]) {
    }
  }

  // ---------------------------------------------------------------- the atomic operations

  /** What `allocate_in_slot` does as one atomic step. */
  function AllocateAtomic(counter: u16): (u16, Option<u16>) {
    if counter == MAX_INDEX then (counter, None) else (counter + 1, Some(counter + 1))
  }

  /** What `bump_slot_at_least` does as one atomic step. */
  function BumpAtomic(counter: u16, target: u16): u16 {
    if counter < target then target else counter
  }

  /**
    Refinement: a thread's last step is its atomic operation, with the same result, and no
    other step of any thread changes the counter.
  */
  lemma LastStepIsAtomic(s: Shared, tid: nat)
    requires Inv(s) && tid < |s.threads|
    ensures var s' := Next(s, Move(tid));
            match s'.threads[tid]
            case Granted(idx) => s'.threads[tid] != s.threads[tid] ==>
                                   AllocateAtomic(s.counter) == (s'.counter, Some(idx))
            case Exhausted => AllocateAtomic(s.counter) == (s'.counter, None)
            case Bumped(target) => s'.threads[tid] != s.threads[tid] ==>
                                     s'.counter == BumpAtomic(s.counter, target)
            case _ => s'.counter == s.counter
  {
    assert ThreadInv(s, s.threads[tid]);
  }

  /**
    A thread that nobody disturbs finishes in two steps: an allocation is granted the index
    after the counter, or is told `Exhausted` at the maximum, and a bump leaves the larger of
    counter and target.
  */
  lemma UndisturbedFinishes(s: Shared, tid: nat)
    requires tid < |s.threads|
    ensures var s2 := Next(Next(s, Move(tid)), Move(tid));
            && (s.threads[tid].AllocLoad? && s.counter < 65535 ==>
                  s2.threads[tid] == Granted(s.counter + 1) && s2.counter == s.counter + 1 && s2.grants == s.grants + [s.counter + 1])
            && (s.threads[tid].AllocLoad? && s.counter == 65535 ==> s2.threads[tid] == Exhausted && s2.counter == s.counter)
            && (s.threads[tid].BumpLoad? ==>
                  var target := s.threads[tid].target;
                  s2.threads[tid] == Bumped(target) && s2.counter == if s.counter < target then target else s.counter)
  {
  }
}
