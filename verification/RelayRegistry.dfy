/**
  The relay registry: pubkey to live sockets, with a bounded spool for frames whose lane is
  not connected. Each method is proved to be one step of `RelayLine` for the pubkey it is
  called with and to leave every other pubkey's line unchanged.
*/
module RelayRegistryModel {

  import opened Prelude
  import opened RelayLine

  type Key = Bytes

  const WAKE_COOLDOWN: Time := 5_000_000

  /** What the model records about a pubkey beside the registry's own fields. */
  datatype History = History(newest: int, halfDone: nat, submitted: seq<Frame>, fates: seq<Fate>)

  const NO_HISTORY := History(-1, 0, [], [])

  lemma NothingToReap(l: Line, now: Time)
    requires l.spool == []
    ensures ReapExpired(l, now) == l
  {
    assert l.fates + DropAll(Expired, []) == l.fates;
  }

  function ClosedSocket(c: Option<LaneConn>): nat {
    if c.Some? && !c.value.tx.open then 1 else 0
  }

  /** How many of a pubkey's sockets have a closed receiver. */
  function ClosedSockets(l: Line): nat {
    ClosedSocket(l.Conns().hi) + ClosedSocket(l.Conns().lo)
  }

  /** How many of the frames held for a pubkey are too old. */
  function StaleFrames(l: Line, now: Time): nat { |Lose(l.spool, now)| }

  ghost function Sum(counts: map<Key, nat>): nat
    decreases counts.Keys
  {
    if counts.Keys == {} then 0
    else
      var k :| k in counts;
      counts[k] + Sum(counts - {k})
  }

  lemma {:induction false} SumWithout(counts: map<Key, nat>, k: Key)
    requires k in counts
    ensures Sum(counts) == counts[k] + Sum(counts - {k})
    decreases counts.Keys
  {
    var j :| j in counts && Sum(counts) == counts[j] + Sum(counts - {j});
    if j != k {
      SumWithout(counts - {j}, k);
      SumWithout(counts - {k}, j);
      assert counts - {j} - {k} == counts - {k} - {j};
    }
  }

  lemma SumEmpty(counts: map<Key, nat>)
    requires counts.Keys == {}
    ensures Sum(counts) == 0
  {
  }

  lemma {:induction false} KeptAndLost(q: seq<SpooledFrame>, now: Time)
    ensures |Keep(q, now)| + |Lose(q, now)| == |q|
    decreases |q|
  {
    if q != [] {
      KeptAndLost(q[1..], now);
    }
  }

  class RelayRegistry {
    var conns: map<Key, PeerConns>
    var spool: map<Key, seq<SpooledFrame>>
    var nextId: nat
    var wakeCooldown: map<Key, Time>
    var history: map<Key, History>

    ghost predicate Valid()
      reads this`spool, this`history, this`nextId
    {
      && (forall k :: k in spool ==> spool[k] != [])
      && (forall k :: k in history ==> history[k].newest < nextId)
    }

    function Recorded(key: Key): History
      reads this`history
    {
      if key in history then history[key] else NO_HISTORY
    }

    /** This pubkey's part of the registry. */
    function LineOf(key: Key): Line
      reads this`conns, this`spool, this`history
    {
      var h := Recorded(key);
      Line(if key in conns then Some(conns[key]) else None,
           if key in spool then spool[key] else [],
           h.newest, h.halfDone, h.submitted, h.fates)
    }

    constructor ()
      ensures Valid() && wakeCooldown == map[]
      ensures forall k :: LineOf(k) == FRESH
    {
      conns, spool, nextId, wakeCooldown, history := map[], map[], 0, map[], map[];
    }

    method Record(key: Key, fate: Fate)
      requires Valid()
      modifies this`history
      ensures Valid()
      ensures LineOf(key) == old(LineOf(key)).(fates := old(LineOf(key)).fates + [fate])
      ensures forall k :: k != key ==> LineOf(k) == old(LineOf(k))
    {
      var h := Recorded(key);
      history := history[key := h.(fates := h.fates + [fate])];
    }

    method PushSpool(key: Key, frame: Frame, now: Time)
      requires Valid()
      modifies this`spool, this`history
      ensures Valid()
      ensures LineOf(key) == Hold(old(LineOf(key)), frame, now)
      ensures forall k :: k != key ==> LineOf(k) == old(LineOf(k))
    {
      var q := if key in spool then spool[key] else [];
      if |q| >= SPOOL_CAP {
        Record(key, Dropped(Evicted, q[0].frame));
        q := q[1..];
      }
      spool := spool[key := q + [SpooledFrame(now, frame)]];
    }

    /** `forward` without the model's stamping, as the flush in `Register` uses it. */
    method Send(key: Key, frame: Frame, now: Time) returns (delivered: bool)
      requires Valid()
      modifies this`conns, this`spool, this`history
      ensures Valid()
      ensures LineOf(key) == Route(old(LineOf(key)), frame, now)
      ensures forall k :: k != key ==> LineOf(k) == old(LineOf(k))
      ensures delivered <==> LineOf(key).entry != old(LineOf(key)).entry
    {
      if key in conns && conns[key].Pick(frame.hiPrio).Some? {
        var lane := conns[key].Pick(frame.hiPrio).value;
        var c := conns[key].Slot(lane).value;
        if !c.tx.open {
          PushSpool(key, frame, now);
          return false;
        } else if c.tx.Full() {
          Record(key, Dropped(ChannelFull, frame));
          return false;
        } else {
          var c' := c.(tx := c.tx.(queue := c.tx.queue + [frame]));
          conns := conns[key := conns[key].With(lane, Some(c'))];
          Record(key, Handed(lane, c.id, frame));
          return true;
        }
      }
      PushSpool(key, frame, now);
      return false;
    }

    method ForwardFrame(key: Key, bytes: Bytes, hiPrio: bool, now: Time) returns (delivered: bool)
      requires Valid()
      modifies this`conns, this`spool, this`history
      ensures Valid()
      ensures LineOf(key) == Forward(old(LineOf(key)), bytes, hiPrio, now)
      ensures forall k :: k != key ==> LineOf(k) == old(LineOf(k))
      ensures delivered <==> LineOf(key).entry != old(LineOf(key)).entry
    {
      var h := Recorded(key);
      var frame := Frame(|h.submitted|, hiPrio, bytes);
      history := history[key := h.(submitted := h.submitted + [frame])];
      delivered := Send(key, frame, now);
    }

    method RegisterConn(key: Key, lane: Lane, tx: Channel, now: Time) returns (id: nat)
      requires Valid()
      modifies this`conns, this`spool, this`history, this`nextId
      ensures Valid()
      ensures id == old(nextId) && nextId == id + 1 && old(LineOf(key)).newest < id
      ensures LineOf(key) == Register(old(LineOf(key)), lane, id, tx, now)
      ensures forall k :: k != key ==> LineOf(k) == old(LineOf(k))
    {
      id := nextId;
      nextId := nextId + 1;
      var pc := if key in conns then conns[key] else NO_CONNS;
      conns := conns[key := pc.With(lane, Some(LaneConn(id, tx)))];
      history := history[key := Recorded(key).(newest := id)];
      if key in spool {
        var held := spool[key];
        spool := spool - {key};
        FlushHeld(key, held, now);
      }
    }

    method FlushHeld(key: Key, held: seq<SpooledFrame>, now: Time)
      requires Valid()
      modifies this`conns, this`spool, this`history
      ensures Valid()
      ensures LineOf(key) == Flush(old(LineOf(key)), held, now)
      ensures forall k :: k != key ==> LineOf(k) == old(LineOf(k))
    {
      var i := 0;
      while i < |held|
        invariant 0 <= i <= |held|
        invariant Valid()
        invariant Flush(LineOf(key), held[i..], now) == Flush(old(LineOf(key)), held, now)
        invariant forall k :: k != key ==> LineOf(k) == old(LineOf(k))
      {
        assert held[i..][0] == held[i] && held[i..][1..] == held[i + 1..];
        if now - held[i].at > SPOOL_TTL {
          Record(key, Dropped(Expired, held[i].frame));
        } else {
          var _ := Send(key, held[i].frame, now);
        }
        i := i + 1;
      }
    }

    method Unregister(key: Key, lane: Lane, id: nat)
      requires Valid()
      modifies this`conns, this`history
      ensures Valid()
      ensures var half := UnregisterClear(old(LineOf(key)), lane, id);
              LineOf(key) == if half.halfDone > old(LineOf(key)).halfDone then UnregisterSweep(half) else half
      ensures forall k :: k != key ==> LineOf(k) == old(LineOf(k))
    {
      var nowEmpty := ClearSlot(key, lane, id);
      if nowEmpty {
        RemoveIfEmpty(key);
      }
    }

    /** First lock scope of `Unregister`. */
    method ClearSlot(key: Key, lane: Lane, id: nat) returns (nowEmpty: bool)
      requires Valid()
      modifies this`conns, this`history
      ensures Valid()
      ensures LineOf(key) == UnregisterClear(old(LineOf(key)), lane, id)
      ensures nowEmpty <==> LineOf(key).halfDone > old(LineOf(key)).halfDone
      ensures forall k :: k != key ==> LineOf(k) == old(LineOf(k))
    {
      if key !in conns {
        return false;
      }
      var slot := conns[key].Slot(lane);
      if slot.Some? && slot.value.id == id {
        conns := conns[key := conns[key].With(lane, None)];
      }
      nowEmpty := conns[key].IsEmpty();
      if nowEmpty {
        var h := Recorded(key);
        history := history[key := h.(halfDone := h.halfDone + 1)];
      }
    }

    /** Second lock scope of `Unregister`: re-check under the removal lock. */
    method RemoveIfEmpty(key: Key)
      requires Valid() && LineOf(key).halfDone > 0
      modifies this`conns, this`history
      ensures Valid()
      ensures LineOf(key) == UnregisterSweep(old(LineOf(key)))
      ensures forall k :: k != key ==> LineOf(k) == old(LineOf(k))
    {
      if key in conns && conns[key].IsEmpty() {
        conns := conns - {key};
      }
      history := history[key := history[key].(halfDone := history[key].halfDone - 1)];
    }

    method DropPeer(key: Key)
      requires Valid()
      modifies this`conns, this`spool, this`history
      ensures Valid()
      ensures LineOf(key) == DropPubkey(old(LineOf(key)))
      ensures key !in conns && key !in spool
      ensures forall k :: k != key ==> LineOf(k) == old(LineOf(k))
    {
      var q := LineOf(key).spool;
      var h := Recorded(key);
      conns := conns - {key};
      spool := spool - {key};
      history := history[key := h.(fates := h.fates + DropAll(Cleared, q))];
    }

    method ReapPeer(key: Key) returns (reaped: nat)
      requires Valid() && key in conns
      modifies this`conns
      ensures Valid() && old(conns).Keys - {key} <= conns.Keys
      ensures LineOf(key) == ReapClosed(old(LineOf(key))) && reaped == ClosedSockets(old(LineOf(key)))
      ensures forall k :: k != key ==> LineOf(k) == old(LineOf(k))
    {
      reaped := 0;
      var c := conns[key];
      if c.hi.Some? && !c.hi.value.tx.open {
        c := c.(hi := None);
        reaped := reaped + 1;
      }
      if c.lo.Some? && !c.lo.value.tx.open {
        c := c.(lo := None);
        reaped := reaped + 1;
      }
      conns := if c.IsEmpty() then conns - {key} else conns[key := c];
    }

    method ReapClosedConns() returns (reaped: nat)
      requires Valid()
      modifies this`conns
      ensures Valid()
      ensures forall k :: LineOf(k) == ReapClosed(old(LineOf(k)))
      ensures reaped == Sum(map k | k in old(conns) :: ClosedSockets(old(LineOf(k))))
    {
      hide LineOf, ReapClosed, Valid, Sum, ClosedSockets;
      NothingUnconnected();
      ghost var counts := map k | k in conns :: ClosedSockets(LineOf(k));
      ghost var left := counts;
      var todo := conns.Keys;
      reaped := 0;
      while todo != {}
        invariant Valid() && todo <= conns.Keys
        invariant forall k :: LineOf(k) == if k in todo then old(LineOf(k)) else ReapClosed(old(LineOf(k)))
        invariant left.Keys == todo && forall k :: k in todo ==> left[k] == ClosedSockets(old(LineOf(k)))
        invariant reaped + Sum(left) == Sum(counts)
        decreases todo
      {
        var k :| k in todo;
        SumWithout(left, k);
        left := left - {k};
        todo := todo - {k};
        assert todo <= conns.Keys - {k};
        var n := ReapPeer(k);
        reaped := reaped + n;
      }
      SumEmpty(left);
    }

    lemma NothingUnconnected()
      ensures forall k :: k !in conns ==> ReapClosed(LineOf(k)) == LineOf(k)
    {
    }

    method ExpirePeer(key: Key, now: Time) returns (dropped: nat)
      requires Valid() && key in spool
      modifies this`spool, this`history
      ensures Valid() && old(spool).Keys - {key} <= spool.Keys
      ensures LineOf(key) == ReapExpired(old(LineOf(key)), now) && dropped == StaleFrames(old(LineOf(key)), now)
      ensures forall k :: k != key ==> LineOf(k) == old(LineOf(k))
    {
      var q, h := spool[key], Recorded(key);
      var kept := Keep(q, now);
      spool := if kept == [] then spool - {key} else spool[key := kept];
      history := history[key := h.(fates := h.fates + DropAll(Expired, Lose(q, now)))];
      KeptAndLost(q, now);
      dropped := |q| - |kept|;
    }

    lemma NothingElsewhere(now: Time)
      ensures forall k :: k !in spool ==> ReapExpired(LineOf(k), now) == LineOf(k)
    {
      forall k | k !in spool ensures ReapExpired(LineOf(k), now) == LineOf(k) {
        NothingToReap(LineOf(k), now);
      }
    }

    method ReapExpiredSpool(now: Time) returns (dropped: nat)
      requires Valid()
      modifies this`spool, this`history
      ensures Valid()
      ensures forall k :: LineOf(k) == ReapExpired(old(LineOf(k)), now)
      ensures dropped == Sum(map k | k in old(spool) :: StaleFrames(old(LineOf(k)), now))
    {
      hide ReapExpired, LineOf, Valid, Sum, StaleFrames;
      NothingElsewhere(now);
      ghost var counts := map k | k in spool :: StaleFrames(LineOf(k), now);
      ghost var left := counts;
      var todo := spool.Keys;
      dropped := 0;
      while todo != {}
        invariant Valid() && todo <= spool.Keys
        invariant forall k :: LineOf(k) == if k in todo then old(LineOf(k)) else ReapExpired(old(LineOf(k)), now)
        invariant left.Keys == todo && forall k :: k in todo ==> left[k] == StaleFrames(old(LineOf(k)), now)
        invariant dropped + Sum(left) == Sum(counts)
        decreases todo
      {
        var k :| k in todo;
        SumWithout(left, k);
        left := left - {k};
        todo := todo - {k};
        assert todo <= spool.Keys - {k};
        var n := ExpirePeer(k, now);
        dropped := dropped + n;
      }
      SumEmpty(left);
    }

    /** Claim the one wake allowed toward `dst` per cooldown. */
    method TakeWakeSlot(dst: Key, now: Time) returns (granted: bool)
      modifies this`wakeCooldown
      ensures granted <==> dst !in old(wakeCooldown) || now - old(wakeCooldown)[dst] >= WAKE_COOLDOWN
      ensures wakeCooldown == if granted then old(wakeCooldown)[dst := now] else old(wakeCooldown)
    {
      if dst in wakeCooldown && now - wakeCooldown[dst] < WAKE_COOLDOWN {
        return false;
      }
      wakeCooldown := wakeCooldown[dst := now];
      return true;
    }
  }
}
