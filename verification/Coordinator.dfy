/**
  The coordinator's in-memory state changed in place: roster, pubkey index and address
  counters, with the relay registry and the punch tracker they drive.
*/
module CoordinatorModel {

  import opened Prelude
  import opened Ula
  import opened PolicyModel
  import opened Roster
  import Allocator = UlaAllocatorModel
  import opened RelayLine
  import opened RelayRouter
  import Registry = RelayRegistryModel
  import Punch = HolePunch
  import Snapshot

  class Coordinator {
    var roster: map<PeerId, PeerEntry>
    var byPubkey: map<Key, PeerId>
    var counters: map<u16, u16>
    var issued: seq<Addr>
    var policy: Policy
    var proactive: bool
    var wakes: seq<RelayWake>
    const relay: Registry.RelayRegistry
    const punches: Punch.PunchTracker

    ghost function View(): Mesh
      reads this
    {
      Mesh(roster, byPubkey, counters, issued)
    }

    constructor (policy: Policy, proactive: bool)
      ensures relay.Valid() && fresh(relay) && fresh(punches)
      ensures View() == EMPTY_MESH && this.policy == policy && this.proactive == proactive && wakes == []
      ensures relay.wakeCooldown == map[] && forall k :: relay.LineOf(k) == FRESH
      ensures punches.pairs == map[]
    {
      roster, byPubkey, counters, issued := map[], map[], map[], [];
      this.policy, this.proactive, wakes := policy, proactive, [];
      relay := new Registry.RelayRegistry();
      punches := new Punch.PunchTracker();
    }

    method ApplyPeerJoined(e: PeerJoined, now: Time) returns (r: Result<PeerEntry, Error>)
      modifies this`roster, this`byPubkey, this`counters
      ensures (View(), r) == ApplyJoined(old(View()), e, now)
    {
      if e.peerId.None? || e.ula.None? {
        return Err(InvalidPeerId);
      }
      var id, ula := e.peerId.value, e.ula.value;
      if exists p :: p in roster && roster[p].ula == ula && roster[p].peerId != id {
        return Err(UlaConflict(ula));
      }
      var entry := PeerEntry(id, e.pubkey, ula, ula.Index(), e.network, e.tags, e.hostedAppUlas, now, "",
                             e.softwareVersion, e.meshVersion);
      roster := roster[id := entry];
      byPubkey := byPubkey[e.pubkey := id];
      var slot := ula.Slot();
      var counter := if slot in counters then counters[slot] else 0;
      counters := counters[slot := Allocator.BumpAtomic(counter, ula.Index())];
      return Ok(entry);
    }

    /** Startup: replay the saved roster, skipping what does not apply. */
    method Restore(events: seq<PeerJoined>, now: Time)
      requires View() == EMPTY_MESH
      modifies this`roster, this`byPubkey, this`counters
      ensures View() == Snapshot.Replay(events, now)
    {
      hide ApplyJoined;
      for i := 0 to |events|
        invariant View() == Snapshot.Replay(events[..i], now)
      {
        assert events[..i + 1][..i] == events[..i];
        var _ := ApplyPeerJoined(events[i], now);
      }
      assert events[..|events|] == events;
    }

    method ApplyPeerHeartbeat(e: PeerHeartbeat, now: Time)
      modifies this`roster
      ensures View() == ApplyHeartbeat(old(View()), e, now)
    {
      if e.peerId.Some? && e.peerId.value in roster {
        var entry := roster[e.peerId.value];
        entry := entry.(lastHeartbeat := now, observedExternal := e.observedExternal, hostedAppUlas := e.hostedAppUlas);
        if e.softwareVersion.Some? {
          entry := entry.(softwareVersion := e.softwareVersion);
        }
        if e.meshVersion.Some? {
          entry := entry.(meshVersion := e.meshVersion);
        }
        roster := roster[e.peerId.value := entry];
      }
    }

    /** A leave erases the peer everywhere and touches no other peer. */
    method ApplyPeerLeft(peerId: Option<PeerId>)
      requires relay.Valid()
      modifies this`roster, this`byPubkey, relay, punches
      ensures relay.Valid()
      ensures peerId.None? || peerId.value !in old(roster) ==>
                View() == old(View()) && unchanged(relay) && unchanged(punches)
      ensures peerId.Some? && peerId.value in old(roster) ==>
                var id, key := peerId.value, old(roster)[peerId.value].pubkey;
                && View() == ApplyLeft(old(View()), id) && id !in roster && key !in byPubkey
                && key !in relay.conns && key !in relay.spool
                && (forall k :: relay.LineOf(k) == if k == key then DropPubkey(old(relay.LineOf(k))) else old(relay.LineOf(k)))
                && (forall p :: punches.At(p) == if id == p.a || id == p.b then None else old(punches.At(p)))
    {
      if peerId.Some? && peerId.value in roster {
        var id := peerId.value;
        var entry := roster[id];
        roster := roster - {id};
        byPubkey := byPubkey - {entry.pubkey};
        relay.DropPeer(entry.pubkey);
        var _ := punches.RemovePeer(id);
      }
    }

    method ReapStaleResources(now: Time)
      requires relay.Valid()
      modifies relay, punches
      ensures relay.Valid()
      ensures forall k :: relay.LineOf(k) == ReapExpired(ReapClosed(old(relay.LineOf(k))), now)
      ensures forall p :: punches.At(p) == Punch.Reap(old(punches.At(p)), now - Punch.PAIR_TTL)
    {
      hide ReapExpired, ReapClosed;
      var _ := relay.ReapClosedConns();
      var _ := relay.ReapExpiredSpool(now);
      var _ := punches.ReapOlderThan(now - Punch.PAIR_TTL);
    }

    /** When the destination was last woken. */
    ghost function Woken(dst: Key): Option<Time>
      reads relay`wakeCooldown
    {
      if dst in relay.wakeCooldown then Some(relay.wakeCooldown[dst]) else None
    }

    /** Route one uplink frame from the connection registered as `src`. */
    method RouteUplink(src: Key, buf: Bytes, now: Time) returns (r: Option<Bytes>)
      requires relay.Valid() && |src| == 32
      modifies this`wakes, relay
      ensures relay.Valid()
      ensures forall k :: relay.LineOf(k) == RouteOn(View(), policy, old(relay.LineOf(k)), k, src, buf, now)
      ensures var dst, payload := if Decode(buf).Some? then Decode(buf).value.key else [],
                                  if Decode(buf).Some? then Decode(buf).value.payload else [];
              var accepted := Accepts(View(), policy, src, buf, dst);
              var before, after := old(relay.LineOf(dst)), relay.LineOf(dst);
              var rouses := accepted && Rouses(proactive, old(Woken(dst)), before, after, payload, now);
              && r == (if after.entry != before.entry then Some(Encode(src, payload)) else None)
              && relay.wakeCooldown == (if rouses then old(relay.wakeCooldown)[dst := now] else old(relay.wakeCooldown))
              && (wakes != old(wakes) ==> |buf| >= 33 && buf[32] == 1 && proactive && r == None)
              && wakes == old(wakes)
                          + if rouses then [RelayWake(byPubkey[dst], roster[byPubkey[src]].ula, now)] else []
    {
      hide CanSee, Forward;
      var decoded := Decode(buf);
      if decoded.None? {
        return None;
      }
      var Datagram(dst, payload) := decoded.value;
      if !(src in byPubkey && dst in byPubkey && byPubkey[src] in roster && byPubkey[dst] in roster
           && CanSee(policy, roster[byPubkey[src]].tags, roster[byPubkey[dst]].tags)) {
        return None;
      }
      var downlink := Encode(src, payload);
      var delivered := relay.ForwardFrame(dst, downlink, IsHandshake(payload), now);
      if delivered {
        return Some(downlink);
      }
      if IsInit(payload) && proactive {
        var granted := relay.TakeWakeSlot(dst, now);
        if granted {
          wakes := wakes + [RelayWake(byPubkey[dst], roster[byPubkey[src]].ula, now)];
        }
      }
      return None;
    }
  }
}
