/** The durable roster snapshot: one join event per live peer, replayed at startup. */
module Snapshot {

  import opened Prelude
  import opened Ula
  import opened Roster

  /** What is saved of an entry; the liveness fields are not. */
  function ToEvent(p: PeerEntry): PeerJoined {
    PeerJoined(Some(p.peerId), p.pubkey, Some(p.ula), p.network, p.tags, p.hostedAppUlas,
               p.softwareVersion, p.meshVersion)
  }

  /** Events that do not apply are skipped. */
  function Replay(events: seq<PeerJoined>, now: Time): Mesh {
    if events == [] then EMPTY_MESH
    else ApplyJoined(Replay(events[..|events| - 1], now), events[|events| - 1], now).0
  }

  predicate Parses(e: PeerJoined) { e.peerId.Some? && e.ula.Some? }

  predicate Apart(e: PeerJoined, f: PeerJoined) {
    e.peerId != f.peerId && e.pubkey != f.pubkey && e.ula != f.ula
  }

  /** A snapshot of distinct peers. */
  predicate Distinct(events: seq<PeerJoined>) {
    && (forall e :: e in events ==> Parses(e))
    && (forall i, j :: 0 <= i < j < |events| ==> Apart(events[i], events[j]))
  }

  /** The roster holds exactly the peers of `events`. */
  ghost predicate Holds(m: Mesh, events: seq<PeerJoined>, now: Time) {
    && (forall e :: e in events && Parses(e) ==>
          e.peerId.value in m.peers && m.peers[e.peerId.value] == EntryOf(e, now))
    && (forall p :: p in m.peers ==> ToEvent(m.peers[p]) in events)
  }

  /** Each slot stands at the largest index in use in it. */
  ghost predicate Peaked(m: Mesh) {
    forall slot :: slot in m.counters ==> exists p :: p in m.peers && Attains(m, p, slot)
  }

  predicate Attains(m: Mesh, p: PeerId, slot: u16)
    requires p in m.peers
  {
    m.peers[p].ula.Slot() == slot && slot in m.counters && m.peers[p].ula.Index() == m.counters[slot]
  }

  ghost predicate Rebuilt(m: Mesh, events: seq<PeerJoined>, now: Time) {
    Consistent(m) && Holds(m, events, now) && Peaked(m) && m.issued == []
  }

  lemma DistinctSplit(before: seq<PeerJoined>, e: PeerJoined)
    requires Distinct(before + [e])
    ensures Distinct(before) && Parses(e)
    ensures forall f :: f in before ==> Apart(f, e)
  {
    var all := before + [e];
    assert e == all[|before|] && e in all;
    assert forall i :: 0 <= i < |before| ==> all[i] == before[i] && all[i] in all;
  }

  lemma {:induction false} ReplayRebuilds(events: seq<PeerJoined>, now: Time)
    requires Distinct(events)
    ensures Rebuilt(Replay(events, now), events, now)
    decreases |events|
  {
    if events == [] {
      assert Rebuilt(EMPTY_MESH, events, now);
    } else {
      hide Rebuilt, Distinct;
      var n := |events| - 1;
      var before, e := events[..n], events[n];
      assert events == before + [e];
      DistinctSplit(before, e);
      ReplayRebuilds(before, now);
      OneMore(Replay(before, now), before, e, now);
    }
  }

  lemma NewToMesh(m: Mesh, before: seq<PeerJoined>, e: PeerJoined, now: Time)
    requires Consistent(m) && Holds(m, before, now) && Parses(e) && forall f :: f in before ==> Apart(f, e)
    ensures e.peerId.value !in m.peers && e.pubkey !in m.byPubkey
    ensures forall p :: p in m.peers ==> m.peers[p].ula != e.ula.value
  {
    forall p | p in m.peers
      ensures m.peers[p].ula != e.ula.value && m.peers[p].pubkey != e.pubkey && p != e.peerId.value
    {
      assert ToEvent(m.peers[p]) in before;
    }
  }

  lemma OneMore(m: Mesh, before: seq<PeerJoined>, e: PeerJoined, now: Time)
    requires Rebuilt(m, before, now) && Parses(e) && forall f :: f in before ==> Apart(f, e)
    ensures Rebuilt(ApplyJoined(m, e, now).0, before + [e], now)
  {
    hide Consistent, Peaked;
    NewToMesh(m, before, e, now);
    NewPeerJoins(m, e, now);
    JoinPeaked(m, e, now);
    assert ToEvent(EntryOf(e, now)) == e;
  }

  lemma JoinPeaked(m: Mesh, e: PeerJoined, now: Time)
    requires Peaked(m) && ApplyJoined(m, e, now).1.Ok? && e.peerId.value !in m.peers
    ensures Peaked(ApplyJoined(m, e, now).0)
  {
    var m' := ApplyJoined(m, e, now).0;
    forall slot | slot in m'.counters ensures exists p :: p in m'.peers && Attains(m', p, slot) {
      if slot in m.counters && m'.counters[slot] == m.counters[slot] {
        var p :| p in m.peers && Attains(m, p, slot);
        assert Attains(m', p, slot);
      } else {
        assert Attains(m', e.peerId.value, slot);
      }
    }
  }

  lemma CountersWithin(m: Mesh, m': Mesh)
    requires Covered(m') && m.peers == m'.peers && Peaked(m)
    ensures forall slot :: m.Counter(slot) <= m'.Counter(slot)
  {
    forall slot ensures m.Counter(slot) <= m'.Counter(slot) {
      if slot in m.counters {
        var p :| p in m.peers && Attains(m, p, slot);
      }
    }
  }

  lemma IndexWithin(m: Mesh, m': Mesh)
    requires Indexed(m) && Indexed(m') && m.peers == m'.peers
    ensures forall k :: k in m.byPubkey ==> k in m'.byPubkey && m'.byPubkey[k] == m.byPubkey[k]
  {
  }

  /** Replaying the same distinct peers in any order gives the same roster, index and counters. */
  lemma ReplayOrderIrrelevant(a: seq<PeerJoined>, b: seq<PeerJoined>, now: Time)
    requires Distinct(a) && Distinct(b) && multiset(a) == multiset(b)
    ensures Replay(a, now).peers == Replay(b, now).peers && Replay(a, now).byPubkey == Replay(b, now).byPubkey
    ensures forall slot :: Replay(a, now).Counter(slot) == Replay(b, now).Counter(slot)
  {
    ReplayRebuilds(a, now);
    ReplayRebuilds(b, now);
    forall e ensures e in a <==> e in b {
      assert e in a <==> e in multiset(a);
    }
    SamePeersSameMesh(Replay(a, now), a, Replay(b, now), b, now);
  }

  lemma SamePeersSameMesh(m: Mesh, a: seq<PeerJoined>, m': Mesh, b: seq<PeerJoined>, now: Time)
    requires Rebuilt(m, a, now) && Rebuilt(m', b, now) && forall e :: e in a <==> e in b
    ensures m.peers == m'.peers && m.byPubkey == m'.byPubkey && forall slot :: m.Counter(slot) == m'.Counter(slot)
  {
    hide Peaked, Indexed, Holds, DistinctUlas, Covered;
    PeersWithin(m, a, m', b, now);
    PeersWithin(m', b, m, a, now);
    assert m.peers == m'.peers;
    IndexWithin(m, m');
    IndexWithin(m', m);
    CountersWithin(m, m');
    CountersWithin(m', m);
  }

  lemma PeersWithin(m: Mesh, a: seq<PeerJoined>, m': Mesh, b: seq<PeerJoined>, now: Time)
    requires Holds(m, a, now) && Holds(m', b, now) && forall e :: e in a ==> e in b
    requires forall p :: p in m.peers ==> m.peers[p].peerId == p
    ensures forall p :: p in m.peers ==> p in m'.peers && m'.peers[p] == m.peers[p]
  {
    forall p | p in m.peers ensures p in m'.peers && m'.peers[p] == m.peers[p] {
      assert ToEvent(m.peers[p]) in a;
    }
  }

  /** `events` saves every peer of `m` once, in the order `ids`. */
  ghost predicate Saves(m: Mesh, ids: seq<PeerId>, events: seq<PeerJoined>) {
    && |ids| == |events|
    && (forall i :: 0 <= i < |ids| ==> ids[i] in m.peers && events[i] == ToEvent(m.peers[ids[i]]))
    && (forall i, j :: 0 <= i < j < |ids| ==> ids[i] != ids[j])
    && (forall p :: p in m.peers ==> p in ids)
  }

  lemma SavedDistinct(m: Mesh, ids: seq<PeerId>, events: seq<PeerJoined>)
    requires Consistent(m) && Saves(m, ids, events)
    ensures Distinct(events)
  {
    forall i, j | 0 <= i < j < |events| ensures Apart(events[i], events[j]) {
      var p, q := m.peers[ids[i]], m.peers[ids[j]];
      assert m.byPubkey[p.pubkey] == ids[i] && m.byPubkey[q.pubkey] == ids[j];
    }
  }

  /**
    A restart keeps every identity: replaying a saved consistent roster restores exactly the
    same id, pubkey and address for every peer, and the rebuilt state is consistent again, so
    no restored address can be issued to someone else.
  */
  lemma RestartRestoresIdentities(m: Mesh, ids: seq<PeerId>, events: seq<PeerJoined>, now: Time)
    requires Consistent(m) && Saves(m, ids, events)
    ensures var r := Replay(events, now);
            && Consistent(r) && r.peers.Keys == m.peers.Keys && r.byPubkey == m.byPubkey
            && forall p :: p in m.peers ==> Restored(m.peers[p], r.peers[p])
  {
    SavedDistinct(m, ids, events);
    ReplayRebuilds(events, now);
    RestoredPeers(m, ids, events, Replay(events, now), now);
    var r := Replay(events, now);
    hide Replay, Saves, Indexed, DistinctUlas, Covered;
    forall p | p in m.peers ensures Restored(m.peers[p], r.peers[p]) {
      assert ToEvent(r.peers[p]) == ToEvent(m.peers[p]);
    }
  }

  /** Everything that says who a peer is and what it reported; only the liveness fields start anew. */
  predicate Restored(before: PeerEntry, after: PeerEntry) {
    && after.peerId == before.peerId && after.pubkey == before.pubkey && after.ula == before.ula
    && after.network == before.network && after.tags == before.tags && after.hostedAppUlas == before.hostedAppUlas
    && after.softwareVersion == before.softwareVersion && after.meshVersion == before.meshVersion
  }

  lemma RestoredPeers(m: Mesh, ids: seq<PeerId>, events: seq<PeerJoined>, r: Mesh, now: Time)
    requires Consistent(m) && Saves(m, ids, events) && Consistent(r) && Holds(r, events, now)
    ensures r.peers.Keys == m.peers.Keys && r.byPubkey == m.byPubkey
    ensures forall p :: p in m.peers ==> ToEvent(r.peers[p]) == ToEvent(m.peers[p])
  {
    hide Holds, Saves, Indexed, DistinctUlas, Covered;
    forall p | p in m.peers ensures p in r.peers && ToEvent(r.peers[p]) == ToEvent(m.peers[p]) {
      RestoredPeer(m, ids, events, r, now, p);
    }
    forall p | p in r.peers ensures p in m.peers {
      NoOtherPeer(m, ids, events, r, now, p);
    }
    SameKeysSameIndex(m, r);
  }

  lemma NoOtherPeer(m: Mesh, ids: seq<PeerId>, events: seq<PeerJoined>, r: Mesh, now: Time, p: PeerId)
    requires Consistent(m) && Saves(m, ids, events) && Consistent(r) && Holds(r, events, now) && p in r.peers
    ensures p in m.peers
  {
    hide Indexed, DistinctUlas, Covered;
    var i :| 0 <= i < |events| && events[i] == ToEvent(r.peers[p]);
    assert m.peers[ids[i]].peerId == ids[i] && r.peers[p].peerId == p;
  }

  lemma RestoredPeer(m: Mesh, ids: seq<PeerId>, events: seq<PeerJoined>, r: Mesh, now: Time, p: PeerId)
    requires Consistent(m) && Saves(m, ids, events) && Holds(r, events, now) && p in m.peers
    ensures p in r.peers && ToEvent(r.peers[p]) == ToEvent(m.peers[p])
  {
    var i :| 0 <= i < |ids| && ids[i] == p;
    assert events[i] in events && events[i] == ToEvent(m.peers[p]);
  }

  lemma SameKeysSameIndex(m: Mesh, r: Mesh)
    requires Indexed(m) && Indexed(r) && m.peers.Keys == r.peers.Keys
    requires forall p :: p in m.peers ==> r.peers[p].pubkey == m.peers[p].pubkey
    ensures m.byPubkey == r.byPubkey
  {
  }
}
