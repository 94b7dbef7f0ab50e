/** A coordinator restart seen from a joiner: save, replay, re-register. */
module Restart {

  import opened Prelude
  import opened Identity
  import opened Roster
  import opened Registration
  import opened Snapshot

  /**
    A restart does not reshuffle addresses: a peer of the saved roster that registers again
    gets its old peer id and its old address, unless validated claims move it to another
    network.
  */
  lemma StickyAcrossRestart(m: Mesh, ids: seq<PeerId>, events: seq<PeerJoined>, restartedAt: Time,
                            req: RegisterRequest, claims: Option<Claims>, observed: Option<string>,
                            newId: PeerId, now: Time, timeout: Time)
    requires Consistent(m) && Saves(m, ids, events) && req.pubkey in m.byPubkey && |req.pubkey| == 32
    requires AuthorizeFixed(req.requestedUla, claims).None?
    requires claims.Some? ==> claims.value.network == m.peers[m.byPubkey[req.pubkey]].network
    ensures var before := m.peers[m.byPubkey[req.pubkey]];
            var o := Register(Replay(events, restartedAt), req, claims, observed, newId, now, timeout);
            && o.result.Ok? && o.result.value.peerId == before.peerId
            && o.result.value.ula == before.ula && o.result.value.network == before.network
            && Consistent(o.mesh)
  {
    hide Replay, Saves, Indexed, DistinctUlas, Covered, AuthorizeFixed, FirstTime, MergedTags;
    RestartRestoresIdentities(m, ids, events, restartedAt);
    var r := Replay(events, restartedAt);
    KnownIsListed(m, req.pubkey);
    KnownIsListed(r, req.pubkey);
    assert Restored(m.peers[m.byPubkey[req.pubkey]], r.peers[m.byPubkey[req.pubkey]]);
    RefreshSafe(r, req, claims, observed, now, timeout);
  }
}
