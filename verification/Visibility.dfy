/** Who sees whom: the relay's access check and the roster view given to a peer. */
module Visibility {

  import opened PolicyModel
  import opened Roster

  predicate CanRelay(m: Mesh, p: Policy, src: Key, dst: Key) {
    && src in m.byPubkey && dst in m.byPubkey
    && m.byPubkey[src] in m.peers && m.byPubkey[dst] in m.peers
    && CanSee(p, m.peers[m.byPubkey[src]].tags, m.peers[m.byPubkey[dst]].tags)
  }

  predicate Sees(p: Policy, viewer: PeerId, tags: seq<string>, e: PeerEntry) {
    e.peerId != viewer && CanSee(p, tags, e.tags)
  }

  ghost predicate ByIndex(s: seq<PeerEntry>) {
    forall i, j :: 0 <= i < j < |s| ==> s[i].peerIndex <= s[j].peerIndex
  }

  /** Where `e` goes in a list ordered by index: behind every entry not above it. */
  function Position(s: seq<PeerEntry>, e: PeerEntry): (k: nat)
    requires ByIndex(s)
    ensures k <= |s|
    ensures forall i :: 0 <= i < |s| ==> (s[i].peerIndex <= e.peerIndex <==> i < k)
    decreases |s|
  {
    if s == [] || s[|s| - 1].peerIndex <= e.peerIndex then |s| else Position(s[..|s| - 1], e)
  }

  method InsertByIndex(s: seq<PeerEntry>, e: PeerEntry) returns (r: seq<PeerEntry>)
    requires ByIndex(s)
    ensures ByIndex(r) && multiset(r) == multiset(s) + multiset{e}
  {
    var k := Position(s, e);
    r := s[..k] + [e] + s[k..];
    assert s == s[..k] + s[k..];
  }

  /** The listed peers are exactly those visible, each once, ordered by index. */
  ghost predicate Lists(m: Mesh, p: Policy, viewer: PeerId, tags: seq<string>, view: seq<PeerEntry>) {
    && ByIndex(view)
    && (forall e :: e in view <==>
          exists id :: id in m.peers && m.peers[id] == e && e.peerId != viewer && CanSee(p, tags, e.tags))
    && (forall e :: multiset(view)[e] <= 1)
  }

  /** The roster as a viewer sees it. */
  method VisiblePeers(m: Mesh, p: Policy, viewer: PeerId, tags: seq<string>) returns (view: seq<PeerEntry>)
    requires forall id :: id in m.peers ==> m.peers[id].peerId == id
    ensures Lists(m, p, viewer, tags, view)
  {
    hide CanSee;
    view := [];
    var todo := m.peers.Keys;
    while todo != {}
      invariant todo <= m.peers.Keys && ByIndex(view)
      invariant forall e :: multiset(view)[e] == if Shown(m, p, viewer, tags, todo, e) then 1 else 0
      decreases todo
    {
      var id :| id in todo;
      ghost var before := todo;
      todo := todo - {id};
      var e := m.peers[id];
      assert e.peerId == id;
      forall x ensures Shown(m, p, viewer, tags, todo, x)
                       <==> Shown(m, p, viewer, tags, before, x) || (x == e && Sees(p, viewer, tags, e)) {
      }
      assert !Shown(m, p, viewer, tags, before, e);
      if Sees(p, viewer, tags, e) {
        view := InsertByIndex(view, e);
      }
    }
    forall e ensures e in view <==>
                       exists id :: id in m.peers && m.peers[id] == e && e.peerId != viewer && CanSee(p, tags, e.tags) {
      assert e in view <==> multiset(view)[e] > 0;
    }
  }

  /** The peer is visible and already visited. */
  ghost predicate Shown(m: Mesh, p: Policy, viewer: PeerId, tags: seq<string>, todo: set<PeerId>, e: PeerEntry) {
    e.peerId in m.peers && e.peerId !in todo && m.peers[e.peerId] == e && Sees(p, viewer, tags, e)
  }

  /**
    Relay and direct sessions obey one rule: for two different peers, permission to relay is
    membership in the visible roster, and it holds in both directions or in neither.
  */
  lemma RelayAgreesWithDirectView(m: Mesh, p: Policy, a: PeerId, b: PeerId, viewA: seq<PeerEntry>, viewB: seq<PeerEntry>)
    requires Consistent(m) && a in m.peers && b in m.peers && a != b
    requires Lists(m, p, a, m.peers[a].tags, viewA) && Lists(m, p, b, m.peers[b].tags, viewB)
    ensures CanRelay(m, p, m.peers[a].pubkey, m.peers[b].pubkey) <==> m.peers[b] in viewA
    ensures CanRelay(m, p, m.peers[b].pubkey, m.peers[a].pubkey) <==> m.peers[a] in viewB
    ensures m.peers[b] in viewA <==> m.peers[a] in viewB
  {
    hide DistinctUlas, Covered, AllowsDirected, ByIndex;
    assert m.byPubkey[m.peers[a].pubkey] == a && m.byPubkey[m.peers[b].pubkey] == b;
    assert m.peers[a].peerId == a && m.peers[b].peerId == b;
  }

  /** A peer that left can neither send nor be reached over the relay until its key joins again. */
  lemma LeftPeerIsNotRelayed(m: Mesh, p: Policy, id: PeerId, other: Key)
    requires Consistent(m) && id in m.peers
    ensures var m', key := ApplyLeft(m, id), m.peers[id].pubkey;
            && !CanRelay(m', p, key, other) && !CanRelay(m', p, other, key)
            && forall a, b :: a != key && b != key ==> (CanRelay(m', p, a, b) <==> CanRelay(m, p, a, b))
  {
    hide CanSee, DistinctUlas, Covered;
    var m', key := ApplyLeft(m, id), m.peers[id].pubkey;
    forall k | k != key ensures k in m'.byPubkey <==> k in m.byPubkey {
    }
    forall k | k in m.byPubkey && k != key ensures m.byPubkey[k] != id && m'.byPubkey[k] == m.byPubkey[k] {
    }
  }
}
