/** Identity stamping: which network and tags a registering node really gets. */
module Identity {

  import opened Prelude
  import opened PolicyModel
  import opened Ula

  const CAPABILITY_TAGS: seq<string> := ["supervisor", "firecracker", "docker", "builder"]

  /** `requestedUla` is text on the wire; `Some(None)` is text that does not parse. */
  datatype RegisterRequest = RegisterRequest(
    pubkey: Bytes,
    network: Network,
    tags: seq<string>,
    requestedUla: Option<Option<Addr>>,
    hostedAppUlas: seq<string>,
    softwareVersion: Option<string>,
    meshVersion: Option<string>)

  datatype Claims = Claims(network: Network, tags: seq<string>, requestedUlas: seq<Addr>)
  datatype NodeIdentity = NodeIdentity(network: Network, tags: seq<string>)

  /** `base` followed by the capability tags of `asked` it lacks, each once, in request order. */
  function MergedTags(base: seq<string>, asked: seq<string>): (r: seq<string>)
    ensures base <= r
    ensures forall t :: t in r <==> t in base || (t in asked && t in CAPABILITY_TAGS)
  {
    if asked == [] then base
    else
      var n := |asked| - 1;
      var r := MergedTags(base, asked[..n]);
      assert asked == asked[..n] + [asked[n]];
      if asked[n] in CAPABILITY_TAGS && asked[n] !in r then r + [asked[n]] else r
  }

  function Stamp(req: RegisterRequest, claims: Option<Claims>): NodeIdentity {
    if claims.None? then NodeIdentity(req.network, req.tags)
    else NodeIdentity(claims.value.network, MergedTags(claims.value.tags, req.tags))
  }

  method StampIdentity(req: RegisterRequest, claims: Option<Claims>) returns (id: NodeIdentity)
    ensures id == Stamp(req, claims)
  {
    if claims.None? {
      return NodeIdentity(req.network, req.tags);
    }
    var tags := claims.value.tags;
    var i := 0;
    while i < |req.tags|
      invariant 0 <= i <= |req.tags|
      invariant tags == MergedTags(claims.value.tags, req.tags[..i])
    {
      assert req.tags[..i + 1][..i] == req.tags[..i];
      if req.tags[i] in CAPABILITY_TAGS && req.tags[i] !in tags {
        tags := tags + [req.tags[i]];
      }
      i := i + 1;
    }
    assert req.tags[..i] == req.tags;
    return NodeIdentity(claims.value.network, tags);
  }

  /** Merging adds nothing twice: the tags after `base` are pairwise different and new. */
  lemma {:induction false} MergedOnce(base: seq<string>, asked: seq<string>, i: nat, j: nat)
    requires i < j < |MergedTags(base, asked)| && |base| <= j
    ensures MergedTags(base, asked)[i] != MergedTags(base, asked)[j]
    decreases |asked|
  {
    var n := |asked| - 1;
    var r := MergedTags(base, asked[..n]);
    if j < |r| {
      MergedOnce(base, asked[..n], i, j);
    } else {
      assert MergedTags(base, asked)[i] == r[i] && r[i] in r;
    }
  }

  // ---------------------------------------------------------------- interference

  lemma MatchesMerged(patterns: seq<string>, base: seq<string>, asked: seq<string>)
    ensures TagsMatchAny(patterns, MergedTags(base, asked))
            <==> TagsMatchAny(patterns, base) || exists t :: t in asked && t in CAPABILITY_TAGS && TagsMatchAny(patterns, [t])
  {
    if TagsMatchAny(patterns, MergedTags(base, asked)) && !TagsMatchAny(patterns, base) {
      var p :| p in patterns && (p == "*" || exists t :: t in MergedTags(base, asked) && TagMatches(p, t));
      var t :| t in MergedTags(base, asked) && TagMatches(p, t);
      assert t in asked && t in CAPABILITY_TAGS && t in [t];
      assert TagsMatchAny(patterns, [t]);
    }
    if t :| t in asked && t in CAPABILITY_TAGS && TagsMatchAny(patterns, [t]) {
      var p :| p in patterns && (p == "*" || exists u :: u in [t] && TagMatches(p, u));
      assert t in MergedTags(base, asked);
    }
  }

  lemma DirectedMerged(p: Policy, base: seq<string>, asked: seq<string>, other: seq<string>)
    ensures AllowsDirected(p, MergedTags(base, asked), other)
            <==> AllowsDirected(p, base, other) || exists t :: t in asked && t in CAPABILITY_TAGS && AllowsDirected(p, [t], other)
    ensures AllowsDirected(p, other, MergedTags(base, asked))
            <==> AllowsDirected(p, other, base) || exists t :: t in asked && t in CAPABILITY_TAGS && AllowsDirected(p, other, [t])
  {
    hide TagsMatchAny, MergedTags;
    forall r | r in p.acls
      ensures TagsMatchAny(r.src, MergedTags(base, asked))
              <==> TagsMatchAny(r.src, base) || exists t :: t in asked && t in CAPABILITY_TAGS && TagsMatchAny(r.src, [t])
      ensures TagsMatchAny(r.dst, MergedTags(base, asked))
              <==> TagsMatchAny(r.dst, base) || exists t :: t in asked && t in CAPABILITY_TAGS && TagsMatchAny(r.dst, [t])
    {
      MatchesMerged(r.src, base, asked);
      MatchesMerged(r.dst, base, asked);
    }
    SomeRule(p, base, asked, other);
  }

  lemma SomeRule(p: Policy, base: seq<string>, asked: seq<string>, other: seq<string>)
    requires forall r :: r in p.acls ==>
               && (TagsMatchAny(r.src, MergedTags(base, asked))
                   <==> TagsMatchAny(r.src, base) || exists t :: t in asked && t in CAPABILITY_TAGS && TagsMatchAny(r.src, [t]))
               && (TagsMatchAny(r.dst, MergedTags(base, asked))
                   <==> TagsMatchAny(r.dst, base) || exists t :: t in asked && t in CAPABILITY_TAGS && TagsMatchAny(r.dst, [t]))
    ensures AllowsDirected(p, MergedTags(base, asked), other)
            <==> AllowsDirected(p, base, other) || exists t :: t in asked && t in CAPABILITY_TAGS && AllowsDirected(p, [t], other)
    ensures AllowsDirected(p, other, MergedTags(base, asked))
            <==> AllowsDirected(p, other, base) || exists t :: t in asked && t in CAPABILITY_TAGS && AllowsDirected(p, other, [t])
  {
    hide TagsMatchAny, MergedTags;
    var merged := MergedTags(base, asked);
    if r :| r in p.acls && RuleAllows(r, merged, other) {
      if !TagsMatchAny(r.src, base) {
        var t :| t in asked && t in CAPABILITY_TAGS && TagsMatchAny(r.src, [t]);
        assert RuleAllows(r, [t], other);
      }
    }
    if r :| r in p.acls && RuleAllows(r, other, merged) {
      if !TagsMatchAny(r.dst, base) {
        var t :| t in asked && t in CAPABILITY_TAGS && TagsMatchAny(r.dst, [t]);
        assert RuleAllows(r, other, [t]);
      }
    }
    if r :| r in p.acls && RuleAllows(r, base, other) {
      assert RuleAllows(r, merged, other);
    }
    if r :| r in p.acls && RuleAllows(r, other, base) {
      assert RuleAllows(r, other, merged);
    }
    if t :| t in asked && t in CAPABILITY_TAGS && AllowsDirected(p, [t], other) {
      var r :| r in p.acls && RuleAllows(r, [t], other);
      assert RuleAllows(r, merged, other);
    }
    if t :| t in asked && t in CAPABILITY_TAGS && AllowsDirected(p, other, [t]) {
      var r :| r in p.acls && RuleAllows(r, other, [t]);
      assert RuleAllows(r, other, merged);
    }
  }

  /** What a request adds to a node's visibility: exactly what its capability tags see by themselves. */
  lemma MergedSeesExactly(p: Policy, base: seq<string>, asked: seq<string>, other: seq<string>)
    ensures CanSee(p, MergedTags(base, asked), other)
            <==> CanSee(p, base, other) || exists t :: t in asked && t in CAPABILITY_TAGS && CanSee(p, [t], other)
  {
    hide AllowsDirected, MergedTags;
    DirectedMerged(p, base, asked, other);
    if t :| t in asked && t in CAPABILITY_TAGS && AllowsDirected(p, [t], other) {
      assert CanSee(p, [t], other);
    }
    if t :| t in asked && t in CAPABILITY_TAGS && AllowsDirected(p, other, [t]) {
      assert CanSee(p, [t], other);
    }
  }

  /** With these claims, two requests are seen and see alike, towards every node. */
  ghost predicate Indistinguishable(p: Policy, claims: Claims) {
    forall one: RegisterRequest, two: RegisterRequest, other ::
      CanSee(p, Stamp(one, Some(claims)).tags, other) <==> CanSee(p, Stamp(two, Some(claims)).tags, other)
  }

  /** No capability tag sees a node that the claimed tags do not see already. */
  ghost predicate CapabilitiesAddNothing(p: Policy, claims: Claims) {
    forall t, other :: t in CAPABILITY_TAGS && CanSee(p, [t], other) ==> CanSee(p, claims.tags, other)
  }

  function Asking(tags: seq<string>): RegisterRequest {
    RegisterRequest([], [], tags, None, [], None, None)
  }

  /**
    Self-reported tags do not interfere, exactly when: under a policy and validated claims, no
    two requests of a node can be told apart by anyone if and only if no capability tag by
    itself opens a view that the claimed tags do not have. The network is always the claimed one.
  */
  lemma RequestsDoNotInterfereExactly(p: Policy, claims: Claims)
    ensures Indistinguishable(p, claims) <==> CapabilitiesAddNothing(p, claims)
    ensures forall req: RegisterRequest :: Stamp(req, Some(claims)).network == claims.network
  {
    hide CanSee, MergedTags;
    if Indistinguishable(p, claims) {
      forall t, other | t in CAPABILITY_TAGS && CanSee(p, [t], other) ensures CanSee(p, claims.tags, other) {
        MergedSeesExactly(p, claims.tags, [t], other);
        MergedSeesExactly(p, claims.tags, [], other);
        assert t in [t];
        assert CanSee(p, Stamp(Asking([t]), Some(claims)).tags, other)
               <==> CanSee(p, Stamp(Asking([]), Some(claims)).tags, other);
      }
    }
    if CapabilitiesAddNothing(p, claims) {
      forall one: RegisterRequest, two: RegisterRequest, other
        ensures CanSee(p, Stamp(one, Some(claims)).tags, other) <==> CanSee(p, Stamp(two, Some(claims)).tags, other)
      {
        MergedSeesExactly(p, claims.tags, one.tags, other);
        MergedSeesExactly(p, claims.tags, two.tags, other);
      }
    }
  }

  /** Apart from a bare `*`, no pattern of the policy looks at a capability tag. */
  ghost predicate IgnoresCapabilities(p: Policy) {
    forall r, s, t :: r in p.acls && (s in r.src || s in r.dst) && t in CAPABILITY_TAGS && s != "*"
                      ==> !TagMatches(s, t)
  }

  /** A policy that ignores capability tags meets the condition for all claims. */
  lemma RequestsDoNotInterfere(p: Policy, claims: Claims)
    requires IgnoresCapabilities(p)
    ensures Indistinguishable(p, claims)
  {
    forall t, other | t in CAPABILITY_TAGS && CanSee(p, [t], other) ensures CanSee(p, claims.tags, other) {
      if r :| r in p.acls && RuleAllows(r, [t], other) {
        assert RuleAllows(r, claims.tags, other);
      }
      if r :| r in p.acls && RuleAllows(r, other, [t]) {
        assert RuleAllows(r, other, claims.tags);
      }
    }
    RequestsDoNotInterfereExactly(p, claims);
  }

  /** Without that condition they do: a rule on `docker` lets a node show itself by asking for the tag. */
  lemma CapabilityRuleInterferes(one: RegisterRequest)
    requires one.tags == ["docker"]
    ensures var p := Policy([AclRule("accept", ["docker"], ["tag:a"])]);
            var claims := Some(Claims([], [], []));
            && CanSee(p, Stamp(one, claims).tags, ["tag:a"])
            && !CanSee(p, Stamp(one.(tags := []), claims).tags, ["tag:a"])
  {
    var rule := AclRule("accept", ["docker"], ["tag:a"]);
    var p, claims := Policy([rule]), Some(Claims([], [], []));
    assert CAPABILITY_TAGS[2] == "docker" && one.tags[0] == "docker";
    assert "docker" in Stamp(one, claims).tags && TagMatches("docker", "docker");
    assert "tag:a" in ["tag:a"] && TagMatches("tag:a", "tag:a");
    assert rule.src[0] == "docker" && rule.dst[0] == "tag:a" && p.acls[0] == rule;
    assert RuleAllows(rule, Stamp(one, claims).tags, ["tag:a"]);
    assert Stamp(one.(tags := []), claims).tags == [];
    assert "docker" != "tag:a" by { assert "docker"[0] != "tag:a"[0]; }
    assert "docker" != "*" && "tag:a" != "*";
  }

  /** Without claims the request is taken at its word; with claims network and tags are theirs, and the request adds capabilities only. */
  lemma StampExactly(req: RegisterRequest, claims: Option<Claims>, t: string)
    ensures claims.None? ==> Stamp(req, claims) == NodeIdentity(req.network, req.tags)
    ensures claims.Some? ==>
              var id := Stamp(req, claims);
              && id.network == claims.value.network && claims.value.tags <= id.tags
              && (t in id.tags <==> t in claims.value.tags || (t in req.tags && t in ["supervisor", "firecracker", "docker", "builder"]))
  {
  }
}
