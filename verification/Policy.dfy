/** The tag-based allow-graph: prefix wildcards, symmetric visibility, and its validator. */
module PolicyModel {

  import opened Prelude

  const TAG_NET_PREFIX: string := "tag:net-"
  const TAG_SYSTEM: string := "tag:system"

  datatype AclRule = AclRule(action: string, src: seq<string>, dst: seq<string>) {
    predicate IsAccept() { action == "accept" }
  }

  datatype Policy = Policy(acls: seq<AclRule>)

  const BOOTSTRAP := Policy([AclRule("accept", [TAG_SYSTEM], [TAG_SYSTEM])])

  predicate IsWildcard(pattern: string) {
    |pattern| > 0 && pattern[|pattern| - 1] == '*'
  }

  function Stem(pattern: string): string
    requires IsWildcard(pattern)
  {
    pattern[..|pattern| - 1]
  }

  predicate TagMatches(pattern: string, tag: string) {
    if pattern == "*" then true
    else if IsWildcard(pattern) then Stem(pattern) <= tag
    else pattern == tag
  }

  /** A bare `*` matches any node, even one without tags. */
  predicate TagsMatchAny(patterns: seq<string>, tags: seq<string>) {
    exists p :: p in patterns && (p == "*" || exists t :: t in tags && TagMatches(p, t))
  }

  predicate RuleAllows(r: AclRule, srcTags: seq<string>, dstTags: seq<string>) {
    r.IsAccept() && TagsMatchAny(r.src, srcTags) && TagsMatchAny(r.dst, dstTags)
  }

  predicate AllowsDirected(p: Policy, srcTags: seq<string>, dstTags: seq<string>) {
    exists r :: r in p.acls && RuleAllows(r, srcTags, dstTags)
  }

  predicate CanSee(p: Policy, a: seq<string>, b: seq<string>) {
    AllowsDirected(p, a, b) || AllowsDirected(p, b, a)
  }

  // ---------------------------------------------------------------- validation

  predicate CrossTenantGlobSource(pattern: string) {
    if pattern == "*" then true
    else if !IsWildcard(pattern) then false
    else Stem(pattern) <= TAG_NET_PREFIX || TAG_NET_PREFIX <= Stem(pattern)
  }

  function FirstGlob(patterns: seq<string>): (r: Option<string>)
    ensures r.None? ==> forall p :: p in patterns ==> !CrossTenantGlobSource(p)
    ensures r.Some? ==> r.value in patterns && CrossTenantGlobSource(r.value)
  {
    if patterns == [] then None
    else if CrossTenantGlobSource(patterns[0]) then Some(patterns[0])
    else FirstGlob(patterns[1..])
  }

  /** The error carries the offending pattern. Every rule is checked, accepting or not. */
  function Validate(p: Policy): (r: Result<(), string>)
    ensures r.Ok? <==> forall rule, s :: rule in p.acls && s in rule.src ==> !CrossTenantGlobSource(s)
    ensures r.Err? ==> CrossTenantGlobSource(r.error)
                       && exists rule :: rule in p.acls && r.error in rule.src
    decreases |p.acls|
  {
    if p.acls == [] then Ok(())
    else
      var found := FirstGlob(p.acls[0].src);
      if found.Some? then
        assert p.acls[0] in p.acls;
        Err(found.value)
      else Validate(Policy(p.acls[1..]))
  }

  predicate Valid(p: Policy) { Validate(p).Ok? }

  predicate NetTag(tag: string) { "tag:net-" <= tag }

  /**
    The validator is exact: it rejects a source pattern exactly when the pattern matches at
    least two different tenants.
  */
  lemma RejectsExactlyMultiTenantSources(pattern: string)
    ensures CrossTenantGlobSource(pattern)
            <==> exists t, u :: t != u && NetTag(t) && NetTag(u) && TagMatches(pattern, t) && TagMatches(pattern, u)
  {
    if CrossTenantGlobSource(pattern) {
      var stem := if pattern != "*" && TAG_NET_PREFIX <= Stem(pattern) then Stem(pattern) else TAG_NET_PREFIX;
      var t, u := stem + "a", stem + "b";
      assert t[|stem|] != u[|stem|];
      assert stem <= t && stem <= u;
      assert NetTag(t) && NetTag(u) && TagMatches(pattern, t) && TagMatches(pattern, u);
    } else if IsWildcard(pattern) {
      forall t | NetTag(t) ensures !TagMatches(pattern, t) {
        PrefixesOfOneString(Stem(pattern), TAG_NET_PREFIX, t);
      }
    }
  }

  lemma PrefixesOfOneString(a: string, b: string, s: string)
    ensures a <= s && b <= s ==> a <= b || b <= a
  {
    if a <= s && b <= s {
      if |a| <= |b| {
        assert a == s[..|a|] == b[..|a|];
      } else {
        assert b == s[..|b|] == a[..|b|];
      }
    }
  }

  /** An accept rule that names `t` itself as a source and reaches `u`. */
  predicate NamesSource(r: AclRule, t: string, u: string) {
    r.action == "accept" && t in r.src && TagsMatchAny(r.dst, [u])
  }

  /**
    Tenant isolation under an accepted policy: two single-tag nodes of different tenants see
    each other exactly when some accept rule names one of the two tags verbatim as a source.
    Validation alone does not isolate: the destination may still be a wildcard.
  */
  lemma TenantsMeetOnlyByName(p: Policy, t: string, u: string)
    requires Valid(p) && NetTag(t) && NetTag(u) && t != u
    ensures CanSee(p, [t], [u]) <==> exists r :: r in p.acls && (NamesSource(r, t, u) || NamesSource(r, u, t))
  {
    forall r | r in p.acls
      ensures RuleAllows(r, [t], [u]) <==> NamesSource(r, t, u)
      ensures RuleAllows(r, [u], [t]) <==> NamesSource(r, u, t)
    {
      NarrowSource(r.src, t);
      NarrowSource(r.src, u);
    }
  }

  /** Source patterns that pass validation match a tenant's node only by naming its tag. */
  lemma NarrowSource(patterns: seq<string>, t: string)
    requires NetTag(t) && forall s :: s in patterns ==> !CrossTenantGlobSource(s)
    ensures TagsMatchAny(patterns, [t]) <==> t in patterns
  {
    forall s | s in patterns ensures TagMatches(s, t) <==> s == t {
      if IsWildcard(s) {
        PrefixesOfOneString(Stem(s), TAG_NET_PREFIX, t);
      }
    }
    if t in patterns {
      assert t in [t] && TagMatches(t, t);
    }
  }

  /** `tag:net-a -> tag:net-*` passes validation and still joins two tenants. */
  lemma ValidationIsNotIsolation()
    ensures var p := Policy([AclRule("accept", ["tag:net-a"], ["tag:net-*"])]);
            Valid(p) && CanSee(p, ["tag:net-a"], ["tag:net-b"])
  {
    var rule := AclRule("accept", ["tag:net-a"], ["tag:net-*"]);
    var p := Policy([rule]);
    assert p.acls[0] == rule && FirstGlob(rule.src[1..]).None?;
    assert Stem("tag:net-*") == TAG_NET_PREFIX;
    assert TagMatches("tag:net-*", "tag:net-b") && "tag:net-b" in ["tag:net-b"];
    assert TagMatches("tag:net-a", "tag:net-a") && "tag:net-a" in ["tag:net-a"];
    assert rule.src[0] in rule.src && rule.dst[0] in rule.dst;
    assert RuleAllows(rule, ["tag:net-a"], ["tag:net-b"]);
  }

  /** Without a policy file the mesh is closed: exactly the nodes tagged as system see each other. */
  lemma BootstrapIsClosed(a: seq<string>, b: seq<string>)
    ensures Valid(BOOTSTRAP)
    ensures CanSee(BOOTSTRAP, a, b) <==> "tag:system" in a && "tag:system" in b
  {
    var rule := BOOTSTRAP.acls[0];
    assert !IsWildcard(TAG_SYSTEM) && TAG_SYSTEM != "*";
    assert forall tags :: TagsMatchAny([TAG_SYSTEM], tags) <==> TAG_SYSTEM in tags by {
      forall tags ensures TagsMatchAny([TAG_SYSTEM], tags) <==> TAG_SYSTEM in tags {
        assert [TAG_SYSTEM][0] in [TAG_SYSTEM];
        if TAG_SYSTEM in tags {
          assert TagMatches(TAG_SYSTEM, TAG_SYSTEM);
        }
      }
    }
    assert forall r :: r in BOOTSTRAP.acls ==> r == rule;
    assert rule in BOOTSTRAP.acls;
  }

  // ---------------------------------------------------------------- visibility spelled out

  /** The pattern is `*`, or the tag itself, or a prefix of it followed by `*`. */
  predicate Covers(pattern: string, tag: string) {
    || pattern == tag
    || (pattern != "" && pattern[|pattern| - 1] == '*' && pattern[..|pattern| - 1] <= tag)
  }

  /** A list of patterns reaches a node that has a tag covered by one of them; `*` reaches every node. */
  ghost predicate ReachesNode(patterns: seq<string>, tags: seq<string>) {
    || "*" in patterns
    || exists p, t :: p in patterns && t in tags && Covers(p, t)
  }

  lemma TagMatchesExactly(pattern: string, tag: string)
    ensures TagMatches(pattern, tag) <==> Covers(pattern, tag)
  {
    if pattern == "*" {
      assert pattern[..0] == "" <= tag;
    }
    if IsWildcard(pattern) && pattern == tag {
      assert Stem(pattern) <= tag;
    }
  }

  lemma MatchesExactly(patterns: seq<string>, tags: seq<string>)
    ensures TagsMatchAny(patterns, tags) <==> ReachesNode(patterns, tags)
  {
    forall p, t ensures TagMatches(p, t) <==> Covers(p, t) {
      TagMatchesExactly(p, t);
    }
    hide TagMatches, Covers;
    if TagsMatchAny(patterns, tags) {
      var p :| p in patterns && (p == "*" || exists t :: t in tags && TagMatches(p, t));
      if p != "*" {
        var t :| t in tags && TagMatches(p, t);
        assert Covers(p, t);
      }
    }
    if p, t :| p in patterns && t in tags && Covers(p, t) {
      assert TagMatches(p, t);
    }
  }

  /** Two nodes see each other if and only if a rule with action `accept` leads from one of them to the other. */
  lemma SeesExactly(p: Policy, a: seq<string>, b: seq<string>)
    ensures CanSee(p, a, b) <==>
              exists r :: r in p.acls && r.action == "accept"
                          && ((ReachesNode(r.src, a) && ReachesNode(r.dst, b)) || (ReachesNode(r.src, b) && ReachesNode(r.dst, a)))
  {
    hide TagsMatchAny, ReachesNode;
    forall patterns, tags ensures TagsMatchAny(patterns, tags) <==> ReachesNode(patterns, tags) {
      MatchesExactly(patterns, tags);
    }
    if CanSee(p, a, b) {
      if AllowsDirected(p, a, b) {
        var r :| r in p.acls && RuleAllows(r, a, b);
        assert r.action == "accept" && ReachesNode(r.src, a) && ReachesNode(r.dst, b);
      } else {
        var r :| r in p.acls && RuleAllows(r, b, a);
        assert r.action == "accept" && ReachesNode(r.src, b) && ReachesNode(r.dst, a);
      }
    }
    forall r | r in p.acls && r.action == "accept" && ReachesNode(r.src, a) && ReachesNode(r.dst, b) ensures CanSee(p, a, b) {
      assert RuleAllows(r, a, b);
    }
    forall r | r in p.acls && r.action == "accept" && ReachesNode(r.src, b) && ReachesNode(r.dst, a) ensures CanSee(p, a, b) {
      assert RuleAllows(r, b, a);
    }
  }

  /** The rules with action `accept`, in order. */
  function OnlyAccepts(rules: seq<AclRule>): (r: seq<AclRule>)
    ensures forall x :: x in r <==> x in rules && x.action == "accept"
  {
    if rules == [] then []
    else (if rules[0].action == "accept" then [rules[0]] else []) + OnlyAccepts(rules[1..])
  }

  /** Rules with any other action grant nothing: removing them changes no view, and without an accept rule nobody sees anybody. */
  lemma OnlyAcceptsGrant(p: Policy, a: seq<string>, b: seq<string>)
    ensures CanSee(p, a, b) <==> CanSee(Policy(OnlyAccepts(p.acls)), a, b)
    ensures (forall r :: r in p.acls ==> r.action != "accept") ==> !CanSee(p, a, b)
  {
    hide CanSee, ReachesNode;
    SeesExactly(p, a, b);
    SeesExactly(Policy(OnlyAccepts(p.acls)), a, b);
  }
}
