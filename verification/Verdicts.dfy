/** The verdicts spelled out: what the permission checks and the delegation check decide,
    stated on the strings and records themselves, with the languages of patterns in place of
    the matchers and nothing of the checks' own vocabulary. */
module Verdicts {
  import opened Patterns
  import opened Overlap
  import opened Tokens
  import opened Scopes
  import opened Permission
  import opened Attenuation

  // ----- languages ------------------------------------------------------

  /** The path lies in the language of a path pattern. */
  ghost predicate In(path: string, pattern: string) {
    exists segments, rest, tail :: Reading(path, pattern, segments, rest, tail)
  }

  ghost predicate Reserved(pattern: string) {
    exists rest :: pattern == "./" + rest || pattern == "../" + rest || pattern == "*/" + rest
  }

  /** Some pattern of the list, read in the peer's namespace, has the path in its language. */
  ghost predicate InSome(path: string, patterns: seq<string>, peer: string) {
    exists p :: p in patterns && In(path, Canonicalize(p, peer))
  }

  lemma Languages()
    ensures forall path, p :: In(path, p) <==> MatchesPattern(path, p)
    ensures forall p :: Reserved(p) <==> IsUnmatchable(p)
    ensures forall p, value :: TailMatches(value, p) <==> IdMatches(p, value)
  {
    forall path, p ensures In(path, p) <==> MatchesPattern(path, p) { MatchesPatternMeaning(path, p); }
    forall p ensures Reserved(p) <==> IsUnmatchable(p) { UnmatchableForms(p); }
    forall p, value ensures TailMatches(value, p) <==> IdMatches(p, value) { IdMatchesMeaning(p, value); }
  }

  // ----- paths and locators ---------------------------------------------

  const BASE58 := "123456789" + "ABCDEFGH" + "JKLMN" + "PQRSTUVWXYZ" + "abcdefghijk" + "mnopqrstuvwxyz"

  predicate PeerIdText(s: string) {
    |s| >= 46 && forall c :: c in s ==> c in BASE58
  }

  /** The first segment of `body`, up to a slash or the end. */
  ghost predicate Begins(body: string, segment: string) {
    && '/' !in segment && segment <= body
    && (|body| > |segment| ==> body[|segment|] == '/')
  }

  /** A slash, a peer id, then segments none of which but the last is empty; no control
      characters. */
  ghost predicate ValidText(p: string) {
    && (exists peer :: PeerIdText(peer) && "/" <= p && Begins(p[1..], peer))
    && (forall x, y :: p != x + "//" + y)
    && (forall c :: c in p ==> ' ' <= c && c != '\U{7F}')
  }

  /** What follows the scheme, or the leading slash, or the locator as it is. */
  ghost predicate BodyOf(locator: string, body: string) {
    if "entity://" <= locator then locator == "entity://" + body
    else if "/" <= locator then locator == "/" + body
    else locator == body
  }

  /** The peer a locator addresses: its first segment if that is a peer id, else the local
      one. */
  ghost predicate Addresses(locator: string, local: string, peer: string) {
    exists body, segment :: && BodyOf(locator, body) && Begins(body, segment)
                            && peer == if PeerIdText(segment) then segment else local
  }

  lemma Base58Exactly(c: char)
    ensures c in BASE58 <==> IsBase58(c)
  {
    assert c in "123456789" <==> '1' <= c <= '9';
    assert c in "ABCDEFGH" <==> 'A' <= c <= 'H';
    assert c in "JKLMN" <==> 'J' <= c <= 'N';
    assert c in "PQRSTUVWXYZ" <==> 'P' <= c <= 'Z';
    assert c in "abcdefghijk" <==> 'a' <= c <= 'k';
    assert c in "mnopqrstuvwxyz" <==> 'm' <= c <= 'z';
  }

  lemma PeerIdExactly(s: string)
    ensures PeerIdText(s) <==> IsPeerId(s)
  {
    forall c ensures c in BASE58 <==> IsBase58(c) { Base58Exactly(c); }
    hide IsBase58;
    if PeerIdText(s) { assert forall i :: 0 <= i < |s| ==> s[i] in s; }
  }

  lemma BeginsExactly(body: string, segment: string)
    ensures Begins(body, segment) <==> segment == FirstSegment(body)
  {
    if Begins(body, segment) {
      if |body| > |segment| {
        var rest := body[|segment| + 1..];
        assert body == segment + "/" + rest;
        FirstSlashAfter(segment, rest);
      } else {
        assert body == segment;
      }
    }
  }

  lemma ValidTextExactly(p: string)
    ensures ValidText(p) <==> ValidAbsolutePath(p)
  {
    forall peer ensures PeerIdText(peer) <==> IsPeerId(peer) { PeerIdExactly(peer); }
    if "/" <= p {
      forall peer ensures Begins(p[1..], peer) <==> peer == FirstSegment(p[1..]) { BeginsExactly(p[1..], peer); }
      DoubleSlashExactly(p);
    }
    hide IsPeerId, PeerIdText, FirstSegment, Begins, Contains2;
    CharsExactly(p);
  }

  lemma CharsExactly(p: string)
    ensures (forall c :: c in p ==> ' ' <= c && c != '\U{7F}') <==>
              (forall i :: 0 <= i < |p| ==> p[i] >= ' ' && p[i] != '\U{7F}')
  {
    if forall c :: c in p ==> ' ' <= c && c != '\U{7F}' { assert forall i :: 0 <= i < |p| ==> p[i] in p; }
  }

  /** With a first segment that is no slash, empty segments show anywhere in the path. */
  lemma DoubleSlashExactly(p: string)
    requires "/" <= p
    ensures FirstSegment(p[1..]) != "" && |p| > 1 ==>
              ((forall x, y :: p != x + "//" + y) <==> !Contains2(p[1..], '/', '/'))
  {
    if FirstSegment(p[1..]) != "" && |p| > 1 {
      assert p[1] != '/';
      if Contains2(p[1..], '/', '/') {
        var i :| 0 <= i < |p[1..]| - 1 && p[1..][i] == '/' && p[1..][i + 1] == '/';
        assert p == p[..i + 1] + "//" + p[i + 3..];
      }
      forall x, y | p == x + "//" + y ensures Contains2(p[1..], '/', '/') {
        assert p[|x|] == '/' && p[|x| + 1] == '/';
        assert |x| > 0;
        assert p[1..][|x| - 1] == '/' && p[1..][|x|] == '/';
      }
    }
  }

  lemma BodyExists(locator: string, local: string) returns (body: string)
    ensures BodyOf(locator, body)
    ensures ExtractPeer(locator, local) == if IsPeerId(FirstSegment(body)) then FirstSegment(body) else local
  {
    hide FirstSegment, IsPeerId;
    if "entity://" <= locator {
      body := locator[|SCHEME|..];
      assert locator == "entity://" + body && ("/" + body)[0] == '/' && ("/" + body)[1..] == body;
    } else if "/" <= locator {
      body := locator[1..];
      assert locator == "/" + body;
    } else {
      body := locator;
    }
  }

  lemma AddressesExactly(locator: string, local: string, peer: string)
    ensures Addresses(locator, local, peer) <==> peer == ExtractPeer(locator, local)
  {
    forall s ensures PeerIdText(s) <==> IsPeerId(s) { PeerIdExactly(s); }
    var body := BodyExists(locator, local);
    forall other | BodyOf(locator, other) ensures other == body { BodyUnique(locator, body, other); }
    forall segment ensures Begins(body, segment) <==> segment == FirstSegment(body) { BeginsExactly(body, segment); }
    hide IsPeerId, PeerIdText, FirstSegment, Begins, BodyOf, ExtractPeer;
    assert Begins(body, FirstSegment(body));
  }

  lemma BodyUnique(locator: string, a: string, b: string)
    requires BodyOf(locator, a) && BodyOf(locator, b)
    ensures a == b
  {
    if "entity://" <= locator {
      assert ("entity://" + a)[9..] == a && ("entity://" + b)[9..] == b;
    } else if "/" <= locator {
      assert ("/" + a)[1..] == a && ("/" + b)[1..] == b;
    }
  }

  // ----- one dimension at a time ----------------------------------------

  ghost predicate IdAllows(value: string, scope: Scope) {
    && (exists p :: p in scope.includes && TailMatches(value, p))
    && (forall p :: p in scope.excludes ==> !TailMatches(value, p))
  }

  ghost predicate PathAllows(value: string, scope: Scope) {
    && (exists p :: p in scope.includes && In(value, p))
    && (forall p :: p in scope.excludes ==> !Reserved(p) && !In(value, p))
  }

  predicate SameIdentity(env: Env, p: string, q: string) {
    env.canonicalPeer(p).Some? && env.canonicalPeer(p) == env.canonicalPeer(q)
  }

  /** Definitely one of the included peers, and definitely none of the excluded. */
  ghost predicate PeerAllows(env: Env, peer: string, scope: Scope) {
    && (exists p :: p in scope.includes && (p == "*" || p == peer || SameIdentity(env, p, peer)))
    && (forall p :: p in scope.excludes ==>
          p != "*" && p != peer && env.canonicalPeer(p).Some? && !SameIdentity(env, p, peer))
  }

  /** A target the caller does not take back. */
  ghost predicate Kept(t: string, resource: ResourceTarget, local: string) {
    t in resource.targets && !InSome(Canonicalize(t, local), resource.exclude, local)
  }

  ghost predicate Unobstructed(ct: string, e: string, callerExclude: seq<string>, local: string, granter: string) {
    var ce := Canonicalize(e, granter);
    && !Reserved(ce)
    && (if '*' in ct then PatternsOverlap(ct, ce) ==> InSome(ce, callerExclude, local) else !In(ct, ce))
  }

  ghost predicate TargetAllowed(ct: string, callerExclude: seq<string>, scope: Scope, local: string, granter: string) {
    && ('*' in ct || ValidText(ct))
    && InSome(ct, scope.includes, granter)
    && (forall e :: e in scope.excludes ==> Unobstructed(ct, e, callerExclude, local, granter))
  }

  ghost predicate ResourceAllows(resource: ResourceTarget, scope: Scope, local: string, granter: string) {
    forall t :: Kept(t, resource, local) ==>
      TargetAllowed(Canonicalize(t, local), resource.exclude, scope, local, granter)
  }

  lemma IdExactly(value: string, scope: Scope)
    ensures IdAllows(value, scope) <==> InIdScope(value, scope)
  {
    Languages();
    hide TailMatches, IdMatches;
  }

  lemma PathExactly(value: string, scope: Scope)
    ensures PathAllows(value, scope) <==> InPathScope(value, scope)
  {
    Languages();
    hide In, MatchesPattern, Reserved, IsUnmatchable;
  }

  lemma PeerExactly(env: Env, peer: string, scope: Scope)
    ensures PeerAllows(env, peer, scope) <==> InPeerScope(env, peer, scope)
  {
    assert forall p :: PeerPatternMatches(env, p, peer).Yes? <==> p == "*" || p == peer || SameIdentity(env, p, peer);
    assert forall p :: PeerPatternMatches(env, p, peer).No? <==>
        p != "*" && p != peer && env.canonicalPeer(p).Some? && !SameIdentity(env, p, peer);
    hide PeerPatternMatches, SameIdentity;
  }

  lemma InSomeExactly(path: string, patterns: seq<string>, peer: string)
    ensures InSome(path, patterns, peer) <==> Reached(path, patterns, peer)
  {
    Languages();
    hide In, MatchesPattern, Canonicalize;
  }

  lemma KeptExactly(t: string, resource: ResourceTarget, local: string)
    ensures Kept(t, resource, local) <==> t in EffectiveOf(Some(resource), local)
  {
    EffectiveMembers(resource.targets, resource.exclude, local, t);
    InSomeExactly(Canonicalize(t, local), resource.exclude, local);
    hide InSome, Reached, Canonicalize, Effective;
  }

  lemma UnobstructedExactly(ct: string, e: string, callerExclude: seq<string>, local: string, granter: string)
    ensures Unobstructed(ct, e, callerExclude, local, granter) <==> Clears(ct, e, callerExclude, local, granter)
  {
    var ce := Canonicalize(e, granter);
    Languages();
    CanonicalizeIdempotent(e, granter, local);
    InSomeExactly(ce, callerExclude, local);
    hide In, MatchesPattern, Reserved, IsUnmatchable, Canonicalize, InSome, Reached, PatternsOverlap;
  }

  lemma TargetExactly(t: string, callerExclude: seq<string>, scope: Scope, local: string, granter: string)
    ensures TargetAllowed(Canonicalize(t, local), callerExclude, scope, local, granter)
       <==> TargetAdmitted(t, callerExclude, scope, local, granter)
  {
    var ct := Canonicalize(t, local);
    ValidTextExactly(ct);
    InSomeExactly(ct, scope.includes, granter);
    forall e ensures Unobstructed(ct, e, callerExclude, local, granter)
                <==> Clears(ct, e, callerExclude, local, granter)
    {
      UnobstructedExactly(ct, e, callerExclude, local, granter);
    }
    hide ValidText, ValidAbsolutePath, InSome, Reached, Unobstructed, Clears, Canonicalize;
  }

  lemma ResourceExactly(resource: ResourceTarget, scope: Scope, local: string, granter: string)
    ensures ResourceAllows(resource, scope, local, granter)
       <==> ResourceAdmitted(Some(resource), scope, local, granter)
  {
    forall t ensures Kept(t, resource, local) <==> t in EffectiveOf(Some(resource), local) {
      KeptExactly(t, resource, local);
    }
    forall t ensures TargetAllowed(Canonicalize(t, local), resource.exclude, scope, local, granter)
                <==> TargetAdmitted(t, resource.exclude, scope, local, granter)
    {
      TargetExactly(t, resource.exclude, scope, local, granter);
    }
    hide Kept, EffectiveOf, TargetAllowed, TargetAdmitted, Canonicalize;
  }

  // ----- the two permission checks --------------------------------------

  predicate WithinWindow(t: Token, now: u64) {
    (t.notBefore.Some? ==> t.notBefore.value <= now) && (t.expiresAt.Some? ==> now < t.expiresAt.value)
  }

  /** A grant without a peers scope speaks for the local peer alone. */
  ghost predicate PeersAllow(env: Env, g: Grant, locator: string, local: string) {
    exists peer :: && Addresses(locator, local, peer)
                   && match g.peers
                      case Some(scope) => PeerAllows(env, peer, scope)
                      case None => local == "*" || local == peer || SameIdentity(env, local, peer)
  }

  ghost predicate GrantAllows(env: Env, req: Request, g: Grant, handler: string, local: string, granter: string,
                              relaxPeers: bool) {
    && IdAllows(req.operation, g.operations)
    && PathAllows(handler, g.handlers)
    && (req.resource.Some? ==> ResourceAllows(req.resource.value, g.resources, local, granter))
    && (relaxPeers || PeersAllow(env, g, if req.uri == "" then handler else req.uri, local))
  }

  lemma PeersAllowExactly(env: Env, g: Grant, locator: string, local: string)
    ensures PeersAllow(env, g, locator, local)
       <==> InPeerScope(env, ExtractPeer(locator, local), PeersOf(g, local))
  {
    var peer := ExtractPeer(locator, local);
    forall other ensures Addresses(locator, local, other) <==> other == peer {
      AddressesExactly(locator, local, other);
    }
    PeerExactly(env, peer, PeersOf(g, local));
    hide Addresses, ExtractPeer, InPeerScope;
    assert local in [local];
    assert Addresses(locator, local, peer);
  }

  lemma GrantAllowsExactly(env: Env, req: Request, g: Grant, handler: string, local: string, granter: string,
                           relaxPeers: bool)
    ensures GrantAllows(env, req, g, handler, local, granter, relaxPeers)
       <==> GrantAdmits(env, req, g, handler, local, granter, relaxPeers)
  {
    IdExactly(req.operation, g.operations);
    PathExactly(handler, g.handlers);
    if req.resource.Some? { ResourceExactly(req.resource.value, g.resources, local, granter); }
    PeersAllowExactly(env, g, if req.uri == "" then handler else req.uri, local);
    hide IdAllows, InIdScope, PathAllows, InPathScope, ResourceAllows, TargetAdmitted, PeersAllow, InPeerScope,
         ExtractPeer, PeersOf, Effective;
  }

  /** What FindMatchingGrant decides: the token is in its window and some grant allows operation,
      handler, every kept target and the addressed peer. */
  lemma PermitsMeaning(env: Env, req: Request, t: Token, handler: string, local: string, granter: string, now: u64,
                       relaxPeers: bool)
    ensures Permits(env, req, t, handler, local, granter, now, relaxPeers) <==>
              && WithinWindow(t, now)
              && exists g :: g in t.grants && GrantAllows(env, req, g, handler, local, granter, relaxPeers)
  {
    forall g ensures GrantAllows(env, req, g, handler, local, granter, relaxPeers)
                <==> GrantAdmits(env, req, g, handler, local, granter, relaxPeers)
    {
      GrantAllowsExactly(env, req, g, handler, local, granter, relaxPeers);
    }
    hide GrantAllows, GrantAdmits;
  }

  /** Without a peers scope in any grant, a permitted request addresses the local peer. */
  lemma AbsentPeersMeanLocal(env: Env, req: Request, t: Token, handler: string, local: string, granter: string,
                             now: u64)
    requires Permits(env, req, t, handler, local, granter, now, false)
    requires local != "*" && forall g :: g in t.grants ==> g.peers.None?
    ensures var peer := ExtractPeer(if req.uri == "" then handler else req.uri, local);
            peer == local || SameIdentity(env, local, peer)
  {
    PermitsMeaning(env, req, t, handler, local, granter, now, false);
    hide Permits, IdAllows, PathAllows, ResourceAllows, Addresses;
    var locator := if req.uri == "" then handler else req.uri;
    var g :| g in t.grants && GrantAllows(env, req, g, handler, local, granter, false);
    forall peer ensures Addresses(locator, local, peer) <==> peer == ExtractPeer(locator, local) {
      AddressesExactly(locator, local, peer);
    }
  }

  ghost predicate SubjectAllowed(path: string, scope: Scope, local: string, granter: string) {
    var ct := Canonicalize(path, local);
    && InSome(ct, scope.includes, granter)
    && (forall e :: e in scope.excludes ==> Unobstructed(ct, e, [], local, granter))
  }

  lemma SubjectExactly(path: string, scope: Scope, local: string, granter: string)
    ensures SubjectAllowed(path, scope, local, granter) <==> PathAdmitted(path, scope, local, granter)
  {
    var ct := Canonicalize(path, local);
    InSomeExactly(ct, scope.includes, granter);
    forall e ensures Unobstructed(ct, e, [], local, granter) <==> SubjectClears(ct, e, granter) {
      UnobstructedExactly(ct, e, [], local, granter);
    }
    hide InSome, Reached, Unobstructed, SubjectClears, Canonicalize;
  }

  /** What CheckPathPermission decides: window, operation, handler, and one subject without caller
      excludes. */
  lemma PathPermitsMeaning(operation: string, path: string, t: Token, handler: string, local: string, granter: string,
                           now: u64)
    ensures PathPermits(operation, path, t, handler, local, granter, now) <==>
              && WithinWindow(t, now)
              && exists g :: && g in t.grants && IdAllows(operation, g.operations) && PathAllows(handler, g.handlers)
                             && SubjectAllowed(path, g.resources, local, granter)
  {
    forall g: Grant
      ensures GrantAdmitsPath(operation, path, g, handler, local, granter) <==>
              && IdAllows(operation, g.operations) && PathAllows(handler, g.handlers)
              && SubjectAllowed(path, g.resources, local, granter)
    {
      IdExactly(operation, g.operations);
      PathExactly(handler, g.handlers);
      SubjectExactly(path, g.resources, local, granter);
    }
    hide IdAllows, PathAllows, SubjectAllowed, GrantAdmitsPath;
  }

  // ----- delegation -----------------------------------------------------

  /** Language inclusion between two path patterns. */
  ghost predicate Within(inner: string, outer: string) {
    forall path :: In(path, inner) ==> In(path, outer)
  }

  /** Every pattern of one list, read in its namespace, stays within one of the other. */
  ghost predicate AllWithin(inner: seq<string>, innerPeer: string, outer: seq<string>, outerPeer: string) {
    forall x :: x in inner ==>
      exists y :: y in outer && Within(Canonicalize(x, innerPeer), Canonicalize(y, outerPeer))
  }

  ghost predicate IdsWithin(inner: seq<string>, outer: seq<string>) {
    forall x :: x in inner ==> exists y :: y in outer && IdWithin(x, y)
  }

  ghost predicate HandlersWithin(inner: seq<string>, outer: seq<string>) {
    forall x :: x in inner ==> exists y :: y in outer && Within(x, y)
  }

  ghost predicate KeepsEntries(m: map<string, Bytes>, n: map<string, Bytes>) {
    forall k :: k in m ==> k in n && n[k] == m[k]
  }

  function PeersOrLocal(g: Grant, local: string): Scope {
    match g.peers case Some(scope) => scope case None => Scope([local], [])
  }

  /** The child grant allows nothing the parent grant does not, pattern by pattern: its includes
      stay within the parent's, the parent's excludes within its own, it keeps the parent's
      constraints and adds no allowance. */
  ghost predicate GrantWithin(c: Grant, p: Grant, childPeer: string, parentPeer: string, local: string) {
    && HandlersWithin(c.handlers.includes, p.handlers.includes)
    && HandlersWithin(p.handlers.excludes, c.handlers.excludes)
    && AllWithin(c.resources.includes, childPeer, p.resources.includes, parentPeer)
    && AllWithin(p.resources.excludes, parentPeer, c.resources.excludes, childPeer)
    && IdsWithin(c.operations.includes, p.operations.includes)
    && IdsWithin(p.operations.excludes, c.operations.excludes)
    && IdsWithin(PeersOrLocal(c, local).includes, PeersOrLocal(p, local).includes)
    && IdsWithin(PeersOrLocal(p, local).excludes, PeersOrLocal(c, local).excludes)
    && KeepsEntries(p.constraints, c.constraints)
    && KeepsEntries(c.allowances, p.allowances)
  }

  lemma WithinExactly(inner: string, outer: string)
    ensures Within(inner, outer) <==> MatchesPattern(inner, outer)
  {
    Languages();
    CoverageIsInclusion(inner, outer);
    hide In, MatchesPattern;
  }

  lemma HandlersWithinExactly(inner: seq<string>, outer: seq<string>)
    ensures HandlersWithin(inner, outer) <==> SubPatterns(inner, outer)
  {
    forall x, y ensures Within(x, y) <==> MatchesPattern(x, y) { WithinExactly(x, y); }
    hide Within, MatchesPattern;
  }

  lemma AllWithinExactly(inner: seq<string>, innerPeer: string, outer: seq<string>, outerPeer: string)
    ensures AllWithin(inner, innerPeer, outer, outerPeer)
       <==> SubPatterns(CanonAll(inner, innerPeer), CanonAll(outer, outerPeer))
  {
    HandlersWithinExactly(CanonAll(inner, innerPeer), CanonAll(outer, outerPeer));
    hide Within, SubPatterns, Canonicalize;
    if AllWithin(inner, innerPeer, outer, outerPeer) {
      forall x | x in CanonAll(inner, innerPeer) ensures exists y :: y in CanonAll(outer, outerPeer) && Within(x, y) {
        var r :| r in inner && Canonicalize(r, innerPeer) == x;
        var y :| y in outer && Within(Canonicalize(r, innerPeer), Canonicalize(y, outerPeer));
        assert Canonicalize(y, outerPeer) in CanonAll(outer, outerPeer);
      }
    }
    if HandlersWithin(CanonAll(inner, innerPeer), CanonAll(outer, outerPeer)) {
      forall x | x in inner
        ensures exists y :: y in outer && Within(Canonicalize(x, innerPeer), Canonicalize(y, outerPeer))
      {
        assert Canonicalize(x, innerPeer) in CanonAll(inner, innerPeer);
        var z :| z in CanonAll(outer, outerPeer) && Within(Canonicalize(x, innerPeer), z);
        var y :| y in outer && Canonicalize(y, outerPeer) == z;
      }
    }
  }

  lemma GrantWithinExactly(c: Grant, p: Grant, childPeer: string, parentPeer: string, local: string)
    ensures GrantWithin(c, p, childPeer, parentPeer, local) <==> Covers(p, c, parentPeer, childPeer, local)
  {
    HandlersWithinExactly(c.handlers.includes, p.handlers.includes);
    HandlersWithinExactly(p.handlers.excludes, c.handlers.excludes);
    AllWithinExactly(c.resources.includes, childPeer, p.resources.includes, parentPeer);
    AllWithinExactly(p.resources.excludes, parentPeer, c.resources.excludes, childPeer);
    IdSubsetMeaning(c.operations, p.operations);
    IdSubsetMeaning(PeersOf(c, local), PeersOf(p, local));
    hide HandlersWithin, AllWithin, SubPatterns, IdWithin, IdSubset, CanonAll;
  }

  /** Each child grant stays within some parent grant, and the child expires no later. */
  ghost predicate TokenWithin(child: Token, parent: Token, childPeer: string, parentPeer: string, local: string) {
    && (forall c :: c in child.grants ==>
          exists p :: p in parent.grants && GrantWithin(c, p, childPeer, parentPeer, local))
    && (parent.expiresAt.Some? ==> child.expiresAt.Some? && child.expiresAt.value <= parent.expiresAt.value)
  }

  /** What IsAttenuated decides. */
  lemma AttenuatedMeaning(child: Token, parent: Token, childPeer: string, parentPeer: string, local: string)
    ensures Attenuated(child, parent, childPeer, parentPeer, local)
       <==> TokenWithin(child, parent, childPeer, parentPeer, local)
  {
    forall c, p
      ensures GrantWithin(c, p, childPeer, parentPeer, local) <==> Covers(p, c, parentPeer, childPeer, local)
    {
      GrantWithinExactly(c, p, childPeer, parentPeer, local);
    }
    hide GrantWithin, Covers;
  }
}
