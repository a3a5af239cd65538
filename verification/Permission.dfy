/** The two authorization levels: the four-dimensional dispatch check and the
    path-level check, and how they agree. */
module Permission {
  import opened Patterns
  import opened Overlap
  import opened Tokens
  import opened Scopes

  datatype Request = Request(uri: string, operation: string, resource: Option<ResourceTarget>)

  /** An absent peers scope authorizes the local peer only. */
  function PeersOf(g: Grant, local: string): Scope {
    if g.peers.Some? then g.peers.value else Scope([local], [])
  }

  function TargetPeer(req: Request, handler: string, local: string): string {
    ExtractPeer(if req.uri == "" then handler else req.uri, local)
  }

  ghost predicate GrantAdmits(env: Env, req: Request, g: Grant, handler: string, local: string, granter: string,
                              relaxPeers: bool) {
    && InIdScope(req.operation, g.operations)
    && InPathScope(handler, g.handlers)
    && ResourceAdmitted(req.resource, g.resources, local, granter)
    && (relaxPeers || InPeerScope(env, TargetPeer(req, handler, local), PeersOf(g, local)))
  }

  /** The dispatch-level verdict: in its window, and some grant admits the request in
      all four dimensions. */
  ghost predicate Permits(env: Env, req: Request, t: Token, handler: string, local: string, granter: string, now: u64,
                          relaxPeers: bool) {
    && InWindow(t, now)
    && exists g :: g in t.grants && GrantAdmits(env, req, g, handler, local, granter, relaxPeers)
  }

  method CheckGrant(env: Env, req: Request, g: Grant, handler: string, local: string, granter: string,
                    targetPeer: string, relaxPeers: bool)
    returns (ok: bool)
    requires targetPeer == TargetPeer(req, handler, local)
    ensures ok == GrantAdmits(env, req, g, handler, local, granter, relaxPeers)
  {
    hide InIdScope, InPathScope, TargetAdmitted, InPeerScope;
    var operation := MatchesIdScope(req.operation, g.operations);
    if !operation { return false; }
    var handlers := ScopeContains(handler, g.handlers);
    if !handlers { return false; }
    if req.resource.Some? {
      var resources := CheckResourceScope(req.resource, g.resources, local, granter);
      if !resources { return false; }
    }
    if !relaxPeers {
      var peers := MatchesPeerScope(env, targetPeer, PeersOf(g, local));
      if !peers { return false; }
    }
    return true;
  }

  /** The index of the first admitting grant of a token in its window. */
  method FindMatchingGrant(env: Env, req: Request, t: Token, handler: string, local: string, granter: string,
                           now: u64, relaxPeers: bool)
    returns (r: Option<nat>)
    ensures r.Some? <==> Permits(env, req, t, handler, local, granter, now, relaxPeers)
    ensures r.Some? ==>
              r.value < |t.grants| && GrantAdmits(env, req, t.grants[r.value], handler, local, granter, relaxPeers)
    ensures r.Some? ==> forall k :: 0 <= k < r.value ==>
              !GrantAdmits(env, req, t.grants[k], handler, local, granter, relaxPeers)
  {
    hide GrantAdmits;
    if t.notBefore.Some? && now < t.notBefore.value { return None; }
    if Expired(t.expiresAt, now) { return None; }
    var targetPeer := TargetPeer(req, handler, local);
    for i := 0 to |t.grants|
      invariant forall k :: 0 <= k < i ==> !GrantAdmits(env, req, t.grants[k], handler, local, granter, relaxPeers)
    {
      var admits := CheckGrant(env, req, t.grants[i], handler, local, granter, targetPeer, relaxPeers);
      if admits {
        assert t.grants[i] in t.grants;
        return Some(i);
      }
    }
    return None;
  }

  // ----- the path level -------------------------------------------------

  /** One subject path (or pattern) against a grant's resources, with no caller
      excludes to answer an overlap. */
  ghost predicate PathAdmitted(path: string, scope: Scope, local: string, granter: string) {
    var ct := Canonicalize(path, local);
    && Reached(ct, scope.includes, granter)
    && forall e :: e in scope.excludes ==> SubjectClears(ct, e, granter)
  }

  predicate SubjectClears(ct: string, e: string, granter: string) {
    var ce := Canonicalize(e, granter);
    !IsUnmatchable(ce) && !(if IsPattern(ct) then PatternsOverlap(ct, ce) else MatchesPattern(ct, ce))
  }

  ghost predicate GrantAdmitsPath(operation: string, path: string, g: Grant, handler: string, local: string,
                                  granter: string) {
    && InIdScope(operation, g.operations)
    && InPathScope(handler, g.handlers)
    && PathAdmitted(path, g.resources, local, granter)
  }

  ghost predicate PathPermits(operation: string, path: string, t: Token, handler: string, local: string,
                              granter: string, now: u64) {
    && InWindow(t, now)
    && exists g :: g in t.grants && GrantAdmitsPath(operation, path, g, handler, local, granter)
  }

  method SubjectClearsAll(ct: string, excludes: seq<string>, granter: string) returns (ok: bool)
    ensures ok == forall e :: e in excludes ==> SubjectClears(ct, e, granter)
  {
    hide SubjectClears;
    for j := 0 to |excludes|
      invariant forall k :: 0 <= k < j ==> SubjectClears(ct, excludes[k], granter)
    {
      if !SubjectClears(ct, excludes[j], granter) { return false; }
    }
    return true;
  }

  method CheckPathResource(path: string, scope: Scope, local: string, granter: string) returns (ok: bool)
    ensures ok == PathAdmitted(path, scope, local, granter)
  {
    hide MatchesPattern, Canonicalize, SubjectClears;
    var matched := IsCoveredBy(path, scope.includes, local, granter);
    if !matched { return false; }
    ok := SubjectClearsAll(Canonicalize(path, local), scope.excludes, granter);
  }

  method CheckGrantPath(operation: string, path: string, g: Grant, handler: string, local: string,
                        granter: string) returns (ok: bool)
    ensures ok == GrantAdmitsPath(operation, path, g, handler, local, granter)
  {
    hide InIdScope, InPathScope, PathAdmitted;
    ok := MatchesIdScope(operation, g.operations);
    if !ok { return; }
    ok := ScopeContains(handler, g.handlers);
    if !ok { return; }
    ok := CheckPathResource(path, g.resources, local, granter);
  }

  method CheckPathPermission(operation: string, path: string, t: Token, handler: string, local: string,
                             granter: string, now: u64)
    returns (ok: bool)
    ensures ok == PathPermits(operation, path, t, handler, local, granter, now)
  {
    hide GrantAdmitsPath;
    if t.notBefore.Some? && now < t.notBefore.value { return false; }
    if Expired(t.expiresAt, now) { return false; }
    for i := 0 to |t.grants|
      invariant forall k :: 0 <= k < i ==> !GrantAdmitsPath(operation, path, t.grants[k], handler, local, granter)
    {
      assert t.grants[i] in t.grants;
      var admits := CheckGrantPath(operation, path, t.grants[i], handler, local, granter);
      if admits { return true; }
    }
    return false;
  }

  // ----- agreement ------------------------------------------------------

  /** A target one level admits, the other admits too — concrete targets always, pattern
      targets exactly when no grant exclude overlaps them. */
  lemma TargetAgreesExactly(target: string, callerExclude: seq<string>, scope: Scope, local: string, granter: string)
    requires TargetAdmitted(target, callerExclude, scope, local, granter)
    ensures var ct := Canonicalize(target, local);
            PathAdmitted(target, scope, local, granter) <==>
              (IsPattern(ct) ==> forall e :: e in scope.excludes ==> !PatternsOverlap(ct, Canonicalize(e, granter)))
  {
  }

  /** Two-level agreement: what dispatch accepts, the path level accepts for each effective
      concrete target, and for each effective target at all when the caller excludes
      nothing. */
  lemma DispatchImpliesPathLevel(env: Env, req: Request, t: Token, handler: string, local: string, granter: string,
                                 now: u64, relaxPeers: bool, target: string)
    requires Permits(env, req, t, handler, local, granter, now, relaxPeers)
    requires req.resource.Some? && target in EffectiveOf(req.resource, local)
    requires !IsPattern(Canonicalize(target, local)) || req.resource.value.exclude == []
    ensures PathPermits(req.operation, target, t, handler, local, granter, now)
  {
    var g :| g in t.grants && GrantAdmits(env, req, g, handler, local, granter, relaxPeers);
    assert TargetAdmitted(target, req.resource.value.exclude, g.resources, local, granter);
    TargetAgreesExactly(target, req.resource.value.exclude, g.resources, local, granter);
    assert GrantAdmitsPath(req.operation, target, g, handler, local, granter);
  }

  /** A path-level acceptance reaches no excluded path: the concrete subject itself, or
      any path of a pattern subject with no blind pair. */
  lemma PathLevelIsContained(path: string, subject: string, scope: Scope, local: string, granter: string)
    requires PathAdmitted(subject, scope, local, granter) && MatchesPattern(path, Canonicalize(subject, local))
    requires forall e :: e in scope.excludes ==> !Blind(Canonicalize(subject, local), Canonicalize(e, granter))
    ensures Reached(path, scope.includes, granter) && !Reached(path, scope.excludes, granter)
  {
    var ct := Canonicalize(subject, local);
    ReachedThroughCover(path, ct, scope.includes, granter);
    forall e | e in scope.excludes
      ensures !MatchesPattern(path, Canonicalize(e, granter))
    {
      var ce := Canonicalize(e, granter);
      assert SubjectClears(ct, e, granter);
      if MatchesPattern(path, ce) {
        assert Common(path, ct, ce);
        if IsPattern(ct) { OverlapMissesExactly(ct, ce); } else { StarFreeMatchesOnlyItself(path, ct); }
      }
    }
  }
}
