/** One scope dimension at a time: path scopes, id scopes, the peers dimension, and
    the resource dimension with caller excludes. */
module Scopes {
  import opened Patterns
  import opened Overlap
  import opened Tokens

  // ----- path scopes (handlers) -----------------------------------------

  ghost predicate SomeMatch(value: string, patterns: seq<string>) {
    exists p :: p in patterns && MatchesPattern(value, p)
  }

  ghost predicate InPathScope(value: string, scope: Scope) {
    && SomeMatch(value, scope.includes)
    && forall p :: p in scope.excludes ==> !IsUnmatchable(p) && !MatchesPattern(value, p)
  }

  /** Admitted by an include and by no exclude; an unmatchable exclude excludes
      everything. */
  method ScopeContains(value: string, scope: Scope) returns (ok: bool)
    ensures ok == InPathScope(value, scope)
  {
    hide MatchesPattern, IsUnmatchable;
    var matched := false;
    var i := 0;
    while i < |scope.includes| && !matched
      invariant 0 <= i <= |scope.includes|
      invariant matched ==> SomeMatch(value, scope.includes)
      invariant !matched ==> forall k :: 0 <= k < i ==> !MatchesPattern(value, scope.includes[k])
    {
      if MatchesPattern(value, scope.includes[i]) { matched := true; }
      i := i + 1;
    }
    if !matched { return false; }
    for j := 0 to |scope.excludes|
      invariant forall k :: 0 <= k < j ==>
                  !IsUnmatchable(scope.excludes[k]) && !MatchesPattern(value, scope.excludes[k])
    {
      if IsUnmatchable(scope.excludes[j]) { return false; }
      if MatchesPattern(value, scope.excludes[j]) { return false; }
    }
    return true;
  }

  // ----- id scopes (operations) -----------------------------------------

  ghost predicate InIdScope(value: string, scope: Scope) {
    && (exists p :: p in scope.includes && IdMatches(p, value))
    && forall p :: p in scope.excludes ==> !IdMatches(p, value)
  }

  method MatchesIdScope(value: string, scope: Scope) returns (ok: bool)
    ensures ok == InIdScope(value, scope)
  {
    hide IdMatches;
    var included := false;
    var i := 0;
    while i < |scope.includes| && !included
      invariant 0 <= i <= |scope.includes|
      invariant included ==> exists p :: p in scope.includes && IdMatches(p, value)
      invariant !included ==> forall k :: 0 <= k < i ==> !IdMatches(scope.includes[k], value)
    {
      if IdMatches(scope.includes[i], value) { included := true; }
      i := i + 1;
    }
    if !included { return false; }
    for j := 0 to |scope.excludes|
      invariant forall k :: 0 <= k < j ==> !IdMatches(scope.excludes[k], value)
    {
      if IdMatches(scope.excludes[j], value) { return false; }
    }
    return true;
  }

  // ----- the peers dimension --------------------------------------------

  datatype PeerMatch = No | Yes | Unresolvable

  /** A pattern names the peer literally, by wildcard, or by another form of the same
      identity; a pattern that cannot be canonicalized is reported as such. */
  function PeerPatternMatches(env: Env, pattern: string, peer: string): PeerMatch {
    if pattern == "*" || pattern == peer then Yes
    else
      match env.canonicalPeer(pattern)
      case None => Unresolvable
      case Some(c) => if env.canonicalPeer(peer) == Some(c) then Yes else No
  }

  /** Fail closed on both sides: an unresolvable include withholds, an unresolvable
      exclude excludes. */
  ghost predicate InPeerScope(env: Env, peer: string, scope: Scope) {
    && (exists p :: p in scope.includes && PeerPatternMatches(env, p, peer).Yes?)
    && forall p :: p in scope.excludes ==> PeerPatternMatches(env, p, peer).No?
  }

  method MatchesPeerScope(env: Env, peer: string, scope: Scope) returns (ok: bool)
    ensures ok == InPeerScope(env, peer, scope)
  {
    hide PeerPatternMatches;
    var included := false;
    var i := 0;
    while i < |scope.includes| && !included
      invariant 0 <= i <= |scope.includes|
      invariant included ==> exists p :: p in scope.includes && PeerPatternMatches(env, p, peer).Yes?
      invariant !included ==> forall k :: 0 <= k < i ==> !PeerPatternMatches(env, scope.includes[k], peer).Yes?
    {
      if PeerPatternMatches(env, scope.includes[i], peer).Yes? { included := true; }
      i := i + 1;
    }
    if !included { return false; }
    for j := 0 to |scope.excludes|
      invariant forall k :: 0 <= k < j ==> PeerPatternMatches(env, scope.excludes[k], peer).No?
    {
      if !PeerPatternMatches(env, scope.excludes[j], peer).No? { return false; }
    }
    return true;
  }

  lemma SameIdentitySameMatch(env: Env, pattern: string, peer: string, other: string)
    requires env.canonicalPeer(peer).Some? && env.canonicalPeer(peer) == env.canonicalPeer(other)
    ensures PeerPatternMatches(env, pattern, peer) == PeerPatternMatches(env, pattern, other)
  {
  }

  /** The peers dimension judges identities, not spellings: two forms of one peer id get the
      same verdict from every scope. */
  lemma PeerScopeSeesIdentity(env: Env, peer: string, other: string, scope: Scope)
    requires env.canonicalPeer(peer).Some? && env.canonicalPeer(peer) == env.canonicalPeer(other)
    ensures InPeerScope(env, peer, scope) <==> InPeerScope(env, other, scope)
  {
    forall pattern ensures PeerPatternMatches(env, pattern, peer) == PeerPatternMatches(env, pattern, other) {
      SameIdentitySameMatch(env, pattern, peer, other);
    }
    hide PeerPatternMatches;
  }

  // ----- resources ------------------------------------------------------

  datatype ResourceTarget = ResourceTarget(targets: seq<string>, exclude: seq<string>)

  /** Some pattern, read in the peer's namespace, matches the path. */
  ghost predicate Reached(path: string, patterns: seq<string>, peer: string) {
    exists p :: p in patterns && MatchesPattern(path, Canonicalize(p, peer))
  }

  /** A target as written, read in the local namespace, is reached. */
  ghost predicate Covered(target: string, patterns: seq<string>, local: string, granter: string) {
    Reached(Canonicalize(target, local), patterns, granter)
  }

  method IsCoveredBy(target: string, patterns: seq<string>, local: string, granter: string) returns (ok: bool)
    ensures ok == Covered(target, patterns, local, granter)
  {
    hide MatchesPattern, Canonicalize;
    var ct := Canonicalize(target, local);
    for i := 0 to |patterns|
      invariant forall k :: 0 <= k < i ==> !MatchesPattern(ct, Canonicalize(patterns[k], granter))
    {
      if MatchesPattern(ct, Canonicalize(patterns[i], granter)) { return true; }
    }
    return false;
  }

  ghost predicate Excluded(target: string, excludes: seq<string>, local: string, granter: string) {
    exists e :: e in excludes &&
      (IsUnmatchable(Canonicalize(e, granter)) || MatchesPattern(Canonicalize(target, local), Canonicalize(e, granter)))
  }

  method IsExcluded(target: string, excludes: seq<string>, local: string, granter: string) returns (ok: bool)
    ensures ok == Excluded(target, excludes, local, granter)
  {
    hide MatchesPattern, IsUnmatchable, Canonicalize;
    var ct := Canonicalize(target, local);
    for i := 0 to |excludes|
      invariant forall k :: 0 <= k < i ==>
        !IsUnmatchable(Canonicalize(excludes[k], granter)) && !MatchesPattern(ct, Canonicalize(excludes[k], granter))
    {
      var ce := Canonicalize(excludes[i], granter);
      if IsUnmatchable(ce) { return true; }
      if MatchesPattern(ct, ce) { return true; }
    }
    return false;
  }

  /** The targets a request really names: those its own excludes do not cover, in
      order and as written. */
  ghost function Effective(targets: seq<string>, exclude: seq<string>, local: string): seq<string> {
    if targets == [] then []
    else
      var last := targets[|targets| - 1];
      Effective(targets[..|targets| - 1], exclude, local)
      + (if Covered(Canonicalize(last, local), exclude, local, local) then [] else [last])
  }

  lemma {:induction false} EffectiveMembers(targets: seq<string>, exclude: seq<string>, local: string, t: string)
    ensures t in Effective(targets, exclude, local)
       <==> t in targets && !Covered(t, exclude, local, local)
  {
    if targets != [] {
      var n := |targets| - 1;
      EffectiveMembers(targets[..n], exclude, local, t);
      assert targets == targets[..n] + [targets[n]];
      CanonicalizeIdempotent(targets[n], local, local);
    }
  }

  /** The survivors keep their order: what survives of two lists is what survives of each. */
  lemma {:induction false} EffectiveInOrder(first: seq<string>, second: seq<string>, exclude: seq<string>,
                                            local: string)
    ensures Effective(first + second, exclude, local)
         == Effective(first, exclude, local) + Effective(second, exclude, local)
  {
    hide Covered, Canonicalize;
    if second == [] {
      assert first + second == first;
    } else {
      var n := |second| - 1;
      EffectiveInOrder(first, second[..n], exclude, local);
      assert (first + second)[..|first + second| - 1] == first + second[..n];
    }
  }

  ghost function EffectiveOf(resource: Option<ResourceTarget>, local: string): seq<string> {
    if resource.None? then [] else Effective(resource.value.targets, resource.value.exclude, local)
  }

  method EffectiveTargets(resource: Option<ResourceTarget>, local: string) returns (out: seq<string>)
    ensures out == EffectiveOf(resource, local)
  {
    hide Canonicalize, Covered;
    out := [];
    if resource.None? { return; }
    var targets, exclude := resource.value.targets, resource.value.exclude;
    for i := 0 to |targets|
      invariant out == Effective(targets[..i], exclude, local)
    {
      assert targets[..i + 1][..i] == targets[..i];
      var covered := IsCoveredBy(Canonicalize(targets[i], local), exclude, local, local);
      if !covered { out := out + [targets[i]]; }
    }
    assert targets[..|targets|] == targets;
  }

  // ----- absolute paths -------------------------------------------------

  /** Digits and letters without 0, O, I and l. */
  predicate IsBase58(c: char) {
    '1' <= c <= '9' || ('A' <= c <= 'Z' && c != 'I' && c != 'O') || ('a' <= c <= 'z' && c != 'l')
  }

  /** Syntactic peer ids: Base58, at least 46 characters. */
  predicate IsPeerId(segment: string) {
    |segment| >= 46 && forall i :: 0 <= i < |segment| ==> IsBase58(segment[i])
  }

  function FirstSegment(s: string): string {
    var i := FirstSlash(s);
    if i < 0 then s else s[..i]
  }

  predicate Contains2(s: string, a: char, b: char) {
    exists i :: 0 <= i < |s| - 1 && s[i] == a && s[i + 1] == b
  }

  predicate ValidAbsolutePath(p: string) {
    && IsAbsolute(p)
    && (forall i :: 0 <= i < |p| ==> p[i] >= ' ' && p[i] != '\U{7F}')
    && |p| > 1
    && !Contains2(p[1..], '/', '/')
    && IsPeerId(FirstSegment(p[1..]))
  }

  /** The peer a locator addresses: its first segment when that is a peer id, else the
      local peer. */
  function ExtractPeer(locator: string, local: string): string {
    var path := if SCHEME <= locator then "/" + locator[|SCHEME|..] else locator;
    var body := if "/" <= path then path[1..] else path;
    var first := FirstSegment(body);
    if IsPeerId(first) then first else local
  }

  lemma ExtractedPeerIsSegment(locator: string, local: string)
    requires '/' !in local
    ensures '/' !in ExtractPeer(locator, local)
  {
  }

  lemma Base58HasNoSlash(segment: string)
    requires IsPeerId(segment)
    ensures '/' !in segment
  {
  }

  /** Both spellings of an absolute locator address the peer they name. */
  lemma ExtractPeerReadsLocator(peer: string, rest: string, local: string)
    requires IsPeerId(peer)
    ensures ExtractPeer("/" + peer + "/" + rest, local) == peer
    ensures ExtractPeer(SCHEME + peer + "/" + rest, local) == peer
  {
    var body := peer + "/" + rest;
    FirstSegmentIsPeer(peer, rest);
    hide FirstSegment, IsPeerId;
    var path, uri := "/" + peer + "/" + rest, SCHEME + peer + "/" + rest;
    assert path[0] == '/' && path[1..] == body;
    assert uri[|SCHEME|..] == body && ("/" + body)[1..] == body;
  }

  lemma FirstSegmentIsPeer(peer: string, rest: string)
    requires IsPeerId(peer)
    ensures FirstSegment(peer + "/" + rest) == peer
  {
    Base58HasNoSlash(peer);
    FirstSlashAfter(peer, rest);
    assert (peer + "/" + rest)[..|peer|] == peer;
  }

  /** A valid concrete path lies in the namespace of the peer it addresses. */
  lemma ValidPathNamesItsPeer(p: string, local: string)
    requires ValidAbsolutePath(p)
    ensures IsPeerId(ExtractPeer(p, local)) && "/" + ExtractPeer(p, local) <= p
  {
    assert p[0] == '/';
    assert p == "/" + p[1..];
  }

  // ----- the resource dimension -----------------------------------------

  /** One effective target against a grant's resource scope.  A concrete target must be
      a valid path; either kind must be included.  Excludes: an unmatchable one denies;
      one reaching a concrete target denies; one overlapping a pattern target must be
      covered by the caller's own excludes. */
  ghost predicate TargetAdmitted(target: string, callerExclude: seq<string>, scope: Scope, local: string,
                                 granter: string) {
    var ct := Canonicalize(target, local);
    && (IsPattern(ct) || ValidAbsolutePath(ct))
    && Covered(target, scope.includes, local, granter)
    && forall e :: e in scope.excludes ==> Clears(ct, e, callerExclude, local, granter)
  }

  /** One exclude does not stand in the way of a target. */
  ghost predicate Clears(ct: string, e: string, callerExclude: seq<string>, local: string, granter: string) {
    if IsPattern(ct) then PatternClears(ct, e, callerExclude, local, granter) else PathClears(ct, e, granter)
  }

  ghost predicate PathClears(ct: string, e: string, granter: string) {
    !IsUnmatchable(Canonicalize(e, granter)) && !MatchesPattern(ct, Canonicalize(e, granter))
  }

  ghost predicate PatternClears(ct: string, e: string, callerExclude: seq<string>, local: string, granter: string) {
    && !IsUnmatchable(Canonicalize(e, granter))
    && (PatternsOverlap(ct, Canonicalize(e, granter)) ==>
          Covered(Canonicalize(e, granter), callerExclude, local, local))
  }

  ghost predicate ResourceAdmitted(resource: Option<ResourceTarget>, scope: Scope, local: string, granter: string) {
    forall t :: t in EffectiveOf(resource, local) ==> TargetAdmitted(t, resource.value.exclude, scope, local, granter)
  }

  /** One grant exclude against one pattern target; the unmatchable arm comes first,
      since the overlap test would pass over it. */
  method PatternTargetClears(ct: string, e: string, callerExclude: seq<string>, local: string, granter: string)
    returns (ok: bool)
    ensures ok == PatternClears(ct, e, callerExclude, local, granter)
  {
    hide MatchesPattern, IsUnmatchable, Canonicalize, PatternsOverlap, Covered;
    var ce := Canonicalize(e, granter);
    if IsUnmatchable(ce) { return false; }
    if !PatternsOverlap(ct, ce) { return true; }
    ok := IsCoveredBy(ce, callerExclude, local, local);
  }

  method PatternTargetExcludes(ct: string, callerExclude: seq<string>, excludes: seq<string>, local: string,
                               granter: string)
    returns (ok: bool)
    ensures ok == forall e :: e in excludes ==> PatternClears(ct, e, callerExclude, local, granter)
  {
    hide PatternClears;
    for i := 0 to |excludes|
      invariant forall k :: 0 <= k < i ==> PatternClears(ct, excludes[k], callerExclude, local, granter)
    {
      assert excludes[i] in excludes;
      var clears := PatternTargetClears(ct, excludes[i], callerExclude, local, granter);
      if !clears { return false; }
    }
    return true;
  }

  method CheckTarget(target: string, callerExclude: seq<string>, scope: Scope, local: string,
                     granter: string) returns (ok: bool)
    ensures ok == TargetAdmitted(target, callerExclude, scope, local, granter)
  {
    hide MatchesPattern, IsUnmatchable, Canonicalize, IsPattern, ValidAbsolutePath, Covered, PatternClears;
    var ct := Canonicalize(target, local);
    if !IsPattern(ct) && !ValidAbsolutePath(ct) { return false; }
    var covered := IsCoveredBy(target, scope.includes, local, granter);
    if !covered { return false; }
    if IsPattern(ct) {
      ok := PatternTargetExcludes(ct, callerExclude, scope.excludes, local, granter);
    } else {
      var excluded := IsExcluded(target, scope.excludes, local, granter);
      ok := !excluded;
    }
  }

  method CheckResourceScope(resource: Option<ResourceTarget>, scope: Scope, local: string,
                            granter: string) returns (ok: bool)
    ensures ok == ResourceAdmitted(resource, scope, local, granter)
  {
    hide TargetAdmitted, Effective;
    var callerExclude := if resource.Some? then resource.value.exclude else [];
    var targets := EffectiveTargets(resource, local);
    if resource.None? { return true; }
    for i := 0 to |targets|
      invariant forall k :: 0 <= k < i ==> TargetAdmitted(targets[k], callerExclude, scope, local, granter)
    {
      assert targets[i] in targets;
      var admitted := CheckTarget(targets[i], callerExclude, scope, local, granter);
      if !admitted { return false; }
    }
    return true;
  }

  // ----- what acceptance means ------------------------------------------

  ghost predicate Named(path: string, resource: ResourceTarget, local: string) {
    && (exists t :: && t in Effective(resource.targets, resource.exclude, local)
                    && MatchesPattern(path, Canonicalize(t, local)))
    && !Reached(path, resource.exclude, local)
  }

  /** The scope grants the path: some include reaches it and no exclude does. */
  ghost predicate Held(path: string, scope: Scope, granter: string) {
    Reached(path, scope.includes, granter) && !Reached(path, scope.excludes, granter)
  }

  /** Every string the request names is granted and not excluded by the grant. */
  ghost predicate Contained(resource: ResourceTarget, scope: Scope, local: string, granter: string) {
    forall path :: Named(path, resource, local) ==> Held(path, scope, granter)
  }

  /** No effective pattern target forms a blind pair with a grant exclude. */
  ghost predicate SeesEveryExclude(resource: ResourceTarget, scope: Scope, local: string, granter: string) {
    forall t, e :: t in Effective(resource.targets, resource.exclude, local) && e in scope.excludes ==>
      !Blind(Canonicalize(t, local), Canonicalize(e, granter))
  }

  lemma CoveredCanonical(ce: string, raw: string, patterns: seq<string>, local: string, granter: string)
    requires ce == Canonicalize(raw, granter) && Covered(ce, patterns, local, local)
    ensures Reached(ce, patterns, local)
  {
    CanonicalizeIdempotent(raw, granter, local);
  }

  lemma ReachedThroughCover(path: string, inner: string, patterns: seq<string>, peer: string)
    requires MatchesPattern(path, inner) && Reached(inner, patterns, peer)
    ensures Reached(path, patterns, peer)
  {
    var p :| p in patterns && MatchesPattern(inner, Canonicalize(p, peer));
    MatchesTransitive(path, inner, Canonicalize(p, peer));
  }

  lemma ExcludeNotReached(path: string, t: string, e: string, resource: ResourceTarget, scope: Scope, local: string,
                          granter: string)
    requires TargetAdmitted(t, resource.exclude, scope, local, granter) && e in scope.excludes
    requires MatchesPattern(path, Canonicalize(t, local)) && !Reached(path, resource.exclude, local)
    requires !Blind(Canonicalize(t, local), Canonicalize(e, granter))
    ensures !MatchesPattern(path, Canonicalize(e, granter))
  {
    var ct, ce := Canonicalize(t, local), Canonicalize(e, granter);
    if MatchesPattern(path, ce) {
      assert Common(path, ct, ce);
      if IsPattern(ct) {
        OverlapMissesExactly(ct, ce);
        CoveredCanonical(ce, e, resource.exclude, local, granter);
        ReachedThroughCover(path, ce, resource.exclude, local);
      } else {
        StarFreeMatchesOnlyItself(path, ct);
      }
    }
  }

  /** Every concrete target of an accepted request is rooted at a real peer id, however broad
      the grant. */
  lemma AcceptedTargetNamesRealPeer(resource: ResourceTarget, scope: Scope, local: string, granter: string, t: string)
    requires ResourceAdmitted(Some(resource), scope, local, granter)
    requires t in Effective(resource.targets, resource.exclude, local) && !IsPattern(Canonicalize(t, local))
    ensures var ct := Canonicalize(t, local);
            IsPeerId(ExtractPeer(ct, local)) && "/" + ExtractPeer(ct, local) <= ct
  {
    assert t in EffectiveOf(Some(resource), local);
    assert TargetAdmitted(t, resource.exclude, scope, local, granter);
    ValidPathNamesItsPeer(Canonicalize(t, local), local);
  }

  /** Semantic containment: an accepted request names only granted, unexcluded paths
      whenever no pattern target forms a blind pair with an exclude. */
  lemma AcceptedResourcesAreContained(resource: ResourceTarget, scope: Scope, local: string, granter: string)
    requires ResourceAdmitted(Some(resource), scope, local, granter)
    requires SeesEveryExclude(resource, scope, local, granter)
    ensures Contained(resource, scope, local, granter)
  {
    forall path | Named(path, resource, local)
      ensures Reached(path, scope.includes, granter) && !Reached(path, scope.excludes, granter)
    {
      var t :| t in Effective(resource.targets, resource.exclude, local)
               && MatchesPattern(path, Canonicalize(t, local));
      assert TargetAdmitted(t, resource.exclude, scope, local, granter);
      assert Reached(Canonicalize(t, local), scope.includes, granter);
      ReachedThroughCover(path, Canonicalize(t, local), scope.includes, granter);
      forall e | e in scope.excludes
        ensures !MatchesPattern(path, Canonicalize(e, granter))
      {
        ExcludeNotReached(path, t, e, resource, scope, local, granter);
      }
    }
  }

  /** Blind pairs need a leading peer wildcard, so plain patterns are always safe. */
  lemma PlainPatternsSeeEveryExclude(resource: ResourceTarget, scope: Scope, local: string, granter: string)
    requires forall t :: t in resource.targets ==> !PeerWild(Canonicalize(t, local))
    requires forall e :: e in scope.excludes ==> !PeerWild(Canonicalize(e, granter))
    ensures SeesEveryExclude(resource, scope, local, granter)
  {
    forall t | t in Effective(resource.targets, resource.exclude, local)
      ensures t in resource.targets
    {
      EffectiveMembers(resource.targets, resource.exclude, local, t);
    }
  }

  lemma AbsoluteIsCanonical(path: string, peer: string)
    requires IsAbsolute(path)
    ensures Canonicalize(path, peer) == path
  {
  }
}
