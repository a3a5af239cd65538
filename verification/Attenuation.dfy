/** Delegation subset checks, pattern against pattern, and the proof that they imply
    request-by-request containment. */
module Attenuation {
  import opened Patterns
  import opened Overlap
  import opened Tokens
  import opened Scopes
  import opened Permission

  // ----- the checks -----------------------------------------------------

  /** Every pattern of `inner` is covered by one of `outer`. */
  ghost predicate SubPatterns(inner: seq<string>, outer: seq<string>) {
    forall x :: x in inner ==> SomeMatch(x, outer)
  }

  function CanonAll(patterns: seq<string>, peer: string): (r: seq<string>)
    ensures |r| == |patterns|
    ensures forall i :: 0 <= i < |r| ==> r[i] == Canonicalize(patterns[i], peer)
  {
    seq(|patterns|, i requires 0 <= i < |patterns| => Canonicalize(patterns[i], peer))
  }

  method PatternsCovered(inner: seq<string>, outer: seq<string>) returns (ok: bool)
    ensures ok == SubPatterns(inner, outer)
  {
    hide MatchesPattern;
    for i := 0 to |inner|
      invariant forall k :: 0 <= k < i ==> SomeMatch(inner[k], outer)
    {
      var matched := false;
      var j := 0;
      while j < |outer| && !matched
        invariant 0 <= j <= |outer|
        invariant matched ==> SomeMatch(inner[i], outer)
        invariant !matched ==> forall k :: 0 <= k < j ==> !MatchesPattern(inner[i], outer[k])
      {
        if MatchesPattern(inner[i], outer[j]) { matched := true; }
        j := j + 1;
      }
      if !matched {
        assert inner[i] in inner;
        return false;
      }
    }
    return true;
  }

  ghost predicate SomeIdMatch(patterns: seq<string>, value: string) {
    exists p :: p in patterns && IdMatches(p, value)
  }

  /** Every child include is covered, and every parent exclude is inherited. */
  ghost predicate IdSubset(child: Scope, parent: Scope) {
    && (forall x :: x in child.includes ==> SomeIdMatch(parent.includes, x))
    && (forall x :: x in parent.excludes ==> SomeIdMatch(child.excludes, x))
  }

  method IdsCovered(inner: seq<string>, outer: seq<string>) returns (ok: bool)
    ensures ok == forall x :: x in inner ==> SomeIdMatch(outer, x)
  {
    hide IdMatches;
    for i := 0 to |inner|
      invariant forall k :: 0 <= k < i ==> SomeIdMatch(outer, inner[k])
    {
      var covered := false;
      var j := 0;
      while j < |outer| && !covered
        invariant 0 <= j <= |outer|
        invariant covered ==> SomeIdMatch(outer, inner[i])
        invariant !covered ==> forall k :: 0 <= k < j ==> !IdMatches(outer[k], inner[i])
      {
        if IdMatches(outer[j], inner[i]) { covered := true; }
        j := j + 1;
      }
      if !covered {
        assert inner[i] in inner;
        return false;
      }
    }
    return true;
  }

  method IdScopeSubset(child: Scope, parent: Scope) returns (ok: bool)
    ensures ok == IdSubset(child, parent)
  {
    ok := IdsCovered(child.includes, parent.includes);
    if ok { ok := IdsCovered(parent.excludes, child.excludes); }
  }

  ghost predicate SubMap(m: map<string, Bytes>, n: map<string, Bytes>) {
    forall k :: k in m ==> k in n && n[k] == m[k]
  }

  /** Constraints: the child keeps every parent key.  Allowances: the child adds none.
      Shared keys keep their bytes. */
  method CheckMapAttenuation(parent: map<string, Bytes>, child: map<string, Bytes>,
                             isConstraint: bool) returns (ok: bool)
    ensures ok == if isConstraint then SubMap(parent, child) else SubMap(child, parent)
  {
    var small, large := if isConstraint then parent else child, if isConstraint then child else parent;
    var keys := small.Keys;
    while keys != {}
      invariant keys <= small.Keys
      invariant forall k :: k in small && k !in keys ==> k in large && large[k] == small[k]
      decreases keys
    {
      var key :| key in keys;
      if key !in large || large[key] != small[key] { return false; }
      keys := keys - {key};
    }
    return true;
  }

  ghost predicate Covers(parent: Grant, child: Grant, parentPeer: string, childPeer: string, local: string) {
    && SubPatterns(child.handlers.includes, parent.handlers.includes)
    && IdSubset(child.operations, parent.operations)
    && SubPatterns(CanonAll(child.resources.includes, childPeer), CanonAll(parent.resources.includes, parentPeer))
    && IdSubset(PeersOf(child, local), PeersOf(parent, local))
    && SubPatterns(parent.handlers.excludes, child.handlers.excludes)
    && SubPatterns(CanonAll(parent.resources.excludes, parentPeer), CanonAll(child.resources.excludes, childPeer))
    && SubMap(parent.constraints, child.constraints)
    && SubMap(child.allowances, parent.allowances)
  }

  method GrantCovers(parent: Grant, child: Grant, parentPeer: string, childPeer: string,
                     local: string) returns (ok: bool)
    ensures ok == Covers(parent, child, parentPeer, childPeer, local)
  {
    hide SubPatterns, IdSubset, SubMap;
    ok := PatternsCovered(child.handlers.includes, parent.handlers.includes);
    if !ok { return; }
    ok := IdScopeSubset(child.operations, parent.operations);
    if !ok { return; }
    ok := PatternsCovered(CanonAll(child.resources.includes, childPeer),
                          CanonAll(parent.resources.includes, parentPeer));
    if !ok { return; }
    ok := IdScopeSubset(PeersOf(child, local), PeersOf(parent, local));
    if !ok { return; }
    ok := PatternsCovered(parent.handlers.excludes, child.handlers.excludes);
    if !ok { return; }
    ok := PatternsCovered(CanonAll(parent.resources.excludes, parentPeer),
                          CanonAll(child.resources.excludes, childPeer));
    if !ok { return; }
    ok := CheckMapAttenuation(parent.constraints, child.constraints, true);
    if !ok { return; }
    ok := CheckMapAttenuation(parent.allowances, child.allowances, false);
  }

  predicate ExpiryWithin(child: Option<u64>, parent: Option<u64>) {
    parent.Some? ==> child.Some? && child.value <= parent.value
  }

  ghost predicate SomeGrantCovers(parents: seq<Grant>, child: Grant, parentPeer: string, childPeer: string,
                                  local: string) {
    exists p :: p in parents && Covers(p, child, parentPeer, childPeer, local)
  }

  ghost predicate Attenuated(child: Token, parent: Token, childPeer: string, parentPeer: string, local: string) {
    && (forall c :: c in child.grants ==> SomeGrantCovers(parent.grants, c, parentPeer, childPeer, local))
    && ExpiryWithin(child.expiresAt, parent.expiresAt)
  }

  method IsAttenuated(child: Token, parent: Token, childPeer: string, parentPeer: string,
                      local: string) returns (ok: bool)
    ensures ok == Attenuated(child, parent, childPeer, parentPeer, local)
  {
    hide Covers;
    for i := 0 to |child.grants|
      invariant forall k :: 0 <= k < i ==> SomeGrantCovers(parent.grants, child.grants[k], parentPeer, childPeer, local)
    {
      var covered := false;
      var j := 0;
      while j < |parent.grants| && !covered
        invariant 0 <= j <= |parent.grants|
        invariant covered ==> SomeGrantCovers(parent.grants, child.grants[i], parentPeer, childPeer, local)
        invariant !covered ==> forall k :: 0 <= k < j ==>
                    !Covers(parent.grants[k], child.grants[i], parentPeer, childPeer, local)
      {
        covered := GrantCovers(parent.grants[j], child.grants[i], parentPeer, childPeer, local);
        j := j + 1;
      }
      if !covered {
        assert child.grants[i] in child.grants;
        return false;
      }
    }
    return ExpiryWithin(child.expiresAt, parent.expiresAt);
  }

  // ----- attenuation is a preorder --------------------------------------

  /** The syntactic check is exactly language inclusion, pattern by pattern. */
  lemma SubPatternsMeaning(inner: seq<string>, outer: seq<string>)
    ensures SubPatterns(inner, outer) <==> forall x :: x in inner ==> exists y :: y in outer && Includes(x, y)
  {
    hide MatchesPattern, Includes;
    forall x, y ensures MatchesPattern(x, y) <==> Includes(x, y) {
      CoverageIsInclusion(x, y);
    }
  }

  /** Every value the inner identifier pattern stands for, the outer one stands for. */
  ghost predicate IdWithin(inner: string, outer: string) {
    forall value :: TailMatches(value, inner) ==> TailMatches(value, outer)
  }

  lemma IdWithinExactly(inner: string, outer: string)
    ensures IdMatches(outer, inner) <==> IdWithin(inner, outer)
  {
    forall p, value ensures IdMatches(p, value) <==> TailMatches(value, p) { IdMatchesMeaning(p, value); }
    hide IdMatches, TailMatches;
    IdCoverageIsInclusion(inner, outer);
  }

  /** The same of the id dimensions: every child include stays within a parent include, every
      parent exclude within a child exclude. */
  lemma IdSubsetMeaning(child: Scope, parent: Scope)
    ensures IdSubset(child, parent) <==>
              && (forall x :: x in child.includes ==> exists y :: y in parent.includes && IdWithin(x, y))
              && (forall x :: x in parent.excludes ==> exists y :: y in child.excludes && IdWithin(x, y))
  {
    forall x, y ensures IdMatches(y, x) <==> IdWithin(x, y) { IdWithinExactly(x, y); }
    hide IdMatches, IdWithin;
  }

  lemma SubPatternsReflexive(a: seq<string>)
    ensures SubPatterns(a, a)
  {
    forall x | x in a ensures SomeMatch(x, a) { MatchesReflexive(x); }
  }

  lemma SubPatternsTransitive(a: seq<string>, b: seq<string>, c: seq<string>)
    requires SubPatterns(a, b) && SubPatterns(b, c)
    ensures SubPatterns(a, c)
  {
    forall x | x in a ensures SomeMatch(x, c) {
      var y :| y in b && MatchesPattern(x, y);
      var z :| z in c && MatchesPattern(y, z);
      MatchesTransitive(x, y, z);
    }
  }

  lemma SubIdsTransitive(a: seq<string>, b: seq<string>, c: seq<string>)
    requires forall x :: x in a ==> SomeIdMatch(b, x)
    requires forall x :: x in b ==> SomeIdMatch(c, x)
    ensures forall x :: x in a ==> SomeIdMatch(c, x)
  {
    forall x | x in a ensures SomeIdMatch(c, x) {
      var y :| y in b && IdMatches(y, x);
      var z :| z in c && IdMatches(z, y);
      IdTransitive(z, y, x);
    }
  }

  lemma CoversReflexive(g: Grant, peer: string, local: string)
    ensures Covers(g, g, peer, peer, local)
  {
    SubPatternsReflexive(g.handlers.includes);
    SubPatternsReflexive(g.handlers.excludes);
    SubPatternsReflexive(CanonAll(g.resources.includes, peer));
    SubPatternsReflexive(CanonAll(g.resources.excludes, peer));
    assert forall p: string :: IdMatches(p, p);
  }

  lemma CoversTransitive(a: Grant, b: Grant, c: Grant, aPeer: string, bPeer: string, cPeer: string, local: string)
    requires Covers(a, b, aPeer, bPeer, local) && Covers(b, c, bPeer, cPeer, local)
    ensures Covers(a, c, aPeer, cPeer, local)
  {
    SubPatternsTransitive(c.handlers.includes, b.handlers.includes, a.handlers.includes);
    SubPatternsTransitive(a.handlers.excludes, b.handlers.excludes, c.handlers.excludes);
    SubPatternsTransitive(CanonAll(c.resources.includes, cPeer), CanonAll(b.resources.includes, bPeer),
                          CanonAll(a.resources.includes, aPeer));
    SubPatternsTransitive(CanonAll(a.resources.excludes, aPeer), CanonAll(b.resources.excludes, bPeer),
                          CanonAll(c.resources.excludes, cPeer));
    SubIdsTransitive(c.operations.includes, b.operations.includes, a.operations.includes);
    SubIdsTransitive(a.operations.excludes, b.operations.excludes, c.operations.excludes);
    SubIdsTransitive(PeersOf(c, local).includes, PeersOf(b, local).includes, PeersOf(a, local).includes);
    SubIdsTransitive(PeersOf(a, local).excludes, PeersOf(b, local).excludes, PeersOf(c, local).excludes);
  }

  lemma AttenuatedReflexive(t: Token, peer: string, local: string)
    ensures Attenuated(t, t, peer, peer, local)
  {
    forall c | c in t.grants ensures SomeGrantCovers(t.grants, c, peer, peer, local) {
      CoversReflexive(c, peer, local);
    }
  }

  lemma AttenuatedTransitive(a: Token, b: Token, c: Token, aPeer: string, bPeer: string, cPeer: string, local: string)
    requires Attenuated(a, b, aPeer, bPeer, local) && Attenuated(b, c, bPeer, cPeer, local)
    ensures Attenuated(a, c, aPeer, cPeer, local)
  {
    forall x | x in a.grants ensures SomeGrantCovers(c.grants, x, cPeer, aPeer, local) {
      var y :| y in b.grants && Covers(y, x, bPeer, aPeer, local);
      var z :| z in c.grants && Covers(z, y, cPeer, bPeer, local);
      CoversTransitive(z, y, x, cPeer, bPeer, aPeer, local);
    }
  }

  // ----- the subset checks contain requests -----------------------------

  lemma OperationsNarrow(value: string, child: Scope, parent: Scope)
    requires IdSubset(child, parent) && InIdScope(value, child)
    ensures InIdScope(value, parent)
  {
    var p :| p in child.includes && IdMatches(p, value);
    var q :| q in parent.includes && IdMatches(q, p);
    IdTransitive(q, p, value);
    forall e | e in parent.excludes ensures !IdMatches(e, value) {
      var ce :| ce in child.excludes && IdMatches(ce, e);
      if IdMatches(e, value) { IdTransitive(ce, e, value); }
    }
  }

  lemma HandlersNarrow(value: string, child: Scope, parent: Scope)
    requires SubPatterns(child.includes, parent.includes) && SubPatterns(parent.excludes, child.excludes)
    requires InPathScope(value, child)
    ensures InPathScope(value, parent)
  {
    var p :| p in child.includes && MatchesPattern(value, p);
    var q :| q in parent.includes && MatchesPattern(p, q);
    MatchesTransitive(value, p, q);
    forall e | e in parent.excludes ensures !IsUnmatchable(e) && !MatchesPattern(value, e) {
      var ce :| ce in child.excludes && MatchesPattern(e, ce);
      if MatchesPattern(value, e) { MatchesTransitive(value, e, ce); }
      if IsUnmatchable(e) { CoverOfUnmatchable(e, ce); }
    }
  }

  lemma SlashedIsUnresolvable(env: Env, pattern: string, peer: string, local: string)
    requires PeerIdsAreSegments(env, local) && '/' !in peer && HasSuffix(pattern, "/*")
    ensures PeerPatternMatches(env, pattern, peer).Unresolvable?
  {
    assert pattern[|pattern| - 2] == '/';
    assert '/' in pattern;
  }

  lemma IdCoverOfSegment(outer: string, inner: string)
    requires IdMatches(outer, inner)
    ensures outer == "*" || outer == inner || '/' in inner
  {
    if outer != "*" && HasSuffix(outer, "/*") {
      assert inner[|outer| - 2] == outer[|outer| - 2] == '/';
    }
  }

  /** The id grammar covers peers more broadly than the peer matcher reads them, but
      every broader reading is one the matcher refuses to resolve. */
  lemma PeersNarrow(env: Env, peer: string, child: Scope, parent: Scope, local: string)
    requires PeerIdsAreSegments(env, local) && '/' !in peer
    requires IdSubset(child, parent) && InPeerScope(env, peer, child)
    ensures InPeerScope(env, peer, parent)
  {
    var p :| p in child.includes && PeerPatternMatches(env, p, peer).Yes?;
    var q :| q in parent.includes && IdMatches(q, p);
    assert '/' !in p;
    IdCoverOfSegment(q, p);
    forall e | e in parent.excludes ensures PeerPatternMatches(env, e, peer).No? {
      var ce :| ce in child.excludes && IdMatches(ce, e);
      assert PeerPatternMatches(env, ce, peer).No?;
      if HasSuffix(ce, "/*") { SlashedIsUnresolvable(env, ce, peer, local); }
    }
  }

  lemma CanonMember(x: string, patterns: seq<string>, peer: string)
    ensures x in patterns ==> Canonicalize(x, peer) in CanonAll(patterns, peer)
    ensures x in CanonAll(patterns, peer) ==> exists r :: r in patterns && Canonicalize(r, peer) == x
  {
  }

  lemma IncludesNarrow(ct: string, child: seq<string>, parent: seq<string>, childPeer: string, parentPeer: string)
    requires SubPatterns(CanonAll(child, childPeer), CanonAll(parent, parentPeer))
    requires Reached(ct, child, childPeer)
    ensures Reached(ct, parent, parentPeer)
  {
    var p :| p in child && MatchesPattern(ct, Canonicalize(p, childPeer));
    CanonMember(p, child, childPeer);
    var q :| q in CanonAll(parent, parentPeer) && MatchesPattern(Canonicalize(p, childPeer), q);
    CanonMember(q, parent, parentPeer);
    MatchesTransitive(ct, Canonicalize(p, childPeer), q);
  }

  /** The child exclude that inherits a given parent exclude. */
  lemma InheritedExclude(e: string, child: seq<string>, parent: seq<string>, childPeer: string,
                         parentPeer: string) returns (ce: string)
    requires SubPatterns(CanonAll(parent, parentPeer), CanonAll(child, childPeer)) && e in parent
    ensures ce in child && MatchesPattern(Canonicalize(e, parentPeer), Canonicalize(ce, childPeer))
    ensures IsUnmatchable(Canonicalize(e, parentPeer)) ==> IsUnmatchable(Canonicalize(ce, childPeer))
  {
    hide MatchesPattern, Canonicalize;
    CanonMember(e, parent, parentPeer);
    var x :| x in CanonAll(child, childPeer) && MatchesPattern(Canonicalize(e, parentPeer), x);
    CanonMember(x, child, childPeer);
    ce :| ce in child && Canonicalize(ce, childPeer) == x;
    if IsUnmatchable(Canonicalize(e, parentPeer)) {
      CoverOfUnmatchable(Canonicalize(e, parentPeer), x);
      CanonicalizeIdempotent(ce, childPeer, childPeer);
      assert IsAbsolute(x) ==> x[0] == '/';
    }
  }

  // ----- exactly when a target narrows -----------------------------------

  predicate Inherits(ce: string, e: string, childPeer: string, parentPeer: string) {
    MatchesPattern(Canonicalize(e, parentPeer), Canonicalize(ce, childPeer))
  }

  /** A parent exclude slips past the child: it overlaps the pattern target, the caller does
      not exclude it, and no child exclude that inherits it overlaps the target.  The last part
      says why; for a target the child admits it follows from the others (TightMeansAnswered). */
  ghost predicate Slips(ct: string, e: string, callerExclude: seq<string>, child: Scope, childPeer: string,
                        parentPeer: string, local: string) {
    && IsPattern(ct)
    && PatternsOverlap(ct, Canonicalize(e, parentPeer))
    && !Covered(Canonicalize(e, parentPeer), callerExclude, local, local)
    && forall ce :: ce in child.excludes && Inherits(ce, e, childPeer, parentPeer) ==>
         !PatternsOverlap(ct, Canonicalize(ce, childPeer))
  }

  /** No exclude of the parent slips past the child for this target. */
  ghost predicate Tight(ct: string, callerExclude: seq<string>, child: Scope, parent: Scope, childPeer: string,
                        parentPeer: string, local: string) {
    forall e :: e in parent.excludes ==> !Slips(ct, e, callerExclude, child, childPeer, parentPeer, local)
  }

  lemma PathExcludeNarrows(ct: string, e: string, ce: string, childPeer: string, parentPeer: string)
    requires Inherits(ce, e, childPeer, parentPeer)
    requires IsUnmatchable(Canonicalize(e, parentPeer)) ==> IsUnmatchable(Canonicalize(ce, childPeer))
    requires PathClears(ct, ce, childPeer)
    ensures PathClears(ct, e, parentPeer)
  {
    if MatchesPattern(ct, Canonicalize(e, parentPeer)) {
      MatchesTransitive(ct, Canonicalize(e, parentPeer), Canonicalize(ce, childPeer));
    }
  }

  /** A caller exclude that answers an inheriting exclude answers the inherited one. */
  lemma CoverPassesDown(e: string, ce: string, callerExclude: seq<string>, local: string, childPeer: string,
                        parentPeer: string)
    requires Inherits(ce, e, childPeer, parentPeer) && Covered(Canonicalize(ce, childPeer), callerExclude, local, local)
    ensures Covered(Canonicalize(e, parentPeer), callerExclude, local, local)
  {
    var x, y := Canonicalize(e, parentPeer), Canonicalize(ce, childPeer);
    CoveredCanonical(y, ce, callerExclude, local, childPeer);
    ReachedThroughCover(x, y, callerExclude, local);
    CanonicalizeIdempotent(e, parentPeer, local);
  }

  lemma ExcludeNarrowsExactly(ct: string, e: string, callerExclude: seq<string>, child: Scope, parent: Scope,
                              childPeer: string, parentPeer: string, local: string)
    requires SubPatterns(CanonAll(parent.excludes, parentPeer), CanonAll(child.excludes, childPeer))
    requires e in parent.excludes
    requires forall ce :: ce in child.excludes ==> Clears(ct, ce, callerExclude, local, childPeer)
    ensures Clears(ct, e, callerExclude, local, parentPeer)
       <==> !Slips(ct, e, callerExclude, child, childPeer, parentPeer, local)
  {
    hide MatchesPattern, Canonicalize, PatternsOverlap, Covered, IsUnmatchable, SubPatterns;
    var ce := InheritedExclude(e, child.excludes, parent.excludes, childPeer, parentPeer);
    assert Clears(ct, ce, callerExclude, local, childPeer);
    if !IsPattern(ct) {
      PathExcludeNarrows(ct, e, ce, childPeer, parentPeer);
    } else if x :| && x in child.excludes && Inherits(x, e, childPeer, parentPeer)
                   && PatternsOverlap(ct, Canonicalize(x, childPeer)) {
      assert Clears(ct, x, callerExclude, local, childPeer);
      CoverPassesDown(e, x, callerExclude, local, childPeer, parentPeer);
    }
  }

  /** A target the child admits, the parent admits exactly when no parent exclude slips. */
  lemma TargetNarrowsExactly(target: string, callerExclude: seq<string>, child: Scope, parent: Scope, local: string,
                             childPeer: string, parentPeer: string)
    requires SubPatterns(CanonAll(child.includes, childPeer), CanonAll(parent.includes, parentPeer))
    requires SubPatterns(CanonAll(parent.excludes, parentPeer), CanonAll(child.excludes, childPeer))
    requires TargetAdmitted(target, callerExclude, child, local, childPeer)
    ensures TargetAdmitted(target, callerExclude, parent, local, parentPeer)
       <==> Tight(Canonicalize(target, local), callerExclude, child, parent, childPeer, parentPeer, local)
  {
    var ct := Canonicalize(target, local);
    assert Reached(ct, child.includes, childPeer);
    IncludesNarrow(ct, child.includes, parent.includes, childPeer, parentPeer);
    assert Covered(target, parent.includes, local, parentPeer);
    hide MatchesPattern, Canonicalize, PatternsOverlap, Covered, SubPatterns, Slips, PatternClears, PathClears;
    assert forall ce :: ce in child.excludes ==> Clears(ct, ce, callerExclude, local, childPeer);
    forall e | e in parent.excludes {
      ExcludeNarrowsExactly(ct, e, callerExclude, child, parent, childPeer, parentPeer, local);
    }
    assert TargetAdmitted(target, callerExclude, parent, local, parentPeer)
      <==> forall e :: e in parent.excludes ==> Clears(ct, e, callerExclude, local, parentPeer);
  }

  /** The condition as a guard on the call: for a target the child admits, nothing slips if and
      only if the caller excludes every parent exclude that overlaps the pattern. */
  lemma TightMeansAnswered(target: string, callerExclude: seq<string>, child: Scope, parent: Scope, local: string,
                           childPeer: string, parentPeer: string)
    requires TargetAdmitted(target, callerExclude, child, local, childPeer)
    ensures var ct := Canonicalize(target, local);
            Tight(ct, callerExclude, child, parent, childPeer, parentPeer, local) <==>
              forall e :: e in parent.excludes && IsPattern(ct) && PatternsOverlap(ct, Canonicalize(e, parentPeer)) ==>
                Covered(Canonicalize(e, parentPeer), callerExclude, local, local)
  {
    hide MatchesPattern, Canonicalize, PatternsOverlap, Covered, IsUnmatchable;
    var ct := Canonicalize(target, local);
    forall e, x | && e in parent.excludes && IsPattern(ct) && x in child.excludes
                  && Inherits(x, e, childPeer, parentPeer) && PatternsOverlap(ct, Canonicalize(x, childPeer))
      ensures Covered(Canonicalize(e, parentPeer), callerExclude, local, local)
    {
      assert Clears(ct, x, callerExclude, local, childPeer);
      CoverPassesDown(e, x, callerExclude, local, childPeer, parentPeer);
    }
  }

  /** The same at the path level, where there are no caller excludes to answer an overlap. */
  lemma PathNarrowsExactly(path: string, child: Scope, parent: Scope, local: string, childPeer: string,
                           parentPeer: string)
    requires SubPatterns(CanonAll(child.includes, childPeer), CanonAll(parent.includes, parentPeer))
    requires SubPatterns(CanonAll(parent.excludes, parentPeer), CanonAll(child.excludes, childPeer))
    requires PathAdmitted(path, child, local, childPeer)
    ensures PathAdmitted(path, parent, local, parentPeer)
       <==> Tight(Canonicalize(path, local), [], child, parent, childPeer, parentPeer, local)
  {
    var ct := Canonicalize(path, local);
    IncludesNarrow(ct, child.includes, parent.includes, childPeer, parentPeer);
    assert forall e, peer :: SubjectClears(ct, e, peer) <==> Clears(ct, e, [], local, peer);
    hide MatchesPattern, Canonicalize, PatternsOverlap, SubPatterns, Slips, Clears, SubjectClears;
    forall e | e in parent.excludes {
      ExcludeNarrowsExactly(ct, e, [], child, parent, childPeer, parentPeer, local);
    }
  }

  // ----- what slips -----------------------------------------------------

  /** Only a leading peer wildcard lets an exclude slip, in the target or in every exclude the
      child inherits it through. */
  lemma SlipNeedsPeerWildcard(ct: string, e: string, ce: string, callerExclude: seq<string>, child: Scope,
                              childPeer: string, parentPeer: string, local: string)
    requires Slips(ct, e, callerExclude, child, childPeer, parentPeer, local)
    requires ce in child.excludes && Inherits(ce, e, childPeer, parentPeer)
    ensures PeerWild(ct) || PeerWild(Canonicalize(ce, childPeer))
  {
    if !PeerWild(ct) && !PeerWild(Canonicalize(ce, childPeer)) {
      OverlapWidens(ct, Canonicalize(e, parentPeer), Canonicalize(ce, childPeer));
    }
  }

  /** When the target and the parent exclude do share a path, the child's inheriting exclude
      slips because it forms a blind pair with the target. */
  lemma SlipIsBlind(ct: string, e: string, ce: string, callerExclude: seq<string>, child: Scope,
                    childPeer: string, parentPeer: string, local: string)
    requires Slips(ct, e, callerExclude, child, childPeer, parentPeer, local)
    requires ce in child.excludes && Inherits(ce, e, childPeer, parentPeer)
    requires SharesPath(ct, Canonicalize(e, parentPeer))
    ensures Blind(ct, Canonicalize(ce, childPeer))
  {
    var x, y := Canonicalize(e, parentPeer), Canonicalize(ce, childPeer);
    var path := SharedWitness(ct, x);
    MatchesTransitive(path, x, y);
    assert Common(path, ct, y);
    OverlapMissesExactly(ct, y);
  }

  /** A target the subset checks speak for: a concrete one, or a pattern with no leading
      peer wildcard in it or in the scope's excludes. */
  ghost predicate Plain(ct: string, scope: Scope, peer: string) {
    IsPattern(ct) ==> !PeerWild(ct) && forall e :: e in scope.excludes ==> !PeerWild(Canonicalize(e, peer))
  }

  lemma PlainIsTight(ct: string, callerExclude: seq<string>, child: Scope, parent: Scope, childPeer: string,
                     parentPeer: string, local: string)
    requires SubPatterns(CanonAll(parent.excludes, parentPeer), CanonAll(child.excludes, childPeer))
    requires Plain(ct, child, childPeer)
    ensures Tight(ct, callerExclude, child, parent, childPeer, parentPeer, local)
  {
    hide MatchesPattern, PatternsOverlap, Covered, SubPatterns, PeerWild;
    forall e | e in parent.excludes ensures !Slips(ct, e, callerExclude, child, childPeer, parentPeer, local) {
      var ce := InheritedExclude(e, child.excludes, parent.excludes, childPeer, parentPeer);
      if Slips(ct, e, callerExclude, child, childPeer, parentPeer, local) {
        SlipNeedsPeerWildcard(ct, e, ce, callerExclude, child, childPeer, parentPeer, local);
      }
    }
  }

  // ----- grants ---------------------------------------------------------

  /** No exclude of the parent grant slips past the child grant for any target of the
      request. */
  ghost predicate TightRequest(resource: Option<ResourceTarget>, child: Scope, parent: Scope, childPeer: string,
                               parentPeer: string, local: string) {
    forall t :: t in EffectiveOf(resource, local) ==>
      Tight(Canonicalize(t, local), resource.value.exclude, child, parent, childPeer, parentPeer, local)
  }

  /** A request a covered child grant admits, the parent grant admits exactly when no exclude
      slips; the other dimensions always narrow. */
  lemma CoveredGrantAdmitsExactly(env: Env, req: Request, child: Grant, parent: Grant, childPeer: string,
                                  parentPeer: string, handler: string, local: string, relaxPeers: bool)
    requires PeerIdsAreSegments(env, local)
    requires Covers(parent, child, parentPeer, childPeer, local)
    requires GrantAdmits(env, req, child, handler, local, childPeer, relaxPeers)
    ensures GrantAdmits(env, req, parent, handler, local, parentPeer, relaxPeers)
       <==> TightRequest(req.resource, child.resources, parent.resources, childPeer, parentPeer, local)
  {
    hide MatchesPattern, SubPatterns, IdSubset, SubMap, TargetAdmitted, Tight, ExtractPeer, Effective;
    OperationsNarrow(req.operation, child.operations, parent.operations);
    HandlersNarrow(handler, child.handlers, parent.handlers);
    forall t | t in EffectiveOf(req.resource, local) {
      TargetNarrowsExactly(t, req.resource.value.exclude, child.resources, parent.resources, local, childPeer,
                           parentPeer);
    }
    if !relaxPeers {
      ExtractedPeerIsSegment(if req.uri == "" then handler else req.uri, local);
      PeersNarrow(env, TargetPeer(req, handler, local), PeersOf(child, local), PeersOf(parent, local), local);
    }
  }

  /** The path level, likewise. */
  lemma CoveredGrantAdmitsPathExactly(operation: string, path: string, child: Grant, parent: Grant, childPeer: string,
                                      parentPeer: string, handler: string, local: string)
    requires Covers(parent, child, parentPeer, childPeer, local)
    requires GrantAdmitsPath(operation, path, child, handler, local, childPeer)
    ensures GrantAdmitsPath(operation, path, parent, handler, local, parentPeer)
       <==> Tight(Canonicalize(path, local), [], child.resources, parent.resources, childPeer, parentPeer, local)
  {
    hide MatchesPattern, SubPatterns, IdSubset, SubMap, PathAdmitted, Tight;
    OperationsNarrow(operation, child.operations, parent.operations);
    HandlersNarrow(handler, child.handlers, parent.handlers);
    PathNarrowsExactly(path, child.resources, parent.resources, local, childPeer, parentPeer);
  }

  // ----- containment narrows without condition --------------------------

  /** A path the child scope holds, the parent scope holds: coverage is language inclusion, so
      no overlap test stands between the two. */
  lemma HeldNarrows(path: string, child: Scope, parent: Scope, childPeer: string, parentPeer: string)
    requires SubPatterns(CanonAll(child.includes, childPeer), CanonAll(parent.includes, parentPeer))
    requires SubPatterns(CanonAll(parent.excludes, parentPeer), CanonAll(child.excludes, childPeer))
    requires Held(path, child, childPeer)
    ensures Held(path, parent, parentPeer)
  {
    hide MatchesPattern, Canonicalize, SubPatterns, IsUnmatchable;
    IncludesNarrow(path, child.includes, parent.includes, childPeer, parentPeer);
    forall e | e in parent.excludes ensures !MatchesPattern(path, Canonicalize(e, parentPeer)) {
      var ce := InheritedExclude(e, child.excludes, parent.excludes, childPeer, parentPeer);
      if MatchesPattern(path, Canonicalize(e, parentPeer)) {
        MatchesTransitive(path, Canonicalize(e, parentPeer), Canonicalize(ce, childPeer));
      }
    }
  }
}
