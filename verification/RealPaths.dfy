/** Paths a tree can hold, and semantic containment over exactly these.  Patterns range over
    all strings; a blind pair matters only when the two sides share a path that is valid and
    star-free, and the generic common path tells whether they do. */
module RealPaths {
  import opened Patterns
  import opened Overlap
  import opened Tokens
  import opened Scopes
  import opened GenericPaths

  predicate Real(path: string) { ValidAbsolutePath(path) && !IsPattern(path) }

  // ----- the shape of a real path ---------------------------------------

  predicate CleanChar(c: char) { c >= ' ' && c != '\U{7F}' && c != '*' }

  predicate NoDoubleSlash(s: string) { forall i :: 0 <= i < |s| - 1 ==> !(s[i] == '/' && s[i + 1] == '/') }

  /** What may follow the first segment: clean characters, no empty segment inside. */
  predicate Clean(s: string) {
    && (forall i :: 0 <= i < |s| ==> CleanChar(s[i]))
    && NoDoubleSlash(s)
    && (s != "" ==> s[0] != '/')
  }

  lemma PeerIdIsClean(peer: string)
    requires IsPeerId(peer)
    ensures Clean(peer) && '/' !in peer && peer != ""
  {
  }

  lemma CleanPrefix(s: string, t: string)
    requires Clean(t) && s <= t
    ensures Clean(s)
  {
    assert forall i :: 0 <= i < |s| ==> s[i] == t[i];
  }

  lemma CleanFill(s: string, fill: string)
    requires Clean(s) && IsPeerId(fill)
    ensures Clean(s + fill)
  {
    PeerIdIsClean(fill);
    assert forall i :: |s| <= i < |s + fill| ==> (s + fill)[i] == fill[i - |s|];
  }

  /** A peer id and a clean rest make a real path. */
  lemma HopIsReal(peer: string, rest: string)
    requires IsPeerId(peer) && Clean(rest)
    ensures Real("/" + peer + "/" + rest)
  {
    PeerIdIsClean(peer);
    var p := "/" + peer + "/" + rest;
    var body := peer + "/" + rest;
    assert p[1..] == body && p[0] == '/';
    FirstSlashAfter(peer, rest);
    assert body[..|peer|] == peer;
    assert forall i :: 0 <= i < |p| ==> CleanChar(p[i]);
    hide FirstSlash, IsPeerId;
    assert NoDoubleSlash(body);
  }

  lemma LonePeerIsReal(peer: string)
    requires IsPeerId(peer)
    ensures Real("/" + peer)
  {
    PeerIdIsClean(peer);
    var p := "/" + peer;
    assert p[1..] == peer && p[0] == '/';
    assert forall i :: 0 <= i < |p| ==> CleanChar(p[i]);
  }

  lemma CleanAfterSlash(body: string, k: nat)
    requires 0 < k <= |body| && body[k - 1] == '/'
    requires (forall i :: 0 <= i < |body| ==> CleanChar(body[i])) && NoDoubleSlash(body)
    ensures Clean(body[k..])
  {
    assert forall i :: 0 <= i < |body| - k ==> body[k..][i] == body[k + i];
  }

  lemma RealBody(path: string)
    requires Real(path)
    ensures path[0] == '/' && IsPeerId(FirstSegment(path[1..])) && NoDoubleSlash(path[1..])
    ensures forall i :: 0 <= i < |path[1..]| ==> CleanChar(path[1..][i])
  {
  }

  /** Beyond its first segment a real path is clean. */
  lemma RealHop(path: string)
    requires Real(path) && AfterHop(path).Some?
    ensures IsPeerId(FirstSegment(path[1..])) && Clean(AfterHop(path).value)
    ensures path == "/" + FirstSegment(path[1..]) + "/" + AfterHop(path).value
  {
    RealBody(path);
    HopSegment(path);
    var body, segment, rest := path[1..], FirstSegment(path[1..]), AfterHop(path).value;
    hide Real, AfterHop, FirstSegment, IsPeerId, NoDoubleSlash, CleanChar, Clean;
    assert body == segment + "/" + rest;
    assert body[|segment|] == '/' && body[|segment| + 1..] == rest;
    CleanAfterSlash(body, |segment| + 1);
  }

  // ----- the generic common path of a real one ---------------------------

  /** Behind the first segment a pattern cannot begin with a peer wildcard and still match. */
  lemma TailIsPlain(rest: string, a: string)
    requires Clean(rest) && MatchesPattern(rest, a)
    ensures !PeerWild(a)
  {
  }

  lemma GenericUnderClean(a: string, prefix: string, fill: string, rest: string)
    requires IsPeerId(fill) && Clean(rest) && MatchesPattern(rest, a) && prefix <= rest && SharesPrefix(a, prefix)
    ensures Clean(GenericUnder(a, prefix, fill))
  {
    TailIsPlain(rest, a);
    if a == "*" || Subtree(a) {
      var head := if a == "*" then prefix else Longer(a[..|a| - 1], prefix);
      CleanPrefix(head, rest);
      CleanFill(head, fill);
    }
  }

  lemma GenericTailClean(a: string, b: string, fill: string, rest: string)
    requires IsPeerId(fill) && Clean(rest) && Common(rest, a, b) && SharesPath(a, b)
    ensures Clean(GenericCommon(a, b, fill))
  {
    TailIsPlain(rest, a);
    TailIsPlain(rest, b);
    hide Clean, IsPeerId;
    if a == "*" {
      GenericUnderOf(b, "", rest, fill);
    } else if b == "*" {
      GenericUnderOf(a, "", rest, fill);
    } else if Subtree(a) {
      GenericUnderOf(b, a[..|a| - 1], rest, fill);
    }
  }

  lemma GenericUnderOf(a: string, prefix: string, rest: string, fill: string)
    requires IsPeerId(fill) && Clean(rest) && MatchesPattern(rest, a) && prefix <= rest
    ensures SharesPrefix(a, prefix) && Clean(GenericUnder(a, prefix, fill))
  {
    PrefixComplete(a, prefix, rest);
    GenericUnderClean(a, prefix, fill, rest);
  }

  /** A slash-ended prefix of a real path, then a peer id. */
  lemma PrefixFillReal(prefix: string, fill: string, path: string)
    requires IsPeerId(fill) && Real(path) && prefix <= path && HasSuffix(prefix, "/")
    ensures Real(prefix + fill)
  {
    RealBody(path);
    assert prefix[0] == path[0] == '/' && prefix[|prefix| - 1] == '/';
    if |prefix| == 1 {
      assert prefix == "/";
      LonePeerIsReal(fill);
    } else {
      SlashEndedHop(prefix);
      HopFillReal(prefix, fill, path);
    }
  }

  lemma HopFillReal(prefix: string, fill: string, path: string)
    requires IsPeerId(fill) && Real(path) && prefix <= path && AfterHop(prefix).Some?
    ensures Real(prefix + fill)
  {
    hide FirstSegment, Real, IsPeerId, Clean, AfterHop;
    var peer, rest := FirstSegment(prefix[1..]), AfterHop(prefix).value;
    HopOfLonger(prefix, path);
    RealHop(path);
    SameFirstSegment(prefix, path);
    CleanPrefix(rest, AfterHop(path).value);
    CleanFill(rest, fill);
    HopIsReal(peer, rest + fill);
    HopSegment(prefix);
    assert prefix + fill == "/" + peer + "/" + (rest + fill);
  }

  lemma SlashEndedHop(prefix: string)
    requires |prefix| > 1 && prefix[0] == '/' && prefix[|prefix| - 1] == '/'
    ensures AfterHop(prefix).Some?
  {
    assert prefix[1..][|prefix| - 2] == '/';
  }

  lemma SameFirstSegment(prefix: string, path: string)
    requires prefix <= path && AfterHop(prefix).Some?
    ensures FirstSegment(path[1..]) == FirstSegment(prefix[1..])
  {
    HopSegment(prefix);
    HopOfLonger(prefix, path);
    var segment := FirstSegment(prefix[1..]);
    assert path[1..] == segment + "/" + AfterHop(path).value;
    FirstSlashAfter(segment, AfterHop(path).value);
    assert path[1..][..|segment|] == segment;
  }

  /** A peer wildcard against a slash-ended prefix. */
  lemma WildUnderReal(a: string, prefix: string, fill: string, path: string)
    requires IsPeerId(fill) && Real(path) && MatchesPattern(path, a) && PeerWild(a)
    requires prefix <= path && HasSuffix(prefix, "/") && SharesPrefix(a, prefix)
    ensures Real(GenericUnder(a, prefix, fill))
  {
    RealHop(path);
    assert prefix[0] == path[0] == '/' && prefix[|prefix| - 1] == '/';
    var rest := AfterHop(path).value;
    if |prefix| == 1 {
      assert prefix[1..] + fill == fill;
      GenericUnderOf(a[3..], "", rest, fill);
      HopIsReal(fill, GenericUnder(a[3..], "", fill));
    } else {
      SlashEndedHop(prefix);
      HopOfLonger(prefix, path);
      SameFirstSegment(prefix, path);
      GenericUnderOf(a[3..], AfterHop(prefix).value, rest, fill);
      HopIsReal(FirstSegment(prefix[1..]), GenericUnder(a[3..], AfterHop(prefix).value, fill));
    }
  }

  lemma SubtreePrefix(a: string, path: string)
    requires Subtree(a) && !PeerWild(a) && MatchesPattern(path, a) && a != "*"
    ensures a[..|a| - 1] <= path && HasSuffix(a[..|a| - 1], "/")
  {
    var r := a[..|a| - 1];
    assert r[|r| - 1] == a[|a| - 2] == '/';
  }

  lemma UnderReal(a: string, prefix: string, fill: string, path: string)
    requires IsPeerId(fill) && Real(path) && MatchesPattern(path, a) && a != "*"
    requires prefix <= path && HasSuffix(prefix, "/") && SharesPrefix(a, prefix)
    ensures Real(GenericUnder(a, prefix, fill))
  {
    hide Real, IsPeerId;
    if PeerWild(a) {
      WildUnderReal(a, prefix, fill, path);
    } else if Subtree(a) {
      SubtreePrefix(a, path);
      PrefixFillReal(Longer(a[..|a| - 1], prefix), fill, path);
    }
  }

  /** If two patterns share a real path, their generic common path is real. */
  lemma SharedRealIsGeneric(a: string, b: string, fill: string, path: string)
    requires IsPeerId(fill) && Real(path) && Common(path, a, b) && a != "*" && b != "*" && SharesPath(a, b)
    ensures Real(GenericCommon(a, b, fill))
  {
    hide Real, IsPeerId;
    if PeerWild(a) && PeerWild(b) {
      RealHop(path);
      GenericTailClean(a[3..], b[3..], fill, AfterHop(path).value);
      HopIsReal(fill, GenericCommon(a[3..], b[3..], fill));
    } else if PeerWild(a) {
      if Subtree(b) {
        SubtreePrefix(b, path);
        UnderReal(a, b[..|b| - 1], fill, path);
      }
    } else if Subtree(a) {
      SubtreePrefix(a, path);
      UnderReal(b, a[..|a| - 1], fill, path);
    }
  }

  ghost predicate ShareReal(a: string, b: string) {
    exists path :: Real(path) && Common(path, a, b)
  }

  /** An exact decision: two patterns share a real path if and only if they share a path and
      their generic one, for any peer id as fill, is real. */
  lemma ShareRealExactly(a: string, b: string, fill: string)
    requires a != "*" && b != "*" && IsPeerId(fill)
    ensures ShareReal(a, b) <==> SharesPath(a, b) && Real(GenericCommon(a, b, fill))
  {
    hide Real, MatchesPattern, SharesPath, IsPeerId;
    SharesPathExactly(a, b);
    if path :| Real(path) && Common(path, a, b) { SharedRealIsGeneric(a, b, fill, path); }
    if SharesPath(a, b) {
      PeerIdIsClean(fill);
      GenericCommonMatches(a, b, fill);
    }
  }

  /** One peer's whole namespace and a name under every peer share a real path exactly when the
      peer is a peer id and the name is clean. */
  lemma NamedPairShareReal(segment: string, name: string)
    requires segment != "" && '/' !in segment && '*' !in segment && !IsPattern(name)
    ensures Blind("/" + segment + "/*", "/*/" + name)
    ensures ShareReal("/" + segment + "/*", "/*/" + name) <==> IsPeerId(segment) && Clean(name)
  {
    BlindPairExists(segment, name);
    var a, b := "/" + segment + "/*", "/*/" + name;
    hide Blind, Clean, IsPeerId;
    if IsPeerId(segment) && Clean(name) {
      HopIsReal(segment, name);
      NamedUnderPeer(segment, name);
    }
    forall path | Real(path) && Common(path, a, b) ensures IsPeerId(segment) && Clean(name) {
      NamedPathParts(segment, name, path);
      RealHop(path);
    }
  }

  lemma NamedPathParts(segment: string, name: string, path: string)
    requires '/' !in segment && segment != "" && '*' !in segment && !IsPattern(name)
    requires Common(path, "/" + segment + "/*", "/*/" + name)
    ensures AfterHop(path) == Some(name) && FirstSegment(path[1..]) == segment
  {
    UnderNamedPeer(segment, path);
    var b, lead := "/*/" + name, "/" + segment + "/";
    assert b[3..] == name;
    assert AfterHop(path).Some? && MatchesPattern(AfterHop(path).value, name);
    StarFreeMatchesOnlyItself(AfterHop(path).value, name);
    hide MatchesPattern, AfterHop, FirstSegment, IsPattern;
    PeerSegment(segment);
    SameFirstSegment(lead, path);
  }

  lemma UnderNamedPeer(segment: string, path: string)
    requires segment != "" && '*' !in segment && MatchesPattern(path, "/" + segment + "/*")
    ensures "/" + segment + "/" <= path
  {
    var a := "/" + segment + "/*";
    assert a == ("/" + segment) + "/*" && a[1] == segment[0];
    SubtreeParts("/" + segment);
    PlainMatch(path, a);
  }

  lemma PeerSegment(segment: string)
    requires '/' !in segment
    ensures var lead := "/" + segment + "/"; AfterHop(lead).Some? && FirstSegment(lead[1..]) == segment
  {
    var lead := "/" + segment + "/";
    assert lead == "/" + segment + "/" + "" && lead[1..] == segment + "/" + "";
    AfterHopAppend(segment, "");
    FirstSlashAfter(segment, "");
    assert lead[1..][..|segment|] == segment;
  }

  // ----- containment, exactly -------------------------------------------

  /** Every real path the request names is granted and not excluded by the grant. */
  ghost predicate RealContained(resource: ResourceTarget, scope: Scope, local: string, granter: string) {
    forall path :: Real(path) && Named(path, resource, local) ==> Held(path, scope, granter)
  }

  /** The caller excludes the generic path of every blind pair that shares a real one. */
  ghost predicate RealPairsAnswered(resource: ResourceTarget, scope: Scope, local: string, granter: string,
                                    fill: string) {
    forall t, e :: && t in Effective(resource.targets, resource.exclude, local) && e in scope.excludes
                   && Blind(Canonicalize(t, local), Canonicalize(e, granter))
                   && Real(GenericCommon(Canonicalize(t, local), Canonicalize(e, granter), fill)) ==>
      Reached(GenericCommon(Canonicalize(t, local), Canonicalize(e, granter), fill), resource.exclude, local)
  }

  /** Semantic containment over the paths a tree can hold, exactly: an accepted request names
      only granted, unexcluded ones if and only if the caller itself excludes one real path,
      the generic one, per blind pair that shares any. */
  lemma RealContainmentExactly(resource: ResourceTarget, scope: Scope, local: string, granter: string, fill: string)
    requires ResourceAdmitted(Some(resource), scope, local, granter)
    requires Unspelled(fill, resource.exclude, local) && IsPeerId(fill)
    ensures RealContained(resource, scope, local, granter) <==> RealPairsAnswered(resource, scope, local, granter, fill)
  {
    hide Real, IsPeerId, MatchesPattern, Canonicalize, Effective, SharesPath, Named, Held, GenericCommon;
    if RealPairsAnswered(resource, scope, local, granter, fill) {
      forall path | Real(path) && Named(path, resource, local) ensures Held(path, scope, granter) {
        RealPathHeld(path, resource, scope, local, granter, fill);
      }
    } else {
      var t, e :| && t in Effective(resource.targets, resource.exclude, local) && e in scope.excludes
                  && Blind(Canonicalize(t, local), Canonicalize(e, granter))
                  && Real(GenericCommon(Canonicalize(t, local), Canonicalize(e, granter), fill))
                  && !Reached(GenericCommon(Canonicalize(t, local), Canonicalize(e, granter), fill), resource.exclude,
                              local);
      UnansweredEscapes(t, e, resource, scope, local, granter, fill);
    }
  }

  lemma RealPathHeld(path: string, resource: ResourceTarget, scope: Scope, local: string, granter: string, fill: string)
    requires ResourceAdmitted(Some(resource), scope, local, granter)
    requires Unspelled(fill, resource.exclude, local) && IsPeerId(fill)
    requires RealPairsAnswered(resource, scope, local, granter, fill)
    requires Real(path) && Named(path, resource, local)
    ensures Held(path, scope, granter)
  {
    hide Real, IsPeerId, MatchesPattern, Canonicalize, Effective;
    var t :| t in Effective(resource.targets, resource.exclude, local)
             && MatchesPattern(path, Canonicalize(t, local));
    var ct := Canonicalize(t, local);
    assert TargetAdmitted(t, resource.exclude, scope, local, granter);
    assert Reached(ct, scope.includes, granter);
    ReachedThroughCover(path, ct, scope.includes, granter);
    forall e | e in scope.excludes ensures !MatchesPattern(path, Canonicalize(e, granter)) {
      var ce := Canonicalize(e, granter);
      if Blind(ct, ce) && MatchesPattern(path, ce) {
        SharedRealIsGeneric(ct, ce, fill, path);
        AnsweredPairContained(path, ct, ce, fill, resource.exclude, local);
      } else if !Blind(ct, ce) {
        ExcludeNotReached(path, t, e, resource, scope, local, granter);
      }
    }
  }

  /** Without caller excludes: an accepted request is contained if and only if no pattern target
      forms a blind pair with an exclude it shares a real path with. */
  lemma ContainmentWithoutCallerExcludes(resource: ResourceTarget, scope: Scope, local: string, granter: string)
    requires ResourceAdmitted(Some(resource), scope, local, granter) && resource.exclude == []
    ensures RealContained(resource, scope, local, granter) <==>
              forall t, e :: t in Effective(resource.targets, resource.exclude, local) && e in scope.excludes
                             && Blind(Canonicalize(t, local), Canonicalize(e, granter)) ==>
                !ShareReal(Canonicalize(t, local), Canonicalize(e, granter))
  {
    var fill := UnspelledExists([], local);
    RealContainmentExactly(resource, scope, local, granter, fill);
    forall t, e | Blind(Canonicalize(t, local), Canonicalize(e, granter)) {
      ShareRealExactly(Canonicalize(t, local), Canonicalize(e, granter), fill);
    }
  }

  // ----- one target, one exclude ----------------------------------------

  lemma LoneEffective(target: string, local: string, t: string)
    ensures t in EffectiveOf(Some(ResourceTarget([target], [])), local) <==> t == target
  {
    EffectiveMembers([target], [], local, t);
  }

  lemma LoneReached(path: string, pattern: string, local: string)
    requires IsAbsolute(pattern)
    ensures Reached(path, [pattern], local) <==> MatchesPattern(path, pattern)
  {
    AbsoluteIsCanonical(pattern, local);
    hide MatchesPattern, Canonicalize;
    assert pattern in [pattern];
  }

  /** What such a request names that the grant does not hold: exactly the shared strings. */
  lemma LoneEscape(target: string, exclude: string, local: string, path: string)
    requires IsAbsolute(target) && IsAbsolute(exclude)
    ensures Named(path, ResourceTarget([target], []), local) && !Held(path, Scope([target], [exclude]), local)
       <==> Common(path, target, exclude)
  {
    AbsoluteIsCanonical(target, local);
    LoneReached(path, target, local);
    LoneReached(path, exclude, local);
    forall t ensures t in Effective([target], [], local) <==> t == target { LoneEffective(target, local, t); }
    assert !Reached(path, [], local);
    hide MatchesPattern, Canonicalize, Effective, Reached;
  }

  lemma LoneClears(target: string, exclude: string, local: string)
    requires IsAbsolute(exclude) && IsPattern(target)
    ensures Clears(target, exclude, [], local, local) <==> !PatternsOverlap(target, exclude)
  {
    AbsoluteIsCanonical(exclude, local);
    assert exclude[0] == '/' && !IsUnmatchable(exclude);
    hide MatchesPattern, PatternsOverlap, Canonicalize, IsUnmatchable;
    assert !Reached(Canonicalize(exclude, local), [], local);
  }

  lemma LoneAdmitted(target: string, exclude: string, local: string)
    requires IsAbsolute(target) && IsAbsolute(exclude) && IsPattern(target)
    ensures ResourceAdmitted(Some(ResourceTarget([target], [])), Scope([target], [exclude]), local, local)
       <==> !PatternsOverlap(target, exclude)
  {
    AbsoluteIsCanonical(target, local);
    MatchesReflexive(target);
    LoneReached(target, target, local);
    LoneClears(target, exclude, local);
    hide MatchesPattern, PatternsOverlap, Canonicalize, Effective, Reached, Clears, IsPattern;
    forall t ensures t in EffectiveOf(Some(ResourceTarget([target], [])), local) <==> t == target {
      LoneEffective(target, local, t);
    }
    assert exclude in [exclude];
    assert TargetAdmitted(target, [], Scope([target], [exclude]), local, local)
      <==> Clears(target, exclude, [], local, local);
    hide TargetAdmitted, EffectiveOf;
  }

  /** Every blind pair of absolute patterns gives an accepted request, and it is accepted
      wrongly if and only if the pair shares a real path. */
  lemma BlindPairEscapes(target: string, exclude: string, local: string)
    requires IsAbsolute(target) && IsAbsolute(exclude) && Blind(target, exclude)
    ensures var resource, scope := ResourceTarget([target], []), Scope([target], [exclude]);
            && ResourceAdmitted(Some(resource), scope, local, local)
            && (RealContained(resource, scope, local, local) <==> !ShareReal(target, exclude))
  {
    LoneAdmitted(target, exclude, local);
    OverlapMissesExactly(target, exclude);
    hide Common, PatternsOverlap, Named, Held, Real, ResourceAdmitted, Blind;
    var resource, scope := ResourceTarget([target], []), Scope([target], [exclude]);
    forall path ensures Named(path, resource, local) && !Held(path, scope, local) <==> Common(path, target, exclude) {
      LoneEscape(target, exclude, local, path);
    }
  }

  /** Every spurious pair of absolute patterns gives a request that is refused although nothing
      it names is excluded. */
  lemma SpuriousPairRefused(target: string, exclude: string, local: string)
    requires IsAbsolute(target) && IsAbsolute(exclude) && Spurious(target, exclude)
    ensures var resource, scope := ResourceTarget([target], []), Scope([target], [exclude]);
            !ResourceAdmitted(Some(resource), scope, local, local) && Contained(resource, scope, local, local)
  {
    LoneAdmitted(target, exclude, local);
    OverlapExactly(target, exclude);
    SharesPathExactly(target, exclude);
    assert !SharesPath(target, exclude);
    hide Common, PatternsOverlap, SharesPath, Named, Held, ResourceAdmitted, Spurious;
    var resource, scope := ResourceTarget([target], []), Scope([target], [exclude]);
    forall path ensures Named(path, resource, local) && !Held(path, scope, local) <==> Common(path, target, exclude) {
      LoneEscape(target, exclude, local, path);
    }
  }
}
