/** A generic common path of two patterns: one that a further pattern matches only if it
    matches everything the two have in common.  It turns the question whether several
    caller excludes jointly cover an overlap into a question about one path, and makes the
    condition for semantic containment exact. */
module GenericPaths {
  import opened Patterns
  import opened Overlap
  import opened Tokens
  import opened Scopes

  /** A path of `a` beginning with `prefix`, with `fill` wherever a wildcard leaves a
      choice. */
  function GenericUnder(a: string, prefix: string, fill: string): string
    requires SharesPrefix(a, prefix)
    decreases |a|
  {
    if a == "*" then prefix + fill
    else if PeerWild(a) then
      if prefix == "" then "/" + fill + "/" + GenericUnder(a[3..], "", fill)
      else if AfterHop(prefix).None? then "/" + (prefix[1..] + fill) + "/" + GenericUnder(a[3..], "", fill)
      else "/" + FirstSegment(prefix[1..]) + "/" + GenericUnder(a[3..], AfterHop(prefix).value, fill)
    else if Subtree(a) then Longer(a[..|a| - 1], prefix) + fill
    else a
  }

  function Longer(x: string, y: string): string {
    if x <= y then y else x
  }

  /** A generic path both patterns match. */
  function GenericCommon(a: string, b: string, fill: string): string
    requires SharesPath(a, b)
    decreases |a|
  {
    if a == "*" then GenericUnder(b, "", fill)
    else if b == "*" then GenericUnder(a, "", fill)
    else if PeerWild(a) && PeerWild(b) then "/" + fill + "/" + GenericCommon(a[3..], b[3..], fill)
    else if PeerWild(a) then (if Subtree(b) then GenericUnder(a, b[..|b| - 1], fill) else b)
    else if Subtree(a) then GenericUnder(b, a[..|a| - 1], fill)
    else a
  }

  // ----- it is a common path --------------------------------------------

  lemma HopSegment(prefix: string)
    requires AfterHop(prefix).Some?
    ensures '/' !in FirstSegment(prefix[1..])
    ensures prefix == "/" + FirstSegment(prefix[1..]) + "/" + AfterHop(prefix).value
  {
    var segment := AfterHopSplit(prefix);
    assert prefix[1..] == segment + "/" + AfterHop(prefix).value;
    FirstSlashAfter(segment, AfterHop(prefix).value);
    assert prefix[1..][..|segment|] == segment;
  }

  lemma HopMatches(segment: string, rest: string, a: string)
    requires '/' !in segment && PeerWild(a) && MatchesPattern(rest, a[3..])
    ensures MatchesPattern("/" + segment + "/" + rest, a)
  {
    AfterHopAppend(segment, rest);
  }

  /** Matching without a leading peer wildcard. */
  lemma PlainMatch(path: string, x: string)
    requires !PeerWild(x)
    ensures MatchesPattern(path, x) <==> x == "*" || (if Subtree(x) then x[..|x| - 1] <= path else path == x)
  {
  }

  lemma {:induction false} GenericUnderMatches(a: string, prefix: string, fill: string)
    requires SharesPrefix(a, prefix) && '/' !in fill
    ensures MatchesPattern(GenericUnder(a, prefix, fill), a) && prefix <= GenericUnder(a, prefix, fill)
    decreases |a|
  {
    hide MatchesPattern, AfterHop;
    if !PeerWild(a) {
      PlainMatch(GenericUnder(a, prefix, fill), a);
    } else if prefix == "" {
      GenericUnderMatches(a[3..], "", fill);
      HopMatches(fill, GenericUnder(a[3..], "", fill), a);
    } else if AfterHop(prefix).None? {
      HoplessPrefix(prefix);
      GenericUnderMatches(a[3..], "", fill);
      HopMatches(prefix[1..] + fill, GenericUnder(a[3..], "", fill), a);
      assert prefix == "/" + prefix[1..];
    } else {
      HopSegment(prefix);
      GenericUnderMatches(a[3..], AfterHop(prefix).value, fill);
      HopMatches(FirstSegment(prefix[1..]), GenericUnder(a[3..], AfterHop(prefix).value, fill), a);
    }
  }

  lemma {:induction false} GenericCommonMatches(a: string, b: string, fill: string)
    requires SharesPath(a, b) && '/' !in fill
    ensures Common(GenericCommon(a, b, fill), a, b)
    decreases |a|
  {
    MatchesReflexive(a);
    MatchesReflexive(b);
    if a == "*" {
      GenericUnderMatches(b, "", fill);
    } else if b == "*" {
      GenericUnderMatches(a, "", fill);
    } else if PeerWild(a) && PeerWild(b) {
      GenericCommonMatches(a[3..], b[3..], fill);
      AfterHopAppend(fill, GenericCommon(a[3..], b[3..], fill));
    } else if PeerWild(a) {
      if Subtree(b) { GenericUnderMatches(a, b[..|b| - 1], fill); }
    } else if Subtree(a) {
      GenericUnderMatches(b, a[..|a| - 1], fill);
    }
  }

  // ----- it is generic --------------------------------------------------

  /** A slash-ended prefix too short to see past the fill does not see the fill. */
  lemma ShortPrefix(r: string, head: string, fill: string, tail: string)
    requires HasSuffix(r, "/") && |r| < |fill| && '/' !in fill && r <= head + fill + tail
    ensures r <= head
  {
    var s := head + fill + tail;
    assert r[|r| - 1] == '/' && r[|r| - 1] == s[|r| - 1];
    assert forall i :: |head| <= i < |head| + |fill| ==> s[i] == fill[i - |head|];
    assert |r| <= |head|;
    assert r == s[..|r|] == head[..|r|];
  }

  lemma HopOfLonger(prefix: string, path: string)
    requires prefix <= path && AfterHop(prefix).Some?
    ensures AfterHop(path) == Some(AfterHop(prefix).value + path[|prefix|..])
    ensures path == "/" + FirstSegment(prefix[1..]) + "/" + AfterHop(path).value
  {
    HopExtends(prefix, path);
    HopSegment(prefix);
    hide AfterHop, FirstSegment;
    assert path == prefix + path[|prefix|..];
  }

  /** Slash-ended prefixes of the generic path are prefixes of every path it stands for. */
  lemma {:induction false} GenericPrefix(a: string, prefix: string, fill: string, r: string, path: string)
    requires SharesPrefix(a, prefix) && '/' !in fill && |r| < |fill| && HasSuffix(r, "/")
    requires r <= GenericUnder(a, prefix, fill) && MatchesPattern(path, a) && prefix <= path
    ensures r <= path
    decreases |a|, 0
  {
    if a != "*" && PeerWild(a) {
      if prefix == "" || AfterHop(prefix).None? {
        GenericPrefixOpen(a, prefix, fill, r, path);
      } else {
        HopOfLonger(prefix, path);
        var lead := "/" + FirstSegment(prefix[1..]) + "/";
        GenericPrefixUnderLead(lead, GenericUnder(a[3..], AfterHop(prefix).value, fill), a[3..],
                               AfterHop(prefix).value, fill, r, AfterHop(path).value);
      }
    } else if a == "*" || Subtree(a) {
      var head := if a == "*" then prefix else Longer(a[..|a| - 1], prefix);
      assert head + fill == head + fill + "";
      ShortPrefix(r, head, fill, "");
    }
  }

  lemma GenericPrefixOpen(a: string, prefix: string, fill: string, r: string, path: string)
    requires SharesPrefix(a, prefix) && '/' !in fill && |r| < |fill| && HasSuffix(r, "/")
    requires a != "*" && PeerWild(a) && (prefix == "" || AfterHop(prefix).None?)
    requires r <= GenericUnder(a, prefix, fill) && AfterHop(path).Some? && prefix <= path
    ensures r <= path
  {
    var rest := GenericUnder(a[3..], "", fill);
    assert GenericUnder(a, prefix, fill) == OpenHop(prefix, fill, rest);
    hide GenericUnder, SharesPrefix;
    var head := if prefix == "" then "/" else prefix;
    OpenHopParts(prefix, fill, rest);
    ShortPrefix(r, head, fill, "/" + rest);
    assert path[0] == '/';
  }

  /** The first segment left open: `fill`, after whatever the prefix has of it. */
  function OpenHop(prefix: string, fill: string, rest: string): string {
    if prefix == "" then "/" + fill + "/" + rest else "/" + (prefix[1..] + fill) + "/" + rest
  }

  lemma OpenHopParts(prefix: string, fill: string, rest: string)
    requires prefix == "" || prefix[0] == '/'
    ensures OpenHop(prefix, fill, rest) == (if prefix == "" then "/" else prefix) + fill + ("/" + rest)
  {
    if prefix != "" { assert prefix == "/" + prefix[1..]; }
  }

  lemma {:induction false} GenericPrefixUnderLead(lead: string, rest: string, a: string, prefix: string, fill: string,
                                                  r: string, path: string)
    requires SharesPrefix(a, prefix) && rest == GenericUnder(a, prefix, fill)
    requires '/' !in fill && |r| < |fill| && HasSuffix(r, "/") && r <= lead + rest
    requires MatchesPattern(path, a) && prefix <= path
    ensures r <= lead + path
    decreases |a|, 1
  {
    if |r| <= |lead| {
      assert r == (lead + rest)[..|r|] == lead[..|r|];
    } else {
      var inner := r[|lead|..];
      assert r == lead + inner && inner == rest[..|inner|];
      assert inner[|inner| - 1] == r[|r| - 1];
      GenericPrefix(a, prefix, fill, inner, path);
    }
  }

  /** A pattern shorter than the fill matches the generic path only if it matches every path
      the generic one stands for. */
  lemma {:induction false} GenericUnderDecides(a: string, prefix: string, fill: string, x: string, path: string)
    requires SharesPrefix(a, prefix) && '/' !in fill && |x| < |fill|
    requires MatchesPattern(GenericUnder(a, prefix, fill), x) && MatchesPattern(path, a) && prefix <= path
    ensures MatchesPattern(path, x)
    decreases |x|, if a == "*" then 0 else 1
  {
    hide GenericUnder, SharesPrefix, MatchesPattern;
    if PeerWild(x) {
      GenericHop(a, prefix, fill, x, path);
    } else {
      GenericPlainDecides(a, prefix, fill, x, path);
    }
  }

  lemma GenericPlainDecides(a: string, prefix: string, fill: string, x: string, path: string)
    requires SharesPrefix(a, prefix) && '/' !in fill && |x| < |fill| && !PeerWild(x)
    requires MatchesPattern(GenericUnder(a, prefix, fill), x) && MatchesPattern(path, a) && prefix <= path
    ensures MatchesPattern(path, x)
  {
    PlainMatch(GenericUnder(a, prefix, fill), x);
    PlainMatch(path, x);
    hide GenericUnder, SharesPrefix, MatchesPattern, PeerWild;
    if Subtree(x) {
      SlashBeforeStar(x);
      hide Subtree, HasSuffix;
      if x != "*" { GenericPrefix(a, prefix, fill, x[..|x| - 1], path); }
    } else if x != "*" {
      hide Subtree;
      GenericIsExact(a, prefix, fill, path);
    }
  }

  lemma SlashBeforeStar(x: string)
    requires Subtree(x)
    ensures x != "" && HasSuffix(x[..|x| - 1], "/")
  {
    var r := x[..|x| - 1];
    assert r[|r| - 1] == x[|x| - 2] == '/';
  }

  lemma GenericIsExact(a: string, prefix: string, fill: string, path: string)
    requires SharesPrefix(a, prefix) && |GenericUnder(a, prefix, fill)| < |fill|
    requires MatchesPattern(path, a) && prefix <= path
    ensures path == GenericUnder(a, prefix, fill)
    decreases |a|
  {
    if a != "*" && PeerWild(a) && prefix != "" && AfterHop(prefix).Some? {
      HopOfLonger(prefix, path);
      GenericIsExact(a[3..], AfterHop(prefix).value, fill, AfterHop(path).value);
    }
  }

  /** The peer-wildcard case: both the generic path and the path lose one segment. */
  lemma {:induction false} GenericHop(a: string, prefix: string, fill: string, x: string, path: string)
    requires SharesPrefix(a, prefix) && '/' !in fill && |x| < |fill| && PeerWild(x)
    requires MatchesPattern(GenericUnder(a, prefix, fill), x) && MatchesPattern(path, a) && prefix <= path
    ensures MatchesPattern(path, x)
    decreases |x|, if a == "*" then 0 else 1, 0
  {
    var g := GenericUnder(a, prefix, fill);
    if a == "*" {
      SlashInPrefix(prefix, fill);
      HopOfLonger(prefix, g);
      HopOfLonger(prefix, path);
      GenericUnderDecides("*", AfterHop(prefix).value, fill, x[3..], AfterHop(path).value);
    } else if PeerWild(a) {
      if prefix == "" {
        AfterHopAppend(fill, GenericUnder(a[3..], "", fill));
        GenericUnderDecides(a[3..], "", fill, x[3..], AfterHop(path).value);
      } else if AfterHop(prefix).None? {
        HoplessPrefix(prefix);
        AfterHopAppend(prefix[1..] + fill, GenericUnder(a[3..], "", fill));
        GenericUnderDecides(a[3..], "", fill, x[3..], AfterHop(path).value);
      } else {
        HopOfLonger(prefix, path);
        HopSegment(prefix);
        AfterHopAppend(FirstSegment(prefix[1..]), GenericUnder(a[3..], AfterHop(prefix).value, fill));
        GenericUnderDecides(a[3..], AfterHop(prefix).value, fill, x[3..], AfterHop(path).value);
      }
    } else if Subtree(a) {
      GenericHop("*", Longer(a[..|a| - 1], prefix), fill, x, path);
    }
  }

  lemma SlashInPrefix(prefix: string, fill: string)
    requires '/' !in fill && AfterHop(prefix + fill).Some?
    ensures AfterHop(prefix).Some?
  {
    var s := prefix + fill;
    var segment := AfterHopSplit(s);
    var lead := "/" + segment + "/";
    assert s == lead + AfterHop(s).value;
    hide AfterHop;
    assert s[|segment| + 1] == lead[|segment| + 1] == '/';
    assert forall i :: |prefix| <= i < |s| ==> s[i] == fill[i - |prefix|];
    assert |lead| <= |prefix|;
    var rest := prefix[|lead|..];
    assert prefix[..|lead|] == s[..|lead|] && s[..|lead|] == lead;
    assert prefix == lead + rest;
    AfterHopAppend(segment, rest);
  }

  /** What the generic common path tells: a short enough pattern that matches it matches the
      whole overlap. */
  lemma {:induction false} GenericCommonDecides(a: string, b: string, fill: string, x: string, path: string)
    requires SharesPath(a, b) && '/' !in fill && |x| < |fill|
    requires MatchesPattern(GenericCommon(a, b, fill), x) && Common(path, a, b)
    ensures MatchesPattern(path, x)
    decreases |a|
  {
    if a == "*" {
      GenericUnderDecides(b, "", fill, x, path);
    } else if b == "*" {
      GenericUnderDecides(a, "", fill, x, path);
    } else if PeerWild(a) && PeerWild(b) {
      GenericTwoHops(a, b, fill, x, path);
    } else if PeerWild(a) {
      if Subtree(b) { GenericUnderDecides(a, b[..|b| - 1], fill, x, path); }
    } else if Subtree(a) {
      GenericUnderDecides(b, a[..|a| - 1], fill, x, path);
    }
  }

  lemma {:induction false} GenericTwoHops(a: string, b: string, fill: string, x: string, path: string)
    requires SharesPath(a, b) && '/' !in fill && |x| < |fill| && PeerWild(a) && PeerWild(b)
    requires MatchesPattern(GenericCommon(a, b, fill), x) && Common(path, a, b)
    ensures MatchesPattern(path, x)
    decreases |a|, 0
  {
    var rest := GenericCommon(a[3..], b[3..], fill);
    var upper := AfterHop(path).value;
    assert Common(upper, a[3..], b[3..]);
    if PeerWild(x) {
      AfterHopAppend(fill, rest);
      assert MatchesPattern(rest, x[3..]);
      GenericCommonDecides(a[3..], b[3..], fill, x[3..], upper);
    } else {
      FilledHopDecides(fill, rest, x, path);
    }
  }

  /** A short pattern without a leading peer wildcard sees only the slash before the fill. */
  lemma {:induction false} FilledHopDecides(fill: string, rest: string, x: string, path: string)
    requires '/' !in fill && |x| < |fill| && !PeerWild(x)
    requires MatchesPattern("/" + fill + "/" + rest, x) && AfterHop(path).Some?
    ensures MatchesPattern(path, x)
  {
    if x != "*" && Subtree(x) {
      var r := x[..|x| - 1];
      assert r[|r| - 1] == x[|x| - 2] == '/';
      assert "/" + fill + "/" + rest == "/" + fill + ("/" + rest);
      ShortPrefix(r, "/", fill, "/" + rest);
      assert r == "/" && path[0] == '/';
    }
  }

  // ----- containment, exactly -------------------------------------------

  /** A fill no caller exclude can have spelled out. */
  ghost predicate Unspelled(fill: string, excludes: seq<string>, local: string) {
    '/' !in fill && forall x :: x in excludes ==> |Canonicalize(x, local)| < |fill|
  }

  /** There always is such a fill, and it can look like a peer id. */
  lemma {:induction false} UnspelledExists(excludes: seq<string>, local: string) returns (fill: string)
    ensures Unspelled(fill, excludes, local) && IsPeerId(fill)
  {
    if excludes == [] {
      fill := seq(46, _ => 'x');
    } else {
      var shorter := UnspelledExists(excludes[1..], local);
      fill := shorter + seq(|Canonicalize(excludes[0], local)| + 1, _ => 'x');
      forall x | x in excludes ensures |Canonicalize(x, local)| < |fill| {
        assert x == excludes[0] || x in excludes[1..];
      }
    }
  }

  /** The caller excludes the generic path of every blind pair. */
  ghost predicate BlindPairsAnswered(resource: ResourceTarget, scope: Scope, local: string, granter: string,
                                     fill: string) {
    forall t, e :: t in Effective(resource.targets, resource.exclude, local) && e in scope.excludes
                   && Blind(Canonicalize(t, local), Canonicalize(e, granter)) ==>
      Reached(GenericCommon(Canonicalize(t, local), Canonicalize(e, granter), fill), resource.exclude, local)
  }

  lemma AnsweredPairContained(path: string, a: string, b: string, fill: string, excludes: seq<string>, local: string)
    requires SharesPath(a, b) && Unspelled(fill, excludes, local)
    requires Reached(GenericCommon(a, b, fill), excludes, local) && Common(path, a, b)
    ensures Reached(path, excludes, local)
  {
    var x :| x in excludes && MatchesPattern(GenericCommon(a, b, fill), Canonicalize(x, local));
    GenericCommonDecides(a, b, fill, Canonicalize(x, local), path);
  }

  /** Semantic containment over all strings: an accepted request names only granted, unexcluded
      ones if and only if the caller itself excludes one string per blind pair, the generic
      one. */
  lemma ContainmentExactly(resource: ResourceTarget, scope: Scope, local: string, granter: string, fill: string)
    requires ResourceAdmitted(Some(resource), scope, local, granter) && Unspelled(fill, resource.exclude, local)
    ensures Contained(resource, scope, local, granter) <==> BlindPairsAnswered(resource, scope, local, granter, fill)
  {
    if BlindPairsAnswered(resource, scope, local, granter, fill) {
      AnsweredRequestContained(resource, scope, local, granter, fill);
    } else {
      var t, e :| && t in Effective(resource.targets, resource.exclude, local) && e in scope.excludes
                  && Blind(Canonicalize(t, local), Canonicalize(e, granter))
                  && !Reached(GenericCommon(Canonicalize(t, local), Canonicalize(e, granter), fill), resource.exclude,
                              local);
      UnansweredEscapes(t, e, resource, scope, local, granter, fill);
    }
  }

  lemma UnansweredEscapes(t: string, e: string, resource: ResourceTarget, scope: Scope, local: string, granter: string,
                          fill: string)
    requires t in Effective(resource.targets, resource.exclude, local) && e in scope.excludes && '/' !in fill
    requires SharesPath(Canonicalize(t, local), Canonicalize(e, granter))
    requires var path := GenericCommon(Canonicalize(t, local), Canonicalize(e, granter), fill);
             !Reached(path, resource.exclude, local)
    ensures var path := GenericCommon(Canonicalize(t, local), Canonicalize(e, granter), fill);
            Named(path, resource, local) && !Held(path, scope, granter)
  {
    hide MatchesPattern, Canonicalize, Effective, SharesPath, GenericCommon;
    GenericCommonMatches(Canonicalize(t, local), Canonicalize(e, granter), fill);
  }

  lemma AnsweredRequestContained(resource: ResourceTarget, scope: Scope, local: string, granter: string, fill: string)
    requires ResourceAdmitted(Some(resource), scope, local, granter) && Unspelled(fill, resource.exclude, local)
    requires BlindPairsAnswered(resource, scope, local, granter, fill)
    ensures Contained(resource, scope, local, granter)
  {
    forall path | Named(path, resource, local)
      ensures Held(path, scope, granter)
    {
      var t :| t in Effective(resource.targets, resource.exclude, local)
               && MatchesPattern(path, Canonicalize(t, local));
      assert TargetAdmitted(t, resource.exclude, scope, local, granter);
      assert Reached(Canonicalize(t, local), scope.includes, granter);
      ReachedThroughCover(path, Canonicalize(t, local), scope.includes, granter);
      forall e | e in scope.excludes
        ensures !MatchesPattern(path, Canonicalize(e, granter))
      {
        var ct, ce := Canonicalize(t, local), Canonicalize(e, granter);
        if Blind(ct, ce) && MatchesPattern(path, ce) {
          AnsweredPairContained(path, ct, ce, fill, resource.exclude, local);
        } else if !Blind(ct, ce) {
          ExcludeNotReached(path, t, e, resource, scope, local, granter);
        }
      }
    }
  }
}
