/** The two pattern grammars of the capability system: path patterns (peer
    wildcards and subtree wildcards over absolute paths) and id patterns
    (literal identifiers), together with namespace canonicalization. */
module Patterns {

  datatype Option<+T> = None | Some(value: T)

  // ----- text helpers ---------------------------------------------------

  predicate HasSuffix(s: string, suffix: string) {
    |suffix| <= |s| && s[|s| - |suffix|..] == suffix
  }

  /** Index of the first '/', or -1. */
  function FirstSlash(s: string): (i: int)
    ensures -1 <= i < |s|
    ensures i >= 0 ==> s[i] == '/' && '/' !in s[..i]
    ensures i < 0 ==> '/' !in s
  {
    if s == [] then -1
    else if s[0] == '/' then 0
    else
      var i := FirstSlash(s[1..]);
      if i < 0 then -1 else i + 1
  }

  /** The part of "/segment/rest" after its first segment. */
  function AfterHop(path: string): (r: Option<string>)
    ensures r.Some? ==> |r.value| + 2 <= |path|
  {
    if |path| < 2 || path[0] != '/' then None
    else
      var rest := path[1..];
      var i := FirstSlash(rest);
      if i < 0 then None else Some(rest[i + 1..])
  }

  // ----- path patterns --------------------------------------------------

  predicate IsPattern(s: string) { '*' in s }

  predicate PeerWild(pattern: string) { "/*/" <= pattern }

  predicate Subtree(pattern: string) { HasSuffix(pattern, "/*") }

  /** Does `path` match `pattern`?  The universal pattern matches everything; a
      leading peer wildcard strips one segment on each side; a trailing "/" then "*"
      is a subtree; anything else is literal. */
  predicate MatchesPattern(path: string, pattern: string)
    decreases |pattern|
  {
    if pattern == "*" then true
    else if PeerWild(pattern) then
      var rest := AfterHop(path);
      rest.Some? && MatchesPattern(rest.value, pattern[3..])
    else if Subtree(pattern) then pattern[..|pattern| - 1] <= path
    else path == pattern
  }

  // ----- what a pattern means, without recursion ------------------------

  /** `n` peer wildcards in a row. */
  function Wilds(n: nat): string {
    if n == 0 then "" else "/*/" + Wilds(n - 1)
  }

  /** One "/segment/" per entry. */
  function Hops(segments: seq<string>): string {
    if segments == [] then "" else "/" + segments[0] + "/" + Hops(segments[1..])
  }

  /** What a wildcard-free tail stands for: anything, itself, or whatever lies below a stem. */
  ghost predicate TailMatches(rest: string, tail: string) {
    tail == "*" || rest == tail || exists stem :: tail == stem + "/*" && stem + "/" <= rest
  }

  /** A reading of `path` under `pattern`: the pattern's wildcards stand for
      `segments`, and what remains of the path fits the wildcard-free tail. */
  ghost predicate Reading(path: string, pattern: string, segments: seq<string>, rest: string, tail: string) {
    && pattern == Wilds(|segments|) + tail
    && !("/*/" <= tail)
    && path == Hops(segments) + rest
    && (forall i :: 0 <= i < |segments| ==> '/' !in segments[i])
    && TailMatches(rest, tail)
  }

  lemma {:induction false} FirstSlashAfter(segment: string, rest: string)
    requires '/' !in segment
    ensures FirstSlash(segment + "/" + rest) == |segment|
  {
    var s := segment + "/" + rest;
    if segment != [] {
      assert s[1..] == segment[1..] + "/" + rest;
      FirstSlashAfter(segment[1..], rest);
    }
  }

  lemma AfterHopAppend(segment: string, rest: string)
    requires '/' !in segment
    ensures AfterHop("/" + segment + "/" + rest) == Some(rest)
  {
    var path := "/" + segment + "/" + rest;
    var body := path[1..];
    assert body == segment + "/" + rest;
    FirstSlashAfter(segment, rest);
    assert body[|segment| + 1..] == rest;
  }

  lemma AfterHopSplit(path: string) returns (segment: string)
    requires AfterHop(path).Some?
    ensures '/' !in segment && path == "/" + segment + "/" + AfterHop(path).value
  {
    var body := path[1..];
    segment := body[..FirstSlash(body)];
    assert path == "/" + body;
  }

  lemma ReadingExtends(path: string, pattern: string, segments: seq<string>, rest: string, tail: string, head: string)
    requires Reading(path, pattern, segments, rest, tail) && '/' !in head
    ensures Reading("/" + head + "/" + path, "/*/" + pattern, [head] + segments, rest, tail)
  {
  }

  lemma StemsExactly(pattern: string, value: string)
    ensures HasSuffix(pattern, "/*") && pattern[..|pattern| - 1] <= value
       <==> exists stem :: pattern == stem + "/*" && stem + "/" <= value
  {
    if HasSuffix(pattern, "/*") {
      var stem := pattern[..|pattern| - 2];
      assert pattern == stem + "/*" && pattern[..|pattern| - 1] == stem + "/";
    }
    forall stem | pattern == stem + "/*" && stem + "/" <= value
      ensures HasSuffix(pattern, "/*") && pattern[..|pattern| - 1] <= value
    {
      assert pattern[|pattern| - 2..] == "/*" && pattern[..|pattern| - 1] == stem + "/";
    }
  }

  /** Matching is the existence of a reading. */
  lemma {:induction false} MatchHasReading(path: string, pattern: string)
    returns (segments: seq<string>, rest: string, tail: string)
    requires MatchesPattern(path, pattern)
    ensures Reading(path, pattern, segments, rest, tail)
    decreases |pattern|
  {
    if pattern != "*" && PeerWild(pattern) {
      var head := AfterHopSplit(path);
      segments, rest, tail := MatchHasReading(AfterHop(path).value, pattern[3..]);
      assert pattern == "/*/" + pattern[3..];
      ReadingExtends(AfterHop(path).value, pattern[3..], segments, rest, tail, head);
      segments := [head] + segments;
    } else {
      segments, rest, tail := [], path, pattern;
      assert Wilds(0) + tail == tail && Hops([]) + rest == rest;
      StemsExactly(pattern, path);
    }
  }

  lemma {:induction false} ReadingMatches(path: string, pattern: string, segments: seq<string>, rest: string,
                                          tail: string)
    requires Reading(path, pattern, segments, rest, tail)
    ensures MatchesPattern(path, pattern)
    decreases |segments|
  {
    if segments == [] {
      assert pattern == tail && path == rest;
      StemsExactly(pattern, path);
      UnderPrefixOrSelf(path, pattern);
    } else {
      var shorter := segments[1..];
      assert pattern == "/*/" + (Wilds(|shorter|) + tail);
      assert pattern[3..] == Wilds(|shorter|) + tail;
      assert path == "/" + segments[0] + "/" + (Hops(shorter) + rest);
      AfterHopAppend(segments[0], Hops(shorter) + rest);
      ReadingMatches(Hops(shorter) + rest, pattern[3..], shorter, rest, tail);
    }
  }

  lemma UnderPrefixOrSelf(path: string, tail: string)
    requires !PeerWild(tail)
    ensures tail == "*" || path == tail || (Subtree(tail) && tail[..|tail| - 1] <= path) <==> MatchesPattern(path, tail)
  {
    if Subtree(tail) { assert tail[..|tail| - 1] <= tail; }
  }

  /** MatchesPattern decides the declarative reading relation. */
  lemma MatchesPatternMeaning(path: string, pattern: string)
    ensures MatchesPattern(path, pattern)
       <==> exists segments, rest, tail :: Reading(path, pattern, segments, rest, tail)
  {
    if MatchesPattern(path, pattern) {
      var segments, rest, tail := MatchHasReading(path, pattern);
    }
    forall segments, rest, tail | Reading(path, pattern, segments, rest, tail)
      ensures MatchesPattern(path, pattern)
    {
      ReadingMatches(path, pattern, segments, rest, tail);
    }
  }

  // ----- coverage is language inclusion ---------------------------------

  lemma {:induction false} MatchesReflexive(p: string)
    ensures MatchesPattern(p, p)
    decreases |p|
  {
    if p != "*" && PeerWild(p) {
      AfterHopAppend("*", p[3..]);
      assert p == "/" + "*" + "/" + p[3..];
      MatchesReflexive(p[3..]);
    }
  }

  /** A path under a subtree pattern's prefix matches the pattern, even when the
      pattern also begins with a peer wildcard. */
  lemma {:induction false} UnderPrefixMatches(path: string, pattern: string)
    requires Subtree(pattern) && pattern[..|pattern| - 1] <= path
    ensures MatchesPattern(path, pattern)
    decreases |pattern|
  {
    if PeerWild(pattern) {
      assert pattern[2] == '/' && pattern[|pattern| - 1] == '*';
      var rem := pattern[3..];
      assert pattern[..|pattern| - 1][..3] == path[..3] == "/*/";
      assert path == "/" + "*" + "/" + path[3..];
      AfterHopAppend("*", path[3..]);
      if rem != "*" {
        assert rem[|rem| - 2..] == pattern[|pattern| - 2..];
        assert rem[..|rem| - 1] == pattern[..|pattern| - 1][3..];
        UnderPrefixMatches(path[3..], rem);
      }
    }
  }

  /** A subtree pattern whose wildcard sits below a first segment: dropping the
      first segment of both sides keeps the match. */
  lemma HopUnderSubtree(a: string, b: string)
    requires Subtree(b) && !PeerWild(b) && b[..|b| - 1] <= a && AfterHop(b).Some?
    ensures AfterHop(a).Some? && MatchesPattern(AfterHop(a).value, AfterHop(b).value)
  {
    var x := AfterHopSplit(b);
    var brest := AfterHop(b).value;
    var lead := "/" + x + "/";
    assert b == lead + brest;
    assert |brest| >= 1;
    assert b[..|b| - 1] == lead + brest[..|brest| - 1];
    var arest := a[|lead|..];
    assert a == lead + arest;
    AfterHopAppend(x, arest);
    if |brest| == 1 {
      assert brest[0] == b[|b| - 1];
      assert brest == "*";
    } else {
      assert brest[|brest| - 2..] == b[|b| - 2..];
      assert brest[..|brest| - 1] <= arest;
      UnderPrefixMatches(arest, brest);
    }
  }

  lemma SlashPrefixOfWild(prefix: string, pattern: string)
    requires PeerWild(pattern) && prefix <= pattern && HasSuffix(prefix, "/")
    ensures prefix == "/" || PeerWild(prefix)
  {
    assert prefix[|prefix| - 1] == '/';
    if |prefix| >= 3 {
      assert prefix[..3] == pattern[..3];
    } else {
      assert pattern[1] == '*';
      assert |prefix| == 1;
    }
  }

  lemma {:induction false} TransitiveUnderSubtree(a: string, b: string, c: string)
    requires MatchesPattern(a, b) && Subtree(c) && c[..|c| - 1] <= b && !PeerWild(c)
    ensures c[..|c| - 1] <= a
  {
    var prefix := c[..|c| - 1];
    assert prefix[|prefix| - 1] == c[|c| - 2] == '/';
    assert b[|prefix| - 1] == '/';
    if PeerWild(b) {
      SlashPrefixOfWild(prefix, b);
      assert prefix == "/";
      assert a[0] == '/';
    } else if Subtree(b) {
      assert b[|b| - 1] == '*';
      assert prefix <= b[..|b| - 1];
    }
  }

  lemma HopOfCovered(a: string, b: string)
    requires MatchesPattern(a, b) && AfterHop(b).Some?
    ensures AfterHop(a).Some? && MatchesPattern(AfterHop(a).value, AfterHop(b).value)
  {
    assert b[0] == '/';
    if PeerWild(b) {
      assert b == "/" + "*" + "/" + b[3..];
      AfterHopAppend("*", b[3..]);
    } else if Subtree(b) {
      HopUnderSubtree(a, b);
    } else {
      MatchesReflexive(AfterHop(b).value);
    }
  }

  lemma {:induction false} MatchesTransitive(a: string, b: string, c: string)
    requires MatchesPattern(a, b) && MatchesPattern(b, c)
    ensures MatchesPattern(a, c)
    decreases |c|
  {
    if c == "*" {
    } else if PeerWild(c) {
      HopOfCovered(a, b);
      MatchesTransitive(AfterHop(a).value, AfterHop(b).value, c[3..]);
    } else if Subtree(c) {
      TransitiveUnderSubtree(a, b, c);
    }
  }

  /** Every path the inner pattern matches, the outer one matches. */
  ghost predicate Includes(inner: string, outer: string) {
    forall path :: MatchesPattern(path, inner) ==> MatchesPattern(path, outer)
  }

  /** Pattern coverage is exactly language inclusion over all strings. */
  lemma CoverageIsInclusion(inner: string, outer: string)
    ensures MatchesPattern(inner, outer) <==> Includes(inner, outer)
  {
    MatchesReflexive(inner);
    if MatchesPattern(inner, outer) {
      forall path | MatchesPattern(path, inner)
        ensures MatchesPattern(path, outer)
      {
        MatchesTransitive(path, inner, outer);
      }
    }
  }

  lemma WildcardsCarryStars(s: string)
    ensures PeerWild(s) || Subtree(s) ==> IsPattern(s)
  {
    if PeerWild(s) { assert s[1] == '*'; }
    if Subtree(s) { assert s[|s| - 1] == '*'; }
  }

  lemma {:induction false} StarFreeMatchesOnlyItself(path: string, literal: string)
    requires !IsPattern(literal) && MatchesPattern(path, literal)
    ensures path == literal
  {
    WildcardsCarryStars(literal);
  }

  // ----- id patterns ----------------------------------------------------

  /** Literal identifiers, bare "*", and a trailing "/" then "*". */
  predicate IdMatches(pattern: string, value: string) {
    if pattern == "*" then true
    else if HasSuffix(pattern, "/*") then pattern[..|pattern| - 1] <= value
    else value == pattern
  }

  /** The id grammar, in full: "*", the identifier itself, or what lies below a stem. */
  lemma IdMatchesMeaning(pattern: string, value: string)
    ensures IdMatches(pattern, value) <==> TailMatches(value, pattern)
  {
    StemsExactly(pattern, value);
    if HasSuffix(pattern, "/*") { assert pattern[..|pattern| - 1] <= pattern; }
  }

  lemma IdTransitive(outer: string, middle: string, inner: string)
    requires IdMatches(outer, middle) && IdMatches(middle, inner)
    ensures IdMatches(outer, inner)
  {
    if outer != "*" && HasSuffix(outer, "/*") {
      var prefix := outer[..|outer| - 1];
      assert prefix[|prefix| - 1] == outer[|outer| - 2] == '/';
      if HasSuffix(middle, "/*") {
        assert middle[|middle| - 1] == '*';
        assert prefix <= middle[..|middle| - 1];
      }
    }
  }

  lemma IdCoverageIsInclusion(inner: string, outer: string)
    ensures IdMatches(outer, inner)
       <==> (forall value :: IdMatches(inner, value) ==> IdMatches(outer, value))
  {
    assert IdMatches(inner, inner);
    if IdMatches(outer, inner) {
      forall value | IdMatches(inner, value)
        ensures IdMatches(outer, value)
      {
        IdTransitive(outer, inner, value);
      }
    }
  }

  /** Id coverage never exceeds path coverage on the same strings. */
  lemma {:induction false} IdMatchesRefinesPathMatches(pattern: string, value: string)
    requires IdMatches(pattern, value)
    ensures MatchesPattern(value, pattern)
  {
    if pattern != "*" {
      if HasSuffix(pattern, "/*") {
        UnderPrefixMatches(value, pattern);
      } else {
        MatchesReflexive(pattern);
      }
    }
  }

  // ----- canonicalization -----------------------------------------------

  const SCHEME := "entity://"

  predicate IsUnmatchable(pattern: string) {
    "./" <= pattern || "../" <= pattern || "*/" <= pattern
  }

  predicate IsAbsolute(path: string) { "/" <= path }

  /** The never-matching forms begin with a segment ".", ".." or "*". */
  lemma UnmatchableForms(pattern: string)
    ensures IsUnmatchable(pattern) <==>
              exists rest :: pattern == "./" + rest || pattern == "../" + rest || pattern == "*/" + rest
  {
    if "./" <= pattern { assert pattern == "./" + pattern[2..]; }
    if "../" <= pattern { assert pattern == "../" + pattern[3..]; }
    if "*/" <= pattern { assert pattern == "*/" + pattern[2..]; }
  }

  /** entity://peer/path, split at the first slash after the scheme; None when the
      body is empty. */
  function ParseUri(s: string): Option<(string, string)>
    requires SCHEME <= s
  {
    var rest := s[|SCHEME|..];
    if rest == "" then None
    else
      var i := FirstSlash(rest);
      if i < 0 then Some((rest, "")) else Some((rest[..i], rest[i + 1..]))
  }

  /** Resolve a path or resource pattern into a peer's namespace. */
  function Canonicalize(path: string, peer: string): string {
    if IsUnmatchable(path) then path
    else if SCHEME <= path && ParseUri(path).Some? && ParseUri(path).value.0 != "" then
      var (uriPeer, uriPath) := ParseUri(path).value;
      if uriPath == "" then "/" + uriPeer else "/" + uriPeer + "/" + uriPath
    else if IsAbsolute(path) then path
    else if path == "*" then "/" + peer + "/*"
    else "/" + peer + "/" + path
  }

  /** Every canonical form is absolute or one of the never-matching forms; a second
      canonicalization, for whichever peer, changes nothing. */
  lemma CanonicalizeIdempotent(path: string, peer: string, other: string)
    ensures var c := Canonicalize(path, peer);
            && (IsAbsolute(c) || IsUnmatchable(c))
            && (IsUnmatchable(c) <==> IsUnmatchable(path))
            && Canonicalize(c, other) == c
  {
    var c := Canonicalize(path, peer);
    if !IsUnmatchable(path) {
      assert c[0] == '/';
    }
  }

  /** A pattern written relative to a granter cannot reach outside the granter's own
      namespace, and is recovered by dropping the peer segment. */
  lemma RelativeStaysInNamespace(path: string, peer: string)
    requires !IsUnmatchable(path) && !IsAbsolute(path) && !(SCHEME <= path)
    ensures MatchesPattern(Canonicalize(path, peer), "/" + peer + "/*")
    ensures '/' !in peer ==> AfterHop(Canonicalize(path, peer)) == Some(path)
  {
    if '/' !in peer { AfterHopAppend(peer, path); }
    assert "/" + peer + "/" + "*" == "/" + peer + "/*";
    var ns := "/" + peer + "/*";
    assert ns[|ns| - 2..] == "/*";
    assert ns[..|ns| - 1] == "/" + peer + "/";
    UnderPrefixMatches(Canonicalize(path, peer), ns);
  }

  /** The canonical form of everything that is not a URI with a peer in it. */
  lemma CanonicalizeMeaning(path: string, peer: string)
    requires "entity://" <= path ==> path == "entity://" || "entity:///" <= path
    ensures Canonicalize(path, peer) ==
            if IsUnmatchable(path) || "/" <= path then path
            else if path == "*" then "/" + peer + "/*"
            else "/" + peer + "/" + path
  {
    if "entity:///" <= path { assert path[|SCHEME|..][0] == '/'; }
  }

  /** An entity URI and the absolute path it names are the same resource, in every
      namespace. */
  lemma UriIsItsAbsolutePath(uriPeer: string, uriPath: string, peer: string)
    requires uriPeer != "" && '/' !in uriPeer
    ensures Canonicalize("entity://" + uriPeer, peer) == "/" + uriPeer
    ensures Canonicalize("entity://" + uriPeer + "/" + uriPath, peer) ==
            "/" + uriPeer + (if uriPath == "" then "" else "/" + uriPath)
  {
    var bare := SCHEME + uriPeer;
    assert bare[|SCHEME|..] == uriPeer && bare[0] == 'e';
    var s := SCHEME + uriPeer + "/" + uriPath;
    var rest := s[|SCHEME|..];
    assert rest == uriPeer + "/" + uriPath;
    FirstSlashAfter(uriPeer, uriPath);
    assert rest[..|uriPeer|] == uriPeer && rest[|uriPeer| + 1..] == uriPath;
    assert ParseUri(s) == Some((uriPeer, uriPath));
    assert s[0] == 'e';
  }

  lemma {:induction false} UnmatchableMatchesNothing(pattern: string, path: string)
    requires IsUnmatchable(pattern) && IsAbsolute(path)
    ensures !MatchesPattern(path, pattern)
  {
    assert pattern[0] != '/' && path[0] == '/';
    if Subtree(pattern) { assert |pattern| > 2; assert pattern[..|pattern| - 1][0] == pattern[0]; }
  }

  /** Among canonical patterns, the unmatchable ones are exactly those no absolute
      path matches. */
  lemma UnmatchableExactly(raw: string, peer: string)
    ensures var c := Canonicalize(raw, peer);
            IsUnmatchable(c) <==> (forall path :: IsAbsolute(path) ==> !MatchesPattern(path, c))
  {
    var c := Canonicalize(raw, peer);
    CanonicalizeIdempotent(raw, peer, peer);
    if IsUnmatchable(c) {
      forall path | IsAbsolute(path)
        ensures !MatchesPattern(path, c)
      {
        UnmatchableMatchesNothing(c, path);
      }
    } else {
      MatchesReflexive(c);
    }
  }

  /** Only an unmatchable or universal pattern covers an unmatchable one. */
  lemma {:induction false} CoverOfUnmatchable(inner: string, outer: string)
    requires IsUnmatchable(inner) && MatchesPattern(inner, outer)
    ensures outer == "*" || IsUnmatchable(outer)
  {
    if outer != "*" {
      assert inner[0] != '/';
      assert AfterHop(inner).None?;
      if Subtree(outer) {
        var prefix := outer[..|outer| - 1];
        assert prefix[|prefix| - 1] == outer[|outer| - 2] == '/';
        assert forall i :: 0 <= i < |prefix| ==> prefix[i] == inner[i];
        if "*/" <= inner || "./" <= inner {
          assert |prefix| >= 2;
          assert inner[..2] == prefix[..2] == outer[..2];
        } else {
          assert inner[..3] == "../";
          assert |prefix| >= 3;
          assert inner[..3] == prefix[..3] == outer[..3];
        }
      }
    }
  }
}
