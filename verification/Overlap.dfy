/** Pattern-against-pattern overlap: the source's prefix test, an exact decision of
    "some path matches both", and precisely where the two part ways. */
module Overlap {
  import opened Patterns

  function Stem(pattern: string): string {
    if Subtree(pattern) then pattern[..|pattern| - 2] else pattern
  }

  predicate Comparable(x: string, y: string) { x <= y || y <= x }

  /** Could the two patterns match a common path? */
  predicate PatternsOverlap(a: string, b: string) {
    if a == "*" || b == "*" then true
    else if !IsPattern(a) && !IsPattern(b) then a == b
    else if !IsPattern(a) then MatchesPattern(a, b)
    else if !IsPattern(b) then MatchesPattern(b, a)
    else Comparable(Stem(a), Stem(b))
  }

  lemma OverlapSymmetric(a: string, b: string)
    ensures PatternsOverlap(a, b) == PatternsOverlap(b, a)
  {
  }

  /** `x` is what is left of the pattern without a trailing "/" then "*". */
  ghost predicate LeavesStem(pattern: string, x: string) {
    pattern == x + "/*" || (pattern == x && forall y :: pattern != y + "/*")
  }

  /** The test in full: the universal pattern overlaps everything, a star-free side is matched
      against the other, and two patterns overlap when one stem is a prefix of the other. */
  lemma OverlapMeaning(a: string, b: string, x: string, y: string)
    requires LeavesStem(a, x) && LeavesStem(b, y)
    ensures PatternsOverlap(a, b) <==>
              || a == "*" || b == "*"
              || ('*' !in a && '*' !in b && a == b)
              || ('*' !in a && '*' in b && MatchesPattern(a, b))
              || ('*' in a && '*' !in b && MatchesPattern(b, a))
              || ('*' in a && '*' in b && (x <= y || y <= x))
  {
    hide MatchesPattern;
    StemIsLeft(a, x);
    StemIsLeft(b, y);
  }

  lemma StemIsLeft(pattern: string, x: string)
    requires LeavesStem(pattern, x)
    ensures Stem(pattern) == x
  {
    if pattern == x + "/*" {
      SubtreeParts(x);
    } else {
      var y := if |pattern| >= 2 then pattern[..|pattern| - 2] else "";
      assert pattern != y + "/*";
    }
  }

  // ----- an exact decision procedure ------------------------------------

  /** Some path matches `a` and begins with `prefix`. */
  predicate SharesPrefix(a: string, prefix: string)
    decreases |a|
  {
    if a == "*" || prefix == "" then true
    else if PeerWild(a) then
      prefix[0] == '/' && (AfterHop(prefix).None? || SharesPrefix(a[3..], AfterHop(prefix).value))
    else if Subtree(a) then Comparable(a[..|a| - 1], prefix)
    else prefix <= a
  }

  /** Some path matches both patterns. */
  predicate SharesPath(a: string, b: string)
    decreases |a|
  {
    if a == "*" || b == "*" then true
    else if PeerWild(a) && PeerWild(b) then SharesPath(a[3..], b[3..])
    else if PeerWild(a) then (if Subtree(b) then SharesPrefix(a, b[..|b| - 1]) else MatchesPattern(b, a))
    else if Subtree(a) then SharesPrefix(b, a[..|a| - 1])
    else MatchesPattern(a, b)
  }

  predicate Common(path: string, a: string, b: string) {
    MatchesPattern(path, a) && MatchesPattern(path, b)
  }

  lemma HoplessPrefix(prefix: string)
    requires prefix != "" && prefix[0] == '/' && AfterHop(prefix).None?
    ensures '/' !in prefix[1..]
  {
  }

  lemma {:induction false} PrefixWitness(a: string, prefix: string) returns (path: string)
    requires SharesPrefix(a, prefix)
    ensures MatchesPattern(path, a) && prefix <= path
    decreases |a|
  {
    if a == "*" || prefix == "" {
      path := if a == "*" then prefix else a;
      MatchesReflexive(a);
    } else if PeerWild(a) {
      if AfterHop(prefix).None? {
        HoplessPrefix(prefix);
        path := "/" + prefix[1..] + "/" + a[3..];
        AfterHopAppend(prefix[1..], a[3..]);
        MatchesReflexive(a[3..]);
      } else {
        var segment := AfterHopSplit(prefix);
        var rest := PrefixWitness(a[3..], AfterHop(prefix).value);
        path := "/" + segment + "/" + rest;
        AfterHopAppend(segment, rest);
      }
    } else if Subtree(a) {
      path := if a[..|a| - 1] <= prefix then prefix else a[..|a| - 1];
    } else {
      path := a;
    }
  }

  lemma HopExtends(prefix: string, path: string)
    requires prefix <= path && AfterHop(prefix).Some?
    ensures AfterHop(path) == Some(AfterHop(prefix).value + path[|prefix|..])
  {
    var segment := AfterHopSplit(prefix);
    var rest := AfterHop(prefix).value + path[|prefix|..];
    hide AfterHop;
    assert path == "/" + segment + "/" + rest;
    AfterHopAppend(segment, rest);
  }

  lemma {:induction false} PrefixComplete(a: string, prefix: string, path: string)
    requires MatchesPattern(path, a) && prefix <= path
    ensures SharesPrefix(a, prefix)
    decreases |a|
  {
    if a != "*" && prefix != "" && PeerWild(a) && AfterHop(prefix).Some? {
      HopExtends(prefix, path);
      hide AfterHop;
      PrefixComplete(a[3..], AfterHop(prefix).value, AfterHop(path).value);
    }
  }

  lemma {:induction false} SharedWitness(a: string, b: string) returns (path: string)
    requires SharesPath(a, b)
    ensures MatchesPattern(path, a) && MatchesPattern(path, b)
    decreases |a|
  {
    MatchesReflexive(a);
    MatchesReflexive(b);
    if a == "*" {
      path := b;
    } else if b == "*" {
      path := a;
    } else if PeerWild(a) && PeerWild(b) {
      var rest := SharedWitness(a[3..], b[3..]);
      path := "/" + "" + "/" + rest;
      AfterHopAppend("", rest);
    } else if PeerWild(a) {
      if Subtree(b) {
        path := PrefixWitness(a, b[..|b| - 1]);
      } else {
        path := b;
      }
    } else if Subtree(a) {
      path := PrefixWitness(b, a[..|a| - 1]);
    } else {
      path := a;
    }
  }

  lemma {:induction false} SharedComplete(a: string, b: string, path: string)
    requires MatchesPattern(path, a) && MatchesPattern(path, b)
    ensures SharesPath(a, b)
    decreases |a|
  {
    if a == "*" || b == "*" {
    } else if PeerWild(a) && PeerWild(b) {
      SharedComplete(a[3..], b[3..], AfterHop(path).value);
    } else if PeerWild(a) {
      if Subtree(b) { PrefixComplete(a, b[..|b| - 1], path); }
    } else if Subtree(a) {
      PrefixComplete(b, a[..|a| - 1], path);
    }
  }

  /** SharesPath decides the existence of a common path. */
  lemma SharesPathExactly(a: string, b: string)
    ensures SharesPath(a, b) <==> exists path :: Common(path, a, b)
  {
    if SharesPath(a, b) {
      var path := SharedWitness(a, b);
      assert Common(path, a, b);
    } else if path :| Common(path, a, b) {
      SharedComplete(a, b, path);
      assert false;
    }
  }

  // ----- where the prefix test looks away -------------------------------

  /** Both sides are patterns, one of them begins with a peer wildcard, they share a
      path, and yet their stems are not prefixes of one another. */
  predicate Blind(a: string, b: string) {
    && IsPattern(a) && IsPattern(b)
    && a != "*" && b != "*"
    && (PeerWild(a) || PeerWild(b))
    && SharesPath(a, b)
    && !Comparable(Stem(a), Stem(b))
  }

  lemma PrefixesOfOnePath(x: string, y: string, path: string)
    requires x <= path && y <= path
    ensures Comparable(x, y)
  {
  }

  lemma {:induction false} StemIsPrefix(pattern: string, path: string)
    requires pattern != "*" && !PeerWild(pattern) && MatchesPattern(path, pattern)
    ensures Stem(pattern) <= path
  {
  }

  /** With a star-free side, or with no leading peer wildcard on either side, a common
      path is never missed. */
  lemma OverlapNeverMisses(a: string, b: string, path: string)
    requires MatchesPattern(path, a) && MatchesPattern(path, b)
    requires !IsPattern(a) || !IsPattern(b) || (!PeerWild(a) && !PeerWild(b))
    ensures PatternsOverlap(a, b)
  {
    if !IsPattern(a) { StarFreeMatchesOnlyItself(path, a); }
    if !IsPattern(b) { StarFreeMatchesOnlyItself(path, b); }
    if IsPattern(a) && IsPattern(b) && a != "*" && b != "*" {
      StemIsPrefix(a, path);
      StemIsPrefix(b, path);
      PrefixesOfOnePath(Stem(a), Stem(b), path);
    }
  }

  /** The prefix test misses a common path exactly on the blind pairs. */
  lemma OverlapMissesExactly(a: string, b: string)
    ensures ((exists path :: Common(path, a, b)) && !PatternsOverlap(a, b))
       <==> Blind(a, b)
  {
    SharesPathExactly(a, b);
    if path :| Common(path, a, b) {
      if !IsPattern(a) || !IsPattern(b) || (!PeerWild(a) && !PeerWild(b)) {
        OverlapNeverMisses(a, b, path);
      }
    }
  }

  /** Both sides are patterns whose stems are prefixes of one another, and yet no path matches
      both. */
  predicate Spurious(a: string, b: string) {
    && IsPattern(a) && IsPattern(b)
    && a != "*" && b != "*"
    && Comparable(Stem(a), Stem(b))
    && !SharesPath(a, b)
  }

  /** The prefix test, exactly: it reports the pairs that share a path, save the blind ones, and
      the spurious ones besides. */
  lemma OverlapExactly(a: string, b: string)
    ensures PatternsOverlap(a, b) <==> (SharesPath(a, b) && !Blind(a, b)) || Spurious(a, b)
  {
    OverlapMissesExactly(a, b);
    SharesPathExactly(a, b);
    hide SharesPath, MatchesPattern;
    if PatternsOverlap(a, b) && !(IsPattern(a) && IsPattern(b) && a != "*" && b != "*") {
      ConcreteOverlapShares(a, b);
    }
  }

  lemma ConcreteOverlapShares(a: string, b: string)
    requires PatternsOverlap(a, b) && !(IsPattern(a) && IsPattern(b) && a != "*" && b != "*")
    ensures SharesPath(a, b)
  {
    MatchesReflexive(a);
    MatchesReflexive(b);
    hide SharesPath;
    if b == "*" || !IsPattern(a) {
      SharedComplete(a, b, a);
    } else {
      SharedComplete(a, b, b);
    }
  }

  lemma SubtreeParts(x: string)
    ensures var a := x + "/*";
            Subtree(a) && IsPattern(a) && a != "*" && Stem(a) == x && a[..|a| - 1] == x + "/"
  {
    var a := x + "/*";
    assert a[|a| - 1] == '*' && a[|a| - 2..] == "/*" && |a| >= 2;
  }

  lemma SubtreesShare(x: string, y: string)
    requires !PeerWild(x + "/*") && !PeerWild(y + "/*")
    ensures SharesPath(x + "/*", y + "/*") <==> Comparable(x + "/", y + "/")
  {
    SubtreeParts(x);
    SubtreeParts(y);
    hide Stem, Subtree, PeerWild;
    assert x + "/" != "";
  }

  /** Two subtrees without leading peer wildcards overlap spuriously exactly when one stem
      continues the other inside a segment. */
  lemma SpuriousSubtreesExactly(x: string, y: string)
    requires !PeerWild(x + "/*") && !PeerWild(y + "/*")
    ensures Spurious(x + "/*", y + "/*") <==>
              (x < y && y[|x|] != '/') || (y < x && x[|y|] != '/')
  {
    SubtreeParts(x);
    SubtreeParts(y);
    SubtreesShare(x, y);
    hide Stem, Subtree, PeerWild, SharesPath, IsPattern;
    SlashedComparable(x, y);
    SlashedComparable(y, x);
  }

  lemma SlashedComparable(x: string, y: string)
    ensures x + "/" <= y + "/" <==> x == y || (x < y && y[|x|] == '/')
  {
    var s, t := x + "/", y + "/";
    if |x| <= |y| {
      assert t[..|x|] == y[..|x|];
      assert s <= t ==> s[..|x|] == t[..|x|] && s[|x|] == t[|x|];
      if x < y && y[|x|] == '/' { assert t[..|x| + 1] == y[..|x|] + [y[|x|]] == s; }
    }
  }

  lemma NamedUnderPeer(peer: string, name: string)
    requires '/' !in peer && !IsPattern(name)
    ensures Common("/" + peer + "/" + name, "/" + peer + "/*", "/*/" + name)
  {
    var a, b, path := "/" + peer + "/*", "/*/" + name, "/" + peer + "/" + name;
    assert a[|a| - 2..] == "/*" && a[..|a| - 1] == "/" + peer + "/";
    UnderPrefixMatches(path, a);
    AfterHopAppend(peer, name);
    assert b[3..] == name;
    MatchesReflexive(name);
  }

  /** Blind pairs exist: one peer's whole namespace, and a name under every peer. */
  lemma BlindPairExists(peer: string, name: string)
    requires peer != "" && '/' !in peer && '*' !in peer && !IsPattern(name)
    ensures Blind("/" + peer + "/*", "/*/" + name)
  {
    hide MatchesPattern, SharesPath;
    var a, b := "/" + peer + "/*", "/*/" + name;
    NamedUnderPeer(peer, name);
    SharedComplete(a, b, "/" + peer + "/" + name);
    assert b[1] == '*' && a[|a| - 1] == '*';
    assert a[|a| - 2..] == "/*" && Stem(a) == "/" + peer;
    StemOfNamed(name);
    assert Stem(b)[1] == '*' && Stem(a)[1] == peer[0];
  }

  lemma StemOfNamed(name: string)
    requires !IsPattern(name)
    ensures Stem("/*/" + name) == "/*/" + name
  {
    var b := "/*/" + name;
    if name == "" {
      assert b[|b| - 1] == '/';
    } else {
      assert b[|b| - 1] == name[|name| - 1];
    }
  }

  // ----- overlap along coverage -----------------------------------------

  /** Enlarging one side keeps the overlap, as long as no leading peer wildcard is
      involved: what makes inherited excludes bite on pattern targets. */
  lemma {:induction false} OverlapWidens(target: string, inner: string, outer: string)
    requires IsPattern(target) && !PeerWild(target) && !PeerWild(outer)
    requires MatchesPattern(inner, outer) && PatternsOverlap(target, inner)
    ensures PatternsOverlap(target, outer)
  {
    if target == "*" || outer == "*" || inner == outer {
    } else {
      assert Subtree(outer);
      WildcardsCarryStars(outer);
      var stem := Stem(outer);
      assert outer[..|outer| - 1] == stem + "/";
      assert stem <= inner;
      if !IsPattern(inner) {
        StemIsPrefix(target, inner);
        PrefixesOfOnePath(Stem(target), stem, inner);
      } else {
        StemUnderSubtree(inner, outer);
        if Stem(target) <= Stem(inner) {
          PrefixesOfOnePath(Stem(target), stem, Stem(inner));
        }
      }
    }
  }

  lemma StemUnderSubtree(inner: string, outer: string)
    requires Subtree(outer) && outer[..|outer| - 1] <= inner
    ensures inner != "*" && Stem(outer) <= Stem(inner)
  {
    var prefix := outer[..|outer| - 1];
    assert prefix[|prefix| - 1] == outer[|outer| - 2] == '/';
    assert prefix[|prefix| - 1] == inner[|prefix| - 1];
    if Subtree(inner) {
      assert inner[|inner| - 1] == '*';
      assert |prefix| <= |inner| - 1;
    }
  }
}
