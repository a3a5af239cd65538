/** Revocation: an unbounded walk over a possibly cyclic parent graph, then a verdict on
    the root alone. */
module Revocation {
  import opened Patterns
  import opened Tokens
  import opened Authority
  import opened StoragePaths

  // ----- the capability index -------------------------------------------

  /** Where each capability was last bound in the tree. */
  class MemoryCapabilityIndex {
    var paths: map<Hash, string>

    constructor ()
      ensures paths == Replay([])
    {
      paths := map[];
    }

    method Record(capHash: Hash, path: string)
      modifies this
      ensures paths == Apply(old(paths), Recorded(capHash, path))
    {
      if IsZero(capHash) || path == "" { return; }
      paths := paths[capHash := path];
    }

    method Forget(capHash: Hash)
      modifies this
      ensures paths == Apply(old(paths), Forgotten(capHash))
    {
      paths := paths - {capHash};
    }

    method PathFor(capHash: Hash) returns (r: Option<string>)
      ensures r == if capHash in paths then Some(paths[capHash]) else None
    {
      r := if capHash in paths then Some(paths[capHash]) else None;
    }
  }

  datatype Event = Recorded(capHash: Hash, path: string) | Forgotten(capHash: Hash)

  /** A zero hash or an empty path records nothing. */
  predicate Effective(e: Event) {
    e.Recorded? ==> !IsZero(e.capHash) && e.path != ""
  }

  function Apply(paths: map<Hash, string>, e: Event): map<Hash, string> {
    if !Effective(e) then paths
    else if e.Recorded? then paths[e.capHash := e.path]
    else paths - {e.capHash}
  }

  /** The index after a history of calls. */
  function Replay(events: seq<Event>): map<Hash, string> {
    if events == [] then map[] else Apply(Replay(events[..|events| - 1]), events[|events| - 1])
  }

  /** Forgetting always counts; recording only with a path, for a hash that is not all zero. */
  ghost predicate Counts(e: Event) {
    e.Recorded? ==> e.path != "" && !(e.capHash.algorithm == 0 && forall b :: b in e.capHash.digest ==> b == 0)
  }

  lemma CountsExactly(e: Event)
    ensures Counts(e) <==> Effective(e)
  {
    if e.Recorded? && e.capHash.algorithm == 0 && forall b :: b in e.capHash.digest ==> b == 0 {
      assert forall i :: 0 <= i < |e.capHash.digest| ==> e.capHash.digest[i] in e.capHash.digest;
    }
  }

  /** The last event about `h` that counts, if there is one. */
  ghost predicate LastAbout(events: seq<Event>, h: Hash, i: nat) {
    && i < |events| && events[i].capHash == h && Counts(events[i])
    && forall j :: i < j < |events| && events[j].capHash == h ==> !Counts(events[j])
  }

  ghost predicate LastRecords(events: seq<Event>, h: Hash, path: string) {
    exists i: nat :: LastAbout(events, h, i) && events[i] == Recorded(h, path)
  }

  lemma {:induction false} LastAboutStep(events: seq<Event>, h: Hash, i: nat)
    requires events != []
    ensures var n := |events| - 1;
            LastAbout(events, h, i) <==>
              if events[n].capHash == h && Counts(events[n]) then i == n else LastAbout(events[..n], h, i)
  {
  }

  lemma LastRecordsStep(events: seq<Event>, h: Hash, path: string)
    requires events != [] && !(events[|events| - 1].capHash == h && Counts(events[|events| - 1]))
    ensures LastRecords(events, h, path) <==> LastRecords(events[..|events| - 1], h, path)
  {
    var fewer := events[..|events| - 1];
    forall i: nat { LastAboutStep(events, h, i); }
    if i: nat :| LastAbout(events, h, i) && events[i] == Recorded(h, path) {
      assert LastAbout(fewer, h, i) && fewer[i] == Recorded(h, path);
    }
    if i: nat :| LastAbout(fewer, h, i) && fewer[i] == Recorded(h, path) {
      assert LastAbout(events, h, i) && events[i] == Recorded(h, path);
    }
  }

  /** Over any history the index answers with the path most recently recorded and not since
      forgotten. */
  lemma {:induction false} IndexRemembersLatest(events: seq<Event>, h: Hash, path: string)
    ensures (h in Replay(events) && Replay(events)[h] == path) <==> LastRecords(events, h, path)
  {
    if events != [] {
      var n := |events| - 1;
      IndexRemembersLatest(events[..n], h, path);
      forall i: nat { LastAboutStep(events, h, i); }
      CountsExactly(events[n]);
      hide LastAbout, Counts, Effective;
      if events[n].capHash == h && Counts(events[n]) {
        assert LastAbout(events, h, n);
      } else {
        LastRecordsStep(events, h, path);
      }
    }
  }

  // ----- the context ----------------------------------------------------

  datatype Context = Context(
    store: Option<Included>,
    included: Option<Included>,
    tree: Option<map<string, Hash>>,
    index: Option<map<Hash, string>>)

  /** Content store first, then the envelope. */
  function ResolveAncestor(ctx: Context, h: Hash): Option<Entity> {
    if ctx.store.Some? && h in ctx.store.value then Some(ctx.store.value[h])
    else if ctx.included.Some? && h in ctx.included.value then Some(ctx.included.value[h])
    else None
  }

  function ResolverOf(ctx: Context): Resolver {
    h => ResolveAncestor(ctx, h)
  }

  /** The verdict on a root: unbound or rebound at its recorded path, or marked. */
  predicate RootRevoked(ctx: Context, root: Entity) {
    ctx.tree.Some? &&
    (|| (&& ctx.index.Some? && root.contentHash in ctx.index.value
         && var path := ctx.index.value[root.contentHash];
            path !in ctx.tree.value || ctx.tree.value[path] != root.contentHash)
     || RevocationPathFor(root.contentHash) in ctx.tree.value)
  }

  // ----- climbing, declaratively ----------------------------------------

  /** The entity `n` parents above `cap`. */
  ghost function Climb(resolve: Resolver, cap: Entity, n: nat): Option<Entity> {
    if n == 0 then Some(cap)
    else
      match Climb(resolve, cap, n - 1)
      case None => None
      case Some(e) =>
        if e.data.token.Some? && e.data.token.value.parent.Some? then resolve(e.data.token.value.parent.value) else None
  }

  ghost predicate RootAt(resolve: Resolver, cap: Entity, n: nat, root: Entity) {
    Climb(resolve, cap, n) == Some(root) && IsRootEntity(root)
  }

  /** The links strictly below the root have pairwise different hashes. */
  ghost predicate NoRepeat(resolve: Resolver, cap: Entity, n: nat) {
    forall i: nat, j: nat :: i < j < n && Climb(resolve, cap, i).Some? && Climb(resolve, cap, j).Some? ==>
      Climb(resolve, cap, i).value.contentHash != Climb(resolve, cap, j).value.contentHash
  }

  /** Live: a root is reached without repeating a hash, and it is not revoked. */
  ghost predicate Live(ctx: Context, cap: Entity) {
    exists n: nat, root :: && RootAt(ResolverOf(ctx), cap, n, root) && NoRepeat(ResolverOf(ctx), cap, n)
                           && !RootRevoked(ctx, root)
  }

  lemma {:induction false} ClimbStops(resolve: Resolver, cap: Entity, n: nat, m: nat)
    requires Climb(resolve, cap, n).None? && n <= m
    ensures Climb(resolve, cap, m).None?
    decreases m
  {
    if n < m { ClimbStops(resolve, cap, n, m - 1); }
  }

  lemma {:induction false} RootIsLast(resolve: Resolver, cap: Entity, n: nat, root: Entity, m: nat)
    requires RootAt(resolve, cap, n, root) && m > n
    ensures Climb(resolve, cap, m).None?
  {
    assert Climb(resolve, cap, n + 1).None?;
    ClimbStops(resolve, cap, n + 1, m);
  }

  lemma RootUnique(resolve: Resolver, cap: Entity, n: nat, root: Entity, m: nat, other: Entity)
    requires RootAt(resolve, cap, n, root) && RootAt(resolve, cap, m, other)
    ensures n == m && root == other
  {
    if m > n { RootIsLast(resolve, cap, n, root, m); }
    if n > m { RootIsLast(resolve, cap, m, other, n); }
  }

  // ----- the source's loop ----------------------------------------------

  ghost function HashesOf(m: Option<Included>): set<Hash> {
    if m.None? then {} else set e | e in m.value.Values :: e.contentHash
  }

  lemma ResolvedIsKnown(ctx: Context, h: Hash)
    requires ResolveAncestor(ctx, h).Some?
    ensures ResolveAncestor(ctx, h).value.contentHash in HashesOf(ctx.store) + HashesOf(ctx.included)
  {
  }

  /** The loop's progress: `n` parents climbed without meeting a root or a repeated hash,
      and `visited` holds exactly the hashes passed. */
  ghost predicate Climbed(ctx: Context, cap: Entity, n: nat, current: Entity, visited: set<Hash>) {
    var resolve := ResolverOf(ctx);
    && Climb(resolve, cap, n) == Some(current)
    && (forall i: nat :: i < n ==> Climb(resolve, cap, i).Some? && !IsRootEntity(Climb(resolve, cap, i).value))
    && visited == PassedHashes(resolve, cap, n)
    && NoRepeat(resolve, cap, n)
  }

  ghost function PassedHashes(resolve: Resolver, cap: Entity, n: nat): set<Hash> {
    set i: nat | i < n && Climb(resolve, cap, i).Some? :: Climb(resolve, cap, i).value.contentHash
  }

  lemma ClimbedStep(ctx: Context, cap: Entity, n: nat, current: Entity, visited: set<Hash>)
    requires Climbed(ctx, cap, n, current, visited)
    requires current.data.token.Some? && current.data.token.value.parent.Some? && current.contentHash !in visited
    requires ResolveAncestor(ctx, current.data.token.value.parent.value).Some?
    ensures Climbed(ctx, cap, n + 1, ResolveAncestor(ctx, current.data.token.value.parent.value).value,
                    visited + {current.contentHash})
  {
  }

  /** No root lies ahead: the token does not decode, its parent does not resolve, or its hash
      was passed before. */
  lemma ClimbedIntoTrouble(ctx: Context, cap: Entity, n: nat, current: Entity, visited: set<Hash>)
    requires Climbed(ctx, cap, n, current, visited) && !IsRootEntity(current)
    requires current.data.token.Some? ==>
               current.contentHash in visited || ResolveAncestor(ctx, current.data.token.value.parent.value).None?
    ensures !Live(ctx, cap)
  {
    var resolve := ResolverOf(ctx);
    forall m: nat, root | RootAt(resolve, cap, m, root)
      ensures !NoRepeat(resolve, cap, m)
    {
      assert m > n;
      if Climb(resolve, cap, n + 1).None? { ClimbStops(resolve, cap, n + 1, m); }
    }
  }

  /** IsRevoked: walk with a visited set, then judge the root.  Terminates on every graph,
      since each turn marks a hash not marked before. */
  method IsRevoked(cap: Entity, ctx: Context, index: MemoryCapabilityIndex?) returns (revoked: bool)
    requires ctx.index == if index == null then None else Some(index.paths)
    ensures revoked == !Live(ctx, cap)
  {
    var current := cap;
    var visited: set<Hash> := {};
    ghost var n: nat := 0;
    ghost var known := {cap.contentHash} + HashesOf(ctx.store) + HashesOf(ctx.included);
    assert Climbed(ctx, cap, n, current, visited);
    hide Climbed, Live, HashesOf;
    while true
      invariant Climbed(ctx, cap, n, current, visited)
      invariant current.contentHash in known
      decreases known - visited
    {
      if current.data.token.None? {
        ClimbedIntoTrouble(ctx, cap, n, current, visited);
        return true;
      }
      if current.data.token.value.parent.None? { break; }
      if current.contentHash in visited {
        ClimbedIntoTrouble(ctx, cap, n, current, visited);
        return true;
      }
      var parent := ResolveAncestor(ctx, current.data.token.value.parent.value);
      if parent.None? {
        ClimbedIntoTrouble(ctx, cap, n, current, visited);
        return true;
      }
      ClimbedStep(ctx, cap, n, current, visited);
      ResolvedIsKnown(ctx, current.data.token.value.parent.value);
      visited := visited + {current.contentHash};
      current := parent.value;
      n := n + 1;
    }
    revoked := JudgeRoot(ctx, index, current);
    ClimbedToRoot(ctx, cap, n, current, visited);
  }

  lemma ClimbedToRoot(ctx: Context, cap: Entity, n: nat, root: Entity, visited: set<Hash>)
    requires Climbed(ctx, cap, n, root, visited) && IsRootEntity(root)
    ensures Live(ctx, cap) <==> !RootRevoked(ctx, root)
  {
    RootDecidesWalk(ctx, cap, n, root);
  }

  method JudgeRoot(ctx: Context, index: MemoryCapabilityIndex?, root: Entity) returns (revoked: bool)
    requires ctx.index == if index == null then None else Some(index.paths)
    ensures revoked == RootRevoked(ctx, root)
  {
    if ctx.tree.Some? && index != null {
      var path := index.PathFor(root.contentHash);
      if path.Some? {
        if path.value !in ctx.tree.value { return true; }
        if ctx.tree.value[path.value] != root.contentHash { return true; }
      }
    }
    if ctx.tree.Some? && RevocationPathFor(root.contentHash) in ctx.tree.value { return true; }
    return false;
  }

  lemma RootDecidesWalk(ctx: Context, cap: Entity, n: nat, root: Entity)
    requires RootAt(ResolverOf(ctx), cap, n, root) && NoRepeat(ResolverOf(ctx), cap, n)
    ensures Live(ctx, cap) <==> !RootRevoked(ctx, root)
  {
    if Live(ctx, cap) {
      var m: nat, other :| RootAt(ResolverOf(ctx), cap, m, other) && NoRepeat(ResolverOf(ctx), cap, m)
                           && !RootRevoked(ctx, other);
      RootUnique(ResolverOf(ctx), cap, n, root, m, other);
    }
  }

  // ----- hash-bound graphs ----------------------------------------------

  /** Resolution returns what was asked for, and the capability is itself what its own hash
      resolves to, if anything. */
  ghost predicate HashBound(resolve: Resolver, cap: Entity) {
    && (forall h :: resolve(h).Some? ==> resolve(h).value.contentHash == h)
    && (resolve(cap.contentHash).Some? ==> resolve(cap.contentHash).value == cap)
  }

  lemma ClimbIsResolved(resolve: Resolver, cap: Entity, n: nat)
    requires HashBound(resolve, cap) && n > 0 && Climb(resolve, cap, n).Some?
    ensures resolve(Climb(resolve, cap, n).value.contentHash) == Climb(resolve, cap, n)
  {
  }

  lemma {:induction false} ClimbShift(resolve: Resolver, cap: Entity, m: nat, k: nat)
    requires Climb(resolve, cap, m).Some?
    ensures Climb(resolve, cap, m + k) == Climb(resolve, Climb(resolve, cap, m).value, k)
    decreases k
  {
    if k > 0 { ClimbShift(resolve, cap, m, k - 1); }
  }

  lemma {:induction false} BelowRootClimbs(resolve: Resolver, cap: Entity, n: nat, root: Entity, i: nat)
    requires RootAt(resolve, cap, n, root) && i < n
    ensures Climb(resolve, cap, i).Some? && !IsRootEntity(Climb(resolve, cap, i).value)
  {
    if Climb(resolve, cap, i).None? { ClimbStops(resolve, cap, i, n); }
    if Climb(resolve, cap, i + 1).None? { ClimbStops(resolve, cap, i + 1, n); }
  }

  lemma SameHashSameLink(resolve: Resolver, cap: Entity, i: nat, j: nat)
    requires HashBound(resolve, cap) && i < j && Climb(resolve, cap, i).Some? && Climb(resolve, cap, j).Some?
    requires Climb(resolve, cap, i).value.contentHash == Climb(resolve, cap, j).value.contentHash
    ensures Climb(resolve, cap, i) == Climb(resolve, cap, j)
  {
  }

  /** A link that comes round again leads to no root. */
  lemma RepeatNeverRoots(resolve: Resolver, cap: Entity, i: nat, j: nat, n: nat, root: Entity)
    requires i < j < n && Climb(resolve, cap, i).Some? && Climb(resolve, cap, i) == Climb(resolve, cap, j)
    ensures !RootAt(resolve, cap, n, root)
  {
    hide Climb;
    ClimbShift(resolve, cap, i, n - j);
    ClimbShift(resolve, cap, j, n - j);
    if RootAt(resolve, cap, n, root) {
      RootUnique(resolve, cap, n, root, i + (n - j), root);
    }
  }

  /** In a hash-bound graph a walk that reaches a root never repeats a hash. */
  lemma RootedWalkNeverRepeats(resolve: Resolver, cap: Entity, n: nat, root: Entity)
    requires HashBound(resolve, cap) && RootAt(resolve, cap, n, root)
    ensures NoRepeat(resolve, cap, n)
  {
    hide Climb, HashBound, RootAt;
    forall i: nat, j: nat | i < j < n && Climb(resolve, cap, i).Some? && Climb(resolve, cap, j).Some?
      ensures Climb(resolve, cap, i).value.contentHash != Climb(resolve, cap, j).value.contentHash
    {
      if Climb(resolve, cap, i).value.contentHash == Climb(resolve, cap, j).value.contentHash {
        SameHashSameLink(resolve, cap, i, j);
        RepeatNeverRoots(resolve, cap, i, j, n, root);
      }
    }
  }

  /** Revocation depends only on the root: every capability whose walk ends at `root` has
      exactly the root's verdict. */
  lemma RevocationDependsOnRoot(ctx: Context, cap: Entity)
    requires HashBound(ResolverOf(ctx), cap)
    ensures forall n: nat, root :: RootAt(ResolverOf(ctx), cap, n, root) ==>
              (Live(ctx, cap) <==> !RootRevoked(ctx, root))
  {
    forall n: nat, root | RootAt(ResolverOf(ctx), cap, n, root)
      ensures Live(ctx, cap) <==> !RootRevoked(ctx, root)
    {
      RootedWalkNeverRepeats(ResolverOf(ctx), cap, n, root);
      RootDecidesWalk(ctx, cap, n, root);
    }
  }

  /** Delegation changes nothing: a capability and any ancestor on its way to the root have
      the same verdict. */
  lemma DescendantSharesVerdict(ctx: Context, cap: Entity, n: nat, root: Entity, m: nat)
    requires HashBound(ResolverOf(ctx), cap) && RootAt(ResolverOf(ctx), cap, n, root) && m <= n
    ensures Climb(ResolverOf(ctx), cap, m).Some?
    ensures Live(ctx, cap) <==> Live(ctx, Climb(ResolverOf(ctx), cap, m).value)
    ensures Live(ctx, cap) <==> Live(ctx, root)
  {
    var resolve := ResolverOf(ctx);
    RevocationDependsOnRoot(ctx, cap);
    if m < n { BelowRootClimbs(resolve, cap, n, root, m); }
    forall k | k == m || k == n
      ensures Climb(resolve, cap, k).Some? && (Live(ctx, cap) <==> Live(ctx, Climb(resolve, cap, k).value))
    {
      var ancestor := Climb(resolve, cap, k).value;
      if k > 0 { ClimbIsResolved(resolve, cap, k); }
      ClimbShift(resolve, cap, k, n - k);
      assert RootAt(resolve, ancestor, n - k, root);
      RevocationDependsOnRoot(ctx, ancestor);
    }
  }

  // ----- walks that never reach a root -----------------------------------

  /** A walk that meets a hash it passed, at a link that is no root, is revoked, in any graph. */
  lemma RepeatIsRevoked(ctx: Context, cap: Entity, i: nat, j: nat)
    requires i < j && Climb(ResolverOf(ctx), cap, i).Some? && Climb(ResolverOf(ctx), cap, j).Some?
    requires Climb(ResolverOf(ctx), cap, i).value.contentHash == Climb(ResolverOf(ctx), cap, j).value.contentHash
    requires !IsRootEntity(Climb(ResolverOf(ctx), cap, j).value)
    ensures !Live(ctx, cap)
  {
    var resolve := ResolverOf(ctx);
    forall n: nat, root | RootAt(resolve, cap, n, root) ensures !NoRepeat(resolve, cap, n) {
      if n < j { RootIsLast(resolve, cap, n, root, j); }
    }
  }

  /** In particular every capability from which the walk runs into a cycle. */
  lemma CycleIsRevoked(ctx: Context, cap: Entity, i: nat, j: nat)
    requires i < j && Climb(ResolverOf(ctx), cap, i).Some?
    requires Climb(ResolverOf(ctx), cap, i) == Climb(ResolverOf(ctx), cap, j)
    ensures !Live(ctx, cap)
  {
    if IsRootEntity(Climb(ResolverOf(ctx), cap, i).value) {
      RootIsLast(ResolverOf(ctx), cap, i, Climb(ResolverOf(ctx), cap, i).value, j);
    }
    RepeatIsRevoked(ctx, cap, i, j);
  }

  /** A walk that reaches a link whose token does not decode or whose parent does not resolve
      is revoked. */
  lemma GapIsRevoked(ctx: Context, cap: Entity, n: nat)
    requires Climb(ResolverOf(ctx), cap, n).Some?
    requires var link := Climb(ResolverOf(ctx), cap, n).value;
             || link.data.token.None?
             || (link.data.token.value.parent.Some? && ResolveAncestor(ctx, link.data.token.value.parent.value).None?)
    ensures !Live(ctx, cap)
  {
    var resolve := ResolverOf(ctx);
    assert Climb(resolve, cap, n + 1).None?;
    forall m: nat, root | RootAt(resolve, cap, m, root) ensures false {
      if m < n { RootIsLast(resolve, cap, m, root, n); }
      if m > n { ClimbStops(resolve, cap, n + 1, m); }
    }
  }

  // ----- agreement with the bounded walk --------------------------------

  lemma {:induction false} WalkClimbs(resolve: Resolver, leaf: Entity, chain: seq<Entity>, i: nat)
    requires CompleteWalk(resolve, leaf, chain) && i < |chain|
    ensures Climb(resolve, leaf, i) == Some(chain[i])
  {
    if i > 0 {
      WalkClimbs(resolve, leaf, chain, i - 1);
      assert ParentOf(resolve, chain[i - 1], chain[i]);
    }
  }

  /** The bounded walk's last link is the root revocation consults. */
  lemma BoundedWalkAgrees(ctx: Context, cap: Entity, chain: seq<Entity>)
    requires HashBound(ResolverOf(ctx), cap) && Walk(ResolverOf(ctx), cap) == Ok(chain)
    ensures |chain| > 0
    ensures Live(ctx, cap) <==> !RootRevoked(ctx, chain[|chain| - 1])
  {
    WalkExactly(ResolverOf(ctx), cap, chain);
    WalkClimbs(ResolverOf(ctx), cap, chain, |chain| - 1);
    RevocationDependsOnRoot(ctx, cap);
    assert RootAt(ResolverOf(ctx), cap, |chain| - 1, chain[|chain| - 1]);
  }

  // ----- markers --------------------------------------------------------

  function Mark(ctx: Context, h: Hash, marker: Hash): Context
    requires ctx.tree.Some?
  {
    ctx.(tree := Some(ctx.tree.value[RevocationPathFor(h) := marker]))
  }

  /** A marker revokes exactly the roots with the marked wire form, as long as the root in
      question is not itself recorded at the marker's path. */
  lemma MarkerRevokesExactly(ctx: Context, h: Hash, marker: Hash, root: Entity)
    requires ctx.tree.Some?
    requires ctx.index.Some? && root.contentHash in ctx.index.value ==>
               ctx.index.value[root.contentHash] != RevocationPathFor(h)
    ensures RootRevoked(Mark(ctx, h, marker), root) <==>
              RootRevoked(ctx, root) || WireBytes(root.contentHash) == WireBytes(h)
  {
    MarkerPathExactly(root.contentHash, h);
  }

  ghost predicate NoCapUnderRevocations(index: map<Hash, string>) {
    forall h :: h in index ==> !(REVOCATIONS_ROOT + "/" <= index[h])
  }

  lemma MarkedRoot(ctx: Context, h: Hash, marker: Hash, cap: Entity, n: nat, root: Entity)
    requires ctx.tree.Some? && (ctx.index.Some? ==> NoCapUnderRevocations(ctx.index.value))
    requires HashBound(ResolverOf(ctx), cap) && RootAt(ResolverOf(ctx), cap, n, root)
    requires WellFormed(h) && WellFormed(root.contentHash)
    ensures !Live(Mark(ctx, h, marker), cap) <==> !Live(ctx, cap) || root.contentHash == h
  {
    var marked := Mark(ctx, h, marker);
    SameResolver(ctx, marked);
    assert REVOCATIONS_ROOT + "/" <= RevocationPathFor(h);
    MarkerRevokesExactly(ctx, h, marker, root);
    if WireBytes(root.contentHash) == WireBytes(h) { WireFormInjective(root.contentHash, h); }
    SameClimb(ResolverOf(ctx), ResolverOf(marked), cap, n);
    RevocationDependsOnRoot(ctx, cap);
    RevocationDependsOnRoot(marked, cap);
    assert RootAt(ResolverOf(marked), cap, n, root);
  }

  lemma MarkedRootless(ctx: Context, h: Hash, marker: Hash, cap: Entity)
    requires ctx.tree.Some?
    requires forall n: nat, root :: !RootAt(ResolverOf(ctx), cap, n, root)
    ensures !Live(ctx, cap) && !Live(Mark(ctx, h, marker), cap)
  {
    var marked := Mark(ctx, h, marker);
    SameResolver(ctx, marked);
    forall n: nat, root ensures !RootAt(ResolverOf(marked), cap, n, root) {
      SameClimb(ResolverOf(ctx), ResolverOf(marked), cap, n);
      assert !RootAt(ResolverOf(ctx), cap, n, root);
    }
  }

  ghost predicate EndsAt(ctx: Context, cap: Entity, h: Hash) {
    exists n: nat, root :: RootAt(ResolverOf(ctx), cap, n, root) && root.contentHash == h
  }

  /** Marker frame: marking `h` revokes exactly the capabilities whose walk ends at `h` and
      leaves every other verdict as it was. */
  lemma MarkerFrame(ctx: Context, h: Hash, marker: Hash, cap: Entity)
    requires ctx.tree.Some? && (ctx.index.Some? ==> NoCapUnderRevocations(ctx.index.value))
    requires HashBound(ResolverOf(ctx), cap) && WellFormed(h)
    requires forall n: nat, root :: RootAt(ResolverOf(ctx), cap, n, root) ==> WellFormed(root.contentHash)
    ensures !Live(Mark(ctx, h, marker), cap) <==> !Live(ctx, cap) || EndsAt(ctx, cap, h)
  {
    hide Live, RootAt, HashBound;
    if n: nat, root :| RootAt(ResolverOf(ctx), cap, n, root) {
      MarkedRoot(ctx, h, marker, cap, n, root);
      forall m: nat, other | RootAt(ResolverOf(ctx), cap, m, other) ensures other == root {
        RootUnique(ResolverOf(ctx), cap, n, root, m, other);
      }
    } else {
      MarkedRootless(ctx, h, marker, cap);
    }
  }

  lemma SameResolver(ctx: Context, other: Context)
    requires ctx.store == other.store && ctx.included == other.included
    ensures forall h :: ResolverOf(ctx)(h) == ResolverOf(other)(h)
  {
  }

  lemma {:induction false} SameClimb(r: Resolver, s: Resolver, cap: Entity, n: nat)
    requires forall h :: r(h) == s(h)
    ensures Climb(r, cap, n) == Climb(s, cap, n)
  {
    if n > 0 { SameClimb(r, s, cap, n - 1); }
  }

  // ----- what the verdict means on store, envelope, index and tree -------

  /** Resolution of an ancestor: the content store first, then the envelope. */
  ghost predicate Finds(ctx: Context, h: Hash, e: Entity) {
    if ctx.store.Some? && h in ctx.store.value then ctx.store.value[h] == e
    else ctx.included.Some? && h in ctx.included.value && ctx.included.value[h] == e
  }

  ghost predicate StepsOn(ctx: Context, links: seq<Entity>, i: nat)
    requires i < |links|
  {
    && links[i].data.token.Some?
    && var parent := links[i].data.token.value.parent;
       if i == |links| - 1 then parent.None? else parent.Some? && Finds(ctx, parent.value, links[i + 1])
  }

  /** From the capability, parent by parent, to a token without one, no hash met twice on the way
      to it. */
  ghost predicate WalksTo(ctx: Context, cap: Entity, links: seq<Entity>) {
    && |links| > 0 && links[0] == cap
    && (forall i :: 0 <= i < |links| ==> StepsOn(ctx, links, i))
    && (forall i, j :: 0 <= i < j < |links| - 1 ==> links[i].contentHash != links[j].contentHash)
  }

  /** Where the index records the root, the tree still holds it; and no marker names it. */
  ghost predicate RootStands(ctx: Context, root: Entity) {
    ctx.tree.Some? ==>
      var tree := ctx.tree.value;
      && (ctx.index.Some? && root.contentHash in ctx.index.value ==>
            var path := ctx.index.value[root.contentHash];
            path in tree && tree[path] == root.contentHash)
      && "system/capability/revocations/" + Hex(WireBytes(root.contentHash)) !in tree
  }

  lemma RootStandsExactly(ctx: Context, root: Entity)
    ensures RootStands(ctx, root) <==> !RootRevoked(ctx, root)
  {
    hide Hex, WireBytes;
    assert "system/capability/revocations/" == REVOCATIONS_ROOT + "/";
  }

  lemma {:induction false} WalkedIsClimbed(ctx: Context, cap: Entity, links: seq<Entity>, i: nat)
    requires |links| > 0 && links[0] == cap && (forall k :: 0 <= k < |links| ==> StepsOn(ctx, links, k))
    requires i < |links|
    ensures Climb(ResolverOf(ctx), cap, i) == Some(links[i])
  {
    if i > 0 {
      WalkedIsClimbed(ctx, cap, links, i - 1);
      assert StepsOn(ctx, links, i - 1);
    }
  }

  lemma ClimbedIsWalked(ctx: Context, cap: Entity, n: nat, root: Entity) returns (links: seq<Entity>)
    requires RootAt(ResolverOf(ctx), cap, n, root) && NoRepeat(ResolverOf(ctx), cap, n)
    ensures WalksTo(ctx, cap, links) && links[|links| - 1] == root
  {
    var resolve := ResolverOf(ctx);
    forall i: nat | i <= n ensures Climb(resolve, cap, i).Some? {
      if i < n { BelowRootClimbs(resolve, cap, n, root, i); }
    }
    links := seq(n + 1, i requires 0 <= i <= n => Climb(resolve, cap, i).value);
    forall i | 0 <= i < |links| ensures StepsOn(ctx, links, i) {
      if i < n {
        BelowRootClimbs(resolve, cap, n, root, i);
        assert Climb(resolve, cap, i + 1).Some?;
      }
    }
  }

  /** What IsRevoked decides: the capability is live exactly when a walk without a repeated hash
      leads to a root that stands. */
  lemma LiveMeaning(ctx: Context, cap: Entity)
    ensures Live(ctx, cap) <==>
              exists links :: WalksTo(ctx, cap, links) && RootStands(ctx, links[|links| - 1])
  {
    if Live(ctx, cap) {
      var n: nat, root :| && RootAt(ResolverOf(ctx), cap, n, root) && NoRepeat(ResolverOf(ctx), cap, n)
                          && !RootRevoked(ctx, root);
      RootStandsExactly(ctx, root);
      var links := ClimbedIsWalked(ctx, cap, n, root);
    }
    forall links | WalksTo(ctx, cap, links) && RootStands(ctx, links[|links| - 1]) ensures Live(ctx, cap) {
      WalkedIsLive(ctx, cap, links);
    }
  }

  lemma WalkedIsLive(ctx: Context, cap: Entity, links: seq<Entity>)
    requires WalksTo(ctx, cap, links) && RootStands(ctx, links[|links| - 1])
    ensures Live(ctx, cap)
  {
    var resolve, n := ResolverOf(ctx), |links| - 1;
    forall i: nat | i <= n ensures Climb(resolve, cap, i) == Some(links[i]) { WalkedIsClimbed(ctx, cap, links, i); }
    assert StepsOn(ctx, links, n);
    RootStandsExactly(ctx, links[n]);
    hide RootStands, RootRevoked, Climb, Finds;
    assert RootAt(resolve, cap, n, links[n]) && NoRepeat(resolve, cap, n);
  }

  /** The binding check: a root recorded at a path that is gone from the tree, or holds another
      hash, revokes every capability that leads to it. */
  lemma UnboundRootIsRevoked(ctx: Context, cap: Entity, n: nat, root: Entity, path: string)
    requires RootAt(ResolverOf(ctx), cap, n, root) && ctx.tree.Some? && ctx.index.Some?
    requires root.contentHash in ctx.index.value && ctx.index.value[root.contentHash] == path
    requires path !in ctx.tree.value || ctx.tree.value[path] != root.contentHash
    ensures !Live(ctx, cap)
  {
    RootStandsExactly(ctx, root);
    assert !RootStands(ctx, root);
    hide RootRevoked, RootStands, RootAt, NoRepeat;
    forall m: nat, other | RootAt(ResolverOf(ctx), cap, m, other) ensures other == root {
      RootUnique(ResolverOf(ctx), cap, n, root, m, other);
    }
  }

}
