/** Whole-chain theorems about accepted chains. */
module NoWidening {
  import opened Patterns
  import opened GenericPaths
  import opened RealPaths
  import opened Tokens
  import opened Scopes
  import opened Permission
  import opened Attenuation
  import opened Authority
  import opened Signatures
  import opened ChainVerification

  /** Token and namespace of link `k` of a chain. */
  ghost function TokenAt(chain: seq<Entity>, k: nat): Token
    requires k < |chain| && chain[k].data.token.Some?
  {
    chain[k].data.token.value
  }

  ghost function PeerAt(env: Env, chain: seq<Entity>, k: nat, included: Included, local: string): Option<string>
    requires k < |chain| && chain[k].data.token.Some?
  {
    GranterPeer(env, TokenAt(chain, k).granter, included, local)
  }

  /** Link `k` carries a token whose namespace resolves. */
  ghost predicate Resolved(env: Env, chain: seq<Entity>, k: nat, included: Included, local: string)
    requires k < |chain|
  {
    chain[k].data.token.Some? && PeerAt(env, chain, k, included, local).Some?
  }

  ghost predicate HoldsThrough(env: Env, chain: seq<Entity>, included: Included, local: string, clock: Clock) {
    && |chain| > 0
    && ChainHolds(env, chain, included, local, clock, false)
    && Resolved(env, chain, 0, included, local)
  }

  lemma LinkDelegates(env: Env, chain: seq<Entity>, included: Included, local: string, clock: Clock, k: nat)
    requires HoldsThrough(env, chain, included, local, clock) && k + 1 < |chain|
    ensures Resolved(env, chain, k, included, local) && Resolved(env, chain, k + 1, included, local)
    ensures Delegates(env, TokenAt(chain, k), TokenAt(chain, k + 1), k, included, local)
    ensures InWindow(TokenAt(chain, k + 1), clock(k + 1))
  {
    assert LinkHolds(env, chain, k, included, local, clock(k), false);
    assert LinkHolds(env, chain, k + 1, included, local, clock(k + 1), false);
  }

  /** An accepted leaf whose own namespace resolves, to `leafPeer`. */
  ghost predicate AcceptedFor(env: Env, leaf: Entity, included: Included, local: string, clock: Clock,
                              leafPeer: string) {
    && Accepts(env, leaf, included, local, clock, false)
    && leaf.data.token.Some?
    && GranterPeer(env, leaf.data.token.value.granter, included, local) == Some(leafPeer)
  }

  lemma AcceptedHoldsThrough(env: Env, leaf: Entity, included: Included, local: string, clock: Clock, leafPeer: string)
    requires AcceptedFor(env, leaf, included, local, clock, leafPeer)
    ensures var chain := ChainOf(leaf, included);
            && HoldsThrough(env, chain, included, local, clock)
            && chain[0] == leaf && PeerAt(env, chain, 0, included, local) == Some(leafPeer)
  {
  }

  // ----- questions at either level --------------------------------------

  /** What a token can be asked: a dispatch-level request, or one subject at the path level. */
  datatype Question =
    | Dispatch(req: Request, handler: string, relaxPeers: bool)
    | PathLevel(operation: string, path: string, handler: string)

  ghost predicate Admits(env: Env, q: Question, g: Grant, local: string, peer: string) {
    match q
    case Dispatch(req, handler, relaxPeers) => GrantAdmits(env, req, g, handler, local, peer, relaxPeers)
    case PathLevel(operation, path, handler) => GrantAdmitsPath(operation, path, g, handler, local, peer)
  }

  /** The verdict of FindMatchingGrant or of CheckPathPermission. */
  ghost predicate Authorizes(env: Env, q: Question, t: Token, local: string, peer: string, now: u64) {
    match q
    case Dispatch(req, handler, relaxPeers) => Permits(env, req, t, handler, local, peer, now, relaxPeers)
    case PathLevel(operation, path, handler) => PathPermits(operation, path, t, handler, local, peer, now)
  }

  /** The resources asked about; a path-level subject comes without caller excludes. */
  function Asked(q: Question): Option<ResourceTarget> {
    match q
    case Dispatch(req, _, _) => req.resource
    case PathLevel(_, path, _) => Some(ResourceTarget([path], []))
  }

  lemma AuthorizesByGrant(env: Env, q: Question, t: Token, local: string, peer: string, now: u64)
    ensures Authorizes(env, q, t, local, peer, now)
       <==> InWindow(t, now) && exists g :: g in t.grants && Admits(env, q, g, local, peer)
  {
    hide InWindow, GrantAdmits, GrantAdmitsPath;
  }

  lemma LonePathTight(path: string, child: Scope, parent: Scope, childPeer: string, parentPeer: string, local: string)
    ensures TightRequest(Some(ResourceTarget([path], [])), child, parent, childPeer, parentPeer, local)
       <==> Tight(Canonicalize(path, local), [], child, parent, childPeer, parentPeer, local)
  {
    hide Tight;
    forall t ensures t in EffectiveOf(Some(ResourceTarget([path], [])), local) <==> t == path {
      EffectiveMembers([path], [], local, t);
    }
  }

  /** What a covered grant admits, its parent grant admits exactly when no exclude slips. */
  lemma CoveredAdmitsExactly(env: Env, q: Question, c: Grant, p: Grant, childPeer: string, parentPeer: string,
                             local: string)
    requires q.Dispatch? ==> PeerIdsAreSegments(env, local)
    requires Covers(p, c, parentPeer, childPeer, local) && Admits(env, q, c, local, childPeer)
    ensures Admits(env, q, p, local, parentPeer)
       <==> TightRequest(Asked(q), c.resources, p.resources, childPeer, parentPeer, local)
  {
    hide Covers, TightRequest, GrantAdmits, GrantAdmitsPath;
    match q
    case Dispatch(req, handler, relaxPeers) =>
      CoveredGrantAdmitsExactly(env, req, c, p, childPeer, parentPeer, handler, local, relaxPeers);
    case PathLevel(operation, path, handler) =>
      LonePathTight(path, c.resources, p.resources, childPeer, parentPeer, local);
      CoveredGrantAdmitsPathExactly(operation, path, c, p, childPeer, parentPeer, handler, local);
  }

  // ----- attenuation across links ---------------------------------------

  lemma {:induction false} AttenuatedFrom(env: Env, chain: seq<Entity>, included: Included, local: string, clock: Clock,
                                          i: nat, j: nat)
    requires HoldsThrough(env, chain, included, local, clock) && i <= j < |chain|
    ensures Resolved(env, chain, i, included, local) && Resolved(env, chain, j, included, local)
    ensures Attenuated(TokenAt(chain, i), TokenAt(chain, j), PeerAt(env, chain, i, included, local).value,
                       PeerAt(env, chain, j, included, local).value, local)
    decreases j - i
  {
    hide Attenuated, LinkHolds, CaveatsAllow;
    if i == j {
      if i > 0 { LinkDelegates(env, chain, included, local, clock, i - 1); }
      AttenuatedReflexive(TokenAt(chain, i), PeerAt(env, chain, i, included, local).value, local);
    } else {
      AttenuatedFrom(env, chain, included, local, clock, i, j - 1);
      LinkDelegates(env, chain, included, local, clock, j - 1);
      AttenuatedTransitive(TokenAt(chain, i), TokenAt(chain, j - 1), TokenAt(chain, j),
                           PeerAt(env, chain, i, included, local).value,
                           PeerAt(env, chain, j - 1, included, local).value,
                           PeerAt(env, chain, j, included, local).value, local);
    }
  }

  /** Every leaf grant sits under a grant of every ancestor. */
  lemma LeafUnderAncestor(env: Env, leaf: Entity, included: Included, local: string, clock: Clock, leafPeer: string,
                          c: Grant, k: nat)
    requires AcceptedFor(env, leaf, included, local, clock, leafPeer)
    requires c in leaf.data.token.value.grants && k < |ChainOf(leaf, included)|
    ensures var chain := ChainOf(leaf, included);
            && Resolved(env, chain, k, included, local)
            && SomeGrantCovers(TokenAt(chain, k).grants, c, PeerAt(env, chain, k, included, local).value, leafPeer,
                               local)
            && ExpiryWithin(leaf.data.token.value.expiresAt, TokenAt(chain, k).expiresAt)
  {
    AcceptedHoldsThrough(env, leaf, included, local, clock, leafPeer);
    hide Accepts, HoldsThrough, WalkFrom, SomeGrantCovers;
    AttenuatedFrom(env, ChainOf(leaf, included), included, local, clock, 0, k);
  }

  /** In an accepted chain the leaf attenuates every ancestor directly: each leaf grant sits
      under an ancestor grant whose constraints it keeps byte for byte and whose allowances it
      does not exceed, and the leaf is dead whenever any ancestor is. */
  lemma LeafAttenuatesRoot(env: Env, leaf: Entity, included: Included, local: string, clock: Clock, leafPeer: string,
                           c: Grant, k: nat, later: u64)
    requires AcceptedFor(env, leaf, included, local, clock, leafPeer)
    requires c in leaf.data.token.value.grants && k < |ChainOf(leaf, included)|
    ensures var chain := ChainOf(leaf, included);
            && Resolved(env, chain, k, included, local)
            && (exists p :: && p in TokenAt(chain, k).grants
                            && SubMap(p.constraints, c.constraints) && SubMap(c.allowances, p.allowances))
            && (Expired(TokenAt(chain, k).expiresAt, later) ==> Expired(leaf.data.token.value.expiresAt, later))
  {
    LeafUnderAncestor(env, leaf, included, local, clock, leafPeer, c, k);
    hide AcceptedFor, WalkFrom, SubPatterns, IdSubset, SubMap;
    var chain := ChainOf(leaf, included);
    var p :| p in TokenAt(chain, k).grants
             && Covers(p, c, PeerAt(env, chain, k, included, local).value, leafPeer, local);
  }

  // ----- no widening ----------------------------------------------------

  /** Some parent grant covers the child grant and none of its excludes slips past it. */
  ghost predicate TightlyCovered(resource: Option<ResourceTarget>, c: Grant, parents: seq<Grant>, childPeer: string,
                                 parentPeer: string, local: string) {
    exists p :: && p in parents && Covers(p, c, parentPeer, childPeer, local)
                && TightRequest(resource, c.resources, p.resources, childPeer, parentPeer, local)
  }

  /** No slip at one link: each grant that admits the question is tightly covered. */
  ghost predicate TightStep(env: Env, child: Token, parent: Token, childPeer: string, parentPeer: string, q: Question,
                            local: string) {
    forall c :: c in child.grants && Admits(env, q, c, local, childPeer) ==>
      TightlyCovered(Asked(q), c, parent.grants, childPeer, parentPeer, local)
  }

  ghost predicate TightAt(env: Env, chain: seq<Entity>, k: nat, included: Included, local: string, q: Question)
    requires k + 1 < |chain|
  {
    Resolved(env, chain, k, included, local) && Resolved(env, chain, k + 1, included, local) ==>
      TightStep(env, TokenAt(chain, k), TokenAt(chain, k + 1), PeerAt(env, chain, k, included, local).value,
                PeerAt(env, chain, k + 1, included, local).value, q, local)
  }

  ghost predicate TightAlong(env: Env, chain: seq<Entity>, included: Included, local: string, q: Question) {
    forall k :: 0 <= k < |chain| - 1 ==> TightAt(env, chain, k, included, local, q)
  }

  /** The links were verified no later than the question is asked. */
  ghost predicate ReadBy(clock: Clock, links: nat, now: u64) {
    forall k :: 0 <= k < links ==> clock(k) <= now
  }

  /** A parent that has started outlives its child. */
  lemma ParentInWindow(child: Token, parent: Token, read: u64, now: u64)
    requires ExpiryWithin(child.expiresAt, parent.expiresAt) && InWindow(child, now)
    requires InWindow(parent, read) && read <= now
    ensures InWindow(parent, now)
  {
  }

  /** One delegation step. */
  lemma TightStepAuthorizes(env: Env, child: Token, parent: Token, childPeer: string, parentPeer: string, q: Question,
                            local: string, read: u64, now: u64)
    requires q.Dispatch? ==> PeerIdsAreSegments(env, local)
    requires Attenuated(child, parent, childPeer, parentPeer, local) && InWindow(parent, read) && read <= now
    requires TightStep(env, child, parent, childPeer, parentPeer, q, local)
    requires Authorizes(env, q, child, local, childPeer, now)
    ensures Authorizes(env, q, parent, local, parentPeer, now)
  {
    AuthorizesByGrant(env, q, child, local, childPeer, now);
    AuthorizesByGrant(env, q, parent, local, parentPeer, now);
    ParentInWindow(child, parent, read, now);
    hide InWindow, Admits, Authorizes, Covers, TightRequest, PeerIdsAreSegments;
    var c :| c in child.grants && Admits(env, q, c, local, childPeer);
    var p :| && p in parent.grants && Covers(p, c, parentPeer, childPeer, local)
             && TightRequest(Asked(q), c.resources, p.resources, childPeer, parentPeer, local);
    CoveredAdmitsExactly(env, q, c, p, childPeer, parentPeer, local);
  }

  ghost predicate AuthorizesAt(env: Env, chain: seq<Entity>, k: nat, included: Included, local: string, q: Question,
                               now: u64)
    requires k < |chain|
  {
    && Resolved(env, chain, k, included, local)
    && Authorizes(env, q, TokenAt(chain, k), local, PeerAt(env, chain, k, included, local).value, now)
  }

  lemma {:induction false} AuthorizedUpward(env: Env, chain: seq<Entity>, included: Included, local: string,
                                            clock: Clock, q: Question, now: u64, k: nat)
    requires HoldsThrough(env, chain, included, local, clock) && (q.Dispatch? ==> PeerIdsAreSegments(env, local))
    requires ReadBy(clock, |chain|, now) && TightAlong(env, chain, included, local, q)
    requires AuthorizesAt(env, chain, 0, included, local, q, now) && k < |chain|
    ensures AuthorizesAt(env, chain, k, included, local, q, now)
  {
    hide Authorizes, Attenuated, TightStep, LinkHolds, PeerIdsAreSegments;
    if k > 0 {
      AuthorizedUpward(env, chain, included, local, clock, q, now, k - 1);
      LinkDelegates(env, chain, included, local, clock, k - 1);
      assert TightAt(env, chain, k - 1, included, local, q);
      TightStepAuthorizes(env, TokenAt(chain, k - 1), TokenAt(chain, k),
                          PeerAt(env, chain, k - 1, included, local).value,
                          PeerAt(env, chain, k, included, local).value, q, local, clock(k), now);
    }
  }

  /** No widening over a whole accepted chain, at both levels: what the leaf authorizes, every
      ancestor authorizes, each reading its patterns in its own granter's namespace, when no
      exclude slips at any link. */
  lemma ChainNeverWidens(env: Env, leaf: Entity, included: Included, local: string, clock: Clock, leafPeer: string,
                         q: Question, now: u64, k: nat)
    requires AcceptedFor(env, leaf, included, local, clock, leafPeer)
    requires q.Dispatch? ==> PeerIdsAreSegments(env, local)
    requires Authorizes(env, q, leaf.data.token.value, local, leafPeer, now)
    requires var chain := ChainOf(leaf, included);
             ReadBy(clock, |chain|, now) && k < |chain| && TightAlong(env, chain, included, local, q)
    ensures AuthorizesAt(env, ChainOf(leaf, included), k, included, local, q, now)
  {
    AcceptedHoldsThrough(env, leaf, included, local, clock, leafPeer);
    hide Accepts, Authorizes, TightAlong, WalkFrom, LinkHolds, PeerIdsAreSegments;
    AuthorizedUpward(env, ChainOf(leaf, included), included, local, clock, q, now, k);
  }

  /** The condition is exact, grant by grant and across any number of links: an ancestor grant
      covering the leaf grant that admits a question admits it too exactly when none of its
      excludes slips past that leaf grant.  Such an ancestor grant always exists. */
  lemma AncestorAdmitsExactly(env: Env, leaf: Entity, included: Included, local: string, clock: Clock, leafPeer: string,
                              q: Question, c: Grant, k: nat)
    requires AcceptedFor(env, leaf, included, local, clock, leafPeer)
    requires q.Dispatch? ==> PeerIdsAreSegments(env, local)
    requires c in leaf.data.token.value.grants && Admits(env, q, c, local, leafPeer)
    requires k < |ChainOf(leaf, included)|
    ensures var chain := ChainOf(leaf, included);
            && Resolved(env, chain, k, included, local)
            && var grants, peer := TokenAt(chain, k).grants, PeerAt(env, chain, k, included, local).value;
            && SomeGrantCovers(grants, c, peer, leafPeer, local)
            && forall p :: p in grants && Covers(p, c, peer, leafPeer, local) ==>
                 (Admits(env, q, p, local, peer)
                  <==> TightRequest(Asked(q), c.resources, p.resources, leafPeer, peer, local))
  {
    LeafUnderAncestor(env, leaf, included, local, clock, leafPeer, c, k);
    hide AcceptedFor, Admits, Covers, TightRequest, WalkFrom, PeerIdsAreSegments;
    var chain := ChainOf(leaf, included);
    var grants, peer := TokenAt(chain, k).grants, PeerAt(env, chain, k, included, local).value;
    forall p | p in grants && Covers(p, c, peer, leafPeer, local)
      ensures Admits(env, q, p, local, peer) <==>
                TightRequest(Asked(q), c.resources, p.resources, leafPeer, peer, local)
    {
      CoveredAdmitsExactly(env, q, c, p, leafPeer, peer, local);
    }
  }

  /** Some parent grant both covers the child grant and admits the question. */
  ghost predicate Backed(env: Env, q: Question, c: Grant, parents: seq<Grant>, childPeer: string, parentPeer: string,
                         local: string) {
    exists p :: p in parents && Covers(p, c, parentPeer, childPeer, local) && Admits(env, q, p, local, parentPeer)
  }

  /** One link, any number of grants: every admitting grant is backed by a parent grant if and
      only if no exclude slips at the link. */
  lemma BackedExactly(env: Env, child: Token, parent: Token, childPeer: string, parentPeer: string, q: Question,
                      local: string)
    requires q.Dispatch? ==> PeerIdsAreSegments(env, local)
    ensures (forall c :: c in child.grants && Admits(env, q, c, local, childPeer) ==>
               Backed(env, q, c, parent.grants, childPeer, parentPeer, local))
       <==> TightStep(env, child, parent, childPeer, parentPeer, q, local)
  {
    hide Admits, Covers, TightRequest, PeerIdsAreSegments;
    forall c | c in child.grants && Admits(env, q, c, local, childPeer)
      ensures Backed(env, q, c, parent.grants, childPeer, parentPeer, local)
         <==> TightlyCovered(Asked(q), c, parent.grants, childPeer, parentPeer, local)
    {
      forall p | p in parent.grants && Covers(p, c, parentPeer, childPeer, local)
        ensures Admits(env, q, p, local, parentPeer)
           <==> TightRequest(Asked(q), c.resources, p.resources, childPeer, parentPeer, local)
      {
        CoveredAdmitsExactly(env, q, c, p, childPeer, parentPeer, local);
      }
    }
  }

  /** Where every token carries one grant, all ancestors authorize what the leaf authorizes if
      and only if no exclude slips at any link. */
  lemma LoneGrantChainExactly(env: Env, leaf: Entity, included: Included, local: string, clock: Clock, leafPeer: string,
                              q: Question, now: u64)
    requires AcceptedFor(env, leaf, included, local, clock, leafPeer)
    requires q.Dispatch? ==> PeerIdsAreSegments(env, local)
    requires Authorizes(env, q, leaf.data.token.value, local, leafPeer, now)
    requires var chain := ChainOf(leaf, included);
             && ReadBy(clock, |chain|, now)
             && forall k :: 0 <= k < |chain| && chain[k].data.token.Some? ==> |TokenAt(chain, k).grants| == 1
    ensures var chain := ChainOf(leaf, included);
            (forall k :: 0 <= k < |chain| ==> AuthorizesAt(env, chain, k, included, local, q, now))
            <==> TightAlong(env, chain, included, local, q)
  {
    AcceptedHoldsThrough(env, leaf, included, local, clock, leafPeer);
    assert AuthorizesAt(env, ChainOf(leaf, included), 0, included, local, q, now);
    hide Accepts, AuthorizesAt, WalkFrom, HoldsThrough, PeerIdsAreSegments, TightAt;
    var chain := ChainOf(leaf, included);
    if TightAlong(env, chain, included, local, q) {
      forall k | 0 <= k < |chain| ensures AuthorizesAt(env, chain, k, included, local, q, now) {
        AuthorizedUpward(env, chain, included, local, clock, q, now, k);
      }
    }
    if forall k :: 0 <= k < |chain| ==> AuthorizesAt(env, chain, k, included, local, q, now) {
      forall k | 0 <= k < |chain| - 1 ensures TightAt(env, chain, k, included, local, q) {
        assert AuthorizesAt(env, chain, k + 1, included, local, q, now);
        LoneTightAt(env, chain, included, local, clock, q, now, k);
      }
    }
  }

  lemma LoneTightAt(env: Env, chain: seq<Entity>, included: Included, local: string, clock: Clock, q: Question,
                    now: u64, k: nat)
    requires HoldsThrough(env, chain, included, local, clock) && (q.Dispatch? ==> PeerIdsAreSegments(env, local))
    requires k + 1 < |chain| && AuthorizesAt(env, chain, k + 1, included, local, q, now)
    requires |TokenAt(chain, k + 1).grants| == 1
    ensures TightAt(env, chain, k, included, local, q)
  {
    hide HoldsThrough, Authorizes, PeerIdsAreSegments, TightStep, Attenuated;
    LinkDelegates(env, chain, included, local, clock, k);
    LoneGrantStep(env, TokenAt(chain, k), TokenAt(chain, k + 1), PeerAt(env, chain, k, included, local).value,
                  PeerAt(env, chain, k + 1, included, local).value, q, local, now);
  }

  lemma LoneGrantStep(env: Env, child: Token, parent: Token, childPeer: string, parentPeer: string, q: Question,
                      local: string, now: u64)
    requires q.Dispatch? ==> PeerIdsAreSegments(env, local)
    requires Attenuated(child, parent, childPeer, parentPeer, local)
    requires |parent.grants| == 1 && Authorizes(env, q, parent, local, parentPeer, now)
    ensures TightStep(env, child, parent, childPeer, parentPeer, q, local)
  {
    AuthorizesByGrant(env, q, parent, local, parentPeer, now);
    hide Admits, Authorizes, Covers, TightRequest, PeerIdsAreSegments;
    forall c | c in child.grants && Admits(env, q, c, local, childPeer)
      ensures TightlyCovered(Asked(q), c, parent.grants, childPeer, parentPeer, local)
    {
      assert SomeGrantCovers(parent.grants, c, parentPeer, childPeer, local);
      CoveredAdmitsExactly(env, q, c, parent.grants[0], childPeer, parentPeer, local);
    }
  }

  // ----- questions that never slip --------------------------------------

  /** Every effective target is concrete, or a pattern free of peer wildcards against excludes
      free of them. */
  ghost predicate PlainRequest(resource: Option<ResourceTarget>, scope: Scope, local: string, peer: string) {
    forall t :: t in EffectiveOf(resource, local) ==> Plain(Canonicalize(t, local), scope, peer)
  }

  ghost predicate PlainAlong(env: Env, chain: seq<Entity>, resource: Option<ResourceTarget>, included: Included,
                             local: string) {
    forall k, c :: 0 <= k < |chain| && Resolved(env, chain, k, included, local) && c in TokenAt(chain, k).grants ==>
      PlainRequest(resource, c.resources, local, PeerAt(env, chain, k, included, local).value)
  }

  lemma PlainStepIsTight(env: Env, child: Token, parent: Token, childPeer: string, parentPeer: string, q: Question,
                         local: string)
    requires Attenuated(child, parent, childPeer, parentPeer, local)
    requires forall c :: c in child.grants ==> PlainRequest(Asked(q), c.resources, local, childPeer)
    ensures TightStep(env, child, parent, childPeer, parentPeer, q, local)
  {
    hide SubPatterns, IdSubset, SubMap, Tight, Plain, Effective, Admits;
    forall c | c in child.grants ensures TightlyCovered(Asked(q), c, parent.grants, childPeer, parentPeer, local) {
      assert SomeGrantCovers(parent.grants, c, parentPeer, childPeer, local);
      var p :| p in parent.grants && Covers(p, c, parentPeer, childPeer, local);
      forall t | t in EffectiveOf(Asked(q), local)
        ensures Tight(Canonicalize(t, local), Asked(q).value.exclude, c.resources, p.resources, childPeer, parentPeer,
                      local)
      {
        assert PlainRequest(Asked(q), c.resources, local, childPeer);
        PlainIsTight(Canonicalize(t, local), Asked(q).value.exclude, c.resources, p.resources, childPeer, parentPeer,
                     local);
      }
    }
  }

  lemma PlainTightAt(env: Env, chain: seq<Entity>, included: Included, local: string, clock: Clock, q: Question, k: nat)
    requires HoldsThrough(env, chain, included, local, clock) && k + 1 < |chain|
    requires PlainAlong(env, chain, Asked(q), included, local)
    ensures TightAt(env, chain, k, included, local, q)
  {
    hide HoldsThrough, PlainRequest, TightStep, Attenuated;
    LinkDelegates(env, chain, included, local, clock, k);
    PlainStepIsTight(env, TokenAt(chain, k), TokenAt(chain, k + 1), PeerAt(env, chain, k, included, local).value,
                     PeerAt(env, chain, k + 1, included, local).value, q, local);
  }

  /** Plain questions never slip, so they never widen. */
  lemma PlainNeverWidens(env: Env, leaf: Entity, included: Included, local: string, clock: Clock, leafPeer: string,
                         q: Question, now: u64, k: nat)
    requires AcceptedFor(env, leaf, included, local, clock, leafPeer)
    requires q.Dispatch? ==> PeerIdsAreSegments(env, local)
    requires Authorizes(env, q, leaf.data.token.value, local, leafPeer, now)
    requires var chain := ChainOf(leaf, included);
             ReadBy(clock, |chain|, now) && k < |chain| && PlainAlong(env, chain, Asked(q), included, local)
    ensures AuthorizesAt(env, ChainOf(leaf, included), k, included, local, q, now)
  {
    AcceptedHoldsThrough(env, leaf, included, local, clock, leafPeer);
    hide Accepts, Authorizes, WalkFrom, HoldsThrough, PlainAlong, TightAt, PeerIdsAreSegments;
    var chain := ChainOf(leaf, included);
    forall i | 0 <= i < |chain| - 1 ensures TightAt(env, chain, i, included, local, q) {
      PlainTightAt(env, chain, included, local, clock, q, i);
    }
    ChainNeverWidens(env, leaf, included, local, clock, leafPeer, q, now, k);
  }

  /** Every concrete question the leaf authorizes, every ancestor authorizes. */
  lemma ConcreteNeverWidens(env: Env, leaf: Entity, included: Included, local: string, clock: Clock, leafPeer: string,
                            q: Question, now: u64, k: nat)
    requires AcceptedFor(env, leaf, included, local, clock, leafPeer)
    requires q.Dispatch? ==> PeerIdsAreSegments(env, local)
    requires Authorizes(env, q, leaf.data.token.value, local, leafPeer, now)
    requires forall t :: t in EffectiveOf(Asked(q), local) ==> !IsPattern(Canonicalize(t, local))
    requires ReadBy(clock, |ChainOf(leaf, included)|, now) && k < |ChainOf(leaf, included)|
    ensures AuthorizesAt(env, ChainOf(leaf, included), k, included, local, q, now)
  {
    assert forall scope, peer :: PlainRequest(Asked(q), scope, local, peer);
    hide Accepts, Authorizes, WalkFrom, PlainRequest, PeerIdsAreSegments;
    PlainNeverWidens(env, leaf, included, local, clock, leafPeer, q, now, k);
  }

  // ----- containment at every ancestor ----------------------------------

  /** Some grant of every ancestor holds every path the leaf grant holds, each in its own
      namespace. */
  lemma HeldByAncestor(env: Env, leaf: Entity, included: Included, local: string, clock: Clock, leafPeer: string,
                       c: Grant, k: nat) returns (p: Grant)
    requires AcceptedFor(env, leaf, included, local, clock, leafPeer) && k < |ChainOf(leaf, included)|
    requires c in leaf.data.token.value.grants
    ensures var chain := ChainOf(leaf, included);
            && Resolved(env, chain, k, included, local) && p in TokenAt(chain, k).grants
            && var peer := PeerAt(env, chain, k, included, local).value;
            && Covers(p, c, peer, leafPeer, local)
            && forall path :: Held(path, c.resources, leafPeer) ==> Held(path, p.resources, peer)
  {
    LeafUnderAncestor(env, leaf, included, local, clock, leafPeer, c, k);
    hide AcceptedFor, WalkFrom, SubPatterns, IdSubset, SubMap, Held;
    var chain := ChainOf(leaf, included);
    var peer := PeerAt(env, chain, k, included, local).value;
    p :| p in TokenAt(chain, k).grants && Covers(p, c, peer, leafPeer, local);
    forall path | Held(path, c.resources, leafPeer) ensures Held(path, p.resources, peer) {
      HeldNarrows(path, c.resources, p.resources, leafPeer, peer);
    }
  }

  /** Delegation checks and request checks together: if a leaf grant admits a request, patterns
      and caller excludes and all, and the caller answers that grant's blind pairs, then every
      string the request names lies inside some grant of every ancestor, in that ancestor's
      namespace, and outside that grant's excludes. */
  lemma RequestStaysInsideAncestors(env: Env, leaf: Entity, included: Included, local: string, clock: Clock,
                                    leafPeer: string, resource: ResourceTarget, c: Grant, fill: string, k: nat)
    requires AcceptedFor(env, leaf, included, local, clock, leafPeer) && k < |ChainOf(leaf, included)|
    requires c in leaf.data.token.value.grants && ResourceAdmitted(Some(resource), c.resources, local, leafPeer)
    requires Unspelled(fill, resource.exclude, local)
    requires BlindPairsAnswered(resource, c.resources, local, leafPeer, fill)
    ensures var chain := ChainOf(leaf, included);
            && Resolved(env, chain, k, included, local)
            && var peer := PeerAt(env, chain, k, included, local).value;
               exists p :: && p in TokenAt(chain, k).grants && Covers(p, c, peer, leafPeer, local)
                           && Contained(resource, p.resources, local, peer)
  {
    ContainmentExactly(resource, c.resources, local, leafPeer, fill);
    hide AcceptedFor, WalkFrom, Covers, Held, Named, BlindPairsAnswered, ResourceAdmitted;
    var p := HeldByAncestor(env, leaf, included, local, clock, leafPeer, c, k);
    assert Contained(resource, p.resources, local, PeerAt(env, ChainOf(leaf, included), k, included, local).value);
  }

  /** The same for the paths a tree can hold, where only blind pairs that share such a path need
      an answer. */
  lemma RealPathsStayInsideAncestors(env: Env, leaf: Entity, included: Included, local: string, clock: Clock,
                                     leafPeer: string, resource: ResourceTarget, c: Grant, fill: string, k: nat)
    requires AcceptedFor(env, leaf, included, local, clock, leafPeer) && k < |ChainOf(leaf, included)|
    requires c in leaf.data.token.value.grants && ResourceAdmitted(Some(resource), c.resources, local, leafPeer)
    requires Unspelled(fill, resource.exclude, local) && IsPeerId(fill)
    requires RealPairsAnswered(resource, c.resources, local, leafPeer, fill)
    ensures var chain := ChainOf(leaf, included);
            && Resolved(env, chain, k, included, local)
            && var peer := PeerAt(env, chain, k, included, local).value;
               exists p :: && p in TokenAt(chain, k).grants && Covers(p, c, peer, leafPeer, local)
                           && RealContained(resource, p.resources, local, peer)
  {
    RealContainmentExactly(resource, c.resources, local, leafPeer, fill);
    hide AcceptedFor, WalkFrom, Covers, Held, Named, Real, RealPairsAnswered, ResourceAdmitted;
    var p := HeldByAncestor(env, leaf, included, local, clock, leafPeer, c, k);
    assert RealContained(resource, p.resources, local, PeerAt(env, ChainOf(leaf, included), k, included, local).value);
  }

  /** A concrete request has no blind pairs to answer. */
  lemma NamedPathsStayInsideAncestors(env: Env, leaf: Entity, included: Included, local: string, clock: Clock,
                                      leafPeer: string, resource: ResourceTarget, c: Grant, k: nat)
    requires AcceptedFor(env, leaf, included, local, clock, leafPeer) && k < |ChainOf(leaf, included)|
    requires c in leaf.data.token.value.grants && ResourceAdmitted(Some(resource), c.resources, local, leafPeer)
    requires forall t :: t in EffectiveOf(Some(resource), local) ==> !IsPattern(Canonicalize(t, local))
    ensures var chain := ChainOf(leaf, included);
            && Resolved(env, chain, k, included, local)
            && exists p :: && p in TokenAt(chain, k).grants
                           && Contained(resource, p.resources, local, PeerAt(env, chain, k, included, local).value)
  {
    var fill := UnspelledExists(resource.exclude, local);
    assert BlindPairsAnswered(resource, c.resources, local, leafPeer, fill);
    hide AcceptedFor, Contained, WalkFrom, BlindPairsAnswered, ResourceAdmitted;
    RequestStaysInsideAncestors(env, leaf, included, local, clock, leafPeer, resource, c, fill, k);
  }

  // ----- unbroken hand-offs ---------------------------------------------

  /** Each link below the root was signed, verifiably, by the identity its parent named as
      grantee; the root by the local peer, or by a quorum the local peer signed in. */
  lemma ChainIsUnbrokenHandOff(env: Env, leaf: Entity, included: Included, local: string, clock: Clock, i: nat)
    requires Accepts(env, leaf, included, local, clock, false) && i < |ChainOf(leaf, included)|
    ensures var chain := ChainOf(leaf, included);
            && chain[i].data.token.Some?
            && var t := TokenAt(chain, i);
            && InWindow(t, clock(i))
            && (i + 1 < |chain| ==>
                  && chain[i + 1].data.token.Some?
                  && t.granter == Single(TokenAt(chain, i + 1).grantee)
                  && SingleSigned(env, chain[i], TokenAt(chain, i + 1).grantee, included, false))
            && (i + 1 == |chain| && t.granter.Single? ==>
                  && SingleSigned(env, chain[i], t.granter.hash, included, false)
                  && PeerIdOf(env, included[t.granter.hash]) == Some(local))
            && (i + 1 == |chain| && t.granter.Multi? ==>
                  && t.granter.threshold <= |Quorum(env, chain[i], t.granter.signers, included, false)|
                  && exists s :: && s in Quorum(env, chain[i], t.granter.signers, included, false)
                                 && PeerIdOf(env, included[s]) == Some(local))
  {
    hide Attenuated, Matchable, WalkFrom, CaveatsAllow;
    var chain := ChainOf(leaf, included);
    assert LinkHolds(env, chain, i, included, local, clock(i), false);
    var t := TokenAt(chain, i);
    if i + 1 == |chain| && t.granter.Multi? {
      var s :| && s in t.granter.signers && LocalSigner(env, s, included, local)
               && SignedBy(env, chain[i], s, included, false);
      assert s in Quorum(env, chain[i], t.granter.signers, included, false);
    }
  }

  /** A token's caveats, as they bear on the chain beneath it: at most `maxDepth` links, none
      at all under no_delegation, and a bounded lifetime for a child that carries an expiry. */
  predicate CaveatsKept(tokens: seq<Token>, j: nat)
    requires 0 < j < |tokens|
  {
    tokens[j].caveats.Some? ==>
      var c, child := tokens[j].caveats.value, tokens[j - 1];
      && c.noDelegation != Some(true)
      && (c.maxDepth.Some? ==> |tokens[..j]| <= c.maxDepth.value)
      && (c.maxTtl.Some? && child.expiresAt.Some? ==>
            Lifetime(child.createdAt, child.expiresAt.value) <= c.maxTtl.value)
  }

  /** An expiry before creation counts as a lifetime of nearly 2^64. */
  function Lifetime(createdAt: u64, expiresAt: u64): nat {
    if createdAt <= expiresAt then expiresAt - createdAt else TWO_64 - (createdAt - expiresAt)
  }

  /** The index-based checks of the walk say exactly that every caveat is kept. */
  lemma CaveatsExactly(tokens: seq<Token>)
    ensures (forall i :: 0 <= i < |tokens| - 1 ==> CaveatsAllow(tokens[i + 1], tokens[i], i))
       <==> (forall j :: 0 < j < |tokens| ==> CaveatsKept(tokens, j))
  {
    hide CaveatsAllow, CaveatsKept;
    if forall i :: 0 <= i < |tokens| - 1 ==> CaveatsAllow(tokens[i + 1], tokens[i], i) {
      forall j | 0 < j < |tokens| ensures CaveatsKept(tokens, j) {
        assert CaveatsAllow(tokens[(j - 1) + 1], tokens[j - 1], j - 1);
        CaveatsAtLink(tokens, j - 1);
      }
    } else {
      var i :| 0 <= i < |tokens| - 1 && !CaveatsAllow(tokens[i + 1], tokens[i], i);
      CaveatsAtLink(tokens, i);
    }
  }

  lemma CaveatsAtLink(tokens: seq<Token>, i: nat)
    requires i < |tokens| - 1
    ensures CaveatsAllow(tokens[i + 1], tokens[i], i) <==> CaveatsKept(tokens, i + 1)
  {
    if tokens[i].expiresAt.Some? { TtlIsLifetime(tokens[i].expiresAt.value, tokens[i].createdAt); }
  }

  lemma TtlIsLifetime(expiresAt: u64, createdAt: u64)
    ensures Ttl(expiresAt, createdAt) == Lifetime(createdAt, expiresAt)
  {
    var d := expiresAt - createdAt;
    if d < 0 { assert d % TWO_64 == d + TWO_64; }
  }

  ghost function TokensOf(chain: seq<Entity>): seq<Token>
    requires forall i :: 0 <= i < |chain| ==> chain[i].data.token.Some?
  {
    seq(|chain|, i requires 0 <= i < |chain| => chain[i].data.token.value)
  }

  /** An accepted chain keeps every caveat of every link. */
  lemma AcceptedChainKeepsCaveats(env: Env, leaf: Entity, included: Included, local: string, clock: Clock, j: nat)
    requires Accepts(env, leaf, included, local, clock, false) && 0 < j < |ChainOf(leaf, included)|
    ensures forall i :: 0 <= i < |ChainOf(leaf, included)| ==> ChainOf(leaf, included)[i].data.token.Some?
    ensures CaveatsKept(TokensOf(ChainOf(leaf, included)), j)
  {
    hide Attenuated, LinkSigned, RootGranted, Matchable, InWindow, WalkFrom, CaveatsAllow, CaveatsKept;
    var chain := ChainOf(leaf, included);
    forall i | 0 <= i < |chain| ensures chain[i].data.token.Some? {
      assert LinkHolds(env, chain, i, included, local, clock(i), false);
    }
    var tokens := TokensOf(chain);
    forall i | 0 <= i < |tokens| - 1 ensures CaveatsAllow(tokens[i + 1], tokens[i], i) {
      assert LinkHolds(env, chain, i, included, local, clock(i), false);
    }
    CaveatsExactly(tokens);
  }
}
