/** Pattern targets can widen: wherever an exclude slips, a link minted on an accepted chain is
    accepted in every iteration order and authorizes a pattern its parent refuses. */
module Widening {
  import opened Patterns
  import opened Overlap
  import opened Tokens
  import opened Scopes
  import opened Permission
  import opened Attenuation
  import opened Authority
  import opened Signatures
  import opened ChainVerification
  import opened NoWidening
  import opened RealPaths
  import opened Mint

  /** A pattern target, an exclude that overlaps it, and a wider exclude that does not seem to. */
  datatype Triple = Triple(target: string, parentExclude: string, childExclude: string)

  predicate Slipping(x: Triple) {
    && IsAbsolute(x.target) && IsAbsolute(x.parentExclude) && IsAbsolute(x.childExclude) && IsPattern(x.target)
    && MatchesPattern(x.parentExclude, x.childExclude)
    && PatternsOverlap(x.target, x.parentExclude) && !PatternsOverlap(x.target, x.childExclude)
  }

  /** There is one for every peer and name: the peer's namespace, the name in it, and the name
      under every peer. */
  lemma SlippingTripleExists(peer: string, name: string)
    requires peer != "" && '/' !in peer && '*' !in peer && !IsPattern(name)
    ensures Slipping(Triple("/" + peer + "/*", "/" + peer + "/" + name, "/*/" + name))
  {
    var target, parentExclude, childExclude := "/" + peer + "/*", "/" + peer + "/" + name, "/*/" + name;
    NamedUnderPeer(peer, name);
    BlindPairExists(peer, name);
    NamedIsConcrete(peer, name);
    hide MatchesPattern, PatternsOverlap, Blind, IsPattern;
    OverlapMissesExactly(target, childExclude);
    OverlapNeverMisses(target, parentExclude, parentExclude);
  }

  lemma NamedIsConcrete(peer: string, name: string)
    requires '*' !in peer && !IsPattern(name)
    ensures var target, parentExclude, childExclude := "/" + peer + "/*", "/" + peer + "/" + name, "/*/" + name;
            && IsAbsolute(target) && IsAbsolute(parentExclude) && IsAbsolute(childExclude)
            && IsPattern(target) && !IsPattern(parentExclude) && MatchesPattern(parentExclude, parentExclude)
  {
    var target, parentExclude, childExclude := "/" + peer + "/*", "/" + peer + "/" + name, "/*/" + name;
    hide MatchesPattern;
    MatchesReflexive(parentExclude);
    assert target[|target| - 1] == '*';
    assert target[0] == '/' && parentExclude[0] == '/' && childExclude[0] == '/';
  }

  // ----- the chain ------------------------------------------------------

  /** The content hashes of the six entities. */
  datatype Hashes = Hashes(localPeer: Hash, delegate: Hash, root: Hash, leaf: Hash, rootSignature: Hash,
                           leafSignature: Hash)

  predicate Distinct(h: Hashes) {
    && |{h.localPeer, h.delegate, h.root, h.leaf, h.rootSignature, h.leafSignature}| == 6
    && !IsZero(h.localPeer) && !IsZero(h.delegate)
    && h.root.algorithm == h.leaf.algorithm
  }

  /** Helpers that accept everything; the local peer is the one with the empty key. */
  function Accepting(local: string, delegate: string): Env {
    Env(s => if '/' in s then None else Some(s), _ => Some(0), (key, kt) => Some(if key == [] then local else delegate),
        (kt, key, message, signature) => true, e => true, t => None, s => None)
  }

  function PeerEntity(h: Hash, key: Bytes): Entity {
    Entity(TYPE_PEER, Data(None, None, Some(PeerData(key, "ed25519"))), h)
  }

  function SignatureEntity(h: Hash, target: Hash, signer: Hash): Entity {
    Entity(TYPE_SIGNATURE, Data(None, Some(SignatureData(target, signer, [])), None), h)
  }

  function GrantOf(target: string, exclude: string): Grant {
    Grant(Scope(["*"], []), Scope([target], [exclude]), Scope(["*"], []), None, map[], map[])
  }

  function RootToken(x: Triple, h: Hashes): Token {
    Token([GrantOf(x.target, x.parentExclude)], Single(h.localPeer), h.delegate, None, 0, None, None, None)
  }

  function LeafToken(x: Triple, h: Hashes): Token {
    Token([GrantOf(x.target, x.childExclude)], Single(h.delegate), h.delegate, Some(h.root), 0, None, None, None)
  }

  function TokenEntity(h: Hash, t: Token): Entity { Entity(TYPE_TOKEN, Data(Some(t), None, None), h) }

  function Envelope(x: Triple, h: Hashes): Included {
    map[h.localPeer := PeerEntity(h.localPeer, []), h.delegate := PeerEntity(h.delegate, [0]),
        h.root := TokenEntity(h.root, RootToken(x, h)), h.leaf := TokenEntity(h.leaf, LeafToken(x, h)),
        h.rootSignature := SignatureEntity(h.rootSignature, h.root, h.localPeer),
        h.leafSignature := SignatureEntity(h.leafSignature, h.leaf, h.delegate)]
  }

  function Links(x: Triple, h: Hashes): seq<Entity> {
    [TokenEntity(h.leaf, LeafToken(x, h)), TokenEntity(h.root, RootToken(x, h))]
  }

  // ----- it is accepted -------------------------------------------------

  lemma EnvelopeLookups(x: Triple, h: Hashes)
    requires Distinct(h)
    ensures var included := Envelope(x, h);
            && h.localPeer in included && included[h.localPeer] == PeerEntity(h.localPeer, [])
            && h.delegate in included && included[h.delegate] == PeerEntity(h.delegate, [0])
            && h.root in included && included[h.root] == TokenEntity(h.root, RootToken(x, h))
            && h.rootSignature in included && h.leafSignature in included
            && included[h.rootSignature] == SignatureEntity(h.rootSignature, h.root, h.localPeer)
            && included[h.leafSignature] == SignatureEntity(h.leafSignature, h.leaf, h.delegate)
    ensures h.root != h.leaf
  {
  }

  lemma EnvelopeKeyed(x: Triple, h: Hashes)
    requires Distinct(h)
    ensures var included := Envelope(x, h);
            && (forall k :: k in included ==> included[k].contentHash == k)
            && (forall e :: e in included.Values && e.kind == TYPE_SIGNATURE ==>
                  || e == SignatureEntity(h.rootSignature, h.root, h.localPeer)
                  || e == SignatureEntity(h.leafSignature, h.leaf, h.delegate))
  {
  }

  lemma LinksSigned(x: Triple, h: Hashes, local: string, delegate: string)
    requires Distinct(h)
    ensures SingleSigned(Accepting(local, delegate), Links(x, h)[0], h.delegate, Envelope(x, h), true)
    ensures SingleSigned(Accepting(local, delegate), Links(x, h)[1], h.localPeer, Envelope(x, h), true)
  {
    EnvelopeLookups(x, h);
    EnvelopeKeyed(x, h);
    hide Envelope, Distinct;
    var included := Envelope(x, h);
    assert included[h.leafSignature] in included.Values && included[h.rootSignature] in included.Values;
    assert GoodSignature(Accepting(local, delegate), Links(x, h)[0], h.delegate, included, included[h.leafSignature]);
    assert GoodSignature(Accepting(local, delegate), Links(x, h)[1], h.localPeer, included, included[h.rootSignature]);
  }

  lemma SingletonSubPatterns(inner: string, outer: string, innerPeer: string, outerPeer: string)
    requires IsAbsolute(inner) && IsAbsolute(outer) && MatchesPattern(inner, outer)
    ensures SubPatterns(CanonAll([inner], innerPeer), CanonAll([outer], outerPeer))
  {
    AbsoluteIsCanonical(inner, innerPeer);
    AbsoluteIsCanonical(outer, outerPeer);
    assert CanonAll([inner], innerPeer) == [inner] && CanonAll([outer], outerPeer) == [outer];
    assert outer in [outer];
  }

  lemma LeafCovered(x: Triple, childPeer: string, parentPeer: string, local: string)
    requires Slipping(x)
    ensures Covers(GrantOf(x.target, x.parentExclude), GrantOf(x.target, x.childExclude), parentPeer, childPeer, local)
  {
    hide MatchesPattern, PatternsOverlap, CanonAll;
    MatchesReflexive(x.target);
    MatchesReflexive("*");
    SubPatternsReflexive(["*"]);
    SingletonSubPatterns(x.target, x.target, childPeer, parentPeer);
    SingletonSubPatterns(x.parentExclude, x.childExclude, parentPeer, childPeer);
    hide SubPatterns;
    assert forall p: string :: IdMatches(p, p);
  }

  lemma GrantMatchable(target: string, exclude: string)
    requires IsAbsolute(target) && IsAbsolute(exclude)
    ensures Matchable([GrantOf(target, exclude)])
  {
    assert target[0] == '/' && exclude[0] == '/';
    assert !IsUnmatchable(target) && !IsUnmatchable(exclude) && !IsUnmatchable("*");
    hide IsUnmatchable, IsAbsolute;
  }

  lemma GrantersResolved(x: Triple, h: Hashes, local: string, delegate: string)
    requires Distinct(h)
    ensures GranterPeer(Accepting(local, delegate), Single(h.delegate), Envelope(x, h), local) == Some(delegate)
    ensures GranterPeer(Accepting(local, delegate), Single(h.localPeer), Envelope(x, h), local) == Some(local)
  {
    EnvelopeLookups(x, h);
    assert !IsZero(h.localPeer) && !IsZero(h.delegate);
    hide Envelope, Distinct, IsZero, GrantOf;
  }

  lemma LeafDelegated(x: Triple, h: Hashes, local: string, delegate: string)
    requires Slipping(x) && Distinct(h)
    ensures Delegates(Accepting(local, delegate), LeafToken(x, h), RootToken(x, h), 0, Envelope(x, h), local)
  {
    GrantersResolved(x, h, local, delegate);
    LeafMintAttenuates(x, LeafToken(x, h), RootToken(x, h), delegate, local, local);
    hide Envelope, Distinct, Slipping, Accepting, GranterPeer, Attenuated, GrantOf;
  }

  lemma TokensInOrder(x: Triple, h: Hashes, now: u64)
    requires Slipping(x) && Distinct(h)
    ensures forall t :: t == LeafToken(x, h) || t == RootToken(x, h) ==>
              ValidStructure(t) && Matchable(t.grants) && InWindow(t, now) && GranteeResolves(t, Envelope(x, h))
  {
    EnvelopeLookups(x, h);
    GrantMatchable(x.target, x.childExclude);
    GrantMatchable(x.target, x.parentExclude);
    hide Envelope, Distinct, Matchable, Slipping, IsZero, GrantOf;
  }

  lemma SingleLinkHolds(env: Env, chain: seq<Entity>, i: nat, included: Included, local: string, now: u64, t: Token)
    requires i < |chain| && chain[i].data.token == Some(t) && t.granter.Single?
    requires ValidStructure(t) && Matchable(t.grants) && InWindow(t, now) && GranteeResolves(t, included)
    requires SingleSigned(env, chain[i], t.granter.hash, included, true)
    requires i == |chain| - 1 ==> LocalSigner(env, t.granter.hash, included, local)
    requires i < |chain| - 1 ==>
               chain[i + 1].data.token.Some? && Delegates(env, t, chain[i + 1].data.token.value, i, included, local)
    ensures LinkHolds(env, chain, i, included, local, now, true)
  {
    hide ValidStructure, Matchable, InWindow, GranteeResolves, SingleSigned, LocalSigner, Delegates;
  }

  lemma LinksHold(x: Triple, h: Hashes, local: string, delegate: string, now: u64, i: nat)
    requires Slipping(x) && Distinct(h) && i < 2
    ensures LinkHolds(Accepting(local, delegate), Links(x, h), i, Envelope(x, h), local, now, true)
  {
    TokensInOrder(x, h, now);
    LinksSigned(x, h, local, delegate);
    LeafDelegated(x, h, local, delegate);
    LocalIsSigner(x, h, local, delegate);
    hide Envelope, Distinct, Matchable, Delegates, SingleSigned, Slipping, GrantOf, ValidStructure, InWindow,
         GranteeResolves, LocalSigner, LinkHolds, Accepting;
    SingleLinkHolds(Accepting(local, delegate), Links(x, h), i, Envelope(x, h), local, now,
                    if i == 0 then LeafToken(x, h) else RootToken(x, h));
  }

  lemma LocalIsSigner(x: Triple, h: Hashes, local: string, delegate: string)
    requires Distinct(h)
    ensures LocalSigner(Accepting(local, delegate), h.localPeer, Envelope(x, h), local)
  {
    EnvelopeLookups(x, h);
    hide Envelope, Distinct;
  }

  lemma ChainWalked(x: Triple, h: Hashes)
    requires Distinct(h)
    ensures Walk(IncludedResolver(Envelope(x, h)), Links(x, h)[0]) == Ok(Links(x, h))
  {
    EnvelopeLookups(x, h);
    assert h.root.algorithm == h.leaf.algorithm;
    hide Envelope, Distinct, WalkFrom, GrantOf;
    assert ParentOf(IncludedResolver(Envelope(x, h)), Links(x, h)[0], Links(x, h)[1]);
    WalkExactly(IncludedResolver(Envelope(x, h)), Links(x, h)[0], Links(x, h));
  }

  lemma ChainAccepted(x: Triple, h: Hashes, local: string, delegate: string, clock: Clock)
    requires Slipping(x) && Distinct(h)
    ensures Walk(IncludedResolver(Envelope(x, h)), Links(x, h)[0]) == Ok(Links(x, h))
    ensures Accepts(Accepting(local, delegate), Links(x, h)[0], Envelope(x, h), local, clock, true)
  {
    EnvelopeKeyed(x, h);
    ChainWalked(x, h);
    hide Envelope, Distinct, LinkHolds, WalkFrom, Slipping, TokenEntity;
    forall i | 0 <= i < 2
      ensures LinkHolds(Accepting(local, delegate), Links(x, h), i, Envelope(x, h), local, clock(i), true)
    {
      LinksHold(x, h, local, delegate, clock(i), i);
    }
  }

  // ----- and widens -----------------------------------------------------

  lemma ScopesPart(x: Triple, local: string, childPeer: string, parentPeer: string)
    requires Slipping(x)
    ensures Covered(x.target, [x.target], local, childPeer) && Reached(x.target, [x.target], childPeer)
    ensures Clears(x.target, x.childExclude, [], local, childPeer)
    ensures !Clears(x.target, x.parentExclude, [], local, parentPeer)
    ensures Canonicalize(x.target, local) == x.target
  {
    hide PatternsOverlap;
    AbsoluteIsCanonical(x.target, local);
    AbsoluteIsCanonical(x.target, childPeer);
    AbsoluteIsCanonical(x.childExclude, childPeer);
    AbsoluteIsCanonical(x.parentExclude, parentPeer);
    MatchesReflexive(x.target);
    assert x.target in [x.target] && x.childExclude[0] == '/';
  }

  lemma OtherDimensions(env: Env, g: Grant, operation: string, local: string)
    requires g.handlers == Scope(["*"], []) && g.operations == Scope(["*"], []) && g.peers.None?
    ensures InIdScope(operation, g.operations) && InPathScope("h", g.handlers)
    ensures InPeerScope(env, TargetPeer(Request("", operation, None), "h", local), PeersOf(g, local))
  {
    assert "*" in ["*"] && local in [local];
    assert MatchesPattern("h", "*");
    assert FirstSegment("h") == "h";
  }

  function RequestFor(x: Triple, operation: string, relaxPeers: bool): Question {
    Dispatch(Request("", operation, Some(ResourceTarget([x.target], []))), "h", relaxPeers)
  }

  function SubjectFor(x: Triple, operation: string): Question { PathLevel(operation, x.target, "h") }

  lemma LeafGrantAdmits(env: Env, x: Triple, local: string, childPeer: string, operation: string, relaxPeers: bool)
    requires Slipping(x)
    ensures var g := GrantOf(x.target, x.childExclude);
            && Admits(env, RequestFor(x, operation, relaxPeers), g, local, childPeer)
            && Admits(env, SubjectFor(x, operation), g, local, childPeer)
  {
    ScopesPart(x, local, childPeer, local);
    var g := GrantOf(x.target, x.childExclude);
    OtherDimensions(env, g, operation, local);
    forall t ensures t in EffectiveOf(Some(ResourceTarget([x.target], [])), local) <==> t == x.target {
      LoneEffective(x.target, local, t);
    }
    hide Covered, MatchesPattern, PatternsOverlap, Canonicalize, InIdScope, InPathScope, InPeerScope, Effective,
         ExtractPeer, Slipping;
    assert TargetAdmitted(x.target, [], g.resources, local, childPeer);
    assert PathAdmitted(x.target, g.resources, local, childPeer);
  }

  lemma ParentGrantRefuses(env: Env, x: Triple, local: string, parentPeer: string, operation: string, relaxPeers: bool)
    requires Slipping(x)
    ensures var g := GrantOf(x.target, x.parentExclude);
            && !Admits(env, RequestFor(x, operation, relaxPeers), g, local, parentPeer)
            && !Admits(env, SubjectFor(x, operation), g, local, parentPeer)
  {
    ScopesPart(x, local, local, parentPeer);
    var g := GrantOf(x.target, x.parentExclude);
    LoneEffective(x.target, local, x.target);
    assert x.parentExclude in g.resources.excludes;
    hide Covered, MatchesPattern, PatternsOverlap, Canonicalize, InIdScope, InPathScope, InPeerScope, Effective,
         ExtractPeer, Slipping;
    assert !TargetAdmitted(x.target, [], g.resources, local, parentPeer);
    assert !SubjectClears(x.target, x.parentExclude, parentPeer);
  }

  /** A token with the child grant authorizes what one with the parent grant refuses, in any
      environment. */
  lemma ChildAuthorizesParentRefuses(env: Env, x: Triple, child: Token, parent: Token, local: string, childPeer: string,
                                     parentPeer: string, operation: string, now: u64, relaxPeers: bool, q: Question)
    requires Slipping(x) && (q == RequestFor(x, operation, relaxPeers) || q == SubjectFor(x, operation))
    requires child.grants == [GrantOf(x.target, x.childExclude)] && InWindow(child, now)
    requires parent.grants == [GrantOf(x.target, x.parentExclude)]
    ensures Authorizes(env, q, child, local, childPeer, now)
    ensures !Authorizes(env, q, parent, local, parentPeer, now)
  {
    LeafGrantAdmits(env, x, local, childPeer, operation, relaxPeers);
    ParentGrantRefuses(env, x, local, parentPeer, operation, relaxPeers);
    hide Admits, Authorizes, Slipping, GrantOf, RequestFor, SubjectFor, InWindow;
    LoneGrantDecides(env, q, child, GrantOf(x.target, x.childExclude), local, childPeer, now);
    LoneGrantDecides(env, q, parent, GrantOf(x.target, x.parentExclude), local, parentPeer, now);
  }

  lemma LoneGrantDecides(env: Env, q: Question, t: Token, g: Grant, local: string, peer: string, now: u64)
    requires t.grants == [g]
    ensures Authorizes(env, q, t, local, peer, now) <==> InWindow(t, now) && Admits(env, q, g, local, peer)
  {
    AuthorizesByGrant(env, q, t, local, peer, now);
    hide Admits, Authorizes, InWindow;
    assert g in t.grants;
  }

  // ----- in every environment -------------------------------------------

  function LeafMinted(x: Triple, signer: Hash, grantee: Hash, parent: Entity, createdAt: u64, expiresAt: Option<u64>)
    : Token
  {
    MintedToken(signer, grantee, parent.contentHash, [GrantOf(x.target, x.childExclude)], createdAt, expiresAt)
  }

  /** A parent chain accepted one link later, its last grant the triple's, with room for a link
      under its caveats. */
  ghost predicate WidenableParent(env: Env, x: Triple, parent: Entity, included: Included, local: string,
                                  clock: Clock) {
    && Accepts(env, parent, included, local, Later(clock), true)
    && parent.contentHash in included && included[parent.contentHash] == parent
    && parent.data.token.Some? && parent.data.token.value.grants == [GrantOf(x.target, x.parentExclude)]
    && |ChainOf(parent, included)| <= MAX_CHAIN_DEPTH && ShiftedCaveatsAllow(ChainOf(parent, included))
  }

  lemma MintedLeafAccepted(env: Env, x: Triple, key: Keypair, signer: Hash, grantee: Hash, parent: Entity,
                           createdAt: u64, expiresAt: Option<u64>, included: Included, local: string, clock: Clock,
                           cap: Entity, sig: Entity)
    requires Slipping(x) && FaithfulCodec(env) && WidenableParent(env, x, parent, included, local, clock)
    requires MintReattenuated(env, key, signer, grantee, parent, [GrantOf(x.target, x.childExclude)], createdAt,
                              expiresAt) == Ok((cap, sig))
    requires FreshPair(parent, included, cap, sig) && ExpiryWithin(expiresAt, parent.data.token.value.expiresAt)
    requires var t := LeafMinted(x, signer, grantee, parent, createdAt, expiresAt);
             SignerDuties(env, key, signer, parent, included, local, clock(0), t)
    ensures Accepts(env, cap, Extended(included, cap, sig), local, clock, true)
  {
    var t, p := LeafMinted(x, signer, grantee, parent, createdAt, expiresAt), parent.data.token.value;
    LeafMintAttenuates(x, t, p, GranterPeer(env, Single(signer), included, local).value,
                       GranterPeer(env, p.granter, included, local).value, local);
    hide Accepts, FreshPair, SignerDuties, ShiftedCaveatsAllow, Slipping, FaithfulCodec, Matchable, Attenuated,
         MintReattenuated, GrantOf, Extended;
    MintedCapabilityIsAccepted(env, key, signer, grantee, parent, [GrantOf(x.target, x.childExclude)], createdAt,
                               expiresAt, included, local, clock, cap, sig);
  }

  /** Under any faithful codec and any accepted parent whose one grant is the triple's, the leaf
      MintReattenuated builds with the wider exclude is accepted in every order and authorizes
      the target its parent refuses, at both levels. */
  lemma MintedLeafWidens(env: Env, x: Triple, key: Keypair, signer: Hash, grantee: Hash, parent: Entity, createdAt: u64,
                         expiresAt: Option<u64>, included: Included, local: string, clock: Clock, cap: Entity,
                         sig: Entity, operation: string, now: u64, relaxPeers: bool, q: Question)
    requires Slipping(x) && FaithfulCodec(env) && WidenableParent(env, x, parent, included, local, clock)
    requires MintReattenuated(env, key, signer, grantee, parent, [GrantOf(x.target, x.childExclude)], createdAt,
                              expiresAt) == Ok((cap, sig))
    requires FreshPair(parent, included, cap, sig) && ExpiryWithin(expiresAt, parent.data.token.value.expiresAt)
    requires var t := LeafMinted(x, signer, grantee, parent, createdAt, expiresAt);
             SignerDuties(env, key, signer, parent, included, local, clock(0), t)
    requires !Expired(expiresAt, now)
    requires q == RequestFor(x, operation, relaxPeers) || q == SubjectFor(x, operation)
    ensures Accepts(env, cap, Extended(included, cap, sig), local, clock, true)
    ensures var t, p := LeafMinted(x, signer, grantee, parent, createdAt, expiresAt), parent.data.token.value;
            && cap.data.token == Some(t)
            && Authorizes(env, q, t, local, GranterPeer(env, t.granter, included, local).value, now)
            && !Authorizes(env, q, p, local, GranterPeer(env, p.granter, included, local).value, now)
  {
    var t, p := LeafMinted(x, signer, grantee, parent, createdAt, expiresAt), parent.data.token.value;
    assert InWindow(t, now) && cap.data.token == Some(t);
    MintedLeafAccepted(env, x, key, signer, grantee, parent, createdAt, expiresAt, included, local, clock, cap, sig);
    hide Accepts, FreshPair, KeyMatches, Slipping, FaithfulCodec, Authorizes, RequestFor, SubjectFor, GrantOf, Extended,
         MintReattenuated, ShiftedCaveatsAllow;
    ChildAuthorizesParentRefuses(env, x, t, p, local, GranterPeer(env, t.granter, included, local).value,
                                 GranterPeer(env, p.granter, included, local).value, operation, now, relaxPeers, q);
  }

  lemma LeafMintAttenuates(x: Triple, t: Token, p: Token, childPeer: string, parentPeer: string, local: string)
    requires Slipping(x) && ExpiryWithin(t.expiresAt, p.expiresAt)
    requires t.grants == [GrantOf(x.target, x.childExclude)] && p.grants == [GrantOf(x.target, x.parentExclude)]
    ensures Matchable(t.grants) && Attenuated(t, p, childPeer, parentPeer, local)
  {
    LeafCovered(x, childPeer, parentPeer, local);
    GrantMatchable(x.target, x.childExclude);
    hide Covers, Slipping, Matchable, GrantOf;
    assert p.grants[0] in p.grants;
    assert SomeGrantCovers(p.grants, t.grants[0], parentPeer, childPeer, local);
  }

  // ----- outright -------------------------------------------------------

  /** Such chains exist: every slipping triple gives an accepted two-link chain whose leaf
      authorizes the pattern target and whose root refuses it, at both levels. */
  lemma AcceptedChainWidens(x: Triple, h: Hashes, local: string, delegate: string, operation: string, clock: Clock,
                            now: u64, relaxPeers: bool, q: Question)
    requires Slipping(x) && Distinct(h)
    requires q == RequestFor(x, operation, relaxPeers) || q == SubjectFor(x, operation)
    ensures var env, leaf, included := Accepting(local, delegate), Links(x, h)[0], Envelope(x, h);
            && Accepts(env, leaf, included, local, clock, true)
            && ChainOf(leaf, included) == Links(x, h)
            && AuthorizesAt(env, Links(x, h), 0, included, local, q, now)
            && Resolved(env, Links(x, h), 1, included, local)
            && !AuthorizesAt(env, Links(x, h), 1, included, local, q, now)
  {
    ChainAccepted(x, h, local, delegate, clock);
    LinksResolved(x, h, local, delegate);
    ChildAuthorizesParentRefuses(Accepting(local, delegate), x, LeafToken(x, h), RootToken(x, h), local, delegate,
                                 local, operation, now, relaxPeers, q);
    hide Envelope, Distinct, Accepts, Authorizes, WalkFrom, Slipping, GrantOf, RequestFor, SubjectFor, Accepting,
         PeerAt;
  }

  lemma LinksResolved(x: Triple, h: Hashes, local: string, delegate: string)
    requires Distinct(h)
    ensures var env, included := Accepting(local, delegate), Envelope(x, h);
            && PeerAt(env, Links(x, h), 0, included, local) == Some(delegate)
            && PeerAt(env, Links(x, h), 1, included, local) == Some(local)
  {
    GrantersResolved(x, h, local, delegate);
    hide Envelope, Distinct, Accepting, GranterPeer, GrantOf;
  }
}
