/** What VerifyChain accepts, spelled out on the envelope: a declarative description of an
    accepted chain that uses the records, the helpers and the languages of patterns, and none
    of the verifier's own vocabulary. */
module AcceptedChains {
  import opened Patterns
  import opened Tokens
  import opened Attenuation
  import opened Verdicts
  import opened Authority
  import opened Signatures
  import opened ChainVerification

  // ----- signatures and identities --------------------------------------

  /** `e` carries bytes that verify over the link's hash under the key that `signer` publishes
      in the envelope. */
  ghost predicate SignedOver(env: Env, link: Entity, signer: Hash, included: Included, e: Entity) {
    && e.kind == "system/signature" && e.data.signature.Some?
    && e.data.signature.value.target == link.contentHash
    && e.data.signature.value.signer == signer
    && signer in included && included[signer].data.peer.Some?
    && var peer := included[signer].data.peer.value;
    && env.keyType(peer.keyType).Some?
    && env.verify(env.keyType(peer.keyType).value, peer.publicKey, WireBytes(link.contentHash),
                  e.data.signature.value.signature)
  }

  ghost predicate HasSignature(env: Env, link: Entity, signer: Hash, included: Included) {
    exists e :: e in included.Values && SignedOver(env, link, signer, included, e)
  }

  /** The peer id derived from the key an entity publishes. */
  ghost predicate Publishes(env: Env, ent: Entity, peer: string) {
    && ent.data.peer.Some? && env.keyType(ent.data.peer.value.keyType).Some?
    && env.derivePeer(ent.data.peer.value.publicKey, env.keyType(ent.data.peer.value.keyType).value) == Some(peer)
  }

  ghost predicate AllZero(h: Hash) {
    h.algorithm == 0 && forall b :: b in h.digest ==> b == 0
  }

  /** Whose namespace a token's patterns are read in. */
  ghost predicate ReadsIn(env: Env, granter: Granter, included: Included, local: string, peer: string) {
    match granter
    case Multi(_, _) => peer == local
    case Single(h) =>
      if AllZero(h) then peer == local
      else h in included && included[h].kind == "system/peer" && Publishes(env, included[h], peer)
  }

  ghost predicate GranterSigned(env: Env, link: Entity, granter: Granter, included: Included) {
    match granter
    case Single(g) => HasSignature(env, link, g, included)
    case Multi(signers, threshold) => HasQuorum(env, link, signers, threshold, included)
  }

  /** As many distinct signers as the threshold asks for, each with a signature that verifies. */
  ghost predicate HasQuorum(env: Env, link: Entity, signers: seq<Hash>, threshold: nat, included: Included) {
    exists quorum: set<Hash> :: && |quorum| == threshold
                                && forall s :: s in quorum ==> s in signers && HasSignature(env, link, s, included)
  }

  ghost predicate LocallyGranted(env: Env, root: Entity, granter: Granter, included: Included, local: string) {
    match granter
    case Single(g) => g in included && Publishes(env, included[g], local)
    case Multi(signers, _) =>
      exists s :: && s in signers && s in included && Publishes(env, included[s], local)
                  && HasSignature(env, root, s, included)
  }

  // ----- one link -------------------------------------------------------

  ghost predicate NoneReserved(patterns: seq<string>) {
    forall p :: p in patterns ==> !Reserved(p)
  }

  /** A token fit to be a link: granter, grantee, patterns and window. */
  ghost predicate FitToken(t: Token, now: u64) {
    && (match t.granter
        case Single(_) => true
        case Multi(signers, threshold) =>
          && t.parent.None? && 2 <= threshold <= |signers|
          && forall i, j :: 0 <= i < j < |signers| ==> signers[i] != signers[j])
    && !AllZero(t.grantee)
    && (forall g :: g in t.grants ==>
          && NoneReserved(g.handlers.includes) && NoneReserved(g.handlers.excludes)
          && NoneReserved(g.resources.includes) && NoneReserved(g.resources.excludes))
    && WithinWindow(t, now)
  }

  /** A child's lifetime; an expiry before creation counts as nearly 2^64. */
  function LifetimeOf(t: Token): nat
    requires t.expiresAt.Some?
  {
    var e := t.expiresAt.value;
    if t.createdAt <= e then e - t.createdAt else 0x1_0000_0000_0000_0000 - (t.createdAt - e)
  }

  /** The parent's caveats allow the child, with `beneath` links below the parent. */
  ghost predicate CaveatsPermit(parent: Token, child: Token, beneath: nat) {
    parent.caveats.Some? ==>
      var c := parent.caveats.value;
      && c.noDelegation != Some(true)
      && (c.maxDepth.Some? ==> beneath <= c.maxDepth.value)
      && (c.maxTtl.Some? && child.expiresAt.Some? ==> LifetimeOf(child) <= c.maxTtl.value)
  }

  ghost predicate HandedDown(env: Env, parent: Token, child: Token, beneath: nat, included: Included, local: string) {
    && child.granter == Single(parent.grantee)
    && CaveatsPermit(parent, child, beneath)
    && exists childPeer, parentPeer :: && ReadsIn(env, child.granter, included, local, childPeer)
                                       && ReadsIn(env, parent.granter, included, local, parentPeer)
                                       && TokenWithin(child, parent, childPeer, parentPeer, local)
  }

  ghost predicate LinkStands(env: Env, chain: seq<Entity>, i: nat, included: Included, local: string, now: u64)
    requires i < |chain|
  {
    && chain[i].data.token.Some?
    && var t := chain[i].data.token.value;
    && FitToken(t, now)
    && t.grantee in included && included[t.grantee].kind == "system/peer"
    && GranterSigned(env, chain[i], t.granter, included)
    && if i == |chain| - 1 then LocallyGranted(env, chain[i], t.granter, included, local)
       else && chain[i + 1].data.token.Some?
            && HandedDown(env, chain[i + 1].data.token.value, t, i + 1, included, local)
  }

  /** From the leaf to a token without a parent, each next link filed under the hash its child
      names as parent; at most 65 links, all of one hash format. */
  ghost predicate LeadsToRoot(leaf: Entity, included: Included, chain: seq<Entity>) {
    && 1 <= |chain| <= 65 && chain[0] == leaf
    && (forall i :: 0 <= i < |chain| ==>
          chain[i].contentHash.algorithm == leaf.contentHash.algorithm && LeadsOn(included, chain, i))
  }

  ghost predicate LeadsOn(included: Included, chain: seq<Entity>, i: nat)
    requires i < |chain|
  {
    && chain[i].data.token.Some?
    && var parent := chain[i].data.token.value.parent;
       if i == |chain| - 1 then parent.None?
       else parent.Some? && parent.value in included && included[parent.value] == chain[i + 1]
  }

  // ----- the meaning of acceptance --------------------------------------

  lemma PublishesExactly(env: Env, ent: Entity, peer: string)
    ensures Publishes(env, ent, peer) <==> PeerIdOf(env, ent) == Some(peer)
  {
  }

  lemma SignedOverExactly(env: Env, link: Entity, signer: Hash, included: Included, e: Entity)
    ensures SignedOver(env, link, signer, included, e) <==> GoodSignature(env, link, signer, included, e)
  {
    hide WireBytes;
  }

  lemma HasSignatureExactly(env: Env, link: Entity, signer: Hash, included: Included)
    ensures HasSignature(env, link, signer, included) <==> SingleSigned(env, link, signer, included, false)
    ensures HasSignature(env, link, signer, included) <==> SignedBy(env, link, signer, included, false)
  {
    forall e ensures SignedOver(env, link, signer, included, e) <==> GoodSignature(env, link, signer, included, e) {
      SignedOverExactly(env, link, signer, included, e);
    }
    assert forall e :: GoodSignature(env, link, signer, included, e) ==>
        SignatureOn(e, link.contentHash) && SignatureBy(e, link.contentHash, signer);
    hide SignedOver, GoodSignature, SignatureOn, SignatureBy;
  }

  lemma {:induction false} SubsetOfSize(a: set<Hash>, n: nat) returns (b: set<Hash>)
    requires n <= |a|
    ensures b <= a && |b| == n
    decreases |a|
  {
    if n == |a| {
      b := a;
    } else {
      var x :| x in a;
      b := SubsetOfSize(a - {x}, n);
    }
  }

  lemma GranterSignedExactly(env: Env, link: Entity, granter: Granter, included: Included)
    requires granter.Multi? ==> 2 <= granter.threshold
    ensures GranterSigned(env, link, granter, included) <==> LinkSigned(env, link, granter, included, false)
  {
    forall s ensures HasSignature(env, link, s, included) <==> SingleSigned(env, link, s, included, false)
             ensures HasSignature(env, link, s, included) <==> SignedBy(env, link, s, included, false)
    {
      HasSignatureExactly(env, link, s, included);
    }
    hide HasSignature, SingleSigned, SignedBy;
    match granter
    case Single(_) =>
    case Multi(signers, threshold) =>
      var all := Quorum(env, link, signers, included, false);
      forall quorum: set<Hash> | forall s :: s in quorum ==> s in signers && HasSignature(env, link, s, included)
        ensures |quorum| <= |all|
      {
        SubsetCardinality(quorum, all);
      }
      if threshold <= |all| {
        var quorum := SubsetOfSize(all, threshold);
      }
  }

  lemma LocallyGrantedExactly(env: Env, root: Entity, granter: Granter, included: Included, local: string)
    ensures LocallyGranted(env, root, granter, included, local)
       <==> RootGranted(env, root, granter, included, local, false)
  {
    forall s ensures HasSignature(env, root, s, included) <==> SignedBy(env, root, s, included, false) {
      HasSignatureExactly(env, root, s, included);
    }
    forall ent ensures Publishes(env, ent, local) <==> PeerIdOf(env, ent) == Some(local) {
      PublishesExactly(env, ent, local);
    }
    hide HasSignature, SignedBy, Publishes, PeerIdOf;
  }

  lemma AllZeroExactly(h: Hash)
    ensures AllZero(h) <==> IsZero(h)
  {
    if AllZero(h) { assert forall i :: 0 <= i < |h.digest| ==> h.digest[i] in h.digest; }
  }

  lemma ReadsInExactly(env: Env, granter: Granter, included: Included, local: string, peer: string)
    ensures ReadsIn(env, granter, included, local, peer) <==> GranterPeer(env, granter, included, local) == Some(peer)
  {
    if granter.Single? {
      AllZeroExactly(granter.hash);
      if granter.hash in included { PublishesExactly(env, included[granter.hash], peer); }
    }
    hide AllZero, IsZero, Publishes, PeerIdOf;
  }

  lemma FitTokenExactly(t: Token, now: u64)
    ensures FitToken(t, now) <==> ValidStructure(t) && Matchable(t.grants) && InWindow(t, now)
  {
    AllZeroExactly(t.grantee);
    forall p ensures Reserved(p) <==> IsUnmatchable(p) { UnmatchableForms(p); }
    hide AllZero, IsZero, Reserved, IsUnmatchable;
    assert forall patterns :: NoneReserved(patterns) <==> AllMatchable(patterns);
    hide NoneReserved, AllMatchable;
  }

  lemma CaveatsPermitExactly(parent: Token, child: Token, i: nat)
    ensures CaveatsPermit(parent, child, i + 1) <==> CaveatsAllow(parent, child, i)
  {
    if child.expiresAt.Some? {
      var d := child.expiresAt.value - child.createdAt;
      if d < 0 { assert d % TWO_64 == d + TWO_64; }
    }
  }

  lemma HandedDownExactly(env: Env, parent: Token, child: Token, i: nat, included: Included, local: string)
    ensures HandedDown(env, parent, child, i + 1, included, local)
       <==> Delegates(env, child, parent, i, included, local)
  {
    CaveatsPermitExactly(parent, child, i);
    forall peer
      ensures ReadsIn(env, child.granter, included, local, peer)
         <==> GranterPeer(env, child.granter, included, local) == Some(peer)
      ensures ReadsIn(env, parent.granter, included, local, peer)
         <==> GranterPeer(env, parent.granter, included, local) == Some(peer)
    {
      ReadsInExactly(env, child.granter, included, local, peer);
      ReadsInExactly(env, parent.granter, included, local, peer);
    }
    forall childPeer, parentPeer
      ensures TokenWithin(child, parent, childPeer, parentPeer, local)
         <==> Attenuated(child, parent, childPeer, parentPeer, local)
    {
      AttenuatedMeaning(child, parent, childPeer, parentPeer, local);
    }
    hide CaveatsPermit, CaveatsAllow, ReadsIn, GranterPeer, TokenWithin, Attenuated;
    if Delegates(env, child, parent, i, included, local) {
      var childPeer := GranterPeer(env, child.granter, included, local).value;
      var parentPeer := GranterPeer(env, parent.granter, included, local).value;
      assert ReadsIn(env, child.granter, included, local, childPeer);
      assert ReadsIn(env, parent.granter, included, local, parentPeer);
    }
  }

  lemma LinkStandsExactly(env: Env, chain: seq<Entity>, i: nat, included: Included, local: string, now: u64)
    requires i < |chain|
    ensures LinkStands(env, chain, i, included, local, now) <==> LinkHolds(env, chain, i, included, local, now, false)
  {
    if chain[i].data.token.Some? {
      var t := chain[i].data.token.value;
      FitTokenExactly(t, now);
      assert FitToken(t, now) && t.granter.Multi? ==> 2 <= t.granter.threshold;
      if FitToken(t, now) { GranterSignedExactly(env, chain[i], t.granter, included); }
      LocallyGrantedExactly(env, chain[i], t.granter, included, local);
      if i < |chain| - 1 && chain[i + 1].data.token.Some? {
        HandedDownExactly(env, chain[i + 1].data.token.value, t, i, included, local);
      }
    }
    hide FitToken, ValidStructure, Matchable, InWindow, GranterSigned, LinkSigned, LocallyGranted, RootGranted,
         HandedDown, Delegates;
  }

  lemma LeadsToRootExactly(leaf: Entity, included: Included, chain: seq<Entity>)
    ensures LeadsToRoot(leaf, included, chain) <==> Walk(IncludedResolver(included), leaf) == Ok(chain)
  {
    WalkExactly(IncludedResolver(included), leaf, chain);
    hide WalkFrom;
    var resolve := IncludedResolver(included);
    if LeadsToRoot(leaf, included, chain) {
      assert LeadsOn(included, chain, |chain| - 1);
      forall i | 0 <= i < |chain| - 1 ensures ParentOf(resolve, chain[i], chain[i + 1]) {
        assert LeadsOn(included, chain, i);
      }
    }
    if Walk(resolve, leaf) == Ok(chain) {
      forall i | 0 <= i < |chain| ensures LeadsOn(included, chain, i) {
        if i < |chain| - 1 { assert ParentOf(resolve, chain[i], chain[i + 1]); }
      }
    }
  }

  /** What VerifyChain accepts, in some iteration order: an envelope filed under its own hashes
      and a chain to a root in it, every link of which stands. */
  lemma AcceptsMeaning(env: Env, leaf: Entity, included: Included, local: string, clock: Clock)
    ensures Accepts(env, leaf, included, local, clock, false) <==>
              && (forall h :: h in included ==> env.selfConsistent(included[h]) && included[h].contentHash == h)
              && exists chain ::
                   && LeadsToRoot(leaf, included, chain)
                   && forall i :: 0 <= i < |chain| ==> LinkStands(env, chain, i, included, local, clock(i))
  {
    forall chain ensures LeadsToRoot(leaf, included, chain) <==> Walk(IncludedResolver(included), leaf) == Ok(chain) {
      LeadsToRootExactly(leaf, included, chain);
    }
    forall chain, i: nat | i < |chain|
      ensures LinkStands(env, chain, i, included, local, clock(i))
         <==> LinkHolds(env, chain, i, included, local, clock(i), false)
    {
      LinkStandsExactly(env, chain, i, included, local, clock(i));
    }
    hide LeadsToRoot, LinkStands, LinkHolds, WalkFrom;
    if Accepts(env, leaf, included, local, clock, false) {
      var chain := Walk(IncludedResolver(included), leaf).value;
      assert LeadsToRoot(leaf, included, chain);
    }
  }

  /** In an accepted chain every signature is checked: each link of a single granter carries bytes
      that verify under that granter's published key, and a K-of-N root carries them from K
      distinct signers. */
  lemma AcceptedSignaturesVerify(env: Env, leaf: Entity, included: Included, local: string, clock: Clock, i: nat)
    requires Accepts(env, leaf, included, local, clock, false) && i < |ChainOf(leaf, included)|
    ensures var link := ChainOf(leaf, included)[i];
            && link.data.token.Some?
            && var granter := link.data.token.value.granter;
            && (granter.Single? ==> HasSignature(env, link, granter.hash, included))
            && (granter.Multi? ==> HasQuorum(env, link, granter.signers, granter.threshold, included))
  {
    var chain := ChainOf(leaf, included);
    assert LinkHolds(env, chain, i, included, local, clock(i), false);
    LinkStandsExactly(env, chain, i, included, local, clock(i));
    hide Accepts, LinkHolds, FitToken, HasSignature, HasQuorum, LocallyGranted, HandedDown, WalkFrom;
  }
}
