/** Minting a re-attenuated capability, and the proof that it extends a verified chain. */
module Mint {
  import opened Patterns
  import opened Tokens
  import opened Attenuation
  import opened Authority
  import opened Signatures
  import opened ChainVerification
  import opened AcceptedChains

  datatype Keypair = Keypair(keyType: byte, publicKey: Bytes, sign: Bytes -> Bytes)

  datatype MintError = NoParent | NoGrantee | NoGrants | Encoding

  function MintedToken(signer: Hash, grantee: Hash, parent: Hash, grants: seq<Grant>, createdAt: u64,
                       expiresAt: Option<u64>): Token {
    Token(grants, Single(signer), grantee, Some(parent), createdAt, expiresAt, None, None)
  }

  /** The minted capability and the signer's detached signature over it. */
  function MintReattenuated(env: Env, key: Keypair, signer: Hash, grantee: Hash, parent: Entity,
                            grants: seq<Grant>, createdAt: u64, expiresAt: Option<u64>)
    : Result<(Entity, Entity), MintError>
  {
    if IsZero(parent.contentHash) then Err(NoParent)
    else if IsZero(grantee) then Err(NoGrantee)
    else if grants == [] then Err(NoGrants)
    else
      match env.tokenEntity(MintedToken(signer, grantee, parent.contentHash, grants, createdAt, expiresAt))
      case None => Err(Encoding)
      case Some(cap) =>
        match env.signatureEntity(SignatureData(cap.contentHash, signer, key.sign(WireBytes(cap.contentHash))))
        case None => Err(Encoding)
        case Some(sig) => Ok((cap, sig))
  }

  // ----- hypotheses about the helpers -----------------------------------

  /** Encoding then decoding gives the value back, in a self-consistent entity of the right
      type. */
  ghost predicate FaithfulCodec(env: Env) {
    && (forall t :: env.tokenEntity(t).Some? ==>
          var e := env.tokenEntity(t).value;
          e.kind == TYPE_TOKEN && e.data.token == Some(t) && env.selfConsistent(e))
    && (forall s :: env.signatureEntity(s).Some? ==>
          var e := env.signatureEntity(s).value;
          e.kind == TYPE_SIGNATURE && e.data.signature == Some(s) && env.selfConsistent(e))
  }

  /** The identity publishes the key pair's public key, under which its signatures verify. */
  ghost predicate KeyMatches(env: Env, key: Keypair, identity: Entity) {
    && KeyOf(env, identity) == Some((key.keyType, key.publicKey))
    && forall m :: env.verify(key.keyType, key.publicKey, m, key.sign(m))
  }

  // ----- growing the envelope -------------------------------------------

  /** `larger` adds entries to `smaller`, none of them a signature on `link`. */
  ghost predicate GrowsAround(smaller: Included, larger: Included, link: Hash) {
    && (forall h :: h in smaller ==> h in larger && larger[h] == smaller[h])
    && (forall h :: h in larger && h !in smaller ==> !SignatureOn(larger[h], link))
  }

  lemma SignaturesUntouched(smaller: Included, larger: Included, link: Hash, e: Entity)
    requires GrowsAround(smaller, larger, link) && SignatureOn(e, link)
    ensures e in larger.Values <==> e in smaller.Values
  {
  }

  lemma SignedByGrows(env: Env, link: Entity, signer: Hash, smaller: Included, larger: Included)
    requires GrowsAround(smaller, larger, link.contentHash) && SignedBy(env, link, signer, smaller, true)
    ensures SignedBy(env, link, signer, larger, true)
  {
  }

  /** Entities beside the point keep a link signed and a root granted, in every order. */
  lemma LinkSignedGrows(env: Env, link: Entity, granter: Granter, smaller: Included, larger: Included, local: string)
    requires GrowsAround(smaller, larger, link.contentHash)
    ensures LinkSigned(env, link, granter, smaller, true) ==> LinkSigned(env, link, granter, larger, true)
    ensures RootGranted(env, link, granter, smaller, local, true) ==>
              RootGranted(env, link, granter, larger, local, true)
  {
    forall s | SignedBy(env, link, s, smaller, true) ensures SignedBy(env, link, s, larger, true) {
      SignedByGrows(env, link, s, smaller, larger);
    }
    match granter
    case Single(h) =>
      if SingleSigned(env, link, h, smaller, true) {
        forall e | SignatureOn(e, link.contentHash)
          ensures e in larger.Values <==> e in smaller.Values
        {
          SignaturesUntouched(smaller, larger, link.contentHash, e);
        }
        var e :| e in smaller.Values && SignatureOn(e, link.contentHash) && GoodSignature(env, link, h, smaller, e);
        assert e in larger.Values && GoodSignature(env, link, h, larger, e);
      }
    case Multi(signers, threshold) =>
      SubsetCardinality(Quorum(env, link, signers, smaller, true), Quorum(env, link, signers, larger, true));
      if RootGranted(env, link, granter, smaller, local, true) {
        var s :| s in signers && LocalSigner(env, s, smaller, local) && SignedBy(env, link, s, smaller, true);
        assert LocalSigner(env, s, larger, local) && SignedBy(env, link, s, larger, true);
      }
  }

  // ----- the minted link ------------------------------------------------

  /** Everything the minter must see to, besides holding a verified parent chain. */
  ghost predicate GoodMint(env: Env, key: Keypair, parent: Entity, included: Included, local: string, now: u64,
                           cap: Entity, sig: Entity, t: Token)
    requires parent.data.token.Some?
  {
    var p := parent.data.token.value;
    && t.granter == Single(p.grantee)
    && t.parent == Some(parent.contentHash)
    && t.notBefore.None? && t.caveats.None?
    && cap.kind == TYPE_TOKEN && cap.data.token == Some(t) && env.selfConsistent(cap)
    && cap.contentHash.algorithm == parent.contentHash.algorithm
    && sig.kind == TYPE_SIGNATURE && env.selfConsistent(sig)
    && sig.data.signature == Some(SignatureData(cap.contentHash, p.grantee, key.sign(WireBytes(cap.contentHash))))
    && cap.contentHash !in included && sig.contentHash !in included && cap.contentHash != sig.contentHash
    && p.grantee in included && KeyMatches(env, key, included[p.grantee])
    && (forall e :: e in included.Values && SignatureOn(e, cap.contentHash) ==>
          GoodSignature(env, cap, p.grantee, included, e))
    && !IsZero(t.grantee) && GranteeResolves(t, included)
    && Matchable(t.grants) && !Expired(t.expiresAt, now)
    && GranterPeer(env, t.granter, included, local).Some? && GranterPeer(env, p.granter, included, local).Some?
    && Attenuated(t, p, GranterPeer(env, t.granter, included, local).value,
                  GranterPeer(env, p.granter, included, local).value, local)
    && CaveatsAllow(p, t, 0)
  }

  ghost predicate ShiftedCaveatsAllow(chain: seq<Entity>) {
    forall k :: 0 <= k < |chain| - 1 && chain[k].data.token.Some? && chain[k + 1].data.token.Some? ==>
      CaveatsAllow(chain[k + 1].data.token.value, chain[k].data.token.value, k + 1)
  }

  function Extended(included: Included, cap: Entity, sig: Entity): Included {
    included[cap.contentHash := cap][sig.contentHash := sig]
  }

  lemma ExtendedGrows(env: Env, key: Keypair, parent: Entity, included: Included, local: string, now: u64,
                      cap: Entity, sig: Entity, t: Token, link: Hash)
    requires parent.data.token.Some? && GoodMint(env, key, parent, included, local, now, cap, sig, t)
    requires link in included
    ensures GrowsAround(included, Extended(included, cap, sig), link)
  {
  }

  lemma MintedLinkSigned(env: Env, key: Keypair, parent: Entity, included: Included, local: string, now: u64,
                         cap: Entity, sig: Entity, t: Token)
    requires parent.data.token.Some? && GoodMint(env, key, parent, included, local, now, cap, sig, t)
    ensures LinkSigned(env, cap, t.granter, Extended(included, cap, sig), true)
  {
    hide Attenuated, Matchable, CaveatsAllow, InWindow;
    var larger := Extended(included, cap, sig);
    var g := parent.data.token.value.grantee;
    assert larger[sig.contentHash] == sig;
    assert sig in larger.Values;
    assert GoodSignature(env, cap, g, larger, sig);
    forall e | e in larger.Values && SignatureOn(e, cap.contentHash)
      ensures GoodSignature(env, cap, g, larger, e)
    {
      var h :| h in larger && larger[h] == e;
      if h in included {
        assert included[h] == e;
        assert GoodSignature(env, cap, g, included, e);
      }
    }
  }

  lemma GranterPeerGrows(env: Env, granter: Granter, smaller: Included, larger: Included, local: string)
    requires forall h :: h in smaller ==> h in larger && larger[h] == smaller[h]
    requires GranterPeer(env, granter, smaller, local).Some?
    ensures GranterPeer(env, granter, larger, local) == GranterPeer(env, granter, smaller, local)
  {
  }

  /** A verified link stays verified one place further from the leaf. */
  lemma OldLinkHolds(env: Env, chain: seq<Entity>, longer: seq<Entity>, k: nat, smaller: Included, larger: Included,
                     local: string, now: u64)
    requires k < |chain| && |longer| == |chain| + 1 && longer[1..] == chain
    requires LinkHolds(env, chain, k, smaller, local, now, true)
    requires GrowsAround(smaller, larger, chain[k].contentHash)
    requires ShiftedCaveatsAllow(chain)
    ensures LinkHolds(env, longer, k + 1, larger, local, now, true)
  {
    hide Attenuated, Matchable, CaveatsAllow, InWindow, LinkSigned, RootGranted, ValidStructure;
    assert longer[k + 1] == chain[k];
    var t := chain[k].data.token.value;
    LinkSignedGrows(env, chain[k], t.granter, smaller, larger, local);
    assert larger[t.grantee] == smaller[t.grantee];
    if k < |chain| - 1 {
      assert longer[k + 2] == chain[k + 1];
      GranterPeerGrows(env, t.granter, smaller, larger, local);
      GranterPeerGrows(env, chain[k + 1].data.token.value.granter, smaller, larger, local);
    }
  }

  lemma NewLinkHolds(env: Env, key: Keypair, parent: Entity, included: Included, local: string, now: u64, cap: Entity,
                     sig: Entity, t: Token, longer: seq<Entity>)
    requires parent.data.token.Some? && GoodMint(env, key, parent, included, local, now, cap, sig, t)
    requires |longer| >= 2 && longer[0] == cap && longer[1] == parent
    ensures LinkHolds(env, longer, 0, Extended(included, cap, sig), local, now, true)
  {
    hide Attenuated, Matchable, LinkSigned;
    MintedLinkSigned(env, key, parent, included, local, now, cap, sig, t);
    GranterPeerGrows(env, t.granter, included, Extended(included, cap, sig), local);
    GranterPeerGrows(env, parent.data.token.value.granter, included, Extended(included, cap, sig), local);
  }

  lemma ExtendedWalk(parent: Entity, included: Included, cap: Entity, sig: Entity, t: Token, chain: seq<Entity>)
    requires CompleteWalk(IncludedResolver(included), parent, chain)
    requires cap.data.token == Some(t) && t.parent == Some(parent.contentHash)
    requires parent.contentHash in included && included[parent.contentHash] == parent
    requires cap.contentHash !in included && sig.contentHash !in included
    ensures CompleteWalk(IncludedResolver(Extended(included, cap, sig)), cap, [cap] + chain)
  {
  }

  /** The clock as the parent's chain sees it, one link later than the new one. */
  function Later(clock: Clock): Clock { (i: nat) => clock(i + 1) }

  /** Over the envelope with a well-minted pair added, the new capability is accepted in every
      iteration order exactly when the parent chain leaves room for one more link and its
      caveats hold one link further down. */
  lemma MintExtendsChain(env: Env, key: Keypair, parent: Entity, included: Included, local: string, clock: Clock,
                         cap: Entity, sig: Entity, t: Token)
    requires Accepts(env, parent, included, local, Later(clock), true) && parent.data.token.Some?
    requires parent.contentHash in included && included[parent.contentHash] == parent
    requires GoodMint(env, key, parent, included, local, clock(0), cap, sig, t)
    ensures Accepts(env, cap, Extended(included, cap, sig), local, clock, true) <==>
              |ChainOf(parent, included)| <= MAX_CHAIN_DEPTH && ShiftedCaveatsAllow(ChainOf(parent, included))
  {
    hide LinkHolds, Attenuated, Matchable, CaveatsAllow, KeyMatches, WalkFrom;
    var larger := Extended(included, cap, sig);
    var chain := ChainOf(parent, included);
    var longer := [cap] + chain;
    WalkExactly(IncludedResolver(included), parent, chain);
    ExtendedWalk(parent, included, cap, sig, t, chain);
    WalkExactly(IncludedResolver(larger), cap, longer);
    if |chain| <= MAX_CHAIN_DEPTH {
      assert OneFormat(longer, cap.contentHash.algorithm);
      if Accepts(env, cap, larger, local, clock, true) {
        ShiftedByAcceptance(env, chain, longer, larger, local, clock);
      }
      if !ShiftedCaveatsAllow(chain) { return; }
      NewLinkHolds(env, key, parent, included, local, clock(0), cap, sig, t, longer);
      forall i | 0 <= i < |longer| ensures LinkHolds(env, longer, i, larger, local, clock(i), true) {
        if i > 0 {
          assert Later(clock)(i - 1) == clock(i);
          LinkIncluded(env, parent, included, chain, i - 1);
          ExtendedGrows(env, key, parent, included, local, clock(0), cap, sig, t, chain[i - 1].contentHash);
          OldLinkHolds(env, chain, longer, i - 1, included, larger, local, clock(i));
        }
      }
    } else {
      if Walk(IncludedResolver(larger), cap).Ok? {
        var other := Walk(IncludedResolver(larger), cap).value;
        WalkExactly(IncludedResolver(larger), cap, other);
        WalkUnique(IncludedResolver(larger), cap, longer, other);
      }
    }
  }

  lemma ShiftedByAcceptance(env: Env, chain: seq<Entity>, longer: seq<Entity>, included: Included, local: string,
                            clock: Clock)
    requires |longer| == |chain| + 1 && longer[1..] == chain && ChainHolds(env, longer, included, local, clock, true)
    ensures ShiftedCaveatsAllow(chain)
  {
    hide Attenuated, Matchable, CaveatsAllow, InWindow, LinkSigned, RootGranted, ValidStructure;
    forall k | 0 <= k < |chain| - 1 && chain[k].data.token.Some? && chain[k + 1].data.token.Some?
      ensures CaveatsAllow(chain[k + 1].data.token.value, chain[k].data.token.value, k + 1)
    {
      assert LinkHolds(env, longer, k + 1, included, local, clock(k + 1), true);
      assert longer[k + 1] == chain[k] && longer[k + 2] == chain[k + 1];
    }
  }

  lemma LinkIncluded(env: Env, parent: Entity, included: Included, chain: seq<Entity>, k: nat)
    requires KeyBound(env, included) && CompleteWalk(IncludedResolver(included), parent, chain) && k < |chain|
    requires parent.contentHash in included
    ensures chain[k].contentHash in included
  {
    if k > 0 { assert ParentOf(IncludedResolver(included), chain[k - 1], chain[k]); }
  }

  /** The minter's duties: sign as the parent's grantee, stay within the parent's authority,
      format, caveats and lifetime, and address a resolvable grantee. */
  ghost predicate MinterDuties(env: Env, key: Keypair, signer: Hash, parent: Entity, included: Included,
                               local: string, now: u64, t: Token) {
    && SignerDuties(env, key, signer, parent, included, local, now, t)
    && Matchable(t.grants)
    && var p := parent.data.token.value;
       Attenuated(t, p, GranterPeer(env, Single(signer), included, local).value,
                  GranterPeer(env, p.granter, included, local).value, local)
  }

  /** The duties that do not look at the grants. */
  ghost predicate SignerDuties(env: Env, key: Keypair, signer: Hash, parent: Entity, included: Included,
                               local: string, now: u64, t: Token) {
    && parent.data.token.Some?
    && var p := parent.data.token.value;
    && signer == p.grantee && signer in included && KeyMatches(env, key, included[signer])
    && GranteeResolves(t, included) && !Expired(t.expiresAt, now)
    && GranterPeer(env, Single(signer), included, local).Some? && GranterPeer(env, p.granter, included, local).Some?
    && CaveatsAllow(p, t, 0)
  }

  /** The minted pair is new to the envelope and of the parent's hash format. */
  ghost predicate FreshPair(parent: Entity, included: Included, cap: Entity, sig: Entity) {
    && cap.contentHash.algorithm == parent.contentHash.algorithm
    && cap.contentHash !in included && sig.contentHash !in included && cap.contentHash != sig.contentHash
    && forall e :: e in included.Values ==> !SignatureOn(e, cap.contentHash)
  }

  lemma MintedPairIsGood(env: Env, key: Keypair, signer: Hash, grantee: Hash, parent: Entity, grants: seq<Grant>,
                         createdAt: u64, expiresAt: Option<u64>, included: Included, local: string, now: u64,
                         cap: Entity, sig: Entity)
    requires FaithfulCodec(env)
    requires MintReattenuated(env, key, signer, grantee, parent, grants, createdAt, expiresAt) == Ok((cap, sig))
    requires MinterDuties(env, key, signer, parent, included, local, now,
                          MintedToken(signer, grantee, parent.contentHash, grants, createdAt, expiresAt))
    requires FreshPair(parent, included, cap, sig)
    ensures GoodMint(env, key, parent, included, local, now, cap, sig,
                     MintedToken(signer, grantee, parent.contentHash, grants, createdAt, expiresAt))
  {
    hide Attenuated, Matchable, KeyMatches;
  }

  /** What MintReattenuated returns, VerifyChain accepts: given a verified parent chain and the
      minter's duties, the minted capability is accepted in every iteration order exactly when
      the parent chain has at most 64 links and its caveats hold one link further down. */
  lemma MintedCapabilityIsAccepted(env: Env, key: Keypair, signer: Hash, grantee: Hash, parent: Entity,
                                   grants: seq<Grant>, createdAt: u64, expiresAt: Option<u64>, included: Included,
                                   local: string, clock: Clock, cap: Entity, sig: Entity)
    requires FaithfulCodec(env) && Accepts(env, parent, included, local, Later(clock), true)
    requires parent.contentHash in included && included[parent.contentHash] == parent
    requires MintReattenuated(env, key, signer, grantee, parent, grants, createdAt, expiresAt) == Ok((cap, sig))
    requires MinterDuties(env, key, signer, parent, included, local, clock(0),
                          MintedToken(signer, grantee, parent.contentHash, grants, createdAt, expiresAt))
    requires FreshPair(parent, included, cap, sig)
    ensures Accepts(env, cap, Extended(included, cap, sig), local, clock, true) <==>
              |ChainOf(parent, included)| <= MAX_CHAIN_DEPTH && ShiftedCaveatsAllow(ChainOf(parent, included))
  {
    assert parent.data.token.Some?;
    hide Accepts, FreshPair, MinterDuties, GoodMint, FaithfulCodec, ShiftedCaveatsAllow, MintReattenuated;
    var t := MintedToken(signer, grantee, parent.contentHash, grants, createdAt, expiresAt);
    MintedPairIsGood(env, key, signer, grantee, parent, grants, createdAt, expiresAt, included, local, clock(0), cap,
                     sig);
    MintExtendsChain(env, key, parent, included, local, clock, cap, sig, t);
  }

  // ----- what is minted -------------------------------------------------

  /** MintReattenuated refuses a zero parent, a zero grantee or an empty grant list, in this order;
      otherwise, and if both entities encode, the capability carries exactly what was asked for
      and the signature is the key's over its wire form. */
  lemma MintMeaning(env: Env, key: Keypair, signer: Hash, grantee: Hash, parent: Entity, grants: seq<Grant>,
                    createdAt: u64, expiresAt: Option<u64>)
    requires FaithfulCodec(env)
    ensures var r := MintReattenuated(env, key, signer, grantee, parent, grants, createdAt, expiresAt);
            && (r == Err(NoParent) <==> AllZero(parent.contentHash))
            && (r == Err(NoGrantee) <==> !AllZero(parent.contentHash) && AllZero(grantee))
            && (r == Err(NoGrants) <==> !AllZero(parent.contentHash) && !AllZero(grantee) && grants == [])
            && (r.Ok? ==>
                  && var (cap, sig) := r.value;
                  && cap.kind == "system/capability/token" && cap.data.token.Some?
                  && var t := cap.data.token.value;
                  && t.grants == grants && t.granter == Single(signer) && t.grantee == grantee
                  && t.parent == Some(parent.contentHash) && t.createdAt == createdAt && t.expiresAt == expiresAt
                  && t.notBefore.None? && t.caveats.None?
                  && sig.kind == "system/signature" && sig.data.signature.Some?
                  && var sd := sig.data.signature.value;
                  && sd.target == cap.contentHash && sd.signer == signer
                  && sd.signature == key.sign(WireBytes(cap.contentHash)))
  {
    AllZeroExactly(parent.contentHash);
    AllZeroExactly(grantee);
    hide AllZero, IsZero, WireBytes;
  }
}
