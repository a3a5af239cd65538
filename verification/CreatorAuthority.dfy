/** Creator authorization: is the writer a granter somewhere in a capability's chain? */
module CreatorAuthority {
  import opened Patterns
  import opened Tokens
  import opened Authority
  import opened Signatures
  import opened ChainVerification
  import opened AcceptedChains

  /** Looks up a signer's signature over a link; absent for callers without an envelope. */
  type SignatureResolver = (Hash, Hash) -> Option<Entity>

  datatype Outcome = Authorized(chain: seq<Entity>) | NotInChain(chain: seq<Entity>)
                   | Malformed(chain: seq<Entity>) | NoChain(error: WalkError)

  predicate Sound(link: Entity) { link.data.token.Some? && ValidStructure(link.data.token.value) }

  /** The writer granted this link: as its single granter, or as one of its signers with a
      verifying signature. */
  predicate Granted(env: Env, link: Entity, writer: Hash, resolve: Resolver, findSig: Option<SignatureResolver>) {
    link.data.token.Some? &&
    match link.data.token.value.granter
    case Single(h) => h == writer
    case Multi(signers, _) =>
      && writer in signers && findSig.Some?
      && findSig.value(link.contentHash, writer).Some? && resolve(writer).Some?
      && Verifies(env, link, resolve(writer).value, findSig.value(link.contentHash, writer).value)
  }

  /** One turn of the loop over a sound link. */
  method GrantsLink(env: Env, link: Entity, writer: Hash, resolve: Resolver, findSig: Option<SignatureResolver>)
    returns (ok: bool)
    requires link.data.token.Some?
    ensures ok == Granted(env, link, writer, resolve, findSig)
  {
    var granter := link.data.token.value.granter;
    if granter.Single? { return granter.hash == writer; }
    if writer !in granter.signers || findSig.None? { return false; }
    var sig := findSig.value(link.contentHash, writer);
    if sig.None? || sig.value.data.signature.None? { return false; }
    var identity := resolve(writer);
    if identity.None? { return false; }
    return Verifies(env, link, identity.value, sig.value);
  }

  /** Some link the writer granted comes with only sound links up to it. */
  ghost predicate GrantedBeforeMalformed(env: Env, chain: seq<Entity>, writer: Hash, resolve: Resolver,
                                         findSig: Option<SignatureResolver>) {
    exists i :: 0 <= i < |chain| && SoundThrough(chain, i) && Granted(env, chain[i], writer, resolve, findSig)
  }

  predicate SoundThrough(chain: seq<Entity>, i: nat)
    requires i < |chain|
  {
    forall j :: 0 <= j <= i ==> Sound(chain[j])
  }

  /** CheckCreatorAuthority: collect the whole chain, then scan it from the leaf.  The writer
      is authorized exactly when it granted some link with no malformed link at or below it. */
  method CheckCreatorAuthority(env: Env, cap: Entity, writer: Hash, resolve: Resolver,
                               findSig: Option<SignatureResolver>)
    returns (r: Outcome)
    ensures match Walk(resolve, cap)
            case Err(e) => r == NoChain(e)
            case Ok(chain) =>
              && !r.NoChain? && r.chain == chain
              && (r.Authorized? <==> GrantedBeforeMalformed(env, chain, writer, resolve, findSig))
              && (r.NotInChain? <==> && (forall j :: 0 <= j < |chain| ==> Sound(chain[j]))
                                     && !GrantedBeforeMalformed(env, chain, writer, resolve, findSig))
  {
    hide GrantedBeforeMalformed, Sound, WalkFrom;
    var walked := CollectAuthorityChain(cap, resolve);
    if walked.Err? { return NoChain(walked.error); }
    r := ScanForGranter(env, walked.value, writer, resolve, findSig);
  }

  /** The scan from the leaf upwards, with its early returns. */
  method ScanForGranter(env: Env, chain: seq<Entity>, writer: Hash, resolve: Resolver,
                        findSig: Option<SignatureResolver>)
    returns (r: Outcome)
    ensures !r.NoChain? && r.chain == chain
    ensures r.Authorized? <==> GrantedBeforeMalformed(env, chain, writer, resolve, findSig)
    ensures r.NotInChain? <==> && (forall j :: 0 <= j < |chain| ==> Sound(chain[j]))
                               && !GrantedBeforeMalformed(env, chain, writer, resolve, findSig)
  {
    hide Granted, Sound;
    for i := 0 to |chain|
      invariant forall j :: 0 <= j < i ==> Sound(chain[j]) && !Granted(env, chain[j], writer, resolve, findSig)
    {
      if !Sound(chain[i]) { return Malformed(chain); }
      SoundDecodes(chain[i]);
      var granted := GrantsLink(env, chain[i], writer, resolve, findSig);
      if granted { return Authorized(chain); }
    }
    return NotInChain(chain);
  }

  lemma SoundDecodes(link: Entity)
    requires Sound(link)
    ensures link.data.token.Some?
  {
  }

  /** A malformed link disqualifies the writer exactly when every link the writer granted lies
      above it: one granted link below it authorizes, whatever the ancestors look like. */
  lemma MalformedDisqualifiesExactly(env: Env, chain: seq<Entity>, writer: Hash, resolve: Resolver,
                                     findSig: Option<SignatureResolver>, bad: nat)
    requires bad < |chain| && !Sound(chain[bad]) && forall j :: 0 <= j < bad ==> Sound(chain[j])
    ensures !GrantedBeforeMalformed(env, chain, writer, resolve, findSig)
       <==> forall i :: 0 <= i < bad ==> !Granted(env, chain[i], writer, resolve, findSig)
  {
    hide Granted;
    if i :| 0 <= i < bad && Granted(env, chain[i], writer, resolve, findSig) {
      assert SoundThrough(chain, i);
    }
  }

  function LinkOf(h: Hash, granter: Hash, grantee: Hash, parent: Option<Hash>): Entity {
    var token := Token([], Single(granter), grantee, parent, 0, None, None, None);
    Entity(TYPE_TOKEN, Data(Some(token), None, None), h)
  }

  /** Such a chain: the leaf granted by the writer, beneath a root addressed to nobody. */
  lemma MalformedRootStillAuthorizes(env: Env, writer: Hash, grantee: Hash, nobody: Hash, root: Hash, leaf: Hash,
                                     findSig: Option<SignatureResolver>)
    requires !IsZero(grantee) && IsZero(nobody) && root.algorithm == leaf.algorithm
    ensures var top := LinkOf(root, nobody, nobody, None);
            var low := LinkOf(leaf, writer, grantee, Some(root));
            var resolve: Resolver := h => if h == root then Some(top) else None;
            && Walk(resolve, low) == Ok([low, top]) && !Sound(top)
            && GrantedBeforeMalformed(env, [low, top], writer, resolve, findSig)
  {
    var top := LinkOf(root, nobody, nobody, None);
    var low := LinkOf(leaf, writer, grantee, Some(root));
    var resolve: Resolver := h => if h == root then Some(top) else None;
    var chain := [low, top];
    hide WalkFrom;
    assert ParentOf(resolve, chain[0], chain[1]);
    WalkExactly(resolve, low, chain);
    assert SoundThrough(chain, 0) && Granted(env, chain[0], writer, resolve, findSig);
  }

  ghost predicate HeldAbove(chain: seq<Entity>, writer: Hash) {
    exists i :: 0 < i < |chain| && chain[i].data.token.Some? && chain[i].data.token.value.grantee == writer
  }

  /** On a chain VerifyChain accepts, the authorized creators are exactly the holders of the
      links above the leaf and the granters of the root. */
  lemma AcceptedCreatorsExactly(env: Env, leaf: Entity, included: Included, local: string, clock: Clock, writer: Hash,
                                findSig: Option<SignatureResolver>)
    requires Accepts(env, leaf, included, local, clock, false)
    ensures var chain, resolve := ChainOf(leaf, included), IncludedResolver(included);
            && |chain| > 0
            && (GrantedBeforeMalformed(env, chain, writer, resolve, findSig)
                <==> HeldAbove(chain, writer) || Granted(env, chain[|chain| - 1], writer, resolve, findSig))
  {
    var chain, resolve := ChainOf(leaf, included), IncludedResolver(included);
    WalkExactly(resolve, leaf, chain);
    forall i | 0 <= i < |chain|
      ensures Sound(chain[i])
      ensures i + 1 < |chain| ==>
                && chain[i + 1].data.token.Some?
                && (Granted(env, chain[i], writer, resolve, findSig)
                    <==> chain[i + 1].data.token.value.grantee == writer)
    {
      SoundHandOff(env, chain, i, included, local, clock(i), writer, resolve, findSig);
    }
    hide Granted, Sound, WalkFrom, ChainHolds;
    if i :| 0 < i < |chain| && chain[i].data.token.Some? && chain[i].data.token.value.grantee == writer {
      assert SoundThrough(chain, i - 1);
      assert Granted(env, chain[i - 1], writer, resolve, findSig) <==>
               chain[(i - 1) + 1].data.token.value.grantee == writer;
    }
    assert SoundThrough(chain, |chain| - 1);
    if i :| 0 <= i < |chain| && Granted(env, chain[i], writer, resolve, findSig) {
      assert i + 1 < |chain| ==> chain[i + 1].data.token.value.grantee == writer;
    }
  }

  lemma SoundHandOff(env: Env, chain: seq<Entity>, i: nat, included: Included, local: string, now: u64, writer: Hash,
                     resolve: Resolver, findSig: Option<SignatureResolver>)
    requires i < |chain| && LinkHolds(env, chain, i, included, local, now, false)
    ensures Sound(chain[i])
    ensures i + 1 < |chain| ==>
              && chain[i + 1].data.token.Some?
              && (Granted(env, chain[i], writer, resolve, findSig) <==> chain[i + 1].data.token.value.grantee == writer)
  {
  }

  // ----- what authorizes a creator --------------------------------------

  /** A link any check may look at: it decodes, names a grantee, and a K-of-N granter is a root
      with 2 <= K <= N distinct signers. */
  ghost predicate WellFormedLink(link: Entity) {
    && link.data.token.Some?
    && var t := link.data.token.value;
    && !AllZero(t.grantee)
    && (t.granter.Multi? ==>
          && t.parent.None? && 2 <= t.granter.threshold <= |t.granter.signers|
          && forall i, j :: 0 <= i < j < |t.granter.signers| ==> t.granter.signers[i] != t.granter.signers[j])
  }

  /** The writer is the single granter, or a signer whose signature on this link, as looked up,
      verifies under the key its identity publishes. */
  ghost predicate GrantedBy(env: Env, link: Entity, writer: Hash, resolve: Resolver,
                            findSig: Option<SignatureResolver>) {
    && link.data.token.Some?
    && var granter := link.data.token.value.granter;
    && (granter.Single? ==> granter.hash == writer)
    && (granter.Multi? ==>
          && writer in granter.signers && findSig.Some?
          && findSig.value(link.contentHash, writer).Some? && resolve(writer).Some?
          && var sig, identity := findSig.value(link.contentHash, writer).value, resolve(writer).value;
          && sig.data.signature.Some? && identity.data.peer.Some?
          && env.keyType(identity.data.peer.value.keyType).Some?
          && env.verify(env.keyType(identity.data.peer.value.keyType).value, identity.data.peer.value.publicKey,
                        WireBytes(link.contentHash), sig.data.signature.value.signature))
  }

  /** What CheckCreatorAuthority authorizes: a writer that granted some link, with every link up
      to that one well formed. */
  lemma CreatorMeaning(env: Env, chain: seq<Entity>, writer: Hash, resolve: Resolver,
                       findSig: Option<SignatureResolver>)
    ensures GrantedBeforeMalformed(env, chain, writer, resolve, findSig) <==>
              exists i :: && 0 <= i < |chain| && GrantedBy(env, chain[i], writer, resolve, findSig)
                          && forall j :: 0 <= j <= i ==> WellFormedLink(chain[j])
  {
    forall link ensures WellFormedLink(link) <==> Sound(link) {
      if link.data.token.Some? { AllZeroExactly(link.data.token.value.grantee); }
    }
    forall link
      ensures GrantedBy(env, link, writer, resolve, findSig) <==> Granted(env, link, writer, resolve, findSig)
    {
      hide WireBytes;
    }
    hide WellFormedLink, Sound, GrantedBy, Granted;
    if i :| && 0 <= i < |chain| && GrantedBy(env, chain[i], writer, resolve, findSig)
            && forall j :: 0 <= j <= i ==> WellFormedLink(chain[j])
    {
      assert SoundThrough(chain, i);
    }
    if i :| 0 <= i < |chain| && SoundThrough(chain, i) && Granted(env, chain[i], writer, resolve, findSig) {
      assert forall j :: 0 <= j <= i ==> WellFormedLink(chain[j]);
    }
  }
}
