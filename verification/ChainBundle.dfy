/** The sender-side bundle: what a remote verifier needs to validate a chain. */
module ChainBundle {
  import opened Patterns
  import opened Tokens
  import opened Authority
  import opened Signatures
  import opened ChainVerification
  import opened StoragePaths
  import opened Attenuation
  import opened Mint
  import opened AcceptedChains

  datatype BundleError = WalkFailed(error: WalkError) | IdentityUnreachable

  type Tree = map<string, Hash>

  predicate PeerIn(store: Included, h: Hash) {
    h in store && store[h].kind == TYPE_PEER
  }

  /** The signature bound at the signer's invariant path for `target`. */
  function FindBoundSignature(env: Env, store: Included, tree: Tree, target: Hash, identity: Entity): Option<Entity> {
    match PeerIdOf(env, identity)
    case None => None
    case Some(pid) =>
      var path := InvariantSignaturePath(pid, target);
      if path !in tree || tree[path] !in store || store[tree[path]].kind != TYPE_SIGNATURE then None
      else Some(store[tree[path]])
  }

  // ----- what a bundle holds --------------------------------------------

  /** Every identity a link names is a peer entity of the store. */
  predicate IdentitiesPresent(store: Included, t: Token) {
    && (forall s :: s in SignersOf(t.granter) ==> PeerIn(store, s))
    && (!IsZero(t.grantee) ==> PeerIn(store, t.grantee))
  }

  ghost predicate WantedFor(env: Env, store: Included, tree: Tree, link: Entity, s: Hash, e: Entity)
  {
    s in store && (e == store[s] || FindBoundSignature(env, store, tree, link.contentHash, store[s]) == Some(e))
  }

  /** `e` is the link, one of its identities, or a bound signature of one of its signers. */
  ghost predicate Wanted(env: Env, store: Included, tree: Tree, link: Entity, e: Entity) {
    || e == link
    || (link.data.token.Some? &&
        var t := link.data.token.value;
        || (exists s :: s in SignersOf(t.granter) && WantedFor(env, store, tree, link, s, e))
        || (!IsZero(t.grantee) && t.grantee in store && e == store[t.grantee]))
  }

  /** Keyed by each entity's own hash; nothing unwanted is in, and every wanted hash is. */
  ghost predicate IsBundle(env: Env, store: Included, tree: Tree, chain: seq<Entity>, bundle: Included) {
    && (forall h :: h in bundle ==>
          && bundle[h].contentHash == h
          && exists i :: 0 <= i < |chain| && Wanted(env, store, tree, chain[i], bundle[h]))
    && (forall i, e :: 0 <= i < |chain| && Wanted(env, store, tree, chain[i], e) ==> e.contentHash in bundle)
  }

  // ----- what that means on store and tree ------------------------------

  /** A signature entity of the store is bound at the peer's invariant path for the target. */
  ghost predicate BoundAt(store: Included, tree: Tree, peer: string, target: Hash, e: Entity) {
    var path := "/" + peer + "/system/signature/" + Hex(WireBytes(target));
    path in tree && tree[path] in store && store[tree[path]] == e && e.kind == "system/signature"
  }

  ghost predicate BoundBy(env: Env, store: Included, tree: Tree, identity: Entity, target: Hash, e: Entity) {
    exists peer :: Publishes(env, identity, peer) && BoundAt(store, tree, peer, target, e)
  }

  lemma BoundByExactly(env: Env, store: Included, tree: Tree, identity: Entity, target: Hash, e: Entity)
    ensures BoundBy(env, store, tree, identity, target, e)
       <==> FindBoundSignature(env, store, tree, target, identity) == Some(e)
  {
    forall peer ensures Publishes(env, identity, peer) <==> PeerIdOf(env, identity) == Some(peer) {
      PublishesExactly(env, identity, peer);
    }
    hide Publishes, PeerIdOf, Hex, WireBytes;
    if FindBoundSignature(env, store, tree, target, identity) == Some(e) {
      assert Publishes(env, identity, PeerIdOf(env, identity).value);
    }
  }

  /** A hash of the granter: the single one, or one of the signers. */
  predicate Signs(granter: Granter, s: Hash) {
    match granter case Single(h) => s == h case Multi(signers, _) => s in signers
  }

  /** What belongs in a bundle for one link: the link, the identities of its granter or signers
      with the signatures bound for them, and its grantee's identity. */
  ghost predicate Belongs(env: Env, store: Included, tree: Tree, link: Entity, e: Entity) {
    || e == link
    || (link.data.token.Some? &&
        var t := link.data.token.value;
        || (exists s :: && Signs(t.granter, s) && s in store
                        && (e == store[s] || BoundBy(env, store, tree, store[s], link.contentHash, e)))
        || (!AllZero(t.grantee) && t.grantee in store && e == store[t.grantee]))
  }

  lemma BelongsExactly(env: Env, store: Included, tree: Tree, link: Entity, e: Entity)
    ensures Belongs(env, store, tree, link, e) <==> Wanted(env, store, tree, link, e)
  {
    forall identity
      ensures BoundBy(env, store, tree, identity, link.contentHash, e)
         <==> FindBoundSignature(env, store, tree, link.contentHash, identity) == Some(e)
    {
      BoundByExactly(env, store, tree, identity, link.contentHash, e);
    }
    forall h ensures AllZero(h) <==> IsZero(h) { AllZeroExactly(h); }
    hide BoundBy, FindBoundSignature, AllZero, IsZero;
    assert link.data.token.Some? ==>
        forall s :: s in SignersOf(link.data.token.value.granter) <==> Signs(link.data.token.value.granter, s);
    hide SignersOf, Signs;
    assert forall s :: WantedFor(env, store, tree, link, s, e) <==>
        s in store && (e == store[s] || BoundBy(env, store, tree, store[s], link.contentHash, e));
  }

  /** What CollectChainBundle collects: keyed by its own hash, everything in the bundle belongs to
      some link, and whatever belongs to a link has its hash there. */
  lemma BundleMeaning(env: Env, store: Included, tree: Tree, chain: seq<Entity>, bundle: Included)
    ensures IsBundle(env, store, tree, chain, bundle) <==>
              && (forall h :: h in bundle ==>
                    && bundle[h].contentHash == h
                    && exists i :: 0 <= i < |chain| && Belongs(env, store, tree, chain[i], bundle[h]))
              && (forall i, e :: 0 <= i < |chain| && Belongs(env, store, tree, chain[i], e) ==> e.contentHash in bundle)
  {
    forall link, e ensures Belongs(env, store, tree, link, e) <==> Wanted(env, store, tree, link, e) {
      BelongsExactly(env, store, tree, link, e);
    }
    hide Belongs, Wanted;
  }

  /** A signature bound at the path of a signer's peer id for the link's hash is bundled. */
  lemma BoundSignatureIsBundled(env: Env, store: Included, tree: Tree, chain: seq<Entity>, bundle: Included, i: nat,
                                s: Hash, peer: string, e: Entity)
    requires IsBundle(env, store, tree, chain, bundle) && i < |chain| && chain[i].data.token.Some?
    requires Signs(chain[i].data.token.value.granter, s) && s in store && Publishes(env, store[s], peer)
    requires var path := "/" + peer + "/system/signature/" + Hex(WireBytes(chain[i].contentHash));
             path in tree && tree[path] in store && store[tree[path]] == e && e.kind == "system/signature"
    ensures e.contentHash in bundle
  {
    BundleMeaning(env, store, tree, chain, bundle);
    hide IsBundle, Hex, WireBytes, Publishes;
    assert BoundAt(store, tree, peer, chain[i].contentHash, e);
    assert BoundBy(env, store, tree, store[s], chain[i].contentHash, e);
    assert Belongs(env, store, tree, chain[i], e);
  }

  /** The identities whose absence makes CollectChainBundle fail. */
  lemma IdentitiesPresentMeaning(store: Included, t: Token)
    ensures IdentitiesPresent(store, t) <==>
              && (forall s :: Signs(t.granter, s) ==> s in store && store[s].kind == "system/peer")
              && (!AllZero(t.grantee) ==> t.grantee in store && store[t.grantee].kind == "system/peer")
  {
    AllZeroExactly(t.grantee);
    hide AllZero, IsZero;
    assert forall s :: s in SignersOf(t.granter) <==> Signs(t.granter, s);
  }

  /** The bundle grew by wanted entities only. */
  ghost predicate AddsWanted(env: Env, store: Included, tree: Tree, link: Entity, before: Included, after: Included) {
    && before.Keys <= after.Keys
    && (forall h :: h in after ==>
          || (h in before && after[h] == before[h])
          || (after[h].contentHash == h && Wanted(env, store, tree, link, after[h])))
  }

  /** One link's identities and bound signatures. */
  method AddSigners(env: Env, store: Included, tree: Tree, link: Entity,
                    before: Included) returns (r: Result<Included, BundleError>)
    requires link.data.token.Some?
    ensures r.Ok? <==> forall s :: s in SignersOf(link.data.token.value.granter) ==> PeerIn(store, s)
    ensures r.Err? ==> r.error == IdentityUnreachable
    ensures r.Ok? ==> AddsWanted(env, store, tree, link, before, r.value)
    ensures r.Ok? ==>
              var signers := SignersOf(link.data.token.value.granter);
              forall s, e :: s in signers && WantedFor(env, store, tree, link, s, e) ==> e.contentHash in r.value
  {
    hide AddsWanted, FindBoundSignature, Wanted;
    var signers := SignersOf(link.data.token.value.granter);
    var bundle := before;
    AddsNothing(env, store, tree, link, before);
    for i := 0 to |signers|
      invariant forall k :: 0 <= k < i ==> PeerIn(store, signers[k])
      invariant AddsWanted(env, store, tree, link, before, bundle)
      invariant forall k, e :: 0 <= k < i && WantedFor(env, store, tree, link, signers[k], e) ==>
                  e.contentHash in bundle
    {
      var s := signers[i];
      assert s in signers;
      if !PeerIn(store, s) { return Err(IdentityUnreachable); }
      var identity := store[s];
      AddsOne(env, store, tree, link, before, bundle, s, identity);
      bundle := bundle[identity.contentHash := identity];
      var sig := FindBoundSignature(env, store, tree, link.contentHash, identity);
      if sig.Some? {
        AddsOne(env, store, tree, link, before, bundle, s, sig.value);
        bundle := bundle[sig.value.contentHash := sig.value];
      }
    }
    return Ok(bundle);
  }

  lemma AddsNothing(env: Env, store: Included, tree: Tree, link: Entity, before: Included)
    ensures AddsWanted(env, store, tree, link, before, before)
  {
  }

  lemma AddsOne(env: Env, store: Included, tree: Tree, link: Entity, before: Included, bundle: Included, s: Hash,
                e: Entity)
    requires link.data.token.Some? && s in SignersOf(link.data.token.value.granter)
    requires AddsWanted(env, store, tree, link, before, bundle) && WantedFor(env, store, tree, link, s, e)
    ensures AddsWanted(env, store, tree, link, before, bundle[e.contentHash := e])
  {
    hide FindBoundSignature;
  }

  method AddLink(env: Env, store: Included, tree: Tree, link: Entity, before: Included)
    returns (r: Result<Included, BundleError>)
    ensures r.Ok? <==> (link.data.token.Some? ==> IdentitiesPresent(store, link.data.token.value))
    ensures r.Err? ==> r.error == IdentityUnreachable
    ensures r.Ok? ==> AddsWanted(env, store, tree, link, before, r.value)
    ensures r.Ok? ==> forall e :: Wanted(env, store, tree, link, e) ==> e.contentHash in r.value
  {
    var bundle := before[link.contentHash := link];
    if link.data.token.None? { return Ok(bundle); }
    var t := link.data.token.value;
    var added := AddSigners(env, store, tree, link, bundle);
    if added.Err? { return added; }
    bundle := added.value;
    if !IsZero(t.grantee) {
      if !PeerIn(store, t.grantee) { return Err(IdentityUnreachable); }
      bundle := bundle[store[t.grantee].contentHash := store[t.grantee]];
    }
    return Ok(bundle);
  }

  /** CollectChainBundle: succeeds exactly when the walk does and every identity is at hand,
      and then holds exactly the wanted hashes. */
  method CollectChainBundle(env: Env, leaf: Entity, store: Included, tree: Tree)
    returns (r: Result<Included, BundleError>)
    ensures r.Ok? <==> && Walk(IncludedResolver(store), leaf).Ok?
                       && var chain := Walk(IncludedResolver(store), leaf).value;
                          forall i :: 0 <= i < |chain| && chain[i].data.token.Some? ==>
                            IdentitiesPresent(store, chain[i].data.token.value)
    ensures r.Ok? ==> IsBundle(env, store, tree, Walk(IncludedResolver(store), leaf).value, r.value)
    ensures r.Err? ==> r.error == match Walk(IncludedResolver(store), leaf)
                                  case Err(e) => WalkFailed(e)
                                  case Ok(_) => IdentityUnreachable
  {
    hide Wanted, IdentitiesPresent, WalkFrom;
    var walked := CollectAuthorityChain(leaf, IncludedResolver(store));
    if walked.Err? { return Err(WalkFailed(walked.error)); }
    var chain := walked.value;
    var bundle: Included := map[];
    for i := 0 to |chain|
      invariant forall k :: 0 <= k < i && chain[k].data.token.Some? ==>
                  IdentitiesPresent(store, chain[k].data.token.value)
      invariant forall h :: h in bundle ==>
                  bundle[h].contentHash == h && exists k :: 0 <= k < i && Wanted(env, store, tree, chain[k], bundle[h])
      invariant forall k, e :: 0 <= k < i && Wanted(env, store, tree, chain[k], e) ==> e.contentHash in bundle
    {
      var added := AddLink(env, store, tree, chain[i], bundle);
      if added.Err? { return added; }
      assert AddsWanted(env, store, tree, chain[i], bundle, added.value);
      bundle := added.value;
    }
    return Ok(bundle);
  }

  // ----- the receiver's side --------------------------------------------

  /** Content-addressed, and the leaf is what its own hash names there, if anything. */
  ghost predicate ContentAddressed(store: Included, leaf: Entity) {
    && (forall h :: h in store ==> store[h].contentHash == h)
    && (leaf.contentHash in store ==> store[leaf.contentHash] == leaf)
  }

  lemma WantedIsKnown(env: Env, store: Included, tree: Tree, leaf: Entity, chain: seq<Entity>, i: nat, e: Entity)
    requires ContentAddressed(store, leaf) && CompleteWalk(IncludedResolver(store), leaf, chain)
    requires i < |chain| && Wanted(env, store, tree, chain[i], e)
    ensures e == leaf || (e.contentHash in store && store[e.contentHash] == e)
  {
    if i > 0 { assert ParentOf(IncludedResolver(store), chain[i - 1], chain[i]); }
  }

  /** In a bundle over a content-addressed store, a wanted hash holds the wanted entity. */
  lemma WantedIsBundled(env: Env, store: Included, tree: Tree, leaf: Entity, chain: seq<Entity>, bundle: Included,
                        i: nat, e: Entity)
    requires ContentAddressed(store, leaf) && CompleteWalk(IncludedResolver(store), leaf, chain)
    requires IsBundle(env, store, tree, chain, bundle) && i < |chain| && Wanted(env, store, tree, chain[i], e)
    ensures e.contentHash in bundle && bundle[e.contentHash] == e
  {
    hide Wanted;
    var h := e.contentHash;
    var j :| 0 <= j < |chain| && Wanted(env, store, tree, chain[j], bundle[h]);
    WantedIsKnown(env, store, tree, leaf, chain, i, e);
    WantedIsKnown(env, store, tree, leaf, chain, j, bundle[h]);
  }

  lemma SignerBundled(env: Env, store: Included, tree: Tree, leaf: Entity, chain: seq<Entity>, bundle: Included,
                      i: nat, s: Hash)
    requires ContentAddressed(store, leaf) && CompleteWalk(IncludedResolver(store), leaf, chain)
    requires IsBundle(env, store, tree, chain, bundle) && i < |chain| && chain[i].data.token.Some?
    requires s in SignersOf(chain[i].data.token.value.granter) && s in store
    ensures s in bundle && bundle[s] == store[s]
  {
    assert WantedFor(env, store, tree, chain[i], s, store[s]);
    WantedIsBundled(env, store, tree, leaf, chain, bundle, i, store[s]);
  }

  lemma LinksBundled(env: Env, store: Included, tree: Tree, leaf: Entity, chain: seq<Entity>, bundle: Included)
    requires ContentAddressed(store, leaf) && CompleteWalk(IncludedResolver(store), leaf, chain)
    requires IsBundle(env, store, tree, chain, bundle)
    ensures CompleteWalk(IncludedResolver(bundle), leaf, chain)
  {
    forall i | 0 <= i < |chain| - 1 ensures ParentOf(IncludedResolver(bundle), chain[i], chain[i + 1]) {
      assert ParentOf(IncludedResolver(store), chain[i], chain[i + 1]);
      WantedIsBundled(env, store, tree, leaf, chain, bundle, i + 1, chain[i + 1]);
    }
  }

  /** Every identity a link names is in the bundle, as the store has it. */
  ghost predicate IdentitiesBundled(store: Included, bundle: Included, t: Token) {
    && (forall s :: s in SignersOf(t.granter) ==> PeerIn(store, s) && s in bundle && bundle[s] == store[s])
    && (!IsZero(t.grantee) ==> GranteeResolves(t, bundle))
  }

  lemma LinkIdentitiesBundled(env: Env, store: Included, tree: Tree, leaf: Entity, chain: seq<Entity>,
                              bundle: Included, i: nat)
    requires ContentAddressed(store, leaf) && CompleteWalk(IncludedResolver(store), leaf, chain)
    requires IsBundle(env, store, tree, chain, bundle)
    requires i < |chain| && chain[i].data.token.Some? && IdentitiesPresent(store, chain[i].data.token.value)
    ensures IdentitiesBundled(store, bundle, chain[i].data.token.value)
  {
    hide IsBundle, CompleteWalk, ContentAddressed;
    var t := chain[i].data.token.value;
    forall s | s in SignersOf(t.granter) ensures PeerIn(store, s) && s in bundle && bundle[s] == store[s] {
      SignerBundled(env, store, tree, leaf, chain, bundle, i, s);
    }
    if !IsZero(t.grantee) {
      GranteeBundled(env, store, tree, leaf, chain, bundle, i);
    }
  }

  lemma GranteeBundled(env: Env, store: Included, tree: Tree, leaf: Entity, chain: seq<Entity>, bundle: Included,
                       i: nat)
    requires ContentAddressed(store, leaf) && CompleteWalk(IncludedResolver(store), leaf, chain)
    requires IsBundle(env, store, tree, chain, bundle)
    requires i < |chain| && chain[i].data.token.Some?
    requires !IsZero(chain[i].data.token.value.grantee) && PeerIn(store, chain[i].data.token.value.grantee)
    ensures GranteeResolves(chain[i].data.token.value, bundle)
  {
    var g := chain[i].data.token.value.grantee;
    assert Wanted(env, store, tree, chain[i], store[g]);
    WantedIsBundled(env, store, tree, leaf, chain, bundle, i, store[g]);
    assert store[g].contentHash == g;
  }

  /** Bundle closes the receiver's walk: over the bundle alone the walk returns the same
      chain, and every granter, signer and grantee identity is there. */
  lemma BundleClosesWalk(env: Env, store: Included, tree: Tree, leaf: Entity, chain: seq<Entity>, bundle: Included)
    requires ContentAddressed(store, leaf) && Walk(IncludedResolver(store), leaf) == Ok(chain)
    requires IsBundle(env, store, tree, chain, bundle)
    requires forall i :: 0 <= i < |chain| && chain[i].data.token.Some? ==>
               IdentitiesPresent(store, chain[i].data.token.value)
    ensures Walk(IncludedResolver(bundle), leaf) == Ok(chain)
    ensures forall h :: h in bundle ==> bundle[h].contentHash == h
    ensures forall i :: 0 <= i < |chain| && chain[i].data.token.Some? ==>
              IdentitiesBundled(store, bundle, chain[i].data.token.value)
  {
    hide WalkFrom, IdentitiesPresent, IdentitiesBundled, Wanted;
    WalkExactly(IncludedResolver(store), leaf, chain);
    LinksBundled(env, store, tree, leaf, chain, bundle);
    WalkExactly(IncludedResolver(bundle), leaf, chain);
    forall i | 0 <= i < |chain| && chain[i].data.token.Some?
      ensures IdentitiesBundled(store, bundle, chain[i].data.token.value)
    {
      LinkIdentitiesBundled(env, store, tree, leaf, chain, bundle, i);
    }
  }

  // ----- the receiver accepts -------------------------------------------

  /** For every signature the store holds from one of a link's signers, that signer has one bound
      at its path. */
  ghost predicate SignaturesBound(env: Env, store: Included, tree: Tree, link: Entity) {
    link.data.token.Some? ==>
      forall s, e :: && s in SignersOf(link.data.token.value.granter) && s in store
                     && e in store.Values && SignatureBy(e, link.contentHash, s) ==>
        exists f :: BoundBy(env, store, tree, store[s], link.contentHash, f) && SignatureBy(f, link.contentHash, s)
  }

  /** What the bundle shares with the store, seen from one link. */
  ghost predicate Mirrors(env: Env, store: Included, bundle: Included, link: Entity, t: Token) {
    && (forall s :: s in SignersOf(t.granter) && s in store ==> s in bundle && bundle[s] == store[s])
    && (forall e :: e in bundle.Values && SignatureOn(e, link.contentHash) ==> e in store.Values)
    && (forall s, e :: && s in SignersOf(t.granter) && s in store
                       && e in store.Values && SignatureBy(e, link.contentHash, s) ==>
          exists f :: f in bundle.Values && SignatureBy(f, link.contentHash, s))
  }

  lemma MirroredSignedBy(env: Env, store: Included, bundle: Included, link: Entity, t: Token, s: Hash)
    requires Mirrors(env, store, bundle, link, t) && s in SignersOf(t.granter) && SignedBy(env, link, s, store, true)
    ensures SignedBy(env, link, s, bundle, true)
  {
  }

  lemma MirroredLinkSigned(env: Env, store: Included, bundle: Included, link: Entity, t: Token, local: string)
    requires Mirrors(env, store, bundle, link, t)
    ensures LinkSigned(env, link, t.granter, store, true) ==> LinkSigned(env, link, t.granter, bundle, true)
    ensures RootGranted(env, link, t.granter, store, local, true) ==>
              RootGranted(env, link, t.granter, bundle, local, true)
  {
    forall s | s in SignersOf(t.granter) && SignedBy(env, link, s, store, true)
      ensures SignedBy(env, link, s, bundle, true)
    {
      MirroredSignedBy(env, store, bundle, link, t, s);
    }
    match t.granter
    case Single(h) =>
      if SingleSigned(env, link, h, store, true) {
        var e :| e in store.Values && SignatureOn(e, link.contentHash) && GoodSignature(env, link, h, store, e);
        var f :| f in bundle.Values && SignatureBy(f, link.contentHash, h);
        assert SignatureOn(f, link.contentHash) && f in store.Values;
        assert GoodSignature(env, link, h, store, f);
        assert GoodSignature(env, link, h, bundle, f);
        forall g | g in bundle.Values && SignatureOn(g, link.contentHash)
          ensures GoodSignature(env, link, h, bundle, g)
        {
          assert GoodSignature(env, link, h, store, g);
        }
      }
    case Multi(signers, _) =>
      SubsetCardinality(Quorum(env, link, signers, store, true), Quorum(env, link, signers, bundle, true));
      if RootGranted(env, link, t.granter, store, local, true) {
        var s :| s in signers && LocalSigner(env, s, store, local) && SignedBy(env, link, s, store, true);
        assert LocalSigner(env, s, bundle, local) && SignedBy(env, link, s, bundle, true);
      }
  }

  /** Every signature in the bundle was in the store. */
  lemma BundledSignaturesKnown(env: Env, store: Included, tree: Tree, leaf: Entity, chain: seq<Entity>,
                               bundle: Included, target: Hash)
    requires ContentAddressed(store, leaf) && CompleteWalk(IncludedResolver(store), leaf, chain)
    requires IsBundle(env, store, tree, chain, bundle) && leaf.kind != TYPE_SIGNATURE
    ensures forall e :: e in bundle.Values && SignatureOn(e, target) ==> e in store.Values
  {
    hide Wanted, CompleteWalk;
    forall e | e in bundle.Values && SignatureOn(e, target) ensures e in store.Values {
      var h :| h in bundle && bundle[h] == e;
      var j :| 0 <= j < |chain| && Wanted(env, store, tree, chain[j], bundle[h]);
      WantedIsKnown(env, store, tree, leaf, chain, j, e);
    }
  }

  lemma BundleMirrors(env: Env, store: Included, tree: Tree, leaf: Entity, chain: seq<Entity>, bundle: Included, i: nat)
    requires ContentAddressed(store, leaf) && CompleteWalk(IncludedResolver(store), leaf, chain)
    requires IsBundle(env, store, tree, chain, bundle)
    requires leaf.kind != TYPE_SIGNATURE
    requires i < |chain| && chain[i].data.token.Some? && SignaturesBound(env, store, tree, chain[i])
    ensures Mirrors(env, store, bundle, chain[i], chain[i].data.token.value)
  {
    hide Wanted;
    var link := chain[i];
    var t := link.data.token.value;
    forall s | s in SignersOf(t.granter) && s in store ensures s in bundle && bundle[s] == store[s] {
      SignerBundled(env, store, tree, leaf, chain, bundle, i, s);
    }
    BundledSignaturesKnown(env, store, tree, leaf, chain, bundle, link.contentHash);
    forall s, e | s in SignersOf(t.granter) && s in store && e in store.Values && SignatureBy(e, link.contentHash, s)
      ensures exists f :: f in bundle.Values && SignatureBy(f, link.contentHash, s)
    {
      var f :| BoundBy(env, store, tree, store[s], link.contentHash, f) && SignatureBy(f, link.contentHash, s);
      BoundByExactly(env, store, tree, store[s], link.contentHash, f);
      BoundIsWanted(env, store, tree, link, s, f);
      WantedIsBundled(env, store, tree, leaf, chain, bundle, i, f);
      assert bundle[f.contentHash] == f;
      assert f in bundle.Values;
    }
  }

  lemma BoundIsWanted(env: Env, store: Included, tree: Tree, link: Entity, s: Hash, f: Entity)
    requires link.data.token.Some? && s in SignersOf(link.data.token.value.granter) && s in store
    requires FindBoundSignature(env, store, tree, link.contentHash, store[s]) == Some(f)
    ensures Wanted(env, store, tree, link, f)
  {
  }

  /** End to end: a chain the sender's own store would accept in every order, with its
      signatures bound at their paths, is accepted by the receiver from the bundle alone. */
  lemma BundledChainIsAccepted(env: Env, store: Included, tree: Tree, leaf: Entity, bundle: Included, local: string,
                               clock: Clock)
    requires Accepts(env, leaf, store, local, clock, true)
    requires ContentAddressed(store, leaf) && env.selfConsistent(leaf) && leaf.kind != TYPE_SIGNATURE
    requires var chain := ChainOf(leaf, store);
             && IsBundle(env, store, tree, chain, bundle)
             && (forall i :: 0 <= i < |chain| ==> SignaturesBound(env, store, tree, chain[i]))
             && (forall i :: 0 <= i < |chain| && chain[i].data.token.Some? ==>
                   IdentitiesPresent(store, chain[i].data.token.value))
    ensures Accepts(env, leaf, bundle, local, clock, true)
  {
    hide LinkHolds, Wanted, SignaturesBound, IdentitiesPresent, IdentitiesBundled, WalkFrom;
    var chain := ChainOf(leaf, store);
    BundleClosesWalk(env, store, tree, leaf, chain, bundle);
    WalkExactly(IncludedResolver(store), leaf, chain);
    forall h | h in bundle ensures env.selfConsistent(bundle[h]) {
      var j :| 0 <= j < |chain| && Wanted(env, store, tree, chain[j], bundle[h]);
      WantedIsKnown(env, store, tree, leaf, chain, j, bundle[h]);
    }
    forall i | 0 <= i < |chain| ensures LinkHolds(env, chain, i, bundle, local, clock(i), true) {
      assert LinkHolds(env, chain, i, store, local, clock(i), true);
      BundledLinkHolds(env, store, tree, leaf, chain, bundle, local, clock(i), i);
    }
  }

  lemma BundledLinkHolds(env: Env, store: Included, tree: Tree, leaf: Entity, chain: seq<Entity>, bundle: Included,
                         local: string, now: u64, i: nat)
    requires ContentAddressed(store, leaf) && CompleteWalk(IncludedResolver(store), leaf, chain)
    requires leaf.kind != TYPE_SIGNATURE
    requires IsBundle(env, store, tree, chain, bundle)
    requires i < |chain| && LinkHolds(env, chain, i, store, local, now, true)
    requires forall k :: 0 <= k < |chain| ==> SignaturesBound(env, store, tree, chain[k])
    requires forall k :: 0 <= k < |chain| && chain[k].data.token.Some? ==>
               IdentitiesBundled(store, bundle, chain[k].data.token.value)
    ensures LinkHolds(env, chain, i, bundle, local, now, true)
  {
    hide Wanted, SignaturesBound, Attenuated, Matchable, CaveatsAllow, InWindow, LinkSigned, RootGranted;
    var t := chain[i].data.token.value;
    BundleMirrors(env, store, tree, leaf, chain, bundle, i);
    MirroredLinkSigned(env, store, bundle, chain[i], t, local);
    if i < |chain| - 1 {
      SamePeer(env, store, bundle, t, local);
      SamePeer(env, store, bundle, chain[i + 1].data.token.value, local);
    }
  }

  lemma SamePeer(env: Env, store: Included, bundle: Included, t: Token, local: string)
    requires IdentitiesBundled(store, bundle, t)
    ensures GranterPeer(env, t.granter, bundle, local) == GranterPeer(env, t.granter, store, local)
  {
  }

  // ----- and only what the sender's store would -------------------------

  lemma SignedInStore(env: Env, store: Included, bundle: Included, link: Entity, t: Token, local: string)
    requires IdentitiesBundled(store, bundle, t)
    requires forall e :: e in bundle.Values && SignatureOn(e, link.contentHash) ==> e in store.Values
    ensures LinkSigned(env, link, t.granter, bundle, false) ==> LinkSigned(env, link, t.granter, store, false)
    ensures RootGranted(env, link, t.granter, bundle, local, false) ==>
              RootGranted(env, link, t.granter, store, local, false)
  {
    forall s, sought: Sought | && s in SignersOf(t.granter) && sought.target == link.contentHash
                               && Good(env, link, s, bundle, sought, false)
      ensures Good(env, link, s, store, sought, false)
    {
      var e :| e in bundle.Values && Meets(e, sought) && GoodSignature(env, link, s, bundle, e);
      assert e in store.Values && GoodSignature(env, link, s, store, e);
    }
    hide Good;
    match t.granter
    case Single(_) =>
    case Multi(signers, _) =>
      SubsetCardinality(Quorum(env, link, signers, bundle, false), Quorum(env, link, signers, store, false));
      if RootGranted(env, link, t.granter, bundle, local, false) {
        var s :| s in signers && LocalSigner(env, s, bundle, local) && SignedBy(env, link, s, bundle, false);
        assert LocalSigner(env, s, store, local) && SignedBy(env, link, s, store, false);
      }
  }

  lemma LinkHoldsInStore(env: Env, store: Included, bundle: Included, chain: seq<Entity>, local: string, now: u64,
                         i: nat)
    requires i < |chain| && LinkHolds(env, chain, i, bundle, local, now, false)
    requires forall e :: e in bundle.Values && SignatureOn(e, chain[i].contentHash) ==> e in store.Values
    requires forall k :: 0 <= k < |chain| && chain[k].data.token.Some? ==>
               IdentitiesBundled(store, bundle, chain[k].data.token.value)
               && IdentitiesPresent(store, chain[k].data.token.value)
    ensures LinkHolds(env, chain, i, store, local, now, false)
  {
    var t := chain[i].data.token.value;
    SignedInStore(env, store, bundle, chain[i], t, local);
    SamePeer(env, store, bundle, t, local);
    if i < |chain| - 1 { SamePeer(env, store, bundle, chain[i + 1].data.token.value, local); }
    assert PeerIn(store, t.grantee);
    hide Attenuated, Matchable, CaveatsAllow, InWindow, LinkSigned, RootGranted, ValidStructure, IdentitiesBundled,
         IdentitiesPresent, GranterPeer;
  }

  /** A bundle accepted in some order comes from a store that is accepted in some order. */
  lemma BundleAcceptedFromStore(env: Env, store: Included, tree: Tree, leaf: Entity, bundle: Included, local: string,
                                clock: Clock)
    requires KeyBound(env, store) && ContentAddressed(store, leaf) && leaf.kind != TYPE_SIGNATURE
    requires Walk(IncludedResolver(store), leaf).Ok?
    requires var chain := ChainOf(leaf, store);
             && IsBundle(env, store, tree, chain, bundle)
             && (forall i :: 0 <= i < |chain| && chain[i].data.token.Some? ==>
                   IdentitiesPresent(store, chain[i].data.token.value))
    requires Accepts(env, leaf, bundle, local, clock, false)
    ensures Accepts(env, leaf, store, local, clock, false)
  {
    hide LinkHolds, Wanted, IdentitiesPresent, IdentitiesBundled, WalkFrom, IsBundle, CompleteWalk, ContentAddressed;
    var chain := ChainOf(leaf, store);
    BundleClosesWalk(env, store, tree, leaf, chain, bundle);
    WalkExactly(IncludedResolver(store), leaf, chain);
    forall i | 0 <= i < |chain| ensures LinkHolds(env, chain, i, store, local, clock(i), false) {
      assert LinkHolds(env, chain, i, bundle, local, clock(i), false);
      BundledSignaturesKnown(env, store, tree, leaf, chain, bundle, chain[i].contentHash);
      LinkHoldsInStore(env, store, bundle, chain, local, clock(i), i);
    }
  }

  /** With one signature per link and signer, bound at its path, the receiver's verdict on the
      bundle is the verdict on the sender's store. */
  lemma BundleVerdictExactly(env: Env, store: Included, tree: Tree, leaf: Entity, bundle: Included, local: string,
                             clock: Clock)
    requires KeyBound(env, store) && ContentAddressed(store, leaf) && leaf.kind != TYPE_SIGNATURE
    requires env.selfConsistent(leaf) && Walk(IncludedResolver(store), leaf).Ok?
    requires var chain := ChainOf(leaf, store);
             && IsBundle(env, store, tree, chain, bundle)
             && forall i :: 0 <= i < |chain| ==>
                  && SignaturesBound(env, store, tree, chain[i]) && chain[i].data.token.Some?
                  && IdentitiesPresent(store, chain[i].data.token.value)
                  && UnambiguousSignatures(chain[i], chain[i].data.token.value.granter, store)
    ensures forall sure ::
              Accepts(env, leaf, bundle, local, clock, sure) <==> Accepts(env, leaf, store, local, clock, sure)
  {
    UnambiguousChainDecided(env, leaf, store, local, clock);
    hide ChainHolds, KeyBound, WalkFrom, IsBundle, SignaturesBound, IdentitiesPresent, UnambiguousSignatures,
         ContentAddressed;
    if Accepts(env, leaf, store, local, clock, true) {
      BundledChainIsAccepted(env, store, tree, leaf, bundle, local, clock);
    }
    if Accepts(env, leaf, bundle, local, clock, true) { SureIsStronger(env, leaf, bundle, local, clock); }
    if Accepts(env, leaf, bundle, local, clock, false) {
      BundleAcceptedFromStore(env, store, tree, leaf, bundle, local, clock);
    }
  }

  /** Mint, bundle, verify: a capability minted on a verified chain, added to the store and
      bundled, is accepted at the receiver from the bundle alone. */
  lemma MintedBundleIsAccepted(env: Env, key: Keypair, parent: Entity, store: Included, tree: Tree, cap: Entity,
                               sig: Entity, t: Token, chain: seq<Entity>, bundle: Included, local: string,
                               clock: Clock)
    requires Accepts(env, parent, store, local, Later(clock), true) && parent.data.token.Some?
    requires parent.contentHash in store && store[parent.contentHash] == parent
    requires GoodMint(env, key, parent, store, local, clock(0), cap, sig, t)
    requires ShiftedCaveatsAllow(ChainOf(parent, store)) && |ChainOf(parent, store)| <= MAX_CHAIN_DEPTH
    requires Walk(IncludedResolver(Extended(store, cap, sig)), cap) == Ok(chain)
    requires IsBundle(env, Extended(store, cap, sig), tree, chain, bundle)
    requires forall i :: 0 <= i < |chain| ==> SignaturesBound(env, Extended(store, cap, sig), tree, chain[i])
    requires forall i :: 0 <= i < |chain| && chain[i].data.token.Some? ==>
               IdentitiesPresent(Extended(store, cap, sig), chain[i].data.token.value)
    ensures Accepts(env, cap, bundle, local, clock, true)
  {
    hide ChainHolds, IsBundle, SignaturesBound, IdentitiesPresent, WalkFrom, Attenuated, Matchable, KeyMatches;
    var larger := Extended(store, cap, sig);
    MintExtendsChain(env, key, parent, store, local, clock, cap, sig, t);
    assert larger[cap.contentHash] == cap;
    BundledChainIsAccepted(env, larger, tree, cap, bundle, local, clock);
  }
}
