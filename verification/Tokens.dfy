/** Data model: content hashes, entities, capability tokens, and the environment of
    helpers (cryptography, codecs) the capability code calls. */
module Tokens {
  import opened Patterns

  type byte = x: int | 0 <= x < 256
  type Bytes = seq<byte>
  type u64 = x: int | 0 <= x < TWO_64

  const TWO_64 := 0x1_0000_0000_0000_0000

  datatype Result<+T, +E> = Ok(value: T) | Err(error: E)

  // ----- content hashes -------------------------------------------------

  /** Format code and digest.  An allocated format fixes the digest length. */
  datatype Hash = Hash(algorithm: byte, digest: Bytes)

  function DigestLen(algorithm: byte): nat {
    if algorithm == 0 then 32 else if algorithm == 1 then 48 else 0
  }

  predicate WellFormed(h: Hash) {
    DigestLen(h.algorithm) > 0 && |h.digest| == DigestLen(h.algorithm)
  }

  predicate IsZero(h: Hash) {
    h.algorithm == 0 && forall i :: 0 <= i < |h.digest| ==> h.digest[i] == 0
  }

  /** Wire form: format code, then as many digest bytes as the format implies. */
  function WireBytes(h: Hash): Bytes {
    var n := DigestLen(h.algorithm);
    [h.algorithm] + (if |h.digest| < n then h.digest else h.digest[..n])
  }

  // ----- tokens ---------------------------------------------------------

  datatype Scope = Scope(includes: seq<string>, excludes: seq<string>)

  /** Constraints and allowances are the decoded CBOR maps (an absent, empty or
      undecodable map decodes to the empty one), with byte-string values. */
  datatype Grant = Grant(
    handlers: Scope,
    resources: Scope,
    operations: Scope,
    peers: Option<Scope>,
    constraints: map<string, Bytes>,
    allowances: map<string, Bytes>)

  datatype Granter = Single(hash: Hash) | Multi(signers: seq<Hash>, threshold: u64)

  datatype Caveats = Caveats(noDelegation: Option<bool>, maxDepth: Option<u64>, maxTtl: Option<u64>)

  datatype Token = Token(
    grants: seq<Grant>,
    granter: Granter,
    grantee: Hash,
    parent: Option<Hash>,
    createdAt: u64,
    expiresAt: Option<u64>,
    notBefore: Option<u64>,
    caveats: Option<Caveats>)

  /** Multi-signature granters: at least two distinct signers, 2 <= K <= N, roots
      only.  The grantee is never the zero hash. */
  predicate ValidGranter(g: Granter) {
    g.Multi? ==>
      && |g.signers| >= 2
      && 2 <= g.threshold <= |g.signers|
      && forall i, j :: 0 <= i < j < |g.signers| ==> g.signers[i] != g.signers[j]
  }

  predicate ValidStructure(t: Token) {
    && ValidGranter(t.granter)
    && (t.granter.Multi? ==> t.parent.None?)
    && !IsZero(t.grantee)
  }

  /** The validity window is half open: expired from `expiresAt` on. */
  predicate Expired(expiresAt: Option<u64>, now: u64) {
    expiresAt.Some? && expiresAt.value <= now
  }

  predicate InWindow(t: Token, now: u64) {
    (t.notBefore.Some? ==> t.notBefore.value <= now) && !Expired(t.expiresAt, now)
  }

  // ----- entities -------------------------------------------------------

  datatype SignatureData = SignatureData(target: Hash, signer: Hash, signature: Bytes)

  datatype PeerData = PeerData(publicKey: Bytes, keyType: string)

  /** An entity's data, as the outcomes of the three decodings the code attempts. */
  datatype Data = Data(token: Option<Token>, signature: Option<SignatureData>, peer: Option<PeerData>)

  datatype Entity = Entity(kind: string, data: Data, contentHash: Hash)

  const TYPE_PEER := "system/peer"
  const TYPE_SIGNATURE := "system/signature"
  const TYPE_TOKEN := "system/capability/token"

  type Included = map<Hash, Entity>

  type Resolver = Hash -> Option<Entity>

  /** Helpers outside this model: peer-id canonicalization, key types, peer-id
      derivation, signing and verification, content hashing and entity encoding. */
  datatype Env = Env(
    canonicalPeer: string -> Option<string>,
    keyType: string -> Option<byte>,
    derivePeer: (Bytes, byte) -> Option<string>,
    verify: (byte, Bytes, Bytes, Bytes) -> bool,
    selfConsistent: Entity -> bool,
    tokenEntity: Token -> Option<Entity>,
    signatureEntity: SignatureData -> Option<Entity>)

  /** The key a peer entity publishes, when its data decodes and its key type is
      supported. */
  function KeyOf(env: Env, ent: Entity): Option<(byte, Bytes)> {
    match ent.data.peer
    case None => None
    case Some(p) =>
      match env.keyType(p.keyType)
      case None => None
      case Some(kt) => Some((kt, p.publicKey))
  }

  function PeerIdOf(env: Env, ent: Entity): Option<string> {
    match KeyOf(env, ent)
    case None => None
    case Some((kt, key)) => env.derivePeer(key, kt)
  }

  /** As PeerIdOf, for an entity that must also be of peer type. */
  function PeerIdFromPeerEntity(env: Env, ent: Entity): Option<string> {
    if ent.kind != TYPE_PEER then None else PeerIdOf(env, ent)
  }

  /** The namespace a token's resource patterns are read in: its own granter's; the
      local peer's for a multi-signature or zero granter. */
  function GranterPeer(env: Env, granter: Granter, included: Included, local: string): Option<string> {
    match granter
    case Multi(_, _) => Some(local)
    case Single(h) =>
      if IsZero(h) then Some(local)
      else if h !in included then None
      else PeerIdFromPeerEntity(env, included[h])
  }

  /** Every included entity is self-consistent and filed under its own hash. */
  ghost predicate KeyBound(env: Env, included: Included) {
    forall h :: h in included ==> env.selfConsistent(included[h]) && included[h].contentHash == h
  }

  /** Peer ids are slash-free, so a string with a slash never canonicalizes. */
  ghost predicate PeerIdsAreSegments(env: Env, local: string) {
    '/' !in local && forall s :: '/' in s ==> env.canonicalPeer(s).None?
  }
}
