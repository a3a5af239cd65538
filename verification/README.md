# Capability delegation, authorization and the receive boundary: a Dafny model

This project models the capability system of an entity-core peer (`core/capability`), the CBOR
tag scanner at its receive boundary (`core/ecf/forbid_tags.go`) and the citation scanner of the
conformance register (`cmd/conformance-register/resolve.go`), and proves properties of them.
`dafny verify dfyconfig.toml` checks the whole project.

A capability token carries grants with four scope dimensions: handlers and resources are path
patterns, operations and peers are identifiers; each has includes and excludes. Tokens form parent
chains. `VerifyChain` checks a chain pattern against pattern; `CheckPermission` and
`CheckPathPermission` answer single requests. The central results say that the first kind of check
implies the second kind of containment, over chains of any length, with every link reading its
patterns in its own granter's namespace.

## Main results

- No widening: what the leaf of an accepted chain authorizes, every ancestor authorizes, at the
  dispatch level and at the path level, each token read in its own granter's namespace, when no
  exclude slips at any link (`NoWidening.ChainNeverWidens`). The condition is exact
  (`NoWidening.BackedExactly`, `NoWidening.AncestorAdmitsExactly`,
  `NoWidening.LoneGrantChainExactly`), is never violated by concrete targets
  (`NoWidening.ConcreteNeverWidens`), and is violated by what the minter itself builds
  (`Widening.MintedLeafWidens`).
- Containment: an accepted request names only granted, unexcluded paths exactly when the caller
  answers the blind pairs that share a path a tree can hold (`RealPaths.RealContainmentExactly`; over
  all strings, `GenericPaths.ContainmentExactly`); then it stays inside every ancestor
  (`NoWidening.RealPathsStayInsideAncestors`, `NoWidening.RequestStaysInsideAncestors`).
- Meaning: each check decides exactly what a description on the records themselves says
  (`AcceptedChains.AcceptsMeaning`, `Verdicts.PermitsMeaning`, `Verdicts.AttenuatedMeaning`,
  `ChainBundle.BundleMeaning`, `Revocation.LiveMeaning`).
- Iteration order: which verdicts of `VerifyChain` are possible over all map orders
  (`ChainVerification.AcceptsExactly`), and exactly when the order cannot matter
  (`Signatures.SingleOrderIndependence`, `Signatures.QuorumOrderIndependence`).
- Composition: what is minted and bundled is accepted
  (`Mint.MintedCapabilityIsAccepted`, `ChainBundle.MintedBundleIsAccepted`), and a bundle gets the
  store's verdict (`ChainBundle.BundleVerdictExactly`).
- Walks: the bounded walk and the revocation walk over arbitrary graphs (`Authority.WalkExactly`,
  `Revocation.IsRevoked`, `Revocation.MarkerFrame`).
- Patterns: syntactic coverage is language inclusion (`Patterns.CoverageIsInclusion`), and the
  overlap test is characterized exactly, misses and false reports alike (`Overlap.OverlapExactly`).
- Scanning: the tag scanner accepts exactly the encodings of one tag-free item
  (`ForbidTags.CheckForbidTags`); the citation scanner refines a declarative binding
  (`Citations.ParseCitations`).

## How the source is modelled

- `Patterns`, `Overlap`, `GenericPaths`, `RealPaths`: the path and id pattern grammars,
  canonicalization, pattern overlap, a most general common path of two patterns, and containment
  over the valid star-free paths a tree can hold.
- `Tokens`: hashes, entities, tokens, and `Env`, a record of the helpers outside the model (peer-id
  canonicalization and derivation, signature verification, entity hashing and encoding). Facts
  needed of a helper are stated as hypotheses: `PeerIdsAreSegments`, `FaithfulCodec`, `KeyMatches`.
- `Scopes`, `Permission`, `Verdicts`: one dimension at a time, then the dispatch-level and path-level
  checks, and what they decide.
- `Attenuation`, `Authority`, `Signatures`, `ChainVerification`, `AcceptedChains`, `NoWidening`,
  `Widening`: delegation subset checks, the bounded walk, link signatures, `VerifyChain`, what it
  accepts, the whole-chain theorems, and the chains that widen.
  `CreatorAuthority`: who counts as a creator.
- `Mint`, `ChainBundle`, `StoragePaths`, `Revocation`: extending, shipping and revoking chains.
- `Cbor`, `ForbidTags`: definite-length CBOR items and the scanner. `Citations`: the scanner of
  spec references.

Loops of the source are methods with loops, each proved equal to a declarative predicate; the
theorems are about those predicates. The predicates in turn are tied to descriptions that use none
of the checks' own vocabulary, only the records, the helpers in `Env` and the languages of patterns:
`Verdicts` for the permission and delegation checks, `AcceptedChains` for `VerifyChain`, and a lemma
named `...Meaning` beside each of the others. The source's several small loops over one list share a method
where they are the same loop. The wall clock is a parameter: `now` where it is read once, and a
`Clock`, one reading per link, in `VerifyChain`.

Go map iteration order is arbitrary. Every lookup that ranges over a map does so in an explicit
order, each call in one of its own: the methods return the orders they met as ghost values, and
their verdicts are functions of these (`LinkVerdict`, `RootVerdict`, `RunAccepts`). Predicates with a
`sure` flag mention no order; `sure == false` is proved to mean that some run accepts and
`sure == true` that every run does.

An entity's data is modelled by the outcomes of the three decodings the code tries on it (token,
signature, peer), so one entity may decode in several ways, as the code allows.

## What the proofs found

- `PatternsOverlap` compares stems. It is blind to some pairs with a leading peer wildcard
  (`/p/*` against `/*/secret`), and it reports some pairs that share nothing (`/p/data/*` against
  `/p/data-x/*`); `Overlap.OverlapExactly` says exactly which. A blind pair lets a pattern target
  reach an excluded path, exactly when the two share a path a tree can hold
  (`RealPaths.BlindPairEscapes`; with caller excludes, `RealPaths.RealContainmentExactly`). A spurious
  pair has a request refused that names nothing excluded (`RealPaths.SpuriousPairRefused`).
- For the same reason a child that inherits an exclude through a peer wildcard can admit a pattern
  target its parent refuses. `Attenuation.TargetNarrowsExactly` says exactly when;
  `Widening.MintedLeafWidens` shows that such a link, minted on any accepted chain, is accepted in
  every order and authorizes what its parent refuses. Concrete targets are never affected.
- A single-signature link is checked against whichever signature on it is found first, whoever
  signed. With a second signer's signature beside a good one, one order accepts and another refuses
  (`Signatures.StraySignatureUnsettlesSingle`); the order is irrelevant exactly when the signatures
  on the link are all good or all bad (`Signatures.SingleOrderIndependence`).
- The scanner accepts two-byte simple values below 32, which section 3.3 of RFC 8949 calls not
  well-formed (`ForbidTags.ShortSimpleIsAccepted`); apart from these its inputs are well-formed
  (`ForbidTags.AcceptedIsWellFormedExactly`).
- The comment on `CheckCreatorAuthority` has a malformed link disqualify the chain whoever the writer
  is; the code stops at the first link the writer granted and never sees a malformed one above it
  (`CreatorAuthority.MalformedDisqualifiesExactly`, `CreatorAuthority.MalformedRootStillAuthorizes`).
- The comment on `CollectChainBundle` calls an unresolvable identity omitted; the code fails, and
  `ChainBundle.CollectChainBundle` succeeds only if every identity is at hand.

## Model

| member | source | states |
|---|---|---|
| `Patterns.MatchesPatternMeaning` | core/capability/check.go:704-741 | matching holds exactly when the path has a reading: one segment per leading wildcard, and a rest that is the tail, lies below its stem, or is anything under "*"; no bare-prefix self-match |
| `Patterns.IdMatchesMeaning` | core/capability/check.go:446-454 | an id pattern stands for exactly everything, itself, or what lies below its stem |
| `Patterns.MatchesReflexive` | core/capability/check.go:704-741 | every pattern, taken as a path, matches itself |
| `Patterns.MatchesTransitive` | core/capability/check.go:704-741 | coverage composes over all strings, nested peer wildcards included |
| `Patterns.CoverageIsInclusion` | core/capability/check.go:704-741 | one pattern covers another if and only if its language includes the other's |
| `Patterns.IdTransitive` | core/capability/check.go:446-454 | id-scope coverage composes |
| `Patterns.IdCoverageIsInclusion` | core/capability/check.go:446-454 | id-scope coverage is exactly inclusion of the values matched |
| `Patterns.IdMatchesRefinesPathMatches` | core/capability/check.go:431-454 | the id grammar never matches what the path matcher would not: using the path matcher on an id dimension can only widen |
| `Patterns.CanonicalizeIdempotent` | core/capability/check.go:761-790 | a canonical form is absolute or of a never-matching form, whichever the input was, and a second canonicalization for any peer changes nothing |
| `Patterns.RelativeStaysInNamespace` | core/capability/check.go:743-790 | a relative pattern lies in its granter's namespace and is recovered by dropping the peer segment |
| `Patterns.UriIsItsAbsolutePath` | core/entity/uri.go:19-38 | an entity URI, with or without a path, canonicalizes to the absolute path it names, in every namespace |
| `Patterns.CanonicalizeMeaning` | core/capability/check.go:761-790 | the canonical form of everything else: reserved and absolute forms stay, "*" is the whole namespace, the rest is put under the peer |
| `Patterns.UnmatchableForms` | core/capability/check.go:827-842 | the never-matching forms are exactly those that begin with a segment ".", ".." or "*" |
| `Patterns.UnmatchableExactly` | core/capability/check.go:827-842 | among canonical patterns the unmatchable ones are exactly those no absolute path matches |
| `Patterns.CoverOfUnmatchable` | core/capability/check.go:838-842 | only the universal or an unmatchable pattern covers an unmatchable one, so an inherited misspelt exclude stays fail-closed |
| `Overlap.SharesPathExactly` | core/capability/check.go:565-583 | an independent decision procedure for "some path matches both patterns" is exact |
| `Overlap.OverlapNeverMisses` | core/capability/check.go:566-583 | with a star-free side, or no leading peer wildcard, a common path is never missed |
| `Overlap.OverlapMissesExactly` | core/capability/check.go:566-583 | a common path is missed exactly on the blind pairs |
| `Overlap.OverlapExactly` | core/capability/check.go:566-583 | the test reports exactly the pairs that share a path, save the blind ones, and the spurious ones besides |
| `Overlap.OverlapMeaning` | core/capability/check.go:566-583 | the test case by case, on stars and stems |
| `Overlap.SpuriousSubtreesExactly` | core/capability/check.go:574-582 | two subtrees without peer wildcards overlap spuriously if and only if one stem continues the other inside a segment |
| `Overlap.BlindPairExists` | core/capability/check.go:579-582 | for every peer and name, the peer's namespace and the name under every peer form a blind pair |
| `Overlap.OverlapWidens` | core/capability/check.go:566-583 | away from leading peer wildcards, enlarging a pattern keeps its overlaps |
| `Scopes.ScopeContains` | core/capability/check.go:805-825 | admitted by an include and by no exclude, an unmatchable exclude excluding everything |
| `Scopes.MatchesIdScope` | core/capability/check.go:463-480 | admitted by an include and by no exclude in the id grammar |
| `Scopes.MatchesPeerScope` | core/capability/check.go:518-558 | definitely included and definitely not excluded; unresolvable entries fail closed on both sides |
| `Scopes.PeerScopeSeesIdentity` | core/capability/check.go:482-530 | two spellings of one peer identity get the same verdict from every peers scope |
| `Scopes.IsCoveredBy` | core/capability/check.go:348-357 | some pattern, read in the granter's namespace, matches the target read in the local one |
| `Scopes.IsExcluded` | core/capability/check.go:891-908 | some exclude is unmatchable or matches the target |
| `Scopes.EffectiveTargets` | core/capability/check.go:235-250 | the targets the caller's own excludes do not cover, in order and as written |
| `Scopes.EffectiveMembers` | core/capability/check.go:199-250 | a target is effective if and only if it is named and not covered by a caller exclude |
| `Scopes.EffectiveInOrder` | core/capability/check.go:235-250 | the surviving targets keep their order |
| `Scopes.ExtractPeerReadsLocator` | core/capability/check.go:385-395 | the path and URI spellings of a locator both address the peer they name |
| `Scopes.ValidPathNamesItsPeer` | core/store/store.go:101-127 | a valid concrete path starts with the peer id it addresses |
| `Scopes.PatternTargetExcludes` | core/capability/check.go:322-333 | a pattern target passes when no exclude is unmatchable and every overlapping one is covered by a caller exclude |
| `Scopes.CheckResourceScope` | core/capability/check.go:280-343 | accepts exactly when every effective target is valid, included and cleared of excludes in its arm |
| `Scopes.AcceptedTargetNamesRealPeer` | core/capability/check.go:252-292 | an accepted concrete target is rooted at a syntactic peer id, even under a peer-wildcard grant |
| `Scopes.AcceptedResourcesAreContained` | core/capability/check.go:280-357 | an accepted request names only strings some include reaches and no exclude reaches, when no pattern target is blind to an exclude |
| `Scopes.PlainPatternsSeeEveryExclude` | core/capability/check.go:566-583 | the condition holds whenever nothing begins with a peer wildcard |
| `GenericPaths.GenericCommonMatches` | core/capability/check.go:704-741 | the generic path of two overlapping patterns matches both |
| `GenericPaths.GenericCommonDecides` | core/capability/check.go:704-741 | a pattern shorter than the fill matches the generic path only if it matches everything the two patterns share |
| `GenericPaths.UnspelledExists` | core/capability/check.go:280-284 | a fill longer than every caller exclude, and shaped like a peer id, always exists |
| `GenericPaths.ContainmentExactly` | core/capability/check.go:280-343 | over all strings, starred and invalid ones included: an accepted request is contained if and only if the caller excludes the generic path of every blind pair |
| `RealPaths.ShareRealExactly` | core/store/store.go:101-127 | two patterns share a valid star-free path if and only if they share a path and their generic one is valid and star-free |
| `RealPaths.NamedPairShareReal` | core/capability/check.go:566-583 | one peer's namespace and a name under every peer are a blind pair, and share a real path if and only if the peer is a peer id and the name is clean |
| `RealPaths.RealContainmentExactly` | core/capability/check.go:280-343 | over the paths a tree can hold: an accepted request, caller excludes and all, is contained if and only if the caller excludes the generic path of every blind pair whose generic path is real |
| `RealPaths.ContainmentWithoutCallerExcludes` | core/capability/check.go:299-333 | without caller excludes an accepted request is contained if and only if no pattern target shares a real path with an exclude it is blind to |
| `RealPaths.BlindPairEscapes` | core/capability/check.go:299-333 | every blind pair of absolute patterns gives an accepted request, accepted wrongly if and only if the pair shares a real path |
| `RealPaths.SpuriousPairRefused` | core/capability/check.go:322-333 | every spurious pair gives a refused request that names nothing excluded |
| `Permission.FindMatchingGrant` | core/capability/check.go:135-197 | finds a grant exactly when the token is in its window and some grant admits the request in all four dimensions, and then the first such grant |
| `Permission.CheckPathPermission` | core/capability/check.go:592-688 | the path-level verdict, concrete and pattern subjects |
| `Permission.TargetAgreesExactly` | core/capability/check.go:631-682 | a target the dispatch level admits is admitted at the path level, for patterns exactly when no grant exclude overlaps |
| `Permission.DispatchImpliesPathLevel` | core/capability/check.go:592-688 | what dispatch accepts, the path level accepts for each effective concrete target, and for every effective target when the caller excludes nothing |
| `Permission.PathLevelIsContained` | core/capability/check.go:618-686 | a path-level acceptance covers only included, unexcluded paths, unless blind |
| `Verdicts.PermitsMeaning` | core/capability/check.go:135-197 | FindMatchingGrant's verdict on the records themselves: half-open window, and a grant whose languages allow operation and handler, whose resources allow every target the caller keeps, and whose peers, or without any the local peer, include the addressed peer |
| `Verdicts.AbsentPeersMeanLocal` | core/capability/check.go:185-191 | when no grant carries a peers scope, a permitted request addresses the local peer |
| `Verdicts.PathPermitsMeaning` | core/capability/check.go:592-688 | CheckPathPermission's verdict on the records themselves: window, operation, handler and one subject |
| `Verdicts.ResourceExactly` | core/capability/check.go:280-343 | the resource check by languages: each kept target is a pattern or a valid path, included, and unobstructed by each exclude |
| `Verdicts.ValidTextExactly` | core/store/store.go:30-127 | a valid path is exactly a slash, a peer id of at least 46 Base58 characters, and no empty segment or control character |
| `Verdicts.AddressesExactly` | core/capability/check.go:385-395 | the addressed peer is exactly the first segment after scheme or slash if it is a peer id, else the local peer |
| `Attenuation.PatternsCovered` | core/capability/delegation.go:557-572 | every inner pattern is covered by an outer one (includes one way, excludes the other) |
| `Attenuation.SubPatternsMeaning` | core/capability/delegation.go:407-449 | that check is language inclusion pattern by pattern |
| `Attenuation.IdSubsetMeaning` | core/capability/delegation.go:515-546 | the id check is language inclusion too: child includes within parent includes, parent excludes within child excludes |
| `Attenuation.IdScopeSubset` | core/capability/delegation.go:515-546 | child includes covered, parent excludes inherited |
| `Attenuation.CheckMapAttenuation` | core/capability/delegation.go:586-614 | constraints kept and allowances not added, byte for byte |
| `Attenuation.GrantCovers` | core/capability/delegation.go:407-504 | all eight conditions of grant coverage |
| `Attenuation.IsAttenuated` | core/capability/delegation.go:370-396 | every child grant is covered by some parent grant and the expiry does not exceed the parent's |
| `Verdicts.AttenuatedMeaning` | core/capability/delegation.go:370-614 | IsAttenuated on the records themselves: every child grant stays, language by language and map entry by map entry, within some parent grant, absent peers meaning the local one, and expires no later |
| `Attenuation.AttenuatedReflexive` | core/capability/delegation.go:370-504 | a token attenuates itself |
| `Attenuation.AttenuatedTransitive` | core/capability/delegation.go:370-504 | attenuation composes with three different granter namespaces |
| `Attenuation.OperationsNarrow` | core/capability/delegation.go:515-546 | an operation a covered child allows, the parent allows |
| `Attenuation.HandlersNarrow` | core/capability/delegation.go:408-421 | a handler a covered child allows, the parent allows, unmatchable excludes included |
| `Attenuation.PeersNarrow` | core/capability/delegation.go:451-468 | a peer a covered child allows, the parent allows, though the two layers match peers by different rules |
| `Attenuation.TargetNarrowsExactly` | core/capability/delegation.go:434-487 | a resource target a covered child admits, the parent admits if and only if no parent exclude slips past the child: overlaps the pattern target, unanswered by the caller, while no child exclude inheriting it overlaps |
| `Attenuation.TightMeansAnswered` | core/capability/check.go:322-333 | as a guard on the call: nothing slips if and only if the caller excludes every parent exclude that overlaps the pattern |
| `Attenuation.PathNarrowsExactly` | core/capability/check.go:618-686 | the same for a path-level subject, which has no caller excludes |
| `Attenuation.SlipNeedsPeerWildcard` | core/capability/check.go:566-583 | an exclude slips only through a leading peer wildcard, in the target or in each exclude the child inherits it through |
| `Attenuation.SlipIsBlind` | core/capability/check.go:566-583 | when target and parent exclude share a path, every inheriting child exclude forms a blind pair with the target |
| `Attenuation.PlainIsTight` | core/capability/delegation.go:470-487 | concrete targets, and patterns without peer wildcards against such excludes, never let an exclude slip |
| `Attenuation.CoveredGrantAdmitsExactly` | core/capability/delegation.go:398-504 | a request a covered grant admits, its parent grant admits if and only if no exclude slips; handlers, operations and peers always narrow |
| `Attenuation.CoveredGrantAdmitsPathExactly` | core/capability/check.go:592-688 | the same at the path level |
| `Attenuation.HeldNarrows` | core/capability/delegation.go:398-504 | every path a covered scope grants, the covering scope grants, with no condition on wildcards |
| `Authority.CollectAuthorityChain` | core/capability/authority.go:63-108 | the loop computes the bounded walk for every resolver |
| `Authority.WalkExactly` | core/capability/authority.go:42-108 | a chain is returned exactly when it is the complete parent walk, of at most 65 links, in one hash format |
| `Authority.TooDeepExactly` | core/capability/authority.go:82-107 | the depth error means exactly that 65 one-format links still have a resolvable parent |
| `Authority.WalkErrorExactly` | core/capability/authority.go:81-107 | every other walk error, exactly: within 65 links of one format comes a link of another format, one that does not decode, or one whose parent does not resolve |
| `Authority.WalkUnique` | core/capability/authority.go:63-108 | the resolver determines the complete walk |
| `CreatorAuthority.CheckCreatorAuthority` | core/capability/authority.go:145-205 | authorizes exactly when the writer granted some link with no malformed link at or below it; the walk's errors pass through |
| `CreatorAuthority.CreatorMeaning` | core/capability/authority.go:145-205 | what authorizes, on the records themselves: a single granter equal to the writer, or a signer whose looked-up signature passes the signature check, with every link up to it well formed |
| `CreatorAuthority.ScanForGranter` | core/capability/authority.go:151-204 | the early-return scan over a collected chain |
| `CreatorAuthority.MalformedDisqualifiesExactly` | core/capability/authority.go:151-163 | a malformed link disqualifies the writer if and only if the writer granted no link below it |
| `CreatorAuthority.MalformedRootStillAuthorizes` | core/capability/authority.go:157-169 | a chain with a malformed root whose leaf's granter is authorized |
| `CreatorAuthority.AcceptedCreatorsExactly` | core/capability/authority.go:110-205 | on an accepted chain the authorized creators are the grantees of the links above the leaf and the granters of the root |
| `Signatures.FindSignatureForTarget` | core/capability/delegation.go:655-670 | the first signature entity on the target in the iteration order met |
| `Signatures.FindSignatureBySigner` | core/capability/delegation.go:672-690 | the first signature entity on the target by the signer in the iteration order met |
| `Signatures.FinderFinds` | core/capability/delegation.go:655-690 | in every order a finder returns something sought, and nothing exactly when there is nothing |
| `Signatures.CountQuorum` | core/capability/delegation.go:254-289 | succeeds exactly when at least K distinct signers count in the orders met, despite duplicates and early exit |
| `Signatures.QuorumBounds` | core/capability/delegation.go:254-289 | in every order the signers counted lie between those all of whose signatures verify and those with some that does; both extremes are attained |
| `Signatures.ThresholdIsAttainable` | core/types/granter.go:27-46 | a well-formed K-of-N granter has at least K distinct signers and K is at least two |
| `Signatures.VerifyLinkSignatures` | core/capability/delegation.go:217-290 | single and K-of-N links decided exactly by the orders met, and exactly when the error is an authentication failure |
| `Signatures.VerifyRootGranter` | core/capability/delegation.go:295-360 | the local peer granted the root, alone or as a signer whose signature is found and verifies, decided exactly by the orders met |
| `Signatures.LinkSignedExactly` | core/capability/delegation.go:217-290 | a link is signed when some orders accept it and surely signed when all do |
| `Signatures.RootGrantedExactly` | core/capability/delegation.go:295-360 | the same of the root check |
| `Signatures.SingleOrderIndependence` | core/capability/delegation.go:218-229 | all orders agree on a single-signature link if and only if the signatures on it are all good or all bad |
| `Signatures.QuorumOrderIndependence` | core/capability/delegation.go:254-289 | all orders agree on a K-of-N link if and only if the signers with some verifying signature are fewer than K or those with only verifying ones are at least K |
| `Signatures.UnambiguousDecides` | core/capability/delegation.go:655-690 | at most one signature per link, or per link and signer for K-of-N, makes all orders agree, for links and roots, whatever the keys verify |
| `Signatures.StraySignatureUnsettlesSingle` | core/capability/delegation.go:218-229 | a good signature beside another signer's: an order that accepts the link and one that refuses it |
| `ChainVerification.VerifyIncludedKeyBinding` | core/entity/envelope.go:98-109 | every entry is self-consistent and filed under its own hash |
| `ChainVerification.FirstUnmatchableScopePattern` | core/capability/check.go:862-886 | returns nothing exactly when every path-scope pattern is matchable |
| `ChainVerification.CheckDelegation` | core/capability/delegation.go:175-208 | linkage, both namespaces, attenuation and caveats of one link |
| `ChainVerification.CheckToken` | core/capability/delegation.go:102-147 | decoding, structure, matchable patterns and the window of one link, and exactly its error kinds |
| `ChainVerification.VerifyLink` | core/capability/delegation.go:102-209 | all checks of one link, decided exactly by the orders met, and exactly which error kinds a failing link gives |
| `ChainVerification.VerifyChain` | core/capability/delegation.go:72-211 | accepts exactly the chains its run accepts, the clock read once per link; otherwise the errors are those of the binding check, of the walk, or of the first link that fails |
| `ChainVerification.AcceptsExactly` | core/capability/delegation.go:72-211 | the two order-free strengths of acceptance mean that some run accepts and that every run accepts |
| `AcceptedChains.AcceptsMeaning` | core/capability/delegation.go:72-211 | what is accepted, on the envelope itself: entries filed under their own hashes, and a chain of at most 65 links of one format to a root, each link fit, signed under published keys, addressed to a present peer, and granted locally or handed down within its parent |
| `AcceptedChains.AcceptedSignaturesVerify` | core/capability/delegation.go:217-290 | every link of an accepted chain carries bytes that the signature check passes under the granter's published key, a K-of-N root from K distinct signers |
| `AcceptedChains.ReadsInExactly` | core/capability/delegation.go:37-51 | the namespace of a token: its granter's published peer id, the local one for a K-of-N or zero granter |
| `ChainVerification.SureIsStronger` | core/capability/delegation.go:72-211 | acceptance under every order implies acceptance under some |
| `ChainVerification.UnambiguousChainDecided` | core/capability/delegation.go:72-211 | with unambiguous signatures the two strengths of acceptance coincide |
| `NoWidening.ConcreteNeverWidens` | core/capability/delegation.go:72-211 | in an accepted chain every ancestor authorizes each concrete request or path the leaf authorizes, in its own namespace |
| `NoWidening.ChainNeverWidens` | core/capability/delegation.go:72-211 | the same for pattern targets, at both levels, when no exclude slips at any link |
| `NoWidening.PlainNeverWidens` | core/capability/delegation.go:72-211 | the same whenever neither targets nor excludes begin with a peer wildcard |
| `NoWidening.CoveredAdmitsExactly` | core/capability/delegation.go:398-504 | one covering pair of grants, both levels: the parent admits if and only if no exclude slips |
| `NoWidening.BackedExactly` | core/capability/delegation.go:370-396 | at one link, with any number of grants, every admitting grant is backed by a covering parent grant that admits too if and only if no exclude slips |
| `NoWidening.AncestorAdmitsExactly` | core/capability/delegation.go:72-211 | across any number of links some ancestor grant covers the admitting leaf grant, and each such grant admits the question if and only if none of its excludes slips past the leaf grant |
| `NoWidening.LoneGrantChainExactly` | core/capability/delegation.go:72-211 | for chains of one-grant tokens all ancestors authorize what the leaf authorizes if and only if no exclude slips at any link |
| `Widening.MintedLeafWidens` | core/capability/delegation.go:470-487 | in every environment with a faithful codec: on any accepted parent whose one grant is a slipping triple's, the leaf MintReattenuated builds with the wider exclude is accepted in every order and authorizes the target its parent refuses, at both levels |
| `Widening.AcceptedChainWidens` | core/capability/delegation.go:470-487 | such chains exist outright: two links, accepted in every order, for every slipping triple |
| `Widening.SlippingTripleExists` | core/capability/check.go:566-583 | such targets and excludes exist for every peer and name |
| `NoWidening.AttenuatedFrom` | core/capability/delegation.go:192-205 | every link attenuates every ancestor directly |
| `NoWidening.LeafAttenuatesRoot` | core/capability/delegation.go:370-396 | each leaf grant keeps an ancestor grant's constraints byte for byte and adds no allowance; an expired ancestor means an expired leaf |
| `NoWidening.ChainIsUnbrokenHandOff` | core/capability/delegation.go:146-191 | each lower link is verifiably signed by the identity its parent named as grantee; the root by the local peer or a quorum it signed in |
| `NoWidening.CaveatsExactly` | core/capability/delegation.go:629-653 | the index-based checks say exactly: at most max_delegation_depth links beneath, none under no_delegation, lifetimes within max_delegation_ttl |
| `NoWidening.AcceptedChainKeepsCaveats` | core/capability/delegation.go:206-208 | an accepted chain keeps every caveat of every link |
| `NoWidening.HeldByAncestor` | core/capability/delegation.go:72-211 | some grant of every ancestor grants every path the leaf grant grants, each in its own namespace |
| `NoWidening.RequestStaysInsideAncestors` | core/capability/delegation.go:72-211 | a request a leaf grant admits, patterns and caller excludes and all, whose blind pairs the caller answers: every string it names lies inside a covering grant of every ancestor and outside its excludes |
| `NoWidening.RealPathsStayInsideAncestors` | core/capability/delegation.go:72-211 | the same for the paths a tree can hold, where only blind pairs that share a real path need an answer |
| `NoWidening.NamedPathsStayInsideAncestors` | core/capability/delegation.go:72-211 | concrete requests have no blind pairs, so theirs always do |
| `Mint.MintExtendsChain` | core/capability/mint.go:12-46 | a well-minted link on a verified chain is accepted exactly when the chain has at most 64 links and its caveats hold one link further down |
| `Mint.MintedPairIsGood` | core/capability/mint.go:47-94 | the returned pair is well minted when the minter keeps its duties |
| `Mint.MintMeaning` | core/capability/mint.go:47-94 | the three refusals in order, and every field of the minted token and of its signature |
| `Mint.MintedCapabilityIsAccepted` | core/capability/mint.go:47-94 | what MintReattenuated returns, VerifyChain accepts, in every order, exactly when the parent chain leaves room and its caveats allow |
| `Mint.LinkSignedGrows` | core/capability/delegation.go:217-360 | adding entities that are no signature on a link keeps it signed and its root granted |
| `ChainBundle.CollectChainBundle` | core/capability/chainbundle.go:46-103 | succeeds exactly when the walk does and every identity is at hand, else with the walk's error or the identity one; the bundle is keyed by own hash and holds exactly the wanted hashes |
| `ChainBundle.BundleMeaning` | core/capability/chainbundle.go:46-139 | what is wanted, on store and tree: links, identities, and the signatures bound at "/peer/system/signature/hex of the link's hash" |
| `ChainBundle.BoundSignatureIsBundled` | core/capability/chainbundle.go:81-139 | a signature bound at that path for a signer of a link is in the bundle |
| `ChainBundle.IdentitiesPresentMeaning` | core/capability/chainbundle.go:65-98 | the identities required: a peer entity for every granter or signer, and for every grantee that is not zero |
| `ChainBundle.AddSigners` | core/capability/chainbundle.go:65-84 | identities and bound signatures of one link's signers |
| `ChainBundle.BundleClosesWalk` | core/capability/chainbundle.go:28-103 | over the bundle the walk returns the same chain and every granter, signer and grantee identity is present |
| `ChainBundle.BundledChainIsAccepted` | core/capability/chainbundle.go:28-139 | a chain the sender's store would accept, with signatures bound at their paths, is accepted from the bundle alone |
| `ChainBundle.BundleAcceptedFromStore` | core/capability/chainbundle.go:28-139 | a bundle accepted in some order comes from a store accepted in some order |
| `ChainBundle.BundleVerdictExactly` | core/capability/chainbundle.go:28-139 | with one bound signature per link and signer, bundle and store get the same verdict |
| `ChainBundle.MintedBundleIsAccepted` | core/capability/mint.go:44-46 | mint, bundle and verify compose |
| `StoragePaths.HexInjective` | core/capability/storage_path.go:38-40 | hexadecimal path segments are injective |
| `StoragePaths.HexMeaning` | core/capability/storage_path.go:38-40 | each byte is two lowercase digits, the high one first |
| `StoragePaths.MarkerPathExactly` | core/capability/storage_path.go:32-40 | two hashes share a marker path exactly when they share a wire form |
| `StoragePaths.SignaturePathExactly` | core/types/crypto.go:146-148 | two signers and targets share an invariant signature path exactly when they are the same |
| `StoragePaths.WireFormInjective` | core/hash/hash.go:174-186 | well-formed hashes are determined by their wire form |
| `StoragePaths.WireFormMeaning` | core/hash/hash.go:174-186 | the wire form is the format code and the 32 or 48 digest bytes |
| `Revocation.MemoryCapabilityIndex.constructor` | core/capability/index.go:48-50 | starts empty |
| `Revocation.MemoryCapabilityIndex.Record` | core/capability/index.go:53-60 | overwrites, ignoring a zero hash or an empty path |
| `Revocation.MemoryCapabilityIndex.Forget` | core/capability/index.go:63-67 | drops one recording and nothing else |
| `Revocation.MemoryCapabilityIndex.PathFor` | core/capability/index.go:70-75 | the current recording, if any |
| `Revocation.IndexRemembersLatest` | core/capability/index.go:48-75 | over any history of calls the index holds exactly the path last recorded for a hash and not since forgotten |
| `Revocation.IsRevoked` | core/capability/revoked.go:46-93 | terminates on every graph; not revoked exactly when an unrevoked root is reached without repeating a hash |
| `Revocation.JudgeRoot` | core/capability/revoked.go:69-92 | the binding and marker checks on the root |
| `Revocation.LiveMeaning` | core/capability/revoked.go:46-111 | what IsRevoked decides on store, envelope, index and tree: live exactly when a walk, store before envelope, repeats no hash and leads to a root that is still bound where it is recorded and carries no marker |
| `Revocation.UnboundRootIsRevoked` | core/capability/revoked.go:69-79 | a recorded root whose path is gone or rebound revokes every capability that leads to it |
| `Revocation.WalkedIsLive` | core/capability/revoked.go:46-93 | a root bound where it is recorded, or not recorded, and without a marker leaves every capability that leads to it live |
| `Revocation.RootedWalkNeverRepeats` | core/capability/revoked.go:48-67 | in a hash-bound graph the cycle check never fires on a walk that has a root |
| `Revocation.RevocationDependsOnRoot` | core/capability/revoked.go:32-93 | in a hash-bound graph every capability has exactly its root's verdict |
| `Revocation.DescendantSharesVerdict` | core/capability/revoked.go:46-93 | a capability, each ancestor and the root share one verdict |
| `Revocation.RepeatIsRevoked` | core/capability/revoked.go:58-61 | in any graph a walk that meets a passed hash at a link that is no root is revoked |
| `Revocation.CycleIsRevoked` | core/capability/revoked.go:58-61 | every capability whose walk runs into a cycle is revoked, in any graph |
| `Revocation.GapIsRevoked` | core/capability/revoked.go:50-67 | so is every capability whose walk meets an undecodable token or an unresolvable parent |
| `Revocation.BoundedWalkAgrees` | core/capability/authority.go:63-108 | the last link of the bounded walk is the root revocation consults |
| `Revocation.MarkerRevokesExactly` | core/capability/revoked.go:83-91 | a marker revokes exactly the roots with the marked wire form |
| `Revocation.MarkerFrame` | core/capability/storage_path.go:38-40 | writing a marker revokes exactly the capabilities whose walk ends there and changes no other verdict |
| `Cbor.ParseSound` | core/ecf/forbid_tags.go:46-129 | what is parsed encodes back to the bytes consumed |
| `Cbor.ParseComplete` | core/ecf/forbid_tags.go:46-129 | every encoded item parses back, whatever follows it |
| `Cbor.EncodingsArePrefixFree` | core/ecf/forbid_tags.go:32-42 | no encoding is a prefix of another item's, tags included |
| `Cbor.ReadHeadOfHead` | core/ecf/forbid_tags.go:51-90 | a head of any width is read back |
| `Cbor.ReadHeadMeaning` | core/ecf/forbid_tags.go:46-90 | what the bytes of a head say: major type, argument in place or in 1, 2 or 4 bytes most significant first, nothing for 28 to 31 |
| `Cbor.ReadLongHeadMeaning` | core/ecf/forbid_tags.go:77-84 | the same of 8 bytes |
| `Cbor.RfcScalarExamples` | core/ecf/forbid_tags.go:91-101 | encodings from appendix A of RFC 8949 |
| `Cbor.RfcContainerExamples` | core/ecf/forbid_tags.go:102-129 | arrays, maps and tags of small numbers, byte for byte |
| `ForbidTags.StringBoundExact` | core/ecf/forbid_tags.go:95-101 | the wrapping 64-bit guard passes exactly when the payload fits |
| `ForbidTags.ReadArgument` | core/ecf/forbid_tags.go:56-90 | argument bytes read at an offset, with the source's bound checks |
| `ForbidTags.ForbidTagsScan` | core/ecf/forbid_tags.go:46-129 | the scan ends where the tag-free parse ends, or fails with it |
| `ForbidTags.CheckForbidTags` | core/ecf/forbid_tags.go:32-42 | succeeds exactly on the full encodings of one tag-free definite-length item |
| `ForbidTags.TaggedEncodingsAreRefused` | core/ecf/forbid_tags.go:10-31 | a well-formed encoding with a tag at any depth is refused |
| `ForbidTags.AcceptedIsWellFormedExactly` | core/ecf/forbid_tags.go:46-90 | an accepted input encodes one item, and is well-formed exactly when that item holds no two-byte simple value below 32 |
| `ForbidTags.ShortSimpleIsAccepted` | core/ecf/forbid_tags.go:46-90 | the bytes F8 10 are accepted and not well-formed |
| `ForbidTags.ScanProgress` | core/ecf/forbid_tags.go:102-120 | a successful scan advances and stays inside; an accepted count is at most the remaining bytes |
| `Citations.ParseCitations` | cmd/conformance-register/resolve.go:125-196 | each section is bound to the last known document before it, unless an unknown document name precedes it directly; a number cites exactly after "amendment"; every field of each citation |
| `Citations.HasSection` | cmd/conformance-register/docmap.go:272-302 | a heading, else beneath a heading at least two numbers deep, else in the text |
| `Citations.HitMeaning` | cmd/conformance-register/docmap.go:272-302 | each hit level on the section's text: heading, below a dotted heading, cited in the text, missing |
| `Citations.Candidates` | cmd/conformance-register/docmap.go:223-236 | the normative documents with the section as a heading, in order, named up to three, and their number |
| `Citations.ListingUnique` | cmd/conformance-register/docmap.go:230-231 | a set of names has one ascending listing, whatever order the map was ranged over |
| `Citations.ResolveSection` | cmd/conformance-register/resolve.go:198-217 | one citation with its document, hit level, status and candidates |
| `Citations.SectionCitationMeaning` | cmd/conformance-register/resolve.go:198-217 | every field of a section citation |
| `Citations.AmendmentCitationMeaning` | cmd/conformance-register/resolve.go:219-232 | every field of an amendment citation; found exactly when the document lists the number |
| `Citations.SectionBinding` | cmd/conformance-register/resolve.go:141-190 | what a section is bound to, on the words before it |
| `Citations.NumberBinding` | cmd/conformance-register/resolve.go:168-193 | a number cites exactly when the word before it is "amendment" in either case |
| `Citations.CitationCount` | cmd/conformance-register/resolve.go:154-193 | one citation per section and per number after "amendment" |
| `Citations.InForceIsLatest` | cmd/conformance-register/resolve.go:121-124 | the document in force is the latest one named |
| `Citations.VerdictFor` | cmd/conformance-register/resolve.go:94-119 | each verdict characterized by which citations resolve and which are normative |

## Left out

- Cryptography, peer-id derivation and canonicalization, CBOR encoding and decoding of entities: fields of `Env`, with the facts used stated as hypotheses.
- `VerifyHandlerGrant` (core/capability/grant_validity.go): a straight-line list of checks on one token.
- `ResolveGranterPeerID`: the store-backed twin of the namespace lookup in `Tokens.GranterPeer`.
- The `algorithm` text of a signature and other token or execute fields no check reads.
- Error texts: only the kinds callers distinguish are kept; a zero grantee carries two of them.
- `ForbidTagsScan`: recursion depth and stack size are not modelled; inputs are bounded by 2^63 - 9 bytes, where the head's offset additions cannot overflow.
- `MemoryCapabilityIndex`: locking is not modelled; each operation is one map access. A missing index and the no-op index are both the null index.
- Strings are sequences of characters; the code compares bytes.
- The location index is a map of exact paths; namespacing of paths in the tree is not modelled.
- `ParseCitations`: tokenization is an input with the shape the token expression guarantees, and how documents and their aliases are loaded from disk is not modelled.
- Dispatch, handlers, networking, command-line tools and the rest of the conformance register.
