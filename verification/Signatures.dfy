/** Signatures on a link.  The source finds them by ranging over a Go map, whose order is
    arbitrary.  Verdicts are therefore functions of explicit iteration orders, and the
    predicates with a `sure` flag say, without any order, which verdicts are possible:
    some order accepts (`sure == false`), every order accepts (`sure == true`). */
module Signatures {
  import opened Patterns
  import opened Tokens

  datatype Kind = ChainTooDeep | Denied | UnresolvableGrantee | AuthenticationFailed

  predicate SignatureOn(e: Entity, target: Hash) {
    e.kind == TYPE_SIGNATURE && e.data.signature.Some? && e.data.signature.value.target == target
  }

  predicate SignatureBy(e: Entity, target: Hash, signer: Hash) {
    SignatureOn(e, target) && e.data.signature.value.signer == signer
  }

  /** The signature's bytes verify over the link's hash under the identity's key. */
  predicate Verifies(env: Env, link: Entity, identity: Entity, e: Entity) {
    && KeyOf(env, identity).Some?
    && e.data.signature.Some?
    && var (kt, key) := KeyOf(env, identity).value;
       env.verify(kt, key, WireBytes(link.contentHash), e.data.signature.value.signature)
  }

  function SignersOf(granter: Granter): seq<Hash> {
    match granter
    case Single(h) => [h]
    case Multi(signers, _) => signers
  }

  // ----- ranging over a map ---------------------------------------------

  /** One iteration order of a map: every key, once. */
  ghost predicate IsOrder(order: seq<Hash>, keys: set<Hash>) {
    && (forall i, j :: 0 <= i < j < |order| ==> order[i] != order[j])
    && (forall h :: h in order <==> h in keys)
  }

  /** What a finder looks for: a signature on the target, by anyone or by one signer. */
  datatype Sought = ByAnyone(target: Hash) | BySigner(target: Hash, signer: Hash)

  predicate Meets(e: Entity, sought: Sought) {
    match sought
    case ByAnyone(target) => SignatureOn(e, target)
    case BySigner(target, signer) => SignatureBy(e, target, signer)
  }

  /** The first entity met in an iteration order. */
  function First(order: seq<Hash>, included: Included, sought: Sought): Option<Entity>
    requires forall h :: h in order ==> h in included
  {
    if order == [] then None
    else if Meets(included[order[0]], sought) then Some(included[order[0]])
    else First(order[1..], included, sought)
  }

  method RangeOver(included: Included) returns (order: seq<Hash>)
    ensures IsOrder(order, included.Keys)
  {
    order := [];
    var keys := included.Keys;
    while keys != {}
      invariant keys <= included.Keys
      invariant IsOrder(order, included.Keys - keys)
      decreases keys
    {
      var h :| h in keys;
      order := order + [h];
      keys := keys - {h};
    }
  }

  method FindFirst(included: Included, sought: Sought) returns (r: Option<Entity>, ghost order: seq<Hash>)
    ensures IsOrder(order, included.Keys) && r == First(order, included, sought)
  {
    var keys := RangeOver(included);
    order := keys;
    for i := 0 to |keys|
      invariant First(keys, included, sought) == First(keys[i..], included, sought)
    {
      if Meets(included[keys[i]], sought) { return Some(included[keys[i]]), order; }
    }
    return None, order;
  }

  method FindSignatureForTarget(target: Hash, included: Included) returns (r: Option<Entity>, ghost order: seq<Hash>)
    ensures IsOrder(order, included.Keys) && r == First(order, included, ByAnyone(target))
  {
    r, order := FindFirst(included, ByAnyone(target));
  }

  method FindSignatureBySigner(target: Hash, signer: Hash, included: Included)
    returns (r: Option<Entity>, ghost order: seq<Hash>)
    ensures IsOrder(order, included.Keys) && r == First(order, included, BySigner(target, signer))
  {
    r, order := FindFirst(included, BySigner(target, signer));
  }

  lemma {:induction false} FirstFound(order: seq<Hash>, included: Included, sought: Sought)
    requires forall h :: h in order ==> h in included
    ensures match First(order, included, sought)
            case Some(e) => e in included.Values && Meets(e, sought)
            case None => forall h :: h in order ==> !Meets(included[h], sought)
  {
    if order != [] {
      assert order[0] in order;
      if !Meets(included[order[0]], sought) { FirstFound(order[1..], included, sought); }
    }
  }

  /** In every order a finder returns something sought, or nothing exactly when there is
      nothing. */
  lemma FinderFinds(order: seq<Hash>, included: Included, sought: Sought)
    requires IsOrder(order, included.Keys)
    ensures First(order, included, sought).Some? <==> exists e :: e in included.Values && Meets(e, sought)
    ensures First(order, included, sought).Some? ==>
              var e := First(order, included, sought).value;
              e in included.Values && Meets(e, sought)
  {
    FirstFound(order, included, sought);
  }

  ghost function SomeOrder(keys: set<Hash>): (order: seq<Hash>)
    ensures IsOrder(order, keys)
  {
    if keys == {} then []
    else
      var h :| h in keys;
      [h] + SomeOrder(keys - {h})
  }

  /** An order that meets the chosen entity first. */
  ghost function OrderMeeting(included: Included, e: Entity): (order: seq<Hash>)
    requires e in included.Values
    ensures IsOrder(order, included.Keys)
    ensures forall sought :: Meets(e, sought) ==> First(order, included, sought) == Some(e)
  {
    var h :| h in included && included[h] == e;
    [h] + SomeOrder(included.Keys - {h})
  }

  // ----- the verdict of one lookup --------------------------------------

  predicate GoodSignature(env: Env, link: Entity, granter: Hash, included: Included, e: Entity) {
    && SignatureBy(e, link.contentHash, granter)
    && granter in included
    && Verifies(env, link, included[granter], e)
  }

  /** The lookup finds a good signature of the signer. */
  predicate LookupGood(env: Env, link: Entity, signer: Hash, included: Included, sought: Sought, order: seq<Hash>)
    requires forall h :: h in order ==> h in included
  {
    var found := First(order, included, sought);
    found.Some? && GoodSignature(env, link, signer, included, found.value)
  }

  /** Some entity sought is a good signature; surely so when all of them are. */
  ghost predicate Good(env: Env, link: Entity, signer: Hash, included: Included, sought: Sought, sure: bool) {
    && (exists e :: e in included.Values && Meets(e, sought) && GoodSignature(env, link, signer, included, e))
    && (sure ==> forall e :: e in included.Values && Meets(e, sought) ==> GoodSignature(env, link, signer, included, e))
  }

  /** The most and the least favourable order of a lookup. */
  ghost function Extreme(env: Env, link: Entity, signer: Hash, included: Included, sought: Sought, sure: bool)
    : (order: seq<Hash>)
    ensures IsOrder(order, included.Keys)
    ensures LookupGood(env, link, signer, included, sought, order) <==> Good(env, link, signer, included, sought, sure)
  {
    if e :| e in included.Values && Meets(e, sought) && GoodSignature(env, link, signer, included, e) != sure
    then OrderMeeting(included, e)
    else
      var order := SomeOrder(included.Keys);
      FinderFinds(order, included, sought);
      order
  }

  /** Every order's verdict lies between the two strengths. */
  lemma LookupBounds(env: Env, link: Entity, signer: Hash, included: Included, sought: Sought, order: seq<Hash>)
    requires IsOrder(order, included.Keys)
    ensures Good(env, link, signer, included, sought, true) ==> LookupGood(env, link, signer, included, sought, order)
    ensures LookupGood(env, link, signer, included, sought, order) ==> Good(env, link, signer, included, sought, false)
  {
    FinderFinds(order, included, sought);
  }

  /** The finder for a single granter does not look at the signer, so a stray signature can be
      the one it finds. */
  ghost predicate SingleSigned(env: Env, link: Entity, granter: Hash, included: Included, sure: bool) {
    Good(env, link, granter, included, ByAnyone(link.contentHash), sure)
  }

  ghost predicate SignedBy(env: Env, link: Entity, signer: Hash, included: Included, sure: bool) {
    Good(env, link, signer, included, BySigner(link.contentHash, signer), sure)
  }

  // ----- the verdict on a link ------------------------------------------

  /** The iteration order of each lookup, by the signer it is made for. */
  datatype Orders = Orders(at: Hash -> seq<Hash>)

  ghost predicate ValidOrders(orders: Orders, included: Included) {
    forall s :: IsOrder(orders.at(s), included.Keys)
  }

  ghost predicate SignerCounts(env: Env, link: Entity, signer: Hash, included: Included, orders: Orders)
    requires ValidOrders(orders, included)
  {
    LookupGood(env, link, signer, included, BySigner(link.contentHash, signer), orders.at(signer))
  }

  /** The distinct signers counted when ranging in these orders. */
  ghost function Counted(env: Env, link: Entity, signers: seq<Hash>, included: Included, orders: Orders): set<Hash>
    requires ValidOrders(orders, included)
  {
    set s | s in signers && SignerCounts(env, link, s, included, orders)
  }

  ghost function Tally(env: Env, link: Entity, signers: seq<Hash>, included: Included, orders: Orders): nat
    requires ValidOrders(orders, included)
  {
    |Counted(env, link, signers, included, orders)|
  }

  ghost predicate LinkVerdict(env: Env, link: Entity, granter: Granter, included: Included, orders: Orders)
    requires ValidOrders(orders, included)
  {
    match granter
    case Single(h) => LookupGood(env, link, h, included, ByAnyone(link.contentHash), orders.at(h))
    case Multi(signers, threshold) => 2 <= threshold <= Tally(env, link, signers, included, orders)
  }

  ghost function Quorum(env: Env, link: Entity, signers: seq<Hash>, included: Included, sure: bool): set<Hash> {
    set s | s in signers && SignedBy(env, link, s, included, sure)
  }

  ghost predicate LinkSigned(env: Env, link: Entity, granter: Granter, included: Included, sure: bool) {
    match granter
    case Single(h) => SingleSigned(env, link, h, included, sure)
    case Multi(signers, threshold) => 2 <= threshold <= |Quorum(env, link, signers, included, sure)|
  }

  // ----- K of N ---------------------------------------------------------

  lemma SubsetCardinality<T>(a: set<T>, b: set<T>)
    requires a <= b
    ensures |a| <= |b|
  {
    assert b == a + (b - a);
  }

  lemma {:induction false} SignerSetCardinality(signers: seq<Hash>)
    ensures |(set s | s in signers)| <= |signers|
  {
    if signers != [] {
      var n := |signers| - 1;
      SignerSetCardinality(signers[..n]);
      assert (set s | s in signers) == (set s | s in signers[..n]) + {signers[n]};
    }
  }

  lemma {:induction false} DistinctSignersCount(signers: seq<Hash>)
    requires forall i, j :: 0 <= i < j < |signers| ==> signers[i] != signers[j]
    ensures |(set s | s in signers)| == |signers|
  {
    if signers != [] {
      var n := |signers| - 1;
      DistinctSignersCount(signers[..n]);
      assert signers[n] !in signers[..n];
      assert (set s | s in signers) == (set s | s in signers[..n]) + {signers[n]};
    }
  }

  /** In a well-formed multi-signature granter the threshold can be met by distinct signers,
      and by no single one. */
  lemma ThresholdIsAttainable(g: Granter)
    requires g.Multi? && ValidGranter(g)
    ensures 2 <= g.threshold <= |(set s | s in g.signers)|
  {
    DistinctSignersCount(g.signers);
  }

  /** Does this one signer's signature verify?  (One turn of the K-of-N loop.) */
  method CheckSigner(env: Env, link: Entity, signer: Hash, included: Included)
    returns (ok: bool, ghost order: seq<Hash>)
    ensures IsOrder(order, included.Keys)
    ensures ok == LookupGood(env, link, signer, included, BySigner(link.contentHash, signer), order)
  {
    if signer !in included { return false, SomeOrder(included.Keys); }
    var sig;
    sig, order := FindSignatureBySigner(link.contentHash, signer, included);
    FinderFinds(order, included, BySigner(link.contentHash, signer));
    if sig.None? { return false, order; }
    return Verifies(env, link, included[signer], sig.value), order;
  }

  ghost function Reordered(orders: Orders, s: Hash, order: seq<Hash>): Orders {
    Orders(h => if h == s then order else orders.at(h))
  }

  lemma CountedStep(env: Env, link: Entity, signers: seq<Hash>, s: Hash, order: seq<Hash>, included: Included,
                    orders: Orders)
    requires ValidOrders(orders, included) && IsOrder(order, included.Keys) && s !in signers
    ensures s !in Counted(env, link, signers, included, orders)
    ensures var next := Reordered(orders, s, order);
            && ValidOrders(next, included)
            && Counted(env, link, signers + [s], included, next)
               == Counted(env, link, signers, included, orders)
                  + (if LookupGood(env, link, s, included, BySigner(link.contentHash, s), order) then {s} else {})
  {
    hide LookupGood, IsOrder;
    var next := Reordered(orders, s, order);
    assert forall h :: h in signers ==> next.at(h) == orders.at(h);
  }

  /** One more signer, looked up in an order of its own. */
  lemma TallyStep(env: Env, link: Entity, signers: seq<Hash>, s: Hash, order: seq<Hash>, included: Included,
                  orders: Orders)
    requires ValidOrders(orders, included) && IsOrder(order, included.Keys) && s !in signers
    ensures var next := Reordered(orders, s, order);
            && ValidOrders(next, included)
            && Tally(env, link, signers + [s], included, next) == Tally(env, link, signers, included, orders)
               + (if LookupGood(env, link, s, included, BySigner(link.contentHash, s), order) then 1 else 0)
  {
    hide LookupGood, IsOrder, Counted, ValidOrders, Reordered;
    CountedStep(env, link, signers, s, order, included, orders);
  }

  /** A signer seen before adds nothing. */
  lemma TallyRepeat(env: Env, link: Entity, signers: seq<Hash>, s: Hash, included: Included, orders: Orders)
    requires ValidOrders(orders, included) && s in signers
    ensures Tally(env, link, signers + [s], included, orders) == Tally(env, link, signers, included, orders)
  {
    assert Counted(env, link, signers + [s], included, orders) == Counted(env, link, signers, included, orders);
  }

  lemma TallyGrows(env: Env, link: Entity, fewer: seq<Hash>, signers: seq<Hash>, included: Included, orders: Orders)
    requires ValidOrders(orders, included) && fewer <= signers
    ensures Tally(env, link, fewer, included, orders) <= Tally(env, link, signers, included, orders)
  {
    SubsetCardinality(Counted(env, link, fewer, included, orders), Counted(env, link, signers, included, orders));
  }

  /** The counting loop: duplicates are skipped and the count stops at the threshold. */
  method CountQuorum(env: Env, link: Entity, signers: seq<Hash>, threshold: u64, included: Included)
    returns (ok: bool, ghost orders: Orders)
    requires 2 <= threshold
    ensures ValidOrders(orders, included)
    ensures ok <==> threshold <= Tally(env, link, signers, included, orders)
  {
    ghost var base := SomeOrder(included.Keys);
    orders := Orders(_ => base);
    assert ValidOrders(orders, included) && Tally(env, link, [], included, orders) == 0;
    hide LookupGood, IsOrder, ValidOrders, Tally, Reordered;
    var seen: set<Hash> := {};
    var valid := 0;
    for i := 0 to |signers|
      invariant ValidOrders(orders, included)
      invariant forall s :: s in seen <==> s in signers[..i]
      invariant valid == Tally(env, link, signers[..i], included, orders) < threshold
    {
      assert signers[..i + 1] == signers[..i] + [signers[i]];
      if signers[i] !in seen {
        seen := seen + {signers[i]};
        var signed, order := CheckSigner(env, link, signers[i], included);
        TallyStep(env, link, signers[..i], signers[i], order, included, orders);
        orders := Reordered(orders, signers[i], order);
        if signed {
          valid := valid + 1;
          if valid >= threshold {
            TallyGrows(env, link, signers[..i + 1], signers, included, orders);
            return true, orders;
          }
        }
      } else {
        TallyRepeat(env, link, signers[..i], signers[i], included, orders);
      }
    }
    assert signers[..|signers|] == signers;
    return false, orders;
  }

  /** Per-link signature verification. */
  method VerifyLinkSignatures(env: Env, link: Entity, granter: Granter, included: Included)
    returns (r: Option<Kind>, ghost orders: Orders)
    ensures ValidOrders(orders, included)
    ensures r.None? <==> LinkVerdict(env, link, granter, included, orders)
    ensures r.Some? ==> r.value == Denied || r.value == AuthenticationFailed
    ensures r == Some(AuthenticationFailed) <==>
              && granter.Single? && granter.hash in included && included[granter.hash].data.peer.Some?
              && var found := First(orders.at(granter.hash), included, ByAnyone(link.contentHash));
                 && found.Some? && SignatureBy(found.value, link.contentHash, granter.hash)
                 && !Verifies(env, link, included[granter.hash], found.value)
  {
    if granter.Single? {
      var sig, order := FindSignatureForTarget(link.contentHash, included);
      orders := Orders(_ => order);
      FinderFinds(order, included, ByAnyone(link.contentHash));
      if sig.None? { return Some(Denied), orders; }
      if sig.value.data.signature.value.signer != granter.hash { return Some(Denied), orders; }
      if granter.hash !in included { return Some(Denied), orders; }
      if included[granter.hash].data.peer.None? { return Some(Denied), orders; }
      if !Verifies(env, link, included[granter.hash], sig.value) { return Some(AuthenticationFailed), orders; }
      return None, orders;
    }
    if |granter.signers| < 2 || granter.threshold < 2 || granter.threshold > |granter.signers| {
      ghost var base := SomeOrder(included.Keys);
      orders := Orders(_ => base);
      TallyWithinSigners(env, link, granter.signers, included, orders);
      return Some(Denied), orders;
    }
    var met;
    met, orders := CountQuorum(env, link, granter.signers, granter.threshold, included);
    return if met then None else Some(Denied), orders;
  }

  lemma TallyWithinSigners(env: Env, link: Entity, signers: seq<Hash>, included: Included, orders: Orders)
    requires ValidOrders(orders, included)
    ensures Tally(env, link, signers, included, orders) <= |signers|
  {
    SignerSetCardinality(signers);
    SubsetCardinality(Counted(env, link, signers, included, orders), set s | s in signers);
  }

  // ----- the root -------------------------------------------------------

  predicate LocalSigner(env: Env, s: Hash, included: Included, local: string) {
    s in included && PeerIdOf(env, included[s]) == Some(local)
  }

  /** The root is granted by the local peer: as its single granter, or as one of its
      signers with a signature of its own. */
  ghost predicate RootGranted(env: Env, root: Entity, granter: Granter, included: Included, local: string, sure: bool) {
    match granter
    case Single(h) => LocalSigner(env, h, included, local)
    case Multi(signers, _) =>
      exists s :: s in signers && LocalSigner(env, s, included, local) && SignedBy(env, root, s, included, sure)
  }

  ghost predicate LocalCounts(env: Env, root: Entity, signers: seq<Hash>, included: Included, local: string,
                              orders: Orders)
    requires ValidOrders(orders, included)
  {
    exists s :: s in signers && LocalSigner(env, s, included, local) && SignerCounts(env, root, s, included, orders)
  }

  ghost predicate RootVerdict(env: Env, root: Entity, granter: Granter, included: Included, local: string,
                              orders: Orders)
    requires ValidOrders(orders, included)
  {
    match granter
    case Single(h) => LocalSigner(env, h, included, local)
    case Multi(signers, _) => LocalCounts(env, root, signers, included, local, orders)
  }

  /** One more signer of the root; a repeated one is looked up again. */
  lemma LocalCountsStep(env: Env, root: Entity, signers: seq<Hash>, s: Hash, order: seq<Hash>, included: Included,
                        local: string, orders: Orders)
    requires ValidOrders(orders, included) && IsOrder(order, included.Keys) && LocalSigner(env, s, included, local)
    requires !LocalCounts(env, root, signers, included, local, orders)
    ensures var next := Reordered(orders, s, order);
            && ValidOrders(next, included)
            && (LookupGood(env, root, s, included, BySigner(root.contentHash, s), order)
                <==> LocalCounts(env, root, signers + [s], included, local, next))
  {
    hide LookupGood, LocalSigner;
    var next := Reordered(orders, s, order);
    assert next.at(s) == order && forall h :: h != s ==> next.at(h) == orders.at(h);
    assert s in signers + [s];
    assert SignerCounts(env, root, s, included, next) <==>
           LookupGood(env, root, s, included, BySigner(root.contentHash, s), order);
  }

  lemma LocalCountsPrefix(env: Env, root: Entity, fewer: seq<Hash>, signers: seq<Hash>, included: Included,
                          local: string, orders: Orders)
    requires ValidOrders(orders, included) && fewer <= signers && LocalCounts(env, root, fewer, included, local, orders)
    ensures LocalCounts(env, root, signers, included, local, orders)
  {
  }

  method VerifyRootGranter(env: Env, root: Entity, granter: Granter, included: Included, local: string)
    returns (ok: bool, ghost orders: Orders)
    ensures ValidOrders(orders, included)
    ensures ok <==> RootVerdict(env, root, granter, included, local, orders)
  {
    ghost var base := SomeOrder(included.Keys);
    orders := Orders(_ => base);
    assert ValidOrders(orders, included);
    if granter.Single? {
      return LocalSigner(env, granter.hash, included, local), orders;
    }
    hide LookupGood, IsOrder, ValidOrders, Reordered, LocalSigner, SignerCounts;
    var signers := granter.signers;
    for i := 0 to |signers|
      invariant ValidOrders(orders, included)
      invariant !LocalCounts(env, root, signers[..i], included, local, orders)
    {
      var s := signers[i];
      assert signers[..i + 1] == signers[..i] + [s];
      if LocalSigner(env, s, included, local) {
        var signed, order := CheckSigner(env, root, s, included);
        LocalCountsStep(env, root, signers[..i], s, order, included, local, orders);
        orders := Reordered(orders, s, order);
        if signed {
          LocalCountsPrefix(env, root, signers[..i + 1], signers, included, local, orders);
          return true, orders;
        }
      }
    }
    assert signers[..|signers|] == signers;
    return false, orders;
  }

  // ----- what the orders can decide -------------------------------------

  /** The most (`sure == false`) and the least favourable orders for a link. */
  ghost function ExtremeOrders(env: Env, link: Entity, granter: Granter, included: Included,
                               sure: bool): (orders: Orders)
    ensures ValidOrders(orders, included)
  {
    if granter.Single?
    then Orders(s => Extreme(env, link, s, included, ByAnyone(link.contentHash), sure))
    else Orders(s => Extreme(env, link, s, included, BySigner(link.contentHash, s), sure))
  }

  /** The quorum counted in any order lies between the signers all of whose signatures verify
      and those with some signature that does; extreme orders count exactly these. */
  lemma QuorumBounds(env: Env, link: Entity, granter: Granter, included: Included, orders: Orders)
    requires granter.Multi? && ValidOrders(orders, included)
    ensures var signers := granter.signers;
            && Quorum(env, link, signers, included, true) <= Counted(env, link, signers, included, orders)
            && Counted(env, link, signers, included, orders) <= Quorum(env, link, signers, included, false)
    ensures forall sure :: Counted(env, link, granter.signers, included,
                                   ExtremeOrders(env, link, granter, included, sure))
                           == Quorum(env, link, granter.signers, included, sure)
  {
    hide LookupGood, Good;
    forall s {
      LookupBounds(env, link, s, included, BySigner(link.contentHash, s), orders.at(s));
    }
  }

  lemma LinkVerdictBounds(env: Env, link: Entity, granter: Granter, included: Included, orders: Orders)
    requires ValidOrders(orders, included)
    ensures LinkSigned(env, link, granter, included, true) ==> LinkVerdict(env, link, granter, included, orders)
    ensures LinkVerdict(env, link, granter, included, orders) ==> LinkSigned(env, link, granter, included, false)
    ensures forall sure :: LinkVerdict(env, link, granter, included, ExtremeOrders(env, link, granter, included, sure))
                           <==> LinkSigned(env, link, granter, included, sure)
  {
    hide LookupGood, Good, Quorum, Counted;
    match granter
    case Single(h) => LookupBounds(env, link, h, included, ByAnyone(link.contentHash), orders.at(h));
    case Multi(signers, _) =>
      QuorumBounds(env, link, granter, included, orders);
      SubsetCardinality(Quorum(env, link, signers, included, true), Counted(env, link, signers, included, orders));
      SubsetCardinality(Counted(env, link, signers, included, orders), Quorum(env, link, signers, included, false));
  }

  lemma RootVerdictBounds(env: Env, root: Entity, granter: Granter, included: Included, local: string, orders: Orders)
    requires ValidOrders(orders, included)
    ensures RootGranted(env, root, granter, included, local, true) ==>
              RootVerdict(env, root, granter, included, local, orders)
    ensures RootVerdict(env, root, granter, included, local, orders) ==>
              RootGranted(env, root, granter, included, local, false)
    ensures forall sure ::
              RootVerdict(env, root, granter, included, local, ExtremeOrders(env, root, granter, included, sure))
              <==> RootGranted(env, root, granter, included, local, sure)
  {
    hide LookupGood, Good;
    forall s {
      LookupBounds(env, root, s, included, BySigner(root.contentHash, s), orders.at(s));
    }
    if granter.Multi? {
      forall sure, s
        ensures SignerCounts(env, root, s, included, ExtremeOrders(env, root, granter, included, sure))
                <==> SignedBy(env, root, s, included, sure)
      {
      }
    }
  }

  /** The two strengths are what they say: a link is signed when some iteration orders accept
      it, surely signed when all do. */
  lemma LinkSignedExactly(env: Env, link: Entity, granter: Granter, included: Included)
    ensures LinkSigned(env, link, granter, included, false)
       <==> exists orders :: ValidOrders(orders, included) && LinkVerdict(env, link, granter, included, orders)
    ensures LinkSigned(env, link, granter, included, true)
       <==> forall orders :: ValidOrders(orders, included) ==> LinkVerdict(env, link, granter, included, orders)
  {
    hide LinkSigned, LinkVerdict;
    forall orders | ValidOrders(orders, included) {
      LinkVerdictBounds(env, link, granter, included, orders);
    }
    var best := ExtremeOrders(env, link, granter, included, false);
    var worst := ExtremeOrders(env, link, granter, included, true);
    LinkVerdictBounds(env, link, granter, included, best);
    LinkVerdictBounds(env, link, granter, included, worst);
  }

  /** The same of the root check. */
  lemma RootGrantedExactly(env: Env, root: Entity, granter: Granter, included: Included, local: string)
    ensures RootGranted(env, root, granter, included, local, false)
       <==> exists orders :: ValidOrders(orders, included) && RootVerdict(env, root, granter, included, local, orders)
    ensures RootGranted(env, root, granter, included, local, true)
       <==> forall orders :: ValidOrders(orders, included) ==> RootVerdict(env, root, granter, included, local, orders)
  {
    hide RootGranted, RootVerdict;
    forall orders | ValidOrders(orders, included) {
      RootVerdictBounds(env, root, granter, included, local, orders);
    }
    var best := ExtremeOrders(env, root, granter, included, false);
    var worst := ExtremeOrders(env, root, granter, included, true);
    RootVerdictBounds(env, root, granter, included, local, best);
    RootVerdictBounds(env, root, granter, included, local, worst);
  }

  // ----- when the order cannot matter -----------------------------------

  /** All iteration orders give the same verdict. */
  ghost predicate OrdersAgree(env: Env, link: Entity, granter: Granter, included: Included) {
    forall a, b :: ValidOrders(a, included) && ValidOrders(b, included) ==>
      LinkVerdict(env, link, granter, included, a) == LinkVerdict(env, link, granter, included, b)
  }

  lemma OrdersAgreeWhenSettled(env: Env, link: Entity, granter: Granter, included: Included)
    ensures OrdersAgree(env, link, granter, included) <==>
              (LinkSigned(env, link, granter, included, false) ==> LinkSigned(env, link, granter, included, true))
  {
    hide LinkSigned, LinkVerdict;
    forall orders | ValidOrders(orders, included) {
      LinkVerdictBounds(env, link, granter, included, orders);
    }
    var best := ExtremeOrders(env, link, granter, included, false);
    var worst := ExtremeOrders(env, link, granter, included, true);
    LinkVerdictBounds(env, link, granter, included, best);
    LinkVerdictBounds(env, link, granter, included, worst);
  }

  /** A single-signature link has one verdict whatever the order exactly when the signatures on
      it are all good or all bad. */
  lemma SingleOrderIndependence(env: Env, link: Entity, granter: Hash, included: Included)
    ensures OrdersAgree(env, link, Single(granter), included) <==>
              forall e, f :: e in included.Values && SignatureOn(e, link.contentHash)
                             && f in included.Values && SignatureOn(f, link.contentHash) ==>
                GoodSignature(env, link, granter, included, e) == GoodSignature(env, link, granter, included, f)
  {
    OrdersAgreeWhenSettled(env, link, Single(granter), included);
    hide GoodSignature, SignatureOn, OrdersAgree;
    assert forall e :: Meets(e, ByAnyone(link.contentHash)) == SignatureOn(e, link.contentHash);
  }

  /** A K-of-N link has one verdict exactly when the signers with some verifying signature
      fall short of the threshold, or those with only verifying ones reach it. */
  lemma QuorumOrderIndependence(env: Env, link: Entity, signers: seq<Hash>, threshold: u64, included: Included)
    requires 2 <= threshold
    ensures OrdersAgree(env, link, Multi(signers, threshold), included) <==>
              || |Quorum(env, link, signers, included, false)| < threshold
              || threshold <= |Quorum(env, link, signers, included, true)|
  {
    OrdersAgreeWhenSettled(env, link, Multi(signers, threshold), included);
  }

  /** A second signer's signature beside a good one: one order accepts the single-signature
      link and another refuses it. */
  lemma StraySignatureUnsettlesSingle(env: Env, link: Entity, granter: Hash, included: Included, good: Entity,
                                      stray: Entity)
    returns (accepting: Orders, refusing: Orders)
    requires good in included.Values && GoodSignature(env, link, granter, included, good)
    requires stray in included.Values && SignatureOn(stray, link.contentHash)
    requires stray.data.signature.value.signer != granter
    ensures ValidOrders(accepting, included) && LinkVerdict(env, link, Single(granter), included, accepting)
    ensures ValidOrders(refusing, included) && !LinkVerdict(env, link, Single(granter), included, refusing)
  {
    accepting := Orders(_ => OrderMeeting(included, good));
    refusing := Orders(_ => OrderMeeting(included, stray));
    assert Meets(good, ByAnyone(link.contentHash)) && Meets(stray, ByAnyone(link.contentHash));
  }

  /** At most one signature entity per link for a single granter, and per link and signer
      for a multi-signature one. */
  ghost predicate UnambiguousSignatures(link: Entity, granter: Granter, included: Included) {
    forall e, f :: e in included.Values && f in included.Values
                   && SignatureOn(e, link.contentHash) && SignatureOn(f, link.contentHash)
                   && (granter.Single? || e.data.signature.value.signer == f.data.signature.value.signer)
                   ==> e == f
  }

  /** Unambiguous signatures are enough, whatever the keys verify. */
  lemma UnambiguousDecides(env: Env, link: Entity, granter: Granter, included: Included, local: string)
    requires UnambiguousSignatures(link, granter, included)
    ensures OrdersAgree(env, link, granter, included)
    ensures LinkSigned(env, link, granter, included, false) <==> LinkSigned(env, link, granter, included, true)
    ensures RootGranted(env, link, granter, included, local, false)
       <==> RootGranted(env, link, granter, included, local, true)
  {
    OrdersAgreeWhenSettled(env, link, granter, included);
    LinkSignedWeakens(env, link, granter, included, local);
    hide OrdersAgree, GoodSignature;
    if granter.Multi? {
      forall s ensures SignedBy(env, link, s, included, false) ==> SignedBy(env, link, s, included, true) {
      }
      SubsetCardinality(Quorum(env, link, granter.signers, included, false),
                        Quorum(env, link, granter.signers, included, true));
    }
  }

  lemma LinkSignedWeakens(env: Env, link: Entity, granter: Granter, included: Included, local: string)
    ensures LinkSigned(env, link, granter, included, true) ==> LinkSigned(env, link, granter, included, false)
    ensures RootGranted(env, link, granter, included, local, true) ==>
              RootGranted(env, link, granter, included, local, false)
  {
    var orders := ExtremeOrders(env, link, granter, included, true);
    LinkVerdictBounds(env, link, granter, included, orders);
    RootVerdictBounds(env, link, granter, included, local, orders);
  }
}
