/** End-to-end verification of a delegation chain. */
module ChainVerification {
  import opened Patterns
  import opened Tokens
  import opened Attenuation
  import opened Authority
  import opened Signatures

  // ----- per-token checks -----------------------------------------------

  predicate AllMatchable(patterns: seq<string>) {
    forall p :: p in patterns ==> !IsUnmatchable(p)
  }

  /** No path-scope pattern of any grant is of a never-matching form. */
  predicate Matchable(grants: seq<Grant>) {
    forall g :: g in grants ==>
      && AllMatchable(g.handlers.includes) && AllMatchable(g.handlers.excludes)
      && AllMatchable(g.resources.includes) && AllMatchable(g.resources.excludes)
  }

  method FirstUnmatchable(patterns: seq<string>) returns (r: Option<string>)
    ensures r.None? <==> AllMatchable(patterns)
    ensures r.Some? ==> r.value in patterns && IsUnmatchable(r.value)
  {
    hide IsUnmatchable;
    for i := 0 to |patterns|
      invariant forall k :: 0 <= k < i ==> !IsUnmatchable(patterns[k])
    {
      if IsUnmatchable(patterns[i]) { return Some(patterns[i]); }
    }
    return None;
  }

  method FirstUnmatchableScopePattern(grants: seq<Grant>) returns (r: Option<string>)
    ensures r.None? <==> Matchable(grants)
    ensures r.Some? ==> IsUnmatchable(r.value)
  {
    hide AllMatchable;
    for i := 0 to |grants|
      invariant Matchable(grants[..i])
    {
      var g := grants[i];
      assert g in grants && grants[..i + 1] == grants[..i] + [g];
      r := FirstUnmatchable(g.handlers.includes);
      if r.Some? { return; }
      r := FirstUnmatchable(g.handlers.excludes);
      if r.Some? { return; }
      r := FirstUnmatchable(g.resources.includes);
      if r.Some? { return; }
      r := FirstUnmatchable(g.resources.excludes);
      if r.Some? { return; }
    }
    assert grants[..|grants|] == grants;
    return None;
  }

  /** Lifetime in unsigned 64-bit arithmetic: an expiry before creation wraps around. */
  function Ttl(expiresAt: u64, createdAt: u64): u64 {
    (expiresAt - createdAt) % TWO_64
  }

  /** `depth` is the child's index counted from the leaf. */
  predicate CaveatsAllow(parent: Token, child: Token, depth: nat) {
    match parent.caveats
    case None => true
    case Some(c) =>
      && c.noDelegation != Some(true)
      && (c.maxDepth.Some? ==> depth < c.maxDepth.value)
      && (c.maxTtl.Some? && child.expiresAt.Some? ==> Ttl(child.expiresAt.value, child.createdAt) <= c.maxTtl.value)
  }

  predicate GranteeResolves(t: Token, included: Included) {
    t.grantee in included && included[t.grantee].kind == TYPE_PEER
  }

  // ----- the chain ------------------------------------------------------

  ghost predicate Delegates(env: Env, child: Token, parent: Token, depth: nat, included: Included, local: string) {
    && child.granter.Single?
    && parent.grantee == child.granter.hash
    && GranterPeer(env, child.granter, included, local).Some?
    && GranterPeer(env, parent.granter, included, local).Some?
    && Attenuated(child, parent, GranterPeer(env, child.granter, included, local).value,
                  GranterPeer(env, parent.granter, included, local).value, local)
    && CaveatsAllow(parent, child, depth)
  }

  /** Everything checked of link `i` of a chain ordered leaf to root, besides signatures. */
  ghost predicate LinkChecks(env: Env, chain: seq<Entity>, i: nat, included: Included, local: string, now: u64)
    requires i < |chain|
  {
    && chain[i].data.token.Some?
    && var t := chain[i].data.token.value;
    && ValidStructure(t)
    && Matchable(t.grants)
    && InWindow(t, now)
    && GranteeResolves(t, included)
    && (i < |chain| - 1 ==>
          chain[i + 1].data.token.Some? && Delegates(env, t, chain[i + 1].data.token.value, i, included, local))
  }

  ghost predicate LinkHolds(env: Env, chain: seq<Entity>, i: nat, included: Included, local: string, now: u64,
                            sure: bool)
    requires i < |chain|
  {
    && LinkChecks(env, chain, i, included, local, now)
    && var granter := chain[i].data.token.value.granter;
    && LinkSigned(env, chain[i], granter, included, sure)
    && (i == |chain| - 1 ==> RootGranted(env, chain[i], granter, included, local, sure))
  }

  /** The wall clock, read once for each link. */
  type Clock = nat -> u64

  ghost predicate ChainHolds(env: Env, chain: seq<Entity>, included: Included, local: string, clock: Clock,
                             sure: bool) {
    forall i :: 0 <= i < |chain| ==> LinkHolds(env, chain, i, included, local, clock(i), sure)
  }

  /** What VerifyChain accepts: under some (`sure == false`) or under every (`sure == true`)
      map iteration order. */
  ghost predicate Accepts(env: Env, leaf: Entity, included: Included, local: string, clock: Clock, sure: bool) {
    && KeyBound(env, included)
    && Walk(IncludedResolver(included), leaf).Ok?
    && ChainHolds(env, Walk(IncludedResolver(included), leaf).value, included, local, clock, sure)
  }

  // ----- one run --------------------------------------------------------

  /** The iteration orders of one run: those of each link's signature check, and those of the
      root check. */
  datatype Run = Run(link: nat -> Orders, root: Orders)

  ghost predicate ValidRun(run: Run, included: Included) {
    && (forall i :: ValidOrders(run.link(i), included))
    && ValidOrders(run.root, included)
  }

  ghost predicate LinkPasses(env: Env, chain: seq<Entity>, i: nat, included: Included, local: string, now: u64,
                             run: Run)
    requires i < |chain| && ValidRun(run, included)
  {
    && LinkChecks(env, chain, i, included, local, now)
    && var granter := chain[i].data.token.value.granter;
    && LinkVerdict(env, chain[i], granter, included, run.link(i))
    && (i == |chain| - 1 ==> RootVerdict(env, chain[i], granter, included, local, run.root))
  }

  ghost predicate ChainPasses(env: Env, chain: seq<Entity>, included: Included, local: string, clock: Clock, run: Run)
    requires ValidRun(run, included)
  {
    forall i :: 0 <= i < |chain| ==> LinkPasses(env, chain, i, included, local, clock(i), run)
  }

  /** The verdict of one run. */
  ghost predicate RunAccepts(env: Env, leaf: Entity, included: Included, local: string, clock: Clock, run: Run)
    requires ValidRun(run, included)
  {
    && KeyBound(env, included)
    && Walk(IncludedResolver(included), leaf).Ok?
    && ChainPasses(env, Walk(IncludedResolver(included), leaf).value, included, local, clock, run)
  }

  method VerifyIncludedKeyBinding(env: Env, included: Included) returns (ok: bool)
    ensures ok == KeyBound(env, included)
  {
    var keys := included.Keys;
    while keys != {}
      invariant keys <= included.Keys
      invariant forall h :: h in included && h !in keys ==>
                  env.selfConsistent(included[h]) && included[h].contentHash == h
      decreases keys
    {
      var h :| h in keys;
      if !env.selfConsistent(included[h]) || included[h].contentHash != h { return false; }
      keys := keys - {h};
    }
    return true;
  }

  /** Non-root checks of one link against its parent. */
  method CheckDelegation(env: Env, t: Token, parent: Entity, depth: nat, included: Included,
                         local: string) returns (ok: bool)
    ensures ok == (parent.data.token.Some? && Delegates(env, t, parent.data.token.value, depth, included, local))
  {
    hide Attenuated, CaveatsAllow;
    if parent.data.token.None? { return false; }
    var p := parent.data.token.value;
    if t.granter.Multi? || p.grantee != t.granter.hash { return false; }
    var childPeer := GranterPeer(env, t.granter, included, local);
    if childPeer.None? { return false; }
    var parentPeer := GranterPeer(env, p.granter, included, local);
    if parentPeer.None? { return false; }
    var attenuated := IsAttenuated(t, p, childPeer.value, parentPeer.value, local);
    if !attenuated { return false; }
    return CaveatsAllow(p, t, depth);
  }

  /** The per-link checks before signatures; `Err` carries the error kinds. */
  method CheckToken(link: Entity, now: u64) returns (r: Result<Token, set<Kind>>)
    ensures r.Ok? <==> && link.data.token.Some? && ValidStructure(link.data.token.value)
                       && Matchable(link.data.token.value.grants) && InWindow(link.data.token.value, now)
    ensures r.Ok? ==> link.data.token == Some(r.value)
    ensures r.Err? ==>
              var zeroGrantee := && link.data.token.Some?
                                 && var t := link.data.token.value;
                                 && ValidGranter(t.granter) && (t.granter.Multi? ==> t.parent.None?)
                                 && IsZero(t.grantee);
              r.error == if zeroGrantee then {Denied, UnresolvableGrantee} else {Denied}
  {
    hide Matchable;
    if link.data.token.None? { return Err({Denied}); }
    var t := link.data.token.value;
    if !ValidStructure(t) {
      var zeroGrantee := ValidGranter(t.granter) && (t.granter.Multi? ==> t.parent.None?);
      return Err(if zeroGrantee then {Denied, UnresolvableGrantee} else {Denied});
    }
    var bad := FirstUnmatchableScopePattern(t.grants);
    if bad.Some? { return Err({Denied}); }
    if t.notBefore.Some? && now < t.notBefore.value { return Err({Denied}); }
    if Expired(t.expiresAt, now) { return Err({Denied}); }
    return Ok(t);
  }

  /** The signature found on a single-signature link is its granter's and does not verify. */
  ghost predicate FoundForged(env: Env, link: Entity, granter: Granter, included: Included, orders: Orders)
    requires ValidOrders(orders, included)
  {
    && granter.Single? && granter.hash in included && included[granter.hash].data.peer.Some?
    && var found := First(orders.at(granter.hash), included, ByAnyone(link.contentHash));
       && found.Some? && SignatureBy(found.value, link.contentHash, granter.hash)
       && !Verifies(env, link, included[granter.hash], found.value)
  }

  /** The error kinds of a link that fails: a zero grantee is reported as both kinds, a forged
      signature and a grantee that does not resolve as their own, everything else as denied. */
  ghost predicate ErrorsAt(env: Env, link: Entity, included: Included, now: u64, orders: Orders, error: set<Kind>)
    requires ValidOrders(orders, included)
  {
    if link.data.token.None? then error == {Denied}
    else
      var t := link.data.token.value;
      if ValidGranter(t.granter) && (t.granter.Multi? ==> t.parent.None?) && IsZero(t.grantee)
      then error == {Denied, UnresolvableGrantee}
      else if !(ValidStructure(t) && Matchable(t.grants) && InWindow(t, now)) then error == {Denied}
      else if FoundForged(env, link, t.granter, included, orders) then error == {AuthenticationFailed}
      else if LinkVerdict(env, link, t.granter, included, orders) && !GranteeResolves(t, included)
      then error == {UnresolvableGrantee}
      else error == {Denied}
  }

  method VerifyLink(env: Env, chain: seq<Entity>, i: nat, included: Included, local: string, now: u64)
    returns (r: Result<(), set<Kind>>, ghost link: Orders, ghost root: Orders)
    requires i < |chain|
    ensures ValidOrders(link, included) && ValidOrders(root, included)
    ensures forall run :: ValidRun(run, included) && run.link(i) == link && (i == |chain| - 1 ==> run.root == root) ==>
              (r.Ok? <==> LinkPasses(env, chain, i, included, local, now, run))
    ensures r.Err? ==> ErrorsAt(env, chain[i], included, now, link, r.error)
  {
    hide Matchable, LinkVerdict, RootVerdict, Delegates, InWindow, ValidGranter, IsZero, ValidOrders, First, Verifies,
         GranteeResolves;
    ghost var base := SomeOrder(included.Keys);
    link, root := Orders(_ => base), Orders(_ => base);
    BaseOrders(base, included);
    var checked := CheckToken(chain[i], now);
    if checked.Err? { return Err(checked.error), link, root; }
    var t := checked.value;
    var signed;
    signed, link := VerifyLinkSignatures(env, chain[i], t.granter, included);
    if signed.Some? { return Err({signed.value}), link, root; }
    if !GranteeResolves(t, included) { return Err({UnresolvableGrantee}), link, root; }
    var ok;
    if i == |chain| - 1 {
      ok, root := VerifyRootGranter(env, chain[i], t.granter, included, local);
    } else {
      ok := CheckDelegation(env, t, chain[i + 1], i, included, local);
    }
    return if ok then Ok(()) else Err({Denied}), link, root;
  }

  /** The run with the orders of one more link filled in. */
  ghost function WithLink(run: Run, i: nat, link: Orders, root: Orders): Run {
    Run((j: nat) => if j == i then link else run.link(j), root)
  }

  /** A link below depends neither on this link's orders nor on the root's. */
  lemma LowerLinksPass(env: Env, chain: seq<Entity>, i: nat, included: Included, local: string, clock: Clock, run: Run,
                       link: Orders, root: Orders)
    requires i < |chain| && ValidRun(run, included) && ValidOrders(link, included) && ValidOrders(root, included)
    requires forall k :: 0 <= k < i ==> LinkPasses(env, chain, k, included, local, clock(k), run)
    ensures ValidRun(WithLink(run, i, link, root), included)
    ensures WithLink(run, i, link, root).link(i) == link && WithLink(run, i, link, root).root == root
    ensures forall k :: 0 <= k < i ==>
              LinkPasses(env, chain, k, included, local, clock(k), WithLink(run, i, link, root))
  {
    hide LinkChecks, LinkVerdict, RootVerdict, ValidOrders;
    forall k | 0 <= k < i ensures LinkPasses(env, chain, k, included, local, clock(k), WithLink(run, i, link, root)) {
      assert LinkPasses(env, chain, k, included, local, clock(k), run);
      assert WithLink(run, i, link, root).link(k) == run.link(k);
    }
  }

  lemma BaseOrders(base: seq<Hash>, included: Included)
    requires IsOrder(base, included.Keys)
    ensures ValidOrders(Orders(_ => base), included)
  {
  }

  /** Link `i` is the first to fail, with these error kinds. */
  ghost predicate FailsFirst(env: Env, chain: seq<Entity>, included: Included, local: string, clock: Clock, run: Run,
                             i: nat, error: set<Kind>)
    requires ValidRun(run, included)
  {
    && i < |chain|
    && (forall k :: 0 <= k < i ==> LinkPasses(env, chain, k, included, local, clock(k), run))
    && !LinkPasses(env, chain, i, included, local, clock(i), run)
    && ErrorsAt(env, chain[i], included, clock(i), run.link(i), error)
  }

  /** The loop over the links, leaf to root. */
  method VerifyLinks(env: Env, chain: seq<Entity>, included: Included, local: string, clock: Clock)
    returns (r: Result<(), set<Kind>>, ghost run: Run)
    ensures ValidRun(run, included)
    ensures r.Ok? <==> ChainPasses(env, chain, included, local, clock, run)
    ensures r.Err? ==> exists i :: FailsFirst(env, chain, included, local, clock, run, i, r.error)
  {
    run := ExtremeRun(env, chain, included, false);
    hide LinkPasses, ValidOrders, WithLink, ValidRun;
    for i := 0 to |chain|
      invariant ValidRun(run, included)
      invariant forall k :: 0 <= k < i ==> LinkPasses(env, chain, k, included, local, clock(k), run)
    {
      var checked, link, root := VerifyLink(env, chain, i, included, local, clock(i));
      LowerLinksPass(env, chain, i, included, local, clock, run, link, root);
      run := WithLink(run, i, link, root);
      if checked.Err? {
        assert FailsFirst(env, chain, included, local, clock, run, i, checked.error);
        return Err(checked.error), run;
      }
    }
    return Ok(()), run;
  }

  /** VerifyChain: bind the envelope, walk to the root, then check every link. */
  method VerifyChain(env: Env, leaf: Entity, included: Included, local: string, clock: Clock)
    returns (r: Result<(), set<Kind>>, ghost run: Run)
    ensures ValidRun(run, included)
    ensures r.Ok? <==> RunAccepts(env, leaf, included, local, clock, run)
    ensures r.Err? ==>
              if !KeyBound(env, included) then r.error == {Denied}
              else match Walk(IncludedResolver(included), leaf)
                case Err(e) => r.error == if e == TooDeep then {ChainTooDeep} else {Denied}
                case Ok(chain) => exists i :: FailsFirst(env, chain, included, local, clock, run, i, r.error)
  {
    hide ChainPasses, WalkFrom, KeyBound, ValidRun;
    run := ExtremeRun(env, [], included, false);
    var bound := VerifyIncludedKeyBinding(env, included);
    if !bound { return Err({Denied}), run; }
    var walked := CollectAuthorityChain(leaf, IncludedResolver(included));
    if walked.Err? { return Err(if walked.error.TooDeep? then {ChainTooDeep} else {Denied}), run; }
    r, run := VerifyLinks(env, walked.value, included, local, clock);
  }

  // ----- the two strengths ----------------------------------------------

  /** The chain VerifyChain walks, for an accepted leaf. */
  ghost function ChainOf(leaf: Entity, included: Included): seq<Entity>
    requires Walk(IncludedResolver(included), leaf).Ok?
  {
    Walk(IncludedResolver(included), leaf).value
  }

  ghost function ExtremeAt(env: Env, chain: seq<Entity>, i: int, included: Included, sure: bool): (orders: Orders)
    ensures ValidOrders(orders, included)
  {
    if 0 <= i < |chain| && chain[i].data.token.Some?
    then ExtremeOrders(env, chain[i], chain[i].data.token.value.granter, included, sure)
    else Orders(_ => SomeOrder(included.Keys))
  }

  /** The most (`sure == false`) and the least favourable run over a chain. */
  ghost function ExtremeRun(env: Env, chain: seq<Entity>, included: Included, sure: bool): (run: Run)
    ensures ValidRun(run, included)
  {
    Run((i: nat) => ExtremeAt(env, chain, i, included, sure), ExtremeAt(env, chain, |chain| - 1, included, sure))
  }

  lemma ExtremeRunDecides(env: Env, chain: seq<Entity>, included: Included, local: string, now: u64, sure: bool, i: nat)
    requires i < |chain|
    ensures LinkPasses(env, chain, i, included, local, now, ExtremeRun(env, chain, included, sure))
       <==> LinkHolds(env, chain, i, included, local, now, sure)
  {
    hide Delegates, Matchable, ValidStructure, LinkVerdict, LinkSigned, RootVerdict, RootGranted;
    if chain[i].data.token.Some? {
      var granter := chain[i].data.token.value.granter;
      var orders := ExtremeOrders(env, chain[i], granter, included, sure);
      LinkVerdictBounds(env, chain[i], granter, included, orders);
      RootVerdictBounds(env, chain[i], granter, included, local, orders);
    }
  }

  lemma RunBounds(env: Env, chain: seq<Entity>, included: Included, local: string, now: u64, run: Run, i: nat)
    requires i < |chain| && ValidRun(run, included)
    ensures LinkHolds(env, chain, i, included, local, now, true) ==>
              LinkPasses(env, chain, i, included, local, now, run)
    ensures LinkPasses(env, chain, i, included, local, now, run) ==>
              LinkHolds(env, chain, i, included, local, now, false)
  {
    hide Delegates, Matchable, ValidStructure, LinkVerdict, LinkSigned, RootVerdict, RootGranted;
    if chain[i].data.token.Some? {
      var granter := chain[i].data.token.value.granter;
      LinkVerdictBounds(env, chain[i], granter, included, run.link(i));
      RootVerdictBounds(env, chain[i], granter, included, local, run.root);
    }
  }

  /** Every run's verdict lies between the two strengths, and both are attained. */
  lemma AcceptsBounds(env: Env, leaf: Entity, included: Included, local: string, clock: Clock, run: Run)
    requires ValidRun(run, included)
    ensures Accepts(env, leaf, included, local, clock, true) ==> RunAccepts(env, leaf, included, local, clock, run)
    ensures RunAccepts(env, leaf, included, local, clock, run) ==> Accepts(env, leaf, included, local, clock, false)
    ensures Walk(IncludedResolver(included), leaf).Ok? ==> forall sure ::
              RunAccepts(env, leaf, included, local, clock, ExtremeRun(env, ChainOf(leaf, included), included, sure))
              <==> Accepts(env, leaf, included, local, clock, sure)
  {
    hide LinkHolds, LinkPasses, WalkFrom, KeyBound, ValidRun, ExtremeRun;
    if Walk(IncludedResolver(included), leaf).Ok? {
      var chain := ChainOf(leaf, included);
      forall i | 0 <= i < |chain| {
        RunBounds(env, chain, included, local, clock(i), run, i);
      }
      forall sure: bool, i | 0 <= i < |chain|
        ensures LinkPasses(env, chain, i, included, local, clock(i), ExtremeRun(env, chain, included, sure))
           <==> LinkHolds(env, chain, i, included, local, clock(i), sure)
      {
        ExtremeRunDecides(env, chain, included, local, clock(i), sure, i);
      }
    }
  }

  /** The two strengths of acceptance are what they say: some run of VerifyChain accepts, and
      every run does. */
  lemma AcceptsExactly(env: Env, leaf: Entity, included: Included, local: string, clock: Clock)
    ensures Accepts(env, leaf, included, local, clock, false)
       <==> exists run :: ValidRun(run, included) && RunAccepts(env, leaf, included, local, clock, run)
    ensures Accepts(env, leaf, included, local, clock, true)
       <==> forall run :: ValidRun(run, included) ==> RunAccepts(env, leaf, included, local, clock, run)
  {
    var chain := if Walk(IncludedResolver(included), leaf).Ok? then ChainOf(leaf, included) else [];
    var best, worst := ExtremeRun(env, chain, included, false), ExtremeRun(env, chain, included, true);
    hide ChainHolds, LinkPasses, WalkFrom, KeyBound, ValidRun, ExtremeRun;
    forall run | ValidRun(run, included) {
      AcceptsBounds(env, leaf, included, local, clock, run);
    }
    AcceptsBounds(env, leaf, included, local, clock, best);
    AcceptsBounds(env, leaf, included, local, clock, worst);
  }

  lemma SureIsStronger(env: Env, leaf: Entity, included: Included, local: string, clock: Clock)
    requires Accepts(env, leaf, included, local, clock, true)
    ensures Accepts(env, leaf, included, local, clock, false)
  {
    hide ChainHolds, LinkPasses, WalkFrom, KeyBound, ExtremeRun;
    AcceptsBounds(env, leaf, included, local, clock, ExtremeRun(env, ChainOf(leaf, included), included, true));
  }

  /** When no link's signatures are ambiguous, the verdict does not depend on the map
      iteration order, so VerifyChain decides acceptance. */
  lemma UnambiguousChainDecided(env: Env, leaf: Entity, included: Included, local: string, clock: Clock)
    requires Walk(IncludedResolver(included), leaf).Ok?
    requires var chain := ChainOf(leaf, included);
             forall i :: 0 <= i < |chain| ==>
               && chain[i].data.token.Some?
               && UnambiguousSignatures(chain[i], chain[i].data.token.value.granter, included)
    ensures Accepts(env, leaf, included, local, clock, false) <==> Accepts(env, leaf, included, local, clock, true)
  {
    hide LinkChecks, LinkSigned, RootGranted, WalkFrom, UnambiguousSignatures;
    var chain := ChainOf(leaf, included);
    forall i | 0 <= i < |chain|
      ensures LinkHolds(env, chain, i, included, local, clock(i), false)
         <==> LinkHolds(env, chain, i, included, local, clock(i), true)
    {
      UnambiguousDecides(env, chain[i], chain[i].data.token.value.granter, included, local);
    }
    assert ChainHolds(env, chain, included, local, clock, false) <==>
             ChainHolds(env, chain, included, local, clock, true);
  }
}
