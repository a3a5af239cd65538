/** The bounded leaf-to-root walk over an arbitrary, possibly cyclic, parent graph. */
module Authority {
  import opened Patterns
  import opened Tokens

  const MAX_CHAIN_DEPTH := 64

  datatype WalkError = TooDeep | Unreachable | MixedFormat | BadToken

  // ----- the parent walk, declaratively ---------------------------------

  /** `next` is what `ent`'s parent reference resolves to. */
  predicate ParentOf(resolve: Resolver, ent: Entity, next: Entity) {
    && ent.data.token.Some?
    && ent.data.token.value.parent.Some?
    && resolve(ent.data.token.value.parent.value) == Some(next)
  }

  predicate IsRootEntity(ent: Entity) {
    ent.data.token.Some? && ent.data.token.value.parent.None?
  }

  /** A complete walk: from the leaf, each link's parent in turn, down to a root. */
  ghost predicate CompleteWalk(resolve: Resolver, leaf: Entity, chain: seq<Entity>) {
    && |chain| > 0
    && chain[0] == leaf
    && (forall i :: 0 <= i < |chain| - 1 ==> ParentOf(resolve, chain[i], chain[i + 1]))
    && IsRootEntity(chain[|chain| - 1])
  }

  predicate OneFormat(chain: seq<Entity>, format: byte) {
    forall i :: 0 <= i < |chain| ==> chain[i].contentHash.algorithm == format
  }

  // ----- the walk, as the source runs it --------------------------------

  /** The remainder of the walk from `current`, `depth` links above the leaf. */
  function WalkFrom(resolve: Resolver, current: Entity, format: byte, depth: nat): (r: Result<seq<Entity>, WalkError>)
    decreases MAX_CHAIN_DEPTH + 1 - depth
  {
    if depth > MAX_CHAIN_DEPTH then Err(TooDeep)
    else if current.contentHash.algorithm != format then Err(MixedFormat)
    else if current.data.token.None? then Err(BadToken)
    else if current.data.token.value.parent.None? then Ok([current])
    else
      match resolve(current.data.token.value.parent.value)
      case None => Err(Unreachable)
      case Some(next) =>
        match WalkFrom(resolve, next, format, depth + 1)
        case Err(e) => Err(e)
        case Ok(rest) => Ok([current] + rest)
  }

  function Walk(resolve: Resolver, leaf: Entity): Result<seq<Entity>, WalkError> {
    WalkFrom(resolve, leaf, leaf.contentHash.algorithm, 0)
  }

  /** CollectAuthorityChain: append, resolve, climb, until a root, a gap or the limit. */
  method CollectAuthorityChain(leaf: Entity, resolve: Resolver) returns (r: Result<seq<Entity>, WalkError>)
    ensures r == Walk(resolve, leaf)
  {
    var chain: seq<Entity> := [];
    var current := leaf;
    var depth := 0;
    var format := leaf.contentHash.algorithm;
    assert forall rest: seq<Entity> :: [] + rest == rest;
    while true
      invariant depth <= MAX_CHAIN_DEPTH + 1
      invariant Walk(resolve, leaf) ==
                match WalkFrom(resolve, current, format, depth)
                case Err(e) => Err(e)
                case Ok(rest) => Ok(chain + rest)
      decreases MAX_CHAIN_DEPTH + 1 - depth
    {
      if depth > MAX_CHAIN_DEPTH { return Err(TooDeep); }
      if current.contentHash.algorithm != format { return Err(MixedFormat); }
      chain := chain + [current];
      if current.data.token.None? { return Err(BadToken); }
      if current.data.token.value.parent.None? { return Ok(chain); }
      var next := resolve(current.data.token.value.parent.value);
      if next.None? { return Err(Unreachable); }
      assert forall rest: seq<Entity> :: chain[..|chain| - 1] + ([current] + rest) == chain + rest;
      current := next.value;
      depth := depth + 1;
    }
  }

  // ----- exactness ------------------------------------------------------

  lemma {:induction false} WalkSound(resolve: Resolver, current: Entity, format: byte, depth: nat)
    requires WalkFrom(resolve, current, format, depth).Ok?
    ensures var chain := WalkFrom(resolve, current, format, depth).value;
            && CompleteWalk(resolve, current, chain)
            && OneFormat(chain, format)
            && depth + |chain| <= MAX_CHAIN_DEPTH + 1
    decreases MAX_CHAIN_DEPTH + 1 - depth
  {
    var token := current.data.token.value;
    if token.parent.Some? {
      var next := resolve(token.parent.value).value;
      WalkSound(resolve, next, format, depth + 1);
      var rest := WalkFrom(resolve, next, format, depth + 1).value;
      var chain := [current] + rest;
      forall i | 0 <= i < |chain| - 1 ensures ParentOf(resolve, chain[i], chain[i + 1]) {
        if i > 0 { assert chain[i] == rest[i - 1]; }
      }
    }
  }

  lemma {:induction false} WalkComplete(resolve: Resolver, chain: seq<Entity>, format: byte, depth: nat)
    requires |chain| > 0 && CompleteWalk(resolve, chain[0], chain) && OneFormat(chain, format)
    requires depth + |chain| <= MAX_CHAIN_DEPTH + 1
    ensures WalkFrom(resolve, chain[0], format, depth) == Ok(chain)
    decreases |chain|
  {
    if |chain| > 1 {
      var rest := chain[1..];
      assert ParentOf(resolve, chain[0], chain[1]);
      forall i | 0 <= i < |rest| - 1 ensures ParentOf(resolve, rest[i], rest[i + 1]) {
        assert ParentOf(resolve, chain[i + 1], chain[i + 2]);
      }
      WalkComplete(resolve, rest, format, depth + 1);
      assert [chain[0]] + rest == chain;
    } else {
      assert chain == [chain[0]];
    }
  }

  /** The bounded walk returns a chain exactly when that chain is the complete parent walk,
      has at most 65 links and keeps one hash format. */
  lemma WalkExactly(resolve: Resolver, leaf: Entity, chain: seq<Entity>)
    ensures Walk(resolve, leaf) == Ok(chain)
       <==> && CompleteWalk(resolve, leaf, chain)
            && |chain| <= MAX_CHAIN_DEPTH + 1
            && OneFormat(chain, leaf.contentHash.algorithm)
  {
    if Walk(resolve, leaf) == Ok(chain) {
      WalkSound(resolve, leaf, leaf.contentHash.algorithm, 0);
    }
    if && CompleteWalk(resolve, leaf, chain) && |chain| <= MAX_CHAIN_DEPTH + 1
       && OneFormat(chain, leaf.contentHash.algorithm) {
      WalkComplete(resolve, chain, leaf.contentHash.algorithm, 0);
    }
  }

  /** A stretch of parents, not necessarily reaching a root. */
  ghost predicate Stretch(resolve: Resolver, first: Entity, links: seq<Entity>) {
    && |links| > 0
    && links[0] == first
    && forall i :: 0 <= i < |links| - 1 ==> ParentOf(resolve, links[i], links[i + 1])
  }

  lemma {:induction false} DeepWalkHasStretch(resolve: Resolver, current: Entity, format: byte,
                                              depth: nat) returns (links: seq<Entity>)
    requires depth <= MAX_CHAIN_DEPTH + 1 && WalkFrom(resolve, current, format, depth) == Err(TooDeep)
    ensures Stretch(resolve, current, links) && depth + |links| == MAX_CHAIN_DEPTH + 2
    ensures OneFormat(links[..|links| - 1], format)
    decreases MAX_CHAIN_DEPTH + 1 - depth
  {
    if depth > MAX_CHAIN_DEPTH {
      links := [current];
    } else {
      var next := resolve(current.data.token.value.parent.value).value;
      var rest := DeepWalkHasStretch(resolve, next, format, depth + 1);
      links := [current] + rest;
      forall i | 0 <= i < |links| - 1 ensures ParentOf(resolve, links[i], links[i + 1]) {
        if i > 0 { assert ParentOf(resolve, rest[i - 1], rest[i]); }
      }
      assert links[..|links| - 1] == [current] + rest[..|rest| - 1];
    }
  }

  lemma {:induction false} StretchIsTooDeep(resolve: Resolver, links: seq<Entity>, format: byte, depth: nat)
    requires |links| > 0 && Stretch(resolve, links[0], links) && depth + |links| == MAX_CHAIN_DEPTH + 2
    requires OneFormat(links[..|links| - 1], format)
    ensures WalkFrom(resolve, links[0], format, depth) == Err(TooDeep)
    decreases |links|
  {
    if |links| > 1 {
      var rest := links[1..];
      assert ParentOf(resolve, links[0], links[1]);
      assert links[..|links| - 1][0] == links[0];
      forall i | 0 <= i < |rest| - 1 ensures ParentOf(resolve, rest[i], rest[i + 1]) {
        assert ParentOf(resolve, links[i + 1], links[i + 2]);
      }
      assert rest[..|rest| - 1] == links[..|links| - 1][1..];
      StretchIsTooDeep(resolve, rest, format, depth + 1);
    }
  }

  /** The depth error means exactly that 65 one-format links still have a resolvable
      parent above them, as on any one-format cycle. */
  lemma TooDeepExactly(resolve: Resolver, leaf: Entity)
    ensures Walk(resolve, leaf) == Err(TooDeep)
       <==> exists links :: && Stretch(resolve, leaf, links)
                            && |links| == MAX_CHAIN_DEPTH + 2
                            && OneFormat(links[..|links| - 1], leaf.contentHash.algorithm)
  {
    if Walk(resolve, leaf) == Err(TooDeep) {
      var links := DeepWalkHasStretch(resolve, leaf, leaf.contentHash.algorithm, 0);
    }
    forall links | && Stretch(resolve, leaf, links)
                   && |links| == MAX_CHAIN_DEPTH + 2
                   && OneFormat(links[..|links| - 1], leaf.contentHash.algorithm)
      ensures Walk(resolve, leaf) == Err(TooDeep)
    {
      StretchIsTooDeep(resolve, links, leaf.contentHash.algorithm, 0);
    }
  }

  /** What the last link of a failed walk shows: another hash format, no token, or a parent that
      does not resolve. */
  ghost predicate Shows(resolve: Resolver, last: Entity, format: byte, error: WalkError) {
    match error
    case MixedFormat => last.contentHash.algorithm != format
    case BadToken => last.contentHash.algorithm == format && last.data.token.None?
    case Unreachable =>
      && last.contentHash.algorithm == format && last.data.token.Some? && last.data.token.value.parent.Some?
      && resolve(last.data.token.value.parent.value).None?
    case TooDeep => false
  }

  /** A stretch of at most `room` links in one format, up to one that shows the error. */
  ghost predicate FailsAlong(resolve: Resolver, first: Entity, links: seq<Entity>, format: byte, room: int,
                             error: WalkError) {
    && Stretch(resolve, first, links) && |links| <= room
    && OneFormat(links[..|links| - 1], format)
    && Shows(resolve, links[|links| - 1], format, error)
  }

  lemma {:induction false} FailedWalkStretches(resolve: Resolver, current: Entity, format: byte, depth: nat,
                                               error: WalkError) returns (links: seq<Entity>)
    requires WalkFrom(resolve, current, format, depth) == Err(error) && error != TooDeep
    ensures FailsAlong(resolve, current, links, format, MAX_CHAIN_DEPTH + 1 - depth, error)
    decreases MAX_CHAIN_DEPTH + 1 - depth
  {
    if Shows(resolve, current, format, error) {
      links := [current];
    } else {
      var next := resolve(current.data.token.value.parent.value).value;
      var rest := FailedWalkStretches(resolve, next, format, depth + 1, error);
      links := [current] + rest;
      forall i | 0 <= i < |links| - 1 ensures ParentOf(resolve, links[i], links[i + 1]) {
        if i > 0 { assert ParentOf(resolve, rest[i - 1], rest[i]); }
      }
      assert links[..|links| - 1] == [current] + rest[..|rest| - 1];
    }
  }

  lemma {:induction false} StretchFails(resolve: Resolver, links: seq<Entity>, format: byte, depth: nat,
                                        error: WalkError)
    requires |links| > 0 && FailsAlong(resolve, links[0], links, format, MAX_CHAIN_DEPTH + 1 - depth, error)
    ensures WalkFrom(resolve, links[0], format, depth) == Err(error)
    decreases |links|
  {
    if |links| > 1 {
      var rest := links[1..];
      assert ParentOf(resolve, links[0], links[1]);
      assert links[..|links| - 1][0] == links[0];
      forall i | 0 <= i < |rest| - 1 ensures ParentOf(resolve, rest[i], rest[i + 1]) {
        assert ParentOf(resolve, links[i + 1], links[i + 2]);
      }
      assert rest[..|rest| - 1] == links[..|links| - 1][1..];
      StretchFails(resolve, rest, format, depth + 1, error);
    }
  }

  /** Each other error, exactly: within 65 links of one format the walk comes to one that shows
      it. */
  lemma WalkErrorExactly(resolve: Resolver, leaf: Entity, error: WalkError)
    requires error != TooDeep
    ensures Walk(resolve, leaf) == Err(error) <==>
              exists links :: FailsAlong(resolve, leaf, links, leaf.contentHash.algorithm, 65, error)
  {
    if Walk(resolve, leaf) == Err(error) {
      var links := FailedWalkStretches(resolve, leaf, leaf.contentHash.algorithm, 0, error);
    }
    forall links | FailsAlong(resolve, leaf, links, leaf.contentHash.algorithm, 65, error)
      ensures Walk(resolve, leaf) == Err(error)
    {
      StretchFails(resolve, links, leaf.contentHash.algorithm, 0, error);
    }
  }

  /** A complete walk is unique: the resolver alone determines it. */
  lemma {:induction false} WalkUnique(resolve: Resolver, leaf: Entity, a: seq<Entity>, b: seq<Entity>)
    requires CompleteWalk(resolve, leaf, a) && CompleteWalk(resolve, leaf, b)
    ensures a == b
    decreases |a|
  {
    if |a| == 1 || |b| == 1 {
      assert |a| > 1 ==> ParentOf(resolve, a[0], a[1]);
      assert |b| > 1 ==> ParentOf(resolve, b[0], b[1]);
    } else {
      assert ParentOf(resolve, a[0], a[1]) && ParentOf(resolve, b[0], b[1]);
      TailWalk(resolve, leaf, a);
      TailWalk(resolve, leaf, b);
      WalkUnique(resolve, a[1], a[1..], b[1..]);
      assert a == [leaf] + a[1..] && b == [leaf] + b[1..];
    }
  }

  lemma TailWalk(resolve: Resolver, leaf: Entity, chain: seq<Entity>)
    requires CompleteWalk(resolve, leaf, chain) && |chain| > 1
    ensures CompleteWalk(resolve, chain[1], chain[1..])
  {
  }

  /** The static envelope as a resolver. */
  function IncludedResolver(included: Included): Resolver {
    h => if h in included then Some(included[h]) else None
  }
}
