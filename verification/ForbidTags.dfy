/** The receive-boundary scanner: one definite-length CBOR item, no tag at any depth. */
module ForbidTags {
  import opened Patterns
  import opened Tokens
  import opened Cbor

  const TWO_63 := 0x8000_0000_0000_0000

  /** The longest slice for which adding a head's eight bytes to an offset cannot overflow
      a 64-bit int; memory is far smaller. */
  const MAX_LENGTH := TWO_63 - 9

  /** Two's-complement reading of a 64-bit value. */
  function ToInt64(x: int): int {
    var u := x % TWO_64;
    if u < TWO_63 then u else u - TWO_64
  }

  /** `off + int(arg)` in 64-bit arithmetic. */
  function StringEnd(off: nat, arg: nat): int {
    ToInt64(off + ToInt64(arg))
  }

  /** The wrap-around guard is exact: it passes just when the payload really fits. */
  lemma StringBoundExact(off: nat, arg: nat, length: nat)
    requires off <= length <= MAX_LENGTH && arg < TWO_64
    ensures (StringEnd(off, arg) > length || StringEnd(off, arg) < off) <==> off + arg > length
    ensures off + arg <= length ==> StringEnd(off, arg) == off + arg
  {
  }

  // ----- where the parser stops, by offset ------------------------------

  ghost function ItemEnd(data: Bytes, off: nat): Option<nat>
    requires off <= |data|
  {
    match ParseItem(data[off..], false)
    case None => None
    case Some(Parsed(_, n)) => Some(off + n)
  }

  ghost function ItemsEnd(data: Bytes, off: nat, count: nat): Option<nat>
    requires off <= |data|
  {
    match ParseItems(data[off..], count, false)
    case None => None
    case Some(Parsed(_, n)) => Some(off + n)
  }

  lemma ItemsEndStep(data: Bytes, off: nat, count: nat)
    requires off <= |data| && count > 0
    ensures ItemEnd(data, off).Some? ==> off < ItemEnd(data, off).value <= |data|
    ensures ItemsEnd(data, off, count) ==
            match ItemEnd(data, off) case None => None case Some(next) => ItemsEnd(data, next, count - 1)
  {
  }

  lemma NoItemsEnd(data: Bytes, off: nat)
    requires off <= |data|
    ensures ItemsEnd(data, off, 0) == Some(off)
  {
  }

  lemma HeadBytes(data: Bytes, off: nat, n: nat)
    requires 1 <= off && off + n <= |data|
    ensures data[off - 1..][1..1 + n] == data[off..off + n]
    ensures n == 1 ==> FromBigEndian(data[off..off + 1]) == data[off]
  {
  }

  lemma ArgumentFits(data: Bytes)
    requires ReadHead(data).Some?
    ensures ReadHead(data).value.arg < TWO_64
  {
    HeadOfReadHead(data);
  }

  /** The argument bytes of a head, read at an offset with the source's bound checks. */
  method ReadArgument(data: Bytes, off: nat, ai: nat) returns (r: Option<(nat, nat)>)
    requires 1 <= off <= |data| <= MAX_LENGTH && ai == data[off - 1] % 32
    ensures r.Some? <==> ReadHead(data[off - 1..]).Some?
    ensures r.Some? ==> var h := ReadHead(data[off - 1..]).value;
              h.arg < TWO_64 && r.value == (h.arg, off + Size(h.width)) && r.value.1 <= |data|
  {
    hide FromBigEndian;
    ghost var tail := data[off - 1..];
    assert tail[0] == data[off - 1];
    if ReadHead(tail).Some? { ArgumentFits(tail); }
    if ai < 24 { return Some((ai, off)); }
    if ai == 24 {
      if off + 1 > |data| { return None; }
      HeadBytes(data, off, 1);
      return Some((data[off], off + 1));
    }
    if ai == 25 {
      if off + 2 > |data| { return None; }
      HeadBytes(data, off, 2);
      return Some((FromBigEndian(data[off..off + 2]), off + 2));
    }
    if ai == 26 {
      if off + 4 > |data| { return None; }
      HeadBytes(data, off, 4);
      return Some((FromBigEndian(data[off..off + 4]), off + 4));
    }
    if ai == 27 {
      if off + 8 > |data| { return None; }
      HeadBytes(data, off, 8);
      return Some((FromBigEndian(data[off..off + 8]), off + 8));
    }
    return None;
  }

  /** Scan `count` items one after the other. */
  method ScanItems(data: Bytes, start: nat, count: nat) returns (r: Option<nat>)
    requires start <= |data| <= MAX_LENGTH
    ensures r == ItemsEnd(data, start, count)
    decreases |data| - start, 1
  {
    hide ItemsEnd, ItemEnd;
    var off := start;
    var i := 0;
    while i < count
      invariant i <= count && start <= off <= |data|
      invariant ItemsEnd(data, start, count) == ItemsEnd(data, off, count - i)
    {
      ItemsEndStep(data, off, count - i);
      var next := ForbidTagsScan(data, off);
      if next.None? { return None; }
      off := next.value;
      i := i + 1;
    }
    NoItemsEnd(data, off);
    return Some(off);
  }

  /** Scan `count` key and value pairs. */
  method ScanPairs(data: Bytes, start: nat, count: nat) returns (r: Option<nat>)
    requires start <= |data| <= MAX_LENGTH
    ensures r == ItemsEnd(data, start, 2 * count)
    decreases |data| - start, 1
  {
    hide ItemsEnd, ItemEnd;
    var off := start;
    var i := 0;
    while i < count
      invariant i <= count && start <= off <= |data|
      invariant ItemsEnd(data, start, 2 * count) == ItemsEnd(data, off, 2 * (count - i))
    {
      ItemsEndStep(data, off, 2 * (count - i));
      var key := ForbidTagsScan(data, off);
      if key.None? { return None; }
      ItemsEndStep(data, key.value, 2 * (count - i) - 1);
      var value := ForbidTagsScan(data, key.value);
      if value.None? { return None; }
      off := value.value;
      i := i + 1;
    }
    NoItemsEnd(data, off);
    return Some(off);
  }

  /** Scan one item and return the offset just past it. */
  method ForbidTagsScan(data: Bytes, start: nat) returns (r: Option<nat>)
    requires start <= |data| <= MAX_LENGTH
    ensures r == ItemEnd(data, start)
    decreases |data| - start, 0
  {
    if start >= |data| { return None; }
    var major, ai := data[start] / 32, data[start] % 32;
    assert data[start..][0] == data[start];
    var head := ReadArgument(data, start + 1, ai);
    if head.None? { return None; }
    var (arg, off) := head.value;
    assert data[start..][off - start..] == data[off..];
    if major == 0 || major == 1 { return Some(off); }
    if major == 2 || major == 3 {
      StringBoundExact(off, arg, |data|);
      var end := StringEnd(off, arg);
      if end > |data| || end < off { return None; }
      return Some(end);
    }
    if major == 4 {
      r := ScanItems(data, off, arg);
      return;
    }
    if major == 5 {
      r := ScanPairs(data, off, arg);
      return;
    }
    if major == 6 { return None; }
    return Some(off);
  }

  /** ForbidTags: the whole input is the encoding of one tag-free definite-length item. */
  method CheckForbidTags(data: Bytes) returns (ok: bool)
    requires |data| <= MAX_LENGTH
    ensures ok <==> exists item :: IsTagFreeEncoding(item, data)
  {
    AcceptsExactly(data);
    assert data[0..] == data;
    var end := ForbidTagsScan(data, 0);
    ok := end.Some? && end.value == |data|;
  }

  ghost predicate IsTagFreeEncoding(item: Item, data: Bytes) {
    Valid(item) && TagFree(item) && Encode(item) == data
  }

  lemma AcceptsExactly(data: Bytes)
    ensures (exists item :: IsTagFreeEncoding(item, data))
       <==> ParseItem(data, false).Some? && ParseItem(data, false).value.length == |data|
  {
    hide ParseItem, Encode, Valid, TagFree;
    if ParseItem(data, false).Some? && ParseItem(data, false).value.length == |data| {
      ParseSound(data, false);
      assert data[..|data|] == data;
      assert IsTagFreeEncoding(ParseItem(data, false).value.value, data);
    }
    forall item | IsTagFreeEncoding(item, data)
      ensures ParseItem(data, false).Some? && ParseItem(data, false).value.length == |data|
    {
      assert Encode(item) + [] == data;
      ParseComplete(item, [], false);
    }
  }

  /** A tag somewhere in the item. */
  predicate HoldsTag(item: Item) {
    match item
    case Scalar(_, _, _) => false
    case Text(_, _, _) => false
    case Array(_, items) => exists i :: 0 <= i < |items| && HoldsTag(items[i])
    case Map(_, entries) => exists i :: 0 <= i < |entries| && HoldsTag(entries[i])
    case Tag(_, _, _) => true
  }

  lemma {:induction false} HoldsTagExactly(item: Item)
    ensures HoldsTag(item) <==> !TagFree(item)
  {
    match item
    case Array(_, items) =>
      forall i | 0 <= i < |items| ensures HoldsTag(items[i]) <==> !TagFree(items[i]) { HoldsTagExactly(items[i]); }
    case Map(_, entries) =>
      forall i | 0 <= i < |entries| ensures HoldsTag(entries[i]) <==> !TagFree(entries[i]) {
        HoldsTagExactly(entries[i]);
      }
    case _ =>
  }

  /** Any well-formed encoding that carries a tag, however deep, is refused. */
  lemma TaggedEncodingsAreRefused(item: Item)
    requires Valid(item) && HoldsTag(item)
    ensures !(exists other :: IsTagFreeEncoding(other, Encode(item)))
  {
    HoldsTagExactly(item);
    forall other | IsTagFreeEncoding(other, Encode(item))
      ensures other == item
    {
      EncodingsArePrefixFree(other, item);
    }
  }

  // ----- simple values --------------------------------------------------

  /** No two-byte simple value below 32 at any depth: section 3.3 of RFC 8949 calls those not
      well-formed. */
  predicate ShortSimpleFree(item: Item) {
    match item
    case Scalar(major, w, arg) => !(major == 7 && w == W1 && arg < 32)
    case Text(_, _, _) => true
    case Array(_, items) => forall i :: 0 <= i < |items| ==> ShortSimpleFree(items[i])
    case Map(_, entries) => forall i :: 0 <= i < |entries| ==> ShortSimpleFree(entries[i])
    case Tag(_, _, content) => ShortSimpleFree(content)
  }

  /** One tag-free definite-length item, well-formed in the RFC's sense. */
  ghost predicate WellFormedUntagged(data: Bytes) {
    exists item :: IsTagFreeEncoding(item, data) && ShortSimpleFree(item)
  }

  /** An accepted input is well-formed exactly when the one item it encodes holds no short
      simple value. */
  lemma AcceptedIsWellFormedExactly(item: Item, data: Bytes)
    requires IsTagFreeEncoding(item, data)
    ensures WellFormedUntagged(data) <==> ShortSimpleFree(item)
    ensures forall other :: IsTagFreeEncoding(other, data) ==> other == item
  {
    hide Valid, TagFree, Encode, ShortSimpleFree;
    forall other | IsTagFreeEncoding(other, data) ensures other == item {
      EncodingsArePrefixFree(other, item);
    }
  }

  /** The scanner accepts more: two bytes that no RFC decoder may take. */
  lemma ShortSimpleIsAccepted()
    ensures exists item :: IsTagFreeEncoding(item, [0xF8, 0x10])
    ensures !WellFormedUntagged([0xF8, 0x10])
  {
    var item := Scalar(7, W1, 0x10);
    assert BigEndian(0x10, 1) == BigEndian(0, 0) + [0x10];
    assert Encode(item) == [0xF8, 0x10];
    assert IsTagFreeEncoding(item, [0xF8, 0x10]);
    AcceptedIsWellFormedExactly(item, [0xF8, 0x10]);
  }

  /** Progress: a successful scan moves forward and stays inside, and an accepted count never
      exceeds the bytes that remain. */
  lemma ScanProgress(data: Bytes, off: nat, count: nat)
    requires off <= |data|
    ensures ItemEnd(data, off).Some? ==> off < ItemEnd(data, off).value <= |data|
    ensures ItemsEnd(data, off, count).Some? ==> count <= |data| - off
  {
  }
}
