/** Definite-length CBOR items (RFC 8949 section 3): heads, item trees and their
    encodings, and a parser for them. */
module Cbor {
  import opened Patterns
  import opened Tokens

  // ----- heads ----------------------------------------------------------

  /** How a head carries its argument: in the initial byte, or in 1, 2, 4 or 8 more. */
  datatype Width = W0 | W1 | W2 | W4 | W8

  function Size(w: Width): nat {
    match w case W0 => 0 case W1 => 1 case W2 => 2 case W4 => 4 case W8 => 8
  }

  predicate Fits(w: Width, arg: int) {
    0 <= arg < match w case W0 => 24 case W1 => 0x100 case W2 => 0x1_0000 case W4 => 0x1_0000_0000 case W8 => TWO_64
  }

  function AdditionalInfo(w: Width, arg: nat): nat
    requires Fits(w, arg)
  {
    match w case W0 => arg case W1 => 24 case W2 => 25 case W4 => 26 case W8 => 27
  }

  function BigEndian(arg: nat, n: nat): (r: Bytes)
    ensures |r| == n
  {
    if n == 0 then [] else BigEndian(arg / 256, n - 1) + [arg % 256]
  }

  function FromBigEndian(b: Bytes): nat {
    if b == [] then 0 else FromBigEndian(b[..|b| - 1]) * 256 + b[|b| - 1]
  }

  function Pow256(n: nat): nat {
    if n == 0 then 1 else 256 * Pow256(n - 1)
  }

  function Head(major: nat, w: Width, arg: nat): (r: Bytes)
    requires major < 8 && Fits(w, arg)
    ensures |r| == 1 + Size(w)
  {
    [major * 32 + AdditionalInfo(w, arg)] + BigEndian(arg, Size(w))
  }

  /** The width an additional-information value announces; None for the reserved values
      28 to 30 and for the indefinite-length mark 31. */
  function WidthOf(ai: nat): Option<Width> {
    if ai < 24 then Some(W0)
    else if ai == 24 then Some(W1)
    else if ai == 25 then Some(W2)
    else if ai == 26 then Some(W4)
    else if ai == 27 then Some(W8)
    else None
  }

  datatype HeadRead = HeadRead(major: nat, width: Width, arg: nat)

  /** The head at the front of `data`, if there is a complete definite-length one. */
  function ReadHead(data: Bytes): (r: Option<HeadRead>)
    ensures r.Some? ==> r.value.major < 8 && 1 + Size(r.value.width) <= |data|
  {
    if data == [] then None
    else
      var major, ai := data[0] / 32, data[0] % 32;
      match WidthOf(ai)
      case None => None
      case Some(w) =>
        if 1 + Size(w) > |data| then None
        else Some(HeadRead(major, w, if w == W0 then ai else FromBigEndian(data[1..1 + Size(w)])))
  }

  lemma FromBigEndianPush(b: Bytes, x: byte)
    ensures FromBigEndian(b + [x]) == FromBigEndian(b) * 256 + x
  {
    assert (b + [x])[..|b|] == b;
  }

  lemma FourBytes(p: byte, q: byte, r: byte, s: byte)
    ensures FromBigEndian([p]) == p && FromBigEndian([p, q]) == p * 0x100 + q
    ensures FromBigEndian([p, q, r, s]) == p * 0x100_0000 + q * 0x1_0000 + r * 0x100 + s
  {
    FromBigEndianPush([], p);
    FromBigEndianPush([p], q);
    FromBigEndianPush([p, q], r);
    FromBigEndianPush([p, q, r], s);
    assert [] + [p] == [p] && [p] + [q] == [p, q] && [p, q] + [r] == [p, q, r] && [p, q, r] + [s] == [p, q, r, s];
  }

  /** What a head says: the major type in the top three bits; below 24 the argument itself; 24 to
      26 an argument in 1, 2 or 4 bytes, most significant first; 28 to 31 nothing. */
  lemma ReadHeadMeaning(major: nat, n: nat, p: byte, q: byte, r: byte, s: byte, rest: Bytes)
    requires major < 8
    ensures n < 24 ==> ReadHead([32 * major + n] + rest) == Some(HeadRead(major, W0, n))
    ensures ReadHead([32 * major + 24, p] + rest) == Some(HeadRead(major, W1, p))
    ensures ReadHead([32 * major + 25, p, q] + rest) == Some(HeadRead(major, W2, p * 0x100 + q))
    ensures ReadHead([32 * major + 26, p, q, r, s] + rest)
         == Some(HeadRead(major, W4, p * 0x100_0000 + q * 0x1_0000 + r * 0x100 + s))
    ensures 28 <= n < 32 ==> ReadHead([32 * major + n] + rest) == None
  {
    FourBytes(p, q, r, s);
    var one, two := [32 * major + 24, p] + rest, [32 * major + 25, p, q] + rest;
    var four := [32 * major + 26, p, q, r, s] + rest;
    assert one[1..2] == [p] && two[1..3] == [p, q] && four[1..5] == [p, q, r, s];
    hide FromBigEndian;
  }

  /** 27 announces an argument in 8 bytes. */
  lemma ReadLongHeadMeaning(major: nat, high: Bytes, low: Bytes, rest: Bytes)
    requires major < 8 && |high| == 4 && |low| == 4
    ensures ReadHead([32 * major + 27] + high + low + rest)
         == Some(HeadRead(major, W8, FromBigEndian(high) * 0x1_0000_0000 + FromBigEndian(low)))
  {
    var data := [32 * major + 27] + high + low + rest;
    assert data[1..9] == high + low;
    var a, b, c, d := low[0], low[1], low[2], low[3];
    assert low == [a, b, c, d];
    FourBytes(a, b, c, d);
    FromBigEndianPush(high, a);
    FromBigEndianPush(high + [a], b);
    FromBigEndianPush(high + [a] + [b], c);
    FromBigEndianPush(high + [a] + [b] + [c], d);
    assert high + low == high + [a] + [b] + [c] + [d];
    hide FromBigEndian;
  }

  lemma {:induction false} BigEndianRoundTrip(arg: nat, n: nat)
    requires arg < Pow256(n)
    ensures FromBigEndian(BigEndian(arg, n)) == arg
  {
    if n > 0 {
      var b := BigEndian(arg, n);
      BigEndianRoundTrip(arg / 256, n - 1);
      assert b[..|b| - 1] == BigEndian(arg / 256, n - 1);
    }
  }

  lemma {:induction false} FromBigEndianRoundTrip(b: Bytes)
    ensures FromBigEndian(b) < Pow256(|b|)
    ensures BigEndian(FromBigEndian(b), |b|) == b
  {
    if b != [] {
      var front := b[..|b| - 1];
      FromBigEndianRoundTrip(front);
      assert FromBigEndian(b) / 256 == FromBigEndian(front) && FromBigEndian(b) % 256 == b[|b| - 1];
      assert front + [b[|b| - 1]] == b;
    }
  }

  lemma Pow256Values()
    ensures Pow256(0) == 1 && Pow256(1) == 0x100 && Pow256(2) == 0x1_0000
    ensures Pow256(4) == 0x1_0000_0000 && Pow256(8) == TWO_64
  {
  }

  lemma FitsIsSize(w: Width, arg: nat)
    ensures w != W0 ==> (Fits(w, arg) <==> arg < Pow256(Size(w)))
  {
    Pow256Values();
  }

  lemma ReadHeadOfHead(major: nat, w: Width, arg: nat, rest: Bytes)
    requires major < 8 && Fits(w, arg)
    ensures ReadHead(Head(major, w, arg) + rest) == Some(HeadRead(major, w, arg))
  {
    var data := Head(major, w, arg) + rest;
    assert data[0] == major * 32 + AdditionalInfo(w, arg);
    assert data[0] / 32 == major && data[0] % 32 == AdditionalInfo(w, arg);
    assert data[1..1 + Size(w)] == BigEndian(arg, Size(w));
    if w != W0 {
      FitsIsSize(w, arg);
      BigEndianRoundTrip(arg, Size(w));
    }
  }

  lemma HeadOfReadHead(data: Bytes)
    requires ReadHead(data).Some?
    ensures var h := ReadHead(data).value;
            Fits(h.width, h.arg) && Head(h.major, h.width, h.arg) == data[..1 + Size(h.width)]
  {
    var h := ReadHead(data).value;
    var tail := data[1..1 + Size(h.width)];
    FromBigEndianRoundTrip(tail);
    FitsIsSize(h.width, h.arg);
    assert data[..1 + Size(h.width)] == [data[0]] + tail;
    assert data[0] == (data[0] / 32) * 32 + data[0] % 32;
  }

  // ----- items ----------------------------------------------------------

  /** Integers, simple values and floats are bare heads; a map's entries are its keys and
      values alternately. */
  datatype Item =
    | Scalar(major: nat, width: Width, arg: nat)
    | Text(major: nat, width: Width, payload: Bytes)
    | Array(width: Width, items: seq<Item>)
    | Map(width: Width, entries: seq<Item>)
    | Tag(width: Width, number: nat, content: Item)

  predicate Valid(item: Item) {
    match item
    case Scalar(major, w, arg) => major in {0, 1, 7} && Fits(w, arg)
    case Text(major, w, payload) => major in {2, 3} && Fits(w, |payload|)
    case Array(w, items) => Fits(w, |items|) && forall i :: 0 <= i < |items| ==> Valid(items[i])
    case Map(w, entries) =>
      && |entries| % 2 == 0 && Fits(w, |entries| / 2)
      && forall i :: 0 <= i < |entries| ==> Valid(entries[i])
    case Tag(w, number, content) => Fits(w, number) && Valid(content)
  }

  predicate TagFree(item: Item) {
    match item
    case Scalar(_, _, _) => true
    case Text(_, _, _) => true
    case Array(_, items) => forall i :: 0 <= i < |items| ==> TagFree(items[i])
    case Map(_, entries) => forall i :: 0 <= i < |entries| ==> TagFree(entries[i])
    case Tag(_, _, _) => false
  }

  predicate AllValid(items: seq<Item>) {
    forall i :: 0 <= i < |items| ==> Valid(items[i])
  }

  predicate AllTagFree(items: seq<Item>) {
    forall i :: 0 <= i < |items| ==> TagFree(items[i])
  }

  function Encode(item: Item): (r: Bytes)
    requires Valid(item)
    ensures |r| >= 1
    decreases item, 1
  {
    match item
    case Scalar(major, w, arg) => Head(major, w, arg)
    case Text(major, w, payload) => Head(major, w, |payload|) + payload
    case Array(w, items) => Head(4, w, |items|) + EncodeAll(items)
    case Map(w, entries) => Head(5, w, |entries| / 2) + EncodeAll(entries)
    case Tag(w, number, content) => Head(6, w, number) + Encode(content)
  }

  function EncodeAll(items: seq<Item>): Bytes
    requires AllValid(items)
    decreases items, 0
  {
    if items == [] then [] else Encode(items[0]) + EncodeAll(items[1..])
  }

  // ----- a parser -------------------------------------------------------

  datatype Parsed<+T> = Parsed(value: T, length: nat)

  /** One item at the front of `data`; tags only when allowed. */
  function ParseItem(data: Bytes, tags: bool): (r: Option<Parsed<Item>>)
    ensures r.Some? ==> 1 <= r.value.length <= |data|
    decreases |data|, 0
  {
    match ReadHead(data)
    case None => None
    case Some(HeadRead(major, w, arg)) =>
      var k := 1 + Size(w);
      if major in {0, 1, 7} then Some(Parsed(Scalar(major, w, arg), k))
      else if major in {2, 3} then
        if k + arg > |data| then None else Some(Parsed(Text(major, w, data[k..k + arg]), k + arg))
      else if major == 4 then
        match ParseItems(data[k..], arg, tags)
        case None => None
        case Some(Parsed(items, n)) => Some(Parsed(Array(w, items), k + n))
      else if major == 5 then
        match ParseItems(data[k..], 2 * arg, tags)
        case None => None
        case Some(Parsed(entries, n)) => Some(Parsed(Map(w, entries), k + n))
      else if !tags then None
      else
        match ParseItem(data[k..], tags)
        case None => None
        case Some(Parsed(content, n)) => Some(Parsed(Tag(w, arg, content), k + n))
  }

  function ParseItems(data: Bytes, count: nat, tags: bool): (r: Option<Parsed<seq<Item>>>)
    ensures r.Some? ==> |r.value.value| == count <= r.value.length <= |data|
    decreases |data|, 1
  {
    if count == 0 then Some(Parsed([], 0))
    else
      match ParseItem(data, tags)
      case None => None
      case Some(Parsed(first, a)) =>
        match ParseItems(data[a..], count - 1, tags)
        case None => None
        case Some(Parsed(rest, b)) => Some(Parsed([first] + rest, a + b))
  }

  lemma JoinPrefixes(data: Bytes, k: nat, n: nat)
    requires k + n <= |data|
    ensures data[..k] + data[k..][..n] == data[..k + n]
    ensures data[..k] + data[k..k + n] == data[..k + n]
  {
  }

  /** An array or map head followed by soundly parsed items. */
  lemma ContainerSound(data: Bytes, tags: bool)
    requires ParseItem(data, tags).Some? && ReadHead(data).value.major in {4, 5}
    requires var h := ReadHead(data).value;
             var p := ParseItems(data[1 + Size(h.width)..], if h.major == 4 then h.arg else 2 * h.arg, tags);
             p.Some? ==> SoundAll(data[1 + Size(h.width)..], p.value, tags)
    ensures Sound(data, ParseItem(data, tags).value, tags)
  {
    hide BigEndian, FromBigEndian, ReadHead, Head, Fits, AdditionalInfo, ParseItems, EncodeAll;
    HeadOfReadHead(data);
    var HeadRead(major, w, arg) := ReadHead(data).value;
    var k := 1 + Size(w);
    var p := ParseItems(data[k..], if major == 4 then arg else 2 * arg, tags).value;
    JoinPrefixes(data, k, p.length);
  }

  lemma TagSound(data: Bytes)
    requires ParseItem(data, true).Some? && ReadHead(data).value.major == 6
    requires var rest := data[1 + Size(ReadHead(data).value.width)..];
             ParseItem(rest, true).Some? ==> Sound(rest, ParseItem(rest, true).value, true)
    ensures Sound(data, ParseItem(data, true).value, true)
  {
    hide BigEndian, FromBigEndian, ReadHead, Head, Fits, AdditionalInfo, ParseItems;
    HeadOfReadHead(data);
    var k := 1 + Size(ReadHead(data).value.width);
    var p := ParseItem(data[k..], true).value;
    JoinPrefixes(data, k, p.length);
  }

  lemma LeafSound(data: Bytes, tags: bool)
    requires ParseItem(data, tags).Some? && ReadHead(data).value.major in {0, 1, 2, 3, 7}
    ensures Sound(data, ParseItem(data, tags).value, tags)
  {
    hide BigEndian, FromBigEndian, ReadHead, Head, Fits, AdditionalInfo, ParseItems;
    HeadOfReadHead(data);
    var HeadRead(major, w, arg) := ReadHead(data).value;
    var k := 1 + Size(w);
    if major in {2, 3} {
      JoinPrefixes(data, k, arg);
    }
  }

  ghost predicate Sound(data: Bytes, p: Parsed<Item>, tags: bool) {
    && Valid(p.value) && p.length <= |data|
    && Encode(p.value) == data[..p.length]
    && (!tags ==> TagFree(p.value))
  }

  ghost predicate SoundAll(data: Bytes, p: Parsed<seq<Item>>, tags: bool) {
    && AllValid(p.value) && p.length <= |data|
    && EncodeAll(p.value) == data[..p.length]
    && (!tags ==> AllTagFree(p.value))
  }

  /** What the parser returns, encodes back to the bytes it consumed. */
  lemma {:induction false} ParseSound(data: Bytes, tags: bool)
    requires ParseItem(data, tags).Some?
    ensures Sound(data, ParseItem(data, tags).value, tags)
    decreases |data|, 0
  {
    hide ReadHead, Sound, SoundAll, ParseItems, Head;
    var HeadRead(major, w, arg) := ReadHead(data).value;
    var rest := data[1 + Size(w)..];
    if major == 4 || major == 5 {
      var count := if major == 4 then arg else 2 * arg;
      if ParseItems(rest, count, tags).Some? { ParseAllSound(rest, count, tags); }
      ContainerSound(data, tags);
    } else if major == 6 {
      if ParseItem(rest, tags).Some? { ParseSound(rest, tags); }
      TagSound(data);
    } else {
      LeafSound(data, tags);
    }
  }

  lemma {:induction false} ParseAllSound(data: Bytes, count: nat, tags: bool)
    requires ParseItems(data, count, tags).Some?
    ensures SoundAll(data, ParseItems(data, count, tags).value, tags)
    decreases |data|, 1
  {
    hide Valid, TagFree, ReadHead, Head, ParseItem, Encode;
    if count > 0 {
      ParseSound(data, tags);
      var Parsed(first, a) := ParseItem(data, tags).value;
      ParseAllSound(data[a..], count - 1, tags);
      var Parsed(rest, b) := ParseItems(data[a..], count - 1, tags).value;
      assert ([first] + rest)[1..] == rest;
      JoinPrefixes(data, a, b);
    }
  }

  lemma Regroup(a: Bytes, b: Bytes, c: Bytes)
    ensures (a + b) + c == a + (b + c)
    ensures ((a + b) + c)[|a|..] == b + c
  {
  }

  lemma LeafComplete(item: Item, rest: Bytes, tags: bool)
    requires Valid(item) && (item.Scalar? || item.Text?)
    ensures ParseItem(Encode(item) + rest, tags) == Some(Parsed(item, |Encode(item)|))
  {
    hide BigEndian, FromBigEndian, ReadHead, Head, Fits, AdditionalInfo, ParseItems;
    var data := Encode(item) + rest;
    match item
    case Scalar(major, w, arg) =>
      ReadHeadOfHead(major, w, arg, rest);
    case Text(major, w, payload) =>
      var k := 1 + Size(w);
      assert data == Head(major, w, |payload|) + (payload + rest);
      ReadHeadOfHead(major, w, |payload|, payload + rest);
      assert data[k..k + |payload|] == payload;
  }

  lemma ContainerComplete(item: Item, items: seq<Item>, rest: Bytes, tags: bool)
    requires Valid(item) && ((item.Array? && items == item.items) || (item.Map? && items == item.entries))
    requires AllValid(items)
    requires ParseItems(EncodeAll(items) + rest, |items|, tags) == Some(Parsed(items, |EncodeAll(items)|))
    ensures ParseItem(Encode(item) + rest, tags) == Some(Parsed(item, |Encode(item)|))
  {
    hide BigEndian, FromBigEndian, ReadHead, Head, Fits, AdditionalInfo, ParseItems, EncodeAll;
    var data := Encode(item) + rest;
    var major, count := if item.Array? then 4 else 5, if item.Array? then |items| else |items| / 2;
    assert data == Head(major, item.width, count) + (EncodeAll(items) + rest);
    ReadHeadOfHead(major, item.width, count, EncodeAll(items) + rest);
    assert data[1 + Size(item.width)..] == EncodeAll(items) + rest;
  }

  lemma TagComplete(item: Item, rest: Bytes)
    requires Valid(item) && item.Tag?
    requires ParseItem(Encode(item.content) + rest, true) == Some(Parsed(item.content, |Encode(item.content)|))
    ensures ParseItem(Encode(item) + rest, true) == Some(Parsed(item, |Encode(item)|))
  {
    hide BigEndian, FromBigEndian, ReadHead, Head, Fits, AdditionalInfo, ParseItems;
    var data := Encode(item) + rest;
    assert data == Head(6, item.width, item.number) + (Encode(item.content) + rest);
    ReadHeadOfHead(6, item.width, item.number, Encode(item.content) + rest);
    assert data[1 + Size(item.width)..] == Encode(item.content) + rest;
  }

  /** An encoded item parses back, whatever follows it. */
  lemma {:induction false} ParseComplete(item: Item, rest: Bytes, tags: bool)
    requires Valid(item) && (tags || TagFree(item))
    ensures ParseItem(Encode(item) + rest, tags) == Some(Parsed(item, |Encode(item)|))
    decreases item, 1
  {
    hide ParseItem, ParseItems, Encode, EncodeAll;
    match item
    case Scalar(_, _, _) => LeafComplete(item, rest, tags);
    case Text(_, _, _) => LeafComplete(item, rest, tags);
    case Array(_, items) =>
      ParseAllComplete(items, rest, tags);
      ContainerComplete(item, items, rest, tags);
    case Map(_, entries) =>
      ParseAllComplete(entries, rest, tags);
      ContainerComplete(item, entries, rest, tags);
    case Tag(_, _, content) =>
      ParseComplete(content, rest, tags);
      TagComplete(item, rest);
  }

  lemma {:induction false} ParseAllComplete(items: seq<Item>, rest: Bytes, tags: bool)
    requires AllValid(items) && (tags || AllTagFree(items))
    ensures ParseItems(EncodeAll(items) + rest, |items|, tags) == Some(Parsed(items, |EncodeAll(items)|))
    decreases items, 0
  {
    hide Valid, TagFree, ParseItem, Encode;
    if items != [] {
      var first, others := items[0], items[1..];
      var data := EncodeAll(items) + rest;
      Regroup(Encode(first), EncodeAll(others), rest);
      ParseComplete(first, EncodeAll(others) + rest, tags);
      ParseAllComplete(others, rest, tags);
      assert [first] + others == items;
    }
  }

  /** Encodings from appendix A of RFC 8949: 10, 1000, -1, false, h'01020304', "IETF". */
  lemma RfcScalarExamples()
    ensures Encode(Scalar(0, W0, 10)) == [0x0A] && Encode(Scalar(0, W2, 1000)) == [0x19, 0x03, 0xE8]
    ensures Encode(Scalar(1, W0, 0)) == [0x20] && Encode(Scalar(7, W0, 20)) == [0xF4]
    ensures Encode(Text(2, W0, [1, 2, 3, 4])) == [0x44, 1, 2, 3, 4]
    ensures Encode(Text(3, W0, [0x49, 0x45, 0x54, 0x46])) == [0x64, 0x49, 0x45, 0x54, 0x46]
  {
    assert BigEndian(1000, 2) == BigEndian(3, 1) + [0xE8] && BigEndian(3, 1) == BigEndian(0, 0) + [3];
  }

  lemma SmallUnsigned(n: nat)
    requires n < 24
    ensures Valid(Scalar(0, W0, n)) && Encode(Scalar(0, W0, n)) == [n]
  {
    assert BigEndian(n, 0) == [];
  }

  /** An array is its count and its items, a map its count of pairs and its keys and values in
      turn, a tag its number and its content: [n, [m, k]], {n: m} and a tagged n. */
  lemma RfcContainerExamples(n: nat, m: nat, k: nat)
    requires n < 24 && m < 24 && k < 24
    ensures var a, b, c := Scalar(0, W0, n), Scalar(0, W0, m), Scalar(0, W0, k);
            && Valid(Array(W0, [b, c])) && Valid(Array(W0, [a, Array(W0, [b, c])]))
            && Encode(Array(W0, [a, Array(W0, [b, c])])) == [0x82, n, 0x82, m, k]
            && Encode(Map(W0, [a, b])) == [0xA1, n, m]
            && Encode(Tag(W0, 1, a)) == [0xC1, n]
  {
    var a, b, c := Scalar(0, W0, n), Scalar(0, W0, m), Scalar(0, W0, k);
    SmallUnsigned(n);
    SmallUnsigned(m);
    SmallUnsigned(k);
    assert Head(4, W0, 2) == [0x82] && Head(5, W0, 1) == [0xA1] && Head(6, W0, 1) == [0xC1];
    hide Head;
    EncodeTwo(b, c);
    EncodeTwo(a, b);
    var inner := Array(W0, [b, c]);
    assert Valid(inner) && Encode(inner) == [0x82] + [m, k];
    EncodeTwo(a, inner);
    assert Valid(Array(W0, [a, inner])) && Encode(Array(W0, [a, inner])) == [0x82] + ([n] + [0x82, m, k]);
    assert Encode(Map(W0, [a, b])) == [0xA1] + [n, m];
  }

  lemma EncodeTwo(a: Item, b: Item)
    requires Valid(a) && Valid(b)
    ensures EncodeAll([a, b]) == Encode(a) + Encode(b)
  {
    assert [a, b][1..] == [b] && [b][1..] == [];
    assert EncodeAll([]) == [] && EncodeAll([b]) == Encode(b) + [];
    assert EncodeAll([a, b]) == Encode(a) + EncodeAll([b]);
  }

  /** No encoding is a prefix of another item's: items decode in one way only. */
  lemma EncodingsArePrefixFree(a: Item, b: Item)
    requires Valid(a) && Valid(b) && Encode(a) <= Encode(b)
    ensures a == b
  {
    var rest := Encode(b)[|Encode(a)|..];
    assert Encode(a) + rest == Encode(b) + [];
    ParseComplete(a, rest, true);
    ParseComplete(b, [], true);
  }
}
