/** Storage paths derived from content hashes. */
module StoragePaths {
  import opened Patterns
  import opened Tokens

  const REVOCATIONS_ROOT := "system/capability/revocations"
  const HEX_DIGITS := "0123456789abcdef"

  /** Lowercase hexadecimal, two characters a byte. */
  function Hex(bytes: Bytes): (s: string)
    ensures |s| == 2 * |bytes|
  {
    if bytes == [] then ""
    else [HEX_DIGITS[bytes[0] / 16], HEX_DIGITS[bytes[0] % 16]] + Hex(bytes[1..])
  }

  function RevocationPathFor(h: Hash): string {
    REVOCATIONS_ROOT + "/" + Hex(WireBytes(h))
  }

  function InvariantSignaturePath(peer: string, target: Hash): string {
    "/" + peer + "/system/signature/" + Hex(WireBytes(target))
  }

  lemma HexDigitsDistinct(i: nat, j: nat)
    requires i < 16 && j < 16 && HEX_DIGITS[i] == HEX_DIGITS[j]
    ensures i == j
  {
  }

  lemma {:induction false} HexInjective(a: Bytes, b: Bytes)
    requires Hex(a) == Hex(b)
    ensures a == b
  {
    assert |a| == |b|;
    if a != [] {
      assert Hex(a)[0] == Hex(b)[0] && Hex(a)[1] == Hex(b)[1];
      HexDigitsDistinct(a[0] / 16, b[0] / 16);
      HexDigitsDistinct(a[0] % 16, b[0] % 16);
      assert Hex(a)[2..] == Hex(a[1..]) && Hex(b)[2..] == Hex(b[1..]);
      HexInjective(a[1..], b[1..]);
      assert a == [a[0]] + a[1..] && b == [b[0]] + b[1..];
    }
  }

  /** Each byte is two lowercase hexadecimal digits, the high one first. */
  lemma {:induction false} HexMeaning(bytes: Bytes, i: nat)
    requires i < |bytes|
    ensures Hex(bytes)[2 * i] == "0123456789abcdef"[bytes[i] / 16]
    ensures Hex(bytes)[2 * i + 1] == "0123456789abcdef"[bytes[i] % 16]
  {
    if i > 0 {
      HexMeaning(bytes[1..], i - 1);
      assert Hex(bytes)[2..] == Hex(bytes[1..]);
      assert Hex(bytes)[2 * i] == Hex(bytes)[2..][2 * (i - 1)];
      assert Hex(bytes)[2 * i + 1] == Hex(bytes)[2..][2 * (i - 1) + 1];
    }
  }

  /** The wire form of a hash: its format code, then its 32 or 48 digest bytes. */
  lemma WireFormMeaning(h: Hash)
    ensures WellFormed(h) <==> (h.algorithm == 0 && |h.digest| == 32) || (h.algorithm == 1 && |h.digest| == 48)
    ensures WellFormed(h) ==> WireBytes(h) == [h.algorithm] + h.digest
  {
    if WellFormed(h) { assert h.digest[..|h.digest|] == h.digest; }
  }

  /** Two hashes share a marker path exactly when they share a wire form. */
  lemma MarkerPathExactly(g: Hash, h: Hash)
    ensures RevocationPathFor(g) == RevocationPathFor(h) <==> WireBytes(g) == WireBytes(h)
  {
    var n := |REVOCATIONS_ROOT| + 1;
    assert RevocationPathFor(g)[n..] == Hex(WireBytes(g));
    assert RevocationPathFor(h)[n..] == Hex(WireBytes(h));
    if RevocationPathFor(g) == RevocationPathFor(h) {
      HexInjective(WireBytes(g), WireBytes(h));
    }
  }

  /** Signatures of different signers, or on different targets, are bound at different
      paths. */
  lemma SignaturePathExactly(p: string, q: string, g: Hash, h: Hash)
    requires '/' !in p && '/' !in q
    ensures InvariantSignaturePath(p, g) == InvariantSignaturePath(q, h) <==> p == q && WireBytes(g) == WireBytes(h)
  {
    var mid := "system/signature/";
    var x, y := mid + Hex(WireBytes(g)), mid + Hex(WireBytes(h));
    SignaturePathParts(p, g);
    SignaturePathParts(q, h);
    if InvariantSignaturePath(p, g) == InvariantSignaturePath(q, h) {
      FirstSlashAfter(p, x);
      FirstSlashAfter(q, y);
      assert (p + "/" + x)[..|p|] == p && (q + "/" + y)[..|q|] == q;
      assert (p + "/" + x)[|p| + 1..][|mid|..] == Hex(WireBytes(g));
      assert (q + "/" + y)[|q| + 1..][|mid|..] == Hex(WireBytes(h));
      HexInjective(WireBytes(g), WireBytes(h));
    }
  }

  lemma SignaturePathParts(p: string, g: Hash)
    ensures InvariantSignaturePath(p, g)[1..] == p + "/" + ("system/signature/" + Hex(WireBytes(g)))
  {
    assert "/system/signature/" == "/" + "system/signature/";
  }

  /** Well-formed hashes are determined by their wire form. */
  lemma WireFormInjective(g: Hash, h: Hash)
    requires WellFormed(g) && WellFormed(h) && WireBytes(g) == WireBytes(h)
    ensures g == h
  {
    assert g.algorithm == WireBytes(g)[0] && h.algorithm == WireBytes(h)[0];
    assert WireBytes(g)[1..] == g.digest && WireBytes(h)[1..] == h.digest;
  }
}
