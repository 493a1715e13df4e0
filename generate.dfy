/**
 * `uuid()`: sixteen random octets, stamped as a version-4 (random) UUID in the
 * RFC 4122 variant, then formatted. The random octets are a parameter here.
 */
module UuidGenerate {
  import opened Base
  import opened HexDigits
  import opened UuidFormat
  import opened UuidParse
  import opened UuidRoundTrip

  /** Index of the octet holding the version in its high nibble. */
  const VersionOctet := 6
  /** Index of the octet holding the variant in its top two bits. */
  const VariantOctet := 8

  /**
   * The octets carry version 4 (high nibble of octet 6) and the RFC 4122
   * variant `10` (top two bits of octet 8).
   */
  predicate IsVersion4(u: seq<byte>)
    requires |u| == UuidSize
  {
    u[VersionOctet] / 16 == 4 && u[VariantOctet] / 64 == 2
  }

  /** `(b & 0x0f) + 0x40`: on an octet, `& 0x0f` keeps the low nibble, `b % 16`. */
  function StampVersion(b: byte): byte {
    b % 16 + 0x40
  }

  /** `(b & 0x3f) + 0x80`: on an octet, `& 0x3f` keeps the low six bits, `b % 64`. */
  function StampVariant(b: byte): byte {
    b % 64 + 0x80
  }

  /**
   * The stamped octets: the version nibble becomes 4 and the variant bits `10`;
   * the low nibble of octet 6, the low six bits of octet 8 and all other
   * octets are kept.
   */
  function Stamped(u: seq<byte>): (r: seq<byte>)
    requires |u| == UuidSize
    ensures |r| == UuidSize && IsVersion4(r)
    ensures r[VersionOctet] % 16 == u[VersionOctet] % 16
    ensures r[VariantOctet] % 64 == u[VariantOctet] % 64
    ensures forall j :: 0 <= j < UuidSize && j != VersionOctet && j != VariantOctet ==> r[j] == u[j]
  {
    u[VersionOctet := StampVersion(u[VersionOctet])][VariantOctet := StampVariant(u[VariantOctet])]
  }

  /** Stamping changes nothing exactly when the octets already are version 4, variant `10`. */
  lemma StampedFixesVersion4(u: seq<byte>)
    requires |u| == UuidSize
    ensures Stamped(u) == u <==> IsVersion4(u)
  {
    if IsVersion4(u) {
      assert StampVersion(u[VersionOctet]) == u[VersionOctet];
      assert StampVariant(u[VariantOctet]) == u[VariantOctet];
      assert Stamped(u) == u;
    }
  }

  /** Stamping twice is stamping once. */
  lemma StampedIdempotent(u: seq<byte>)
    requires |u| == UuidSize
    ensures Stamped(Stamped(u)) == Stamped(u)
  {
    StampedFixesVersion4(Stamped(u));
  }

  /**
   * In the text of a version-4 UUID the third group starts with `4` and the
   * fourth group with one of `8`, `9`, `a`, `b`.
   */
  lemma Version4Text(u: seq<byte>)
    requires |u| == UuidSize && IsVersion4(u)
    ensures |Canonical(u)| == TextSize
    ensures Canonical(u)[14] == '4'
    ensures Canonical(u)[19] in "89ab"
  {
    CanonicalAt(u, VersionOctet);
    CanonicalAt(u, VariantOctet);
    var t := Canonical(u);
    assert t[19] == LowerDigit(u[VariantOctet] / 16);
    assert 8 <= u[VariantOctet] / 16 < 12;
    assert "89ab"[u[VariantOctet] / 16 - 8] == t[19];
  }

  /** Stamps octets 6 and 8 of the buffer in place. */
  method Stamp(bytes: array<byte>)
    requires bytes.Length == UuidSize
    modifies bytes
    ensures bytes[..] == Stamped(old(bytes[..]))
  {
    bytes[VersionOctet] := (bytes[VersionOctet] % 16) + 0x40;
    bytes[VariantOctet] := (bytes[VariantOctet] % 64) + 0x80;
  }

  /**
   * `uuid()`: fills a buffer with the given random octets, stamps it and
   * formats it. The result is canonical text that parses back to the stamped
   * octets and shows the version and variant digits.
   */
  method UuidFunc(entropy: seq<byte>) returns (text: string)
    requires |entropy| == UuidSize
    ensures text == Canonical(Stamped(entropy))
    ensures IsCanonicalText(text)
    ensures Parse(text) == Some(Stamped(entropy))
    ensures text[14] == '4' && text[19] in "89ab"
  {
    var bytes := new byte[UuidSize](i requires 0 <= i < UuidSize => entropy[i]);
    assert bytes[..] == entropy;
    Stamp(bytes);
    var buffer := new char[TextSize + 1];
    BlobToStr(bytes[..], buffer);
    text := buffer[..TextSize];
    assert bytes[..][..UuidSize] == bytes[..];
    CanonicalLayout(Stamped(entropy));
    RoundTrip(Stamped(entropy));
    Version4Text(Stamped(entropy));
  }
}
