/**
 * Canonical formatting: 16 octets become the 36-character lower-case
 * 8-4-4-4-12 text of section 3 of RFC 4122.
 */
module UuidFormat {
  import opened Base
  import opened HexDigits

  /** The canonical layout puts a hyphen before bytes 4, 6, 8 and 10. */
  predicate HyphenBefore(k: int) {
    k == 4 || k == 6 || k == 8 || k == 10
  }

  /**
   * The formatter's `pattern` after `k` iterations: 0x550 shifted right `k` times
   * (`>> 1` is `/ 2` on this non-negative int).
   */
  function MaskAfter(k: nat): nat {
    if k == 0 then 0x550 else MaskAfter(k - 1) / 2
  }

  /** The successive values of the mask, 0x550 >> k. */
  lemma {:induction false} MaskValue(k: nat)
    requires k <= UuidSize
    ensures MaskAfter(k)
         == [0x550, 0x2a8, 0x154, 0xaa, 0x55, 0x2a, 0x15, 0xa, 0x5, 0x2, 0x1, 0, 0, 0, 0, 0, 0][k]
  {
    if k > 0 {
      MaskValue(k - 1);
    }
  }

  /** The low bit of the mask is set exactly before the bytes that get a hyphen. */
  lemma MaskMarksHyphens(k: nat)
    requires k < UuidSize
    ensures (MaskAfter(k) % 2 == 1) <==> HyphenBefore(k)
  {
    MaskValue(k);
  }

  /** The two digits of one byte, high nibble first. */
  function ByteText(b: byte): (t: string)
    ensures |t| == 2 && IsLowerHexDigit(t[0]) && IsLowerHexDigit(t[1])
    ensures 16 * HexValue(t[0]) + HexValue(t[1]) == b
  {
    [LowerDigit(b / 16), LowerDigit(b % 16)]
  }

  /** The text written for the first `k` bytes of `u`. */
  function CanonicalPrefix(u: seq<byte>, k: nat): string
    requires |u| == UuidSize && k <= UuidSize
  {
    if k == 0 then []
    else CanonicalPrefix(u, k - 1) + (if HyphenBefore(k - 1) then "-" else "") + ByteText(u[k - 1])
  }

  /** The canonical text of a 16-byte UUID. */
  function Canonical(u: seq<byte>): string
    requires |u| == UuidSize
  {
    CanonicalPrefix(u, UuidSize)
  }

  /** Characters written for the first `k` bytes. */
  function Width(k: nat): nat {
    2 * k + (if k > 4 then 1 else 0) + (if k > 6 then 1 else 0)
          + (if k > 8 then 1 else 0) + (if k > 10 then 1 else 0)
  }

  /** Position of the high-nibble digit of byte `k`: two digits per byte, plus the hyphens up to it. */
  function DigitPos(k: nat): nat {
    2 * k + (if k >= 4 then 1 else 0) + (if k >= 6 then 1 else 0)
          + (if k >= 8 then 1 else 0) + (if k >= 10 then 1 else 0)
  }

  /** The hyphen positions of the 8-4-4-4-12 grouping. */
  predicate IsHyphenPosition(j: int) {
    j == 8 || j == 13 || j == 18 || j == 23
  }

  /** Canonical text: 36 characters, hyphens at 8, 13, 18 and 23, lower-case digits elsewhere. */
  predicate IsCanonicalText(s: string) {
    && |s| == TextSize
    && forall j :: 0 <= j < |s| ==>
         if IsHyphenPosition(j) then s[j] == '-' else IsLowerHexDigit(s[j])
  }

  /** The text of the first `k` bytes is `Width(k)` characters long. */
  lemma {:induction false} CanonicalPrefixWidth(u: seq<byte>, k: nat)
    requires |u| == UuidSize && k <= UuidSize
    ensures |CanonicalPrefix(u, k)| == Width(k)
  {
    if k > 0 {
      CanonicalPrefixWidth(u, k - 1);
    }
  }

  /** The text of the first `k` bytes begins the canonical text. */
  lemma {:induction false} CanonicalPrefixIsPrefix(u: seq<byte>, k: nat)
    requires |u| == UuidSize && k <= UuidSize
    ensures CanonicalPrefix(u, k) <= Canonical(u)
    decreases UuidSize - k
  {
    if k < UuidSize {
      CanonicalPrefixIsPrefix(u, k + 1);
    }
  }

  /** What the canonical text holds where byte `k` is written. */
  lemma CanonicalAt(u: seq<byte>, k: nat)
    requires |u| == UuidSize && k < UuidSize
    ensures |Canonical(u)| == TextSize
    ensures HyphenBefore(k) ==> Canonical(u)[Width(k)] == '-'
    ensures DigitPos(k) == Width(k) + (if HyphenBefore(k) then 1 else 0)
    ensures DigitPos(k) + 2 == Width(k + 1)
    ensures Canonical(u)[DigitPos(k)] == LowerDigit(u[k] / 16)
    ensures Canonical(u)[DigitPos(k) + 1] == LowerDigit(u[k] % 16)
  {
    CanonicalPrefixWidth(u, k);
    CanonicalPrefixWidth(u, k + 1);
    CanonicalPrefixWidth(u, UuidSize);
    CanonicalPrefixIsPrefix(u, k + 1);
  }

  /** Every byte contributes two digits, high nibble first, in byte order 0..15. */
  lemma CanonicalDigitOrder(u: seq<byte>)
    requires |u| == UuidSize
    ensures |Canonical(u)| == TextSize
    ensures forall k :: 0 <= k < UuidSize ==>
              && Canonical(u)[DigitPos(k)] == LowerDigit(u[k] / 16)
              && Canonical(u)[DigitPos(k) + 1] == LowerDigit(u[k] % 16)
  {
    CanonicalPrefixWidth(u, UuidSize);
    forall k | 0 <= k < UuidSize
      ensures DigitPos(k) + 1 < TextSize
      ensures Canonical(u)[DigitPos(k)] == LowerDigit(u[k] / 16)
      ensures Canonical(u)[DigitPos(k) + 1] == LowerDigit(u[k] % 16)
    {
      CanonicalAt(u, k);
    }
  }

  /** The text of the first `k` bytes is already laid out as the full text is. */
  lemma {:induction false} CanonicalPrefixLayout(u: seq<byte>, k: nat)
    requires |u| == UuidSize && k <= UuidSize
    ensures var t := CanonicalPrefix(u, k);
            forall j :: 0 <= j < |t| ==>
              if IsHyphenPosition(j) then t[j] == '-' else IsLowerHexDigit(t[j])
  {
    if k > 0 {
      CanonicalPrefixLayout(u, k - 1);
      CanonicalPrefixWidth(u, k - 1);
      var t0 := CanonicalPrefix(u, k - 1);
      var t := CanonicalPrefix(u, k);
      forall j | 0 <= j < |t|
        ensures if IsHyphenPosition(j) then t[j] == '-' else IsLowerHexDigit(t[j])
      {
        if j < |t0| {
          assert t[j] == t0[j];
        }
      }
    }
  }

  /** Every canonical text has the 8-4-4-4-12 layout. */
  lemma CanonicalLayout(u: seq<byte>)
    requires |u| == UuidSize
    ensures IsCanonicalText(Canonical(u))
  {
    CanonicalPrefixLayout(u, UuidSize);
    CanonicalPrefixWidth(u, UuidSize);
  }

  /**
   * The formatter: walks the 16 bytes while shifting the mask 0x550 right once per
   * byte, writes a hyphen when the mask's low bit is set, then the byte's two digits
   * from the digit table, and finally a NUL. `result` holds at least 37 characters.
   */
  method BlobToStr(bytes: seq<byte>, result: array<char>)
    requires |bytes| >= UuidSize && result.Length > TextSize
    modifies result
    ensures result[..TextSize] == Canonical(bytes[..UuidSize])
    ensures result[TextSize] == '\0'
    ensures result[TextSize + 1..] == old(result[TextSize + 1..])
  {
    ghost var u := bytes[..UuidSize];
    ghost var text := Canonical(u);
    CanonicalPrefixWidth(u, UuidSize);
    var byteIndex, pattern, out := 0, 0x550, 0;
    while byteIndex < UuidSize
      invariant 0 <= byteIndex <= UuidSize
      invariant pattern == MaskAfter(byteIndex)
      invariant out == Width(byteIndex) <= |text| == TextSize
      invariant forall j :: 0 <= j < out ==> result[j] == text[j]
      invariant forall j :: TextSize <= j < result.Length ==> result[j] == old(result[j])
    {
      CanonicalAt(u, byteIndex);
      MaskMarksHyphens(byteIndex);
      if pattern % 2 == 1 {
        result[out] := '-';
        out := out + 1;
      }
      var byteValue := bytes[byteIndex];
      result[out] := LowerDigit(byteValue / 16);
      result[out + 1] := LowerDigit(byteValue % 16);
      out := out + 2;
      byteIndex, pattern := byteIndex + 1, pattern / 2;
    }
    result[out] := '\0';
  }
}
