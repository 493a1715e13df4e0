/**
 * How formatting and parsing fit together: the canonical text parses back to
 * its octets, letter case never matters, and the documented input forms all
 * denote the same UUID.
 */
module UuidRoundTrip {
  import opened Base
  import opened HexDigits
  import opened UuidFormat
  import opened UuidParse
  import opened UuidGrammar

  /**
   * The text of the first `k` octets of `u`, each as two lower-case digits,
   * with a hyphen before octet `j` exactly when `hyphens[j]`.
   */
  function Grouped(u: seq<byte>, hyphens: seq<bool>, k: nat): string
    requires |hyphens| == |u| && k <= |u|
  {
    if k == 0 then []
    else Grouped(u, hyphens, k - 1) + (if hyphens[k - 1] then "-" else "") + ByteText(u[k - 1])
  }

  /** A grouped text, optionally preceded by `{` and optionally followed by `}`. */
  function Dressed(u: seq<byte>, hyphens: seq<bool>, open: bool, close: bool): string
    requires |hyphens| == |u|
  {
    (if open then "{" else "") + Grouped(u, hyphens, |u|) + (if close then "}" else "")
  }

  /** A spelling still spells the same octets when copied, shifted by `d`, into a larger text. */
  lemma {:induction false} SpellsEmbedded(s: string, t: string, p: nat, e: nat, d: nat, u: seq<byte>)
    requires p <= e <= |s| && e + d <= |t|
    requires forall i :: p <= i < e ==> t[i + d] == s[i]
    requires Spells(s, p, e, u)
    ensures Spells(t, p + d, e + d, u)
    decreases |u|
  {
    if |u| > 0 {
      var front := u[..|u| - 1];
      var m := if Spells(s, p, e - 2, front) then e - 2 else e - 3;
      SpellsEmbedded(s, t, p, m, d, front);
    }
  }

  /** Appending an optional `-` and a pair for `b` to a spelling of `v` spells `v + [b]`. */
  lemma SpellsAppend(before: string, after: string, v: seq<byte>, b: byte, hyphen: bool)
    requires Spells(before, 0, |before|, v)
    requires var m := |before|;
      |after| == m + (if hyphen then 1 else 0) + 2
      && (forall i :: 0 <= i < m ==> after[i] == before[i])
      && (hyphen ==> after[m] == '-')
      && PairEndsAt(after, |after|, b)
    ensures Spells(after, 0, |after|, v + [b])
  {
    SpellsEmbedded(before, after, 0, |before|, 0, v);
    assert (v + [b])[..|v|] == v;
  }

  /** How the text of `k` octets extends the text of `k - 1`. */
  lemma GroupedStep(u: seq<byte>, hyphens: seq<bool>, k: nat)
    requires |hyphens| == |u| && 0 < k <= |u|
    ensures var before, after := Grouped(u, hyphens, k - 1), Grouped(u, hyphens, k);
      var m := |before|;
      |after| == m + (if hyphens[k - 1] then 1 else 0) + 2
      && (forall i :: 0 <= i < m ==> after[i] == before[i])
      && (hyphens[k - 1] ==> after[m] == '-')
      && PairEndsAt(after, |after|, u[k - 1])
  {
  }

  /** Every grouping spells its octets. */
  lemma {:induction false} GroupedSpells(u: seq<byte>, hyphens: seq<bool>, k: nat)
    requires |hyphens| == |u| && k <= |u|
    ensures Spells(Grouped(u, hyphens, k), 0, |Grouped(u, hyphens, k)|, u[..k])
  {
    if k > 0 {
      GroupedSpells(u, hyphens, k - 1);
      GroupedStep(u, hyphens, k);
      SpellsAppend(Grouped(u, hyphens, k - 1), Grouped(u, hyphens, k), u[..k - 1], u[k - 1], hyphens[k - 1]);
      assert u[..k] == u[..k - 1] + [u[k - 1]];
    }
  }

  /** Where the grouped text sits inside the dressed one, and the braces around it. */
  lemma DressedLayout(u: seq<byte>, hyphens: seq<bool>, open: bool, close: bool)
    requires |hyphens| == |u|
    ensures var s, body := Dressed(u, hyphens, open, close), Grouped(u, hyphens, |u|);
      var d := if open then 1 else 0;
      |s| == d + |body| + (if close then 1 else 0)
      && (forall i :: 0 <= i < |body| ==> s[i + d] == body[i])
      && (open ==> s[0] == '{') && (close ==> s[|s| - 1] == '}')
  {
  }

  /** A spelling of 16 octets, copied between optional braces, parses to those octets. */
  lemma FramedParses(s: string, body: string, u: seq<byte>, open: bool, close: bool)
    requires |u| == UuidSize && Spells(body, 0, |body|, u)
    requires var d := if open then 1 else 0;
      |s| == d + |body| + (if close then 1 else 0)
      && (forall i :: 0 <= i < |body| ==> s[i + d] == body[i])
      && (open ==> s[0] == '{') && (close ==> s[|s| - 1] == '}')
    ensures Parse(s) == Some(u)
  {
    SpellsEmbedded(body, s, 0, |body|, if open then 1 else 0, u);
    assert Accepts(s, u);
    ParseMatchesGrammar(s, u);
  }

  /**
   * Every documented input form, and more: any choice of hyphens between
   * octets (none, canonical 8-4-4-4-12, 4-4-4-..., mixed), with or without
   * either brace, parses to the same 16 octets.
   */
  lemma AnyFormParses(u: seq<byte>, hyphens: seq<bool>, open: bool, close: bool)
    requires |u| == UuidSize && |hyphens| == UuidSize
    ensures Parse(Dressed(u, hyphens, open, close)) == Some(u)
  {
    DressedLayout(u, hyphens, open, close);
    GroupedSpells(u, hyphens, UuidSize);
    assert u[..UuidSize] == u;
    FramedParses(Dressed(u, hyphens, open, close), Grouped(u, hyphens, UuidSize), u, open, close);
  }

  /** The hyphen positions of the canonical layout, as a grouping. */
  function CanonicalHyphens(): seq<bool> {
    seq(UuidSize, j => HyphenBefore(j))
  }

  /** The canonical text is the grouping with hyphens before octets 4, 6, 8 and 10. */
  lemma {:induction false} CanonicalIsGrouped(u: seq<byte>, k: nat)
    requires |u| == UuidSize && k <= UuidSize
    ensures CanonicalPrefix(u, k) == Grouped(u, CanonicalHyphens(), k)
  {
    if k > 0 {
      CanonicalIsGrouped(u, k - 1);
    }
  }

  /** Formatting then parsing gives back the original 16 octets. */
  lemma RoundTrip(u: seq<byte>)
    requires |u| == UuidSize
    ensures Parse(Canonical(u)) == Some(u)
  {
    CanonicalIsGrouped(u, UuidSize);
    AnyFormParses(u, CanonicalHyphens(), false, false);
    assert Dressed(u, CanonicalHyphens(), false, false) == Canonical(u);
  }

  /** Distinct UUIDs have distinct canonical texts. */
  lemma FormatInjective(u: seq<byte>, v: seq<byte>)
    requires |u| == UuidSize && |v| == UuidSize
    ensures Canonical(u) == Canonical(v) <==> u == v
  {
    RoundTrip(u);
    RoundTrip(v);
  }

  /** Two texts that differ at most in the letter case of their digits. */
  predicate SameUpToCase(s: string, t: string) {
    |s| == |t|
    && forall i :: 0 <= i < |s| ==>
         s[i] == t[i] || (IsHexDigit(s[i]) && IsHexDigit(t[i]) && HexValue(s[i]) == HexValue(t[i]))
  }

  /** Case does not change where a hyphen is, whether a pair follows, or its value. */
  lemma PairIgnoresCase(s: string, t: string, m: nat)
    requires SameUpToCase(s, t)
    ensures SkipHyphen(s, m) == SkipHyphen(t, m)
    ensures var q := SkipHyphen(s, m);
      PairAt(s, q) == PairAt(t, q) && (PairAt(s, q) ==> PairValue(s, q) == PairValue(t, q))
  {
  }

  /** Texts equal up to case walk alike. */
  lemma {:induction false} FromIgnoresCase(s: string, t: string, p: nat, k: nat)
    requires SameUpToCase(s, t)
    ensures From(s, p, k) == From(t, p, k)
  {
    if k > 0 {
      FromIgnoresCase(s, t, p, k - 1);
      if From(s, p, k - 1).Some? {
        PairIgnoresCase(s, t, From(s, p, k - 1).value);
      }
    }
  }

  /** ... and read the same octets. */
  lemma OctetAtIgnoresCase(s: string, t: string, p: nat, k: nat)
    requires SameUpToCase(s, t)
    ensures OctetAt(s, p, k) == OctetAt(t, p, k)
  {
    FromIgnoresCase(s, t, p, k);
    if From(s, p, k).Some? {
      PairIgnoresCase(s, t, From(s, p, k).value);
    }
  }

  /** ... and so spell the same octet sequences. */
  lemma {:induction false} OctetsIgnoreCase(s: string, t: string, p: nat, n: nat)
    requires SameUpToCase(s, t)
    ensures Octets(s, p, n) == Octets(t, p, n)
  {
    if n > 0 {
      OctetsIgnoreCase(s, t, p, n - 1);
      OctetAtIgnoresCase(s, t, p, n - 1);
    }
  }

  /** Upper- and lower-case digits are interchangeable in the input. */
  lemma ParseIgnoresCase(s: string, t: string)
    requires SameUpToCase(s, t)
    ensures Parse(s) == Parse(t)
  {
    FromIgnoresCase(s, t, Start(s), UuidSize);
    OctetsIgnoreCase(s, t, Start(s), UuidSize);
  }

  /** `s` is `t` with one character in front. */
  predicate ShiftedByOne(s: string, t: string) {
    |s| == |t| + 1 && forall i :: 0 <= i < |t| ==> s[i + 1] == t[i]
  }

  /** One character in front moves the hyphen skip and the pair by one, and keeps the pair's value. */
  lemma PairShifts(s: string, t: string, m: nat)
    requires ShiftedByOne(s, t)
    ensures SkipHyphen(s, m + 1) == SkipHyphen(t, m) + 1
    ensures var q := SkipHyphen(t, m);
      PairAt(s, q + 1) == PairAt(t, q) && (PairAt(t, q) ==> PairValue(s, q + 1) == PairValue(t, q))
  {
  }

  /** The walk over `s` from `p + 1` is the walk over `t` from `p`, one character later. */
  lemma {:induction false} FromShifts(s: string, t: string, p: nat, k: nat)
    requires ShiftedByOne(s, t)
    ensures From(t, p, k).None? ==> From(s, p + 1, k).None?
    ensures From(t, p, k).Some? ==> From(s, p + 1, k) == Some(From(t, p, k).value + 1)
  {
    if k > 0 {
      FromShifts(s, t, p, k - 1);
      if From(t, p, k - 1).Some? {
        PairShifts(s, t, From(t, p, k - 1).value);
      }
    }
  }

  /** ... and reads the same octets. */
  lemma {:induction false} OctetsShift(s: string, t: string, p: nat, n: nat)
    requires ShiftedByOne(s, t)
    ensures Octets(s, p + 1, n) == Octets(t, p, n)
  {
    if n > 0 {
      OctetsShift(s, t, p, n - 1);
      FromShifts(s, t, p, n - 1);
      if From(t, p, n - 1).Some? {
        PairShifts(s, t, From(t, p, n - 1).value);
      }
    }
  }

  /** A text walked from its second character parses as the rest of it does from its first. */
  lemma ParseShifts(s: string, t: string)
    requires ShiftedByOne(s, t) && Start(s) == 1 && Start(t) == 0
    ensures Parse(s) == Parse(t)
  {
    FromShifts(s, t, 0, UuidSize);
    if From(t, 0, UuidSize).Some? {
      var e := From(t, 0, UuidSize).value;
      OctetsShift(s, t, 0, UuidSize);
      assert Close(s, e + 1) == Close(t, e) + 1;
      assert Parse(s) == if Close(s, e + 1) == |s| then Some(Octets(s, 1, UuidSize)) else None;
    }
  }

  /**
   * The opening brace is optional: a `{` in front of a text that does not
   * itself start with `{` changes neither acceptance nor the octets.
   */
  lemma OpenBraceIgnored(t: string)
    requires |t| == 0 || t[0] != '{'
    ensures Parse(['{'] + t) == Parse(t)
  {
    var s := ['{'] + t;
    assert ShiftedByOne(s, t);
    ParseShifts(s, t);
  }
}
