/**
 * The accepted texts described declaratively, position by position, and proved
 * to be exactly the texts the parser accepts, with the same octets.
 */
module UuidGrammar {
  import opened Base
  import opened HexDigits
  import opened UuidParse

  /** `s[e-2..e]` are two hexadecimal digits whose value is `b`, high digit first. */
  predicate PairEndsAt(s: string, e: nat, b: byte) {
    2 <= e <= |s| && IsHexDigit(s[e - 2]) && IsHexDigit(s[e - 1])
    && 16 * HexValue(s[e - 2]) + HexValue(s[e - 1]) == b
  }

  /**
   * `s[p..e]` spells the octets `u`: each octet is two hexadecimal digits,
   * optionally preceded by one `-`.
   */
  predicate Spells(s: string, p: nat, e: nat, u: seq<byte>)
    decreases |u|
  {
    if |u| == 0 then p == e
    else
      p + 2 <= e && PairEndsAt(s, e, u[|u| - 1])
      && (Spells(s, p, e - 2, u[..|u| - 1])
          || (p + 3 <= e && s[e - 3] == '-' && Spells(s, p, e - 3, u[..|u| - 1])))
  }

  /** The accepted texts: optionally `{`, then the octets, then optionally `}`. */
  predicate Accepts(s: string, u: seq<byte>) {
    Spells(s, 0, |s|, u)
    || (|s| >= 1 && s[0] == '{' && Spells(s, 1, |s|, u))
    || (|s| >= 1 && s[|s| - 1] == '}' && Spells(s, 0, |s| - 1, u))
    || (|s| >= 2 && s[0] == '{' && s[|s| - 1] == '}' && Spells(s, 1, |s| - 1, u))
  }

  /** The walk only moves forward, two or three characters per octet, and stays inside the text. */
  lemma {:induction false} FromBounds(s: string, p: nat, k: nat)
    requires From(s, p, k).Some?
    ensures p + 2 * k <= From(s, p, k).value <= p + 3 * k
    ensures k > 0 ==> From(s, p, k).value <= |s|
  {
    if k > 0 {
      FromBounds(s, p, k - 1);
    }
  }

  /** One more octet: after an optional `-`, the pair ending at `e` extends the walk to `e`. */
  lemma WalkExtends(s: string, p: nat, n: nat, m: nat, e: nat, front: seq<byte>, b: byte)
    requires From(s, p, n) == Some(m) && Octets(s, p, n) == front
    requires SkipHyphen(s, m) == e - 2 && PairEndsAt(s, e, b)
    ensures From(s, p, n + 1) == Some(e) && Octets(s, p, n + 1) == front + [b]
  {
    WalkAdvances(s, p, n, m);
  }

  /** A spelling is a walk: the walk reads the spelled octets and ends where the spelling ends. */
  lemma {:induction false} SpellsIsWalk(s: string, p: nat, e: nat, u: seq<byte>)
    requires p <= e <= |s| && Spells(s, p, e, u)
    ensures From(s, p, |u|) == Some(e) && Octets(s, p, |u|) == u
    decreases |u|
  {
    if |u| > 0 {
      var n := |u| - 1;
      var front := u[..n];
      var m := if Spells(s, p, e - 2, front) then e - 2 else e - 3;
      SpellsIsWalk(s, p, m, front);
      WalkExtends(s, p, n, m, e, front, u[n]);
      assert u == front + [u[n]];
    }
  }

  /** One more octet: after an optional `-`, the pair ending at `e` extends the spelling to `e`. */
  lemma SpellsExtends(s: string, p: nat, m: nat, e: nat, front: seq<byte>, b: byte)
    requires p <= m && Spells(s, p, m, front)
    requires SkipHyphen(s, m) == e - 2 && PairEndsAt(s, e, b)
    ensures Spells(s, p, e, front + [b])
  {
    assert (front + [b])[..|front|] == front;
  }

  /** The last octet of a walk of `n > 0` octets: an optional `-`, then the pair ending where the walk stands. */
  lemma WalkRetreats(s: string, p: nat, n: nat, e: nat)
    requires n > 0 && From(s, p, n) == Some(e)
    ensures From(s, p, n - 1).Some? && SkipHyphen(s, From(s, p, n - 1).value) == e - 2
    ensures PairEndsAt(s, e, OctetAt(s, p, n - 1))
    ensures Octets(s, p, n) == Octets(s, p, n - 1) + [OctetAt(s, p, n - 1)]
  {
    WalkAdvances(s, p, n - 1, From(s, p, n - 1).value);
  }

  /** A walk is a spelling: what the walk reads from `p` to `e` spells those octets. */
  lemma {:induction false} WalkIsSpelling(s: string, p: nat, n: nat, e: nat)
    requires From(s, p, n) == Some(e) && e <= |s|
    ensures Spells(s, p, e, Octets(s, p, n))
  {
    if n > 0 {
      WalkRetreats(s, p, n, e);
      var m := From(s, p, n - 1).value;
      FromBounds(s, p, n - 1);
      WalkIsSpelling(s, p, n - 1, m);
      SpellsExtends(s, p, m, e, Octets(s, p, n - 1), OctetAt(s, p, n - 1));
    }
  }

  /** The parser's walk and the grammar agree on every span and every octet sequence. */
  lemma FromSpells(s: string, p: nat, e: nat, u: seq<byte>)
    requires p <= e <= |s|
    ensures Spells(s, p, e, u) <==> From(s, p, |u|) == Some(e) && Octets(s, p, |u|) == u
  {
    if Spells(s, p, e, u) {
      SpellsIsWalk(s, p, e, u);
    }
    if From(s, p, |u|) == Some(e) && Octets(s, p, |u|) == u {
      WalkIsSpelling(s, p, |u|, e);
    }
  }

  /** A non-empty spelling starts with a digit or a `-` and ends with a digit. */
  lemma {:induction false} SpellsEnds(s: string, p: nat, e: nat, u: seq<byte>)
    requires |u| > 0 && Spells(s, p, e, u)
    ensures p < e <= |s| && (IsHexDigit(s[p]) || s[p] == '-') && IsHexDigit(s[e - 1])
    decreases |u|
  {
    var front := u[..|u| - 1];
    var m := if Spells(s, p, e - 2, front) then e - 2 else e - 3;
    if |front| > 0 {
      SpellsEnds(s, p, m, front);
    } else {
      assert p == m;
    }
  }

  /** The parser accepts a text, with octets `u`, exactly when the grammar does. */
  lemma ParseMatchesGrammar(s: string, u: seq<byte>)
    ensures Parse(s) == Some(u) <==> |u| == UuidSize && Accepts(s, u)
  {
    var start := Start(s);
    if Parse(s) == Some(u) {
      var e := From(s, start, UuidSize).value;
      FromBounds(s, start, UuidSize);
      FromSpells(s, start, e, u);
    }
    if |u| == UuidSize && Accepts(s, u) {
      var last := if Spells(s, 0, |s|, u) || (|s| >= 1 && s[0] == '{' && Spells(s, 1, |s|, u)) then |s| else |s| - 1;
      var first := if Spells(s, 0, last, u) then 0 else 1;
      SpellsEnds(s, first, last, u);
      assert first == start;
      FromSpells(s, start, last, u);
    }
  }

  /** The number of hexadecimal digits in `s[p..e]`. */
  function HexCount(s: string, p: nat, e: nat): nat
    requires p <= e <= |s|
    decreases e - p
  {
    if e == p then 0 else HexCount(s, p, e - 1) + (if IsHexDigit(s[e - 1]) then 1 else 0)
  }

  /** What a spelling of `u` is made of: two digits per octet, and each `-` directly before a digit. */
  lemma {:induction false} SpellsShape(s: string, p: nat, e: nat, u: seq<byte>)
    requires e <= |s| && Spells(s, p, e, u)
    ensures p <= e <= |s| && 2 * |u| <= e - p <= 3 * |u|
    ensures HexCount(s, p, e) == 2 * |u|
    ensures forall i :: p <= i < e ==> IsHexDigit(s[i]) || s[i] == '-'
    ensures forall i :: p <= i < e && s[i] == '-' ==> i + 1 < e && IsHexDigit(s[i + 1])
    decreases |u|
  {
    if |u| > 0 {
      var front := u[..|u| - 1];
      var m := if Spells(s, p, e - 2, front) then e - 2 else e - 3;
      SpellsShape(s, p, m, front);
      assert HexCount(s, p, e - 2) == HexCount(s, p, m);
    }
  }

  /**
   * What every accepted text looks like: only digits and `-`, with `{` allowed
   * only first and `}` only last; every `-` directly before a digit (so no `--`
   * and no `-` at the end or before `}`); exactly 32 digits; 32 to 50 characters.
   * Read backwards, any text breaking one of these rules is rejected.
   */
  lemma ParseShape(s: string)
    requires Parse(s).Some?
    ensures forall i :: 0 <= i < |s| ==>
      IsHexDigit(s[i]) || s[i] == '-' || (i == 0 && s[i] == '{') || (i == |s| - 1 && s[i] == '}')
    ensures forall i :: 0 <= i < |s| && s[i] == '-' ==> i + 1 < |s| && IsHexDigit(s[i + 1])
    ensures HexCount(s, 0, |s|) == 2 * UuidSize
    ensures 2 * UuidSize <= |s| <= 3 * UuidSize + 2
  {
    var u := Parse(s).value;
    var first := Start(s);
    var last := From(s, first, UuidSize).value;
    FromBounds(s, first, UuidSize);
    FromSpells(s, first, last, u);
    SpellsShape(s, first, last, u);
    SpellsEnds(s, first, last, u);
    BracesAreNotDigits(s, first, last);
  }

  /** Counting digits over the whole text counts only the span between the braces. */
  lemma BracesAreNotDigits(s: string, first: nat, last: nat)
    requires first <= 1 && |s| - 1 <= last <= |s| && first <= last
    requires first == 1 ==> s[0] == '{'
    requires last == |s| - 1 ==> s[last] == '}'
    ensures HexCount(s, 0, |s|) == HexCount(s, first, last)
  {
    if last < |s| {
      assert HexCount(s, 0, |s|) == HexCount(s, 0, last);
    }
    if first == 1 {
      SkipFirst(s, last);
    }
  }

  /** Dropping a leading non-digit does not change the count. */
  lemma {:induction false} SkipFirst(s: string, e: nat)
    requires 1 <= e <= |s| && !IsHexDigit(s[0])
    ensures HexCount(s, 0, e) == HexCount(s, 1, e)
    decreases e
  {
    if e > 1 {
      SkipFirst(s, e - 1);
    }
  }
}
