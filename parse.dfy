/**
 * The lenient text parser: an optional `{`, then sixteen times an optional `-`
 * followed by two hexadecimal digits, then an optional `}`, then the end of the
 * input. `From`, `OctetAt` and `Parse` specify the walk; `StrToBlob` is the loop.
 */
module UuidParse {
  import opened Base
  import opened HexDigits

  /** Where the walk starts: past a leading `{` if there is one. */
  function Start(s: string): nat {
    if |s| > 0 && s[0] == '{' then 1 else 0
  }

  /** Steps over one `-`, if the walk stands on one. */
  function SkipHyphen(s: string, p: nat): nat {
    if p < |s| && s[p] == '-' then p + 1 else p
  }

  /** Two hexadecimal digits start at `p`. */
  predicate PairAt(s: string, p: nat) {
    p + 1 < |s| && IsHexDigit(s[p]) && IsHexDigit(s[p + 1])
  }

  /** The octet the pair at `p` spells, `(HexToInt(hi) << 4) + HexToInt(lo)`. */
  function PairValue(s: string, p: nat): (b: byte)
    requires PairAt(s, p)
    ensures b == 16 * HexValue(s[p]) + HexValue(s[p + 1])
  {
    HexToInt(s[p]) * 16 + HexToInt(s[p + 1])
  }

  /** One octet of the walk from `p`: an optional `-`, then a pair; None if no pair follows. */
  function Step(s: string, p: nat): (r: Option<nat>)
    ensures r.Some? ==> p + 2 <= r.value <= p + 3 && r.value <= |s|
  {
    var q := SkipHyphen(s, p);
    if PairAt(s, q) then Some(q + 2) else None
  }

  /** Where the walk from `p` stands after `k` octets, or None if it stopped before. */
  function From(s: string, p: nat, k: nat): Option<nat> {
    if k == 0 then Some(p)
    else match From(s, p, k - 1)
      case None => None
      case Some(m) => Step(s, m)
  }

  /** Octet `j` of the walk from `p` (0 when the walk does not get that far). */
  function OctetAt(s: string, p: nat, j: nat): byte {
    match From(s, p, j)
      case None => 0
      case Some(m) =>
        var q := SkipHyphen(s, m);
        if PairAt(s, q) then PairValue(s, q) else 0
  }

  /** The first `n` octets of the walk from `p`. */
  function Octets(s: string, p: nat, n: nat): (r: seq<byte>)
    ensures |r| == n
  {
    if n == 0 then [] else Octets(s, p, n - 1) + [OctetAt(s, p, n - 1)]
  }

  /** How many octets the walk from `p` reads, counting on from `k`: at most sixteen. */
  function ProgressFrom(s: string, p: nat, k: nat): (n: nat)
    requires k <= UuidSize && From(s, p, k).Some?
    ensures k <= n <= UuidSize && From(s, p, n).Some?
    ensures n < UuidSize ==> From(s, p, n + 1).None?
    decreases UuidSize - k
  {
    if k == UuidSize || From(s, p, k + 1).None? then k else ProgressFrom(s, p, k + 1)
  }

  /** How many octets the walk from `p` reads before it stops or completes. */
  function Progress(s: string, p: nat): (n: nat)
    ensures n <= UuidSize && From(s, p, n).Some?
    ensures n < UuidSize ==> From(s, p, n + 1).None?
  {
    ProgressFrom(s, p, 0)
  }

  /** Steps over the closing `}`, if the walk stands on one. */
  function Close(s: string, p: nat): nat {
    if p < |s| && s[p] == '}' then p + 1 else p
  }

  /** The sixteen octets a text spells, or None when the text is malformed. */
  function Parse(s: string): (r: Option<seq<byte>>)
    ensures r.Some? ==> |r.value| == UuidSize
  {
    match From(s, Start(s), UuidSize)
      case None => None
      case Some(e) => if Close(s, e) == |s| then Some(Octets(s, Start(s), UuidSize)) else None
  }

  /** Once the walk has stopped, it stays stopped. */
  lemma {:induction false} StaysStopped(s: string, p: nat, k: nat, m: nat)
    requires k <= m && From(s, p, k).None?
    ensures From(s, p, m).None?
    decreases m - k
  {
    if k < m {
      StaysStopped(s, p, k + 1, m);
    }
  }

  /** A walk that reaches `i` octets and stops there (or completes) has progress `i`. */
  lemma ProgressIs(s: string, p: nat, i: nat)
    requires i <= UuidSize && From(s, p, i).Some?
    requires i < UuidSize ==> From(s, p, i + 1).None?
    ensures Progress(s, p) == i
  {
    var n := Progress(s, p);
    if n < i {
      StaysStopped(s, p, n + 1, i);
    } else if i < n {
      StaysStopped(s, p, i + 1, n);
    }
  }

  /** Element `j` of `Octets` is `OctetAt(j)`. */
  lemma {:induction false} OctetsAt(s: string, p: nat, n: nat, j: nat)
    requires j < n
    ensures Octets(s, p, n)[j] == OctetAt(s, p, j)
  {
    if j < n - 1 {
      OctetsAt(s, p, n - 1, j);
    }
  }

  /** Reading the pair after octet `k` moves the walk on and yields octet `k`. */
  lemma WalkAdvances(s: string, p: nat, k: nat, m: nat)
    requires From(s, p, k) == Some(m) && PairAt(s, SkipHyphen(s, m))
    ensures From(s, p, k + 1) == Some(SkipHyphen(s, m) + 2)
    ensures OctetAt(s, p, k) == PairValue(s, SkipHyphen(s, m))
  {
  }

  /** A walk that stops before the sixteenth octet rejects the text. */
  lemma WalkStops(s: string, k: nat, m: nat)
    requires k < UuidSize && From(s, Start(s), k) == Some(m) && !PairAt(s, SkipHyphen(s, m))
    ensures Parse(s).None? && Progress(s, Start(s)) == k
  {
    StaysStopped(s, Start(s), k + 1, UuidSize);
    ProgressIs(s, Start(s), k);
  }

  /** A complete walk is accepted exactly when only an optional `}` follows it. */
  lemma WalkCompletes(s: string, e: nat)
    requires From(s, Start(s), UuidSize) == Some(e)
    ensures Progress(s, Start(s)) == UuidSize
    ensures Parse(s) == if Close(s, e) == |s| then Some(Octets(s, Start(s), UuidSize)) else None
  {
    ProgressIs(s, Start(s), UuidSize);
  }

  /** A buffer holding octets `0..16` of the walk holds `Octets`. */
  lemma HoldsOctets(a: seq<byte>, s: string, p: nat)
    requires |a| >= UuidSize && forall j :: 0 <= j < UuidSize ==> a[j] == OctetAt(s, p, j)
    ensures a[..UuidSize] == Octets(s, p, UuidSize)
  {
    forall j | 0 <= j < UuidSize
      ensures a[j] == Octets(s, p, UuidSize)[j]
    {
      OctetsAt(s, p, UuidSize, j);
    }
  }

  /**
   * The C routine: walks the text, writing each octet into `blob` as soon as it
   * is read, and returns 0 when the whole text is one UUID, 1 otherwise. On
   * failure the octets read before the walk stopped are still written, and
   * nothing else in `blob` changes.
   */
  method StrToBlob(s: string, blob: array<byte>) returns (rc: int)
    requires blob.Length >= UuidSize
    modifies blob
    ensures rc == (if Parse(s).Some? then 0 else 1)
    ensures Parse(s).Some? ==> blob[..UuidSize] == Parse(s).value
    ensures var n := Progress(s, Start(s));
      (forall j :: 0 <= j < n ==> blob[j] == OctetAt(s, Start(s), j))
      && (forall j :: n <= j < blob.Length ==> blob[j] == old(blob[j]))
  {
    ghost var start := Start(s);
    var p: nat := Start(s);
    var i := 0;
    while i < UuidSize
      invariant 0 <= i <= UuidSize && p <= |s|
      invariant From(s, start, i) == Some(p)
      invariant forall j :: 0 <= j < i ==> blob[j] == OctetAt(s, start, j)
      invariant forall j :: i <= j < blob.Length ==> blob[j] == old(blob[j])
    {
      ghost var m := p;
      if p < |s| && s[p] == '-' {
        p := p + 1;
      }
      assert p == SkipHyphen(s, m);
      if p + 1 < |s| && IsHexDigit(s[p]) && IsHexDigit(s[p + 1]) {
        WalkAdvances(s, start, i, m);
        blob[i] := PairValue(s, p);
        p := p + 2;
        i := i + 1;
      } else {
        WalkStops(s, i, m);
        return 1;
      }
    }
    WalkCompletes(s, p);
    HoldsOctets(blob[..], s, start);
    if p < |s| && s[p] == '}' {
      p := p + 1;
    }
    rc := if p < |s| then 1 else 0;
  }
}
