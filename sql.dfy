/**
 * The SQL functions `uuid_str(X)` and `uuid_blob(X)`: X is a UUID given as
 * text in any accepted form or as a 16-octet blob; the result is the canonical
 * text or the 16-octet blob, or an error when X is malformed.
 */
module UuidSql {
  import opened Base
  import opened UuidFormat
  import opened UuidParse
  import opened UuidRoundTrip

  /** An SQL argument, by storage class: text, blob, or anything else (integer, real, null). */
  datatype SqlValue = Text(text: string) | Blob(bytes: seq<byte>) | Other

  /** The UUID an argument denotes, or None when it is malformed. */
  function Decode(v: SqlValue): (r: Option<seq<byte>>)
    ensures r.Some? ==> |r.value| == UuidSize
  {
    match v
      case Text(s) => Parse(s)
      case Blob(b) => if |b| == UuidSize then Some(b) else None
      case Other => None
  }

  /** A blob is accepted exactly when it has 16 octets, and is taken verbatim, unstamped. */
  lemma BlobInput(b: seq<byte>)
    ensures Decode(Blob(b)).Some? <==> |b| == UuidSize
    ensures Decode(Blob(b)).Some? ==> Decode(Blob(b)).value == b
  {
  }

  /**
   * Reads the argument into `out`: the text parser for text, a 16-octet copy
   * for a blob; true when the argument is well formed. A rejected blob or
   * other value leaves `out` untouched; a rejected text leaves in `out` the
   * octets read before the parser stopped, and the rest untouched.
   */
  method InputToBlob(v: SqlValue, out: array<byte>) returns (ok: bool)
    requires out.Length == UuidSize
    modifies out
    ensures ok <==> Decode(v).Some?
    ensures ok ==> out[..] == Decode(v).value
    ensures !ok && !v.Text? ==> out[..] == old(out[..])
    ensures !ok && v.Text? ==> var n := Progress(v.text, Start(v.text));
      (forall j :: 0 <= j < n ==> out[j] == OctetAt(v.text, Start(v.text), j))
      && (forall j :: n <= j < UuidSize ==> out[j] == old(out[j]))
  {
    match v
    case Text(s) =>
      var rc := StrToBlob(s, out);
      ok := rc == 0;
    case Blob(b) =>
      if |b| == UuidSize {
        forall i | 0 <= i < UuidSize {
          out[i] := b[i];
        }
        ok := true;
      } else {
        ok := false;
      }
    case Other =>
      ok := false;
  }

  /**
   * `uuid_str(X)`: the canonical text of X, or None (the "malformed" error).
   * The text is canonical and denotes the same UUID as X.
   */
  method UuidStrFunc(v: SqlValue) returns (r: Option<string>)
    ensures r.None? <==> Decode(v).None?
    ensures r.Some? ==> r.value == Canonical(Decode(v).value)
    ensures r.Some? ==> IsCanonicalText(r.value) && Decode(Text(r.value)) == Decode(v)
  {
    var bytes := new byte[UuidSize];
    var ok := InputToBlob(v, bytes);
    if !ok {
      return None;
    }
    var buffer := new char[TextSize + 1];
    BlobToStr(bytes[..], buffer);
    r := Some(buffer[..TextSize]);
    assert bytes[..][..UuidSize] == bytes[..];
    CanonicalLayout(bytes[..]);
    RoundTrip(bytes[..]);
  }

  /** `uuid_blob(X)`: the 16 octets of X, or None (the "malformed" error). */
  method UuidBlobFunc(v: SqlValue) returns (r: Option<seq<byte>>)
    ensures r.None? <==> Decode(v).None?
    ensures r.Some? ==> |r.value| == UuidSize && r.value == Decode(v).value
  {
    var bytes := new byte[UuidSize];
    var ok := InputToBlob(v, bytes);
    if !ok {
      return None;
    }
    r := Some(bytes[..]);
  }
}
