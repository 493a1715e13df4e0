# UUID codec of the SQLite `uuid` extension, in Dafny

This project models the RFC 4122 UUID codec at the heart of the SQLite
extension in `sqlite_extensions/uuidext.cpp`. The extension provides three SQL
functions:

- `uuid()` returns a fresh version-4 UUID as text.
- `uuid_str(X)` turns a UUID given as text or as a 16-byte blob into its
  canonical text.
- `uuid_blob(X)` turns the same inputs into a 16-byte blob.

The model has these modules:

- `Base` (`base.dfy`): octets as the integers 0..255, the sizes 16 and 36, and `Option`.
- `HexDigits` (`hex.dfy`): the C-locale `isxdigit` class and a reference digit
  value. It also holds the branch-free ASCII decoder `sqlite3UuidHexToInt`,
  proved equal to the reference, and the formatter's digit table.
- `UuidFormat` (`format.dfy`): the canonical 8-4-4-4-12 lower-case text as a
  specification function `Canonical`. `BlobToStr` models `sqlite3UuidBlobToStr`
  as a loop over an output `array<char>`, with the shifting `0x550` hyphen mask,
  and is proved to write exactly `Canonical` followed by a NUL.
- `UuidParse` (`parse.dfy`): the lenient parser `sqlite3UuidStrToBlob`. It is a
  method that writes each octet into an `array` as soon as it is read, with the
  early `return 1`. The walk is specified by `From`, `OctetAt` and `Parse`.
  The C code reads `zStr[1]` only after `zStr[0]` has passed `isxdigit` (the
  `&&` at uuidext.cpp:133 short-circuits, and the terminator is not a digit),
  so it never reads past the end of the text; the guard `p + 1 < |s|` of
  `PairAt` is the same condition on a sequence.
- `UuidGrammar` (`grammar.dfy`): the accepted texts described declaratively. A
  text is accepted when it has an optional `{`, then for each octet an optional
  `-` and two hex digits, then an optional `}`. This is proved equivalent to the
  parser in both directions. The shape of every accepted text follows: which
  characters may appear, no `--`, no trailing `-`, exactly 32 digits, and at
  most 50 characters.
- `UuidRoundTrip` (`roundtrip.dfy`): formatting then parsing is the identity.
  Every hyphenation, with or without either brace, parses to the same octets,
  and letter case never matters.
- `UuidGenerate` (`generate.dfy`): the version/variant stamping of `uuid()` and
  the `uuid()` function itself, with the random octets as a parameter.
- `UuidSql` (`sql.dfy`): the argument dispatch and the SQL functions
  `uuid_str(X)` and `uuid_blob(X)`, with a malformed argument as `None`.

Where the header comment and `sqlite3UuidStrToBlob` differ, the model follows
the code; the argument dispatch follows the header comment instead (see
"## Left out"). The parser as written:

- `sqlite3UuidStrToBlob` allows a `-` before the first digit pair (`-a0eebc99…`).
- It takes `{` and `}` independently, so `{a0…11` and `a0…11}` are accepted.

`UuidGrammar.Accepts` states this exactly.

## Model

| member | source | states |
|---|---|---|
| HexDigits.HexValue | sqlite_extensions/uuidext.cpp:77 | the value of a hex digit of either case is below 16 |
| HexDigits.HexToInt | sqlite_extensions/uuidext.cpp:79-89 | on every character of 0-9a-fA-F (its only inputs, as the assert demands) the bit trick yields the digit's value |
| HexDigits.LowerDigit | sqlite_extensions/uuidext.cpp:97 | the digit table maps each nibble to a lower-case hex digit whose value is that nibble |
| UuidFormat.ByteText | sqlite_extensions/uuidext.cpp:107-110 | a byte becomes two lower-case digits, high nibble first, that read back as the byte |
| UuidFormat.MaskValue | sqlite_extensions/uuidext.cpp:99 | the pattern after k iterations is 0x550 shifted right k times |
| UuidFormat.MaskMarksHyphens | sqlite_extensions/uuidext.cpp:99-105 | the pattern's low bit is set exactly before bytes 4, 6, 8 and 10 |
| UuidFormat.CanonicalPrefixWidth | sqlite_extensions/uuidext.cpp:99-110 | the text for k bytes has 2k digits plus the hyphens before them (36 characters for 16 bytes) |
| UuidFormat.CanonicalPrefixIsPrefix | sqlite_extensions/uuidext.cpp:99-111 | the output written after k bytes is a prefix of the final text |
| UuidFormat.CanonicalAt | sqlite_extensions/uuidext.cpp:101-110 | where byte k is written: its optional hyphen, then its high and low nibble digits |
| UuidFormat.CanonicalDigitOrder | sqlite_extensions/uuidext.cpp:107-110 | each byte contributes two digits, high nibble first, in byte order 0..15 |
| UuidFormat.CanonicalPrefixLayout | sqlite_extensions/uuidext.cpp:99-110 | every partial output already has hyphens only at 8, 13, 18, 23 and lower-case digits elsewhere |
| UuidFormat.CanonicalLayout | sqlite_extensions/uuidext.cpp:20-25 | every canonical text is 36 characters, `-` exactly at 8, 13, 18 and 23, lower-case hex digits elsewhere |
| UuidFormat.BlobToStr | sqlite_extensions/uuidext.cpp:95-114 | writes the canonical text of the 16 bytes into result[0..36] and a NUL at 36, and nothing beyond |
| UuidParse.PairValue | sqlite_extensions/uuidext.cpp:135 | `(hi << 4) + lo` of two hex digits is 16 times the first digit's value plus the second's |
| UuidParse.Step | sqlite_extensions/uuidext.cpp:131-136 | one successful iteration advances two or three characters and stays inside the text |
| UuidParse.Octets | sqlite_extensions/uuidext.cpp:129-137 | the octets of the first n iterations, one per iteration |
| UuidParse.ProgressFrom | sqlite_extensions/uuidext.cpp:129-141 | the count of successful iterations is at most 16, and the walk stops right after it |
| UuidParse.Progress | sqlite_extensions/uuidext.cpp:129-141 | the number of octets the loop writes before it returns or completes |
| UuidParse.Parse | sqlite_extensions/uuidext.cpp:121-145 | an accepted text yields exactly 16 octets |
| UuidParse.StaysStopped | sqlite_extensions/uuidext.cpp:138-141 | once an iteration fails, no later count of iterations is reached (the early return) |
| UuidParse.ProgressIs | sqlite_extensions/uuidext.cpp:129-141 | a walk that reaches i octets and fails at the next has progress i |
| UuidParse.OctetsAt | sqlite_extensions/uuidext.cpp:135 | octet j of the result is the one the j-th iteration reads |
| UuidParse.WalkAdvances | sqlite_extensions/uuidext.cpp:131-136 | a pair after the optional hyphen extends the walk by one octet and yields that pair's value |
| UuidParse.WalkStops | sqlite_extensions/uuidext.cpp:138-141 | a missing pair before the sixteenth octet rejects the text |
| UuidParse.WalkCompletes | sqlite_extensions/uuidext.cpp:143-144 | after 16 octets the text is accepted exactly when only an optional `}` remains |
| UuidParse.HoldsOctets | sqlite_extensions/uuidext.cpp:129-142 | a buffer holding each iteration's octet holds the parsed octets |
| UuidParse.StrToBlob | sqlite_extensions/uuidext.cpp:121-145 | returns 0 exactly for accepted texts and writes their 16 octets; on failure the octets read so far are written and the rest of the buffer is unchanged |
| UuidGrammar.FromBounds | sqlite_extensions/uuidext.cpp:129-137 | after k octets the walk has moved between 2k and 3k characters and stays in the text |
| UuidGrammar.WalkExtends | sqlite_extensions/uuidext.cpp:131-136 | a hyphen-and-pair step extends both the walk and its octets |
| UuidGrammar.SpellsIsWalk | sqlite_extensions/uuidext.cpp:129-142 | a grammatical span is read by the loop, ending where the span ends, with the spelled octets |
| UuidGrammar.SpellsExtends | sqlite_extensions/uuidext.cpp:131-136 | a hyphen-and-pair step extends a grammatical span by one octet |
| UuidGrammar.WalkRetreats | sqlite_extensions/uuidext.cpp:131-136 | the last octet of a walk is an optional hyphen and a pair ending where the walk stands, appended to the octets before it |
| UuidGrammar.WalkIsSpelling | sqlite_extensions/uuidext.cpp:129-142 | what the loop reads is a grammatical span spelling the octets it writes |
| UuidGrammar.FromSpells | sqlite_extensions/uuidext.cpp:129-142 | the loop's walk and the grammar agree on every span and octet sequence, both directions |
| UuidGrammar.SpellsEnds | sqlite_extensions/uuidext.cpp:131-133 | a spelling starts with a digit or `-` and ends with a digit, so it never meets a brace |
| UuidGrammar.ParseMatchesGrammar | sqlite_extensions/uuidext.cpp:121-145 | the parser accepts a text with octets u exactly when u has 16 octets and the grammar spells u |
| UuidGrammar.SpellsShape | sqlite_extensions/uuidext.cpp:131-137 | a spelling holds only digits and hyphens, two digits per octet, and each hyphen right before a digit |
| UuidGrammar.ParseShape | sqlite_extensions/uuidext.cpp:58-59 | accepted texts hold 32 digits, no other characters but `-` and braces at the ends, no `--` and no trailing hyphen, 32 to 50 characters |
| UuidGrammar.BracesAreNotDigits | sqlite_extensions/uuidext.cpp:126-127 | the optional braces add no digits |
| UuidGrammar.SkipFirst | sqlite_extensions/uuidext.cpp:126-127 | a leading `{` adds no digit to the count |
| UuidRoundTrip.SpellsEmbedded | sqlite_extensions/uuidext.cpp:42-43 | a spelling still spells its octets inside a larger text |
| UuidRoundTrip.SpellsAppend | sqlite_extensions/uuidext.cpp:131-136 | appending an optional hyphen and a pair to a spelling spells one more octet |
| UuidRoundTrip.GroupedStep | sqlite_extensions/uuidext.cpp:41-42 | how the text of k octets extends the text of k - 1 |
| UuidRoundTrip.GroupedSpells | sqlite_extensions/uuidext.cpp:40-42 | every choice of hyphens between octets spells the octets |
| UuidRoundTrip.DressedLayout | sqlite_extensions/uuidext.cpp:42 | where the digits sit between optional braces |
| UuidRoundTrip.FramedParses | sqlite_extensions/uuidext.cpp:126-144 | a spelling between optional braces parses to its octets |
| UuidRoundTrip.AnyFormParses | sqlite_extensions/uuidext.cpp:38-51 | every documented form parses to the same 16 octets: any hyphen placement, with or without either brace |
| UuidRoundTrip.CanonicalIsGrouped | sqlite_extensions/uuidext.cpp:99-110 | the canonical text is the grouping with hyphens before bytes 4, 6, 8 and 10 |
| UuidRoundTrip.RoundTrip | sqlite_extensions/uuidext.cpp:53-56 | parsing the canonical text of any 16 octets gives back those octets |
| UuidRoundTrip.FormatInjective | sqlite_extensions/uuidext.cpp:95-114 | two UUIDs have the same canonical text exactly when they are equal |
| UuidRoundTrip.PairIgnoresCase | sqlite_extensions/uuidext.cpp:131-135 | case changes neither the hyphen skip, nor whether a pair follows, nor its value |
| UuidRoundTrip.FromIgnoresCase | sqlite_extensions/uuidext.cpp:129-142 | texts equal up to case walk alike |
| UuidRoundTrip.OctetAtIgnoresCase | sqlite_extensions/uuidext.cpp:135 | texts equal up to case read the same octet at every step |
| UuidRoundTrip.OctetsIgnoreCase | sqlite_extensions/uuidext.cpp:129-142 | texts equal up to case read the same octets |
| UuidRoundTrip.PairShifts | sqlite_extensions/uuidext.cpp:131-135 | a character in front moves the hyphen skip and the pair by one place and keeps the pair's value |
| UuidRoundTrip.FromShifts | sqlite_extensions/uuidext.cpp:129-142 | the walk after a leading character is the walk of the rest, one place later |
| UuidRoundTrip.OctetsShift | sqlite_extensions/uuidext.cpp:129-142 | the walk after a leading character reads the octets of the rest |
| UuidRoundTrip.ParseShifts | sqlite_extensions/uuidext.cpp:126-144 | a text walked from its second character is accepted, with the same octets, exactly when the rest of it is from its first |
| UuidRoundTrip.OpenBraceIgnored | sqlite_extensions/uuidext.cpp:126-127 | a `{` put in front of a text not starting with `{` changes neither acceptance nor the octets |
| UuidRoundTrip.ParseIgnoresCase | sqlite_extensions/uuidext.cpp:41 | upper- and lower-case digits are interchangeable: such texts parse alike |
| UuidGenerate.Stamped | sqlite_extensions/uuidext.cpp:191-192 | byte 6 gets version nibble 4 and byte 8 variant bits 10; the low nibble of byte 6, the low six bits of byte 8 and every other byte are kept |
| UuidGenerate.StampedFixesVersion4 | sqlite_extensions/uuidext.cpp:191-192 | stamping changes nothing exactly when the bytes already carry version 4 and variant 10 |
| UuidGenerate.StampedIdempotent | sqlite_extensions/uuidext.cpp:191-192 | stamping twice is stamping once |
| UuidGenerate.Version4Text | sqlite_extensions/uuidext.cpp:23-29 | in a version-4 text the M digit (position 14) is `4` and the N digit (position 19) is one of 8, 9, a, b |
| UuidGenerate.Stamp | sqlite_extensions/uuidext.cpp:191-192 | the in-place update leaves the buffer equal to the stamped bytes |
| UuidGenerate.UuidFunc | sqlite_extensions/uuidext.cpp:183-196 | returns the canonical text of the stamped octets: well formed, parsing back to them, with `4` at 14 and 8/9/a/b at 19 |
| UuidSql.Decode | sqlite_extensions/uuidext.cpp:38-40 | a well-formed argument denotes exactly 16 octets |
| UuidSql.BlobInput | sqlite_extensions/uuidext.cpp:163-171 | a blob is accepted exactly when it has 16 bytes, and is then taken verbatim, unstamped |
| UuidSql.InputToBlob | sqlite_extensions/uuidext.cpp:151-178 | succeeds exactly for well-formed arguments and then leaves their 16 octets in the buffer; a rejected blob or other value leaves the buffer untouched, a rejected text leaves the octets read before the parser stopped and nothing else changed |
| UuidSql.UuidStrFunc | sqlite_extensions/uuidext.cpp:201-217 | fails exactly on malformed arguments; otherwise returns canonical text denoting the same UUID, a fixed point of uuid_str |
| UuidSql.UuidBlobFunc | sqlite_extensions/uuidext.cpp:222-236 | fails exactly on malformed arguments; otherwise returns the argument's 16 octets |

## Left out

- The EBCDIC branch of `sqlite3UuidHexToInt` (uuidext.cpp:85-87) is not modelled. Only the ASCII build is modelled.
- The SQLite glue is not modelled, being foreign API calls with no logic of their own:
  - registration in `sqlite3_uuid_init` (:245-264);
  - the `sqlite3_value_*` accessors;
  - the `sqlite3_result_*` calls.
- SQL results are values instead:
  - a result is `Some`;
  - the "malformed" error is `None`;
  - the error text `ERR_MSG_MALFORMED` and its `sizeof` (:72, :211, :231) are not modelled.
- `sqlite3_randomness` (:190) is an external entropy source. `UuidFunc` takes the 16 random octets as a parameter.
- Argument dispatch in `sqlite3UuidInputToBlob` (:151-178) follows the disjoint text / blob / other split its header comment describes (:38-40). The code as written differs in two ways, which the model does not reproduce:
  - The `switch` has no `break`, so a text argument falls through into the blob case and then into `default` (:155-176).
  - `out = nullptr` only reassigns the local parameter, so the `bytes == nullptr` checks in `uuid_str` and `uuid_blob` (:209, :229) can never fire.
- Text is a sequence of characters whose end is the end of the sequence. This replaces the NUL terminator that the C code tests at :144. It differs in one respect: a text argument with an embedded NUL after a complete UUID is accepted by the C code but rejected by `Parse`.
- Text arrives as UTF-8 bytes but is modelled as characters. A non-ASCII character is never a hex digit, `{`, `}` or `-`, so the decision is the same.
- Address arithmetic in the C routines is not modelled as such:
  - Advancing `zStr` and `result` is modelled as an index into the text or buffer.
  - The byte buffer passed to `sqlite3UuidBlobToStr` is modelled as a sequence, since the routine only reads it.
- The demo programs (`main.cpp`, `app/main.cpp`), the headers and the test harness are not part of this model.
