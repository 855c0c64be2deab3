# pulid in Dafny

A model of `pulid`, a Go package of prefixed ULIDs. A pulid is a string
`prefix:ulid`: a type prefix, a colon, and a 26-character ULID in Crockford
Base32. The model covers these parts of the package:

- splitting an ID at its first colon (`Parts`) and ordering IDs (`Compare`);
- the database and GraphQL adapters (`Scan`, `Value`, `String`,
  `UnmarshalGQL`);
- the two parsers: `Parse` is lenient, `ParseStrict` checks the characters;
- the replaceable package-level ULID generator (`SetULIDGenerator`,
  `MustNew`);
- the mock generator in `mock.go`. It stamps every ULID with the fixed time
  2021-08-16 15:34:00 UTC and keeps one seed-0 random stream per prefix.

The project has five modules:

| module | file | contents |
|---|---|---|
| `Wrappers` | `wrappers.dfy` | `Option` and `Result` |
| `Strings` | `strings.dfy` | Go's `strings.Index` (first occurrence), `strings.Compare` (lexicographic three-way comparison, character by character, which for valid UTF-8 is Go's byte order) and `len` (length in bytes of the UTF-8 encoding) |
| `Ulid` | `ulid.dfy` | The parts of the ULID library that pulid calls |
| `MockGenerator` | `mock.dfy` | `mock.go` |
| `Pulid` | `pulid.dfy` | `pulid.go`, and the fixtures of its tests |

### The ULID library

Go's `github.com/oklog/ulid/v2` is not part of this model. `Ulid` rebuilds the
library from the ULID format:

- A ULID is a number below 2^128: a 48-bit millisecond time, then 80 bits of
  entropy.
- Its text is 26 Crockford Base32 symbols, most significant first.
- Decoding ignores case. The decoding table has no value for `I`, `L`, `O` and
  `U`, nor for any character outside the alphabet.
- Parsing checks in the library's order:
  1. the length in bytes, which fails with `ErrDataSize`;
  2. strict parsing only: the characters, which fail with
     `ErrInvalidCharacters`;
  3. a first symbol above `7`, which fails with `ErrOverflow`.

### Characters outside the alphabet

- Crockford's Base32 decoding reads `O` as `0` and `I`, `L` as `1`. The ULID
  library does not: the doc comment at `pulid.go:117-119` says that invalid
  encodings produce undefined ULIDs. Lenient parsing of such text succeeds with
  the value `Ulid.Undefined`, which stands for "some ULID that is not
  specified". All such results are this one value, so two of them are equal in
  the model. In Go they are not necessarily the same ULID: the valid characters
  still set their bits.
- The no-prefix message of `ParseStrict` is kept exactly as spelled at
  `pulid.go:145`: "publid: id has no prefix".

### What the test fixtures show about the "Invalid Char 'O'" row

In `pulid_test.go:50-55`, lenient `Parse` rejects the text
`CC:81FD7SJ7J006AFVGQT5ZYC0GEO` by the overflow check, because of its leading
`8`; it never looks at the `O`. `ParseStrict` checks the characters first and
reports the `O` (`Pulid.ParseFixtureInvalidChar`). With a leading `0` instead, lenient
`Parse` accepts the same `O` and returns an undefined ULID
(`Pulid.LenientAcceptsInvalidChar`).

## Model

| member | source | states |
|---|---|---|
| Strings.Index | pulid.go:42 | The result is -1 exactly when the character is absent. Otherwise it is a position holding the character, with no earlier occurrence. |
| Strings.IndexAt | pulid.go:42 | A first occurrence at position k is what `Index` returns. |
| Strings.ByteLength | pulid.go:128 | Go's `len`: a string takes at least one and at most four bytes per character. |
| Strings.ByteLengthAscii | pulid.go:128 | A string has as many bytes as characters exactly when every character is ASCII. |
| Strings.Compare | pulid.go:50 | The result is -1, 0 or 1, and it is 0 exactly when the strings are equal. |
| Strings.CompareLex | pulid.go:50 | `Compare` returns -1 exactly when the first string is lexicographically smaller: after a common leading part, the first string ends while the second goes on, or its next character is the smaller one. |
| Strings.CompareAntisymmetric | pulid.go:50 | Swapping the arguments negates the comparison. |
| Strings.CompareTransitive | pulid.go:50 | "Less than" is transitive. |
| Strings.CompareCommonPrefix | pulid.go:50 | A shared prefix does not change the comparison. |
| Pulid.Parts | pulid.go:40-47 | With no colon, the result is the empty prefix and the whole text. Otherwise prefix, ":" and rest rebuild the text, and the prefix has no colon (the split is at the first colon). |
| Pulid.PartsOfJoin | pulid.go:40-47 | A colon-free prefix joined with any rest by ":" splits back into exactly that prefix and rest. |
| Pulid.Compare | pulid.go:49-51 | The result is -1, 0 or 1, and it is 0 exactly when the IDs are equal. |
| Pulid.CompareOrder | pulid.go:49-51 | An ID comes before another exactly when its text is lexicographically smaller. ID comparison is antisymmetric and transitive. |
| Pulid.CompareSamePrefix | pulid.go:49-51 | For two IDs with the same prefix, comparing the texts orders them as their ULIDs are ordered. |
| Pulid.String | pulid.go:110-112 | The string converts back to the same ID. |
| Pulid.Value | pulid.go:106-108 | The driver value is a string that converts back to the same ID. |
| Pulid.ScanValue | pulid.go:88-108 | Scanning the result of `Value` restores the ID without error, whatever the ID held before. |
| Pulid.Scanned | pulid.go:88-103 | What `Scan` leaves and returns: an error occurs exactly for a source of another type. Nil and other types leave the ID unchanged. An ID source is copied. A string source becomes the ID's text. |
| Pulid.IDVar.Scan | pulid.go:88-103 | The new ID and the error are those that `Scanned` gives for the old ID and the source. |
| Pulid.IDVar.UnmarshalGQL | pulid.go:78-80 | Behaves as `Scan` on the same value. |
| Pulid.Parse | pulid.go:120-130 | An empty prefix gives the no-prefix error "pulid: id has no prefix". Otherwise the outcome is the lenient ULID parser's on the part after the first colon: its error wrapped, or its result with the prefix. A successful result's prefix is non-empty and colon-free, and the ID is that prefix, a colon and the ULID part. |
| Pulid.ParseStrict | pulid.go:140-150 | As `Parse`, with the strict ULID parser and the no-prefix message "publid: id has no prefix". |
| Pulid.NoPrefixExactly | pulid.go:120-126 | Each parser returns its no-prefix error exactly when the part before the first colon is empty. Text without a colon is always rejected. |
| Pulid.WrongLengthFails | pulid.go:120-150 | With a prefix, a ULID part that is not 26 bytes long gives `ErrDataSize` from both parsers. |
| Pulid.OverflowFails | pulid.go:120-150 | With a prefix, a 26-byte part whose first character is above '7' gives `ErrOverflow` from `Parse`. `ParseStrict` gives `ErrOverflow` if every character is Base32, otherwise `ErrInvalidCharacters`. |
| Pulid.StrictRejectsInvalid | pulid.go:140-150 | With a prefix, a 26-byte part with a non-Base32 character gives `ErrInvalidCharacters` from `ParseStrict`. |
| Pulid.ParseSucceedsExactly | pulid.go:120-150 | Each parser succeeds if and only if: the prefix is non-empty, the ULID part has 26 bytes, and its first character is at most '7'. `ParseStrict` also requires every character to be Base32. |
| Pulid.StrictAgreesWithLenient | pulid.go:120-150 | When `ParseStrict` succeeds, `Parse` succeeds with the same prefix and ULID. `Parse` gives an undefined ULID exactly when it succeeds on a part with a non-Base32 character. |
| Pulid.ParseResult | pulid.go:120-150 | A successful parse returns the prefix before the first colon and a ULID whose canonical text is the upper-cased ULID part. |
| Pulid.Format | pulid.go:74 | For a colon-free prefix, the ID `MustNew` builds splits back into that prefix and the ULID's text. |
| Pulid.FormatParse | pulid.go:73-75 | For a non-empty, colon-free prefix, both parsers read back exactly the prefix and the ULID that `MustNew` formatted. |
| Pulid.ColonPrefixBreaks | pulid.go:73-75 | If the prefix contains a colon, the built ID no longer splits back into that prefix, and both parsers reject it. |
| Pulid.Package.constructor | pulid.go:65 | The package starts with the default generator. |
| Pulid.Package.SetULIDGenerator | pulid.go:67-69 | The installed generator is the one given. |
| Pulid.Package.MustNew | pulid.go:59-75 | The generator stays installed. With the default generator, the result is prefix + ":" + the ULID of the clock reading and the drawn entropy. With the mock, the result is prefix + ":" + the mock's next ULID, and the mock's entropy streams advance by one call for this prefix. |
| Pulid.MustNewEach | mock_test.go:61-72 | A sequence of `MustNew` calls through an installed mock returns, at each position, prefix + ":" + the ULID the mock's call sequence yields there. The streams are left in the replayed state. |
| Pulid.FixtureOutput | mock_test.go:21-50 | If the seed-0 stream's first three 80-bit draws encode as the three fixture entropy texts, then the i-th mock output encodes as the i-th fixture text, and strict parsing of that text gives it back. |
| Pulid.FixtureRank | mock_test.go:21-50 | In the fixture sequence AA, AA, AA, BB, BB, BB, call i is the (i mod 3)-th call for its prefix. |
| Pulid.GeneratorFixtures | mock_test.go:52-72 | Both fixture loops produce the fixture ULIDs. The direct loop returns them. In the `MustNew` loop after `SetULIDGenerator`, every ID splits into its prefix and the fixture text, as the test's split at the colon expects. |
| Pulid.ParseFixtureValid | pulid_test.go:14-25 | "AA:…" and "B:…" parse, leniently and strictly, to their prefix and a ULID whose text is the fixture ULID. |
| Pulid.ParseFixtureEmptyPrefix | pulid_test.go:26-31 | ":…" fails with each parser's no-prefix error. |
| Pulid.ParseFixtureOverflow | pulid_test.go:32-37 | The leading-'8' text fails with `ErrOverflow` under both parsers. |
| Pulid.ParseFixtureWrongLength | pulid_test.go:38-49 | The 25- and 27-character texts fail with `ErrDataSize` under both parsers. |
| Pulid.ParseFixtureInvalidChar | pulid_test.go:50-55 | The leading-'8' text with an 'O' fails with `ErrOverflow` under `Parse` and with `ErrInvalidCharacters` under `ParseStrict`. |
| Pulid.LenientAcceptsInvalidChar | pulid.go:114-119 | A 26-character part with an 'O' and a leading '0' is accepted by `Parse` as an undefined ULID, and rejected by `ParseStrict`. |
| MockGenerator.AfterCall | mock.go:17-26 | After a call, the map exists and holds the old prefixes plus this one. This prefix's draw count rises by one. Every other prefix's count is unchanged. |
| MockGenerator.NextULID | mock.go:28-31 | The ULID carries the fixed timestamp, whatever time was passed. Its entropy is the seed-0 stream's draw numbered by how many ULIDs this prefix already had. |
| MockGenerator.MockULIDGenerator.constructor | mock.go:10-12 | A fresh mock has a nil map. |
| MockGenerator.MockULIDGenerator.NewULID | mock.go:17-32 | The map is created if nil and holds the prefix afterwards. An existing stream is advanced, not replaced, and other prefixes' streams are unchanged. The result is `NextULID` of the old state. |
| MockGenerator.OutputsSnoc | mock.go:17-32 | Replaying one more call extends the outputs by `NextULID` of the replayed state and keeps the earlier outputs. |
| MockGenerator.DrawnCounts | mock.go:22-26 | After a sequence of calls from a fresh mock, each prefix's draw count is its number of occurrences in the sequence. |
| MockGenerator.KthCall | mock.go:17-32 | From a fresh mock, call i yields the fixed timestamp with the seed-0 draw numbered by the earlier calls with the same prefix. |
| MockGenerator.SameRankSameULID | mock.go:22-26 | Two calls that are the same-numbered call for their prefixes yield the same ULID, so each prefix gets an identical sequence. |
| MockGenerator.CallEach | mock_test.go:52-59 | Calling `NewULID` over a sequence of prefixes returns exactly the replayed outputs and leaves the replayed map. |
| MockGenerator.FixedTimestampText | mock.go:29 | The fixed time, 1629128040000 ms, encodes as "01FD7SJ7J0". |
| MockGenerator.MockText | mock.go:29-31 | Every mock ULID's text is "01FD7SJ7J0" followed by the 16-symbol text of its entropy. |
| Ulid.New | pulid.go:60 | The new ULID's time and entropy fields are the given ones. |
| Ulid.NewOfParts | pulid.go:60 | A ULID is rebuilt from its time and entropy. |
| Ulid.EarlierIsSmaller | pulid.go:60 | A ULID with an earlier time is a smaller ULID. |
| Ulid.Encode | pulid.go:74 | The text is 26 characters of canonical upper-case Base32. |
| Ulid.EncodeFirst | pulid.go:74 | The first character of every ULID's text is at most '7'. |
| Ulid.EncodeOrder | pulid.go:74 | Comparing ULID texts orders them as the ULIDs are ordered. |
| Ulid.EncodeSplit | pulid.go:74 | The text of a ULID is the 10-symbol time followed by the 16-symbol entropy. |
| Ulid.DecodeEncode | pulid.go:128 | Encoding a value below 32^n in n symbols and decoding gives the value back. |
| Ulid.EncodeDecode | pulid.go:128 | Decoding a Base32 text and re-encoding it gives the upper-cased text. |
| Ulid.OverflowExact | pulid.go:128 | A 26-symbol Base32 text fits in 128 bits exactly when its first symbol is at most '7'. |
| Ulid.ParseEncode | pulid.go:128 | Both parsers read a ULID's text back as that ULID. |
| Ulid.EncodeParse | pulid.go:148 | A ULID parsed from a text re-encodes as that text upper-cased. |
| Ulid.SymbolDigit | pulid.go:128 | Each of the 32 symbols decodes to its own digit and is upper case. |
| Ulid.IsBase32 | pulid.go:148 | The strict parser's character test; a character that passes is ASCII, one byte. |
| Ulid.Base32Alphabet | pulid.go:148 | A character passes the test exactly when its upper-case form is in the alphabet `0123456789ABCDEFGHJKMNPQRSTVWXYZ`. |
| Ulid.Parse | pulid.go:128 | Fails with `ErrDataSize` exactly when the text is not 26 bytes, and never with `ErrInvalidCharacters`. Succeeds exactly when the text is 26 bytes and its first character is at most '7'. The result is undefined exactly when it succeeds on a text with a character outside the alphabet. |
| Ulid.ParseStrict | pulid.go:148 | Fails with `ErrDataSize` exactly when the text is not 26 bytes, and with `ErrInvalidCharacters` exactly when a 26-byte text has a character outside the alphabet. Succeeds exactly when the text is 26 bytes of the alphabet whose first character is at most '7', and then `Parse` gives the same ULID. |
| Ulid.MultiByteText | pulid.go:128 | 24 digits and an 'é' are 25 characters but 26 bytes: lenient parsing accepts them as an undefined ULID, and strict parsing rejects the 'é'. |
| Ulid.SymbolIsEncoding | pulid.go:74 | The digit-to-symbol map is the Crockford alphabet `0-9 A-Z` without I, L, O and U. |

## Left out

- The default generator's randomness: the `crypto/rand`-seeded monotonic entropy source (`pulid.go:32-35`, `64`) is not modelled. `MustNew` takes the entropy it draws as a parameter.
- The clock: `time.Now()` and the conversion to Unix milliseconds are not modelled. `MustNew` takes the millisecond reading as a parameter. Times before 1970 or at or beyond 2^48 ms, which make the library panic, are excluded by the parameter's type.
- Pulid.Package.MustNew: the panics of the ULID library are not modelled, including exhaustion of the monotonic source.
- The `math/rand` algorithm: the mock's seed-0 stream is a function, `seedZero`, from the number of draws taken to the next 80-bit entropy value. Each ULID reads exactly ten consecutive bytes of the stream, so draw k is bytes 10k to 10k+9. The three fixture values are a hypothesis (`SeedZeroTexts`) and are not derived.
- The `ULIDGenerator` interface is closed in the model to its two implementations: the default generator and the mock.
- Concurrency: the unsynchronised global generator and the mock's map are modelled sequentially.
- `MarshalGQL` (`pulid.go:83-85`): Go string quoting to an `io.Writer` is not modelled.
- Pulid.Parse: on failure, the Go function also returns the prefix and a zero ULID. The model returns only the error.
- Pulid.ParseStrict: on failure, the Go function also returns the prefix and a zero ULID. The model returns only the error.
- Pulid.Value: the always-nil error of `Value` is not modelled.
- Ulid.Parse: an undefined lenient result is one value, `Undefined`. The ULID the library computes from the valid characters and from the invalid ones (read as 0xFF) is not modelled.
- Pulid.Scanned: the error text for another type holds a Go type name. The model takes that name as a string carried by the source value.
- Strings are sequences of Unicode characters, and Go's `len` is their UTF-8 byte count. Go strings that are not valid UTF-8 cannot be written in the model. `Strings.Index` and `Strings.Compare` count and compare characters; for valid UTF-8 and the one-byte separator ':' they split and order strings as Go's byte-wise versions do.
- `cmd/pulid/main.go` and `extension.go` are not part of this model.
