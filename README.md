# uid: a Dafny model of a Go UUID package

This project models the core of the Go package `uid`, which handles RFC 9562 UUIDs. It covers:

- the `UUID` value: sixteen bytes, with the version in the high nibble of byte 6 and the variant in the top two bits of byte 8;
- its accessors, and the Nil and Max UUIDs;
- the canonical hex form and its JSON quoting;
- the two NCName-safe compact forms: a version letter followed by unpadded base32 (26 characters) or base64url (22 characters) of the "shifted" bytes;
- the parser for all of these forms, including the `urn:uuid:` prefix;
- version 4 (random) and version 7 (time-ordered) construction, with the strictly monotonic `NewV7Strict`;
- `Time`, which reads the timestamp back out of a version 7 UUID;
- the Python ShortUUID codec, a 22-digit base-57 numeral.

Modules, one per concern:

| file | module | what it holds |
|---|---|---|
| `outcomes.dfy` | `Outcomes` | `Option`, and `Outcome` = `Ok` / `Err` (an error returned, or `false`) / `Panic` (a Go panic, explicit or at run time) |
| `text.dfy` | `Text` | ASCII text; `strings.ToUpper`, `strings.ReplaceAll(s, "-", "")` and `strings.TrimSpace` |
| `bits.dfy` | `Bits` | bytes and big-endian bit strings and numbers; `binary.BigEndian` 32-bit words |
| `radix.dfy` | `Radix` | the hex, base32 and base64url encoders and decoders, as regroupings of a bit string |
| `doc.dfy` | `Doc` | the package constants and the two version lookup tables |
| `uuid.dfy` | `Uuid` | the `UUID` datatype, `String`, `MarshalJSON`, `shifted`, `Compact32`, `Compact64` and `Compare` |
| `parse.dfy` | `Parse` | `Parse`, `parseString`, `parseCanon`, `parseCompact32`, `parseCompact64` and `unshift`, all over the caller's 16-byte array |
| `uuid4.dfy` | `UuidV4` | `NewV4` |
| `uuid7.dfy` | `UuidV7` | `make7`, `Time`, `msranda` and `NewV7Strict`; `tickBatch` is a method of a `Ticker` class that holds `lastms` and `lasttick` |
| `pythonshort.dfy` | `PythonShort` | `ToPythonShort` and `FromPythonShort` |

Where the Go code fills an array step by step, the model does the same:

- `String` fills a buffer of 36 characters;
- `make7`, `NewV4` and `unshift` fill 16-byte arrays;
- `ToPythonShort` fills a buffer of 22 digits.

Each such method is tied to a function of its inputs. The round trips, the layouts and the orderings are proved as lemmas about those functions.

Go panics are kept apart from returned errors. Most parsers panic on malformed input; only the length switch in `parseString` returns an error.

## Model

| member | source | states |
|---|---|---|
| `Uuid.UUID.Version` | uuid.go:18 | the version is the high nibble of byte 6 (`b[6] / 16`), always below 16 |
| `Uuid.UUID.Variant` | uuid.go:21-23 | the variant is the top two bits of byte 8 (`b[8] / 64`), always below 4 |
| `Uuid.UUID.Bytes` | uuid.go:26 | the copy holds exactly the sixteen bytes of the UUID |
| `Uuid.UUID.IsNil` | uuid.go:96 | true exactly when all sixteen bytes are 0x00 |
| `Uuid.UUID.IsMax` | uuid.go:102 | true exactly when all sixteen bytes are 0xff |
| `Uuid.Nil` | uuid.go:93 | the Nil UUID is Nil and not Max, with version 0 and variant 0 |
| `Uuid.Max` | uuid.go:99 | the Max UUID is Max and not Nil, with version 15 and variant 3 |
| `Uuid.UUID.String` | uuid.go:41-50 | the 36-character buffer, after the dashes and five `hex.Encode` calls, equals the canonical form of the bytes |
| `Uuid.HexEncodeInto` | uuid.go:44-48 | `hex.Encode` into a window of the buffer writes the hex encoding of the source there and leaves every other cell as it was |
| `Uuid.GroupsWritten` | uuid.go:43-49 | five group writes over a buffer with dashes at 8, 13, 18 and 23 give the canonical form: the digits of bytes 0-4, 4-6, 6-8, 8-10 and 10-16 |
| `Uuid.CanonicalLayout` | uuid.go:42-48 | the canonical form has dashes at 8, 13, 18 and 23, and the high and low hex digits of byte j at the j-th digit pair |
| `Uuid.CanonicalWithoutDashes` | uuid.go:41-50 | removing the dashes from the canonical form leaves the 32-digit hex encoding of all sixteen bytes |
| `Uuid.UUID.MarshalJSON` | uuid.go:65 | the JSON form is the canonical form between double quotes |
| `Uuid.UUID.Shifted` | uuid.go:105-121 | the four-word computation gives the repacked bytes: version nibble dropped, bytes 6-8 moved up a nibble, bytes 9-15 moved up a byte, variant nibble last |
| `Uuid.RepackLayout` | uuid.go:112-115 | shifting keeps bytes 0-5, puts byte 8's high nibble (the variant) in the high nibble of byte 15 with a zero low nibble, and puts the low nibble of byte 6 at the top of byte 6 |
| `Uuid.UUID.Compact32` | uuid.go:77-82 | the result is the compact base32 text of the bytes |
| `Uuid.UUID.Compact64` | uuid.go:85-90 | the result is the compact base64url text of the bytes |
| `Uuid.Compact32Text` | uuid.go:77-82 | 26 characters, the first being the version letter `'A' + v` |
| `Uuid.Compact64Text` | uuid.go:85-90 | 22 characters, the first being the version letter `'A' + v` |
| `Uuid.LexCompareZero` | uuid.go:124 | `bytes.Compare` is 0 exactly when the two slices are equal |
| `Uuid.LexCompareAntisymmetric` | uuid.go:124 | swapping the operands of `bytes.Compare` negates the result |
| `Uuid.LexCompareValue` | uuid.go:124 | on slices of equal length, `bytes.Compare` is the sign of the difference of their big-endian values |
| `Uuid.CompareProperties` | uuid.go:123-124 | `Compare` is 0 exactly when the first eight bytes agree; it is reflexive and antisymmetric |
| `Uuid.CompareValue` | uuid.go:123-124 | `Compare` orders UUIDs by the number that their first eight bytes (the timestamp and `rand_a`) spell |
| `Uuid.NilCanonicalForm` | doc.go:21-31 | the canonical and JSON forms of the Nil bytes are `NilCanonical` and `NilJSON` |
| `Uuid.MaxCanonicalForm` | doc.go:9-19 | the canonical and JSON forms of the Max bytes are `MaxCanonical` and `MaxJSON` |
| `Uuid.NilCompact32Form` | doc.go:24-25 | `Compact32` of the Nil bytes is `NilCompact32` |
| `Uuid.NilCompact64Form` | doc.go:27-28 | `Compact64` of the Nil bytes is `NilCompact64` |
| `Uuid.MaxCompact32Form` | doc.go:12-13 | `Compact32` of the Max bytes is `MaxCompact32` |
| `Uuid.MaxCompact64Form` | doc.go:15-16 | `Compact64` of the Max bytes is `MaxCompact64` |
| `Doc.VersionLetter` | uuid.go:81 | `Version() + 65` is a letter from 'A' to 'P' whose distance from 'A' is the version |
| `Doc.NCNameTableInvertsLetter` | doc.go:57-68 | the NCName table maps a version's letter back to that version, and has the letter exactly for versions 0, 4, 7 and 15 |
| `Doc.NCNameTableKeys` | doc.go:57-68 | the table's keys are A, E, H and P, and each maps to its distance from 'A' |
| `Doc.CanonicalTableDigits` | doc.go:69-71 | each key of the canonical table is the hex digit of its version, and each supported version's hex digit is a key |
| `Doc.CompactConstantShapes` | doc.go:12-28 | the compact constants are runs: 26 or 22 'A's, and 'P' around 24 '7's or 20 '_'s |
| `Parse.Parse` | parse.go:15-26 | the result equals the parse outcome: for a string, `parseString` over a zero target; for a `[16]byte`, the Nil UUID with no error; for byte and rune slices, a panic |
| `Parse.ParseString` | parse.go:28-40 | dispatches on the length; the outcome and target are those of the string target function; on error the target is unchanged |
| `Parse.StringTarget` | parse.go:28-40 | an error is returned exactly when the length is not 22, 26, 36 or 45 |
| `Parse.ParseCanon` | parse.go:58-63 | the outcome and the new target are those of the canonical target function |
| `Parse.CanonTarget` | parse.go:58-63 | `parseCanon` never returns an error: bad hex panics |
| `Parse.DecodeInto` | parse.go:76 | the decoder reports an error exactly for undecodable text, panics exactly when the decoded bytes overrun the target, and otherwise writes the decoded bytes at the front |
| `Parse.Pad` | parse.go:71-74 | the pad character is 'A' or 'P' |
| `Parse.ParseCompact32` | parse.go:65-83 | the outcome and the new target are those of the base32 compact target function |
| `Parse.Compact32Target` | parse.go:65-83 | `parseCompact32` never returns an error: a bad version letter or bad base32 panics |
| `Parse.ParseCompact64` | parse.go:85-104 | the outcome and the new target are those of the base64url compact target function |
| `Parse.Compact64Target` | parse.go:85-104 | `parseCompact64` never returns an error: a bad version letter or bad base64url panics |
| `Parse.Bookend` | parse.go:80 | `tgt[15] <<= k` changes byte 15 alone |
| `Parse.Unshift` | parse.go:106-124 | the target becomes its unshifted bytes under `version & 0xf` |
| `Parse.UnshiftWords` | parse.go:107-119 | the four updated words, written big-endian, are the unshifted bytes |
| `Parse.UnshiftedLayout` | parse.go:106-124 | unshifting keeps bytes 0-5 and gives the result the version it was passed |
| `Parse.UnshiftRepack` | parse.go:106-124 | `unshift` with the original version undoes `shifted` for every UUID |
| `Parse.RepackUnshift` | uuid.go:105-121 | `shifted` undoes `unshift` whenever the low nibble of byte 15 is zero |
| `Parse.UnshiftedInjective` | parse.go:106-124 | with the version fixed, two targets unshift to the same UUID exactly when they agree on bytes 0-14 and on the high nibble of byte 15 |
| `Parse.CanonRoundTrip` | parse.go:58-63 | the canonical form of every UUID parses back to it |
| `Parse.CanonIgnoresCase` | parse.go:59 | upper-casing the input does not change what `parseCanon` gives |
| `Parse.UrnPrefixIgnored` | parse.go:36-37 | for 45-character input, the first nine characters are ignored |
| `Parse.UrnRoundTrip` | parse.go:36-37 | `urn:uuid:` followed by the canonical form parses back to the UUID |
| `Parse.Compact32AnyPad` | parse.go:71-81 | whatever base32 character is appended as the pad, the compact base32 text decodes to the UUID |
| `Parse.Compact32RoundTrip` | parse.go:65-83 | for versions 0, 4, 7 and 15, the compact base32 text parses back to its UUID |
| `Parse.Compact32IgnoresCase` | parse.go:66 | lower-casing the input does not change what `parseCompact32` gives |
| `Parse.Compact64AnyPad` | parse.go:92-102 | whatever base64url character is appended as the pad, the compact base64url text decodes to the UUID |
| `Parse.Compact64LastChar` | parse.go:91 | the last character of the compact base64url text is never a lower-case letter, so `unicode.ToUpper` leaves it alone |
| `Parse.Compact64RoundTrip` | parse.go:85-104 | for versions 0, 4, 7 and 15, the compact base64url text parses back to its UUID |
| `Parse.CompactBadLetter` | parse.go:65-90 | both compact parsers panic on a leading letter other than A, E, H or P; `parseCompact32` tests it after upper-casing, `parseCompact64` as given |
| `Parse.CompactDigitSensitive` | parse.go:76-81 | in a body that decodes to 16 bytes, a digit whose bits lie in bytes 0-14 decides the UUID: another digit value there gives another UUID |
| `Parse.Compact64CaseSensitive` | parse.go:91-97 | only character 21 is upper-cased: any of characters 1-20 replaced by another base64url digit, such as the same letter in the other case, still parses, to a different UUID |
| `Parse.ParseRoundTrips` | parse.go:15-40 | `Parse` returns the UUID for its canonical and URN forms, and for both compact forms when the version is supported |
| `UuidV4.V4Bytes` | uuid4.go:4-11 | version 4 and variant 2, with every other bit taken from the random bytes; never the Nil or the Max UUID |
| `UuidV4.NewV4` | uuid4.go:4-11 | the array filled from the random bytes and then stamped gives the version 4 bytes |
| `UuidV4.V4Range` | uuid4.go:4-11 | the possible `NewV4` results are exactly the UUIDs of version 4 and variant 2 |
| `UuidV7.Trunc` | uuid7.go:34-37 | `byte(x)` on an `int64` keeps `x` modulo 256 |
| `UuidV7.Stamped` | uuid7.go:42 | version 7 and variant 2, with the low six bits of byte 8, the low nibble of byte 6 and all other bytes kept |
| `UuidV7.V7Bytes` | uuid7.go:28-44 | version 7 and variant 2; bytes 0-5 are the low 48 bits of `ms`; bytes 6-7 are `rand_a`; bytes 9-15 and the low six bits of byte 8 are random |
| `UuidV7.Make7` | uuid7.go:28-44 | panics exactly for a negative `ms`; otherwise the UUID of the version 7 bytes |
| `UuidV7.SetHead` | uuid7.go:34-38 | the first eight bytes become the timestamp and `rand_a` fields, and the rest are left alone |
| `UuidV7.ReadRandom` | uuid7.go:40 | `rng.Read(b[8:])` fills the tail with the random bytes and keeps the head |
| `UuidV7.Stamp` | uuid7.go:42 | the array becomes its stamped bytes |
| `UuidV7.Time` | uuid7.go:15-25 | the zero time exactly for a version other than 7; otherwise an instant inside the millisecond held in bytes 0-5 |
| `UuidV7.TimeOfV7` | uuid7.go:15-25 | the time read from a version 7 UUID is `ms` milliseconds plus `ra * 10^6 / 4096` nanoseconds |
| `UuidV7.V7Prefix` | uuid7.go:34-38 | bytes 0-5 read back as `ms`, bytes 6-7 give back `ra`, and the first eight bytes spell `ms * 2^16 + 0x7000 + ra` |
| `UuidV7.RandAPrecision` | uuid7.go:47-51 | `rand_a` fits in 12 bits, and `Time` recovers the sub-millisecond nanoseconds from below to within 245 |
| `UuidV7.V7Order` | uuid.go:123-124 | `Compare` orders two version 7 UUIDs exactly by their `(ms, ra)` readings, whatever their random bits |
| `UuidV7.PrefixOrder` | uuid.go:123-124 | two UUIDs whose first eight bytes spell `ms * 2^16 + 0x7000 + ra` compare in the order of their `(ms, ra)` pairs |
| `UuidV7.FirstNewer` | uuid7.go:71-83 | the reading returned is one of the samples and is newer than the last one; there is none exactly when no sample is newer |
| `UuidV7.Ticker.constructor` | uuid7.go:62-65 | the last reading starts at the reading taken at start-up |
| `UuidV7.Ticker.TickBatch` | uuid7.go:68-84 | returns the first newer reading, records it as the last one, and changes nothing when there is none |
| `UuidV7.Ticker.NewV7Strict` | uuid7.go:59 | the UUID is `make7` of a reading strictly newer than the previous one |
| `UuidV7.StrictlyIncreasing` | uuid7.go:55-59 | a newer reading gives a UUID that `Compare` puts strictly after the previous one |
| `PythonShort.PythonShortBase` | pythonshort.go:65-73 | 22 copies of digit 0, the character '2' |
| `PythonShort.AlphabetsAgree` | pythonshort.go:11-23 | `b57encRef` and `b57decRef` have 57 characters each and agree position by position |
| `PythonShort.DigitIndex` | pythonshort.go:11 | returns -1, or a digit below 57 whose character is the input |
| `PythonShort.DigitCharInverse` | pythonshort.go:11-23 | the value of the character of digit j is j |
| `PythonShort.IndexRune` | pythonshort.go:54 | -1 exactly when the character is absent; otherwise the position of its first occurrence |
| `PythonShort.IndexRuneDigit` | pythonshort.go:54 | looking a character up in `b57decRef` gives its digit value |
| `PythonShort.Lookup` | pythonshort.go:54 | the index found is the character's digit value, or -1 |
| `PythonShort.ShortDigits` | pythonshort.go:28-38 | the digits written number exactly the width, and each is in the alphabet |
| `PythonShort.ToPythonShort` | pythonshort.go:28-38 | 22 characters of `b57encRef`, equal to the base-57 digits of the 128-bit value under the selected early-exit test |
| `PythonShort.DigitsValue` | pythonshort.go:28-38 | when the early exit is the intended one, the digits written for `q < 57^w` have the value `q` |
| `PythonShort.ValueFits` | pythonshort.go:10 | 22 base-57 digits can hold any 128-bit value: `2^128 <= 57^22` |
| `PythonShort.ZerosValue` | pythonshort.go:65-73 | any prefix of the base is worth 0 |
| `PythonShort.ShortValueDefined` | pythonshort.go:53-59 | a text has a value exactly when every character is a digit |
| `PythonShort.FromShort` | pythonshort.go:41-63 | errors exactly when the trimmed text is not 22 characters or has a non-digit; panics exactly when the value reaches 2^128; otherwise the UUID's bytes spell the value |
| `PythonShort.FromPythonShort` | pythonshort.go:41-63 | the outcome is that of the decoding function |
| `PythonShort.Accumulate` | pythonshort.go:52-59 | the loop computing `n * 57 + digit` returns the numeral's value, or none at the first non-digit |
| `PythonShort.ShortcutsAgree` | pythonshort.go:46-51 | the literal Max and Nil short forms have the values of `Max()` and `Nil()`, so the shortcuts agree with the general path |
| `PythonShort.NilShortForm` | pythonshort.go:49-51 | the value 0 encodes as `NilPythonShort` |
| `PythonShort.MaxShortForm` | pythonshort.go:46-48 | the value `2^128 - 1` encodes as `MaxPythonShort` |
| `PythonShort.PanicReachable` | pythonshort.go:61 | 22 'z's are a valid numeral too large for sixteen bytes, and `FillBytes` panics |
| `PythonShort.NonDigitRejected` | pythonshort.go:53-57 | a 22-character input holding a non-digit is rejected |
| `PythonShort.FromShortTrims` | pythonshort.go:42 | surrounding white space does not change the result |
| `PythonShort.ShortRoundTrip` | pythonshort.go:28-63 | with the intended early exit, every UUID's short form decodes back to it |
| `PythonShort.TestsAgree` | pythonshort.go:33 | unless some quotient is a nonzero multiple of 2^64, the test as written and the intended test write the same digits |
| `PythonShort.ShortRoundTripAsWritten` | pythonshort.go:28-63 | the code as written round-trips every UUID for which no quotient is a nonzero multiple of 2^64 |
| `PythonShort.Low64Collision` | pythonshort.go:33 | the UUID 00000000-0000-0039-0000-000000000000 encodes, as written, to the Nil short form and decodes as `Nil()` |
| `Text.Upper` | parse.go:66 | upper-casing keeps the length and maps each character by `unicode.ToUpper` |
| `Text.UpperChar` | parse.go:91 | the result is never lower case; lower-case letters move down by 32 and nothing else changes |
| `Text.UpperLower` | parse.go:66 | upper-casing after lower-casing is the same as upper-casing |
| `Text.RemoveDashes` | parse.go:59 | the result is no longer than the input and holds no dash |
| `Text.RemoveDashesAppend` | parse.go:59 | removing dashes distributes over concatenation |
| `Text.RemoveDashesUpper` | parse.go:59 | removing dashes commutes with upper-casing |
| `Text.TrimSpace` | pythonshort.go:42 | the result is a slice of the input with white space only before and after it, and neither begins nor ends with white space |
| `Text.TrimSpaceStrips` | pythonshort.go:42 | white space around a text that neither begins nor ends with white space is removed exactly |
| `Radix.EncodeLength` | uuid.go:81 | an unpadded encoding of n bytes has `ceil(8n / k)` digits of k bits |
| `Radix.DecodeEncode` | parse.go:76 | decoding the unpadded hex, base32 or base64url encoding of any bytes gives the bytes back |
| `Radix.DecodedDigitsAgree` | parse.go:97 | two texts whose decodings agree on their first `m` bytes have the same digit value at every position whose bits lie inside those bytes |
| `Radix.DigitValueOfDigit` | parse.go:76 | each alphabet's decoder maps the character of digit v back to v |
| `Radix.HexValueUpper` | parse.go:59 | the hex decoder accepts either case |
| `Bits.PutUint32BEInverse` | uuid.go:106-119 | `PutUint32` of `Uint32` gives the four bytes back |
| `Bits.ToBEFromBE` | pythonshort.go:29 | `SetBytes` then `FillBytes` to the same width gives the bytes back |
| `Bits.FromBEToBE` | pythonshort.go:61 | `FillBytes` of a value that fits the width reads back as the value |

## Left out

- The mutex around `tickBatch` is not modelled: the model is sequential.
- The clock is not read. `NewV7`, `tick` and `now` become explicit `(ms, ra)` readings.
- The random source becomes the bytes it would have produced.
- `UuidV7.Ticker.TickBatch`: Go loops until the clock moves past the last reading. The model takes a finite list of clock samples and returns None when none of them is newer. `NewV7Strict` passes that None on.
- `msranda` computes `rand_a` in floating point. The model uses `UuidV7.RandA`, the same quantity rounded down in integer arithmetic. `Time` keeps Go's integer scaling.
- `time.Time` becomes `UuidV7.Instant`: the zero time, or nanoseconds since the Unix epoch. Time zones and the monotonic clock reading are not modelled.
- `UnmarshalBinary`, `UnmarshalText`, `UnmarshalJSON`, `MarshalBinary` and `MarshalText` are thin wrappers over `Parse`, `Bytes` and `String`. They are not modelled separately.
- The error values and panic messages are not modelled; the model keeps only the outcome (`Ok`, `Err` or `Panic`).
- init.go, errors.go and export_test.go are not part of this model.
- Text is ASCII. Go strings are bytes, and non-ASCII input is outside the model: `strings.ToUpper` and `unicode.ToUpper` re-encode invalid UTF-8 and fold some non-ASCII letters, and rune indexing differs from byte indexing.
- `strings.TrimSpace` is modelled for ASCII white space only.
- The Go base32 and base64 decoders skip '\r' and '\n'. The model treats them as invalid characters, as `hex.Decode` does.
- `Radix.Decode` refuses unpadded base32 text of length 1, 3 or 6 mod 8. Go's unpadded base32 decoder accepts such text, and its last partial group writes no byte. The parsers only pass 26 base32 digits (2 mod 8), so no parse outcome differs.
- `Parse.DecodeInto` returns `Err` for any text that cannot be decoded. `hex.Decode` works one digit pair at a time, so with more than 32 digits it panics writing the seventeenth byte before it reaches a later bad or odd character. Every caller turns both `Err` and `Panic` into a panic, so no parse outcome differs.
- When a Go decoder fails partway, it has already written some bytes. The model says nothing about the target after a panic.
- `parseCompact64` compares `uint8(version)` with the typed constant `VersionMax`. These types do not match in Go; the model compares the version with 15, as the base32 parser does.
- `MaxPythonShort` and `NilPythonShort` are used but not defined in the files modelled here. Their values are the short forms of `Max()` and `Nil()`. `PythonShort.MaxShortForm`, `PythonShort.NilShortForm` and `PythonShort.ShortcutsAgree` prove this.
- `PythonShort.ToPythonShort` takes a `test` parameter. `Low64` is the code as written; `Whole` is the intended test (see Findings).
- `Parse` over `[]byte` and `[]rune`: the type assertion `t.(string)` panics for these, and the model returns `Panic` for both without modelling their contents.

## Findings

| source | as written | input that shows it | evidently intended | confidence | as-written member | corrected member |
|---|---|---|---|---|---|---|
| pythonshort.go:33 | the early exit tests `q.Int64() == 0`, which looks only at the low 64 bits of the quotient | 00000000-0000-0039-0000-000000000000 (the value 57 * 2^64): its first quotient is 2^64, so the loop stops after one digit, the short form is 22 '2's, and it decodes as `Nil()` | stop when the quotient is zero (`q.Sign() == 0`), after which every UUID round-trips | high, not executed | `PythonShort.Low64Collision` | `PythonShort.ShortRoundTrip` |
