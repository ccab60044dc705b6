# factorio-settings in Dafny

A verified model of the core of `factorio-settings`, a tool that reads and writes
Factorio's `mod-settings.dat`. The file holds a version header, a reserved byte and a
*property tree*. Every node of the tree is a type tag, an "any" flag and a payload: none,
bool, double, string, list, dictionary or 64-bit integer. The tool converts between that
tree and a flat record of three sections (`startup`, `runtime-global`,
`runtime-per-user`), each mapping a setting name to a value.

The project has these modules, one per file:

- `Bytes` (`bytes.dfy`): little-endian fixed-width integers and i64 two's complement.
- `Utf8` (`utf8.dfy`): the well-formedness test that `String::from_utf8` applies.
- `Wrappers` (`wrappers.dfy`): `Option` and `Result`.
- `OrderedMap` (`ordered_map.dfy`): an `IndexMap` as a sequence of pairs, with its
  insert-or-replace rule.
- `Types` (`types.dfy`): `FactorioVersion` and its ordering.
- `Codec` (`codec.dfy`): the binary format as pure functions. Encoders return bytes.
  Decoders return the value and the unread input, or an error.
- `CodecProperties` (`codec_properties.dfy`): round trips of the codec, what the decoder
  accepts, and the fact that whatever it accepts can be written back.
- `Canonical` (`canonical.dfy`): decoding then encoding gives back exactly the input
  bytes if and only if the input is canonical. This is what the decode/encode parity
  tests rely on.
- `Streams` (`streams.dfy`): the stream code as it is written. It has a `Reader` (a cursor
  over the input) and a `Writer` (an append-only buffer). Each decode or encode routine is
  a method on them, proved to compute what the matching `Codec` function says.
- `Simple` (`simple.dfy`): `ModSettings` and the projection of a decoded tree onto it
  (`TryFrom<&Settings>`, `TryFrom<&Property>`). The projection takes the colour reader as
  a parameter. The source's projection is the instance `ColorFromAsWritten`. The
  instance `ColorFrom` reads each channel from its own key (see Findings).
- `Conversion` (`conversion.dfy`): the tree builder `from_simple` /
  `convert_simple_index_map`, and the round trip from a record to a tree and back.
- `Samples` (`samples.dfy`): the small file of the codec's `simple_encoded` unit test,
  byte for byte.

Types are modelled as follows:

- Strings are byte sequences that are well-formed UTF-8 (`Str`).
- A double is its 64-bit pattern (`F64`), because the codec only copies those bits.
- An `IndexMap` is a sequence of (key, value) pairs in insertion order.
- Decoding errors are values of `DecodeError`:
  - `Truncated`: a read past the end of the input.
  - `InvalidHeaderByte`: byte 8 of the file is not 0.
  - `UnknownTypeTag`: a tag above 6.
  - `InvalidUtf8`: a string whose bytes are not well-formed UTF-8.
  - `UnimplementedVariant`: the list payload.
- Projection errors are values of `ConversionError`.

Where the two source files disagree, the model follows the code that can run:

- `simple.rs` names a `PropertyValue::Number` variant and an `as_number` accessor. Neither
  exists in `codec.rs`, whose variant is `Double` with `as_double`. The model reads the
  projection's `Number` arm and `as_number` calls as `Double` and `as_double`.
- `codec.rs` builds trees from a `ModSettingsValue::Integer` case that the `simple.rs`
  enum does not declare. The model keeps `Integer` in `SettingValue`. The projection
  rejects it, as its catch-all arm would.

## Model

| member | source | states |
|---|---|---|
| Types.PartialCmp | src/types.rs:25-29 | always answers, and its answer is `cmp`'s |
| Types.CmpIsRankOrder | src/types.rs:11-24 | `cmp` is lexicographic on (major, minor, patch, build): it orders versions as their packed 64-bit ranks are ordered |
| Types.CmpEqualIffSame | src/types.rs:11-24 | `cmp` says Equal exactly when all four fields are equal |
| Types.CmpAntisymmetric | src/types.rs:11-24 | swapping the operands reverses the ordering |
| Types.CmpTransitive | src/types.rs:11-24 | Less is transitive |
| Types.CmpTotal | src/types.rs:11-24 | any two versions are Less, Greater or identical |
| Bytes.LittleEndianRoundTrip | src/codec.rs:31-36 | reading back the n little-endian bytes of v < 256^n gives v |
| Bytes.FromLittleEndianRoundTrip | src/codec.rs:17-22 | writing back the value read from bytes gives the same bytes |
| Bytes.I64Bits | src/codec.rs:378-387 | the two's-complement pattern of an i64 converts back to it, and its top bit is set exactly for negative values |
| Bytes.I64BitsRoundTrip | src/codec.rs:378-387 | every 64-bit pattern is the pattern of the i64 it reads as |
| Utf8.ScalarLength | src/codec.rs:330 | a scalar takes 1 to 4 bytes, and an ASCII byte takes exactly 1 |
| Utf8.AsciiIsWellFormed | src/codec.rs:330 | ASCII bytes pass the UTF-8 check |
| OrderedMap.Get | src/simple.rs:18 | `get` finds a value exactly when the key is present, and the value is the one stored under that key |
| OrderedMap.Insert | src/codec.rs:363 | inserting a new key appends the pair; inserting a present key keeps the length and key order |
| OrderedMap.GetInsert | src/codec.rs:363 | after an insert, `get` of that key gives the new value and every other key is unaffected |
| OrderedMap.InsertKeepsUniqueKeys | src/codec.rs:363 | inserting never creates a repeated key |
| OrderedMap.InsertEachInOrder | src/codec.rs:187-243 | inserting each pair of a map with distinct keys keeps every key at its position, with its value mapped |
| Codec.PropertyValue.AsBool | src/codec.rs:58-64 | `Some` exactly for a Bool, carrying its payload |
| Codec.PropertyValue.AsDouble | src/codec.rs:66-72 | `Some` exactly for a Double, carrying its payload |
| Codec.PropertyValue.AsString | src/codec.rs:74-80 | `Some` exactly for a String, carrying its payload |
| Codec.PropertyValue.AsList | src/codec.rs:82-88 | `Some` exactly for a List, carrying its payload |
| Codec.PropertyValue.AsDictionary | src/codec.rs:90-96 | `Some` exactly for a Dictionary, carrying its payload |
| Codec.PropertyValue.AsInteger | src/codec.rs:98-104 | `Some` exactly for an Integer, carrying its payload |
| Codec.ReadExact | src/codec.rs:109-113 | succeeds exactly when n bytes remain; returns them and the rest |
| Codec.ReadU32 | src/codec.rs:358 | succeeds exactly when 4 bytes remain and consumes exactly 4 |
| Codec.LooseBoolByte | src/codec.rs:394-397 | writes 0 or 1, and the loose reader reads the flag back |
| Codec.EncodeBool | src/codec.rs:305-308 | one byte, 0 or 1, which the loose rule reads back as the bool |
| Codec.DecodeBool | src/codec.rs:297-303 | one byte, true exactly when it is 1; an empty input is `Truncated` |
| Codec.EncodeDouble | src/codec.rs:316-319 | eight bytes whose little-endian value is the bit pattern |
| Codec.DecodeDouble | src/codec.rs:311-314 | succeeds exactly when 8 bytes remain and consumes exactly 8 |
| Codec.EncodeInteger | src/codec.rs:383-386 | eight bytes whose little-endian value is the i64's two's-complement pattern |
| Codec.DecodeInteger | src/codec.rs:378-381 | succeeds exactly when 8 bytes remain and consumes exactly 8 |
| Codec.ReadOptimizedU32 | src/codec.rs:399-405 | succeeds exactly when a first byte is there and, if it is 0xFF, four more; a first byte below 0xFF is the value, else the next four bytes are |
| Codec.WriteOptimizedU32 | src/codec.rs:407-416 | one byte for values below 0xFF; otherwise 0xFF then the value as a u32 |
| Codec.DecodeValue | src/codec.rs:114-123 | a decoded payload has the variant its tag names; a tag above 6 is an unknown-type error; tag 4 (list) is unimplemented |
| Codec.DecodeVersion | src/codec.rs:17-29 | succeeds exactly when 8 bytes remain and consumes exactly 8 |
| CodecProperties.LooseBoolRule | src/codec.rs:389-392 | only byte 1 reads as true |
| CodecProperties.BoolRoundTrip | src/codec.rs:297-309 | a written bool reads back, leaving what follows |
| CodecProperties.ReadU32RoundTrip | src/codec.rs:358-369 | a written u32 reads back |
| CodecProperties.ReadU64RoundTrip | src/codec.rs:311-320 | a written u64 reads back |
| CodecProperties.DoubleRoundTrip | src/codec.rs:311-320 | a written f64 bit pattern reads back unchanged |
| CodecProperties.IntegerRoundTrip | src/codec.rs:378-387 | a written i64 reads back, negative values included |
| CodecProperties.OptimizedU32Boundary | src/codec.rs:407-416 | 254 takes one byte; 255 takes five (0xFF, then 255 as u32) |
| CodecProperties.OptimizedU32RoundTrip | src/codec.rs:399-416 | the variable-length reader inverts the writer for every u32 |
| CodecProperties.EmptyStringEncoding | src/codec.rs:336-343 | the empty string is written as 0 then length 0; the is-empty byte 1 is never written |
| CodecProperties.StringRoundTrip | src/codec.rs:322-344 | a string shorter than 2^32 bytes reads back, leaving what follows |
| CodecProperties.DecodeLongString | src/codec.rs:325-330 | after any sentinel other than 1, the string is the length-prefixed bytes |
| CodecProperties.DecodeStringCases | src/codec.rs:322-334 | all outcomes: empty input truncated; sentinel 1 empty; else length then bytes, each missing part an error, ill-formed UTF-8 an error |
| CodecProperties.DecodePropertyHeader | src/codec.rs:108-123 | fewer than 2 header bytes is `Truncated`; a tag above 6 is an unknown-type error; a list is unimplemented |
| CodecProperties.DecodePropertyTagAndFlag | src/codec.rs:107-128 | a decoded node has the tag's variant and its flag read by the loose rule |
| CodecProperties.PropertyRoundTrip | src/codec.rs:107-168 | an encodable node reads back exactly, leaving what follows |
| CodecProperties.ValueRoundTrip | src/codec.rs:114-166 | each payload reads back under its own tag |
| CodecProperties.DictionaryRoundTrip | src/codec.rs:356-376 | a dictionary with distinct keys reads back with the same pairs in the same order |
| CodecProperties.DecodeEntriesStep | src/codec.rs:360-364 | one loop turn reads a key, then a node, and inserts the pair |
| CodecProperties.EntriesRoundTrip | src/codec.rs:360-373 | the loop appends the encoded pairs in order to a map holding none of their keys |
| CodecProperties.VersionRoundTrip | src/codec.rs:16-37 | a written version reads back |
| CodecProperties.SettingsRoundTrip | src/codec.rs:271-290 | an encodable file reads back exactly, leaving trailing bytes unread |
| CodecProperties.DecodeSettingsHeader | src/codec.rs:272-277 | short input is `Truncated`; a non-zero byte 8 is rejected; otherwise the root is decoded from byte 9 |
| CodecProperties.DecodePropertyEncodable | src/codec.rs:107-128 | every decoded tree is list-free, has distinct keys, and has lengths that fit a u32 |
| CodecProperties.DecodeEntriesEncodable | src/codec.rs:356-366 | the map the loop builds keeps its keys distinct, because a repeated key replaces the value in place |
| CodecProperties.InsertEncodable | src/codec.rs:363 | inserting an encodable pair keeps a map encodable |
| CodecProperties.ReencodeDecoded | src/codec.rs:477-494 | whatever decodes, re-encoded, decodes to the same tree and rest |
| Canonical.BoolReencode | src/codec.rs:297-309 | a bool byte of 0 or 1 is written back as itself |
| Canonical.LengthReencode | src/codec.rs:399-416 | a length with no needless 0xFF prefix is written back as itself |
| Canonical.StringReencode | src/codec.rs:322-344 | a string with sentinel 0 and a shortest length prefix is written back as itself |
| Canonical.PropertyReencode | src/codec.rs:107-168 | a decoded canonical node, encoded, is exactly the bytes it was read from |
| Canonical.EntriesReencode | src/codec.rs:356-376 | the dictionary loop on canonical bytes appends each pair, and encoding them gives the bytes back |
| Canonical.StringCanonical | src/codec.rs:336-343 | the string encoder always writes sentinel 0 and a shortest length |
| Canonical.PropertyCanonical | src/codec.rs:130-168 | everything the node encoder writes is canonical |
| Canonical.EntriesCanonical | src/codec.rs:368-375 | the pairs the dictionary encoder writes are canonical for a map holding none of their keys |
| Canonical.VersionReencode | src/codec.rs:16-37 | the 8 header bytes are the decoded version written back |
| Canonical.ReencodeIffCanonical | src/codec.rs:477-494 | decode-then-encode of a node is byte-identical if and only if the input is canonical |
| Canonical.SettingsReencodeIffCanonical | src/codec.rs:477-494 | the decode/encode parity of a whole file holds if and only if its root is canonical |
| Streams.Reader.constructor | src/codec.rs:178-180 | a fresh reader is at the start of its input |
| Streams.Reader.ReadU8 | src/codec.rs:324 | consumes one byte as `Codec.ReadU8` says, or fails with `Truncated` when none is left |
| Streams.Reader.ReadExact | src/codec.rs:109-113 | consumes n bytes as `Codec.ReadExact` says |
| Streams.Reader.ReadU32 | src/codec.rs:358 | consumes 4 bytes as `Codec.ReadU32` says |
| Streams.Reader.ReadU64 | src/codec.rs:313 | consumes 8 bytes as `Codec.ReadU64` says |
| Streams.Writer.constructor | src/codec.rs:487-489 | a fresh writer holds no bytes |
| Streams.Writer.WriteU8 | src/codec.rs:306 | appends one byte |
| Streams.Writer.WriteAll | src/codec.rs:341 | appends the bytes given |
| Streams.Writer.WriteU16 | src/codec.rs:32-35 | appends 2 little-endian bytes |
| Streams.Writer.WriteU32 | src/codec.rs:369 | appends 4 little-endian bytes |
| Streams.Writer.WriteU64 | src/codec.rs:317 | appends 8 little-endian bytes |
| Streams.DecodeBool | src/codec.rs:297-303 | yields what `Codec.DecodeBool` gives on the remaining input |
| Streams.DecodeDouble | src/codec.rs:311-314 | yields what `Codec.DecodeDouble` gives |
| Streams.DecodeInteger | src/codec.rs:378-381 | yields what `Codec.DecodeInteger` gives |
| Streams.ReadOptimizedU32 | src/codec.rs:399-405 | yields what `Codec.ReadOptimizedU32` gives |
| Streams.DecodeString | src/codec.rs:322-334 | yields what `Codec.DecodeString` gives |
| Streams.DecodeProperty | src/codec.rs:107-128 | yields what `Codec.DecodeProperty` gives |
| Streams.DecodeValue | src/codec.rs:114-123 | yields what `Codec.DecodeValue` gives for the tag |
| Streams.DecodeDictionary | src/codec.rs:356-366 | yields what `Codec.DecodeDictionary` gives |
| Streams.DecodeEntries | src/codec.rs:360-365 | the `for _ in 0..count` loop yields what the `count` turns of `Codec.DecodeEntries` give |
| Streams.DecodeEntry | src/codec.rs:361-363 | one turn consumes input and leaves the rest of the loop's result unchanged, or fails with the loop's error |
| Streams.DecodeVersion | src/codec.rs:17-29 | yields what `Codec.DecodeVersion` gives |
| Streams.DecodeSettings | src/codec.rs:272-282 | yields what `Codec.DecodeSettings` gives |
| Streams.EncodeBool | src/codec.rs:305-308 | appends `Codec.EncodeBool` |
| Streams.EncodeDouble | src/codec.rs:316-319 | appends `Codec.EncodeDouble` |
| Streams.EncodeInteger | src/codec.rs:383-386 | appends `Codec.EncodeInteger` |
| Streams.WriteOptimizedU32 | src/codec.rs:407-416 | appends `Codec.WriteOptimizedU32` |
| Streams.EncodeString | src/codec.rs:336-343 | appends `Codec.EncodeString` |
| Streams.EncodeProperty | src/codec.rs:130-168 | appends `Codec.EncodeProperty` |
| Streams.EncodeValue | src/codec.rs:136-165 | appends `Codec.EncodeValue` |
| Streams.EncodeDictionary | src/codec.rs:368-375 | the count, then each pair in order, which is `Codec.EncodeDictionary` |
| Streams.EncodeEntry | src/codec.rs:370-373 | appends one key and its node |
| Streams.EncodeVersion | src/codec.rs:31-37 | appends `Codec.EncodeVersion` |
| Streams.EncodeSettings | src/codec.rs:284-289 | appends `Codec.EncodeSettings` |
| Simple.ChannelKeysDistinct | src/simple.rs:51-56 | the four colour channels have distinct keys |
| Simple.SectionNamesDistinct | src/codec.rs:256-258 | the three section names are distinct |
| Simple.ChannelValue | src/simple.rs:71-73 | succeeds exactly when the key holds a double; a missing key is a missing-channel error |
| Simple.ColorAsWrittenReadsRed | src/simple.rs:70-83 | as written, the colour reader succeeds exactly when "r" holds a number, and then all four channels are that number |
| Simple.ColorAsWrittenCounterexample | src/simple.rs:70-83 | on the stored colour (1, 2, 3, 4) the as-written reader returns (1, 1, 1, 1), while the intended reader returns (1, 2, 3, 4) |
| Simple.ColorFrom | src/simple.rs:70-83 | the intended reader: succeeds exactly when r, g, b and a each hold a double, and returns those four |
| Simple.LeafWith | src/simple.rs:66-86 | a Bool, Double or String becomes the setting of that kind with its payload; a dictionary is whatever the colour reader makes of it; None, List and Integer are rejected, naming the value |
| Simple.SettingValueWith | src/simple.rs:59-91 | a non-dictionary entry and a dictionary without "value" are distinct errors; otherwise the result is the classification of the value under "value" |
| Simple.SettingValueAsWritten | src/simple.rs:59-91 | with the source's colour reader: a non-dictionary entry is rejected; a dictionary without "value" is rejected |
| Simple.SettingValueFrom | src/simple.rs:59-91 | with the corrected colour reader: the same rejections, and a success is never None or Integer |
| Simple.OtherKindsRejected | src/simple.rs:85 | for any colour reader, a None, List or Integer value is rejected, naming that value |
| Simple.AsWrittenAgreesOffColours | src/simple.rs:59-91 | off colours the as-written and corrected projections agree |
| Simple.CollectSucceeds | src/simple.rs:22-25 | collecting succeeds if and only if every entry converts |
| Simple.CollectFirstError | src/simple.rs:22-25 | a failed collection reports the error of the first entry that fails to convert |
| Simple.CollectKeepsEntries | src/simple.rs:22-25 | a successful collection keeps every name, in order, with its converted value |
| Simple.PropertyMapParse | src/simple.rs:17-26 | for any colour reader: a missing section and a non-dictionary section are distinct errors; a dictionary section gives the result of collecting its entries |
| Simple.ToSimple | src/simple.rs:28-41 | for any colour reader: a non-dictionary root is rejected; a success keeps the version and parses the three sections by name; a failure is the error of the first section to fail, in the order startup, runtime-global, runtime-per-user |
| Simple.ToSimpleSucceeds | src/simple.rs:31-40 | for a dictionary root, the projection succeeds if and only if all three sections parse |
| Simple.CollectAgrees | src/simple.rs:22-25 | two entry projections that agree on every entry collect the section to the same result |
| Simple.PropertyMapParseAgreesOffColours | src/simple.rs:17-26 | a section without colour entries parses the same under the as-written and the corrected colour reader |
| Simple.ToSimpleAgreesOffColours | src/simple.rs:28-41 | a file without colour entries projects the same under the as-written and the corrected colour reader |
| Conversion.ColorEntries | src/codec.rs:194-225 | a colour becomes the dictionary r, g, b, a in that order, each a flag-clear double |
| Conversion.EntryProperty | src/codec.rs:228-242 | a setting becomes a one-entry dictionary holding its value under "value" |
| Conversion.ConvertSimpleIndexMap | src/codec.rs:186-248 | the loop inserts one entry per setting, giving `SectionProperty` |
| Conversion.FromSimple | src/codec.rs:250-268 | builds the root of the three sections and keeps the version |
| Conversion.SectionEntriesInOrder | src/codec.rs:187-243 | a section without repeated names keeps its count and order; entry i is setting i's node |
| Conversion.SectionEntriesUniqueKeys | src/codec.rs:236-242 | a built section has no repeated key |
| Conversion.SimpleToSettingsShape | src/codec.rs:255-267 | the root is the dictionary startup, runtime-global, runtime-per-user, in that order |
| Conversion.EntryFlagsClear | src/codec.rs:228-242 | every node of a setting's subtree has its flag cleared |
| Conversion.SectionFlagsClear | src/codec.rs:186-248 | every node of a section's subtree has its flag cleared |
| Conversion.SimpleToSettingsFlagsClear | src/codec.rs:250-268 | every node of the built tree has its flag cleared |
| Conversion.ColorEncodable | src/codec.rs:194-225 | a colour's dictionary can always be encoded |
| Conversion.SectionEncodable | src/codec.rs:186-248 | a section whose counts and lengths fit a u32 can be encoded |
| Conversion.SimpleEncodable | src/codec.rs:250-268 | the built tree can be encoded when every count and length fits a u32 |
| Conversion.ColorRoundTrip | src/codec.rs:194-225 | the intended colour reader returns exactly the colour that was built |
| Conversion.ColorAsWrittenRoundTrip | src/simple.rs:70-83 | the source's colour reader returns the built colour's red channel four times |
| Conversion.CorrectedColoursReadBack | src/codec.rs:194-225 | the intended colour reader reads back every colour of a section |
| Conversion.AsWrittenColoursReadBack | src/simple.rs:70-83 | the source's colour reader reads back a section's colours if and only if each has four equal channels |
| Conversion.ColorLeaf | src/simple.rs:70 | a colour's leaf is read by the colour reader alone |
| Conversion.LeafRoundTrip | src/codec.rs:189-226 | every value but None and Integer is read back from its leaf node, given a colour reader that reads the colour back |
| Conversion.EntryValue | src/simple.rs:64-66 | a built setting node holds its leaf under "value", for any colour reader |
| Conversion.EntryRoundTrip | src/codec.rs:228-242 | the projection reads back every setting but None and Integer, given a colour reader that reads the colour back |
| Conversion.EntryNotRecovered | src/simple.rs:85 | None and Integer settings are built but rejected by the projection, whatever the colour reader |
| Conversion.SectionRoundTrip | src/codec.rs:186-248 | a section of readable values whose colours the reader reads back is read back whole, in order |
| Conversion.SectionReadBackColours | src/simple.rs:22-25 | a section that reads back whole had every colour read back by the colour reader |
| Conversion.SectionNotRecovered | src/codec.rs:186-248 | one unreadable value makes its section fail |
| Conversion.RootLookups | src/codec.rs:255-258 | each section name finds its section in the built root |
| Conversion.RoundTrip | src/codec.rs:250-268 | for any colour reader, projecting the built tree of a well-formed record gives back the record if and only if the reader reads back all its colours |
| Conversion.CorrectedRoundTrip | src/codec.rs:250-268 | with the intended colour reader, every well-formed record comes back |
| Conversion.AsWrittenRoundTrip | src/simple.rs:28-91 | with the source's colour reader, a well-formed record comes back if and only if each of its colours has four equal channels |
| Conversion.NotRecovered | src/codec.rs:250-268 | for any colour reader, a record with a None or Integer setting in any section does not come back |
| Conversion.FileRoundTrip | src/codec.rs:284-289 | build, encode, decode and project: no bytes are left over, and the record comes back whenever the colour reader reads back its colours |
| Samples.NameLengths | src/codec.rs:431 | the byte lengths of the names in the test file |
| Samples.SampleTree | src/codec.rs:446-457 | the nodes built for the test's record, from the leaf up |
| Samples.SampleFileEncodes | src/codec.rs:431 | building and encoding the test's record gives the test's bytes exactly |
| Samples.SampleWellFormed | src/codec.rs:446-457 | the test's record is well formed, within the u32 limits, and holds no colour the source's reader would misread |
| Samples.SampleFileDecodes | src/codec.rs:429-458 | the test file decodes fully, to version 1.1.82.4 with a clear root flag and the string setting "deadbeef", under the source's projection |

## Left out

- Lists. The list payload's codec is `todo!()` in the source, so the model makes no
  claim about its bytes. Decoding tag 4 gives `UnimplementedVariant`, where the source
  panics. Encoding requires a list-free tree (`ListFree`), where the source panics on a
  list.
- I/O errors other than running out of input. The stream is a byte sequence, so failures
  of the underlying reader or writer do not occur. Buffering and `with_capacity` hints
  are not modelled.
- Floating point. A double is carried as its 64-bit pattern, because the codec only
  copies those bits. NaN payloads and signed zeros are therefore preserved exactly, as
  `write_f64` preserves them.
- `String::from_utf8` is modelled as the predicate `Utf8.IsWellFormed`, which checks
  shortest forms, surrogates and the upper bound of U+10FFFF. The decoded `String` is
  its byte sequence.
- `len() as u32` on strings and dictionaries. It is modelled as the low 32 bits
  (`% 2^32`). The round-trip lemmas therefore require lengths and counts below 2^32
  (`WithinLimits`). With 2^32 or more bytes, a string's length prefix wraps and the
  bytes no longer read back.
- JSON and TOML serialisation of `ModSettings` (serde), the command-line arguments, and
  `main`'s file handling are not part of this model.
- Conversion.RoundTrip: requires every setting to be representable, meaning neither
  `None` nor `Integer`. The builder writes both, but the projection rejects them
  (`Conversion.EntryNotRecovered`, `Conversion.NotRecovered`).
- Error messages are not modelled. Each `anyhow!` error is one variant of
  `DecodeError` or `ConversionError`, carrying the offending tag, byte, section name,
  channel or value.

## Findings

| source | as written | input that shows it | evidently intended | confidence | as-written member | corrected member |
|---|---|---|---|---|---|---|
| src/simple.rs:74-82 | the green, blue and alpha channels are all read with `dict.get("r")`, so a built record comes back only if its colours have four equal channels (`Conversion.AsWrittenRoundTrip`) | a colour setting stored as r=1, g=2, b=3, a=4 is projected as (1, 1, 1, 1) | each channel is read from its own key, "g", "b" and "a" | high (not executed) | Simple.ColorAsWrittenCounterexample | Conversion.CorrectedRoundTrip |
