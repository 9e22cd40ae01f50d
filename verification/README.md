# NDT ID Generator Lite — UUID v4 and v7 in Dafny

This project models the class `ndtan\ID` of the NDT ID Generator Lite
(`src/ID.php`). The class has two static builders:

- `ID::uuid4` draws 16 random octets. It sets the version field to 4
  (section 4.2 of RFC 9562) and the variant bits to `10` (section 4.1
  of RFC 9562). It then prints the octets as lowercase hexadecimal in
  the 8-4-4-4-12 hyphenated layout.
- `ID::uuid7` does the same with version 7. Before the patch it
  overwrites octets 0 to 5 with the millisecond clock reading, big-endian.
  This is the `unix_ts_ms` field of section 5.7 of RFC 9562.

Both builders are pure functions here. The random octets and the clock
reading are parameters. The modules follow the steps of the two builders:

| module | contents |
|---|---|
| `Wrappers` | `Option` |
| `Bytes` | nibbles of an octet, the numeric value of an octet, big-endian value and encoding of octet strings, and their round trips |
| `Fields` | the version and variant patch, the 48-bit timestamp store, and the frame predicates saying which input bits survive |
| `Hex` | `bin2hex` and its inverse decoder |
| `Layout` | the 8-4-4-4-12 hyphenation and hyphen deletion |
| `Lex` | the lexicographic order on strings, character by character |
| `Seqs` | two general facts about splitting and concatenating sequences |
| `Uuid` | `Uuid4`, `Uuid7`, the text format, the parser that inverts it, and the properties of the builders |

The class header (src/ID.php:8) calls it "Basic UUID only (v4 & v7)".
This model follows the code.

The parser `Uuid.Parse` (hyphen deletion, then hexadecimal decoding) and
`Uuid.UnixTsMs` do not exist in the source. They are inverse definitions,
added so that the round trips can be stated.

## Model

| member | source | states |
|---|---|---|
| Fields.SetVersion | src/ID.php:18 | the high nibble of the octet becomes the version number, and the low nibble is kept |
| Fields.SetVariant | src/ID.php:20 | the top two bits of the octet become `10`, and the low six bits are kept |
| Fields.Patch | src/ID.php:18-20 | the patched array has version `v` in octet 6 and the RFC 9562 variant in octet 8, and it keeps every other random bit of the input |
| Fields.PatchIdempotent | src/ID.php:43-45 | patching an already patched array a second time changes nothing |
| Fields.PatchFixedPoint | src/ID.php:18-20 | the patch leaves an array unchanged exactly when the array already carries version `v` and the variant |
| Fields.PatchedDetermined | src/ID.php:18-20 | two patched arrays that agree on the kept random bits are equal |
| Fields.PatchEqual | src/ID.php:18-20 | two inputs patch to the same array exactly when they agree on the 122 bits the patch keeps |
| Fields.TimestampBytes | src/ID.php:35-40 | the six shift-and-mask octets; six of them, and `Fields.TimestampBytesAreBigEndian` and `Fields.TimestampValue` give their meaning |
| Fields.TimestampValue | src/ID.php:35-40 | the six octets read back big-endian give the timestamp modulo 2^48 |
| Fields.TimestampBytesAreBigEndian | src/ID.php:35-40 | the six shift-and-mask octets are the 6-octet big-endian encoding of the timestamp |
| Fields.TimestampRoundTrip | src/ID.php:35-40 | reading the octets back gives the timestamp itself exactly when it is below 2^48 |
| Fields.TimestampBytesOfValue | src/ID.php:35-40 | any six octets are the timestamp octets of their own big-endian value |
| Fields.StoreTimestamp | src/ID.php:32-40 | octets 0 to 5 hold the timestamp modulo 2^48, and octets 6 to 15 are the random octets unchanged |
| Fields.StoreOwnTimestamp | src/ID.php:35-40 | storing the value an array already holds in octets 0 to 5 gives the array back |
| Fields.StoreTimestampSame | src/ID.php:32-45 | two stores agree on the patch-kept bits exactly when the timestamps agree modulo 2^48 and the random octets agree on the kept bits after octet 5 |
| Bytes.ByteValue | src/ID.php:18-20 | `ord`: the numeric value of an octet, below 256; `Bytes.ByteValueInjective` and `Bytes.ByteValueOrder` give its meaning |
| Bytes.LowByte | src/ID.php:35-40 | the octet `chr(n & 0xff)` has numeric value `n mod 256` |
| Bytes.BeEncode | src/ID.php:35-40 | the encoding has the requested length, and its big-endian value is `n` modulo 256^len |
| Bytes.BeEncodeByte | src/ID.php:35-40 | octet `i` of the encoding is the low octet of `n` shifted right by 8·(len−1−i) bits |
| Bytes.BeValueInjective | src/ID.php:35-40 | two octet strings of one length with the same big-endian value are equal |
| Bytes.EncodeDecode | src/ID.php:35-40 | re-encoding the value of a string at its own length gives the string back |
| Bytes.DecodeEncode | src/ID.php:35-40 | decoding an encoding gives `n` back exactly when `n` fits in `len` octets |
| Bytes.BeValueFirstDifference | src/ID.php:35-40 | when one string's value is the smaller, the strings first differ at an octet where that string's octet is the smaller |
| Bytes.ByteValueOrder | src/ID.php:35-40 | octet order and numeric order agree |
| Hex.HexDigit | src/ID.php:21 | a nibble becomes a lowercase hexadecimal digit |
| Hex.DigitValue | src/ID.php:21 | a character has a digit value exactly when it is a lowercase hexadecimal digit |
| Hex.ValueOfDigit | src/ID.php:21 | decoding the digit of a nibble gives the nibble back |
| Hex.DigitOfValue | src/ID.php:21 | the digit of a decoded character is that character |
| Hex.HexDigitMonotone | src/ID.php:21 | a smaller nibble gets a digit that sorts before the digit of a larger one |
| Hex.PairOfByte | src/ID.php:21 | the two digits of an octet decode back to the octet |
| Hex.ByteOfPair | src/ID.php:21 | a pair decodes exactly when both characters are lowercase hex digits, and the octet it decodes to prints as that pair |
| Hex.Bin2Hex | src/ID.php:21 | `bin2hex`: two characters per octet; the digits are given by `Hex.Bin2HexDigits` |
| Hex.Bin2HexDigits | src/ID.php:21 | the text has two characters per octet: the digit of the high nibble at `2i`, then the digit of the low nibble at `2i+1`; every character is a lowercase hex digit |
| Hex.DecodeBin2Hex | src/ID.php:21 | decoding the `bin2hex` text gives the octets back |
| Hex.Bin2HexDecode | src/ID.php:21 | text that decodes is the `bin2hex` text of what it decodes to |
| Hex.DecodeHexAccepts | src/ID.php:21 | text decodes exactly when it has even length and only lowercase hex digits |
| Hex.Bin2HexConcat | src/ID.php:21 | the text of a concatenation is the concatenation of the texts |
| Hex.Bin2HexSplit | src/ID.php:21 | the text of some octets, one octet and more octets is the three texts in turn |
| Hex.Bin2HexAt | src/ID.php:21 | the text splits around octet `k` into the text before it, its two digits, and the text after it |
| Hex.Bin2HexFirstDifference | src/ID.php:21 | when two arrays first differ upward at octet `k`, their texts first differ upward at digit `2k` or `2k+1` |
| Layout.TextPosition | src/ID.php:22-25 | digit `j` of the 32 is shown at a non-hyphen position of the 36 |
| Layout.Hyphenate | src/ID.php:22-25 | the result has 36 characters, with `-` at positions 8, 13, 18 and 23 and the digits in order everywhere else |
| Layout.Dehyphenate | src/ID.php:22-25 | the result has no hyphen and is no longer than the input |
| Layout.DehyphenateConcat | src/ID.php:22-25 | deleting hyphens from a concatenation deletes them from each part |
| Layout.DehyphenateNoHyphens | src/ID.php:22-25 | text without hyphens is left as it is |
| Layout.DehyphenateHyphenate | src/ID.php:22-25 | deleting the hyphens of the hyphenated digits gives the digits back |
| Layout.HyphenateDehyphenate | src/ID.php:22-25 | text of the 8-4-4-4-12 shape is the hyphenation of its 32 non-hyphen characters |
| Layout.HyphenateFirstDifference | src/ID.php:22-25 | hyphenation keeps the first upward difference of two digit strings |
| Uuid.Format | src/ID.php:21-25 | the text is canonical, shows each octet as two digits (high nibble first) at the layout positions, and parses back to the octets |
| Uuid.FormatParse | src/ID.php:21-25 | canonical text parses to 16 octets whose formatting is that text |
| Uuid.FormatInjective | src/ID.php:21-25 | two octet arrays format alike exactly when they are equal |
| Uuid.MatchesTestPattern | tests/IDTest.php:12-18 | `preg_match` of the tests' anchored pattern, read group by group; its meaning is given by `Uuid.PatternBodyVersionText` and `Uuid.TestPatternNewline` |
| Uuid.PatternBodyVersionText | tests/IDTest.php:12-18 | the group-by-group reading of the pattern body is the same as canonical text with the version digit at position 14 and `8`, `9`, `a` or `b` at position 19 |
| Uuid.TestPatternNewline | tests/IDTest.php:12-18 | the pattern accepts exactly version text and version text followed by one newline, since `$` without the `D` modifier also matches before a final newline |
| Uuid.Uuid4 | src/ID.php:14-26 | the output is version text with `4` and so matches the test pattern; it parses to 16 octets with version 4 and the variant, and those octets keep every random bit the patch keeps |
| Uuid.Uuid7 | src/ID.php:29-52 | the output is version text with `7` and so matches the test pattern; it parses to octets with version 7 and the variant; octets 0 to 5 hold the timestamp modulo 2^48; the later octets keep the random bits the patch keeps |
| Uuid.FieldDigits | src/ID.php:18-25 | the digit at position 14 is the version, and the digit at position 19 is `8`, `9`, `a` or `b` |
| Uuid.DigitFields | src/ID.php:18-25 | conversely, those two digits mean the octets carry the version and the variant |
| Uuid.KeptOctets | src/ID.php:35-45 | the patch keeps octets 0 to 5 and, after them, the random bits it keeps |
| Uuid.Uuid4Exactly | tests/IDTest.php:11-12 | a string is version text with `4` exactly when it is the output of `Uuid4` for some random octets |
| Uuid.Uuid7Exactly | tests/IDTest.php:17-18 | a string is version text with `7` exactly when it is the output of `Uuid7` for some random octets and timestamp |
| Uuid.Uuid4Equal | src/ID.php:14-26 | two random inputs give the same version 4 UUID exactly when they agree on the 122 kept bits |
| Uuid.Uuid7Equal | src/ID.php:29-52 | two calls give the same version 7 UUID exactly when the timestamps agree modulo 2^48 and the random octets agree on the kept bits after octet 5 |
| Uuid.UnixTsMsRoundTrip | src/ID.php:31-40 | the timestamp read back from a version 7 UUID is the reading modulo 2^48, and it is the reading itself exactly when the reading is below 2^48 |
| Uuid.FormatOrdered | src/ID.php:47-51 | arrays that first differ upward give text that sorts strictly before |
| Uuid.Uuid7OctetsOrdered | src/ID.php:35-45 | for timestamps `t1 < t2 < 2^48`, the patched octets first differ upward within octets 0 to 5 |
| Uuid.Uuid7Ordered | src/ID.php:28-51 | for timestamps `t1 < t2 < 2^48`, the UUID of `t1` sorts strictly before the UUID of `t2`, whatever the random octets |

## Left out

- `random_bytes(16)` (src/ID.php:16, 32) is a call into the operating system's randomness source. Its result is the parameter `random`, a 16-octet sequence. When no randomness source is available, `random_bytes` throws (`Random\RandomException` from PHP 8.2, `Exception` in 8.1), and then `uuid4` and `uuid7` throw too. Only the successful path is modelled.
- `floor(microtime(true) * 1000)` (src/ID.php:31) is a floating-point clock read. Its result is the parameter `ts: nat`. The float-to-int conversion is not modelled. On 64-bit builds (`PHP_INT_SIZE == 8`), for every non-negative value the shifts and masks of lines 35-40 keep only the low 48 bits, which is what `ts % 2^48` states. A negative clock reading cannot occur and is not modelled.
- 32-bit PHP builds (`PHP_INT_SIZE == 4`) are not modelled. There the millisecond count is out of integer range, and `$ts >> 40` and `$ts >> 32` shift by at least the integer width, so octets 0 and 1 would not be the high timestamp octets that `Fields.TimestampBytes` gives.
- `bin2hex`, `substr` and `sprintf` are described by what they produce: two lowercase digits per octet, then the five groups joined by hyphens. PHP's string functions are not modelled in general.
- `ID::ulid`, `ID::nanoid`, `ID::objectId` and `ID::snowflake` are called by the tests (tests/IDTest.php:23, 29, 35, 42) but are not defined in `src/ID.php`. There is nothing to model, and the tests of them have no counterpart here.
- Uniqueness and collision resistance depend on the randomness source, not on the code. `Uuid.Uuid4Equal` and `Uuid.Uuid7Equal` state exactly which inputs collide.
- Uuid.Uuid7Ordered: the order is stated only for readings below 2^48. From 2^48 on, the stored field wraps around, and the order fails across the wrap. Two calls within the same millisecond are not ordered either: octets 6 to 15 are random and the code keeps no counter, so the optional monotonicity methods of section 6.2 of RFC 9562 are not implemented, and `t1 < t2` is the limit of what the source gives.
