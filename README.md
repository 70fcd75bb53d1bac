# Ableton keygen and patcher, modelled in Dafny

This project models the two core components of the `ableton` tool.

- **Keygen** (`keygen.py`). The `AuzGenerator` builds the lines of an
  `Authorize.auz` file. Each line is the template
  `serial,EID,VID,Standard,last` with these fields:
  - a random serial number of the form `3aaA-bbbB-cccC-dddD-eeeE-ZZZZ`;
  - an edition id and a version byte, each printed with `{:02X}`;
  - a last field, which is the hardware id in the message that is signed and
    the 80-digit DSA signature in the line.

  A serial number carries a local checksum in the low nibble of each of its
  first five groups and a global checksum, a CRC with polynomial 0x8005, as
  its sixth group. The generator yields 449 lines:
  - one for the configured edition and `version << 4`;
  - one for every edition id from 0x40 to 0xFF and from 0x8000 to 0x80FF,
    each with version byte 0x10.
- **Patcher** (`patcher.py`). The `Patcher` checks that two hexadecimal keys,
  the factory key and the signing key, have the same length and decode. It
  then replaces one with the other in the bytes of the executable. Before
  writing, it checks that the key was present and that it no longer appears
  after the replacement.

The project has six modules:
- `results.dfy` holds `Option` and `Result`.
- `text.dfy` holds hexadecimal printing and parsing, `str.join` and
  `str.upper`.
- `bits.dfy` holds Python's `<<`, `>>`, `&`, `|` and `^` on non-negative
  unbounded integers, defined bit by bit.
- `checksum.dfy` holds the two checksums.
- `keygen.dfy` holds serial numbers, the configuration, signatures and line
  generation.
- `patching.dfy` holds key validation and the patch step.

The serial number, the global checksum and the list of lines are built
imperatively, as in the source:
- `RandomSerialNum` checksums an array of groups in place.
- `OverallChecksum` runs the two nested loops on an accumulator that is
  masked only at the end.
- `Generate` collects the lines one by one.

Each of these methods is proved equal to a functional reference:
- `SerialGroups` for the groups of the serial;
- `GlobalChecksum`, a CRC masked after every step;
- `SignedLine` for each line.

Randomness and signing are parameters:
- A draw of five integers stands for the `randint` calls of one serial.
- A function `sign: string -> Signature` stands for DSA signing with SHA-1
  under the given key.

## Model

| member | source | states |
|---|---|---|
| Checksum.LocalNibble | ableton/ableton/keygen.py:89-94 | the checksum nibble, the XOR of the five shifted and masked slices of the group with the position; its properties are stated by NibbleBound and NibbleReadsHighBits |
| Checksum.LocalChecksum | ableton/ableton/keygen.py:89-95 | `group & 0xfff0 \| checksum`; its properties are stated by LocalChecksumSplit, LocalChecksumBits, LocalChecksumIdempotent, LocalChecksumSameHighBits and LocalChecksumKeepsFirstRange |
| Checksum.NibbleBound | ableton/ableton/keygen.py:89-94 | for a position below 16, the XOR of the five masked slices of the group and the position fits in four bits |
| Checksum.LocalChecksumSplit | ableton/ableton/keygen.py:85-95 | for a 16-bit group, `group & 0xfff0 \| checksum` equals 16 * (group >> 4) plus the checksum nibble |
| Checksum.LocalChecksumBits | ableton/ableton/keygen.py:85-95 | the local checksum changes only the low nibble: the result is 16-bit, bits 4-15 are kept, and the low nibble is the checksum |
| Checksum.NibbleReadsHighBits | ableton/ableton/keygen.py:89-94 | the checksum nibble depends only on bits 4 and up of the group |
| Checksum.LocalChecksumIdempotent | ableton/ableton/keygen.py:89-95 | applying the local checksum to its own output returns that output |
| Checksum.LocalChecksumSameHighBits | ableton/ableton/keygen.py:89-95 | two 16-bit groups get the same checksummed value if and only if they agree on bits 4-15 |
| Checksum.LocalChecksumKeepsFirstRange | ableton/ableton/keygen.py:79-81 | a first group drawn from [0x3000, 0x3FFF] stays in that range after its checksum, so the serial starts with 3 |
| Checksum.Step | ableton/ableton/keygen.py:107-108 | one unmasked shift-and-reduce step of the inner loop; StepLowBits and MaskedStepLowBits state that masking it every step or once at the end agree |
| Checksum.MaskedStep | ableton/ableton/keygen.py:106-109 | one shift-and-reduce step, masked to 16 bits, is below 0x10000 |
| Checksum.Crc | ableton/ableton/keygen.py:101-109 | the reference CRC of a byte sequence, fed first to last from 0, is a 16-bit value |
| Checksum.ChecksumBytesAt | ableton/ableton/keygen.py:102-104 | byte 4k+d of the CRC input is byte d of group k, least significant first (`divmod(i, 4)`) |
| Checksum.GroupBytesOf16Bits | ableton/ableton/keygen.py:103-104 | a 16-bit group contributes its low byte, its high byte and two zero bytes |
| Checksum.ChecksumBytesOf16Bits | ableton/ableton/keygen.py:102-104 | the same fact, at each group's position in the 20-byte input |
| Checksum.StepLowBits | ableton/ableton/keygen.py:106-108 | the low 16 bits after an unmasked step depend only on the low 16 bits before it, so masking once at the end is the same as masking every step |
| Checksum.MaskedStepLowBits | ableton/ableton/keygen.py:106-109 | the masked step equals the low 16 bits of the unmasked step |
| Checksum.OverallChecksum | ableton/ableton/keygen.py:97-109 | the nested loops on an accumulator masked only by the final `& 0xffff` return the reference CRC of the 20 bytes of the first five groups, a value below 0x10000 |
| Keygen.FormatSerial | ableton/ableton/keygen.py:83 | six `{:04X}` fields joined by dashes; SerialRoundTrip, SerialParseFormat and GeneratedSerialIsValid state its shape and that ParseSerial inverts it |
| Keygen.ParseSerial | ableton/ableton/keygen.py:83 | reading back a serial's text yields six groups exactly when it has the serial's shape |
| Keygen.SerialRoundTrip | ableton/ableton/keygen.py:83 | six 16-bit groups print as a 29-character serial of six upper-case 4-digit blocks that reads back as the same groups |
| Keygen.SerialParseFormat | ableton/ableton/keygen.py:83 | every text that reads as six groups is exactly the printing of those groups |
| Keygen.SerialGroupsFacts | ableton/ableton/keygen.py:79-83 | the serial's groups for a valid draw: six 16-bit values, the first in [0x3000, 0x3FFF], groups 0-4 the draws with their local checksums and fixed points of them, group 5 the global checksum of groups 0-4 |
| Keygen.GeneratedSerialIsValid | ableton/ableton/keygen.py:72-83 | every serial printed from a valid draw has the documented structure `3aaA-bbbB-cccC-dddD-eeeE-ZZZZ` |
| Keygen.ValidSerialIsGenerated | ableton/ableton/keygen.py:74-83 | conversely, every text with that structure is printed for some valid draw |
| Keygen.SameSerialIffSameHighBits | ableton/ableton/keygen.py:79-83 | two valid draws print the same serial if and only if they agree on bits 4-15 of all five groups |
| Keygen.RandomSerialNum | ableton/ableton/keygen.py:72-83 | checksumming the five groups in place and appending the overall checksum prints the serial of the reference groups of the draw |
| Keygen.NewAuzGenerator | ableton/ableton/keygen.py:43-55 | construction fails exactly for an edition name outside the table (the KeyError); otherwise it keeps the version, maps Lite/Intro/Standard/Suite to 4/3/0/2 through the table `Editions` and stores the normalised hardware id |
| Keygen.NormalizeHardwareId | ableton/ableton/keygen.py:53-55 | upper-cases the id and cuts a 24-character id into six dash-separated blocks; NormalizeHardwareIdShape and NormalizeHardwareIdIdempotent state its result |
| Keygen.NormalizeHardwareIdShape | ableton/ableton/keygen.py:53-55 | an id whose length is not 24 is only upper-cased; a 24-character id becomes 29 characters, six 4-character blocks of its upper-cased characters in order with dashes between them |
| Keygen.NormalizeHardwareIdIdempotent | ableton/ableton/keygen.py:53-55 | the stored id has no lower-case letter, and normalising it again changes nothing |
| Keygen.EncodeSignature | ableton/ableton/keygen.py:117 | the two integers of the signature as `{:040X}` fields; EncodeSignatureLength, SignatureRoundTrip and SignatureDecodeEncode state its length and that it reads back |
| Keygen.EncodeSignatureLength | ableton/ableton/keygen.py:117 | the signature field is 80 characters if and only if both integers are below 2^160 (`{:040X}` is a minimum width) |
| Keygen.SignatureRoundTrip | ableton/ableton/keygen.py:117 | for integers below 16^40, the 80-digit field reads back as the same (r, s) |
| Keygen.SignatureDecodeEncode | ableton/ableton/keygen.py:117 | every 80-digit upper-case field that reads as (r, s) is exactly the printing of (r, s) |
| Keygen.SignedLineShape | ableton/ableton/keygen.py:61-66 | a line and the message signed for it share the serial, ids and "Standard" field; the message ends in the hardware id, the line in the encoded signature of that message, which reads back when it fits in 160 bits; the serial is valid |
| Keygen.LinePrefix | ableton/ableton/keygen.py:62 | the template up to its last field, ids printed with `{:02X}`; IdFieldWidth states the widths of the id fields |
| Keygen.Authorize | ableton/ableton/keygen.py:62 | the template filled in; AuthorizeStartsWithSerial, LastFieldReadsBack and SignedLineShape state where the serial and the last field are |
| Keygen.AuthorizeStartsWithSerial | ableton/ableton/keygen.py:62 | a line of the template begins with its 29-character serial |
| Keygen.LastFieldReadsBack | ableton/ableton/keygen.py:62-66 | after any prefix, the signature field is 80 characters and reads back as the signature |
| Keygen.IdFieldWidth | ableton/ableton/keygen.py:62 | `{:02X}` on a non-negative id reads back as the id; it has two digits below 0x100, three up to 0xFFF and four up to 0xFFFF |
| Keygen.NegativeVersionField | ableton/ableton/keygen.py:68 | a negative version prints with a sign: version -1 gives the field "-10" |
| Keygen.LinePairs | ableton/ableton/keygen.py:68-69 | the (eid, vid) pairs in yield order; LinePairsShape and LineEidsDistinct state their number, order and distinctness |
| Keygen.LinePairsShape | ableton/ableton/keygen.py:68-70 | there are 449 (eid, vid) pairs: the configured edition with version * 16, then 0x40..0xFF and 0x8000..0x80FF in ascending order with 0x10 |
| Keygen.LineEidsDistinct | ableton/ableton/keygen.py:68-70 | with an edition from the table, no two lines share an edition id |
| Keygen.GenerateOne | ableton/ableton/keygen.py:61-66 | `__generate_one` formats the message, signs it and formats the line, giving the reference signed line for its draw |
| Keygen.MapLinesAt | ableton/ableton/keygen.py:68-70 | line k of the collected lines is made from pair k and draw k |
| Keygen.Generate | ableton/ableton/keygen.py:57-70 | `generate` yields 449 lines, line k being the signed line for pair k of the fixed list and draw k |
| Text.PadHex | ableton/ableton/keygen.py:83 | `{:0wX}` on a non-negative number is an upper-case hex string; PadHexValue, PadHexLength and PadHexCanonical state its value and width |
| Text.PadHexValue | ableton/ableton/keygen.py:83 | `{:0wX}` prints upper-case hex digits that read back as the number |
| Text.PadHexLength | ableton/ableton/keygen.py:83 | the printed width is exactly w for numbers below 16^w; larger numbers are printed in full, with more than w digits |
| Text.PadHexCanonical | ableton/ableton/keygen.py:83 | every upper-case hex string is the `{:0wX}` printing of its own value at its own width |
| Text.PadHexSigned | ableton/ableton/keygen.py:62 | `{:0wX}` on any integer, with a sign for negative ones; PadHexSignedValue and NegativeVersionField state the negative case |
| Text.PadHexSignedValue | ableton/ableton/keygen.py:62 | `{:02X}` on a negative number prints '-' and then the digits of its magnitude |
| Text.Join | ableton/ableton/keygen.py:55 | `sep.join(parts)`; JoinBlocks and JoinUnique state the layout of the joined text |
| Text.JoinBlocks | ableton/ableton/keygen.py:55 | joining n 4-character blocks with a 1-character separator gives 5n - 1 characters, with block k at position 5k |
| Text.JoinUnique | ableton/ableton/keygen.py:55 | that joined text is the only one with those blocks at those positions and the separator between them |
| Text.UpperString | ableton/ableton/keygen.py:53 | `str.upper` keeps the length and leaves no lower-case ASCII letter; UpperStringIdempotent states that it is idempotent |
| Text.UpperStringIdempotent | ableton/ableton/keygen.py:53 | upper-casing twice is upper-casing once |
| Patching.FromHex | ableton/ableton/patcher.py:25 | `bytes.fromhex` succeeds exactly on hex strings of even length and gives half as many bytes |
| Patching.FromHexValues | ableton/ableton/patcher.py:25 | byte i of the decoded key is the value of hex digits 2i and 2i + 1, read in either case |
| Patching.HexRoundTrip | ableton/ableton/patcher.py:25 | decoding the hex printing of any bytes gives the same bytes |
| Patching.LowerHexRoundTrip | ableton/ableton/patcher.py:25 | decoding a lower-case hex string of even length and printing it again gives the string |
| Patching.MatchesForm | ableton/ableton/patcher.py:23 | the pattern `[0-9a-fA-f]+` as written; KeyChecks, FormAdmitsUndecodable and FormSameKeysAsHexForm state what it lets through |
| Patching.KeyChecks | ableton/ableton/patcher.py:22-28 | the pattern check and the decoding together accept exactly the non-empty hex strings of even length |
| Patching.FormAdmitsUndecodable | ableton/ableton/patcher.py:23-25 | the pattern as written, `[0-9a-fA-f]+`, lets "G0" and "_0" through, which decoding then rejects, and lets odd lengths through too |
| Patching.FormSameKeysAsHexForm | ableton/ableton/patcher.py:23-25 | after decoding, `[0-9a-fA-f]+` accepts the same keys as `[0-9a-fA-F]+`, that is the non-empty hex strings; a key with a non-hex character that the pattern admits always fails to decode |
| Patching.NewPatcher | ableton/ableton/patcher.py:15-28 | construction reports the first failing check in order (length mismatch, then factory pattern, factory decoding, signing pattern, signing decoding); it succeeds exactly when the lengths agree and both keys decode, storing both keys decoded with equal non-zero byte lengths |
| Patching.Contains | ableton/ableton/patcher.py:42 | `key in content`; ContainsIffOccurs and ContainsEmpty state when it holds |
| Patching.ContainsIffOccurs | ableton/ableton/patcher.py:42 | `fk in content` holds exactly when the key occurs at some position |
| Patching.ContainsEmpty | ableton/ableton/patcher.py:42 | the empty key is contained in every byte string |
| Patching.Replace | ableton/ableton/patcher.py:45 | `content.replace(fk, sk)`; ReplaceFirst, ReplaceAbsent, ReplaceLength, ReplacePresent, ReplaceWithItself and ReplacementPresent state its result |
| Patching.ReplaceFirst | ableton/ableton/patcher.py:45 | with the first occurrence at i, the result is the bytes before i, the substitute, and the replaced rest after the occurrence: occurrences are taken left to right without overlap |
| Patching.ReplaceLength | ableton/ableton/patcher.py:45 | replacing with a key of the same non-zero length keeps the length of the content |
| Patching.ReplaceAbsent | ableton/ableton/patcher.py:45 | without an occurrence, `replace` leaves the content unchanged |
| Patching.ReplacePresent | ableton/ableton/patcher.py:45 | with an occurrence and a different key of the same length, `replace` changes the content |
| Patching.ReplaceWithItself | ableton/ableton/patcher.py:45 | replacing a key with itself changes nothing |
| Patching.ReplacementPresent | ableton/ableton/patcher.py:45 | after a replacement that found an occurrence, the substitute occurs |
| Patching.ReplaceLeftToRight | ableton/ableton/patcher.py:45 | an example of the rule ReplaceFirst states: [1,1,1] with [1,1] replaced by [2,2] is [2,2,1], not [1,2,2] |
| Patching.ReplacementCanRecreateKey | ableton/ableton/patcher.py:45-48 | a replacement can create the key anew across a boundary, which is what the recheck catches |
| Patching.Patch | ableton/ableton/patcher.py:30-51 | `patch(revert)` searches for the factory key, or the signing key when reverting; fails with "not found" exactly when the key is absent and with "still present" exactly when it reappears after the replacement; succeeds exactly when the key is present before and absent after the replacement, and then returns the replaced content, which lacks the key and, for keys of equal length, keeps the content's length |
| Patching.SameKeysNeverPatch | ableton/ableton/patcher.py:42-48 | with equal keys, `patch` always fails: either the key is absent or it is still present after the replacement |

## Left out

- DSA signing with SHA-1 and `decode_dss_signature` are a parameter `sign: string -> Signature`: the cryptography library is not part of this model, and neither is the random nonce of DSA.
- `DSAParams` (`int(param, 16)` and `construct`) is left out: it only builds the private key for the signing library.
- `randint` is modelled by draws passed in, one list of five integers per serial, constrained to the source's ranges by `ValidDraw`.
- File I/O in `patch` (`Path`, `open`, `read`, `write`) is left out: `Patch` takes the executable's bytes and returns the bytes to write.
- `__main__.py`, the command-line front end, is not part of this model.
- `str.upper` is modelled for ASCII letters only: Unicode case mapping, including characters whose upper-case form is longer, is not modelled.
- `bytes.fromhex` skips whitespace between byte pairs; the model does not, because the key pattern already rejects whitespace before decoding.
- Generate: returns the 449 lines as one list instead of yielding them lazily, and merges the first `yield` into the loop over `LinePairs`.
- AuzGenerator and Patcher are datatypes, not classes, because nothing changes their fields after `__init__`; their constructors are the functions `NewAuzGenerator` and `NewPatcher`.
- `version << 4` is modelled as `version * 16`, which is what Python's shift gives for every integer, negative ones included.
- Checksum.LocalChecksumSplit: stated only for groups below 0x10000 and positions below 16, which is every call the source makes.
- Checksum.LocalChecksumBits: stated only for groups below 0x10000 and positions below 16.
- Checksum.LocalChecksumIdempotent: stated only for groups below 0x10000 and positions below 16.
- Checksum.LocalChecksumSameHighBits: stated only for groups below 0x10000 and positions below 16.
- Checksum.OverallChecksum: requires at least five groups, where the source would raise IndexError on fewer; it is only ever called with five.
