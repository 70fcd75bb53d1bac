/** The generator of Authorize.auz lines: random serial numbers carrying their
    checksums, the generator's configuration, and the fixed list of
    (edition id, version byte) pairs, each rendered through one line template
    and signed. */
module Keygen {
  import opened Results
  import opened Text
  import opened Bits
  import opened Checksum

  // ---------------------------------------------------------------------------
  // Serial numbers

  /** What `__random_serial_num` draws with `randint`: the first group from
      [0x3000, 0x3FFF], the other four from [0, 0xFFFF]. */
  predicate ValidDraw(draw: seq<nat>) {
    |draw| == 5 && 0x3000 <= draw[0] <= 0x3FFF && forall k :: 1 <= k < 5 ==> draw[k] <= 0xFFFF
  }

  /** Groups 0-4 of the serial: draw k with the local checksum of position k. */
  function ChecksummedGroups(draw: seq<nat>): seq<nat> {
    seq(|draw|, k requires 0 <= k < |draw| => LocalChecksum(k, draw[k]))
  }

  /** The six groups of the serial: the checksummed draws, then their global checksum. */
  function SerialGroups(draw: seq<nat>): seq<nat>
    requires |draw| == 5
  {
    var gs := ChecksummedGroups(draw);
    gs + [GlobalChecksum(gs)]
  }

  /** `"{:04X}-{:04X}-{:04X}-{:04X}-{:04X}-{:04X}".format(*groups)`. */
  function FormatSerial(groups: seq<nat>): string {
    Join("-", seq(|groups|, k requires 0 <= k < |groups| => PadHex(groups[k], 4)))
  }

  /** Six blocks of four upper-case hexadecimal digits separated by dashes. */
  predicate IsSerialText(s: string) {
    |s| == 29
    && (forall k :: 0 <= k < 5 ==> s[5 * k + 4] == '-')
    && (forall k :: 0 <= k < 6 ==> IsUpperHexString(s[5 * k .. 5 * k + 4]))
  }

  function BlockValue(s: string, k: nat): nat
    requires IsSerialText(s) && k < 6
  {
    UpperHexIsHex(s[5 * k .. 5 * k + 4]);
    HexValue(s[5 * k .. 5 * k + 4])
  }

  /** Reads a serial back into its six groups. */
  function ParseSerial(s: string): (r: Option<seq<nat>>)
    ensures r.Some? <==> IsSerialText(s)
    ensures r.Some? ==> |r.value| == 6
  {
    if IsSerialText(s) then Some(seq(6, k requires 0 <= k < 6 => BlockValue(s, k))) else None
  }

  /** Six 16-bit groups print as a 29-character serial that reads back as the
      same groups. */
  lemma SerialRoundTrip(groups: seq<nat>)
    requires |groups| == 6 && forall k :: 0 <= k < 6 ==> groups[k] < 0x10000
    ensures |FormatSerial(groups)| == 29 && IsSerialText(FormatSerial(groups))
    ensures ParseSerial(FormatSerial(groups)) == Some(groups)
  {
    var parts := seq(6, k requires 0 <= k < 6 => PadHex(groups[k], 4));
    assert Pow16(4) == 0x10000;
    forall k | 0 <= k < 6
      ensures |parts[k]| == 4 && IsUpperHexString(parts[k])
      ensures IsHexString(parts[k]) && HexValue(parts[k]) == groups[k]
    {
      PadHexLength(groups[k], 4);
      PadHexValue(groups[k], 4);
    }
    JoinBlocks("-", parts);
    var s := FormatSerial(groups);
    assert s == Join("-", parts);
    forall k | 0 <= k < 6
      ensures IsUpperHexString(s[5 * k .. 5 * k + 4])
    {
      assert s[5 * k .. 5 * k + 4] == parts[k];
    }
    assert IsSerialText(s);
    assert ParseSerial(s).value == groups;
  }

  /** Every text that reads as a serial is the printing of what it reads as. */
  lemma SerialParseFormat(s: string)
    requires ParseSerial(s).Some?
    ensures FormatSerial(ParseSerial(s).value) == s
  {
    var gs := ParseSerial(s).value;
    var parts := seq(6, k requires 0 <= k < 6 => PadHex(gs[k], 4));
    forall k | 0 <= k < 6
      ensures parts[k] == s[5 * k .. 5 * k + 4]
    {
      PadHexCanonical(s[5 * k .. 5 * k + 4]);
    }
    JoinUnique("-", parts, s);
  }

  /** The serial's groups for a valid draw: six 16-bit values, the first one
      still in [0x3000, 0x3FFF], the first five each carrying its own local
      checksum, and the sixth the global checksum of the first five. */
  lemma SerialGroupsFacts(draw: seq<nat>)
    requires ValidDraw(draw)
    ensures |SerialGroups(draw)| == 6
    ensures forall k :: 0 <= k < 6 ==> SerialGroups(draw)[k] < 0x10000
    ensures 0x3000 <= SerialGroups(draw)[0] <= 0x3FFF
    ensures forall k :: 0 <= k < 5 ==> SerialGroups(draw)[k] == LocalChecksum(k, draw[k])
    ensures forall k :: 0 <= k < 5 ==>
      LocalChecksum(k, SerialGroups(draw)[k]) == SerialGroups(draw)[k]
    ensures SerialGroups(draw)[5] == GlobalChecksum(SerialGroups(draw)[..5])
  {
    var sg := SerialGroups(draw);
    forall k | 0 <= k < 5
      ensures sg[k] < 0x10000 && LocalChecksum(k, sg[k]) == sg[k]
    {
      LocalChecksumBits(k, draw[k]);
      LocalChecksumIdempotent(k, draw[k]);
    }
    LocalChecksumKeepsFirstRange(draw[0]);
    assert sg[..5] == ChecksummedGroups(draw);
  }

  /** The structure the serial's docstring describes, `3aaA-bbbB-cccC-dddD-eeeE-ZZZZ`:
      six blocks of four upper-case hex digits, the first starting with 3, the
      first five carrying their local checksums, the last the global checksum. */
  predicate IsValidSerial(s: string) {
    match ParseSerial(s)
    case None => false
    case Some(gs) =>
      0x3000 <= gs[0] <= 0x3FFF
      && (forall k :: 0 <= k < 5 ==> LocalChecksum(k, gs[k]) == gs[k])
      && gs[5] == GlobalChecksum(gs[..5])
  }

  /** Every serial the generator prints is valid. */
  lemma GeneratedSerialIsValid(draw: seq<nat>)
    requires ValidDraw(draw)
    ensures IsValidSerial(FormatSerial(SerialGroups(draw)))
  {
    SerialGroupsFacts(draw);
    SerialRoundTrip(SerialGroups(draw));
  }

  /** Every valid serial is printed for some draw: its own first five groups. */
  lemma ValidSerialIsGenerated(s: string)
    requires IsValidSerial(s)
    ensures exists draw :: ValidDraw(draw) && s == FormatSerial(SerialGroups(draw))
  {
    var gs := ParseSerial(s).value;
    var draw := gs[..5];
    assert Pow16(4) == 0x10000;
    forall k | 0 <= k < 6
      ensures gs[k] < 0x10000
    {
      UpperHexIsHex(s[5 * k .. 5 * k + 4]);
    }
    assert ChecksummedGroups(draw) == draw;
    assert SerialGroups(draw) == gs;
    SerialParseFormat(s);
  }

  /** Two draws print the same serial exactly when they agree on bits 4-15 of
      every group: the low nibbles drawn are overwritten. */
  lemma SameSerialIffSameHighBits(d1: seq<nat>, d2: seq<nat>)
    requires ValidDraw(d1) && ValidDraw(d2)
    ensures FormatSerial(SerialGroups(d1)) == FormatSerial(SerialGroups(d2))
        <==> forall k :: 0 <= k < 5 ==> Shr(d1[k], 4) == Shr(d2[k], 4)
  {
    var g1, g2 := SerialGroups(d1), SerialGroups(d2);
    SerialGroupsFacts(d1);
    SerialGroupsFacts(d2);
    SerialRoundTrip(g1);
    SerialRoundTrip(g2);
    forall k | 0 <= k < 5
      ensures g1[k] == g2[k] <==> Shr(d1[k], 4) == Shr(d2[k], 4)
    {
      LocalChecksumSameHighBits(k, d1[k], d2[k]);
    }
    if forall k :: 0 <= k < 5 ==> Shr(d1[k], 4) == Shr(d2[k], 4) {
      assert g1[..5] == g2[..5];
      assert g1 == g2;
    } else {
      var k :| 0 <= k < 5 && Shr(d1[k], 4) != Shr(d2[k], 4);
      assert g1[k] != g2[k];
    }
  }

  /** `__random_serial_num()` for the given draw: the list of draws is
      checksummed in place group by group, then the global checksum is
      appended and the six groups are printed. */
  method RandomSerialNum(draw: seq<nat>) returns (serial: string)
    requires ValidDraw(draw)
    ensures serial == FormatSerial(SerialGroups(draw))
  {
    var groups := new nat[5](k requires 0 <= k < 5 => draw[k]);
    for i := 0 to 5
      invariant forall k :: 0 <= k < i ==> groups[k] == LocalChecksum(k, draw[k])
      invariant forall k :: i <= k < 5 ==> groups[k] == draw[k]
    {
      groups[i] := LocalChecksum(i, groups[i]);
    }
    assert groups[..] == ChecksummedGroups(draw);
    var z := OverallChecksum(groups[..]);
    assert groups[..][..5] == groups[..];
    serial := FormatSerial(groups[..] + [z]);
  }

  // ---------------------------------------------------------------------------
  // Configuration

  /** `AuzGenerator.Editions`. */
  const Editions: map<string, nat> := map["Lite" := 4, "Intro" := 3, "Standard" := 0, "Suite" := 2]

  /** The generator's three fields, which nothing changes after `__init__`. */
  datatype AuzGenerator = AuzGenerator(version: int, edition: nat, hardwareId: string)

  /** The KeyError of the edition lookup. */
  datatype ConfigError = UnknownEdition(name: string)

  function Blocks(u: string): seq<string>
    requires |u| == 24
  {
    seq(6, k requires 0 <= k < 6 => u[4 * k .. 4 * k + 4])
  }

  /** The hardware id as `__init__` stores it: upper-cased, and when that has
      24 characters, cut into six blocks of four joined by dashes. */
  function NormalizeHardwareId(h: string): string {
    var u := UpperString(h);
    if |u| == 24 then Join("-", Blocks(u)) else u
  }

  /** `AuzGenerator(version=..., edition=..., hardware_id=...)`. */
  function NewAuzGenerator(version: int, edition: string, hardwareId: string)
    : (r: Result<AuzGenerator, ConfigError>)
    ensures r.Failure? <==> edition !in {"Lite", "Intro", "Standard", "Suite"}
    ensures r.Failure? ==> r.error == UnknownEdition(edition)
    ensures r.Success? ==> r.value.version == version
    ensures r.Success? ==> r.value.hardwareId == NormalizeHardwareId(hardwareId)
    ensures r.Success? ==> r.value.edition == (if edition == "Lite" then 4
                                               else if edition == "Intro" then 3
                                               else if edition == "Standard" then 0
                                               else 2)
  {
    if edition in Editions then
      Success(AuzGenerator(version, Editions[edition], NormalizeHardwareId(hardwareId)))
    else
      Failure(UnknownEdition(edition))
  }

  /** The hardware id is upper-cased; it is regrouped exactly when it has 24
      characters, into six blocks of its characters with dashes between them. */
  lemma NormalizeHardwareIdShape(h: string)
    ensures |h| != 24 ==> NormalizeHardwareId(h) == UpperString(h)
    ensures |h| == 24 ==> |NormalizeHardwareId(h)| == 29
    ensures |h| == 24 ==> forall k :: 0 <= k < 6 ==>
      NormalizeHardwareId(h)[5 * k .. 5 * k + 4] == UpperString(h)[4 * k .. 4 * k + 4]
    ensures |h| == 24 ==> forall k :: 0 <= k < 5 ==> NormalizeHardwareId(h)[5 * k + 4] == '-'
  {
    if |h| == 24 {
      var u := UpperString(h);
      JoinBlocks("-", Blocks(u));
      forall k | 0 <= k < 6
        ensures NormalizeHardwareId(h)[5 * k .. 5 * k + 4] == u[4 * k .. 4 * k + 4]
      {
        assert Blocks(u)[k] == u[4 * k .. 4 * k + 4];
      }
    }
  }

  /** The normalised id contains no lower-case letter, and normalising it again
      changes nothing. */
  lemma NormalizeHardwareIdIdempotent(h: string)
    ensures forall i :: 0 <= i < |NormalizeHardwareId(h)| ==> !('a' <= NormalizeHardwareId(h)[i] <= 'z')
    ensures NormalizeHardwareId(NormalizeHardwareId(h)) == NormalizeHardwareId(h)
  {
    var u := UpperString(h);
    var n := NormalizeHardwareId(h);
    if |u| == 24 {
      JoinBlocks("-", Blocks(u));
      forall i | 0 <= i < |n|
        ensures !('a' <= n[i] <= 'z')
      {
        var k, d := i / 5, i % 5;
        assert i == 5 * k + d && k < 6;
        if d == 4 {
          assert n[i] == '-';
        } else {
          assert n[5 * k .. 5 * k + 4][d] == n[i];
          assert Blocks(u)[k][d] == u[4 * k + d];
        }
      }
    }
    UpperStringOfUpper(n);
  }

  // ---------------------------------------------------------------------------
  // Signatures

  /** The two integers of a DSA signature, as `decode_dss_signature` returns them. */
  datatype Signature = Signature(r: nat, s: nat)

  /** `f'{r:040X}{s:040X}'`. */
  function EncodeSignature(sig: Signature): string {
    PadHex(sig.r, 40) + PadHex(sig.s, 40)
  }

  /** Reads an 80-digit signature field back into its two integers. */
  function DecodeSignature(t: string): Option<Signature> {
    if |t| == 80 && IsUpperHexString(t) then
      UpperHexIsHex(t[..40]);
      UpperHexIsHex(t[40..]);
      Some(Signature(HexValue(t[..40]), HexValue(t[40..])))
    else None
  }

  lemma {:induction false} Pow16IsPow2(k: nat)
    ensures Pow16(k) == Pow2(4 * k)
  {
    if k > 0 {
      Pow16IsPow2(k - 1);
      var j := 4 * (k - 1);
      assert Pow2(j + 4) == 2 * Pow2(j + 3) == 4 * Pow2(j + 2) == 8 * Pow2(j + 1) == 16 * Pow2(j);
    }
  }

  /** The signature field has exactly 80 characters exactly when both integers
      are below 16^40 = 2^160; a larger one is printed in full. */
  lemma EncodeSignatureLength(sig: Signature)
    ensures Pow16(40) == Pow2(160)
    ensures |EncodeSignature(sig)| == 80 <==> sig.r < Pow16(40) && sig.s < Pow16(40)
  {
    Pow16IsPow2(40);
    PadHexLength(sig.r, 40);
    PadHexLength(sig.s, 40);
  }

  lemma SignatureRoundTrip(sig: Signature)
    requires sig.r < Pow16(40) && sig.s < Pow16(40)
    ensures DecodeSignature(EncodeSignature(sig)) == Some(sig)
  {
    var a, b := PadHex(sig.r, 40), PadHex(sig.s, 40);
    PadHexLength(sig.r, 40);
    PadHexLength(sig.s, 40);
    PadHexValue(sig.r, 40);
    PadHexValue(sig.s, 40);
    UpperHexConcat(a, b);
    var t := EncodeSignature(sig);
    assert t[..40] == a && t[40..] == b;
  }

  lemma SignatureDecodeEncode(t: string)
    requires DecodeSignature(t).Some?
    ensures EncodeSignature(DecodeSignature(t).value) == t
  {
    PadHexCanonical(t[..40]);
    PadHexCanonical(t[40..]);
    assert t == t[..40] + t[40..];
  }

  // ---------------------------------------------------------------------------
  // Lines

  /** The line template `"{},{:02X},{:02X},Standard,{}"` up to its last field. */
  function LinePrefix(serial: string, eid: int, vid: int): string {
    serial + "," + PadHexSigned(eid, 2) + "," + PadHexSigned(vid, 2) + ",Standard,"
  }

  /** The line template filled in. */
  function Authorize(serial: string, eid: int, vid: int, last: string): string {
    LinePrefix(serial, eid, vid) + last
  }

  /** The line `__generate_one(eid, vid)` returns for a given draw: the message
      with the hardware id as last field is signed, and the line is the same
      template with the signature as last field. */
  function SignedLine(gen: AuzGenerator, sign: string -> Signature, eid: int, vid: int, draw: seq<nat>)
    : string
    requires ValidDraw(draw)
  {
    var serial := FormatSerial(SerialGroups(draw));
    Authorize(serial, eid, vid, EncodeSignature(sign(Authorize(serial, eid, vid, gen.hardwareId))))
  }

  /** The line and the signed message agree up to the last field; only that
      field differs, the hardware id in the message and the signature in the
      line, which reads back as the signature when both integers fit in 160 bits. */
  lemma SignedLineShape(gen: AuzGenerator, sign: string -> Signature, eid: int, vid: int, draw: seq<nat>)
    requires ValidDraw(draw)
    ensures var serial := FormatSerial(SerialGroups(draw));
            var message := Authorize(serial, eid, vid, gen.hardwareId);
            var line := SignedLine(gen, sign, eid, vid, draw);
            var p := LinePrefix(serial, eid, vid);
            && line[..29] == serial && IsValidSerial(serial)
            && message == p + gen.hardwareId
            && line == p + EncodeSignature(sign(message))
            && (sign(message).r < Pow16(40) && sign(message).s < Pow16(40) ==>
                  |line| == |p| + 80 && DecodeSignature(line[|p|..]) == Some(sign(message)))
  {
    var serial := FormatSerial(SerialGroups(draw));
    var message := Authorize(serial, eid, vid, gen.hardwareId);
    SerialGroupsFacts(draw);
    SerialRoundTrip(SerialGroups(draw));
    GeneratedSerialIsValid(draw);
    AuthorizeStartsWithSerial(serial, eid, vid, EncodeSignature(sign(message)));
    if sign(message).r < Pow16(40) && sign(message).s < Pow16(40) {
      LastFieldReadsBack(LinePrefix(serial, eid, vid), sign(message));
    }
  }

  lemma AuthorizeStartsWithSerial(serial: string, eid: int, vid: int, last: string)
    requires |serial| == 29
    ensures Authorize(serial, eid, vid, last)[..29] == serial
  {
    assert Authorize(serial, eid, vid, last) == serial + (Authorize(serial, eid, vid, last)[29..]);
  }

  /** A signature field after any prefix reads back as the signature. */
  lemma LastFieldReadsBack(p: string, sig: Signature)
    requires sig.r < Pow16(40) && sig.s < Pow16(40)
    ensures |p + EncodeSignature(sig)| == |p| + 80
    ensures DecodeSignature((p + EncodeSignature(sig))[|p|..]) == Some(sig)
  {
    EncodeSignatureLength(sig);
    SignatureRoundTrip(sig);
    assert (p + EncodeSignature(sig))[|p|..] == EncodeSignature(sig);
  }

  /** `{:02X}` is a minimum width: ids below 0x100 take two digits, ids from
      0x1000 to 0xFFFF four, and every id reads back as itself. */
  lemma IdFieldWidth(id: nat)
    ensures IsHexString(PadHexSigned(id, 2)) && HexValue(PadHexSigned(id, 2)) == id
    ensures id < 0x100 ==> |PadHexSigned(id, 2)| == 2
    ensures 0x100 <= id < 0x1000 ==> |PadHexSigned(id, 2)| == 3
    ensures 0x1000 <= id < 0x10000 ==> |PadHexSigned(id, 2)| == 4
  {
    assert Pow16(1) == 0x10 && Pow16(2) == 0x100 && Pow16(3) == 0x1000 && Pow16(4) == 0x10000;
    PadHexSignedValue(id, 2);
    PadHexLength(id, 2);
    if 0x100 <= id < 0x1000 {
      DigitsExactLength(id, 3);
    } else if 0x1000 <= id < 0x10000 {
      DigitsExactLength(id, 4);
    }
  }

  /** A negative version makes `version << 4` negative, which `{:02X}` prints
      with a sign: version -1 gives the field "-10". */
  lemma NegativeVersionField()
    ensures PadHexSigned(-1 * 16, 2) == "-10"
  {
    assert Digits(16) == "10";
  }

  /** `list(range(lo, hi))`. */
  function Range(lo: int, hi: int): seq<int> {
    seq(if lo <= hi then hi - lo else 0, k => lo + k)
  }

  /** The edition ids of the lines after the first:
      `list(range(0x40, 0xff + 1)) + list(range(0x8000, 0x80ff + 1))`. */
  function NewEids(): seq<int> {
    Range(0x40, 0xFF + 1) + Range(0x8000, 0x80FF + 1)
  }

  /** The (eid, vid) pair of each line `generate` yields, in order: the
      configured edition with `version << 4` (that is, version * 16), then
      every id of NewEids with version byte 0x10. */
  function LinePairs(gen: AuzGenerator): seq<(int, int)> {
    [(gen.edition, gen.version * 16)] + seq(|NewEids()|, k requires 0 <= k < |NewEids()| => (NewEids()[k], 0x10))
  }

  /** There are 1 + 192 + 256 = 449 lines: first the configured pair, then
      0x40 to 0xFF, then 0x8000 to 0x80FF, in ascending order, all with 0x10. */
  lemma LinePairsShape(gen: AuzGenerator)
    ensures |LinePairs(gen)| == 449
    ensures LinePairs(gen)[0] == (gen.edition, gen.version * 16)
    ensures forall k :: 1 <= k <= 192 ==> LinePairs(gen)[k] == (0x3F + k, 0x10)
    ensures forall k :: 193 <= k < 449 ==> LinePairs(gen)[k] == (0x8000 + (k - 193), 0x10)
    ensures forall j, k :: 1 <= j < k < 449 ==> LinePairs(gen)[j].0 < LinePairs(gen)[k].0
  {
  }

  /** The length alone, which keeps the proof of Generate small. */
  lemma LinePairsLength(gen: AuzGenerator)
    ensures |LinePairs(gen)| == 449
  {
  }

  /** With an edition from the table, every line has a different edition id. */
  lemma LineEidsDistinct(gen: AuzGenerator)
    requires gen.edition < 0x40
    ensures forall j, k :: 0 <= j < k < |LinePairs(gen)| ==> LinePairs(gen)[j].0 != LinePairs(gen)[k].0
  {
    LinePairsShape(gen);
  }

  /** `__generate_one(eid, vid)` with the given draw for its serial number. */
  method GenerateOne(gen: AuzGenerator, sign: string -> Signature, eid: int, vid: int, draw: seq<nat>)
    returns (line: string)
    requires ValidDraw(draw)
    ensures line == SignedLine(gen, sign, eid, vid, draw)
  {
    var serialNo := RandomSerialNum(draw);
    var message := Authorize(serialNo, eid, vid, gen.hardwareId);
    var signature := EncodeSignature(sign(message));
    line := Authorize(serialNo, eid, vid, signature);
  }

  /** The line f makes from each pair and the draw at the same position, in order. */
  function MapLines(f: ((int, int), seq<nat>) -> string, pairs: seq<(int, int)>, draws: seq<seq<nat>>)
    : (lines: seq<string>)
    requires |pairs| == |draws|
    ensures |lines| == |pairs|
  {
    if pairs == [] then []
    else
      var n := |pairs| - 1;
      MapLines(f, pairs[..n], draws[..n]) + [f(pairs[n], draws[n])]
  }

  lemma {:induction false} MapLinesAt(f: ((int, int), seq<nat>) -> string, pairs: seq<(int, int)>, draws: seq<seq<nat>>)
    requires |pairs| == |draws|
    ensures forall k :: 0 <= k < |pairs| ==> MapLines(f, pairs, draws)[k] == f(pairs[k], draws[k])
  {
    if pairs != [] {
      var n := |pairs| - 1;
      MapLinesAt(f, pairs[..n], draws[..n]);
      forall k | 0 <= k < n
        ensures MapLines(f, pairs, draws)[k] == f(pairs[k], draws[k])
      {
        assert pairs[..n][k] == pairs[k] && draws[..n][k] == draws[k];
      }
    }
  }

  /** Extending the pairs and the draws by one position extends the lines by one. */
  lemma MapLinesSnoc(f: ((int, int), seq<nat>) -> string, pairs: seq<(int, int)>, draws: seq<seq<nat>>, k: nat)
    requires k < |pairs| == |draws|
    ensures MapLines(f, pairs[..k + 1], draws[..k + 1]) == MapLines(f, pairs[..k], draws[..k]) + [f(pairs[k], draws[k])]
  {
    assert pairs[..k + 1][..k] == pairs[..k] && draws[..k + 1][..k] == draws[..k];
  }

  /** `generate(key=...)`, with the yielded lines collected in order; draw k
      is the one line k's serial number is made from. */
  method Generate(gen: AuzGenerator, sign: string -> Signature, draws: seq<seq<nat>>)
    returns (lines: seq<string>)
    requires |draws| == 449 && forall k :: 0 <= k < |draws| ==> ValidDraw(draws[k])
    ensures |lines| == 449
    ensures forall k :: 0 <= k < 449 ==>
      lines[k] == SignedLine(gen, sign, LinePairs(gen)[k].0, LinePairs(gen)[k].1, draws[k])
  {
    var pairs := LinePairs(gen);
    ghost var f := (p: (int, int), d: seq<nat>) => if ValidDraw(d) then SignedLine(gen, sign, p.0, p.1, d) else "";
    LinePairsLength(gen);
    lines := [];
    for k := 0 to |pairs|
      invariant lines == MapLines(f, pairs[..k], draws[..k])
    {
      var line := GenerateOne(gen, sign, pairs[k].0, pairs[k].1, draws[k]);
      MapLinesSnoc(f, pairs, draws, k);
      lines := lines + [line];
    }
    assert pairs[..449] == pairs && draws[..449] == draws;
    MapLinesAt(f, pairs, draws);
  }
}
