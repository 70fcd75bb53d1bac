/** The two checksums embedded in an Ableton serial number: the local checksum
    that overwrites the low nibble of each of the first five groups, and the
    global checksum, a CRC with polynomial 0x8005 over the bytes of those five
    groups, which becomes the sixth group. Numbers are Python integers:
    unbounded and non-negative here. */
module Checksum {
  import opened Bits

  // ---------------------------------------------------------------------------
  // Local checksum

  /** The 4-bit checksum of group g at position i: five bit-slices of g XORed
      together and with i (`>>` binds tighter than `&`, `&` tighter than `^`). */
  function LocalNibble(i: nat, g: nat): nat {
    Xor(Xor(Xor(Xor(Xor(And(Shr(g, 4), 0xF), And(Shr(g, 5), 0x8)), And(Shr(g, 9), 0x7)),
                And(Shr(g, 11), 0xE)), And(Shr(g, 15), 0x1)), i)
  }

  /** `__local_checksum(i, group)`: bits 4-15 of the group, with the checksum or-ed in. */
  function LocalChecksum(i: nat, g: nat): nat {
    Or(And(g, 0xFFF0), LocalNibble(i, g))
  }

  /** For a position below 16 the checksum fits in a nibble. */
  lemma NibbleBound(i: nat, g: nat)
    requires i < 16
    ensures LocalNibble(i, g) < 16
  {
    var a, b, c := And(Shr(g, 4), 0xF), And(Shr(g, 5), 0x8), And(Shr(g, 9), 0x7);
    var d, e := And(Shr(g, 11), 0xE), And(Shr(g, 15), 0x1);
    AndAtMost(Shr(g, 4), 0xF);
    AndAtMost(Shr(g, 5), 0x8);
    AndAtMost(Shr(g, 9), 0x7);
    AndAtMost(Shr(g, 11), 0xE);
    AndAtMost(Shr(g, 15), 0x1);
    Pow2Values();
    XorBound(a, b, 4);
    XorBound(Xor(a, b), c, 4);
    XorBound(Xor(Xor(a, b), c), d, 4);
    XorBound(Xor(Xor(Xor(a, b), c), d), e, 4);
    XorBound(Xor(Xor(Xor(Xor(a, b), c), d), e), i, 4);
  }

  /** For a 16-bit group and a position below 16, the result is bits 4-15 of
      the group followed by the checksum nibble. */
  lemma LocalChecksumSplit(i: nat, g: nat)
    requires i < 16 && g < 0x10000
    ensures LocalChecksum(i, g) == 16 * Shr(g, 4) + LocalNibble(i, g)
  {
    var h := Shr(g, 4);
    Pow2Values();
    ShlMul(0xFFF, 4);
    AndShl(g, 0xFFF, 4);
    AndMask(h, 12);
    ShrBound(g, 4, 12);
    LowBitsOfSmall(h, 12);
    NibbleBound(i, g);
    OrShl(h, LocalNibble(i, g), 4);
    ShlMul(h, 4);
  }

  /** `__local_checksum` changes only the low four bits of a 16-bit group: bits
      4-15 are kept, the low nibble becomes the checksum, and the result is
      still a 16-bit value. */
  lemma LocalChecksumBits(i: nat, g: nat)
    requires i < 16 && g < 0x10000
    ensures LocalChecksum(i, g) < 0x10000
    ensures Shr(LocalChecksum(i, g), 4) == Shr(g, 4)
    ensures And(LocalChecksum(i, g), 0xF) == LocalNibble(i, g)
  {
    var h, n := Shr(g, 4), LocalNibble(i, g);
    LocalChecksumSplit(i, g);
    Pow2Values();
    ShrBound(g, 4, 12);
    NibbleBound(i, g);
    ShlMul(h, 4);
    ShlSplit(h, n, 4);
    AndMask(LocalChecksum(i, g), 4);
  }

  /** The checksum reads bits 4 and upwards of the group only. */
  lemma NibbleReadsHighBits(i: nat, g: nat, h: nat)
    requires Shr(g, 4) == Shr(h, 4)
    ensures LocalNibble(i, g) == LocalNibble(i, h)
  {
    ShrShr(g, 4, 1);
    ShrShr(h, 4, 1);
    ShrShr(g, 4, 5);
    ShrShr(h, 4, 5);
    ShrShr(g, 4, 7);
    ShrShr(h, 4, 7);
    ShrShr(g, 4, 11);
    ShrShr(h, 4, 11);
  }

  /** Reapplying the local checksum to its own output returns the same group. */
  lemma LocalChecksumIdempotent(i: nat, g: nat)
    requires i < 16 && g < 0x10000
    ensures LocalChecksum(i, LocalChecksum(i, g)) == LocalChecksum(i, g)
  {
    var c := LocalChecksum(i, g);
    LocalChecksumBits(i, g);
    NibbleReadsHighBits(i, c, g);
    LocalChecksumSplit(i, g);
    LocalChecksumSplit(i, c);
  }

  /** Two 16-bit groups get the same checksummed value exactly when they agree
      on bits 4-15. */
  lemma LocalChecksumSameHighBits(i: nat, g: nat, h: nat)
    requires i < 16 && g < 0x10000 && h < 0x10000
    ensures LocalChecksum(i, g) == LocalChecksum(i, h) <==> Shr(g, 4) == Shr(h, 4)
  {
    LocalChecksumSplit(i, g);
    LocalChecksumSplit(i, h);
    NibbleBound(i, g);
    NibbleBound(i, h);
    if Shr(g, 4) == Shr(h, 4) {
      NibbleReadsHighBits(i, g, h);
    }
  }

  /** A first group drawn from [0x3000, 0x3FFF] stays in that range. */
  lemma LocalChecksumKeepsFirstRange(g: nat)
    requires 0x3000 <= g <= 0x3FFF
    ensures 0x3000 <= LocalChecksum(0, g) <= 0x3FFF
  {
    LocalChecksumSplit(0, g);
    NibbleBound(0, g);
    ShrMono(0x3000, g, 4);
    ShrMono(g, 0x3FFF, 4);
    assert Shr(0x3000, 4) == 0x300 && Shr(0x3FFF, 4) == 0x3FF;
  }

  // ---------------------------------------------------------------------------
  // Global checksum: the reference, masked to 16 bits after every step

  /** One step of the inner loop on the accumulator: `r <<= 1`, then
      `r ^= 0x8005` when bit 16 is set. */
  function Step(r: nat): nat {
    var t := Shl(r, 1);
    if And(t, 0x10000) != 0 then Xor(t, 0x8005) else t
  }

  /** The step followed by `& 0xffff`. */
  function MaskedStep(r: nat): (s: nat)
    ensures s < 0x10000
  {
    AndAtMost(Step(r), 0xFFFF);
    And(Step(r), 0xFFFF)
  }

  function MaskedSteps(r: nat, n: nat): nat {
    if n == 0 then r else MaskedStep(MaskedSteps(r, n - 1))
  }

  /** Feed one byte of a 16-bit CRC value: XOR it into bits 8-15, then eight
      masked steps. */
  function CrcByte(c: nat, b: nat): (d: nat)
    ensures d < 0x10000
  {
    MaskedSteps(Xor(c, Shl(b, 8)), 8)
  }

  /** The 16-bit CRC, initial value 0, of a byte sequence fed first to last. */
  function Crc(bytes: seq<nat>): (c: nat)
    ensures c < 0x10000
  {
    if bytes == [] then 0 else CrcByte(Crc(bytes[..|bytes| - 1]), bytes[|bytes| - 1])
  }

  /** The four bytes of a group, least significant first (bits 0-7, 8-15,
      16-23 and 24-31). */
  function GroupBytes(g: nat): seq<nat> {
    [LowBits(g, 8), LowBits(Shr(g, 8), 8), LowBits(Shr(g, 16), 8), LowBits(Shr(g, 24), 8)]
  }

  function ChecksumBytes(groups: seq<nat>): (bs: seq<nat>)
    ensures |bs| == 4 * |groups|
  {
    if groups == [] then [] else GroupBytes(groups[0]) + ChecksumBytes(groups[1..])
  }

  /** The global checksum of the groups: the CRC of their bytes. */
  function GlobalChecksum(groups: seq<nat>): nat {
    Crc(ChecksumBytes(groups))
  }

  /** Bytes 4k to 4k+3 of the checksum input are those of group k. */
  lemma {:induction false} ChecksumBytesAt(groups: seq<nat>, k: nat, d: nat)
    requires k < |groups| && d < 4
    ensures ChecksumBytes(groups)[4 * k + d] == GroupBytes(groups[k])[d]
    decreases k
  {
    if k > 0 {
      ChecksumBytesAt(groups[1..], k - 1, d);
      assert ChecksumBytes(groups)[4 * k + d] == ChecksumBytes(groups[1..])[4 * (k - 1) + d];
    }
  }

  /** A 16-bit group contributes its low byte, its high byte, then two zero bytes. */
  lemma GroupBytesOf16Bits(g: nat)
    requires g < 0x10000
    ensures GroupBytes(g) == [g % 256, g / 256, 0, 0]
  {
    var h, l := g / 256, g % 256;
    assert Pow2(8) == 256;
    ShlMul(h, 8);
    ShlSplit(h, l, 8);
    LowBitsOfSmall(h, 8);
    ShrShr(g, 8, 8);
    ShrSmall(h, 8);
    ShrShr(g, 16, 8);
    ShrSmall(0, 8);
    LowBitsOfSmall(0, 8);
  }

  /** So each 16-bit group feeds its low byte, then its high byte, then two zero
      bytes into the global checksum. */
  lemma ChecksumBytesOf16Bits(groups: seq<nat>, k: nat)
    requires k < |groups| && groups[k] < 0x10000
    ensures ChecksumBytes(groups)[4 * k] == groups[k] % 256
    ensures ChecksumBytes(groups)[4 * k + 1] == groups[k] / 256
    ensures ChecksumBytes(groups)[4 * k + 2] == 0 && ChecksumBytes(groups)[4 * k + 3] == 0
  {
    GroupBytesOf16Bits(groups[k]);
    ChecksumBytesAt(groups, k, 0);
    ChecksumBytesAt(groups, k, 1);
    ChecksumBytesAt(groups, k, 2);
    ChecksumBytesAt(groups, k, 3);
  }

  // ---------------------------------------------------------------------------
  // Global checksum: the source's loop, with the accumulator left unmasked

  /** Bit 16 after the shift is the old bit 15, and nothing above bit 15 reaches
      the low 16 bits: the low 16 bits after a step depend only on the low 16
      bits before it. */
  lemma StepLowBits(r: nat, x: nat)
    requires LowBits(r, 16) == LowBits(x, 16)
    ensures LowBits(Step(r), 16) == LowBits(Step(x), 16)
  {
    Pow2Values();
    assert Shl(r, 1) == 2 * r && Shl(x, 1) == 2 * x;
    AndPow2(2 * r, 16);
    AndPow2(2 * x, 16);
    assert Shr(2 * r, 16) == Shr(r, 15) && Shr(2 * x, 16) == Shr(x, 15);
    BitOfLowBits(r, 16, 15);
    BitOfLowBits(x, 16, 15);
    LowBitsDouble(r, 16);
    LowBitsDouble(x, 16);
    LowBitsTwice(r, 16, 15);
    LowBitsTwice(x, 16, 15);
    XorLowBits(2 * r, 0x8005, 16);
    XorLowBits(2 * x, 0x8005, 16);
  }

  /** XORing the same value into two accumulators that agree on their low 16
      bits keeps them in agreement. */
  lemma XorKeepsLowBits(r: nat, x: nat, w: nat)
    requires LowBits(r, 16) == LowBits(x, 16)
    ensures LowBits(Xor(r, w), 16) == LowBits(Xor(x, w), 16)
  {
    XorLowBits(r, w, 16);
    XorLowBits(x, w, 16);
  }

  /** The masked step is the unmasked one as far as the low 16 bits go. */
  lemma MaskedStepLowBits(r: nat)
    ensures MaskedStep(r) == LowBits(Step(r), 16)
    ensures LowBits(MaskedStep(r), 16) == LowBits(Step(r), 16)
  {
    Pow2Values();
    AndMask(Step(r), 16);
    LowBitsTwice(Step(r), 16, 16);
  }

  /** `groups[gid] >> (digit * 8) & 0xff` is byte i = 4 * gid + digit of the
      checksum input. */
  lemma ByteAt(groups: seq<nat>, i: nat)
    requires |groups| >= 5 && i < 20
    ensures And(Shr(groups[i / 4], (i % 4) * 8), 0xFF) == ChecksumBytes(groups[..5])[i]
  {
    ChecksumBytesAt(groups[..5], i / 4, i % 4);
    assert Pow2(8) - 1 == 0xFF;
    AndMask(Shr(groups[i / 4], (i % 4) * 8), 8);
  }

  /** XORing a byte into bits 8-15 of an accumulator whose low 16 bits are the
      CRC so far starts that byte's masked steps, as far as the low 16 bits go. */
  lemma FeedLowBits(r: nat, c: nat, b: nat)
    requires c < 0x10000 && LowBits(r, 16) == c
    ensures LowBits(Xor(r, Shl(b, 8)), 16) == LowBits(MaskedSteps(Xor(c, Shl(b, 8)), 0), 16)
  {
    Pow2Values();
    LowBitsOfSmall(c, 16);
    XorKeepsLowBits(r, c, Shl(b, 8));
  }

  /** One unmasked step keeps the low 16 bits in step with the masked steps. */
  lemma StepKeepsLowBits(r: nat, start: nat, j: nat)
    requires LowBits(r, 16) == LowBits(MaskedSteps(start, j), 16)
    ensures LowBits(Step(r), 16) == LowBits(MaskedSteps(start, j + 1), 16)
  {
    StepLowBits(r, MaskedSteps(start, j));
    MaskedStepLowBits(MaskedSteps(start, j));
  }

  /** After the eight steps, the low 16 bits are the CRC with one more byte. */
  lemma FedLowBits(r: nat, bytes: seq<nat>, i: nat)
    requires i < |bytes|
    requires LowBits(r, 16) == LowBits(MaskedSteps(Xor(Crc(bytes[..i]), Shl(bytes[i], 8)), 8), 16)
    ensures LowBits(r, 16) == Crc(bytes[..i + 1])
  {
    Pow2Values();
    LowBitsOfSmall(CrcByte(Crc(bytes[..i]), bytes[i]), 16);
    assert bytes[..i + 1][..i] == bytes[..i];
  }

  /** `__overall_checksum(groups)`: 20 bytes, four from each of the first five
      groups, each XORed into bits 8-15 of the accumulator and followed by eight
      shift-and-reduce steps, with the mask applied once at the end. The result
      is the CRC masked after every step, so a 16-bit value determined by the
      bytes of the five groups. */
  method OverallChecksum(groups: seq<nat>) returns (z: nat)
    requires |groups| >= 5
    ensures z == GlobalChecksum(groups[..5])
    ensures z < 0x10000
  {
    ghost var bytes := ChecksumBytes(groups[..5]);
    var r := 0;
    Pow2Values();
    LowBitsOfSmall(0, 16);
    for i := 0 to 20
      invariant LowBits(r, 16) == Crc(bytes[..i])
    {
      var gid, digit := i / 4, i % 4;
      var value := And(Shr(groups[gid], digit * 8), 0xFF);
      ByteAt(groups, i);
      ghost var start := Xor(Crc(bytes[..i]), Shl(bytes[i], 8));
      FeedLowBits(r, Crc(bytes[..i]), value);
      r := Xor(r, Shl(value, 8));
      for j := 0 to 8
        invariant LowBits(r, 16) == LowBits(MaskedSteps(start, j), 16)
      {
        StepKeepsLowBits(r, start, j);
        r := Shl(r, 1);
        if And(r, 0x10000) != 0 {
          r := Xor(r, 0x8005);
        }
      }
      FedLowBits(r, bytes, i);
    }
    assert bytes[..20] == bytes;
    AndMask(r, 16);
    z := And(r, 0xFFFF);
  }
}
