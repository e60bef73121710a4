/** Bytes, big-endian numbers and the flags-and-length field of a PDU. */
module AcnBytes {
  import opened Arithmetic

  type byte = x: int | 0 <= x < 256

  /** Some bit of b, given by its weight, is set. */
  predicate Bit(b: byte, weight: nat)
    requires weight > 0
  {
    b / weight % 2 == 1
  }

  // ---------- etcpal_pack_u32b and etcpal_unpack_u32b ----------

  function PackU32(v: nat): seq<byte> {
    [v / 0x100_0000 % 256, v / 0x1_0000 % 256, v / 0x100 % 256, v % 256]
  }

  function UnpackU32(s: seq<byte>): (v: nat)
    requires |s| == 4
    ensures v < 0x1_0000_0000
  {
    s[0] as int * 0x100_0000 + s[1] as int * 0x1_0000 + s[2] as int * 0x100 + s[3]
  }

  lemma {:induction false} U32RoundTrip(v: nat)
    requires v < 0x1_0000_0000
    ensures UnpackU32(PackU32(v)) == v
  {
    assert v == v / 0x100 * 0x100 + v % 256;
    assert v / 0x100 == v / 0x1_0000 * 0x100 + v / 0x100 % 256;
    assert v / 0x1_0000 == v / 0x100_0000 * 0x100 + v / 0x1_0000 % 256;
    assert v / 0x100_0000 % 256 == v / 0x100_0000;
  }

  // ---------- flags and length ----------

  const L_FLAG: nat := 0x80
  const V_FLAG: nat := 0x40
  const H_FLAG: nat := 0x20
  const D_FLAG: nat := 0x10

  /** The four flag bits, in the upper half of the first byte. */
  datatype Flags = Flags(l: bool, v: bool, h: bool, d: bool)

  function FlagBits(f: Flags): (b: byte)
    ensures b % 16 == 0
  {
    (if f.l then L_FLAG else 0) + (if f.v then V_FLAG else 0) + (if f.h then H_FLAG else 0) + (if f.d then D_FLAG else 0)
  }

  function FlagsOf(b: byte): Flags {
    Flags(Bit(b, L_FLAG), Bit(b, V_FLAG), Bit(b, H_FLAG), Bit(b, D_FLAG))
  }

  function LenSize(f: Flags): nat { if f.l then 3 else 2 }

  /** What the length field can hold. */
  function LenLimit(f: Flags): nat { if f.l then 0x10_0000 else 0x1000 }

  /** The flags-and-length field as it is written; a length that does not fit loses its upper bits. */
  function FlagsAndLength(f: Flags, len: nat): (s: seq<byte>)
    ensures |s| == LenSize(f)
  {
    if f.l then [FlagBits(f) + len / 0x1_0000 % 16, len / 0x100 % 256, len % 256]
    else [FlagBits(f) + len / 0x100 % 16, len % 256]
  }

  /** ACN_PDU_LENGTH */
  function PduLength(s: seq<byte>): nat
    requires |s| >= 1 && |s| >= LenSize(FlagsOf(s[0]))
  {
    if Bit(s[0], L_FLAG) then s[0] as int % 16 * 0x1_0000 + s[1] as int * 0x100 + s[2]
    else s[0] as int % 16 * 0x100 + s[1]
  }

  lemma {:induction false} FlagsRoundTrip(f: Flags, nibble: nat)
    requires nibble < 16
    ensures FlagsOf(FlagBits(f) + nibble) == f
    ensures (FlagBits(f) + nibble) as int % 16 == nibble
  {
  }

  lemma {:induction false} SplitNormal(len: nat)
    ensures len / 0x100 % 16 * 0x100 + len % 256 == len % 0x1000
  {
    Compose(len, 0x100, 16);
  }

  lemma {:induction false} SplitExtended(len: nat)
    ensures len / 0x1_0000 % 16 * 0x1_0000 + len / 0x100 % 256 * 0x100 + len % 256 == len % 0x10_0000
  {
    Compose(len, 0x1_0000, 16);
    Compose(len, 0x100, 0x100);
  }

  /** The field gives back the flags, and the length modulo what it can hold. */
  lemma {:induction false} FieldRoundTrip(f: Flags, len: nat)
    ensures var s := FlagsAndLength(f, len);
            FlagsOf(s[0]) == f && PduLength(s) == len % LenLimit(f)
  {
    var s := FlagsAndLength(f, len);
    var nibble := len / (if f.l then 0x1_0000 else 0x100) % 16;
    FlagsRoundTrip(f, nibble);
    assert s[0] as int % 16 == nibble && Bit(s[0], L_FLAG) == f.l;
    if f.l {
      SplitExtended(len);
    } else {
      SplitNormal(len);
    }
  }
}
