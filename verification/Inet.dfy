/** Netmasks: their length, the mask of a given length, and the comparison of network portions. */
module Inet {

  /** An unsigned integer of fixed width, given by its bits, the most significant one first. */
  type Word = seq<bool>

  datatype IpType = TypeInvalid | TypeV4 | TypeV6

  /** A 32-bit address, or 16 bytes. */
  datatype Addr = Invalid | V4(word: Word) | V6(bytes: seq<Word>)

  type IpAddr = a: Addr | HasWidth(a) witness Invalid

  const IPV6_BYTES: nat := 16

  predicate HasWidth(a: Addr) {
    match a
    case Invalid => true
    case V4(word) => |word| == 32
    case V6(bytes) => |bytes| == IPV6_BYTES && forall b :: b in bytes ==> |b| == 8
  }

  function TypeOf(a: Addr): IpType {
    match a
    case Invalid => TypeInvalid
    case V4(_) => TypeV4
    case V6(_) => TypeV6
  }

  function Width(t: IpType): nat {
    match t
    case TypeInvalid => 0
    case TypeV4 => 32
    case TypeV6 => 128
  }

  /** All bits of an address in the order of significance. */
  function Bits(a: IpAddr): (s: seq<bool>)
    ensures |s| == Width(TypeOf(a))
  {
    match a
    case Invalid => []
    case V4(word) => word
    case V6(bytes) => seq(128, i requires 0 <= i < 128 => bytes[i / 8][i % 8])
  }

  // ---------- machine words ----------

  function And(x: Word, y: Word): (z: Word)
    requires |x| == |y|
    ensures |z| == |x| && forall i :: 0 <= i < |z| ==> z[i] == (x[i] && y[i])
  {
    seq(|x|, i requires 0 <= i < |x| => x[i] && y[i])
  }

  function Or(x: Word, y: Word): (z: Word)
    requires |x| == |y|
    ensures |z| == |x| && forall i :: 0 <= i < |z| ==> z[i] == (x[i] || y[i])
  {
    seq(|x|, i requires 0 <= i < |x| => x[i] || y[i])
  }

  function ShiftRight(x: Word): Word
    requires |x| > 0
  {
    [false] + x[..|x| - 1]
  }

  /** What a word means as a number. */
  function Number(x: Word): nat {
    if x == [] then 0 else 2 * Number(x[..|x| - 1]) + if x[|x| - 1] then 1 else 0
  }

  /** Shifting to the right halves the number. */
  lemma {:induction false} ShiftHalves(x: Word)
    requires |x| > 0
    ensures Number(ShiftRight(x)) == Number(x) / 2
  {
    LeadingZero(x[..|x| - 1]);
  }

  lemma {:induction false} LeadingZero(x: Word)
    ensures Number([false] + x) == Number(x)
  {
    var y := [false] + x;
    if x != [] {
      assert y[..|y| - 1] == [false] + x[..|x| - 1];
      LeadingZero(x[..|x| - 1]);
    } else {
      assert y[..0] == [];
    }
  }

  predicate IsZero(x: Word) {
    forall i :: 0 <= i < |x| ==> !x[i]
  }

  /** The word of n bits of which only bit i is set; zero if there is no bit i. */
  function OneBit(n: nat, i: nat): Word {
    seq(n, j => j == i)
  }

  /** The word of n bits of which the k most significant ones are set. */
  function Prefix(n: nat, k: nat): Word {
    seq(n, j => j < k)
  }

  lemma {:induction false} ShiftOneBit(n: nat, i: nat)
    requires n > 0
    ensures ShiftRight(OneBit(n, i)) == OneBit(n, i + 1)
  {
  }

  lemma {:induction false} OneBitZero(n: nat, i: nat)
    ensures IsZero(OneBit(n, i)) <==> i >= n
  {
    if i < n { assert OneBit(n, i)[i]; }
  }

  lemma {:induction false} AndOneBit(x: Word, i: nat)
    ensures !IsZero(And(x, OneBit(|x|, i))) <==> i < |x| && x[i]
  {
    var z := And(x, OneBit(|x|, i));
    if i < |x| && x[i] { assert z[i]; }
  }

  lemma {:induction false} OrOneBit(n: nat, k: nat)
    ensures Or(Prefix(n, k), OneBit(n, k)) == Prefix(n, k + 1)
  {
  }

  /** Masking makes words equal exactly when they agree where the mask is set. */
  lemma {:induction false} AndEqual(x: Word, y: Word, m: Word)
    requires |x| == |y| == |m|
    ensures And(x, m) == And(y, m) <==> forall i :: 0 <= i < |m| && m[i] ==> x[i] == y[i]
  {
    if And(x, m) == And(y, m) {
      forall i | 0 <= i < |m| && m[i]
        ensures x[i] == y[i]
      {
        assert And(x, m)[i] == And(y, m)[i];
      }
    }
  }

  // ---------- specification ----------

  function Min(a: nat, b: nat): nat { if a < b then a else b }

  /** The number of set bits at the front. */
  function Leading(s: seq<bool>): (n: nat)
    ensures n <= |s|
    ensures forall i :: 0 <= i < n ==> s[i]
    ensures n < |s| ==> !s[n]
  {
    if s == [] || !s[0] then 0 else 1 + Leading(s[1..])
  }

  lemma {:induction false} LeadingIs(s: seq<bool>, n: nat)
    requires n <= |s| && (n < |s| ==> !s[n])
    requires forall i :: 0 <= i < n ==> s[i]
    ensures Leading(s) == n
  {
  }

  /** Valid addresses of the same type that agree in every bit which the mask sets. */
  predicate SameNetwork(a: IpAddr, b: IpAddr, mask: IpAddr) {
    && TypeOf(a) == TypeOf(b) == TypeOf(mask) != TypeInvalid
    && forall i :: 0 <= i < |Bits(mask)| && Bits(mask)[i] ==> Bits(a)[i] == Bits(b)[i]
  }

  /** The mask of length n for addresses of type t. */
  ghost predicate IsMask(mask: IpAddr, t: IpType, n: nat) {
    TypeOf(mask) == t && Bits(mask) == Prefix(Width(t), n)
  }

  // ---------- properties ----------

  /** The bytes of an IPv6 address come in the order of significance. */
  lemma {:induction false} BitsInOrder(a: IpAddr)
    requires a.V6?
    ensures forall j: nat, b: nat :: j < 16 && b < 8 ==> Bits(a)[8 * j + b] == a.bytes[j][b]
  {
    forall j: nat, b: nat | j < 16 && b < 8
      ensures Bits(a)[8 * j + b] == a.bytes[j][b]
    {
      BitOf(a, j, b, 8 * j + b);
    }
  }

  lemma {:induction false} BitOf(a: IpAddr, j: nat, b: nat, i: nat)
    requires a.V6? && j < 16 && b < 8 && i == 8 * j + b
    ensures i < 128 && Bits(a)[i] == a.bytes[j][b]
  {
    assert i / 8 == j && i % 8 == b;
  }

  /** A mask in bytes: those below n / 8 are 255, those above it 0, and of the one between the first n % 8
      bits are set. */
  lemma {:induction false} MaskInBytes(mask: IpAddr, n: nat)
    requires IsMask(mask, TypeV6, n)
    ensures mask.V6? && forall j: nat, b: nat :: j < 16 && b < 8 ==> (mask.bytes[j][b] <==> 8 * j + b < n)
    ensures forall j: nat :: j < 16 && j < n / 8 ==> Number(mask.bytes[j]) == 255
    ensures forall j: nat :: j < 16 && (j > n / 8 || 8 * j == n) ==> Number(mask.bytes[j]) == 0
  {
    BitsInOrder(mask);
    forall j: nat | j < 16
      ensures forall b: nat :: b < 8 ==> (mask.bytes[j][b] <==> 8 * j + b < n)
      ensures j < n / 8 ==> Number(mask.bytes[j]) == 255
      ensures j > n / 8 || 8 * j == n ==> Number(mask.bytes[j]) == 0
    {
      forall b: nat | b < 8
        ensures mask.bytes[j][b] <==> 8 * j + b < n
      {
        assert Bits(mask)[8 * j + b] == Prefix(128, n)[8 * j + b];
      }
      assert mask.bytes[j] in mask.bytes;
      if j < n / 8 {
        ByteNumber(mask.bytes[j], true);
      } else if j > n / 8 || 8 * j == n {
        ByteNumber(mask.bytes[j], false);
      }
    }
  }

  lemma {:induction false} ByteNumber(x: Word, bit: bool)
    requires |x| == 8 && forall b: nat :: b < 8 ==> x[b] == bit
    ensures Number(x) == if bit then 255 else 0
  {
    assert x[..7][..6] == x[..6] && x[..6][..5] == x[..5] && x[..5][..4] == x[..4] && x[..4][..3] == x[..3];
    assert x[..3][..2] == x[..2] && x[..2][..1] == x[..1] && x[..1][..0] == [];
    assert Number(x[..1]) == if bit then 1 else 0;
    assert Number(x[..2]) == if bit then 3 else 0;
    assert Number(x[..3]) == if bit then 7 else 0;
    assert Number(x[..4]) == if bit then 15 else 0;
    assert Number(x[..5]) == if bit then 31 else 0;
    assert Number(x[..6]) == if bit then 63 else 0;
    assert Number(x[..7]) == if bit then 127 else 0;
  }

  /** mask_length undoes mask_from_length, up to the width of the type. */
  lemma {:induction false} LengthOfMask(mask: IpAddr, t: IpType, n: nat)
    requires IsMask(mask, t, n)
    ensures Leading(Bits(mask)) == Min(n, Width(t))
  {
    LeadingIs(Bits(mask), Min(n, Width(t)));
  }

  /** No set bit follows a clear one. */
  predicate Contiguous(s: seq<bool>) {
    forall i, j :: 0 <= i < j < |s| && s[j] ==> s[i]
  }

  /** The number of set bits. */
  function Ones(s: seq<bool>): nat {
    if s == [] then 0 else Ones(s[1..]) + if s[0] then 1 else 0
  }

  lemma {:induction false} OnesZero(s: seq<bool>)
    ensures Ones(s) == 0 <==> IsZero(s)
  {
    if s != [] {
      OnesZero(s[1..]);
      assert IsZero(s) <==> !s[0] && IsZero(s[1..]) by { assert s == [s[0]] + s[1..]; }
    }
  }

  lemma {:induction false} ContiguousTail(s: seq<bool>)
    requires s != []
    ensures Contiguous(s) <==> if s[0] then Contiguous(s[1..]) else IsZero(s)
  {
    var r := s[1..];
    assert s == [s[0]] + r;
    if s[0] && Contiguous(r) {
      forall i, j | 0 <= i < j < |s| && s[j]
        ensures s[i]
      {
        if i > 0 { assert r[j - 1] ==> r[i - 1]; }
      }
    }
    if Contiguous(s) {
      forall i, j | 0 <= i < j < |r| && r[j]
        ensures r[i]
      {
        assert s[j + 1] ==> s[i + 1];
      }
    }
  }

  lemma {:induction false} OnesLeading(s: seq<bool>)
    ensures Leading(s) <= Ones(s)
    ensures Leading(s) == Ones(s) <==> Contiguous(s)
  {
    if s != [] {
      OnesLeading(s[1..]);
      OnesZero(s);
      ContiguousTail(s);
    }
  }

  /** The length is the number of set bits, as it is documented, if and only if the mask is contiguous. */
  lemma {:induction false} LengthIsOnes(mask: IpAddr)
    ensures Leading(Bits(mask)) == Ones(Bits(mask)) <==> Contiguous(Bits(mask))
  {
    OnesLeading(Bits(mask));
  }

  /** A mask of which only the last bit is set has length 0. */
  lemma {:induction false} LengthIsNotOnes(mask: IpAddr)
    requires mask == V4(OneBit(32, 31))
    ensures Leading(Bits(mask)) == 0 && Ones(Bits(mask)) > 0
  {
    LeadingIs(Bits(mask), 0);
    OnesZero(Bits(mask));
    assert Bits(mask)[31];
  }

  /** A netmask is recovered from its length under the same condition. */
  lemma {:induction false} MaskOfLength(mask: IpAddr)
    ensures IsMask(mask, TypeOf(mask), Leading(Bits(mask))) <==> Contiguous(Bits(mask))
  {
    var s := Bits(mask);
    var n := Leading(s);
    if Contiguous(s) {
      forall j | 0 <= j < |s|
        ensures s[j] == (j < n)
      {
      }
      assert s == Prefix(|s|, n);
    }
  }

  /** Under the mask of length n the network portions are equal exactly when the leading bits agree. */
  lemma {:induction false} SameUnderMask(a: IpAddr, b: IpAddr, mask: IpAddr, t: IpType, n: nat)
    requires TypeOf(a) == TypeOf(b) == t != TypeInvalid && IsMask(mask, t, n)
    ensures SameNetwork(a, b, mask) <==> Bits(a)[..Min(n, Width(t))] == Bits(b)[..Min(n, Width(t))]
  {
    var k := Min(n, Width(t));
    if SameNetwork(a, b, mask) {
      forall i | 0 <= i < k
        ensures Bits(a)[i] == Bits(b)[i]
      {
        assert Bits(mask)[i];
      }
    } else if Bits(a)[..k] == Bits(b)[..k] {
      forall i | 0 <= i < |Bits(mask)| && Bits(mask)[i]
        ensures Bits(a)[i] == Bits(b)[i]
      {
        assert Bits(a)[..k][i] == Bits(b)[..k][i];
      }
    }
  }

  /** Agreement under a mask is agreement under every shorter one. */
  lemma {:induction false} ShorterMask(a: IpAddr, b: IpAddr, mask: IpAddr, shorter: IpAddr, t: IpType, n: nat, k: nat)
    requires IsMask(mask, t, n) && IsMask(shorter, t, k) && k <= n
    requires SameNetwork(a, b, mask)
    ensures SameNetwork(a, b, shorter)
  {
    forall i | 0 <= i < |Bits(shorter)| && Bits(shorter)[i]
      ensures Bits(a)[i] == Bits(b)[i]
    {
      assert Bits(mask)[i];
    }
  }

  /** Under any mask, contiguous or not, it is an equivalence of the addresses of the mask's type. */
  lemma {:induction false} SameNetworkIsEquivalence(a: IpAddr, b: IpAddr, c: IpAddr, mask: IpAddr)
    requires TypeOf(mask) != TypeInvalid
    ensures SameNetwork(a, a, mask) <==> TypeOf(a) == TypeOf(mask)
    ensures SameNetwork(a, b, mask) <==> SameNetwork(b, a, mask)
    ensures SameNetwork(a, b, mask) && SameNetwork(b, c, mask) ==> SameNetwork(a, c, mask)
  {
  }

  // ---------- the code ----------

  /** etcpal_ip_mask_length */
  method MaskLength(netmask: IpAddr) returns (length: nat)
    ensures length == Leading(Bits(netmask))
  {
    length := 0;
    if netmask.V4? {
      length := MaskLengthV4(netmask.word);
    } else if netmask.V6? {
      length := MaskLengthV6(netmask);
    }
  }

  method MaskLengthV4(addrVal: Word) returns (length: nat)
    requires |addrVal| == 32
    ensures length == Leading(addrVal)
  {
    length := 0;
    var bitMask := OneBit(32, 0);
    AndOneBit(addrVal, 0);
    while !IsZero(And(addrVal, bitMask))
      invariant length <= 32 && bitMask == OneBit(32, length)
      invariant !IsZero(And(addrVal, bitMask)) <==> length < 32 && addrVal[length]
      invariant forall i :: 0 <= i < length ==> addrVal[i]
      decreases 32 - length
    {
      length := length + 1;
      ShiftOneBit(32, length - 1);
      bitMask := ShiftRight(bitMask);
      AndOneBit(addrVal, length);
    }
    LeadingIs(addrVal, length);
  }

  method MaskLengthV6(netmask: IpAddr) returns (length: nat)
    requires netmask.V6?
    ensures length == Leading(Bits(netmask))
  {
    length := 0;
    var addrBuf := netmask.bytes;
    var addrIndex := 0;
    while addrIndex < IPV6_BYTES && addrBuf[addrIndex] == Prefix(8, 8)
      invariant addrIndex <= IPV6_BYTES && length == 8 * addrIndex
      invariant forall i :: 0 <= i < length ==> Bits(netmask)[i]
    {
      length := length + 8;
      addrIndex := addrIndex + 1;
    }
    if addrIndex < IPV6_BYTES {
      var more := LeadingInByte(addrBuf[addrIndex]);
      length := length + more;
    }
    LeadingIs(Bits(netmask), length);
  }

  lemma {:induction false} AllSet(x: Word)
    ensures x == Prefix(|x|, |x|) <==> forall i :: 0 <= i < |x| ==> x[i]
  {
  }

  /** The byte is not 0xff. */
  method LeadingInByte(addrVal: Word) returns (length: nat)
    requires |addrVal| == 8 && addrVal != Prefix(8, 8)
    ensures length < 8 && !addrVal[length] && forall i :: 0 <= i < length ==> addrVal[i]
  {
    length := 0;
    var bitMask := OneBit(8, 0);
    while !IsZero(bitMask)
      invariant length <= 8 && bitMask == OneBit(8, length)
      invariant forall i :: 0 <= i < length ==> addrVal[i]
      decreases 8 - length
    {
      AndOneBit(addrVal, length);
      if IsZero(And(addrVal, bitMask)) { break; }
      ShiftOneBit(8, length);
      bitMask := ShiftRight(bitMask);
      length := length + 1;
    }
    OneBitZero(8, length);
    AllSet(addrVal);
  }

  /** etcpal_ip_mask_from_length */
  method MaskFromLength(t: IpType, maskLength: nat) returns (result: IpAddr)
    ensures IsMask(result, t, maskLength)
    ensures (t.TypeV4? <==> result.V4?) && (t.TypeV6? <==> result.V6?)
    ensures result.V4? ==> forall i :: 0 <= i < 32 ==> (result.word[i] <==> i < maskLength)
    ensures result.V6? ==>
      forall j: nat, b: nat :: j < 16 && b < 8 ==> (result.bytes[j][b] <==> 8 * j + b < maskLength)
  {
    match t {
      case TypeV4 =>
        var maskVal, bitMask := Prefix(32, 0), OneBit(32, 0);
        var adjustedLength := if maskLength > 32 then 32 else maskLength;
        for i := 0 to adjustedLength
          invariant maskVal == Prefix(32, i) && bitMask == OneBit(32, i)
        {
          OrOneBit(32, i);
          maskVal := Or(maskVal, bitMask);
          ShiftOneBit(32, i);
          bitMask := ShiftRight(bitMask);
        }
        result := V4(maskVal);
      case TypeV6 =>
        var buf := MaskBytes(maskLength);
        result := V6(buf);
        MaskInBytes(result, maskLength);
      case TypeInvalid =>
        result := Invalid;
    }
  }

  /** The byte j of the IPv6 mask of length n. */
  function ByteOfMask(n: nat, j: nat): Word {
    Prefix(8, if n >= 8 * j then n - 8 * j else 0)
  }

  lemma {:induction false} BytesOfMask(bytes: seq<Word>, n: nat)
    requires |bytes| == IPV6_BYTES && forall j :: 0 <= j < IPV6_BYTES ==> bytes[j] == ByteOfMask(n, j)
    ensures HasWidth(V6(bytes)) && Bits(V6(bytes)) == Prefix(128, n)
  {
    forall b | b in bytes
      ensures |b| == 8
    {
    }
  }

  method MaskBytes(maskLength: nat) returns (bytes: seq<Word>)
    ensures HasWidth(V6(bytes))
    ensures Bits(V6(bytes)) == Prefix(128, maskLength)
  {
    var maskBuf := new Word[IPV6_BYTES](_ => Prefix(8, 0));
    var adjustedLength := if maskLength > 128 then 128 else maskLength;
    ghost var n := adjustedLength;
    var maskIndex := 0;
    while adjustedLength / 8 > 0
      invariant 0 <= adjustedLength && 8 * maskIndex + adjustedLength == n
      invariant forall j :: 0 <= j < IPV6_BYTES ==> maskBuf[j] == Prefix(8, if j < maskIndex then 8 else 0)
    {
      maskBuf[maskIndex] := Prefix(8, 8);
      maskIndex := maskIndex + 1;
      adjustedLength := adjustedLength - 8;
    }
    SetBits(maskBuf, maskIndex, adjustedLength);
    bytes := maskBuf[..];
    BytesOfMask(bytes, n);
    assert Prefix(128, n) == Prefix(128, maskLength);
  }

  /** Sets the first bits of one byte. */
  method SetBits(maskBuf: array<Word>, maskIndex: nat, count: nat)
    requires count < 8 && (count > 0 ==> maskIndex < maskBuf.Length && maskBuf[maskIndex] == Prefix(8, 0))
    modifies maskBuf
    ensures maskBuf[..] == if count > 0 then old(maskBuf[..])[maskIndex := Prefix(8, count)] else old(maskBuf[..])
  {
    var adjustedLength := count;
    var bitMask := OneBit(8, 0);
    while true
      invariant 0 <= adjustedLength <= count && bitMask == OneBit(8, count - adjustedLength)
      invariant count > 0 ==> maskBuf[..] == old(maskBuf[..])[maskIndex := Prefix(8, count - adjustedLength)]
      invariant count == 0 ==> maskBuf[..] == old(maskBuf[..])
      decreases adjustedLength
    {
      if adjustedLength == 0 { break; }
      OrOneBit(8, count - adjustedLength);
      ShiftOneBit(8, count - adjustedLength);
      OneBitZero(8, count - adjustedLength + 1);
      assert maskBuf[maskIndex] == maskBuf[..][maskIndex];
      maskBuf[maskIndex] := Or(maskBuf[maskIndex], bitMask);
      adjustedLength := adjustedLength - 1;
      bitMask := ShiftRight(bitMask);
      if IsZero(bitMask) { break; }
    }
  }

  lemma {:induction false} SameWords(a: IpAddr, b: IpAddr, mask: IpAddr)
    requires a.V4? && b.V4? && mask.V4?
    ensures SameNetwork(a, b, mask) <==> And(a.word, mask.word) == And(b.word, mask.word)
  {
    AndEqual(a.word, b.word, mask.word);
    assert Bits(a) == a.word && Bits(b) == b.word && Bits(mask) == mask.word;
  }

  predicate MaskedBytesEqual(a: IpAddr, b: IpAddr, mask: IpAddr, n: nat)
    requires a.V6? && b.V6? && mask.V6? && n <= IPV6_BYTES
  {
    forall i :: 0 <= i < n ==> And(a.bytes[i], mask.bytes[i]) == And(b.bytes[i], mask.bytes[i])
  }

  /** Two IPv6 addresses agree under a mask exactly when they do so byte by byte. */
  lemma {:induction false} SameBytes(a: IpAddr, b: IpAddr, mask: IpAddr)
    requires a.V6? && b.V6? && mask.V6?
    ensures SameNetwork(a, b, mask) <==> MaskedBytesEqual(a, b, mask, IPV6_BYTES)
  {
    if SameNetwork(a, b, mask) {
      forall i | 0 <= i < IPV6_BYTES
        ensures And(a.bytes[i], mask.bytes[i]) == And(b.bytes[i], mask.bytes[i])
      {
        AndEqual(a.bytes[i], b.bytes[i], mask.bytes[i]);
        forall j | 0 <= j < 8 && mask.bytes[i][j]
          ensures a.bytes[i][j] == b.bytes[i][j]
        {
          assert Bits(mask)[8 * i + j];
        }
      }
    }
    if MaskedBytesEqual(a, b, mask, IPV6_BYTES) {
      forall k | 0 <= k < 128 && Bits(mask)[k]
        ensures Bits(a)[k] == Bits(b)[k]
      {
        AndEqual(a.bytes[k / 8], b.bytes[k / 8], mask.bytes[k / 8]);
      }
    }
  }

  /** etcpal_ip_network_portions_equal */
  method NetworkPortionsEqual(a: IpAddr, b: IpAddr, mask: IpAddr) returns (equal: bool)
    ensures equal <==> SameNetwork(a, b, mask)
  {
    if a.V4? && b.V4? && mask.V4? {
      SameWords(a, b, mask);
      return And(a.word, mask.word) == And(b.word, mask.word);
    }
    if a.V6? && b.V6? && mask.V6? {
      SameBytes(a, b, mask);
      equal := BytesEqual(a, b, mask);
      return;
    }
    return false;
  }

  method BytesEqual(a: IpAddr, b: IpAddr, mask: IpAddr) returns (equal: bool)
    requires a.V6? && b.V6? && mask.V6?
    ensures equal <==> MaskedBytesEqual(a, b, mask, IPV6_BYTES)
  {
    for i := 0 to IPV6_BYTES
      invariant MaskedBytesEqual(a, b, mask, i)
    {
      if And(a.bytes[i], mask.bytes[i]) != And(b.bytes[i], mask.bytes[i]) { return false; }
    }
    return true;
  }
}
