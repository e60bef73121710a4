/** The header-only pair acn_pack_root_layer_header and acn_parse_root_layer_header. */
module AcnHeader {
  import opened Options
  import opened AcnBytes
  import opened AcnPdu
  import opened AcnRlp

  /** A parsed header; the data is given by its offset and length. */
  datatype Header = Header(cid: seq<byte>, vector: nat, data: int, dataLen: nat)

  /** The packed header: that of a PDU which inherits nothing, without its data. */
  function HeaderBytes(p: RootPdu): (s: seq<byte>)
    requires Typed(p)
    ensures |s| == HeaderSize(p)
  {
    FlagsAndLength(FlagsFor(NOTHING, p), FullLength(NOTHING, p)) + PackU32(p.vector) + p.cid
  }

  method PackHeader(buf: array<byte>, p: RootPdu) returns (n: nat)
    requires Typed(p)
    modifies buf
    ensures buf.Length < HEADER_EXT ==> n == 0 && buf[..] == old(buf[..])
    ensures buf.Length >= HEADER_EXT ==>
      n == HeaderSize(p) && buf[..] == Over(old(buf[..]), 0, HeaderBytes(p)) && HeaderOnWire(buf[..], n, p)
  {
    if buf.Length < HEADER_EXT { return 0; }
    ghost var before := buf[..];
    buf[0] := 0x70;
    if MandatesL(p.vector) || Payload(NOTHING, p) > 4095 {
      buf[0] := Or(buf[0], L_FLAG);
      PackLength(buf, 0, FlagsFor(NOTHING, p), HEADER_EXT + |p.data|);
      n := 3;
    } else {
      PackLength(buf, 0, FlagsFor(NOTHING, p), HEADER_NORMAL + |p.data|);
      n := 2;
    }
    ghost var field := FlagsAndLength(FlagsFor(NOTHING, p), FullLength(NOTHING, p));
    n := PackSegment(buf, n, true, PackU32(p.vector), before, 0, field);
    n := PackSegment(buf, n, true, p.cid, before, 0, field + PackU32(p.vector));
    HeaderInBytes(buf[..], before, p);
  }

  /** The n bytes of a packed header: those with which a PDU that inherits nothing starts. */
  predicate HeaderOnWire(s: seq<byte>, n: nat, p: RootPdu) {
    && StartsWith(s, p)
    && n == (if p.vector == 5 || p.vector == 9 || p.vector == 10 || p.vector == 11 || |p.data| > 4075 then 23 else 22)
    && s[0] / 0x10 == (if n == 23 then 15 else 7)
    && LengthAt(s, 0) == (n + |p.data|) % (if n == 23 then 0x10_0000 else 0x1000)
  }

  lemma {:induction false} HeaderInBytes(s: seq<byte>, before: seq<byte>, p: RootPdu)
    requires Typed(p) && |before| >= HEADER_EXT && s == Over(before, 0, HeaderBytes(p))
    ensures HeaderOnWire(s, HeaderSize(p), p)
  {
    var one, h := EncodeOne(NOTHING, p), HeaderBytes(p);
    WireForm(NOTHING, p);
    assert one == h + p.data;
    assert s[..|h|] == h == one[..|h|];
    SameStart(s, one, |h|, p);
  }

  /** What a PDU starts with depends on its header only. */
  lemma {:induction false} SameStart(s: seq<byte>, one: seq<byte>, n: nat, p: RootPdu)
    requires Typed(p) && Wire(one, true, true, true, p) && n + |p.data| == |one|
    requires n <= |s| && s[..n] == one[..n]
    ensures HeaderOnWire(s, n, p)
  {
    var h := if one[0] >= 0x80 then 3 else 2;
    assert n == h + 20;
    assert forall i :: 0 <= i < n ==> s[i] == s[..n][i] == one[..n][i] == one[i];
    assert s[h + 4..h + 20] == one[h + 4..h + 20];
  }

  // ---------- how far the parser reads ----------

  /** The parser gives up on the flags and the length, before it looks at what follows them. */
  predicate Refused(buf: seq<byte>, last: Option<Header>)
    requires |buf| > 0
  {
    var f := FlagsOf(buf[0]);
    |buf| <= LenSize(f) || PduLength(buf) < HeaderLength(f, RLP) || (last.None? && !(f.v && f.h && f.d))
  }

  predicate VectorInside(buf: seq<byte>)
    requires |buf| > 0
  {
    FlagsOf(buf[0]).v ==> |buf| >= LenSize(FlagsOf(buf[0])) + VECTOR_SIZE
  }

  function VectorOf(buf: seq<byte>): nat
    requires |buf| > 0 && VectorInside(buf) && FlagsOf(buf[0]).v
  {
    var at := LenSize(FlagsOf(buf[0]));
    UnpackU32(buf[at..at + VECTOR_SIZE])
  }

  /** The vector mandates the L flag, which is not set. */
  predicate LacksL(buf: seq<byte>)
    requires |buf| > 0 && VectorInside(buf)
  {
    FlagsOf(buf[0]).v && !FlagsOf(buf[0]).l && MandatesL(VectorOf(buf))
  }

  /** When the parser reads behind the buffer: if that is empty, or if it is not refused and ends inside the
      vector, or inside the CID and the vector does not lack the L flag. */
  predicate ReadsBeyond(buf: seq<byte>, last: Option<Header>) {
    |buf| == 0 ||
    (!Refused(buf, last)
     && (VectorInside(buf) ==> !LacksL(buf) && |buf| < HeaderLength(FlagsOf(buf[0]), RLP)))
  }

  /** What a header means after the PDU `last`, if it is acceptable. */
  function HeaderOf(buf: seq<byte>, last: Option<Header>): Option<Header>
    requires !ReadsBeyond(buf, last)
  {
    var f := FlagsOf(buf[0]);
    var h := HeaderLength(f, RLP);
    if Refused(buf, last) || LacksL(buf) then None
    else Some(Header(if f.h then buf[h - CID_SIZE..h] else last.value.cid,
                     if f.v then VectorOf(buf) else last.value.vector,
                     if f.d then h else last.value.data,
                     if f.d then PduLength(buf) - h else last.value.dataLen))
  }

  /** Beyond: the parser reads behind the buffer, whatever it then finds there. */
  datatype Outcome = Beyond | Finished(header: Option<Header>)

  /** The outcome in bytes. A vector of 5, 9, 10 or 11 has to come with a 3-byte length field. */
  predicate Outcomes(buf: seq<byte>, last: Option<Header>, o: Outcome) {
    if buf == [] then o == Beyond
    else
      var b: int := buf[0];
      var h := if b / 0x80 % 2 == 1 then 3 else 2;
      var c := h + if b / 0x40 % 2 == 1 then 4 else 0;
      var d := c + if b / 0x20 % 2 == 1 then 16 else 0;
      if |buf| <= h || LengthAt(buf, 0) < d || (last.None? && b / 0x10 % 8 != 7) then o == Finished(None)
      else if |buf| < c then o == Beyond
      else if c == h + 4 && h == 2 && NumberAt(buf, h) in {5, 9, 10, 11} then o == Finished(None)
      else if |buf| < d then o == Beyond
      else o.Finished? && o.header.Some?
           && o.header.value.vector == (if c == h + 4 then NumberAt(buf, h) else last.value.vector)
           && o.header.value.cid == (if d == c + 16 then buf[c..d] else last.value.cid)
           && o.header.value.data == (if b / 0x10 % 2 == 1 then d else last.value.data)
           && o.header.value.dataLen == (if b / 0x10 % 2 == 1 then LengthAt(buf, 0) - d else last.value.dataLen)
  }

  lemma {:induction false} OutcomeInBytes(buf: seq<byte>, last: Option<Header>)
    ensures Outcomes(buf, last, if ReadsBeyond(buf, last) then Beyond else Finished(HeaderOf(buf, last)))
  {
  }

  /** Where the vector mandates the L flag, a header without it is refused. */
  lemma {:induction false} MissingLRefused(buf: seq<byte>, last: Option<Header>)
    requires |buf| >= 6 && buf[0] < 0x80 && buf[0] / 0x40 % 2 == 1
    requires buf[2] == buf[3] == buf[4] == 0 && (buf[5] == 5 || buf[5] == 9 || buf[5] == 10 || buf[5] == 11)
    ensures !ReadsBeyond(buf, last) && HeaderOf(buf, last) == None
  {
    OutcomeInBytes(buf, last);
  }

  /** The code checks only that the length field is followed by something. */
  method ParseHeader(buf: seq<byte>, last: Option<Header>) returns (o: Outcome)
    ensures o == Beyond <==> ReadsBeyond(buf, last)
    ensures !ReadsBeyond(buf, last) ==> o == Finished(HeaderOf(buf, last))
    ensures Outcomes(buf, last, o)
  {
    OutcomeInBytes(buf, last);
    if |buf| == 0 { return Beyond; }
    var f := FlagsOf(buf[0]);
    var inh := Inheritance(!f.v, !f.h, !f.d);
    if LenSize(f) >= |buf| { return Finished(None); }
    var pduLen := PduLength(buf);
    var minPduLen := LenSize(f) + (if inh.vector then 0 else 4) + (if inh.header then 0 else 16);
    if ((inh.vector || inh.header || inh.data) && last.None?) || pduLen < minPduLen { return Finished(None); }
    var cur := LenSize(f);
    var vector, cid, data, dataLen;
    if inh.vector {
      vector := last.value.vector;
    } else {
      if cur + 4 > |buf| { return Beyond; }
      vector := UnpackU32(buf[cur..cur + VECTOR_SIZE]);
      cur := cur + 4;
      if MandatesL(vector) && !f.l { return Finished(None); }
    }
    if inh.header {
      cid := last.value.cid;
    } else {
      if cur + CID_SIZE > |buf| { return Beyond; }
      cid := buf[cur..cur + CID_SIZE];
      cur := cur + CID_SIZE;
    }
    if inh.data {
      data, dataLen := last.value.data, last.value.dataLen;
    } else {
      data, dataLen := cur, pduLen - cur;
    }
    o := Finished(Some(Header(cid, vector, data, dataLen)));
  }

  /** No buffer of 23 bytes or more is read beyond. */
  lemma {:induction false} LongEnough(buf: seq<byte>, last: Option<Header>)
    requires |buf| >= HEADER_EXT
    ensures !ReadsBeyond(buf, last)
  {
  }

  /** A packed header, followed by anything, is read back if and only if the length of the whole PDU
      fits its field. */
  lemma {:induction false} HeaderRoundTrip(p: RootPdu, rest: seq<byte>)
    requires Typed(p)
    ensures !ReadsBeyond(HeaderBytes(p) + rest, None)
    ensures HeaderOf(HeaderBytes(p) + rest, None) == Some(Header(p.cid, p.vector, HeaderSize(p), |p.data|))
            <==> Fits(NOTHING, p)
  {
    HeaderFields(p, rest);
    assert Fits(NOTHING, p) || PduLength(HeaderBytes(p) + rest) != FullLength(NOTHING, p);
  }

  /** Some(last) describes the PDU prev. */
  predicate Describes(last: Option<Header>, prev: Option<RootPdu>) {
    match prev
    case None => last.None?
    case Some(q) =>
      last.Some? && last.value.cid == q.cid && last.value.vector == q.vector && last.value.dataLen == |q.data|
  }

  /** What a header means for a PDU that inherits inh: its own segments, and the data of the last header if
      it inherits that. */
  function Meaning(last: Option<Header>, inh: Inheritance, p: RootPdu): Header
    requires inh.data ==> last.Some?
  {
    Header(p.cid, p.vector, if inh.data then last.value.data else HeaderLength(FlagsFor(inh, p), RLP), |p.data|)
  }

  /** Parsing an encoded PDU never leaves the buffer. */
  lemma {:induction false} EncodedInside(last: Option<Header>, inh: Inheritance, p: RootPdu, rest: seq<byte>)
    requires Typed(p)
    ensures !ReadsBeyond(EncodeOne(inh, p) + rest, last)
  {
    var buf := EncodeOne(inh, p) + rest;
    assert buf[0..] == buf;
    FieldAt(buf, 0, inh, p, rest);
  }

  lemma {:induction false} InheritedReads(prev: Option<RootPdu>, last: Option<Header>, p: RootPdu, rest: seq<byte>)
    requires Typed(p) && Describes(last, prev) && Fits(Inherits(prev, p), p)
    requires |EncodeOne(Inherits(prev, p), p) + rest| > LenSize(FlagsFor(Inherits(prev, p), p))
    requires !ReadsBeyond(EncodeOne(Inherits(prev, p), p) + rest, last)
    ensures HeaderOf(EncodeOne(Inherits(prev, p), p) + rest, last) == Some(Meaning(last, Inherits(prev, p), p))
  {
    var inh := Inherits(prev, p);
    var buf := EncodeOne(inh, p) + rest;
    assert buf[0..] == buf;
    FieldAt(buf, 0, inh, p, rest);
    PartsAt(buf, 0, inh, p, rest);
  }

  lemma {:induction false} InheritedLoses(prev: Option<RootPdu>, last: Option<Header>, p: RootPdu, rest: seq<byte>)
    requires Typed(p) && Describes(last, prev) && !Fits(Inherits(prev, p), p)
    requires !ReadsBeyond(EncodeOne(Inherits(prev, p), p) + rest, last)
    ensures HeaderOf(EncodeOne(Inherits(prev, p), p) + rest, last) != Some(Meaning(last, Inherits(prev, p), p))
  {
    var inh := Inherits(prev, p);
    var buf := EncodeOne(inh, p) + rest;
    assert buf[0..] == buf;
    FieldAt(buf, 0, inh, p, rest);
    assert PduLength(buf) < FullLength(inh, p) && !inh.data;
  }

  /** The header of any PDU of a block, read with the header before it, gives vector, CID and data if and
      only if its length fits and something follows the length field. */
  lemma {:induction false} InheritedRoundTrip(prev: Option<RootPdu>, last: Option<Header>, p: RootPdu, rest: seq<byte>)
    requires Typed(p) && Describes(last, prev)
    ensures var inh := Inherits(prev, p);
            var buf := EncodeOne(inh, p) + rest;
            && !ReadsBeyond(buf, last)
            && (HeaderOf(buf, last) == Some(Meaning(last, inh, p))
                <==> Fits(inh, p) && |buf| > LenSize(FlagsFor(inh, p)))
  {
    var inh := Inherits(prev, p);
    var buf := EncodeOne(inh, p) + rest;
    EncodedInside(last, inh, p, rest);
    if !Fits(inh, p) {
      InheritedLoses(prev, last, p, rest);
    } else if |buf| > LenSize(FlagsFor(inh, p)) {
      InheritedReads(prev, last, p, rest);
    } else {
      assert buf[0..] == buf;
      FieldAt(buf, 0, inh, p, rest);
    }
  }

  lemma {:induction false} HeaderFields(p: RootPdu, rest: seq<byte>)
    requires Typed(p)
    ensures var buf := HeaderBytes(p) + rest;
            var f := FlagsFor(NOTHING, p);
            && FlagsOf(buf[0]) == f && HeaderLength(f, RLP) == HeaderSize(p) <= |buf|
            && PduLength(buf) == FullLength(NOTHING, p) % LenLimit(f)
            && (Fits(NOTHING, p) ==> PduLength(buf) == FullLength(NOTHING, p))
            && UnpackU32(buf[LenSize(f)..LenSize(f) + VECTOR_SIZE]) == p.vector
            && buf[LenSize(f) + VECTOR_SIZE..LenSize(f) + VECTOR_SIZE + CID_SIZE] == p.cid
  {
    var buf, f := HeaderBytes(p) + rest, FlagsFor(NOTHING, p);
    var s := FlagsAndLength(f, FullLength(NOTHING, p));
    FieldRoundTrip(f, FullLength(NOTHING, p));
    if Fits(NOTHING, p) { SmallMod(FullLength(NOTHING, p), LenLimit(f)); }
    U32RoundTrip(p.vector);
    assert buf[..] == buf && buf == s + PackU32(p.vector) + p.cid + [] + rest;
    FourParts(buf, 0, s, PackU32(p.vector), p.cid, [], rest);
    assert buf[0] == s[0] && buf[1] == s[1] && (f.l ==> buf[2] == s[2]);
  }
}
