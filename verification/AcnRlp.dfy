/** Root Layer PDU blocks (ANSI E1.17, ACN Architecture, section 2.6): what the packer writes, and
    exactly when the parser reads it back. */
module AcnRlp {
  import opened Options
  import opened AcnBytes
  import opened AcnPdu

  const VECTOR_SIZE: nat := 4
  const CID_SIZE: nat := 16
  const RLP: Constraints := Constraints(VECTOR_SIZE, CID_SIZE)

  const VECTOR_LLRP: nat := 0x0A
  const VECTOR_BROKER: nat := 0x09
  const VECTOR_RPT: nat := 0x05
  const VECTOR_EPT: nat := 0x0B

  datatype RootPdu = RootPdu(cid: seq<byte>, vector: nat, data: seq<byte>)

  /** What the C types guarantee. */
  predicate Typed(p: RootPdu) {
    |p.cid| == CID_SIZE && p.vector < 0x1_0000_0000
  }

  predicate AllTyped(pdus: seq<RootPdu>) {
    forall i :: 0 <= i < |pdus| ==> Typed(pdus[i])
  }

  predicate MandatesL(vector: nat) {
    vector == VECTOR_LLRP || vector == VECTOR_BROKER || vector == VECTOR_RPT || vector == VECTOR_EPT
  }

  /** The segments a PDU takes over from the previous one. */
  datatype Inheritance = Inheritance(vector: bool, header: bool, data: bool)

  const NOTHING := Inheritance(false, false, false)

  function Inherits(prev: Option<RootPdu>, p: RootPdu): Inheritance {
    match prev
    case None => NOTHING
    case Some(q) => Inheritance(p.vector == q.vector, p.cid == q.cid, p.data == q.data)
  }

  /** Everything behind the length field. */
  function Payload(inh: Inheritance, p: RootPdu): nat {
    (if inh.vector then 0 else VECTOR_SIZE) + (if inh.header then 0 else CID_SIZE) + (if inh.data then 0 else |p.data|)
  }

  /** RLP_EXTENDED_LENGTH: the length field itself is not counted. */
  predicate Extended(inh: Inheritance, p: RootPdu) {
    MandatesL(p.vector) || Payload(inh, p) > 4095
  }

  function FlagsFor(inh: Inheritance, p: RootPdu): Flags {
    Flags(Extended(inh, p), !inh.vector, !inh.header, !inh.data)
  }

  function FullLength(inh: Inheritance, p: RootPdu): nat {
    LenSize(FlagsFor(inh, p)) + Payload(inh, p)
  }

  /** The bytes of one PDU. */
  function EncodeOne(inh: Inheritance, p: RootPdu): (s: seq<byte>)
    requires Typed(p)
    ensures |s| == FullLength(inh, p)
  {
    FlagsAndLength(FlagsFor(inh, p), FullLength(inh, p))
    + (if inh.vector then [] else PackU32(p.vector))
    + (if inh.header then [] else p.cid)
    + (if inh.data then [] else p.data)
  }

  /** The bytes of a block that follows the PDU prev. */
  function Encode(prev: Option<RootPdu>, pdus: seq<RootPdu>): seq<byte>
    requires AllTyped(pdus)
    decreases pdus
  {
    if pdus == [] then []
    else EncodeOne(Inherits(prev, pdus[0]), pdus[0]) + Encode(Some(pdus[0]), pdus[1..])
  }

  // ---------- reading ----------

  /** acn_parse_root_layer_pdu on the state after a successful acn_parse_pdu. */
  function View(buf: seq<byte>, st: State): (p: RootPdu)
    requires Safe(buf, RLP, st) && st != INIT
    ensures Typed(p)
  {
    RootPdu(buf[st.header.value..st.header.value + CID_SIZE],
            UnpackU32(buf[st.vector.value..st.vector.value + VECTOR_SIZE]),
            buf[st.data.value..st.data.value + st.dataLen])
  }

  /** The vector, the CID and the data are at the pointers of st. */
  predicate SegmentsAre(buf: seq<byte>, st: State, p: RootPdu)
    requires Safe(buf, RLP, st) && st != INIT
  {
    && p.vector == NumberAt(buf, st.vector.value)
    && p.cid == buf[st.header.value..st.header.value + 16]
    && p.data == buf[st.data.value..st.data.value + st.dataLen]
  }

  lemma {:induction false} ViewedSegments(buf: seq<byte>, st: State)
    requires Safe(buf, RLP, st) && st != INIT
    ensures SegmentsAre(buf, st, View(buf, st))
  {
  }

  /** All PDUs a loop of acn_parse_root_layer_pdu gets out of buf. */
  function Decode(buf: seq<byte>, st: State): seq<RootPdu>
    requires Safe(buf, RLP, st)
    decreases if Accepts(buf, RLP, st) then |buf| - Here(st) + 1 else 0
  {
    if Accepts(buf, RLP, st) then
      ParsedSafe(buf, RLP, st);
      var st1 := Parsed(buf, RLP, st);
      [View(buf, st1)] + Decode(buf, st1)
    else []
  }

  /** acn_parse_root_layer_pdu: one call of the parser, and the PDU it found. */
  method ParseRootLayerPdu(buf: seq<byte>, lastPdu: AcnPdu) returns (pdu: Option<RootPdu>)
    requires Safe(buf, RLP, lastPdu.Value())
    modifies lastPdu
    ensures pdu.Some? <==> Accepts(buf, RLP, old(lastPdu.Value()))
    ensures pdu.None? ==> lastPdu.Value() == old(lastPdu.Value())
    ensures pdu.Some? ==>
      && lastPdu.Value() == Parsed(buf, RLP, old(lastPdu.Value()))
      && Safe(buf, RLP, lastPdu.Value()) && lastPdu.Value() != INIT
      && pdu.value == View(buf, lastPdu.Value())
    ensures pdu.Some? <==> GoodBytes(buf, Constraints(4, 16), old(lastPdu.Value()))
    ensures pdu.Some? ==>
      && InBytes(buf, Constraints(4, 16), old(lastPdu.Value()), lastPdu.Value())
      && SegmentsAre(buf, lastPdu.Value(), pdu.value)
  {
    if Accepts(buf, RLP, lastPdu.Value()) { ParsedSafe(buf, RLP, lastPdu.Value()); }
    var ok := lastPdu.Parse(buf, RLP);
    if ok {
      var vector := UnpackU32(buf[lastPdu.pvector.value..lastPdu.pvector.value + VECTOR_SIZE]);
      var cid := buf[lastPdu.pheader.value..lastPdu.pheader.value + CID_SIZE];
      var data := buf[lastPdu.pdata.value..lastPdu.pdata.value + lastPdu.dataLen];
      pdu := Some(RootPdu(cid, vector, data));
      ViewedSegments(buf, lastPdu.Value());
    } else {
      pdu := None;
    }
  }

  lemma {:induction false} DecodeStep(buf: seq<byte>, st: State, done: seq<RootPdu>)
    requires Safe(buf, RLP, st)
    ensures !Accepts(buf, RLP, st) ==> done + Decode(buf, st) == done
    ensures Accepts(buf, RLP, st) ==>
      var st1 := Parsed(buf, RLP, st);
      && Safe(buf, RLP, st1) && st1 != INIT && Here(st) < Here(st1) <= |buf|
      && done + Decode(buf, st) == (done + [View(buf, st1)]) + Decode(buf, st1)
  {
    if Accepts(buf, RLP, st) {
      ParsedSafe(buf, RLP, st);
      var st1 := Parsed(buf, RLP, st);
      assert Decode(buf, st) == [View(buf, st1)] + Decode(buf, st1);
      Join(done, [View(buf, st1)], Decode(buf, st1));
    } else {
      Join(done, [], []);
    }
  }

  lemma {:induction false} Join(a: seq<RootPdu>, b: seq<RootPdu>, c: seq<RootPdu>)
    ensures a + (b + c) == (a + b) + c && a + [] == a
  {
  }

  /** The loop that its documentation gives for reading a block. */
  method ParseBlock(buf: seq<byte>) returns (pdus: seq<RootPdu>)
    ensures pdus == Decode(buf, INIT)
  {
    var last := new AcnPdu();
    pdus := [];
    while true
      invariant fresh(last) && Safe(buf, RLP, last.Value())
      invariant pdus + Decode(buf, last.Value()) == Decode(buf, INIT)
      decreases |buf| - Here(last.Value())
    {
      DecodeStep(buf, last.Value(), pdus);
      var cur := ParseRootLayerPdu(buf, last);
      if cur.None? { break; }
      pdus := pdus + [cur.value];
    }
  }

  // ---------- the round trip ----------

  /** The full length can be stored: below 4096 in a 2-byte field, below 2^20 in a 3-byte field. */
  predicate Fits(inh: Inheritance, p: RootPdu) {
    FullLength(inh, p) < LenLimit(FlagsFor(inh, p))
  }

  /** Every length fits and the last PDU has something behind its length field. */
  predicate Readable(prev: Option<RootPdu>, pdus: seq<RootPdu>)
    decreases pdus
  {
    pdus != [] ==>
      var inh := Inherits(prev, pdus[0]);
      && Fits(inh, pdus[0])
      && (|pdus| == 1 ==> Payload(inh, pdus[0]) > 0)
      && Readable(Some(pdus[0]), pdus[1..])
  }

  /** What the parser finds at the start of an encoded PDU. */
  lemma {:induction false} FieldAt(buf: seq<byte>, at: nat, inh: Inheritance, p: RootPdu, tail: seq<byte>)
    requires Typed(p) && at <= |buf| && buf[at..] == EncodeOne(inh, p) + tail
    ensures at + FullLength(inh, p) + |tail| == |buf|
    ensures FlagsOf(buf[at]) == FlagsFor(inh, p)
    ensures PduLength(buf[at..]) == FullLength(inh, p) % LenLimit(FlagsFor(inh, p))
    ensures Fits(inh, p) ==> PduLength(buf[at..]) == FullLength(inh, p)
  {
    var f, len := FlagsFor(inh, p), FullLength(inh, p);
    var s := FlagsAndLength(f, len);
    FieldRoundTrip(f, len);
    assert buf[at] == buf[at..][0] == s[0];
    assert buf[at..][1] == s[1];
    assert f.l ==> buf[at..][2] == s[2];
    if Fits(inh, p) { SmallMod(len, LenLimit(f)); }
  }

  lemma {:induction false} SmallMod(x: nat, m: nat)
    requires x < m
    ensures x % m == x
  {
  }

  // Where the segments of a PDU at offset `at` lie.

  function VectorAt(at: nat, inh: Inheritance, p: RootPdu): nat { at + LenSize(FlagsFor(inh, p)) }

  function HeaderAt(at: nat, inh: Inheritance, p: RootPdu): nat {
    VectorAt(at, inh, p) + if inh.vector then 0 else VECTOR_SIZE
  }

  function DataAt(at: nat, inh: Inheritance, p: RootPdu): nat {
    HeaderAt(at, inh, p) + if inh.header then 0 else CID_SIZE
  }

  function DataEnd(at: nat, inh: Inheritance, p: RootPdu): nat {
    DataAt(at, inh, p) + if inh.data then 0 else |p.data|
  }

  /** The parts of an encoded PDU. */
  lemma {:induction false} PartsAt(buf: seq<byte>, at: nat, inh: Inheritance, p: RootPdu, tail: seq<byte>)
    requires Typed(p) && at <= |buf| && buf[at..] == EncodeOne(inh, p) + tail
    ensures DataEnd(at, inh, p) + |tail| == |buf| && buf[DataEnd(at, inh, p)..] == tail
    ensures !inh.vector ==> UnpackU32(buf[VectorAt(at, inh, p)..HeaderAt(at, inh, p)]) == p.vector
    ensures !inh.header ==> buf[HeaderAt(at, inh, p)..DataAt(at, inh, p)] == p.cid
    ensures !inh.data ==> buf[DataAt(at, inh, p)..DataEnd(at, inh, p)] == p.data
  {
    var a := FlagsAndLength(FlagsFor(inh, p), FullLength(inh, p));
    var b := if inh.vector then [] else PackU32(p.vector);
    var c := if inh.header then [] else p.cid;
    var d := if inh.data then [] else p.data;
    FourParts(buf, at, a, b, c, d, tail);
    U32RoundTrip(p.vector);
  }

  lemma {:induction false} FourParts(buf: seq<byte>, at: nat, a: seq<byte>, b: seq<byte>, c: seq<byte>,
                                     d: seq<byte>, t: seq<byte>)
    requires at <= |buf| && buf[at..] == a + b + c + d + t
    ensures var i := at + |a|;
            var j := i + |b|;
            var k := j + |c|;
            var l := k + |d|;
            && l + |t| == |buf|
            && buf[i..j] == b && buf[j..k] == c && buf[k..l] == d && buf[l..] == t
  {
    var s := a + b + c + d + t;
    assert forall i :: 0 <= i < |s| ==> buf[at + i] == s[i];
  }

  /** One PDU that fits is read back, whatever it inherits. */
  lemma {:induction false} ReadsOne(buf: seq<byte>, st: State, prev: Option<RootPdu>, p: RootPdu, tail: seq<byte>)
    requires Safe(buf, RLP, st) && Typed(p)
    requires prev.None? <==> st == INIT
    requires prev.Some? ==> View(buf, st) == prev.value
    requires buf[Here(st)..] == EncodeOne(Inherits(prev, p), p) + tail
    requires Fits(Inherits(prev, p), p) && (Payload(Inherits(prev, p), p) > 0 || tail != [])
    ensures Accepts(buf, RLP, st)
    ensures var st1 := Parsed(buf, RLP, st);
            Safe(buf, RLP, st1) && st1 != INIT && View(buf, st1) == p && buf[Here(st1)..] == tail
  {
    AcceptsOne(buf, st, prev, p, tail);
    ParsedSafe(buf, RLP, st);
    Segments(buf, st, Inherits(prev, p), p, tail);
    ViewsOne(buf, st, Parsed(buf, RLP, st), prev, p);
  }

  lemma {:induction false} AcceptsOne(buf: seq<byte>, st: State, prev: Option<RootPdu>, p: RootPdu, tail: seq<byte>)
    requires Safe(buf, RLP, st) && Typed(p) && (prev.Some? ==> st != INIT)
    requires buf[Here(st)..] == EncodeOne(Inherits(prev, p), p) + tail
    requires Fits(Inherits(prev, p), p) && (Payload(Inherits(prev, p), p) > 0 || tail != [])
    ensures Accepts(buf, RLP, st)
  {
    FieldAt(buf, Here(st), Inherits(prev, p), p, tail);
  }

  /** In st1 the segments that p does not inherit are its own, the others those of st. */
  predicate Filled(buf: seq<byte>, st: State, st1: State, inh: Inheritance, p: RootPdu)
    requires Safe(buf, RLP, st1) && st1 != INIT
  {
    var v, h, d := st1.vector.value, st1.header.value, st1.data.value;
    && (if inh.vector then st1.vector == st.vector else UnpackU32(buf[v..v + VECTOR_SIZE]) == p.vector)
    && (if inh.header then st1.header == st.header else buf[h..h + CID_SIZE] == p.cid)
    && (if inh.data then st1.data == st.data && st1.dataLen == st.dataLen
        else st1.dataLen == |p.data| && buf[d..d + |p.data|] == p.data)
  }

  lemma {:induction false} ViewsOne(buf: seq<byte>, st: State, st1: State, prev: Option<RootPdu>, p: RootPdu)
    requires Safe(buf, RLP, st) && Safe(buf, RLP, st1) && st1 != INIT
    requires prev.None? <==> st == INIT
    requires prev.Some? ==> View(buf, st) == prev.value
    requires Filled(buf, st, st1, Inherits(prev, p), p)
    ensures View(buf, st1) == p
  {
  }

  ghost function Placed(st: State, inh: Inheritance, p: RootPdu): State
    requires Here(st) >= 0
  {
    var at := Here(st);
    State(if inh.vector then st.vector else Some(VectorAt(at, inh, p)),
          if inh.header then st.header else Some(HeaderAt(at, inh, p)),
          if inh.data then st.data else Some(DataAt(at, inh, p)),
          if inh.data then st.dataLen else |p.data|,
          Some(DataEnd(at, inh, p)))
  }

  /** Where the parser's pointers end up, in terms of what was inherited. */
  lemma {:induction false} ParsedFields(buf: seq<byte>, st: State, inh: Inheritance, p: RootPdu, tail: seq<byte>)
    requires Safe(buf, RLP, st) && Typed(p) && Accepts(buf, RLP, st)
    requires buf[Here(st)..] == EncodeOne(inh, p) + tail && Fits(inh, p)
    ensures Parsed(buf, RLP, st) == Placed(st, inh, p)
  {
    FieldAt(buf, Here(st), inh, p, tail);
  }

  lemma {:induction false} PlacedFilled(buf: seq<byte>, st: State, inh: Inheritance, p: RootPdu, tail: seq<byte>)
    requires Typed(p) && 0 <= Here(st) <= |buf| && buf[Here(st)..] == EncodeOne(inh, p) + tail
    requires Safe(buf, RLP, Placed(st, inh, p)) && Placed(st, inh, p) != INIT
    ensures Filled(buf, st, Placed(st, inh, p), inh, p) && buf[Here(Placed(st, inh, p))..] == tail
  {
    PartsAt(buf, Here(st), inh, p, tail);
  }

  lemma {:induction false} Segments(buf: seq<byte>, st: State, inh: Inheritance, p: RootPdu, tail: seq<byte>)
    requires Safe(buf, RLP, st) && Typed(p) && Accepts(buf, RLP, st)
    requires Safe(buf, RLP, Parsed(buf, RLP, st)) && Parsed(buf, RLP, st) != INIT
    requires buf[Here(st)..] == EncodeOne(inh, p) + tail && Fits(inh, p)
    ensures Filled(buf, st, Parsed(buf, RLP, st), inh, p) && buf[Here(Parsed(buf, RLP, st))..] == tail
  {
    ParsedFields(buf, st, inh, p, tail);
    PlacedFilled(buf, st, inh, p, tail);
  }

  /** One PDU whose length does not fit is rejected or read with the wrong data. */
  lemma {:induction false} LosesOne(buf: seq<byte>, st: State, prev: Option<RootPdu>, p: RootPdu, tail: seq<byte>)
    requires Safe(buf, RLP, st) && Typed(p)
    requires buf[Here(st)..] == EncodeOne(Inherits(prev, p), p) + tail
    requires !Fits(Inherits(prev, p), p) && Accepts(buf, RLP, st)
    ensures var st1 := Parsed(buf, RLP, st);
            Safe(buf, RLP, st1) && st1 != INIT && View(buf, st1) != p
  {
    var inh := Inherits(prev, p);
    FieldAt(buf, Here(st), inh, p, tail);
    ParsedSafe(buf, RLP, st);
    var st1 := Parsed(buf, RLP, st);
    assert !inh.data;
    assert st1.dataLen < |p.data|;
  }

  lemma {:induction false} DecodeRest(buf: seq<byte>, st: State, prev: Option<RootPdu>, rest: seq<RootPdu>)
    requires Safe(buf, RLP, st) && AllTyped(rest)
    requires prev.None? <==> st == INIT
    requires prev.Some? ==> View(buf, st) == prev.value
    requires Here(st) <= |buf| && buf[Here(st)..] == Encode(prev, rest)
    ensures Decode(buf, st) == rest <==> Readable(prev, rest)
    decreases rest
  {
    if rest == [] {
      assert Here(st) == |buf|;
    } else {
      var p, inh := rest[0], Inherits(prev, rest[0]);
      var tail := Encode(Some(p), rest[1..]);
      FieldAt(buf, Here(st), inh, p, tail);
      if Payload(inh, p) == 0 && tail == [] {
        assert rest[1..] == [];
      } else if Fits(inh, p) {
        ReadsOne(buf, st, prev, p, tail);
        var st1 := Parsed(buf, RLP, st);
        DecodeRest(buf, st1, Some(p), rest[1..]);
        assert rest == [p] + rest[1..];
      } else if Accepts(buf, RLP, st) {
        LosesOne(buf, st, prev, p, tail);
      }
    }
  }

  /** Packing a block and parsing exactly the packed bytes gives the block back if and only if it
      is readable. */
  lemma {:induction false} BlockRoundTrip(pdus: seq<RootPdu>)
    requires AllTyped(pdus)
    ensures Decode(Encode(None, pdus), INIT) == pdus <==> Readable(None, pdus)
  {
    var buf := Encode(None, pdus);
    assert buf[0..] == buf;
    DecodeRest(buf, INIT, None, pdus);
  }

  /** s with the bytes x written over it from offset `at`. */
  ghost function Over(s: seq<byte>, at: nat, x: seq<byte>): seq<byte>
    requires at + |x| <= |s|
  {
    s[..at] + x + s[at + |x|..]
  }

  // ---------- the wire ----------

  /** The 32-bit number at an offset, most significant byte first. */
  function NumberAt(s: seq<byte>, at: nat): nat
    requires at + 4 <= |s|
  {
    s[at] as int * 0x100_0000 + s[at + 1] as int * 0x1_0000 + s[at + 2] as int * 0x100 + s[at + 3]
  }

  /** These are the bytes of a PDU of which the vector, the CID and the data are sent or not. Bit 0x80 of the
      first byte says that the length field has three bytes; 0x40, 0x20 and 0x10 say what is sent. */
  predicate Wire(s: seq<byte>, vector: bool, cid: bool, data: bool, p: RootPdu) {
    |s| > 0
    && var h := if s[0] / 0x80 % 2 == 1 then 3 else 2;
       var c := h + if vector then 4 else 0;
       var d := c + if cid then 16 else 0;
       && |s| == d + (if data then |p.data| else 0)
       && (h == 3 <==> p.vector == 5 || p.vector == 9 || p.vector == 10 || p.vector == 11 || |s| - h > 4095)
       && (s[0] / 0x40 % 2 == 1 <==> vector)
       && (s[0] / 0x20 % 2 == 1 <==> cid)
       && (s[0] / 0x10 % 2 == 1 <==> data)
       && LengthAt(s, 0) == |s| % (if h == 3 then 0x10_0000 else 0x1000)
       && (vector ==> NumberAt(s, h) == p.vector)
       && (cid ==> s[c..d] == p.cid)
       && (data ==> s[d..] == p.data)
  }

  /** These are the bytes of a block that follows the PDU prev: of each PDU the segments are sent that are not
      those of the one before it. */
  ghost predicate WireBlock(s: seq<byte>, prev: Option<RootPdu>, pdus: seq<RootPdu>)
    decreases pdus
  {
    if pdus == [] then s == []
    else exists n: nat :: n <= |s| && WireNext(s[..n], prev, pdus[0]) && WireBlock(s[n..], Some(pdus[0]), pdus[1..])
  }

  predicate WireNext(s: seq<byte>, prev: Option<RootPdu>, p: RootPdu) {
    match prev
    case None => Wire(s, true, true, true, p)
    case Some(q) => Wire(s, p.vector != q.vector, p.cid != q.cid, p.data != q.data, p)
  }

  lemma {:induction false} WireForm(inh: Inheritance, p: RootPdu)
    requires Typed(p)
    ensures Wire(EncodeOne(inh, p), !inh.vector, !inh.header, !inh.data, p)
  {
    var s := EncodeOne(inh, p);
    assert s[0..] == s == s + [];
    FieldAt(s, 0, inh, p, []);
    PartsAt(s, 0, inh, p, []);
  }

  /** The bytes of an encoded block are those that the format prescribes. */
  lemma {:induction false} EncodedWire(prev: Option<RootPdu>, pdus: seq<RootPdu>)
    requires AllTyped(pdus)
    ensures WireBlock(Encode(prev, pdus), prev, pdus)
    decreases pdus
  {
    if pdus != [] {
      var x, rest := EncodeOne(Inherits(prev, pdus[0]), pdus[0]), Encode(Some(pdus[0]), pdus[1..]);
      WireForm(Inherits(prev, pdus[0]), pdus[0]);
      EncodedWire(Some(pdus[0]), pdus[1..]);
      assert (x + rest)[..|x|] == x && (x + rest)[|x|..] == rest;
    }
  }

  /** Where the vector and the CID of the first PDU of a block are. */
  predicate StartsWith(s: seq<byte>, p: RootPdu) {
    |s| >= 22
    && var h := if s[0] >= 0x80 then 3 else 2;
       && h + 20 <= |s|
       && s[h] as int * 0x100_0000 + s[h + 1] as int * 0x1_0000 + s[h + 2] as int * 0x100 + s[h + 3] == p.vector
       && s[h + 4..h + 20] == p.cid
       && (p.vector == 5 || p.vector == 9 || p.vector == 10 || p.vector == 11 ==> s[0] >= 0x80)
  }

  lemma {:induction false} FirstBytes(s: seq<byte>, one: seq<byte>, rest: seq<byte>, p: RootPdu)
    requires Typed(p) && one == EncodeOne(NOTHING, p) && |one + rest| <= |s| && s[..|one + rest|] == one + rest
    ensures StartsWith(s, p)
  {
    WireForm(NOTHING, p);
    assert one == (one + rest)[..|one|] == s[..|one|];
    WireStarts(s, one, p);
  }

  lemma {:induction false} WireStarts(s: seq<byte>, one: seq<byte>, p: RootPdu)
    requires Typed(p) && Wire(one, true, true, true, p) && |one| <= |s| && one == s[..|one|]
    ensures StartsWith(s, p)
  {
    var h := if s[0] >= 0x80 then 3 else 2;
    assert s[h + 4..h + 20] == one[h + 4..h + 20];
  }

  /** Bytes that hold an encoded block from their start on. */
  lemma {:induction false} BlockBytes(s: seq<byte>, before: seq<byte>, pdus: seq<RootPdu>)
    requires AllTyped(pdus) && |Encode(None, pdus)| <= |before|
    requires s == Over(before, 0, Encode(None, pdus))
    ensures WireBlock(s[..|Encode(None, pdus)|], None, pdus)
    ensures pdus != [] ==> StartsWith(s, pdus[0])
  {
    var x := Encode(None, pdus);
    assert s[..|x|] == x;
    EncodedWire(None, pdus);
    if pdus != [] { FirstBytes(s, EncodeOne(NOTHING, pdus[0]), Encode(Some(pdus[0]), pdus[1..]), pdus[0]); }
  }

  // ---------- the two departures ----------

  /** Which PDUs fit: with a 2-byte field all but those with 4094 or 4095 bytes behind it, which are
      not counted as extended although their full length is 4096 or 4097. */
  lemma {:induction false} FitsExactly(inh: Inheritance, p: RootPdu)
    ensures Fits(inh, p) <==>
      if Extended(inh, p) then Payload(inh, p) < 0x10_0000 - 3
      else Payload(inh, p) != 4094 && Payload(inh, p) != 4095
  {
  }

  /** Such a PDU alone in a block is packed with a length of 0 or 1 and cannot be read. */
  lemma {:induction false} WrappedLength(p: RootPdu)
    requires Typed(p) && !MandatesL(p.vector) && (|p.data| == 4074 || |p.data| == 4075)
    ensures Decode(Encode(None, [p]), INIT) == []
  {
    var buf := Encode(None, [p]);
    assert [p][1..] == [] && Encode(Some(p), []) == [];
    assert buf == buf[0..] == EncodeOne(NOTHING, p) + [];
    FieldAt(buf, 0, NOTHING, p, []);
    assert FullLength(NOTHING, p) == 4096 || FullLength(NOTHING, p) == 4097;
    assert PduLength(buf[0..]) < 2;
  }

  /** A repeated PDU at the end of a block is packed into flags and length only and is not read. */
  lemma {:induction false} RepeatedPdu(p: RootPdu)
    requires Typed(p) && Fits(NOTHING, p)
    ensures Decode(Encode(None, [p, p]), INIT) == [p]
  {
    var all := Inheritance(true, true, true);
    assert [p, p][1..] == [p];
    var buf, tail := Encode(None, [p, p]), EncodeOne(all, p);
    assert Encode(Some(p), [p]) == tail + [] == tail;
    assert buf == buf[0..] == EncodeOne(NOTHING, p) + tail;
    ReadsOne(buf, INIT, None, p, tail);
    var st1 := Parsed(buf, RLP, INIT);
    FieldAt(buf, Here(st1), all, p, []);
    assert !Accepts(buf, RLP, st1);
  }

  // ---------- sizes ----------

  const HEADER_NORMAL: nat := 22
  const HEADER_EXT: nat := 23

  function HeaderSize(p: RootPdu): nat {
    if MandatesL(p.vector) || Payload(NOTHING, p) > 4095 then HEADER_EXT else HEADER_NORMAL
  }

  /** acn_root_layer_buf_size */
  function BufSize(pdus: seq<RootPdu>): nat {
    if pdus == [] then 0 else |pdus[0].data| + HeaderSize(pdus[0]) + BufSize(pdus[1..])
  }

  /** What one PDU adds to it. */
  lemma {:induction false} SizeOfOne(p: RootPdu, rest: seq<RootPdu>)
    ensures BufSize([p] + rest) == BufSize(rest) + |p.data|
      + if p.vector == 5 || p.vector == 9 || p.vector == 10 || p.vector == 11 || |p.data| > 4075 then 23 else 22
  {
    assert ([p] + rest)[1..] == rest;
  }

  /** No PDU shares a segment with the one before it. */
  predicate NothingShared(prev: Option<RootPdu>, pdus: seq<RootPdu>)
    decreases pdus
  {
    pdus != [] ==> Inherits(prev, pdus[0]) == NOTHING && NothingShared(Some(pdus[0]), pdus[1..])
  }

  /** The packed block is never longer than the size computed in advance, and exactly as long if
      nothing is inherited. */
  lemma {:induction false} EncodedSize(prev: Option<RootPdu>, pdus: seq<RootPdu>)
    requires AllTyped(pdus)
    ensures |Encode(prev, pdus)| <= BufSize(pdus)
    ensures NothingShared(prev, pdus) ==> |Encode(prev, pdus)| == BufSize(pdus)
    decreases pdus
  {
    if pdus != [] {
      EncodedSize(Some(pdus[0]), pdus[1..]);
    }
  }

  // ---------- packing into a buffer ----------

  function Previous(prev: Option<RootPdu>, done: seq<RootPdu>): Option<RootPdu> {
    if done == [] then prev else Some(done[|done| - 1])
  }

  lemma {:induction false} EncodeSnoc(prev: Option<RootPdu>, done: seq<RootPdu>, p: RootPdu)
    requires AllTyped(done) && Typed(p)
    ensures AllTyped(done + [p])
    ensures Encode(prev, done + [p]) == Encode(prev, done) + EncodeOne(Inherits(Previous(prev, done), p), p)
    decreases done
  {
    if done == [] {
      assert [p][1..] == [];
    } else {
      assert (done + [p])[1..] == done[1..] + [p];
      EncodeSnoc(Some(done[0]), done[1..], p);
      Associate(EncodeOne(Inherits(prev, done[0]), done[0]), Encode(Some(done[0]), done[1..]),
                EncodeOne(Inherits(Previous(prev, done), p), p));
    }
  }

  lemma {:induction false} Associate(a: seq<byte>, b: seq<byte>, c: seq<byte>)
    ensures a + (b + c) == (a + b) + c
  {
  }

  /** "b |= flag" for a flag given by its weight. */
  function Or(b: byte, weight: nat): (r: byte)
    requires weight == L_FLAG || weight == V_FLAG || weight == H_FLAG || weight == D_FLAG
  {
    if Bit(b, weight) then b else b + weight
  }

  lemma {:induction false} OverTwice(s: seq<byte>, at: nat, x: seq<byte>, y: seq<byte>)
    requires at + |x| + |y| <= |s|
    ensures Over(Over(s, at, x), at + |x|, y) == Over(s, at, x + y)
  {
  }

  /** memcpy */
  method Copy(buf: array<byte>, at: nat, src: seq<byte>)
    requires at + |src| <= buf.Length
    modifies buf
    ensures buf[..] == Over(old(buf[..]), at, src)
  {
    forall i | 0 <= i < |src| { buf[at + i] := src[i]; }
  }

  /** ACN_PDU_PACK_EXT_LEN and ACN_PDU_PACK_NORMAL_LEN; the flags are already in the first byte. */
  method PackLength(buf: array<byte>, at: nat, f: Flags, len: nat)
    requires at + LenSize(f) <= buf.Length && buf[at] == FlagBits(f)
    modifies buf
    ensures buf[..] == Over(old(buf[..]), at, FlagsAndLength(f, len))
  {
    if f.l {
      buf[at] := buf[at] / 16 * 16 + len / 0x1_0000 % 16;
      buf[at + 1] := len / 0x100 % 256;
      buf[at + 2] := len % 256;
    } else {
      buf[at] := buf[at] / 16 * 16 + len / 0x100 % 16;
      buf[at + 1] := len % 256;
    }
  }

  /** evaluate_pdu_inheritance: sets the flags of the PDU at `at` and brings `last` up to date. */
  method EvaluateInheritance(buf: array<byte>, at: nat, first: bool, p: RootPdu, last: RootPdu)
    returns (inh: Inheritance, newLast: RootPdu)
    requires at < buf.Length
    modifies buf
    ensures inh == Inherits(if first then None else Some(last), p)
    ensures newLast == p
    ensures buf[..] == Over(old(buf[..]), at, [FlagBits(Flags(false, !inh.vector, !inh.header, !inh.data))])
    ensures buf[at] as int ==
      (if inh.vector then 0 else 0x40) + (if inh.header then 0 else 0x20) + (if inh.data then 0 else 0x10)
  {
    inh, newLast := Inheritance(true, true, true), last;
    buf[at] := 0;
    if first || p.vector != newLast.vector {
      buf[at] := Or(buf[at], V_FLAG);
      inh := inh.(vector := false);
      newLast := newLast.(vector := p.vector);
    }
    if first || p.cid != newLast.cid {
      buf[at] := Or(buf[at], H_FLAG);
      inh := inh.(header := false);
      newLast := newLast.(cid := p.cid);
    }
    if first || p.data != newLast.data {
      buf[at] := Or(buf[at], D_FLAG);
      inh := inh.(data := false);
      newLast := newLast.(data := p.data);
    }
  }

  /** Writes one PDU behind its flags; returns the offset behind it. */
  method PackPdu(buf: array<byte>, at: nat, inh: Inheritance, p: RootPdu) returns (cur: nat)
    requires Typed(p) && at + FullLength(inh, p) <= buf.Length
    requires buf[at] == FlagBits(Flags(false, !inh.vector, !inh.header, !inh.data))
    modifies buf
    ensures cur == at + FullLength(inh, p)
    ensures buf[..] == Over(old(buf[..]), at, EncodeOne(inh, p))
  {
    ghost var before := buf[..];
    var f, len := FlagsFor(inh, p), FullLength(inh, p);
    if f.l { buf[at] := Or(buf[at], L_FLAG); }
    PackLength(buf, at, f, len);
    cur := at + LenSize(f);
    cur := PackSegment(buf, cur, !inh.vector, PackU32(p.vector), before, at, FlagsAndLength(f, len));
    cur := PackSegment(buf, cur, !inh.header, p.cid, before, at,
                       FlagsAndLength(f, len) + if inh.vector then [] else PackU32(p.vector));
    cur := PackSegment(buf, cur, !inh.data, p.data, before, at,
                       FlagsAndLength(f, len) + (if inh.vector then [] else PackU32(p.vector))
                       + if inh.header then [] else p.cid);
  }

  /** Writes one segment unless it is inherited. `done` is what the PDU consists of so far. */
  method PackSegment(buf: array<byte>, at: nat, present: bool, src: seq<byte>,
                     ghost before: seq<byte>, ghost start: nat, ghost done: seq<byte>)
    returns (cur: nat)
    requires start + |done| == at && at + (if present then |src| else 0) <= buf.Length == |before|
    requires buf[..] == Over(before, start, done)
    modifies buf
    ensures cur == at + if present then |src| else 0
    ensures buf[..] == Over(before, start, done + if present then src else [])
  {
    cur := at;
    if present {
      Copy(buf, cur, src);
      OverTwice(before, start, done, src);
      cur := cur + |src|;
    } else {
      assert done + [] == done;
    }
  }

  lemma {:induction false} BufSizeSplit(a: seq<RootPdu>, b: seq<RootPdu>)
    ensures BufSize(a + b) == BufSize(a) + BufSize(b)
  {
    if a == [] {
      assert a + b == b;
    } else {
      assert (a + b)[1..] == a[1..] + b;
      BufSizeSplit(a[1..], b);
    }
  }

  method ComputeBufSize(pdus: seq<RootPdu>) returns (size: nat)
    ensures size == BufSize(pdus)
  {
    size := 0;
    for i := 0 to |pdus|
      invariant size == BufSize(pdus[..i])
    {
      var p := pdus[i];
      size := size + |p.data|;
      size := size + if MandatesL(p.vector) || Payload(NOTHING, p) > 4095 then HEADER_EXT else HEADER_NORMAL;
      assert pdus[..i + 1] == pdus[..i] + [p];
      BufSizeSplit(pdus[..i], [p]);
      assert BufSize([p]) == |p.data| + HeaderSize(p);
    }
    assert pdus[..|pdus|] == pdus;
  }

  /** One round of the packer's loop. `done` is what it has written so far. */
  method PackNext(buf: array<byte>, at: nat, first: bool, p: RootPdu, last: RootPdu,
                  ghost before: seq<byte>, ghost done: seq<byte>)
    returns (cur: nat, newLast: RootPdu)
    requires Typed(p) && at == |done|
    requires at + FullLength(Inherits(if first then None else Some(last), p), p) <= buf.Length == |before|
    requires buf[..] == Over(before, 0, done)
    modifies buf
    ensures newLast == p
    ensures cur == at + |EncodeOne(Inherits(if first then None else Some(last), p), p)|
    ensures buf[..] == Over(before, 0, done + EncodeOne(Inherits(if first then None else Some(last), p), p))
  {
    var inh;
    inh, newLast := EvaluateInheritance(buf, at, first, p, last);
    ghost var flagged := buf[..];
    cur := PackPdu(buf, at, inh, p);
    OverFlag(before, done, flagged, EncodeOne(inh, p));
  }

  /** acn_pack_root_layer_block: packs nothing into a buffer that might be too small; otherwise
      everything written lies below the size returned. */
  method PackBlock(buf: array<byte>, pdus: seq<RootPdu>) returns (n: nat)
    requires AllTyped(pdus)
    modifies buf
    ensures BufSize(pdus) > buf.Length ==> n == 0 && buf[..] == old(buf[..])
    ensures BufSize(pdus) <= buf.Length ==>
      && n == |Encode(None, pdus)| <= BufSize(pdus)
      && buf[..] == Over(old(buf[..]), 0, Encode(None, pdus))
      && WireBlock(buf[..n], None, pdus)
    ensures BufSize(pdus) <= buf.Length && pdus != [] ==> StartsWith(buf[..], pdus[0])
  {
    var size := ComputeBufSize(pdus);
    if size > buf.Length { return 0; }
    ghost var before := buf[..];
    n := PackAll(buf, pdus);
    EncodedSize(None, pdus);
    BlockBytes(buf[..], before, pdus);
  }

  /** The loop over the PDUs. */
  method PackAll(buf: array<byte>, pdus: seq<RootPdu>) returns (cur: nat)
    requires AllTyped(pdus) && BufSize(pdus) <= buf.Length
    modifies buf
    ensures cur == |Encode(None, pdus)| <= buf.Length
    ensures buf[..] == Over(old(buf[..]), 0, Encode(None, pdus))
  {
    ghost var before := buf[..];
    cur := 0;
    var last := RootPdu(seq(CID_SIZE, _ => 0), 0, []);
    assert pdus[..0] == [];
    for i := 0 to |pdus|
      invariant AllTyped(pdus[..i])
      invariant cur == |Encode(None, pdus[..i])| <= buf.Length
      invariant buf[..] == Over(before, 0, Encode(None, pdus[..i]))
      invariant i > 0 ==> last == pdus[i - 1]
    {
      var p := pdus[i];
      RoomForNext(pdus, i);
      cur, last := PackNext(buf, cur, i == 0, p, last, before, Encode(None, pdus[..i]));
    }
    assert pdus[..|pdus|] == pdus;
  }

  /** The i-th PDU still has room, and extends the block as the specification says. */
  lemma {:induction false} RoomForNext(pdus: seq<RootPdu>, i: nat)
    requires AllTyped(pdus) && i < |pdus|
    ensures AllTyped(pdus[..i]) && AllTyped(pdus[..i + 1])
    ensures var inh := Inherits(if i == 0 then None else Some(pdus[i - 1]), pdus[i]);
            && Encode(None, pdus[..i + 1]) == Encode(None, pdus[..i]) + EncodeOne(inh, pdus[i])
            && |Encode(None, pdus[..i])| + FullLength(inh, pdus[i]) <= BufSize(pdus)
  {
    assert pdus[..i + 1] == pdus[..i] + [pdus[i]];
    EncodeSnoc(None, pdus[..i], pdus[i]);
    EncodedSize(None, pdus[..i + 1]);
    assert pdus == pdus[..i + 1] + pdus[i + 1..];
    BufSizeSplit(pdus[..i + 1], pdus[i + 1..]);
  }

  lemma {:induction false} OverFlag(before: seq<byte>, done: seq<byte>, flagged: seq<byte>, x: seq<byte>)
    requires |done| + |x| <= |before| && x != [] && |flagged| == |before|
    requires exists b: byte {:trigger [b]} :: flagged == Over(Over(before, 0, done), |done|, [b])
    ensures Over(flagged, |done|, x) == Over(before, 0, done + x)
  {
  }
}
