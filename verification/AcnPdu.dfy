/** The inheritance-aware PDU parser acn_parse_pdu (ANSI E1.17, ACN Architecture, section 2.4). */
module AcnPdu {
  import opened Options
  import opened AcnBytes

  /** The sizes of the vector and header segments. */
  datatype Constraints = Constraints(vectorSize: nat, headerSize: nat)

  /** The contents of an AcnPdu structure. Pointers are offsets from the start of the buffer. */
  datatype State = State(vector: Option<int>, header: Option<int>, data: Option<int>, dataLen: nat, next: Option<int>)

  /** ACN_PDU_INIT */
  const INIT := State(None, None, None, 0, None)

  // ---------- one call, as a function ----------

  function Here(st: State): int {
    if st.next.Some? then st.next.value else 0
  }

  /** What a previous PDU left behind; nothing before the first one. */
  function Known(st: State, p: Option<int>): Option<int> {
    if st.next.Some? then p else None
  }

  function HeaderLength(f: Flags, k: Constraints): nat {
    LenSize(f) + (if f.v then k.vectorSize else 0) + (if f.h then k.headerSize else 0)
  }

  predicate Accepts(buf: seq<byte>, k: Constraints, st: State) {
    && 0 <= Here(st) < |buf|
    && var f := FlagsOf(buf[Here(st)]);
       && Here(st) + LenSize(f) < |buf|
       && var len := PduLength(buf[Here(st)..]);
          && (f.v || Known(st, st.vector).Some?)
          && (f.h || Known(st, st.header).Some?)
          && (f.d || Known(st, st.data).Some?)
          && HeaderLength(f, k) <= len && Here(st) + len <= |buf|
  }

  function Parsed(buf: seq<byte>, k: Constraints, st: State): State
    requires Accepts(buf, k, st)
  {
    var at, f := Here(st), FlagsOf(buf[Here(st)]);
    var len, hdr := PduLength(buf[at..]), HeaderLength(f, k);
    State(if f.v then Some(at + LenSize(f)) else st.vector,
          if f.h then Some(at + hdr - k.headerSize) else st.header,
          if f.d then Some(at + hdr) else st.data,
          if f.d then len - hdr else st.dataLen,
          Some(at + if f.d then len else hdr))
  }

  // ---------- the same in bytes ----------

  /** How the length is stored: in the lower 20 bits of three bytes, or the lower 12 bits of two. */
  function LengthAt(buf: seq<byte>, at: nat): nat
    requires at < |buf| && at + (if buf[at] / 0x80 % 2 == 1 then 3 else 2) <= |buf|
  {
    if buf[at] / 0x80 % 2 == 1 then buf[at] as int % 16 * 0x1_0000 + buf[at + 1] as int * 0x100 + buf[at + 2]
    else buf[at] as int % 16 * 0x100 + buf[at + 1]
  }

  /** Whether the bytes at the position of the PDU are acceptable: a segment whose flag is not set has to be
      known from the PDU before. */
  predicate GoodBytes(buf: seq<byte>, k: Constraints, st: State) {
    var at := if st.next.Some? then st.next.value else 0;
    && 0 <= at < |buf|
    && var b: int := buf[at];
       var h := if b / 0x80 % 2 == 1 then 3 else 2;
       && at + h < |buf|
       && (b / 0x40 % 2 == 1 || (st.next.Some? && st.vector.Some?))
       && (b / 0x20 % 2 == 1 || (st.next.Some? && st.header.Some?))
       && (b / 0x10 % 2 == 1 || (st.next.Some? && st.data.Some?))
       && h + (if b / 0x40 % 2 == 1 then k.vectorSize else 0) + (if b / 0x20 % 2 == 1 then k.headerSize else 0)
          <= LengthAt(buf, at) <= |buf| - at
  }

  /** What a success means for the bytes at the position of the PDU. */
  predicate InBytes(buf: seq<byte>, k: Constraints, st: State, st1: State) {
    var at := if st.next.Some? then st.next.value else 0;
    && 0 <= at < |buf|
    && var b: int := buf[at];
       var v := at + if b / 0x80 % 2 == 1 then 3 else 2;
       && v < |buf|
       && var end := at + LengthAt(buf, at);
       var h := v + if b / 0x40 % 2 == 1 then k.vectorSize else 0;
       var d := h + if b / 0x20 % 2 == 1 then k.headerSize else 0;
       && (st1.vector == if b / 0x40 % 2 == 1 then Some(v) else st.vector)
       && (st1.header == if b / 0x20 % 2 == 1 then Some(h) else st.header)
       && (st1.data == if b / 0x10 % 2 == 1 then Some(d) else st.data)
       && (st1.dataLen == if b / 0x10 % 2 == 1 then end - d else st.dataLen)
       && (st1.next == Some(if b / 0x10 % 2 == 1 then end else d))
  }

  /** The specification says this. */
  lemma {:induction false} BytesMean(buf: seq<byte>, k: Constraints, st: State)
    ensures Accepts(buf, k, st) <==> GoodBytes(buf, k, st)
    ensures Accepts(buf, k, st) ==> InBytes(buf, k, st, Parsed(buf, k, st))
  {
    var at := Here(st);
    if 0 <= at && at + 2 < |buf| {
      var s := buf[at..];
      assert s[0] == buf[at] && s[1] == buf[at + 1] && s[2] == buf[at + 2];
    }
  }

  class AcnPdu {
    var pvector: Option<int>
    var pheader: Option<int>
    var pdata: Option<int>
    var dataLen: nat
    var pnextpdu: Option<int>

    constructor ()
      ensures Value() == INIT
      ensures pvector == None && pheader == None && pdata == None && dataLen == 0 && pnextpdu == None
    {
      pvector, pheader, pdata, dataLen, pnextpdu := None, None, None, 0, None;
    }

    function Value(): State
      reads this
    {
      State(pvector, pheader, pdata, dataLen, pnextpdu)
    }

    /** Parses the next PDU of the block in buf. A failing call changes nothing. */
    method Parse(buf: seq<byte>, k: Constraints) returns (ok: bool)
      modifies this
      ensures ok == Accepts(buf, k, old(Value()))
      ensures Value() == if ok then Parsed(buf, k, old(Value())) else old(Value())
      ensures ok == GoodBytes(buf, k, old(Value()))
      ensures !ok || InBytes(buf, k, old(Value()), Value())
    {
      BytesMean(buf, k, Value());
      if |buf| == 0 { return false; }
      var this_pdu := 0;
      var prevVect, prevHead, prevData: Option<int> := None, None, None;
      if pnextpdu.Some? {
        if pnextpdu.value < 0 || pnextpdu.value >= |buf| { return false; }
        this_pdu := pnextpdu.value;
        prevVect, prevHead, prevData := pvector, pheader, pdata;
      }
      var flagsByte := buf[this_pdu];
      var extLength := Bit(flagsByte, L_FLAG);
      var inheritVect := !Bit(flagsByte, V_FLAG);
      var inheritHead := !Bit(flagsByte, H_FLAG);
      var inheritData := !Bit(flagsByte, D_FLAG);

      var cur := this_pdu;
      if cur + (if extLength then 3 else 2) >= |buf| { return false; }

      var pduLen := PduLength(buf[this_pdu..]);
      var minPduLen := (if extLength then 3 else 2)
        + (if inheritVect then 0 else k.vectorSize) + (if inheritHead then 0 else k.headerSize);
      if (inheritVect && prevVect.None?) || (inheritHead && prevHead.None?) || (inheritData && prevData.None?)
         || pduLen < minPduLen || this_pdu + pduLen > |buf|
      {
        return false;
      }

      cur := cur + if extLength then 3 else 2;
      SetSegments(cur, this_pdu + pduLen, inheritVect, inheritHead, inheritData, k);
      ok := true;
    }

    /** Points at the segments that are not inherited, from `at` on, and at the next PDU. */
    method SetSegments(at: int, end: int, inheritVect: bool, inheritHead: bool, inheritData: bool, k: Constraints)
      requires at + (if inheritVect then 0 else k.vectorSize) + (if inheritHead then 0 else k.headerSize) <= end
      modifies this
      ensures pvector == if inheritVect then old(pvector) else Some(at)
      ensures var h := at + if inheritVect then 0 else k.vectorSize;
              var d := h + if inheritHead then 0 else k.headerSize;
              && pheader == (if inheritHead then old(pheader) else Some(h))
              && pdata == (if inheritData then old(pdata) else Some(d))
              && dataLen == (if inheritData then old(dataLen) else end - d)
              && pnextpdu == Some(if inheritData then d else end)
    {
      var cur := at;
      if !inheritVect {
        pvector := Some(cur);
        cur := cur + k.vectorSize;
      }
      if !inheritHead {
        pheader := Some(cur);
        cur := cur + k.headerSize;
      }
      if !inheritData {
        pdata := Some(cur);
        dataLen := end - cur;
        cur := cur + dataLen;
      }
      pnextpdu := Some(cur);
    }
  }

  // ---------- runs of calls ----------

  predicate Inside(buf: seq<byte>, p: Option<int>, size: nat) {
    p.Some? && 0 <= p.value && p.value + size <= |buf|
  }

  /** The state after some successful calls on buf: all it points to lies inside the buffer. */
  predicate Safe(buf: seq<byte>, k: Constraints, st: State) {
    st == INIT ||
    (&& Inside(buf, st.vector, k.vectorSize) && Inside(buf, st.header, k.headerSize)
     && Inside(buf, st.data, st.dataLen) && Inside(buf, st.next, 0))
  }

  /** A success stays inside the buffer and moves on by at least two bytes. */
  lemma {:induction false} ParsedSafe(buf: seq<byte>, k: Constraints, st: State)
    requires Safe(buf, k, st) && Accepts(buf, k, st)
    ensures Safe(buf, k, Parsed(buf, k, st)) && Parsed(buf, k, st) != INIT
    ensures Here(st) + 2 <= Here(Parsed(buf, k, st)) <= |buf|
  {
  }

  /** The states after each call of a loop that parses until a call fails. */
  function Run(buf: seq<byte>, k: Constraints, st: State): seq<State>
    decreases if Accepts(buf, k, st) then |buf| - Here(st) + 1 else 0
  {
    if Accepts(buf, k, st) then
      var st1 := Parsed(buf, k, st);
      [st1] + Run(buf, k, st1)
    else []
  }

  /** The parse loop ends after at most half as many successes as the buffer has bytes, and every
      state on the way is safe. */
  lemma {:induction false} RunSafe(buf: seq<byte>, k: Constraints, st: State)
    requires Safe(buf, k, st)
    ensures forall i :: 0 <= i < |Run(buf, k, st)| ==> Safe(buf, k, Run(buf, k, st)[i])
    ensures 2 * |Run(buf, k, st)| <= |buf| - Here(st)
    decreases |buf| - Here(st)
  {
    if Accepts(buf, k, st) {
      ParsedSafe(buf, k, st);
      RunSafe(buf, k, Parsed(buf, k, st));
    }
  }
}
