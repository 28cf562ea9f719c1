/** How a response leaves an HTTP/2 connection: its header fields as one
    HEADERS frame, and a streamed body through a sink. */
module Response {
  import opened Bits
  import opened Fields
  import opened Frames
  import opened HpackTable
  import opened HpackPrimitives
  import opened Hpack
  import opened Output
  import Http1

  // ---- Header fields ----

  const STATUS := Ascii(":status")

  /** Names that are not to go into a frame, those of this connection only and
      the date, in lower case. */
  predicate Forbidden(name: Bytes) {
    name == Ascii("connection") || name == Ascii("transfer-encoding") || name == Ascii("date")
  }

  /** The spellings under which they are left out. */
  predicate Skipped(name: Bytes) {
    Forbidden(name) || name == Ascii("Connection") || name == Ascii("Transfer-Encoding") || name == Ascii("Date")
  }

  function Lowered(h: Header): Header {
    Header(Http1.Lower(h.name), h.value)
  }

  /** What is written of the first `n` headers. */
  function Kept(hs: seq<Header>, n: nat): seq<Header>
    requires n <= |hs|
  {
    if n == 0 then []
    else Kept(hs, n - 1) + (if Skipped(hs[n - 1].name) then [] else [Lowered(hs[n - 1])])
  }

  function ResponseFields(status: Bytes, hs: seq<Header>): seq<Header> {
    [Header(STATUS, status)] + Kept(hs, |hs|)
  }

  /** Names and values whose lengths are 32-bit, as the frame codec needs them. */
  predicate Sizable(hs: seq<Header>) {
    forall i :: 0 <= i < |hs| ==> Writable(hs[i])
  }

  method WriteResponseHeaders(out: H2Output, sid: nat, status: Bytes, hs: seq<Header>)
    requires out.Valid() && |status| < TWO32 && Sizable(hs)
    modifies out`output, out`log
    ensures out.Valid()
    ensures out.log == old(out.log) + [FrameOf(HeaderBlock(sid, EncodeBlock(ResponseFields(status, hs)), true))]
  {
    hide EncodeBlock, H2Output.Valid, ResponseFields;
    var fields := CollectFields(status, hs);
    FieldsWritable(status, hs);
    var block := Encode(fields);
    out.WriteHeaders(sid, block, true);
  }

  method CollectFields(status: Bytes, hs: seq<Header>) returns (fields: seq<Header>)
    ensures fields == ResponseFields(status, hs)
  {
    hide Ascii, Skipped;
    fields := [Header(STATUS, status)];
    for i := 0 to |hs|
      invariant fields == [Header(STATUS, status)] + Kept(hs, i)
    {
      if !Skipped(hs[i].name) {
        var name := Http1.LowerCase(hs[i].name);
        fields := fields + [Header(name, hs[i].value)];
      }
    }
  }

  lemma {:induction false} KeptFrom(hs: seq<Header>, n: nat, f: Header)
    requires n <= |hs| && f in Kept(hs, n)
    ensures exists i :: 0 <= i < n && !Skipped(hs[i].name) && f == Lowered(hs[i])
  {
    hide Skipped, Lowered;
    if f in Kept(hs, n - 1) {
      KeptFrom(hs, n - 1, f);
    }
  }

  lemma {:induction false} KeptHas(hs: seq<Header>, n: nat, i: nat)
    requires i < n <= |hs| && !Skipped(hs[i].name)
    ensures Lowered(hs[i]) in Kept(hs, n)
  {
    hide Skipped, Lowered, Ascii;
    if i < n - 1 {
      KeptHas(hs, n - 1, i);
    }
  }

  lemma {:induction false} KeptPrefix(a: seq<Header>, b: seq<Header>, n: nat)
    requires n <= |a|
    ensures Kept(a + b, n) == Kept(a, n)
  {
    hide Skipped, Lowered;
    if n > 0 {
      KeptPrefix(a, b, n - 1);
    }
  }

  /** Each header is written or not by itself, and their order is kept. */
  lemma {:induction false} KeptJoins(a: seq<Header>, b: seq<Header>, n: nat)
    requires n <= |b|
    ensures Kept(a + b, |a| + n) == Kept(a, |a|) + Kept(b, n)
  {
    hide Skipped, Lowered;
    if n == 0 {
      KeptPrefix(a, b, |a|);
    } else {
      KeptJoins(a, b, n - 1);
      assert (a + b)[|a| + n - 1] == b[n - 1];
    }
  }

  /** A header is left out exactly under six spellings; any other is written,
      its name in lower case and its value unchanged. */
  lemma KeptOne(h: Header)
    ensures var out := h.name == Ascii("Connection") || h.name == Ascii("connection")
                       || h.name == Ascii("Transfer-Encoding") || h.name == Ascii("transfer-encoding")
                       || h.name == Ascii("Date") || h.name == Ascii("date");
            Kept([h], 1) == if out then [] else [Header(Http1.Lower(h.name), h.value)]
  {
    hide Ascii, Http1.Lower;
    assert Kept([h], 0) == [];
  }

  function AllLowered(hs: seq<Header>): seq<Header> {
    seq(|hs|, i requires 0 <= i < |hs| => Lowered(hs[i]))
  }

  /** Under every name but three all values are written, in order. */
  lemma {:induction false} KeptValues(hs: seq<Header>, n: nat, name: Bytes)
    requires n <= |hs|
    requires name !in {Ascii("connection"), Ascii("transfer-encoding"), Ascii("date")}
    ensures Values(Kept(hs, n), name) == Values(AllLowered(hs[..n]), name)
  {
    hide Ascii, Values;
    NoValues(name);
    if n == 0 {
      assert AllLowered(hs[..0]) == [];
    } else {
      KeptValues(hs, n - 1, name);
      var h := hs[n - 1];
      assert AllLowered(hs[..n]) == AllLowered(hs[..n - 1]) + [Lowered(h)];
      ValuesJoin(AllLowered(hs[..n - 1]), [Lowered(h)], name);
      ValuesJoin(Kept(hs, n - 1), if Skipped(h.name) then [] else [Lowered(h)], name);
      ValuesOne(Lowered(h), name);
      if Skipped(h.name) {
        SkippedLowers(h.name);
      }
    }
  }

  lemma SkippedLowers(name: Bytes)
    requires Skipped(name)
    ensures Http1.Lower(name) in {Ascii("connection"), Ascii("transfer-encoding"), Ascii("date")}
  {
    Http1.LowerText("Connection", "connection");
    Http1.LowerText("connection", "connection");
    Http1.LowerText("Transfer-Encoding", "transfer-encoding");
    Http1.LowerText("transfer-encoding", "transfer-encoding");
    Http1.LowerText("Date", "date");
    Http1.LowerText("date", "date");
  }

  lemma FieldsWritable(status: Bytes, hs: seq<Header>)
    requires |status| < TWO32 && Sizable(hs)
    ensures forall h :: h in ResponseFields(status, hs) ==> Writable(h)
  {
    hide Skipped;
    forall h | h in Kept(hs, |hs|) ensures Writable(h) {
      KeptFrom(hs, |hs|, h);
    }
  }

  /** A client that keeps the rules of HPACK decodes the status and the kept
      headers, in order, from the block, and its table stays as it was. */
  lemma ResponseRead(st: Decoding, status: Bytes, hs: seq<Header>, mem: Memory)
    requires Consistent(st.table) && AllRoom(mem) && |status| < TWO32 && Sizable(hs)
    requires forall i :: 0 <= i < |hs| ==> hs[i].name != []
    ensures DecodeBlock(st, EncodeBlock(ResponseFields(status, hs)), mem)
         == BlockResult(true, st.(delivered := st.delivered + ResponseFields(status, hs)))
  {
    hide DecodeBlock, EncodeBlock, Consistent, AllRoom, Skipped;
    FieldsWritable(status, hs);
    forall h | h in ResponseFields(status, hs) ensures Encodable(h) {
      if h in Kept(hs, |hs|) {
        KeptFrom(hs, |hs|, h);
      }
    }
    BlockRoundTrip(st, ResponseFields(status, hs), mem);
  }

  /** No field that is to be left out is written, exactly if each is spelled
      in one of the two ways looked for. */
  lemma ForbiddenExactly(status: Bytes, hs: seq<Header>)
    ensures (forall f :: f in ResponseFields(status, hs) ==> !Forbidden(f.name))
       <==> (forall i :: 0 <= i < |hs| && Forbidden(Http1.Lower(hs[i].name)) ==> Skipped(hs[i].name))
  {
    assert !Forbidden(STATUS) by { assert STATUS[0] == 58; }
    hide Skipped, Forbidden, Http1.Lower, Ascii;
    if i :| 0 <= i < |hs| && Forbidden(Http1.Lower(hs[i].name)) && !Skipped(hs[i].name) {
      KeptHas(hs, |hs|, i);
    } else {
      forall f | f in ResponseFields(status, hs) ensures !Forbidden(f.name) {
        if f in Kept(hs, |hs|) {
          KeptFrom(hs, |hs|, f);
        }
      }
    }
  }

  /** In capitals, a header that is to be left out is passed on. */
  lemma CapitalsPass(status: Bytes, value: Bytes)
    ensures Header(Ascii("date"), value) in ResponseFields(status, [Header(Ascii("DATE"), value)])
  {
    var h := Header(Ascii("DATE"), value);
    Http1.LowerText("DATE", "date");
    assert !Skipped(h.name) by { assert h.name[0] == 68 && h.name[1] == 65; }
    KeptHas([h], 1, 0);
  }

  // ---- Streamed bodies ----

  /** What a handler does with its sink: a chunk, with how the flush went, or
      the end. */
  datatype SinkOp = Chunk(data: Bytes, flushed: bool) | End

  /** The handlers' side of a streamed response. */
  class H2StreamSink {
    const out: H2Output
    const sid: nat
    var ended: bool

    constructor (out: H2Output, sid: nat)
      ensures this.out == out && this.sid == sid && !ended
    {
      this.out, this.sid, ended := out, sid, false;
    }

    /** `flushed`: whether the flush after it succeeds. */
    method Write(data: Bytes, flushed: bool) returns (ok: bool)
      requires out.Valid()
      modifies `ended, out`output, out`log
      ensures out.Valid() && ok == (!old(ended) && flushed) && ended == !ok
      ensures out.log == old(out.log) + Sent(sid, old(ended), [Chunk(data, flushed)], 1)
    {
      hide H2Output.Valid;
      if ended {
        return false;
      }
      out.WriteData(sid, data, false);
      ok := flushed;
      if !ok {
        ended := true;
      }
    }

    method Finish()
      requires out.Valid()
      modifies `ended, out`output, out`log
      ensures out.Valid() && ended && out.log == old(out.log) + Sent(sid, old(ended), [End], 1)
    {
      hide H2Output.Valid;
      if !ended {
        out.WriteData(sid, [], true);
        ended := true;
      }
    }

    /** Any use of the sink. */
    method Run(ops: seq<SinkOp>)
      requires out.Valid()
      modifies `ended, out`output, out`log
      ensures out.Valid() && ended == EndedAfter(old(ended), ops, |ops|)
      ensures out.log == old(out.log) + Sent(sid, old(ended), ops, |ops|)
    {
      hide H2Output.Valid, FrameOf;
      for i := 0 to |ops|
        invariant out.Valid() && ended == EndedAfter(old(ended), ops, i)
        invariant out.log == old(out.log) + Sent(sid, old(ended), ops, i)
      {
        match ops[i]
        case Chunk(data, flushed) => var ok := Write(data, flushed);
        case End => Finish();
      }
    }
  }

  function EndedAfter(ended: bool, ops: seq<SinkOp>, n: nat): bool
    requires n <= |ops|
  {
    if n == 0 then ended else EndedAfter(ended, ops, n - 1) || ops[n - 1].End? || !ops[n - 1].flushed
  }

  /** The frames of the first `n` operations. */
  function Sent(sid: nat, ended: bool, ops: seq<SinkOp>, n: nat): seq<Frame>
    requires n <= |ops|
  {
    if n == 0 then []
    else Sent(sid, ended, ops, n - 1)
         + (if EndedAfter(ended, ops, n - 1) then []
            else if ops[n - 1].End? then [FrameOf(Content(sid, [], true))]
            else [FrameOf(Content(sid, ops[n - 1].data, false))])
  }

  /** The handler's chunks up to the end, or up to the first that was not
      flushed, that one included. */
  function Offered(ops: seq<SinkOp>): Bytes {
    if ops == [] || ops[0].End? then []
    else ops[0].data + (if ops[0].flushed then Offered(ops[1..]) else [])
  }

  /** The end comes before any chunk that was not flushed. */
  predicate Completes(ops: seq<SinkOp>) {
    ops != [] && (ops[0].End? || (ops[0].flushed && Completes(ops[1..])))
  }

  /** The data in a stream's frames. */
  function Body(fs: seq<Frame>): Bytes {
    if fs == [] then [] else fs[0].payload + Body(fs[1..])
  }

  /** Frames of one stream of which at most the last ends it. */
  predicate OneEnd(sid: nat, fs: seq<Frame>) {
    forall i :: 0 <= i < |fs| ==>
      fs[i].kind == DATA && fs[i].streamId == sid && (fs[i].flags == 0 || (i == |fs| - 1 && fs[i].flags == END_STREAM))
  }

  lemma {:induction false} SentFirst(sid: nat, ops: seq<SinkOp>, n: nat)
    requires 0 < n <= |ops|
    ensures EndedAfter(false, ops, n) == EndedAfter(EndedAfter(false, ops, 1), ops[1..], n - 1)
    ensures Sent(sid, false, ops, n) == Sent(sid, false, ops, 1) + Sent(sid, EndedAfter(false, ops, 1), ops[1..], n - 1)
  {
    hide FrameOf;
    if n > 1 {
      SentFirst(sid, ops, n - 1);
      assert ops[1..][n - 2] == ops[n - 1];
    }
  }

  lemma {:induction false} SilentOnceEnded(sid: nat, ops: seq<SinkOp>, n: nat)
    requires n <= |ops|
    ensures Sent(sid, true, ops, n) == [] && EndedAfter(true, ops, n)
  {
    if n > 0 {
      SilentOnceEnded(sid, ops, n - 1);
    }
  }

  /** What the frames of a sink keep. */
  predicate Delivered(sid: nat, ops: seq<SinkOp>, fs: seq<Frame>) {
    && OneEnd(sid, fs) && Body(fs) == Offered(ops)
    && (Completes(ops) <==> fs != [] && fs[|fs| - 1].flags == END_STREAM)
  }

  /** Over every use of a new sink: the stream's frames carry the chunks in
      order, END_STREAM comes at most once and last, and it comes exactly if
      the handler ended the response before a flush failed. */
  lemma {:induction false} SinkSafe(sid: nat, ops: seq<SinkOp>)
    ensures Delivered(sid, ops, Sent(sid, false, ops, |ops|))
    decreases |ops|
  {
    if ops != [] {
      hide Delivered, Sent, EndedAfter;
      SentFirst(sid, ops, |ops|);
      FirstSent(sid, ops);
      if ops[0].Chunk? && ops[0].flushed {
        SinkSafe(sid, ops[1..]);
        OneMore(sid, ops, Sent(sid, false, ops[1..], |ops| - 1));
      } else {
        SilentOnceEnded(sid, ops[1..], |ops| - 1);
        OnlyOne(sid, ops);
        assert Sent(sid, false, ops, |ops|) == Sent(sid, false, ops, 1);
      }
    }
  }

  lemma OneMore(sid: nat, ops: seq<SinkOp>, rest: seq<Frame>)
    requires ops != [] && ops[0].Chunk? && ops[0].flushed && Delivered(sid, ops[1..], rest)
    ensures Delivered(sid, ops, [FrameOf(Content(sid, ops[0].data, false))] + rest)
  {
    var fs := [FrameOf(Content(sid, ops[0].data, false))] + rest;
    assert fs[1..] == rest;
    assert fs[|fs| - 1] == if rest == [] then fs[0] else rest[|rest| - 1];
  }

  lemma OnlyOne(sid: nat, ops: seq<SinkOp>)
    requires ops != [] && (ops[0].End? || !ops[0].flushed)
    ensures var f := if ops[0].End? then FrameOf(Content(sid, [], true)) else FrameOf(Content(sid, ops[0].data, false));
            Delivered(sid, ops, [f])
  {
    var f := if ops[0].End? then FrameOf(Content(sid, [], true)) else FrameOf(Content(sid, ops[0].data, false));
    assert [f][1..] == [];
  }

  lemma FirstSent(sid: nat, ops: seq<SinkOp>)
    requires ops != []
    ensures EndedAfter(false, ops, 1) == (ops[0].End? || !ops[0].flushed)
    ensures Sent(sid, false, ops, 1)
         == [if ops[0].End? then FrameOf(Content(sid, [], true)) else FrameOf(Content(sid, ops[0].data, false))]
  {
    assert Sent(sid, false, ops, 0) == [] && EndedAfter(false, ops, 0) == false;
  }
}
