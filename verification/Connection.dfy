/** What one frame does to an HTTP/2 connection: header blocks in one frame
    or spread over CONTINUATION frames, request bodies, resets. */
module Connection {
  import opened Bits
  import opened Frames
  import opened Fields
  import opened HpackTable
  import opened HpackPrimitives
  import opened Hpack
  import opened StreamManager
  import opened FlowControl
  import opened RegionLayout
  import opened Output

  const CONTINUATION: byte := 9

  const PADDED: byte := 8
  const PRIORITY: byte := 32

  const NO_ERROR: nat := 0
  const PROTOCOL_ERROR: nat := 1
  const INTERNAL_ERROR: nat := 2
  const STREAM_CLOSED: nat := 5
  const FRAME_SIZE_ERROR: nat := 6
  const REFUSED_STREAM: nat := 7
  const COMPRESSION_ERROR: nat := 9

  predicate Has(flags: byte, bit: byte)
    requires bit > 0
  {
    (flags as int) / (bit as int) % 2 == 1
  }

  function Rst(sid: nat, error: nat): Frame {
    Frame(RST_STREAM, 0, sid, Be(error, 4))
  }

  function GoAway(last: nat, error: nat): Frame {
    Frame(GOAWAY, 0, 0, Be31(last) + Be(error, 4))
  }

  // ---- Stream contexts ----

  datatype Context = Context(verb: Bytes, path: Bytes, headers: seq<Header>, contentLength: nat, body: Bytes,
                             wsExtended: bool, wsActive: bool, wsQueue: seq<Bytes>, closed: bool)

  const NEW_CONTEXT := Context([], [], [], 0, [], false, false, [], false)

  const MAX_HEADERS: nat := 64

  function AddHeader(c: Context, h: Header): Context {
    if h.name == Ascii(":method") then c.(verb := h.value)
    else if h.name == Ascii(":path") then c.(path := h.value)
    else if h.name == Ascii(":protocol") && h.value == Ascii("websocket") then c.(wsExtended := true)
    else if h.name == Ascii(":authority") || h.name == Ascii(":scheme") then c
    else if |c.headers| >= MAX_HEADERS then c
    else c.(headers := c.headers + [h],
            contentLength := if h.name == Ascii("content-length") then Digits(0, h.value) else c.contentLength)
  }

  /** The first `n` delivered fields added to a context. */
  function Deliver(c: Context, hs: seq<Header>, n: nat): Context
    requires n <= |hs|
  {
    if n == 0 then c else AddHeader(Deliver(c, hs, n - 1), hs[n - 1])
  }

  /** A field that a context lists among its headers; the others it takes apart
      or ignores. */
  predicate Lists(h: Header) {
    && h.name != Ascii(":method") && h.name != Ascii(":path") && h.name != Ascii(":authority")
    && h.name != Ascii(":scheme") && h != Header(Ascii(":protocol"), Ascii("websocket"))
  }

  function Listed(hs: seq<Header>): seq<Header> {
    if hs == [] then []
    else Listed(hs[..|hs| - 1]) + (if Lists(hs[|hs| - 1]) then [hs[|hs| - 1]] else [])
  }

  /** A new context after the delivered fields `ds`: method and path are the last
      ones named so, the headers are the first 64 of the others, the content
      length is that of the last such header, and the WebSocket was asked for. */
  predicate TellsOf(c: Context, ds: seq<Header>) {
    && c.verb == LastValue(ds, Ascii(":method")) && c.path == LastValue(ds, Ascii(":path"))
    && c.headers == (if |Listed(ds)| <= 64 then Listed(ds) else Listed(ds)[..64])
    && c.contentLength == Digits(0, LastValue(c.headers, Ascii("content-length")))
    && (c.wsExtended <==> Header(Ascii(":protocol"), Ascii("websocket")) in ds)
    && c.body == [] && c.wsQueue == [] && !c.wsActive && !c.closed
  }

  lemma {:induction false} DeliveredTold(hs: seq<Header>, n: nat)
    requires n <= |hs|
    ensures TellsOf(Deliver(NEW_CONTEXT, hs, n), hs[..n])
  {
    hide Deliver, TellsOf, AddHeader;
    if n == 0 {
      NothingTold(hs);
    } else {
      DeliveredTold(hs, n - 1);
      OneMoreTold(Deliver(NEW_CONTEXT, hs, n - 1), hs[..n - 1], hs[n - 1]);
      assert hs[..n] == hs[..n - 1] + [hs[n - 1]];
      DeliverOne(NEW_CONTEXT, hs, n);
    }
  }

  lemma NothingTold(hs: seq<Header>)
    ensures TellsOf(Deliver(NEW_CONTEXT, hs, 0), hs[..0])
  {
    assert hs[..0] == [];
  }

  lemma DeliverOne(c: Context, hs: seq<Header>, n: nat)
    requires 0 < n <= |hs|
    ensures Deliver(c, hs, n) == AddHeader(Deliver(c, hs, n - 1), hs[n - 1])
  {
  }

  lemma OneMoreTold(c: Context, ds: seq<Header>, h: Header)
    requires TellsOf(c, ds)
    ensures TellsOf(AddHeader(c, h), ds + [h])
  {
    PseudoNamesDiffer();
    hide Ascii, Digits, LastValue, Listed;
    LastValueOne(ds, h, Ascii(":method"));
    LastValueOne(ds, h, Ascii(":path"));
    LastValueOne(c.headers, h, Ascii("content-length"));
    ListedOne(ds, h);
  }

  lemma ListedOne(ds: seq<Header>, h: Header)
    ensures Listed(ds + [h]) == Listed(ds) + (if Lists(h) then [h] else [])
  {
    hide Lists;
    assert (ds + [h])[..|ds|] == ds;
  }

  lemma PseudoNamesDiffer()
    ensures Ascii(":method") != Ascii(":path") && Ascii(":method") != Ascii(":protocol")
    ensures Ascii(":path") != Ascii(":protocol") && Ascii(":protocol") != Ascii(":authority")
    ensures Ascii(":protocol") != Ascii(":scheme")
  {
  }

  // ---- Padding and priority fields ----

  function BlockStart(flags: byte): nat {
    (if Has(flags, PADDED) then 1 else 0) + (if Has(flags, PRIORITY) then 5 else 0)
  }

  /** The length of the header block, in `size_t` arithmetic. */
  function BlockLength(length: nat, flags: byte, pad: byte): nat {
    var raw := (length - BlockStart(flags)) % TWO64;
    if !Has(flags, PADDED) then raw else if pad <= raw then raw - pad else 0
  }

  function DataStart(flags: byte): nat {
    if Has(flags, PADDED) then 1 else 0
  }

  /** The length of the data, in `uint32_t` arithmetic. */
  function DataLength(length: nat, flags: byte, pad: byte): nat {
    var raw := (length - 1) % TWO32;
    if !Has(flags, PADDED) then length else if pad <= raw then raw - pad else 0
  }

  /** The first byte of the payload, or what is behind an empty one. */
  function PadByte(f: Frame, mem: Memory): byte {
    if f.payload != [] then f.payload[0] else if mem.beyond != [] then mem.beyond[0] else 0
  }

  function StartOf(f: Frame): nat {
    if f.kind == HEADERS then BlockStart(f.flags) else DataStart(f.flags)
  }

  function LengthOf(f: Frame, mem: Memory): nat {
    if f.kind == HEADERS then BlockLength(|f.payload|, f.flags, PadByte(f, mem))
    else DataLength(|f.payload|, f.flags, PadByte(f, mem))
  }

  /** The payload holds the fields its flags announce. */
  predicate Sliceable(f: Frame) {
    |f.payload| >= StartOf(f)
  }

  /** The length without the padding; none if there is more padding than that. */
  function Unpadded(f: Frame): (n: nat)
    requires Sliceable(f)
    ensures StartOf(f) + n <= |f.payload|
  {
    var raw := |f.payload| - StartOf(f);
    if !Has(f.flags, PADDED) then raw else if f.payload[0] <= raw then raw - f.payload[0] else 0
  }

  /** What the code takes out of a HEADERS or DATA frame lies within the frame
      exactly when the frame is as long as the fields its flags announce, and
      then it is what is left without padding. */
  lemma InsideExactly(f: Frame, mem: Memory)
    requires WellSized(f)
    ensures StartOf(f) + LengthOf(f, mem) <= |f.payload| <==> Sliceable(f)
    ensures Sliceable(f) ==> LengthOf(f, mem) == Unpadded(f)
  {
    var n := |f.payload|;
    if Sliceable(f) {
      DivModUnique(n - StartOf(f), TWO64, 0, n - StartOf(f));
      if n >= 1 {
        DivModUnique(n - 1, TWO32, 0, n - 1);
      }
    } else {
      DivModUnique(n - StartOf(f), TWO64, -1, TWO64 + n - StartOf(f));
      if n == 0 {
        DivModUnique(-1, TWO32, -1, TWO32 - 1);
      }
    }
  }

  /** An empty padded HEADERS frame: the block length is almost 2^64. */
  lemma EmptyPaddedHeaders(pad: byte)
    ensures BlockLength(0, PADDED, pad) == TWO64 - 1 - pad
  {
  }

  /** An empty padded DATA frame: the data length is almost 2^32, which is what
      flow control is charged, and more than any region can hold. */
  lemma EmptyPaddedData(pad: byte)
    ensures DataLength(0, PADDED, pad) == TWO32 - 1 - pad > POOL_SIZE
  {
  }

  /** What the code takes out of the frame; past its end it reads anything. */
  function Slice(f: Frame, mem: Memory): Bytes {
    if Sliceable(f) then f.payload[StartOf(f)..StartOf(f) + Unpadded(f)] else mem.beyond
  }

  // ---- Frames as steps ----

  /** A header field given to the context of a stream. */
  datatype Given = Given(sid: nat, field: Header)

  function GivenAll(sid: nat, hs: seq<Header>): seq<Given> {
    seq(|hs|, i requires 0 <= i < |hs| => Given(sid, hs[i]))
  }

  /** The connection: streams, reassembly, the decoder's table with what was
      inserted and meant to be, flow control, every field delivered so far and
      every frame written so far. */
  datatype Conn = Conn(mgr: Manager, streams: map<nat, Context>, contId: nat, block: Bytes,
                       table: Table, history: seq<Header>, meant: seq<Header>, books: Books,
                       goawaySent: bool, given: seq<Given>, out: seq<Frame>)

  function Send(s: Conn, f: Frame): Conn {
    s.(out := s.out + [f])
  }

  datatype Fed = Fed(conn: Conn, ok: bool)

  /** A complete header block goes through the decoder into the stream's context. */
  ghost function Feed(s: Conn, sid: nat, block: Bytes, mem: Memory): (r: Fed)
    requires Consistent(s.table) && sid in s.streams
    ensures Consistent(r.conn.table) && sid in r.conn.streams
  {
    var r := DecodeBlock(Decoding(s.table, s.history, s.meant, []), block, mem);
    Fed(s.(table := r.st.table, history := r.st.history, meant := r.st.meant,
           given := s.given + GivenAll(sid, r.st.delivered),
           streams := s.streams[sid := Deliver(s.streams[sid], r.st.delivered, |r.st.delivered|)]), r.ok)
  }

  /** The stream exists from its HEADERS frame on. */
  function Admit(s: Conn, sid: nat): Conn {
    s.(mgr := Opened(s.mgr, sid),
       streams := if sid in s.streams then s.streams else s.streams[sid := NEW_CONTEXT])
  }

  /** A request without a body, or a WebSocket, is complete with its headers. */
  function HeadersDone(s: Conn, sid: nat, endStream: bool): Conn
    requires sid in s.streams
  {
    if endStream then s.(mgr := Queued(Ended(s.mgr, sid), sid))
    else if s.streams[sid].wsExtended then s.(mgr := Queued(s.mgr, sid))
    else s
  }

  /** The header block of a stream just admitted. */
  ghost function AdmittedStep(s: Conn, f: Frame, mem: Memory): (r: Conn)
    requires Consistent(s.table) && f.kind == HEADERS && f.streamId in s.streams
    ensures Consistent(r.table)
  {
    if !Has(f.flags, END_HEADERS) then s.(contId := f.streamId, block := Slice(f, mem)) else
      var r := Feed(s, f.streamId, Slice(f, mem), mem);
      if !r.ok then Send(r.conn, Rst(f.streamId, COMPRESSION_ERROR))
      else HeadersDone(r.conn, f.streamId, Has(f.flags, END_STREAM))
  }

  ghost function HeadersStep(s: Conn, f: Frame, mem: Memory): (r: Conn)
    requires Consistent(s.table) && f.kind == HEADERS
    ensures Consistent(r.table)
  {
    if !CanOpen(s.mgr, f.streamId) then Send(s, Rst(f.streamId, REFUSED_STREAM))
    else AdmittedStep(Admit(s, f.streamId), f, mem)
  }

  /** The last CONTINUATION frame of a block arrived. */
  ghost function BlockDone(s: Conn, mem: Memory): (r: Conn)
    requires Consistent(s.table)
    ensures Consistent(r.table)
  {
    var s1 := s.(contId := 0);
    if s.contId !in s.streams then Send(s1, Rst(s.contId, PROTOCOL_ERROR)) else
      var r := Feed(s1, s.contId, s.block, mem);
      if !r.ok then Send(r.conn, Rst(s.contId, COMPRESSION_ERROR)) else r.conn.(block := [])
  }

  ghost function ContinuationStep(s: Conn, f: Frame, mem: Memory): (r: Conn)
    requires Consistent(s.table) && f.kind == CONTINUATION
    ensures Consistent(r.table)
  {
    if f.streamId != s.contId then Send(s, GoAway(s.mgr.last, PROTOCOL_ERROR)).(goawaySent := true) else
      var s1 := s.(block := s.block + f.payload);
      if Has(f.flags, END_HEADERS) then BlockDone(s1, mem) else s1
  }

  /** The context after a chunk of data; without room the chunk is dropped. */
  function Receive(c: Context, data: Bytes, fits: bool): Context {
    if c.wsActive then c.(wsQueue := c.wsQueue + [data])
    else if data != [] && fits then c.(body := data)
    else c
  }

  predicate TooLarge(c: Context, maxBody: nat) {
    maxBody > 0 && c.contentLength > maxBody
  }

  function UpdateFrames(us: seq<Update>): seq<Frame> {
    seq(|us|, i requires 0 <= i < |us| => Frame(WINDOW_UPDATE, 0, us[i].id, Be31(us[i].credit)))
  }

  /** A DATA frame for a stream that is there: charged, received, and answered
      with the window updates that are due, unless the body is too large. */
  function ReceivedStep(s: Conn, f: Frame, mem: Memory, fits: bool, maxBody: nat): Conn
    requires f.kind == DATA && f.streamId in s.streams
  {
    var sid := f.streamId;
    var c := Receive(s.streams[sid], Slice(f, mem), fits && Sliceable(f));
    var books := Charge(s.books, sid, LengthOf(f, mem));
    var s1 := s.(streams := s.streams[sid := c], books := books);
    if !c.wsActive && TooLarge(c, maxBody) then Send(s1, Rst(sid, REFUSED_STREAM)) else
      var s2 := s1.(books := Announce(books, sid), out := s.out + UpdateFrames(Updates(books, sid)));
      if !Has(f.flags, END_STREAM) then s2
      else if c.wsActive then s2.(mgr := Ended(s.mgr, sid), streams := s.streams[sid := c.(closed := true)])
      else s2.(mgr := Queued(Ended(s.mgr, sid), sid))
  }

  function DataStep(s: Conn, f: Frame, mem: Memory, fits: bool, maxBody: nat): Conn
    requires f.kind == DATA
  {
    if f.streamId !in s.streams then Send(s, Rst(f.streamId, STREAM_CLOSED))
    else ReceivedStep(s, f, mem, fits, maxBody)
  }

  function RstStep(s: Conn, sid: nat): Conn {
    s.(mgr := Shut(s.mgr, sid),
       streams := if sid in s.streams then s.streams[sid := s.streams[sid].(closed := true)] else s.streams)
  }

  // ---- CONTINUATION is transparent ----

  datatype Padding = NoPadding | Pad(bytes: Bytes)
  datatype Priority = NoPriority | Fields(bytes: Bytes)

  datatype Layout = Layout(pad: Padding, priority: Priority) {
    predicate Valid() {
      (pad.Pad? ==> |pad.bytes| < 256) && (priority.Fields? ==> |priority.bytes| == 5)
    }
  }

  /** A HEADERS frame carrying `block` (section 6.2 of RFC 7540). */
  function HeadersFrame(sid: nat, l: Layout, endStream: bool, endHeaders: bool, block: Bytes): (f: Frame)
    requires l.Valid()
    ensures f.kind == HEADERS
  {
    Frame(HEADERS,
          (if endStream then 1 else 0) + (if endHeaders then 4 else 0)
            + (if l.pad.Pad? then 8 else 0) + (if l.priority.Fields? then 32 else 0),
          sid,
          (if l.pad.Pad? then [|l.pad.bytes|] else []) + (if l.priority.Fields? then l.priority.bytes else [])
            + block + (if l.pad.Pad? then l.pad.bytes else []))
  }

  /** The block comes out whatever padding and priority fields surround it. */
  lemma HeadersFrameRead(sid: nat, l: Layout, endStream: bool, endHeaders: bool, block: Bytes, mem: Memory)
    requires l.Valid()
    ensures var f := HeadersFrame(sid, l, endStream, endHeaders, block);
            && Slice(f, mem) == block
            && Has(f.flags, END_STREAM) == endStream && Has(f.flags, END_HEADERS) == endHeaders
  {
    HeadersFrameFlags(sid, l, endStream, endHeaders, block);
    hide Has;
  }

  lemma HeadersFrameFlags(sid: nat, l: Layout, endStream: bool, endHeaders: bool, block: Bytes)
    requires l.Valid()
    ensures var f := HeadersFrame(sid, l, endStream, endHeaders, block);
            && Has(f.flags, END_STREAM) == endStream && Has(f.flags, END_HEADERS) == endHeaders
            && Has(f.flags, PADDED) == l.pad.Pad? && Has(f.flags, PRIORITY) == l.priority.Fields?
  {
  }

  function ContinuationFrame(sid: nat, piece: Bytes, last: bool): Frame {
    Frame(CONTINUATION, if last then END_HEADERS else 0, sid, piece)
  }

  function Joined(pieces: seq<Bytes>): Bytes {
    if pieces == [] then [] else pieces[0] + Joined(pieces[1..])
  }

  /** The CONTINUATION frames of `pieces` one after the other. */
  ghost function Continue(s: Conn, sid: nat, pieces: seq<Bytes>, mem: Memory): Conn
    requires Consistent(s.table)
    decreases |pieces|
  {
    if pieces == [] then s
    else Continue(ContinuationStep(s, ContinuationFrame(sid, pieces[0], |pieces| == 1), mem), sid, pieces[1..], mem)
  }

  lemma {:induction false} ContinueJoins(s: Conn, sid: nat, pieces: seq<Bytes>, mem: Memory)
    requires Consistent(s.table) && s.contId == sid && pieces != []
    ensures Continue(s, sid, pieces, mem) == BlockDone(s.(block := s.block + Joined(pieces)), mem)
    decreases |pieces|
  {
    hide BlockDone, Consistent;
    var f := ContinuationFrame(sid, pieces[0], |pieces| == 1);
    assert Has(f.flags, END_HEADERS) == (|pieces| == 1);
    var s1 := ContinuationStep(s, f, mem);
    if |pieces| == 1 {
      assert pieces[1..] == [];
      assert Joined(pieces) == pieces[0] by { assert Joined([]) == []; }
    } else {
      ContinueJoins(s1, sid, pieces[1..], mem);
      assert s1.block + Joined(pieces[1..]) == s.block + Joined(pieces);
    }
  }

  /** The same fields reach the same contexts and the decoder ends with the
      same table. */
  predicate SameDelivery(a: Conn, b: Conn) {
    && a.streams == b.streams && a.given == b.given
    && a.table == b.table && a.history == b.history && a.meant == b.meant
    && a.out == b.out && a.books == b.books && a.goawaySent == b.goawaySent && a.mgr.last == b.mgr.last
  }

  ghost function InOneFrame(s: Conn, sid: nat, l: Layout, endStream: bool, block: Bytes, mem: Memory): Conn
    requires Consistent(s.table) && l.Valid()
  {
    HeadersStep(s, HeadersFrame(sid, l, endStream, true, block), mem)
  }

  ghost function InPieces(s: Conn, sid: nat, l: Layout, endStream: bool, first: Bytes, pieces: seq<Bytes>,
                          mem: Memory): Conn
    requires Consistent(s.table) && l.Valid()
  {
    Continue(HeadersStep(s, HeadersFrame(sid, l, endStream, false, first), mem), sid, pieces, mem)
  }

  lemma OneFrameFeeds(s: Conn, sid: nat, l: Layout, endStream: bool, block: Bytes, mem: Memory)
    requires Consistent(s.table) && CanOpen(s.mgr, sid) && l.Valid()
    ensures var r := Feed(Admit(s, sid), sid, block, mem);
            InOneFrame(s, sid, l, endStream, block, mem) ==
            if r.ok then HeadersDone(r.conn, sid, endStream) else Send(r.conn, Rst(sid, COMPRESSION_ERROR))
  {
    HeadersFrameRead(sid, l, endStream, true, block, mem);
    hide HeadersFrame, Slice, Has, Consistent, CanOpen, Feed, HeadersDone;
  }

  lemma PiecesFeed(s: Conn, sid: nat, l: Layout, endStream: bool, first: Bytes, pieces: seq<Bytes>, mem: Memory)
    requires Consistent(s.table) && CanOpen(s.mgr, sid) && l.Valid() && pieces != []
    ensures InPieces(s, sid, l, endStream, first, pieces, mem)
         == BlockDone(Admit(s, sid).(contId := sid, block := first + Joined(pieces)), mem)
  {
    HeadersFrameRead(sid, l, endStream, false, first, mem);
    hide HeadersFrame, Slice, Has, Consistent, CanOpen, Continue, Joined, BlockDone;
    ContinueJoins(HeadersStep(s, HeadersFrame(sid, l, endStream, false, first), mem), sid, pieces, mem);
  }

  /** A header block in one HEADERS frame, and the same block cut anywhere
      into HEADERS and CONTINUATION frames with any padding. Only the end of
      the stream is not carried over: stream states and queue agree exactly
      when there was nothing to carry. */
  lemma ContinuationTransparent(s: Conn, sid: nat, l: Layout, l': Layout, endStream: bool,
                                first: Bytes, pieces: seq<Bytes>, mem: Memory)
    requires Consistent(s.table) && CanOpen(s.mgr, sid) && l.Valid() && l'.Valid() && pieces != []
    ensures var a := InOneFrame(s, sid, l, endStream, first + Joined(pieces), mem);
            var b := InPieces(s, sid, l', endStream, first, pieces, mem);
            var fed := Feed(Admit(s, sid), sid, first + Joined(pieces), mem);
            && SameDelivery(a, b) && b.mgr == Opened(s.mgr, sid)
            && (a.mgr == b.mgr <==> !fed.ok || (!endStream && !fed.conn.streams[sid].wsExtended))
  {
    hide Joined, Feed, Consistent, CanOpen, InOneFrame, InPieces;
    var block := first + Joined(pieces);
    OneFrameFeeds(s, sid, l, endStream, block, mem);
    PiecesFeed(s, sid, l', endStream, first, pieces, mem);
    FeedIgnoresBlock(Admit(s, sid), sid, block, mem);
    assert |s.mgr.pending + [sid]| > |s.mgr.pending|;
  }

  const NEW_CONN := Conn(Manager(map[], [], 0), map[], 0, [], Table([], 0, 4096), [], [],
                         Books(65535, {}, map[], map[]), false, [], [])

  /** On a new connection a request without header fields is queued if it
      comes in one frame, and never if it is cut in two. */
  lemma SplitRequestUnqueued(mem: Memory)
    ensures Consistent(NEW_CONN.table)
    ensures InOneFrame(NEW_CONN, 1, Layout(NoPadding, NoPriority), true, [], mem).mgr.pending == [1]
    ensures InPieces(NEW_CONN, 1, Layout(NoPadding, NoPriority), true, [], [[]], mem).mgr.pending == []
  {
    var l := Layout(NoPadding, NoPriority);
    assert Joined([[]]) == [] by { assert Joined([[]][1..]) == []; }
    assert [] + Joined([[]]) == [];
    assert Live(map[]) == {};
    OneFrameFeeds(NEW_CONN, 1, l, true, [], mem);
    PiecesFeed(NEW_CONN, 1, l, true, [], [[]], mem);
    var fed := Feed(Admit(NEW_CONN, 1), 1, [], mem);
    assert fed.ok && fed.conn.mgr == Opened(NEW_CONN.mgr, 1);
    hide InOneFrame, InPieces;
  }

  /** Reassembly state does not affect decoding. */
  lemma FeedIgnoresBlock(s: Conn, sid: nat, block: Bytes, mem: Memory)
    requires Consistent(s.table) && sid in s.streams
    ensures var a, b := Feed(s, sid, block, mem), Feed(s.(contId := 0, block := block), sid, block, mem);
            b.ok == a.ok && b.conn == a.conn.(contId := 0, block := block) && a.conn.mgr == s.mgr
  {
    hide DecodeBlock, Deliver, Consistent;
  }

  /** Refused as a whole, the block is dropped with a reset; refused in
      pieces, its second piece ends the connection. */
  lemma RefusedInPieces(s: Conn, sid: nat, l: Layout, endStream: bool, first: Bytes, piece: Bytes, mem: Memory)
    requires Consistent(s.table) && !CanOpen(s.mgr, sid) && s.contId != sid && l.Valid()
    ensures InOneFrame(s, sid, l, endStream, first + piece, mem) == Send(s, Rst(sid, REFUSED_STREAM))
    ensures InPieces(s, sid, l, endStream, first, [piece], mem).goawaySent
  {
    HeadersFrameRead(sid, l, endStream, true, first + piece, mem);
    HeadersFrameRead(sid, l, endStream, false, first, mem);
    hide Slice, Has, Consistent, CanOpen;
    var s1 := HeadersStep(s, HeadersFrame(sid, l, endStream, false, first), mem);
    var s2 := ContinuationStep(s1, ContinuationFrame(sid, piece, true), mem);
    assert Continue(s1, sid, [piece], mem) == Continue(s2, sid, [], mem) == s2;
  }
}
