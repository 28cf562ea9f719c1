/** What becomes of a request: which frames complete it, what its handler is
    given, and when the handler is reached. Told from the frames' own bits and
    bytes, over any frames of other streams in between. */
module Requests {
  import opened Bits
  import opened Frames
  import opened Options
  import opened Fields
  import opened HpackTable
  import opened HpackPrimitives
  import opened Hpack
  import opened StreamManager
  import opened FlowControl
  import opened Output
  import opened Connection
  import opened Lifecycle
  import opened Runs
  import Settings
  import FrameBatch
  import Representations

  // ---- DATA frames ----

  /** A DATA frame carrying `data` (section 6.1 of RFC 7540). */
  function DataFrame(sid: nat, pad: Padding, endStream: bool, data: Bytes): Frame
    requires pad.Pad? ==> |pad.bytes| < 256
  {
    Frame(0, (if endStream then 1 else 0) + (if pad.Pad? then 8 else 0), sid,
          if pad.Pad? then [|pad.bytes|] + data + pad.bytes else data)
  }

  lemma DataFrameRead(sid: nat, pad: Padding, endStream: bool, data: Bytes, mem: Memory)
    requires pad.Pad? ==> |pad.bytes| < 256
    ensures var f := DataFrame(sid, pad, endStream, data);
            f.kind == DATA && Sliceable(f) && Slice(f, mem) == data && (f.flags % 2 == 1 <==> endStream)
  {
  }

  /** The stream is there, takes a request's body, and may be completed. */
  predicate TakesBody(c: Conn, id: nat, maxBody: nat) {
    && id in c.streams && id in c.mgr.states && !c.streams[id].wsActive
    && (maxBody == 0 || c.streams[id].contentLength <= maxBody)
  }

  /** DATA for a stream that takes a body: it is the body, and the request is
      complete exactly if bit 0 of the flags is set. Then the stream, if open, is
      half closed, and its number, and no other, goes into the queue. */
  lemma DataCompletes(s: Conn, f: Frame, mem: Memory, fits: bool, maxBody: nat)
    requires Consistent(s.table) && f.kind == 0 && TakesBody(s, f.streamId, maxBody)
    ensures var t, id, end := FrameStep(s, f, mem, fits, maxBody), f.streamId, f.flags % 2 == 1;
            && t.mgr.pending == (if end then s.mgr.pending + [id] else s.mgr.pending)
            && t.mgr.states == (if end && s.mgr.states[id] == Open then s.mgr.states[id := HalfClosedRemote]
                                else s.mgr.states)
            && t.streams == s.streams[id := s.streams[id].(body := t.streams[id].body)]
            && t.streams[id].body == (if Slice(f, mem) != [] && fits && Sliceable(f) then Slice(f, mem)
                                      else s.streams[id].body)
  {
    hide Slice, Sliceable, LengthOf, Charge, Announce, Updates, DecodeBlock, Consistent, HeadersStep, ContinuationStep;
    assert Has(f.flags, END_STREAM) <==> f.flags % 2 == 1;
  }

  /** DATA for a WebSocket: it goes to its handler; bit 0 ends the stream, which
      is never queued again by it. */
  lemma DataForWebSocket(s: Conn, f: Frame, mem: Memory, fits: bool, maxBody: nat)
    requires Consistent(s.table) && f.kind == 0 && f.streamId in s.streams && s.streams[f.streamId].wsActive
    ensures var t, id := FrameStep(s, f, mem, fits, maxBody), f.streamId;
            && t.mgr.pending == s.mgr.pending
            && t.streams == s.streams[id := s.streams[id].(wsQueue := s.streams[id].wsQueue + [Slice(f, mem)],
                                                           closed := s.streams[id].closed || f.flags % 2 == 1)]
  {
    hide Slice, Sliceable, LengthOf, Charge, Announce, Updates, DecodeBlock, Consistent, HeadersStep, ContinuationStep;
    assert Has(f.flags, END_STREAM) <==> f.flags % 2 == 1;
  }

  /** DATA for a stream that is not there, and DATA of a request whose announced
      body is too large, change nothing but the windows and are answered with a
      reset: 5 (closed) and 7 (refused). */
  lemma DataRefused(s: Conn, f: Frame, mem: Memory, fits: bool, maxBody: nat)
    requires Consistent(s.table) && f.kind == 0
    requires f.streamId in s.streams ==>
               !s.streams[f.streamId].wsActive && 0 < maxBody < s.streams[f.streamId].contentLength
    ensures var t := FrameStep(s, f, mem, fits, maxBody);
            && t.mgr == s.mgr && |t.out| == |s.out| + 1 && s.out <= t.out
            && MessageOf(t.out[|s.out|]) == Some(Reset(f.streamId, if f.streamId in s.streams then 7 else 5))
  {
    hide Slice, Sliceable, LengthOf, Charge, Announce, Updates, DecodeBlock, Consistent, HeadersStep, ContinuationStep;
    hide MessageOf, Be;
    MessageRead(Reset(f.streamId, REFUSED_STREAM));
    MessageRead(Reset(f.streamId, STREAM_CLOSED));
    assert FrameOf(Reset(f.streamId, REFUSED_STREAM)) == Rst(f.streamId, REFUSED_STREAM);
    assert FrameOf(Reset(f.streamId, STREAM_CLOSED)) == Rst(f.streamId, STREAM_CLOSED);
  }

  // ---- HEADERS frames ----

  /** The decoder's table holds the newest insertions, under the first limit. */
  predicate TableOk(c: Conn) {
    Refines(c.table, c.history) && c.table.max <= 4096
  }

  /** A client may open the stream: odd, above the last one, fewer than a hundred
      streams live (sections 5.1.1 and 5.1.2 of RFC 7540). */
  predicate MayOpen(c: Conn, id: nat) {
    id % 2 == 1 && id > c.mgr.last && |Live(c.mgr.states)| < 100
  }

  /** The fields a block names, as far as the decoder reads it. */
  ghost function FieldsIn(s: Conn, reps: seq<Representations.Rep>): seq<Header>
    requires Representations.AllLegal(Representations.ReadPart(reps), s.history, s.table.max)
  {
    Representations.FieldsOf(Representations.ReadPart(reps), s.history, s.table.max)
  }

  lemma BlockFed(s: Conn, id: nat, reps: seq<Representations.Rep>, mem: Memory)
    requires TableOk(s) && id !in s.streams && AllRoom(mem)
    requires Representations.AllLegal(reps, s.history, s.table.max)
    ensures Representations.AllLegal(Representations.ReadPart(reps), s.history, s.table.max)
    ensures Consistent(s.table)
    ensures var r := Feed(Admit(s, id), id, Representations.BlockBytes(reps), mem);
            && r.ok && r.conn.mgr == Opened(s.mgr, id) && r.conn.out == s.out
            && r.conn.streams == s.streams[id := r.conn.streams[id]] && TellsOf(r.conn.streams[id], FieldsIn(s, reps))
  {
    hide DecodeBlock, TellsOf, AllRoom, NewestThatFit, Deliver, Consistent;
    hide Representations.AllLegal, Representations.ReadPart, Representations.BlockBytes;
    hide Representations.FieldsOf, Representations.HistoryOf, Representations.MaxOf;
    Representations.BlockRead(Decoding(s.table, s.history, s.meant, []), reps, mem);
    var fields := FieldsIn(s, reps);
    assert [] + fields == fields && fields[..|fields|] == fields;
    DeliveredTold(fields, |fields|);
  }

  /** A whole header block in one HEADERS frame, from any encoder that follows
      the insertions: the stream is opened, its context tells of exactly the
      fields named, and it is queued exactly if the frame ends the stream or the
      fields ask for a WebSocket. Nothing is written. */
  lemma HeadersOpen(s: Conn, id: nat, l: Layout, endStream: bool, reps: seq<Representations.Rep>,
                    mem: Memory, fits: bool, maxBody: nat)
    requires TableOk(s) && MayOpen(s, id) && id !in s.streams && l.Valid() && AllRoom(mem)
    requires Representations.AllLegal(reps, s.history, s.table.max)
    ensures Representations.AllLegal(Representations.ReadPart(reps), s.history, s.table.max) && Consistent(s.table)
    ensures var f := HeadersFrame(id, l, endStream, true, Representations.BlockBytes(reps));
            var t := FrameStep(s, f, mem, fits, maxBody);
            && id in t.streams && TellsOf(t.streams[id], FieldsIn(s, reps))
            && t.streams == s.streams[id := t.streams[id]] && t.out == s.out && t.mgr.last == id
            && t.mgr.states == s.mgr.states[id := if endStream then HalfClosedRemote else Open]
            && t.mgr.pending == s.mgr.pending + (if endStream || t.streams[id].wsExtended then [id] else [])
  {
    hide DecodeBlock, TellsOf, AllRoom, Refines, Feed, HeadersFrame, ContinuationStep, DataStep, FieldsIn;
    hide Representations.AllLegal, Representations.ReadPart, Representations.BlockBytes;
    BlockFed(s, id, reps, mem);
    OneFrameFeeds(s, id, l, endStream, Representations.BlockBytes(reps), mem);
    hide AdmittedStep;
    assert s.mgr.pending + [] == s.mgr.pending;
    assert s.mgr.states[id := Open][id := HalfClosedRemote] == s.mgr.states[id := HalfClosedRemote];
  }

  /** HEADERS of a stream that may not be opened change nothing, and are answered
      with a reset, 7 (refused). */
  lemma HeadersRefused(s: Conn, f: Frame, mem: Memory, fits: bool, maxBody: nat)
    requires Consistent(s.table) && f.kind == 1 && !MayOpen(s, f.streamId)
    ensures var t := FrameStep(s, f, mem, fits, maxBody);
            && t == s.(out := t.out) && |t.out| == |s.out| + 1 && s.out <= t.out
            && MessageOf(t.out[|s.out|]) == Some(Reset(f.streamId, 7))
  {
    hide DecodeBlock, Consistent, AdmittedStep, ContinuationStep, DataStep, MessageOf, Be;
    MessageRead(Reset(f.streamId, REFUSED_STREAM));
    assert FrameOf(Reset(f.streamId, REFUSED_STREAM)) == Rst(f.streamId, REFUSED_STREAM);
  }

  /** A block the decoder rejects is never queued; it is answered with a reset,
      9 (compression error). */
  lemma HeadersUndecodable(s: Conn, id: nat, l: Layout, endStream: bool, block: Bytes, mem: Memory, fits: bool,
                           maxBody: nat)
    requires Consistent(s.table) && MayOpen(s, id) && id !in s.streams && l.Valid()
    requires !DecodeBlock(Decoding(s.table, s.history, s.meant, []), block, mem).ok
    ensures var t := FrameStep(s, HeadersFrame(id, l, endStream, true, block), mem, fits, maxBody);
            && t.mgr.pending == s.mgr.pending && |t.out| == |s.out| + 1 && s.out <= t.out
            && MessageOf(t.out[|s.out|]) == Some(Reset(id, 9))
  {
    hide DecodeBlock, Consistent, HeadersFrame, ContinuationStep, DataStep, MessageOf, Be, Deliver;
    OneFrameFeeds(s, id, l, endStream, block, mem);
    MessageRead(Reset(id, COMPRESSION_ERROR));
    assert FrameOf(Reset(id, COMPRESSION_ERROR)) == Rst(id, COMPRESSION_ERROR);
    hide AdmittedStep;
  }

  /** A CONTINUATION frame of any other stream than the one whose block is being
      collected ends the connection: GOAWAY with error 1. */
  lemma ContinuationStray(s: Conn, f: Frame, mem: Memory, fits: bool, maxBody: nat)
    requires Consistent(s.table) && f.kind == 9 && f.streamId != s.contId
    ensures var t := FrameStep(s, f, mem, fits, maxBody);
            && t == s.(out := t.out, goawaySent := true) && |t.out| == |s.out| + 1 && s.out <= t.out
            && MessageOf(t.out[|s.out|]) == Some(Leave(s.mgr.last % 0x8000_0000, 1))
  {
    hide DecodeBlock, Consistent, HeadersStep, DataStep, MessageOf, Be, Be31;
    MessageRead(Leave(s.mgr.last, PROTOCOL_ERROR));
    assert FrameOf(Leave(s.mgr.last, PROTOCOL_ERROR)) == GoAway(s.mgr.last, PROTOCOL_ERROR);
  }

  /** A CONTINUATION frame of that stream is collected; with bit 2 set the block
      is complete: the collecting ends, and a stream that is gone, or a block the
      decoder rejects, is reset with error 1 or 9. */
  lemma ContinuationEnds(s: Conn, f: Frame, mem: Memory, fits: bool, maxBody: nat)
    requires Consistent(s.table) && f.kind == 9 && f.streamId == s.contId
    ensures var t, block := FrameStep(s, f, mem, fits, maxBody), s.block + f.payload;
            var there := s.contId in s.streams;
            var ok := DecodeBlock(Decoding(s.table, s.history, s.meant, []), block, mem).ok;
            if f.flags / 4 % 2 == 0 then t == s.(block := block)
            else
              && t.contId == 0 && t.mgr == s.mgr && (there && ok ==> t.block == [] && t.out == s.out)
              && (!there || !ok ==>
                    && |t.out| == |s.out| + 1 && s.out <= t.out
                    && MessageOf(t.out[|s.out|]) == Some(Reset(s.contId, if there then 9 else 1)))
  {
    hide DecodeBlock, Consistent, HeadersStep, DataStep, MessageOf, Be, Be31, Deliver, GivenAll;
    ResetsRead(s.contId);
  }

  lemma ResetsRead(id: nat)
    ensures MessageOf(Rst(id, COMPRESSION_ERROR)) == Some(Reset(id, 9))
    ensures MessageOf(Rst(id, PROTOCOL_ERROR)) == Some(Reset(id, 1))
  {
    hide MessageOf, Be;
    MessageRead(Reset(id, COMPRESSION_ERROR));
    MessageRead(Reset(id, PROTOCOL_ERROR));
    assert FrameOf(Reset(id, COMPRESSION_ERROR)) == Rst(id, COMPRESSION_ERROR);
    assert FrameOf(Reset(id, PROTOCOL_ERROR)) == Rst(id, PROTOCOL_ERROR);
  }

  // ---- Every reachable connection ----

  /** Both maps agree, the table holds the newest insertions, and the queue knows
      only streams that were opened. */
  predicate Reached(c: Conn) {
    Aligned(c.mgr, c.streams) && TableOk(c) && forall i :: 0 <= i < |c.mgr.pending| ==> c.mgr.pending[i] <= c.mgr.last
  }

  lemma {:induction false} BlockLimit(st: Decoding, d: Bytes, mem: Memory)
    requires Consistent(st.table)
    ensures DecodeBlock(st, d, mem).st.table.max <= st.table.max
    decreases |d|
  {
    hide DecodeInt, DecodeLiteral, Lookup, Consistent, Stored, Insert, Evict;
    if d != [] {
      var r := DecodeField(st, d, mem);
      if r.Accepted? {
        FieldLimit(st, d, mem);
        hide DecodeField;
        BlockLimit(r.st, r.rest, mem);
      }
    }
  }

  lemma FieldLimit(st: Decoding, d: Bytes, mem: Memory)
    requires d != [] && Consistent(st.table) && DecodeField(st, d, mem).Accepted?
    ensures DecodeField(st, d, mem).st.table.max <= st.table.max
  {
    hide DecodeInt, DecodeLiteral, Lookup, Consistent, Stored, Insert, Evict;
  }

  lemma FeedTable(s: Conn, sid: nat, block: Bytes, mem: Memory)
    requires TableOk(s) && sid in s.streams
    ensures Consistent(s.table) && TableOk(Feed(s, sid, block, mem).conn)
  {
    hide DecodeBlock, Deliver, NewestThatFit;
    var st := Decoding(s.table, s.history, s.meant, []);
    BlockKeepsSound(st, block, mem);
    BlockLimit(st, block, mem);
  }

  lemma FrameTable(s: Conn, f: Frame, mem: Memory, fits: bool, maxBody: nat)
    requires TableOk(s)
    ensures Consistent(s.table) && TableOk(FrameStep(s, f, mem, fits, maxBody))
  {
    hide DecodeBlock, Feed, Slice, Has, CanOpen, Settings.DecodeFrom, PingReply, NewestThatFit;
    if f.kind == HEADERS && CanOpen(s.mgr, f.streamId) {
      FeedTable(Admit(s, f.streamId), f.streamId, Slice(f, mem), mem);
    }
    if f.kind == CONTINUATION && s.contId in s.streams {
      FeedTable(s.(contId := 0, block := s.block + f.payload), s.contId, s.block + f.payload, mem);
    }
  }

  /** What a frame may do to the queue and to the other streams. */
  predicate OnlyOwn(s: Conn, f: Frame, t: Conn) {
    && s.mgr.last <= t.mgr.last
    && (t.mgr.pending == s.mgr.pending || (t.mgr.pending == s.mgr.pending + [f.streamId] && f.streamId in t.streams))
    && (forall id :: id in s.streams && id != f.streamId ==> id in t.streams && t.streams[id] == s.streams[id])
    && (forall id :: id in s.mgr.states && id != f.streamId ==>
          id in t.mgr.states && t.mgr.states[id] == s.mgr.states[id])
  }

  lemma FeedOnlyOwn(s: Conn, sid: nat, block: Bytes, mem: Memory)
    requires Consistent(s.table) && sid in s.streams
    ensures var c := Feed(s, sid, block, mem).conn;
            c.mgr == s.mgr && c.out == s.out && sid in c.streams && c.streams == s.streams[sid := c.streams[sid]]
  {
    hide DecodeBlock, Deliver, Consistent;
  }

  lemma HeadersOnlyOwn(s: Conn, f: Frame, mem: Memory)
    requires Consistent(s.table) && f.kind == HEADERS
    ensures OnlyOwn(s, f, HeadersStep(s, f, mem))
  {
    hide DecodeBlock, Feed, Slice, Has, Live, Consistent, Be;
    if CanOpen(s.mgr, f.streamId) {
      FeedOnlyOwn(Admit(s, f.streamId), f.streamId, Slice(f, mem), mem);
    }
  }

  lemma ContinuationOnlyOwn(s: Conn, f: Frame, mem: Memory)
    requires Consistent(s.table) && f.kind == CONTINUATION
    ensures OnlyOwn(s, f, ContinuationStep(s, f, mem))
  {
    hide DecodeBlock, Deliver, Has, Consistent, Be, Be31;
  }

  lemma DataOnlyOwn(s: Conn, f: Frame, mem: Memory, fits: bool, maxBody: nat)
    requires f.kind == DATA
    ensures OnlyOwn(s, f, DataStep(s, f, mem, fits, maxBody))
  {
    hide Slice, Sliceable, LengthOf, TooLarge, Receive, Charge, Announce, Updates, Has, Be;
  }

  /** A frame puts at most its own stream into the queue, and changes no other. */
  lemma FrameOnlyOwn(s: Conn, f: Frame, mem: Memory, fits: bool, maxBody: nat)
    requires Consistent(s.table)
    ensures OnlyOwn(s, f, FrameStep(s, f, mem, fits, maxBody))
  {
    hide HeadersStep, ContinuationStep, DataStep, DecodeBlock, Consistent, Settings.DecodeFrom, PingReply, Be, Be31;
    if f.kind == HEADERS {
      hide OnlyOwn;
      HeadersOnlyOwn(s, f, mem);
    } else if f.kind == CONTINUATION {
      hide OnlyOwn;
      ContinuationOnlyOwn(s, f, mem);
    } else if f.kind == DATA {
      hide OnlyOwn;
      DataOnlyOwn(s, f, mem, fits, maxBody);
    }
  }

  lemma FrameReached(s: Conn, f: Frame, mem: Memory, fits: bool, maxBody: nat)
    requires Reached(s)
    ensures Consistent(s.table) && Reached(FrameStep(s, f, mem, fits, maxBody))
  {
    FrameTable(s, f, mem, fits, maxBody);
    hide FrameStep, DecodeBlock, TableOk, Consistent;
    FrameAligned(s, f, mem, fits, maxBody);
    FrameOnlyOwn(s, f, mem, fits, maxBody);
  }

  lemma StepReached(s: Snap, e: Step, maxBody: nat)
    requires Reached(s.conn)
    ensures Consistent(s.conn.table) && Reached(StepOf(s, e, maxBody).conn)
  {
    hide FrameStep, DecodeBlock, Reached, Begun, Resumed, Forgotten;
    ReachedTable(s.conn);
    hide Consistent;
    match e
    case Arrive(f, mem, fits) =>
      if WellSized(f) {
        FrameReached(s.conn, f, mem, fits, maxBody);
      }
    case Take(answered, found, throws) =>
      if s.conn.mgr.pending != [] {
        BegunReached(s, answered, found, throws, maxBody);
      }
    case Resume =>
      if s.busy.Handling? {
        ResumedReached(s);
      }
    case WebSocketOver(id) => ForgottenReached(s.conn, id);
  }

  lemma ReachedTable(c: Conn)
    requires Reached(c)
    ensures Consistent(c.table)
  {
  }

  lemma ForgottenReached(c: Conn, id: nat)
    requires Reached(c)
    ensures Reached(Forgotten(c, id))
  {
    hide Aligned, Refines;
    DropAligned(c.mgr, c.streams, id);
  }

  lemma BegunReached(s: Snap, answered: bool, found: Match, throws: bool, maxBody: nat)
    requires Reached(s.conn) && s.conn.mgr.pending != []
    ensures Reached(Begun(s, answered, found, throws, maxBody).conn)
  {
    var c := s.conn.(mgr := s.conn.mgr.(pending := s.conn.mgr.pending[1..]));
    assert Reached(c);
    ForgottenReached(c, s.conn.mgr.pending[0]);
    hide Refines, Live, TooLarge, Be;
  }

  lemma ResumedReached(s: Snap)
    requires Reached(s.conn) && s.busy.Handling?
    ensures Reached(Resumed(s).conn)
  {
    hide Refines, Live;
    ForgottenReached(s.conn, s.busy.id);
    assert Activated(s.conn.streams, s.busy.id).Keys == s.conn.streams.Keys;
  }

  /** The coroutines work for streams that were opened. */
  predicate Owned(s: Snap) {
    && (s.busy.Handling? ==> s.busy.id <= s.conn.mgr.last)
    && (forall id :: id in s.running ==> id <= s.conn.mgr.last)
  }

  lemma StepOwned(s: Snap, e: Step, maxBody: nat)
    requires Reached(s.conn) && Owned(s)
    ensures Consistent(s.conn.table) && Owned(StepOf(s, e, maxBody))
  {
    hide FrameStep, DecodeBlock;
    ReachedTable(s.conn);
    hide Consistent, TableOk, Aligned, TooLarge, Be;
    match e
    case Arrive(f, mem, fits) => FrameOnlyOwn(s.conn, f, mem, fits, maxBody);
    case _ =>
  }

  /** In every run, from the start of the connection. */
  lemma {:induction false} RunReached(steps: seq<Step>, n: nat, maxBody: nat)
    requires n <= |steps|
    ensures Consistent(NEW_SNAP.conn.table)
    ensures Reached(RunOf(NEW_SNAP, steps, n, maxBody).conn) && Owned(RunOf(NEW_SNAP, steps, n, maxBody))
  {
    NewReached();
    hide StepOf, Reached, DecodeBlock, Consistent;
    if n > 0 {
      hide Owned;
      RunReached(steps, n - 1, maxBody);
      StepReached(RunOf(NEW_SNAP, steps, n - 1, maxBody), steps[n - 1], maxBody);
      StepOwned(RunOf(NEW_SNAP, steps, n - 1, maxBody), steps[n - 1], maxBody);
    }
  }

  lemma NewReached()
    ensures Consistent(NEW_SNAP.conn.table) && Reached(NEW_SNAP.conn)
    ensures NEW_SNAP.conn.table.max == 4096 && NEW_SNAP.conn.books.initial == 65535
  {
    assert Live(map[]) == {};
  }

  // ---- A request in any number of frames ----

  /** Open, and taking a body. */
  predicate Receiving(c: Conn, id: nat, maxBody: nat) {
    TakesBody(c, id, maxBody) && c.mgr.states[id] == Open
  }

  /** A frame that does not touch stream `id`: one of another stream, or of a kind
      that is about none. */
  predicate Spares(f: Frame, id: nat) {
    f.streamId != id || f.kind !in {0, 1, 3, 9}
  }

  /** The first `n` steps: any, but the only frames that touch the stream are DATA
      without bit 0. */
  predicate BodyOnly(steps: seq<Step>, n: nat, id: nat) {
    && n <= |steps|
    && forall k :: 0 <= k < n ==> BodyStep(steps[k], id)
  }

  predicate BodyStep(e: Step, id: nat) {
    e.Arrive? ==> Spares(e.f, id) || (e.f.kind == 0 && e.f.flags % 2 == 0)
  }

  /** The request is on its way: not queued, and no coroutine works for it. */
  predicate Incoming(s: Snap, id: nat, maxBody: nat) {
    && Receiving(s.conn, id, maxBody) && id !in s.conn.mgr.pending
    && (s.busy.Handling? ==> s.busy.id != id) && id !in s.running
  }

  lemma SparedFrame(s: Conn, f: Frame, mem: Memory, fits: bool, maxBody: nat, id: nat)
    requires Consistent(s.table) && Receiving(s, id, maxBody) && Spares(f, id)
    ensures var t := FrameStep(s, f, mem, fits, maxBody);
            && Receiving(t, id, maxBody) && t.streams[id] == s.streams[id]
            && multiset(t.mgr.pending)[id] == multiset(s.mgr.pending)[id]
  {
    if f.streamId != id {
      hide FrameStep, DecodeBlock, Consistent;
      FrameOnlyOwn(s, f, mem, fits, maxBody);
    } else {
      hide DecodeBlock, Consistent, Settings.DecodeFrom, PingReply, HeadersStep, ContinuationStep, DataStep, RstStep;
      hide Be, Be31;
    }
  }

  /** The data a step brings for the stream, if any. */
  ghost function Sent(s: Snap, e: Step, id: nat): seq<Bytes> {
    if e.Arrive? && s.busy == Waiting && WellSized(e.f) && BringsData(e.f, e.mem, id) then [Slice(e.f, e.mem)] else []
  }

  predicate BringsData(f: Frame, mem: Memory, id: nat) {
    f.kind == 0 && f.streamId == id && Sliceable(f) && Slice(f, mem) != []
  }

  /** The same, if the region has room for it. */
  ghost function Kept(s: Snap, e: Step, id: nat): seq<Bytes> {
    if e.Arrive? && e.fits then Sent(s, e, id) else []
  }

  /** The data of the first `n` steps of a run, piece by piece. */
  ghost function SentIn(s: Snap, steps: seq<Step>, n: nat, maxBody: nat, id: nat): seq<Bytes>
    requires Consistent(s.conn.table) && n <= |steps|
  {
    if n == 0 then []
    else SentIn(s, steps, n - 1, maxBody, id) + Sent(RunOf(s, steps, n - 1, maxBody), steps[n - 1], id)
  }

  ghost function KeptIn(s: Snap, steps: seq<Step>, n: nat, maxBody: nat, id: nat): seq<Bytes>
    requires Consistent(s.conn.table) && n <= |steps|
  {
    if n == 0 then []
    else KeptIn(s, steps, n - 1, maxBody, id) + Kept(RunOf(s, steps, n - 1, maxBody), steps[n - 1], id)
  }

  function Latest(body: Bytes, pieces: seq<Bytes>): Bytes {
    if pieces == [] then body else pieces[|pieces| - 1]
  }

  lemma BodyFrame(s: Conn, f: Frame, mem: Memory, fits: bool, maxBody: nat, id: nat)
    requires Consistent(s.table) && Receiving(s, id, maxBody) && BodyStep(Arrive(f, mem, fits), id)
    ensures var t := FrameStep(s, f, mem, fits, maxBody);
            && Receiving(t, id, maxBody) && t.streams[id] == s.streams[id].(body := t.streams[id].body)
            && t.streams[id].body == (if fits && BringsData(f, mem, id) then Slice(f, mem) else s.streams[id].body)
            && multiset(t.mgr.pending)[id] == multiset(s.mgr.pending)[id]
  {
    hide FrameStep, DecodeBlock, Consistent, Slice, Sliceable;
    if Spares(f, id) {
      SparedFrame(s, f, mem, fits, maxBody, id);
    } else {
      DataCompletes(s, f, mem, fits, maxBody);
    }
  }

  lemma BegunOther(s: Snap, answered: bool, found: Match, throws: bool, maxBody: nat, id: nat)
    requires Incoming(s, id, maxBody) && s.conn.mgr.pending != []
    ensures var t := Begun(s, answered, found, throws, maxBody);
            Incoming(t, id, maxBody) && t.conn.streams[id] == s.conn.streams[id]
  {
    hide TooLarge, Be, Decision, Refusal;
    assert s.conn.mgr.pending[0] != id;
  }

  lemma ResumedOther(s: Snap, maxBody: nat, id: nat)
    requires Incoming(s, id, maxBody) && s.busy.Handling?
    ensures var t := Resumed(s);
            Incoming(t, id, maxBody) && t.conn.streams[id] == s.conn.streams[id]
  {
  }

  lemma ForgottenOther(s: Snap, other: nat, maxBody: nat, id: nat)
    requires Incoming(s, id, maxBody) && other in s.running
    ensures var t := Snap(Forgotten(s.conn, other), s.busy, s.running - multiset{other});
            Incoming(t, id, maxBody) && t.conn.streams[id] == s.conn.streams[id]
  {
  }

  lemma StillIncomingOne(s: Snap, e: Step, maxBody: nat, id: nat)
    requires Consistent(s.conn.table) && Incoming(s, id, maxBody) && BodyStep(e, id)
    ensures var t := StepOf(s, e, maxBody);
            && Incoming(t, id, maxBody)
            && t.conn.streams[id] == s.conn.streams[id].(body := Latest(s.conn.streams[id].body, Kept(s, e, id)))
  {
    hide FrameStep, DecodeBlock, Consistent, Begun, Resumed, Forgotten, BodyStep, BringsData, Slice;
    match e
    case Arrive(f, mem, fits) =>
      BodyFrame(s.conn, f, mem, fits, maxBody, id);
    case Take(answered, found, throws) =>
      if s.conn.mgr.pending != [] {
        BegunOther(s, answered, found, throws, maxBody, id);
      }
    case Resume =>
      if s.busy.Handling? {
        ResumedOther(s, maxBody, id);
      }
    case WebSocketOver(other) =>
      if other in s.running {
        ForgottenOther(s, other, maxBody, id);
      }
  }

  /** Until its last frame a request is not queued, whatever other streams do. */
  lemma {:induction false} StillIncoming(s: Snap, steps: seq<Step>, n: nat, maxBody: nat, id: nat)
    requires Consistent(s.conn.table) && Incoming(s, id, maxBody) && BodyOnly(steps, n, id)
    ensures var t, c := RunOf(s, steps, n, maxBody), s.conn.streams[id];
            && Incoming(t, id, maxBody)
            && t.conn.streams[id] == c.(body := Latest(c.body, KeptIn(s, steps, n, maxBody, id)))
  {
    hide StepOf, DecodeBlock, Consistent, BodyStep, Kept;
    if n > 0 {
      StillIncoming(s, steps, n - 1, maxBody, id);
      StillIncomingOne(RunOf(s, steps, n - 1, maxBody), steps[n - 1], maxBody, id);
    }
  }

  /** The last frame of a body: with it the request is queued, once. */
  lemma BodyCompleted(s: Snap, last: Frame, m: Memory, ok: bool, maxBody: nat, id: nat)
    requires Consistent(s.conn.table) && Incoming(s, id, maxBody) && s.busy == Waiting && WellSized(last)
    requires last.kind == 0 && last.streamId == id && last.flags % 2 == 1
    ensures var t := StepOf(s, Arrive(last, m, ok), maxBody).conn;
            && multiset(t.mgr.pending)[id] == 1 && id in t.mgr.states && t.mgr.states[id] == HalfClosedRemote
            && id in t.streams
            && t.streams[id] == s.conn.streams[id].(body := Latest(s.conn.streams[id].body,
                                                                   Kept(s, Arrive(last, m, ok), id)))
  {
    hide FrameStep, DecodeBlock, Consistent, Slice, Sliceable;
    DataCompletes(s.conn, last, m, ok, maxBody);
  }

  /** The step in which the HEADERS frame of a request with a body arrives. */
  function HeadersStepOf(id: nat, l: Layout, reps: seq<Representations.Rep>, m: Memory, ok: bool): Step
    requires l.Valid()
  {
    Arrive(HeadersFrame(id, l, false, true, Representations.BlockBytes(reps)), m, ok)
  }

  /** The stream's context tells of exactly the fields of the block. */
  ghost predicate HasFields(s: Conn, c: Context, reps: seq<Representations.Rep>) {
    && Representations.AllLegal(Representations.ReadPart(reps), s.history, s.table.max)
    && TellsOf(c, FieldsIn(s, reps))
  }

  /** The request comes without asking for a WebSocket, and announces no more
      than the limit. */
  predicate Plain(c: Conn, id: nat, maxBody: nat) {
    id in c.streams && !c.streams[id].wsExtended && (maxBody == 0 || c.streams[id].contentLength <= maxBody)
  }

  lemma NowIncoming(s: Snap, id: nat, l: Layout, reps: seq<Representations.Rep>, m: Memory, ok: bool, maxBody: nat)
    requires Reached(s.conn) && Owned(s) && Consistent(s.conn.table) && s.busy == Waiting
    requires MayOpen(s.conn, id) && l.Valid() && AllRoom(m) && WellSized(HeadersStepOf(id, l, reps, m, ok).f)
    requires Representations.AllLegal(reps, s.conn.history, s.conn.table.max)
    requires Plain(StepOf(s, HeadersStepOf(id, l, reps, m, ok), maxBody).conn, id, maxBody)
    ensures var t := StepOf(s, HeadersStepOf(id, l, reps, m, ok), maxBody);
            && Incoming(t, id, maxBody) && t.conn.streams[id].body == []
            && HasFields(s.conn, t.conn.streams[id].(body := []), reps)
  {
    hide DecodeBlock, Consistent, FrameStep, AllRoom, Representations.AllLegal, Representations.ReadPart;
    hide Representations.BlockBytes, FieldsIn, HeadersFrame, Reached, TellsOf, TableOk, WellSized, Live;
    NewStream(s.conn, id);
    HeadersOpen(s.conn, id, l, false, reps, m, ok, maxBody);
    ToldIsNew(StepOf(s, HeadersStepOf(id, l, reps, m, ok), maxBody).conn.streams[id], FieldsIn(s.conn, reps));
  }

  /** In every reachable state: a request in a HEADERS frame and DATA frames, the
      last one with bit 0 set, is in the queue exactly once, and not before its
      last frame, whatever frames of other streams, other requests and WebSockets
      do in between. Its handler is given the fields named, and as the body the
      last piece of data there was room for: `BodyWholeExactly`. WebSocket requests
      and those announcing more than the limit: `DataForWebSocket`, `DataRefused`. */
  lemma RequestQueuedOnce(s: Snap, id: nat, l: Layout, reps: seq<Representations.Rep>, steps: seq<Step>, last: Frame,
                          maxBody: nat, m: Memory, ok: bool)
    requires Reached(s.conn) && Owned(s) && Consistent(s.conn.table) && s.busy == Waiting
    requires MayOpen(s.conn, id) && l.Valid() && AllRoom(m) && WellSized(HeadersStepOf(id, l, reps, m, ok).f)
    requires Representations.AllLegal(reps, s.conn.history, s.conn.table.max)
    requires Plain(StepOf(s, HeadersStepOf(id, l, reps, m, ok), maxBody).conn, id, maxBody)
    requires BodyOnly(steps, |steps|, id) && WellSized(last)
    requires last.kind == 0 && last.streamId == id && last.flags % 2 == 1
    ensures var c, n := StepOf(s, HeadersStepOf(id, l, reps, m, ok), maxBody), |steps|;
            var before := RunOf(c, steps, n, maxBody);
            var t := StepOf(before, Arrive(last, m, ok), maxBody).conn;
            && id !in before.conn.mgr.pending
            && (before.busy == Waiting ==>
                  && multiset(t.mgr.pending)[id] == 1
                  && id in t.mgr.states && t.mgr.states[id] == HalfClosedRemote
                  && id in t.streams && HasFields(s.conn, t.streams[id].(body := []), reps)
                  && t.streams[id].body == Latest(Latest([], KeptIn(c, steps, n, maxBody, id)),
                                                  Kept(before, Arrive(last, m, ok), id)))
  {
    hide *;
    var c := StepOf(s, HeadersStepOf(id, l, reps, m, ok), maxBody);
    NowIncoming(s, id, l, reps, m, ok, maxBody);
    StillIncoming(c, steps, |steps|, maxBody, id);
    var before := RunOf(c, steps, |steps|, maxBody);
    NotQueued(before, id, maxBody);
    if before.busy == Waiting {
      BodyCompleted(before, last, m, ok, maxBody, id);
    }
  }

  function Joined(pieces: seq<Bytes>): Bytes {
    if pieces == [] then [] else Joined(pieces[..|pieces| - 1]) + pieces[|pieces| - 1]
  }

  predicate Nonempty(pieces: seq<Bytes>) {
    forall i :: 0 <= i < |pieces| ==> pieces[i] != []
  }

  predicate Among(kept: seq<Bytes>, sent: seq<Bytes>) {
    |kept| <= |sent| && forall i :: 0 <= i < |kept| ==> kept[i] in sent
  }

  lemma {:induction false} KeptAreSent(s: Snap, steps: seq<Step>, n: nat, maxBody: nat, id: nat)
    requires Consistent(s.conn.table) && n <= |steps|
    ensures var sent := SentIn(s, steps, n, maxBody, id);
            Nonempty(sent) && Among(KeptIn(s, steps, n, maxBody, id), sent)
  {
    hide RunOf, Slice, DecodeBlock, Consistent;
    if n > 0 {
      KeptAreSent(s, steps, n - 1, maxBody, id);
    }
  }

  /** Of two or more pieces with data, none is all of it. */
  lemma {:induction false} PieceIsShorter(pieces: seq<Bytes>, k: nat)
    requires k < |pieces| && Nonempty(pieces)
    ensures |pieces[k]| <= |Joined(pieces)| && (|pieces| > 1 ==> |pieces[k]| < |Joined(pieces)|)
    decreases |pieces|
  {
    var front, last := pieces[..|pieces| - 1], pieces[|pieces| - 1];
    if front != [] {
      assert last != [] && front[0] != [];
      PieceIsShorter(front, if k < |front| then k else 0);
    }
  }

  lemma ManyPieces(sent: seq<Bytes>, kept: seq<Bytes>)
    requires Nonempty(sent) && Among(kept, sent) && |sent| > 1
    ensures |Latest([], kept)| < |Joined(sent)|
  {
    hide Joined, Nonempty;
    PieceIsShorter(sent, 0);
    if kept != [] {
      var k :| 0 <= k < |sent| && sent[k] == kept[|kept| - 1];
      hide Among;
      PieceIsShorter(sent, k);
    }
  }

  lemma OnePiece(sent: seq<Bytes>, kept: seq<Bytes>)
    requires Nonempty(sent) && Among(kept, sent) && |sent| == 1
    ensures Joined(sent) == sent[0] != [] && (kept == [] || kept == sent)
  {
    assert sent[..0] == [] && Joined(sent) == [] + sent[0];
    hide Joined;
    if kept != [] {
      assert kept[0] in sent;
      assert kept == [sent[0]];
    }
  }

  lemma WholeExactly(sent: seq<Bytes>, kept: seq<Bytes>)
    requires Nonempty(sent) && Among(kept, sent)
    ensures Latest([], kept) == Joined(sent) <==> |sent| <= 1 && kept == sent
  {
    if |sent| > 1 {
      hide Nonempty, Among, Joined, Latest;
      ManyPieces(sent, kept);
    } else if |sent| == 1 {
      OnePiece(sent, kept);
      hide Nonempty, Among, Joined;
    }
  }

  /** Over every run: the piece kept as the body is all data of the stream exactly
      if there was at most one piece with data, and room for it. */
  lemma BodyWholeExactly(s: Snap, steps: seq<Step>, n: nat, maxBody: nat, id: nat)
    requires Consistent(s.conn.table) && n <= |steps|
    ensures var sent, kept := SentIn(s, steps, n, maxBody, id), KeptIn(s, steps, n, maxBody, id);
            Latest([], kept) == Joined(sent) <==> |sent| <= 1 && kept == sent
  {
    hide *;
    KeptAreSent(s, steps, n, maxBody, id);
    WholeExactly(SentIn(s, steps, n, maxBody, id), KeptIn(s, steps, n, maxBody, id));
  }

  lemma NotQueued(s: Snap, id: nat, maxBody: nat)
    requires Incoming(s, id, maxBody)
    ensures id !in s.conn.mgr.pending
  {
  }

  lemma NewStream(s: Conn, id: nat)
    requires Reached(s) && MayOpen(s, id)
    ensures id !in s.streams && id !in s.mgr.pending && TableOk(s)
  {
  }

  lemma ToldIsNew(c: Context, ds: seq<Header>)
    requires TellsOf(c, ds)
    ensures !c.wsActive && !c.closed && c.body == [] && c.(body := []) == c
  {
  }

  // ---- Reset streams ----

  /** The stream was begun once, and is gone or reset. */
  predicate Over(c: Conn, id: nat) {
    id <= c.mgr.last && (id in c.streams ==> c.streams[id].closed)
  }

  lemma {:induction false} DeliverKeeps(c: Context, hs: seq<Header>, n: nat)
    requires n <= |hs|
    ensures Deliver(c, hs, n).closed == c.closed
  {
    hide Ascii;
    if n > 0 {
      DeliverKeeps(c, hs, n - 1);
    }
  }

  lemma FeedOver(s: Conn, sid: nat, block: Bytes, mem: Memory, id: nat)
    requires Consistent(s.table) && sid in s.streams && Over(s, id)
    ensures Over(Feed(s, sid, block, mem).conn, id)
  {
    hide DecodeBlock, Deliver, Consistent;
    var r := DecodeBlock(Decoding(s.table, s.history, s.meant, []), block, mem);
    DeliverKeeps(s.streams[sid], r.st.delivered, |r.st.delivered|);
  }

  lemma HeadersOver(s: Conn, f: Frame, mem: Memory, id: nat)
    requires Consistent(s.table) && f.kind == HEADERS && Over(s, id)
    ensures Over(HeadersStep(s, f, mem), id)
  {
    hide DecodeBlock, Feed, Slice, Has, Live, Consistent, Be;
    if CanOpen(s.mgr, f.streamId) {
      FeedOver(Admit(s, f.streamId), f.streamId, Slice(f, mem), mem, id);
    }
  }

  lemma ContinuationOver(s: Conn, f: Frame, mem: Memory, id: nat)
    requires Consistent(s.table) && f.kind == CONTINUATION && Over(s, id)
    ensures Over(ContinuationStep(s, f, mem), id)
  {
    hide DecodeBlock, Feed, Has, Consistent, Be, Be31;
    if s.contId in s.streams {
      FeedOver(s.(contId := 0, block := s.block + f.payload), s.contId, s.block + f.payload, mem, id);
    }
  }

  lemma FrameOver(s: Conn, f: Frame, mem: Memory, fits: bool, maxBody: nat, id: nat)
    requires Consistent(s.table) && Over(s, id)
    ensures Over(FrameStep(s, f, mem, fits, maxBody), id)
  {
    hide DecodeBlock, HeadersStep, ContinuationStep, Consistent, Settings.DecodeFrom, PingReply;
    hide Slice, Sliceable, LengthOf, Has, TooLarge, Charge, Announce, Updates, Be, Be31;
    if f.kind == HEADERS {
      HeadersOver(s, f, mem, id);
    }
    if f.kind == CONTINUATION {
      ContinuationOver(s, f, mem, id);
    }
  }

  lemma StepOver(s: Snap, e: Step, maxBody: nat, id: nat)
    requires Consistent(s.conn.table) && Over(s.conn, id)
    ensures Over(StepOf(s, e, maxBody).conn, id) && id !in HandledBy(s, e, maxBody)
  {
    hide FrameStep, DecodeBlock, Consistent, TooLarge, Be;
    match e
    case Arrive(f, mem, fits) => FrameOver(s.conn, f, mem, fits, maxBody, id);
    case _ =>
  }

  /** A stream that was reset is never handed to a handler afterwards, in any run. */
  lemma {:induction false} ResetNeverHandled(s: Snap, steps: seq<Step>, n: nat, maxBody: nat, id: nat)
    requires Consistent(s.conn.table) && Over(s.conn, id) && n <= |steps|
    ensures Over(RunOf(s, steps, n, maxBody).conn, id) && id !in HandledIn(s, steps, n, maxBody)
  {
    hide StepOf, HandledBy, Over, DecodeBlock, Consistent;
    if n > 0 {
      ResetNeverHandled(s, steps, n - 1, maxBody, id);
      StepOver(RunOf(s, steps, n - 1, maxBody), steps[n - 1], maxBody, id);
    }
  }

  /** RST_STREAM is such a reset, of its own stream and of no other. */
  lemma ResetEnds(s: Conn, f: Frame, mem: Memory, fits: bool, maxBody: nat)
    requires Consistent(s.table) && f.kind == 3 && f.streamId in s.streams && f.streamId <= s.mgr.last
    ensures var t := FrameStep(s, f, mem, fits, maxBody);
            && Over(t, f.streamId) && t.mgr.pending == s.mgr.pending && t.out == s.out
            && t.streams == s.streams[f.streamId := s.streams[f.streamId].(closed := true)]
            && (f.streamId in s.mgr.states ==> t.mgr.states == s.mgr.states[f.streamId := Closed])
  {
    hide DecodeBlock, Consistent, HeadersStep, ContinuationStep, DataStep;
  }

  // ---- SETTINGS ----

  /** The frame size the client sets, if legal, holds for the frames that follow. */
  lemma FrameSizeObeyed(p: Settings.Settings, f: Frame, max: nat)
    requires Settings.Encodable(p)
    requires f.kind == 4 && f.flags % 2 == 0 && f.payload == Settings.EncodeSettings(p)
    ensures FrameBatch.NextMax(max, f)
            == if p.maxFrameSize.Some? && 16384 <= p.maxFrameSize.value <= 16777215 then p.maxFrameSize.value else max
  {
    Settings.SettingsRoundTrip(p);
    hide Settings.DecodeFrom, Settings.EncodeSettings;
  }

  lemma SettingsAnswers(last: nat)
    ensures MessageOf(Frame(SETTINGS, ACK, 0, [])) == Some(SettingsRead)
    ensures MessageOf(GoAway(last, PROTOCOL_ERROR)) == Some(Leave(last % 0x8000_0000, 1))
  {
    MessageRead(SettingsRead);
    MessageRead(Leave(last, PROTOCOL_ERROR));
    assert FrameOf(Leave(last, PROTOCOL_ERROR)) == GoAway(last, PROTOCOL_ERROR);
  }

  /** The client's initial window is taken over; the answer is an acknowledgement,
      or for an illegal frame size GOAWAY with error 1. */
  lemma SettingsObeyed(s: Conn, p: Settings.Settings, f: Frame, mem: Memory, fits: bool, maxBody: nat)
    requires Consistent(s.table) && Settings.Encodable(p)
    requires f.kind == 4 && f.flags % 2 == 0 && f.payload == Settings.EncodeSettings(p)
    ensures var t := FrameStep(s, f, mem, fits, maxBody);
            var legal := p.maxFrameSize.Some? ==> 16384 <= p.maxFrameSize.value <= 16777215;
            && t.books.initial == (if p.initialWindowSize.Some? then p.initialWindowSize.value else s.books.initial)
            && t.books == s.books.(initial := t.books.initial) && t.mgr == s.mgr && t.streams == s.streams
            && |t.out| == |s.out| + 1 && s.out <= t.out
            && MessageOf(t.out[|s.out|]) == Some(if legal then SettingsRead else Leave(s.mgr.last % 0x8000_0000, 1))
  {
    Settings.SettingsRoundTrip(p);
    hide DecodeBlock, Consistent, HeadersStep, ContinuationStep, DataStep, RstStep, GoAwayStep, PingReply;
    hide Settings.DecodeFrom, Settings.EncodeSettings, Settings.Encodable, MessageOf, GoAway;
    assert FrameStep(s, f, mem, fits, maxBody) == SettingsStep(s, f);
    hide FrameStep;
    SettingsAnswers(s.mgr.last);
  }

  /** Acknowledgements of SETTINGS, a GOAWAY too short, and the types the server
      has no use for, PRIORITY, PUSH_PROMISE, WINDOW_UPDATE and any above 9. */
  lemma FrameIgnored(s: Conn, f: Frame, mem: Memory, fits: bool, maxBody: nat)
    requires Consistent(s.table)
    requires (f.kind == 4 && f.flags % 2 == 1) || (f.kind == 7 && |f.payload| < 8) || f.kind in {2, 5, 8} || f.kind > 9
    ensures FrameStep(s, f, mem, fits, maxBody) == s
  {
    hide DecodeBlock, Consistent, HeadersStep, ContinuationStep, DataStep, RstStep, Settings.DecodeFrom, PingReply;
  }

  // ---- Handlers ----

  /** The oldest queue entry, while the main coroutine waits: a request that is
      there, was not reset and announces no more than the limit reaches its
      handler exactly if middleware did not answer and there is one. */
  lemma HandlerReached(s: Snap, answered: bool, found: Match, throws: bool, maxBody: nat)
    requires s.busy == Waiting && s.conn.mgr.pending != []
    ensures var id := s.conn.mgr.pending[0];
            HandledBy(s, Take(answered, found, throws), maxBody)
            == if id in s.conn.streams && !s.conn.streams[id].closed
                  && (maxBody == 0 || s.conn.streams[id].contentLength <= maxBody) && !answered && !found.NoHandler?
               then [id] else []
  {
  }

  /** What follows for a request that is there and was not reset, at the next
      resumption. One that asked for a WebSocket gets it if there is a handler,
      nothing was thrown and it was not a streaming handler that served it: it
      stays, active, with a coroutine of its own. Any other request is gone from
      both maps. */
  lemma RequestFinished(s: Snap, answered: bool, found: Match, throws: bool, maxBody: nat)
    requires Consistent(s.conn.table) && s.busy == Waiting && s.conn.mgr.pending != []
    requires var id := s.conn.mgr.pending[0]; id in s.conn.streams && !s.conn.streams[id].closed
    ensures var id := s.conn.mgr.pending[0];
            var c := s.conn.streams[id];
            var fits := maxBody == 0 || c.contentLength <= maxBody;
            var upgraded := fits && c.wsExtended && !found.NoHandler? && !throws && (answered || !found.StreamHandler?);
            var t := StepOf(StepOf(s, Take(answered, found, throws), maxBody), Resume, maxBody);
            && t.busy == Waiting && t.conn.mgr.pending == s.conn.mgr.pending[1..]
            && t.running == (if upgraded then s.running + multiset{id} else s.running)
            && t.conn.streams == (if upgraded then s.conn.streams[id := c.(wsActive := true)]
                                  else s.conn.streams - {id})
            && t.conn.mgr.states == (if upgraded then s.conn.mgr.states else s.conn.mgr.states - {id})
  {
    hide DecodeBlock, FrameStep, Be, Consistent;
  }

  /** What it is told besides its response: too large, and a WebSocket without
      a handler, is refused (7); a handler that throws is an internal error (2). */
  lemma RequestRefused(s: Snap, answered: bool, found: Match, throws: bool, maxBody: nat)
    requires Consistent(s.conn.table) && s.busy == Waiting && s.conn.mgr.pending != []
    requires var id := s.conn.mgr.pending[0]; id in s.conn.streams && !s.conn.streams[id].closed
    ensures var id := s.conn.mgr.pending[0];
            var c := s.conn.streams[id];
            var t := StepOf(s, Take(answered, found, throws), maxBody).conn;
            var large := 0 < maxBody < c.contentLength;
            var refused := large || (!throws && c.wsExtended && found.NoHandler?);
            if refused || throws then
              && |t.out| == |s.conn.out| + 1 && s.conn.out <= t.out
              && MessageOf(t.out[|s.conn.out|]) == Some(Reset(id, if refused then 7 else 2))
            else t.out == s.conn.out
  {
    hide DecodeBlock, FrameStep, Consistent, MessageOf, Be;
    var id := s.conn.mgr.pending[0];
    MessageRead(Reset(id, REFUSED_STREAM));
    MessageRead(Reset(id, INTERNAL_ERROR));
    assert FrameOf(Reset(id, REFUSED_STREAM)) == Rst(id, REFUSED_STREAM);
    assert FrameOf(Reset(id, INTERNAL_ERROR)) == Rst(id, INTERNAL_ERROR);
  }
}
