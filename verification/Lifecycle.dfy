/** The HTTP/2 connection over time: what runs between two suspension points of
    its coroutines is one step. What every step keeps, over whole runs. */
module Lifecycle {
  import opened Bits
  import opened Frames
  import opened Options
  import opened Settings
  import opened Fields
  import opened HpackTable
  import opened HpackPrimitives
  import opened Hpack
  import opened StreamManager
  import opened FlowControl
  import opened Output
  import opened Connection

  // ---- Any frame ----

  /** PING is echoed, unless it is an acknowledgement or too short. */
  function PingReply(f: Frame): seq<Frame> {
    if f.flags % 2 == 0 && |f.payload| >= 8 then [Frame(PING, ACK, 0, f.payload[..8])] else []
  }

  /** GOAWAY is answered, unless one was sent already. */
  function GoAwayStep(s: Conn, f: Frame): Conn {
    if |f.payload| < 8 || s.goawaySent then s else Send(s, GoAway(s.mgr.last, NO_ERROR)).(goawaySent := true)
  }

  /** SETTINGS: nothing for an acknowledgement; otherwise the initial window is
      taken over, and the answer is an acknowledgement, or the end of the
      connection for a frame size out of bounds (section 6.5.2 of RFC 7540). */
  function SettingsStep(s: Conn, f: Frame): Conn {
    var settings := DecodeFrom(NO_SETTINGS, f.payload);
    var size, w := settings.maxFrameSize, settings.initialWindowSize;
    if f.flags % 2 == 1 then s else
      var s1 := s.(books := s.books.(initial := if w.Some? then w.value else s.books.initial));
      if size.Some? && !(16384 <= size.value <= 16777215)
      then Send(s1, GoAway(s.mgr.last, PROTOCOL_ERROR)).(goawaySent := true)
      else Send(s1, Frame(SETTINGS, ACK, 0, []))
  }

  /** What a frame does, by its type; other types do nothing. */
  ghost function FrameStep(s: Conn, f: Frame, mem: Memory, fits: bool, maxBody: nat): (t: Conn)
    requires Consistent(s.table)
    ensures Consistent(t.table)
  {
    if f.kind == HEADERS then HeadersStep(s, f, mem)
    else if f.kind == CONTINUATION then ContinuationStep(s, f, mem)
    else if f.kind == DATA then DataStep(s, f, mem, fits, maxBody)
    else if f.kind == RST_STREAM then RstStep(s, f.streamId)
    else if f.kind == SETTINGS then SettingsStep(s, f)
    else if f.kind == PING then s.(out := s.out + PingReply(f))
    else if f.kind == GOAWAY then GoAwayStep(s, f)
    else s
  }

  /** The first `n` frames of a batch. */
  ghost function FramesStep(s: Conn, frames: seq<Frame>, n: nat, mem: nat -> Memory, fits: nat -> bool,
                            maxBody: nat): (t: Conn)
    requires Consistent(s.table) && n <= |frames|
    ensures Consistent(t.table)
  {
    if n == 0 then s
    else FrameStep(FramesStep(s, frames, n - 1, mem, fits, maxBody), frames[n - 1], mem(n - 1), fits(n - 1), maxBody)
  }

  // ---- Both maps know the same streams ----

  predicate Aligned(m: Manager, streams: map<nat, Context>) {
    && streams.Keys == m.states.Keys
    && (forall id :: id in streams ==> id % 2 == 1 && id <= m.last)
    && |Live(m.states)| <= MAX_CONCURRENT
  }

  /** From `s` to `t` streams are opened, if any, under new identifiers, and
      fields are only added. */
  predicate Extends(s: Conn, t: Conn) {
    && s.mgr.last <= t.mgr.last && s.given <= t.given
    && (forall id :: id in t.streams ==> id in s.streams || id > s.mgr.last)
  }

  lemma FeedAligned(s: Conn, sid: nat, block: Bytes, mem: Memory)
    requires Consistent(s.table) && sid in s.streams
    ensures var t := Feed(s, sid, block, mem).conn;
            t.streams.Keys == s.streams.Keys && t.mgr == s.mgr && s.given <= t.given
  {
    hide DecodeBlock, Deliver, Consistent;
  }

  lemma AdmittedAligned(s: Conn, f: Frame, mem: Memory)
    requires Aligned(s.mgr, s.streams)
    requires Consistent(s.table) && f.kind == HEADERS && f.streamId in s.streams
    ensures var t := AdmittedStep(s, f, mem);
            && Aligned(t.mgr, t.streams) && t.streams.Keys == s.streams.Keys
            && t.mgr.last == s.mgr.last && s.given <= t.given
  {
    hide Has, Slice, Consistent, Feed, DecodeBlock;
    FeedAligned(s, f.streamId, Slice(f, mem), mem);
    LiveChanges(s.mgr.states, f.streamId);
    hide Live;
  }

  lemma AdmitAligned(s: Conn, sid: nat)
    requires Aligned(s.mgr, s.streams) && CanOpen(s.mgr, sid)
    ensures var t := Admit(s, sid); Aligned(t.mgr, t.streams) && Extends(s, t)
  {
    LiveChanges(s.mgr.states, sid);
    hide Live;
  }

  lemma HeadersAligned(s: Conn, f: Frame, mem: Memory)
    requires Aligned(s.mgr, s.streams) && Consistent(s.table) && f.kind == HEADERS
    ensures var t := HeadersStep(s, f, mem); Aligned(t.mgr, t.streams) && Extends(s, t)
  {
    hide Consistent, AdmittedStep, DecodeBlock, CanOpen, Live;
    if CanOpen(s.mgr, f.streamId) {
      AdmitAligned(s, f.streamId);
      AdmittedAligned(Admit(s, f.streamId), f, mem);
    }
  }

  lemma ContinuationAligned(s: Conn, f: Frame, mem: Memory)
    requires Aligned(s.mgr, s.streams) && Consistent(s.table) && f.kind == CONTINUATION
    ensures var t := ContinuationStep(s, f, mem); Aligned(t.mgr, t.streams) && Extends(s, t)
  {
    hide Has, Consistent, Feed, DecodeBlock, Live;
    if s.contId in s.streams {
      var s1 := s.(block := s.block + f.payload, contId := 0);
      FeedAligned(s1, s.contId, s1.block, mem);
    }
  }

  lemma DataAligned(s: Conn, f: Frame, mem: Memory, fits: bool, maxBody: nat)
    requires Aligned(s.mgr, s.streams) && f.kind == DATA
    ensures var t := DataStep(s, f, mem, fits, maxBody); Aligned(t.mgr, t.streams) && Extends(s, t)
  {
    LiveChanges(s.mgr.states, f.streamId);
    hide Has, Slice, LengthOf, Sliceable, Receive, TooLarge, Live, Charge, Announce, Updates;
  }

  lemma RstAligned(s: Conn, sid: nat)
    requires Aligned(s.mgr, s.streams)
    ensures var t := RstStep(s, sid); Aligned(t.mgr, t.streams) && Extends(s, t)
  {
    LiveChanges(s.mgr.states, sid);
    if sid in s.mgr.states && s.mgr.states[sid] == Closed {
      assert s.mgr.states[sid := Closed] == s.mgr.states;
    }
    hide Live;
  }

  /** A frame keeps the maps aligned and opens only a new identifier. */
  lemma FrameAligned(s: Conn, f: Frame, mem: Memory, fits: bool, maxBody: nat)
    requires Aligned(s.mgr, s.streams) && Consistent(s.table)
    ensures var t := FrameStep(s, f, mem, fits, maxBody); Aligned(t.mgr, t.streams) && Extends(s, t)
  {
    hide HeadersStep, ContinuationStep, DataStep, RstStep, DecodeBlock, Consistent, DecodeFrom, PingReply, Live;
    if f.kind == HEADERS {
      HeadersAligned(s, f, mem);
    } else if f.kind == CONTINUATION {
      ContinuationAligned(s, f, mem);
    } else if f.kind == DATA {
      DataAligned(s, f, mem, fits, maxBody);
    } else if f.kind == RST_STREAM {
      RstAligned(s, f.streamId);
    }
  }

  lemma DropAligned(m: Manager, streams: map<nat, Context>, id: nat)
    requires Aligned(m, streams)
    ensures Aligned(Removed(m, id), streams - {id})
  {
    LiveChanges(m.states, id);
    if id in Live(m.states) {
      assert Live(m.states - {id}) == Live(m.states[id := Closed]);
    }
  }

  // ---- WebSockets are asked for ----

  const WS_FIELD := Header(Ascii(":protocol"), Ascii("websocket"))

  /** The stream's headers asked for a WebSocket (section 4 of RFC 8441). */
  predicate WsAsked(given: seq<Given>, id: nat) {
    Given(id, WS_FIELD) in given
  }

  /** Only streams that asked for one are marked. */
  predicate Marked(given: seq<Given>, streams: map<nat, Context>) {
    forall id :: id in streams && streams[id].wsExtended ==> WsAsked(given, id)
  }

  lemma {:induction false} DeliverMarks(c: Context, hs: seq<Header>, n: nat)
    requires n <= |hs|
    ensures Deliver(c, hs, n).wsExtended ==> c.wsExtended || WS_FIELD in hs
  {
    if n > 0 {
      DeliverMarks(c, hs, n - 1);
      hide Ascii;
    }
  }

  lemma FeedMarks(s: Conn, sid: nat, block: Bytes, mem: Memory)
    requires Consistent(s.table) && sid in s.streams && Marked(s.given, s.streams)
    ensures var t := Feed(s, sid, block, mem).conn; Marked(t.given, t.streams)
  {
    var r := DecodeBlock(Decoding(s.table, s.history, s.meant, []), block, mem);
    var hs := r.st.delivered;
    DeliverMarks(s.streams[sid], hs, |hs|);
    hide DecodeBlock, Deliver, Consistent, Ascii;
    var t := Feed(s, sid, block, mem).conn;
    forall id | id in t.streams && t.streams[id].wsExtended ensures WsAsked(t.given, id) {
      if id != sid || s.streams[sid].wsExtended {
        assert WsAsked(s.given, id);
      } else {
        var i :| 0 <= i < |hs| && hs[i] == WS_FIELD;
        assert GivenAll(sid, hs)[i] == Given(sid, WS_FIELD);
      }
    }
  }

  lemma HeadersMarks(s: Conn, f: Frame, mem: Memory)
    requires Marked(s.given, s.streams) && Consistent(s.table) && f.kind == HEADERS
    ensures var t := HeadersStep(s, f, mem); Marked(t.given, t.streams)
  {
    hide Has, Slice, Consistent, DecodeBlock, CanOpen, WsAsked;
    if CanOpen(s.mgr, f.streamId) {
      var s1 := Admit(s, f.streamId);
      assert Marked(s1.given, s1.streams);
      FeedMarks(s1, f.streamId, Slice(f, mem), mem);
      hide Feed, Marked;
    }
  }

  lemma ContinuationMarks(s: Conn, f: Frame, mem: Memory)
    requires Marked(s.given, s.streams) && Consistent(s.table) && f.kind == CONTINUATION
    ensures var t := ContinuationStep(s, f, mem); Marked(t.given, t.streams)
  {
    hide Has, Consistent, Feed, DecodeBlock, Marked;
    if s.contId in s.streams {
      var s1 := s.(block := s.block + f.payload, contId := 0);
      FeedMarks(s1, s.contId, s1.block, mem);
    }
  }

  lemma FrameMarks(s: Conn, f: Frame, mem: Memory, fits: bool, maxBody: nat)
    requires Marked(s.given, s.streams) && Consistent(s.table)
    ensures var t := FrameStep(s, f, mem, fits, maxBody); Marked(t.given, t.streams)
  {
    hide HeadersStep, ContinuationStep, DecodeBlock, Consistent, DecodeFrom, PingReply, WsAsked, Has;
    hide Slice, LengthOf, TooLarge;
    hide Charge, Announce, Updates;
    if f.kind == HEADERS {
      HeadersMarks(s, f, mem);
    } else if f.kind == CONTINUATION {
      ContinuationMarks(s, f, mem);
    }
  }

  // ---- Window updates are what flow control booked ----

  /** `a` is `b` but for multiples of 2^31 that were cut off. */
  predicate Cut(a: nat, b: nat) {
    a <= b && (b - a) % TWO31 == 0
  }

  lemma CutAdd(a: nat, b: nat, c: nat, d: nat)
    requires Cut(a, b) && Cut(c, d)
    ensures Cut(a + c, b + d)
  {
    DivModUnique(b + d - (a + c), TWO31, (b - a) / TWO31 + (d - c) / TWO31, 0);
  }

  lemma CutOf(v: nat)
    ensures Cut(v % TWO31, v)
  {
    DivModUnique(v - v % TWO31, TWO31, v / TWO31, 0);
  }

  function Increment(f: Frame, e: nat): nat {
    if f.kind == WINDOW_UPDATE && f.streamId == e then From31(f.payload) else 0
  }

  /** The increments for entity `e` in the first `n` frames written. */
  function Written(out: seq<Frame>, n: nat, e: nat): nat
    requires n <= |out|
  {
    if n == 0 then 0 else Written(out, n - 1, e) + Increment(out[n - 1], e)
  }

  lemma {:induction false} WrittenPrefix(a: seq<Frame>, b: seq<Frame>, n: nat, e: nat)
    requires n <= |a|
    ensures Written(a + b, n, e) == Written(a, n, e)
  {
    if n > 0 {
      WrittenPrefix(a, b, n - 1, e);
    }
  }

  lemma {:induction false} WrittenJoin(a: seq<Frame>, b: seq<Frame>, n: nat, e: nat)
    requires n <= |b|
    ensures Written(a + b, |a| + n, e) == Written(a, |a|, e) + Written(b, n, e)
  {
    if n == 0 {
      WrittenPrefix(a, b, |a|, e);
    } else {
      WrittenJoin(a, b, n - 1, e);
    }
  }

  function UpdateFrame(u: Update): Frame {
    Frame(WINDOW_UPDATE, 0, u.id, Be31(u.credit))
  }

  lemma UpdateWritten(u: Update, e: nat)
    ensures Cut(Increment(UpdateFrame(u), e), if u.id == e then u.credit else 0)
  {
    Be31Cuts(u.credit);
    hide From31, Be31, Cut;
    CutOf(u.credit);
    CutOf(0);
  }

  lemma {:induction false} UpdatesWritten(us: seq<Update>, n: nat, e: nat)
    requires n <= |us|
    ensures Cut(Written(UpdateFrames(us), n, e), Granted(us, n, e))
  {
    hide Increment, Cut, Be31;
    if n > 0 {
      var u := us[n - 1];
      UpdatesWritten(us, n - 1, e);
      UpdateWritten(u, e);
      assert UpdateFrames(us)[n - 1] == UpdateFrame(u);
      CutAdd(Written(UpdateFrames(us), n - 1, e), Granted(us, n - 1, e),
             Increment(UpdateFrame(u), e), if u.id == e then u.credit else 0);
    } else {
      CutOf(0);
    }
  }

  /** For every entity, the increments written so far are the credits that
      flow control gave out, each cut to 31 bits. */
  ghost predicate Booked(out: seq<Frame>, popped: Ledger) {
    forall e: nat :: Cut(Written(out, |out|, e), Entry(popped, e))
  }

  lemma {:induction false} NothingWritten(out: seq<Frame>, n: nat, e: nat)
    requires n <= |out| && forall i :: 0 <= i < |out| ==> out[i].kind != WINDOW_UPDATE
    ensures Written(out, n, e) == 0
  {
    if n > 0 {
      NothingWritten(out, n - 1, e);
    }
  }

  lemma OtherFrames(out: seq<Frame>, fs: seq<Frame>, popped: Ledger)
    requires Booked(out, popped) && forall i :: 0 <= i < |fs| ==> fs[i].kind != WINDOW_UPDATE
    ensures Booked(out + fs, popped)
  {
    hide Cut, Entry;
    forall e: nat ensures Cut(Written(out + fs, |out + fs|, e), Entry(popped, e)) {
      WrittenJoin(out, fs, |fs|, e);
      NothingWritten(fs, |fs|, e);
    }
  }

  lemma AnnounceGrants(b: Books, id: nat, e: nat)
    requires id != 0
    ensures Entry(Announce(b, id).popped, e) == Entry(b.popped, e) + Granted(Updates(b, id), |Updates(b, id)|, e)
  {
    hide Unsigned;
    var us, first := Updates(b, id), UpdateDue(b, id);
    var second := UpdateDue(b, 0);
    assert Granted(us, |us|, e) == Granted(first, |first|, e) + Granted(second, |second|, e) by {
      GrantedTwo(first, second, e);
    }
    GrantedOne(b, id, e);
    GrantedOne(b, 0, e);
    assert Due(Refund(b, id), 0) == Due(b, 0) && Used(Refund(b, id), 0) == Used(b, 0);
  }

  lemma GrantedOne(b: Books, id: nat, e: nat)
    ensures Granted(UpdateDue(b, id), |UpdateDue(b, id)|, e) == if Due(b, id) && e == id then Used(b, id) else 0
  {
    hide Due, Used;
    assert Granted(UpdateDue(b, id), 0, e) == 0;
  }

  lemma GrantedTwo(a: seq<Update>, b: seq<Update>, e: nat)
    requires |a| <= 1 && |b| <= 1
    ensures Granted(a + b, |a + b|, e) == Granted(a, |a|, e) + Granted(b, |b|, e)
  {
    if |b| == 0 {
      assert a + b == a;
    } else {
      GrantedPrefix(a, b[0], |a|, e);
      assert a + [b[0]] == a + b;
      assert Granted(b, 0, e) == 0;
    }
  }

  lemma AnnounceWritten(out: seq<Frame>, b: Books, id: nat, e: nat)
    requires id != 0 && Cut(Written(out, |out|, e), Entry(b.popped, e))
    ensures var fs := UpdateFrames(Updates(b, id));
            Cut(Written(out + fs, |out + fs|, e), Entry(Announce(b, id).popped, e))
  {
    var us := Updates(b, id);
    hide Cut, Entry, Announce, Updates, UpdateFrames, Written, Granted;
    FramesOfUpdates(us);
    WrittenJoin(out, UpdateFrames(us), |us|, e);
    UpdatesWritten(us, |us|, e);
    AnnounceGrants(b, id, e);
    CutAdd(Written(out, |out|, e), Entry(b.popped, e), Written(UpdateFrames(us), |us|, e), Granted(us, |us|, e));
  }

  lemma AnnounceBooked(out: seq<Frame>, b: Books, id: nat)
    requires id != 0 && Booked(out, b.popped)
    ensures Booked(out + UpdateFrames(Updates(b, id)), Announce(b, id).popped)
  {
    hide Cut, Entry, Announce, Updates, UpdateFrames, Written;
    var fs := UpdateFrames(Updates(b, id));
    forall e: nat ensures Cut(Written(out + fs, |out + fs|, e), Entry(Announce(b, id).popped, e)) {
      AnnounceWritten(out, b, id, e);
    }
  }

  lemma FramesOfUpdates(us: seq<Update>)
    ensures |UpdateFrames(us)| == |us|
  {
  }

  lemma DataBooked(s: Conn, f: Frame, mem: Memory, fits: bool, maxBody: nat)
    requires f.kind == DATA && 0 !in s.streams && Booked(s.out, s.books.popped)
    ensures var t := DataStep(s, f, mem, fits, maxBody); Booked(t.out, t.books.popped)
  {
    var books := Charge(s.books, f.streamId, LengthOf(f, mem));
    hide Has, Slice, LengthOf, Sliceable, Receive, TooLarge, Booked, Announce, Updates, Be;
    OtherFrames(s.out, [Rst(f.streamId, STREAM_CLOSED)], s.books.popped);
    OtherFrames(s.out, [Rst(f.streamId, REFUSED_STREAM)], s.books.popped);
    if f.streamId in s.streams {
      AnnounceBooked(s.out, books, f.streamId);
    }
  }

  /** The frames a step other than DATA writes are no window updates. */
  lemma HeadersQuiet(s: Conn, f: Frame, mem: Memory)
    requires Consistent(s.table) && f.kind == HEADERS
    ensures var t := HeadersStep(s, f, mem); t.books == s.books && Quiet(s.out, t.out)
  {
    hide Has, Slice, Consistent, DecodeBlock, CanOpen, Deliver, Be;
    assert s.out + [] == s.out;
    QuietOne(s.out, Rst(f.streamId, REFUSED_STREAM));
    QuietOne(s.out, Rst(f.streamId, COMPRESSION_ERROR));
  }

  lemma ContinuationQuiet(s: Conn, f: Frame, mem: Memory)
    requires Consistent(s.table) && f.kind == CONTINUATION
    ensures var t := ContinuationStep(s, f, mem); t.books == s.books && Quiet(s.out, t.out)
  {
    hide Has, Consistent, DecodeBlock, Deliver, Be, Be31;
    assert s.out + [] == s.out;
    QuietOne(s.out, Rst(s.contId, PROTOCOL_ERROR));
    QuietOne(s.out, Rst(s.contId, COMPRESSION_ERROR));
    QuietOne(s.out, GoAway(s.mgr.last, PROTOCOL_ERROR));
  }

  /** `b` is `a` with frames that are no window updates. */
  ghost predicate Quiet(a: seq<Frame>, b: seq<Frame>) {
    a <= b && forall i :: |a| <= i < |b| ==> b[i].kind != WINDOW_UPDATE
  }

  lemma QuietOne(a: seq<Frame>, f: Frame)
    requires f.kind != WINDOW_UPDATE
    ensures Quiet(a, a + [f])
  {
  }

  lemma QuietBooked(a: seq<Frame>, b: seq<Frame>, popped: Ledger)
    requires Quiet(a, b) && Booked(a, popped)
    ensures Booked(b, popped)
  {
    hide Booked;
    assert b == a + b[|a|..];
    OtherFrames(a, b[|a|..], popped);
  }

  lemma FrameBooked(s: Conn, f: Frame, mem: Memory, fits: bool, maxBody: nat)
    requires Consistent(s.table) && 0 !in s.streams && Booked(s.out, s.books.popped)
    ensures var t := FrameStep(s, f, mem, fits, maxBody); Booked(t.out, t.books.popped)
  {
    var t := FrameStep(s, f, mem, fits, maxBody);
    if f.kind == DATA {
      DataBooked(s, f, mem, fits, maxBody);
    } else {
      hide HeadersStep, ContinuationStep, DataStep, DecodeBlock, Consistent, DecodeFrom, Booked, Be, Be31;
      if f.kind == HEADERS {
        HeadersQuiet(s, f, mem);
      } else if f.kind == CONTINUATION {
        ContinuationQuiet(s, f, mem);
      } else {
        assert s.out + [] == s.out;
      }
      QuietBooked(s.out, t.out, s.books.popped);
    }
  }

  /** With the largest initial size, 2^30 bytes of one stream in two portions: the
      connection, charged twice, is given 2^31, and the client reads 0. */
  lemma IncrementCutToZero()
    ensures var b := Charge(Books(TWO32 - 1, {}, map[], map[]), 1, 0x3FFF_FFFF);
            && Updates(b, 1) == []
            && Updates(Charge(b, 1, 1), 1) == [Update(0, TWO31)]
            && MessageOf(UpdateFrame(Update(0, TWO31))) == Some(Credit(0, 0))
  {
    var b := Charge(Books(TWO32 - 1, {}, map[], map[]), 1, 0x3FFF_FFFF);
    assert Used(b, 1) == 0x3FFF_FFFF && Used(b, 0) == 0x7FFF_FFFE;
    var c := Charge(b, 1, 1);
    assert Used(c, 1) == 0x4000_0000 && Used(c, 0) == TWO31;
    MessageRead(Credit(0, TWO31));
    hide MessageOf, Be31;
    assert FrameOf(Credit(0, TWO31)) == UpdateFrame(Update(0, TWO31));
  }

  // ---- Answers to PING and GOAWAY ----

  /** A peer reads in the answer the eight bytes it sent; acknowledgements, and
      so the answer itself, and short frames are not answered. */
  lemma PingEchoed(s: Conn, f: Frame, mem: Memory, fits: bool, maxBody: nat)
    requires Consistent(s.table) && f.kind == 6
    ensures var t := FrameStep(s, f, mem, fits, maxBody);
            if f.flags % 2 == 0 && |f.payload| >= 8 then
              && t == s.(out := t.out) && |t.out| == |s.out| + 1 && s.out <= t.out
              && MessageOf(t.out[|s.out|]) == Some(Pong(f.payload[..8]))
              && t.out[|s.out|].kind == 6 && t.out[|s.out|].flags % 2 == 1
            else t == s
  {
    hide HeadersStep, ContinuationStep, DataStep, DecodeBlock, Consistent, DecodeFrom, MessageOf;
    if f.flags % 2 == 0 && |f.payload| >= 8 {
      MessageRead(Pong(f.payload[..8]));
      assert FrameOf(Pong(f.payload[..8])) == Frame(PING, ACK, 0, f.payload[..8]);
    } else {
      assert s.out + [] == s.out;
    }
  }

  ghost predicate SaysGoAway(out: seq<Frame>) {
    exists i :: 0 <= i < |out| && out[i].kind == 7
  }

  lemma SaysOne(out: seq<Frame>, f: Frame)
    ensures SaysGoAway(out + [f]) <==> SaysGoAway(out) || f.kind == GOAWAY
  {
    assert (out + [f])[|out|] == f;
    if SaysGoAway(out) {
      var i :| 0 <= i < |out| && out[i].kind == GOAWAY;
      assert (out + [f])[i] == out[i];
    }
  }

  lemma SaysSame(out: seq<Frame>, fs: seq<Frame>)
    requires forall i :: 0 <= i < |fs| ==> fs[i].kind != GOAWAY
    ensures SaysGoAway(out + fs) <==> SaysGoAway(out)
  {
    if SaysGoAway(out) {
      var i :| 0 <= i < |out| && out[i].kind == GOAWAY;
      assert (out + fs)[i] == out[i];
    }
  }

  /** The flag says whether a GOAWAY was written. */
  ghost predicate Parted(s: Conn) {
    s.goawaySent <==> SaysGoAway(s.out)
  }

  lemma HeadersParted(s: Conn, f: Frame, mem: Memory)
    requires Consistent(s.table) && f.kind == HEADERS && Parted(s)
    ensures Parted(HeadersStep(s, f, mem)) && s.out <= HeadersStep(s, f, mem).out
  {
    hide Has, Slice, Consistent, DecodeBlock, CanOpen, Deliver, Be, SaysGoAway;
    SaysOne(s.out, Rst(f.streamId, REFUSED_STREAM));
    SaysOne(s.out, Rst(f.streamId, COMPRESSION_ERROR));
  }

  lemma ContinuationParted(s: Conn, f: Frame, mem: Memory)
    requires Consistent(s.table) && f.kind == CONTINUATION && Parted(s)
    ensures Parted(ContinuationStep(s, f, mem)) && s.out <= ContinuationStep(s, f, mem).out
  {
    hide Has, Consistent, DecodeBlock, Deliver, Be, Be31, SaysGoAway;
    SaysOne(s.out, Rst(s.contId, PROTOCOL_ERROR));
    SaysOne(s.out, Rst(s.contId, COMPRESSION_ERROR));
    SaysOne(s.out, GoAway(s.mgr.last, PROTOCOL_ERROR));
  }

  lemma DataParted(s: Conn, f: Frame, mem: Memory, fits: bool, maxBody: nat)
    requires f.kind == DATA && Parted(s)
    ensures Parted(DataStep(s, f, mem, fits, maxBody)) && s.out <= DataStep(s, f, mem, fits, maxBody).out
  {
    hide Has, Slice, LengthOf, Sliceable, Receive, TooLarge, Charge, Announce, Updates, Be, Be31, SaysGoAway;
    SaysOne(s.out, Rst(f.streamId, REFUSED_STREAM));
    SaysOne(s.out, Rst(f.streamId, STREAM_CLOSED));
    SaysSame(s.out, UpdateFrames(Updates(Charge(s.books, f.streamId, LengthOf(f, mem)), f.streamId)));
  }

  lemma FrameParted(s: Conn, f: Frame, mem: Memory, fits: bool, maxBody: nat)
    requires Consistent(s.table) && Parted(s)
    ensures var t := FrameStep(s, f, mem, fits, maxBody); Parted(t) && s.out <= t.out
  {
    hide HeadersStep, ContinuationStep, DataStep, DecodeBlock, Consistent, DecodeFrom, Be, Be31, SaysGoAway;
    if f.kind == HEADERS {
      HeadersParted(s, f, mem);
    } else if f.kind == CONTINUATION {
      ContinuationParted(s, f, mem);
    } else if f.kind == DATA {
      DataParted(s, f, mem, fits, maxBody);
    } else {
      SaysOne(s.out, GoAway(s.mgr.last, PROTOCOL_ERROR));
      SaysOne(s.out, GoAway(s.mgr.last, NO_ERROR));
      SaysOne(s.out, Frame(SETTINGS, ACK, 0, []));
      SaysSame(s.out, PingReply(f));
    }
  }

  /** A GOAWAY is answered exactly if none was written before, with the last
      stream the client opened; afterwards one was written. */
  lemma GoAwayAnswered(s: Conn, f: Frame, mem: Memory, fits: bool, maxBody: nat)
    requires Consistent(s.table) && Parted(s) && f.kind == 7 && |f.payload| >= 8
    ensures var t := FrameStep(s, f, mem, fits, maxBody);
            && SaysGoAway(t.out) && (SaysGoAway(s.out) ==> t.out == s.out)
            && (!SaysGoAway(s.out) ==> exists r :: t.out == s.out + [r]
                                                && MessageOf(r) == Some(Leave(s.mgr.last % 0x8000_0000, 0)))
  {
    hide HeadersStep, ContinuationStep, DataStep, DecodeBlock, Consistent, DecodeFrom, Be, Be31, SaysGoAway, MessageOf;
    SaysOne(s.out, GoAway(s.mgr.last, NO_ERROR));
    MessageRead(Leave(s.mgr.last, NO_ERROR));
    assert FrameOf(Leave(s.mgr.last, NO_ERROR)) == GoAway(s.mgr.last, NO_ERROR);
  }
}
