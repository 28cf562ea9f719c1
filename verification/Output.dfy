/** The connection's output: frames appended by the main loop, by stream
    sinks and by WebSocket handlers, and one asynchronous write at a time. */
module Output {
  import opened Bits
  import opened Frames
  import opened Options
  import opened Settings
  import opened FrameBatch

  const DATA: byte := 0
  const HEADERS: byte := 1
  const RST_STREAM: byte := 3
  const SETTINGS: byte := 4
  const PING: byte := 6
  const GOAWAY: byte := 7
  const WINDOW_UPDATE: byte := 8

  const END_STREAM: byte := 1
  const ACK: byte := 1
  const END_HEADERS: byte := 4

  /** What the server tells its peer, one frame each. */
  datatype Message =
    | HeaderBlock(sid: nat, block: Bytes, last: bool)
    | Content(sid: nat, data: Bytes, end: bool)
    | Reset(sid: nat, error: nat)
    | Leave(lastSid: nat, error: nat)
    | Credit(sid: nat, increment: nat)
    | Pong(data: Bytes)
    | SettingsRead

  function FrameOf(m: Message): Frame {
    match m
    case HeaderBlock(sid, block, last) => Frame(HEADERS, if last then END_HEADERS else 0, sid, block)
    case Content(sid, data, end) => Frame(DATA, if end then END_STREAM else 0, sid, data)
    case Reset(sid, error) => Frame(RST_STREAM, 0, sid, Be(error, 4))
    case Leave(lastSid, error) => Frame(GOAWAY, 0, 0, Be31(lastSid) + Be(error, 4))
    case Credit(sid, increment) => Frame(WINDOW_UPDATE, 0, sid, Be31(increment))
    case Pong(data) => Frame(PING, ACK, 0, data)
    case SettingsRead => Frame(SETTINGS, ACK, 0, [])
  }

  /** How a peer decodes a frame's payload (BFL's decoders); none where the
      payload is too short or nothing is answered. */
  function MessageOf(f: Frame): Option<Message> {
    if f.kind == HEADERS then Some(HeaderBlock(f.streamId, f.payload, f.flags / 4 % 2 == 1))
    else if f.kind == DATA then Some(Content(f.streamId, f.payload, f.flags % 2 == 1))
    else if f.kind == RST_STREAM && |f.payload| >= 4 then Some(Reset(f.streamId, FromBe(f.payload[..4])))
    else if f.kind == GOAWAY && |f.payload| >= 8 then Some(Leave(From31(f.payload[..4]), FromBe(f.payload[4..8])))
    else if f.kind == WINDOW_UPDATE && |f.payload| >= 4 then Some(Credit(f.streamId, From31(f.payload[..4])))
    else if f.kind == PING && f.flags % 2 == 1 && |f.payload| >= 8 then Some(Pong(f.payload[..8]))
    else if f.kind == SETTINGS && f.flags % 2 == 1 then Some(SettingsRead)
    else None
  }

  /** Types, flags and streams of the frames written (sections 6 and 11.2 of
      RFC 7540). */
  lemma FrameTypes(m: Message)
    ensures var f := FrameOf(m);
            match m
            case Content(sid, data, end) => f == Frame(0, if end then 1 else 0, sid, data)
            case HeaderBlock(sid, block, last) => f == Frame(1, if last then 4 else 0, sid, block)
            case Reset(sid, _) => f == Frame(3, 0, sid, f.payload) && |f.payload| == 4
            case SettingsRead => f == Frame(4, 1, 0, [])
            case Pong(data) => f == Frame(6, 1, 0, data)
            case Leave(_, _) => f == Frame(7, 0, 0, f.payload) && |f.payload| == 8
            case Credit(sid, _) => f == Frame(8, 0, sid, f.payload) && |f.payload| == 4
  {
    hide Be, Be31;
  }

  /** What survives the fields' widths: 32 bits of an error code, 31 of a
      stream id or an increment. */
  function Carried(m: Message): Message {
    match m
    case Reset(sid, error) => Reset(sid, error % 0x1_0000_0000)
    case Leave(lastSid, error) => Leave(lastSid % 0x8000_0000, error % 0x1_0000_0000)
    case Credit(sid, increment) => Credit(sid, increment % 0x8000_0000)
    case _ => m
  }

  predicate Sendable(m: Message) {
    (m.Pong? ==> |m.data| == 8) && WellSized(FrameOf(m))
  }

  lemma MessageRead(m: Message)
    requires m.Pong? ==> |m.data| == 8
    ensures MessageOf(FrameOf(m)) == Some(Carried(m))
  {
    hide Be, Be31, From31, FromBe;
    Pow256Values();
    match m
    case Reset(sid, error) =>
      BeTruncates(error, 4);
      assert Be(error, 4)[..4] == Be(error, 4);
    case Leave(lastSid, error) =>
      Be31Cuts(lastSid);
      BeTruncates(error, 4);
      var payload := Be31(lastSid) + Be(error, 4);
      assert payload[..4] == Be31(lastSid) && payload[4..8] == Be(error, 4);
    case Credit(sid, increment) =>
      Be31Cuts(increment);
      assert Be31(increment)[..4] == Be31(increment);
    case Pong(data) => assert data[..8] == data;
    case _ =>
  }

  function FramesOf(ms: seq<Message>): seq<Frame> {
    seq(|ms|, i requires 0 <= i < |ms| => FrameOf(ms[i]))
  }

  /** What can happen between two suspension points: a coroutine appends a
      frame, one asks to flush, or the write in flight completes. */
  datatype Event = Emit(frame: Frame) | Flush | Complete

  /** Sent, in flight and waiting bytes are the frames' encodings in order. */
  predicate Intact(sent: Bytes, inflight: Bytes, output: Bytes, log: seq<Frame>) {
    sent + (inflight + output) == EncodeFrames(log)
  }

  lemma IntactAppend(sent: Bytes, inflight: Bytes, output: Bytes, log: seq<Frame>, f: Frame)
    requires Intact(sent, inflight, output, log)
    ensures Intact(sent, inflight, output + EncodeFrame(f), log + [f])
  {
    EncodeFramesAppend(log, f);
    hide EncodeFrame, EncodeFrames;
    assert sent + (inflight + (output + EncodeFrame(f))) == (sent + (inflight + output)) + EncodeFrame(f);
  }

  lemma IntactMove(sent: Bytes, inflight: Bytes, output: Bytes, log: seq<Frame>)
    requires Intact(sent, inflight, output, log)
    ensures inflight == [] ==> Intact(sent, output, [], log)
    ensures Intact(sent + inflight, [], output, log)
    ensures sent <= EncodeFrames(log)
  {
    hide EncodeFrames;
    assert (sent + inflight) + ([] + output) == sent + (inflight + output);
    if inflight == [] {
      assert output + [] == inflight + output;
    }
  }

  class H2Output {
    var output: Bytes
    var writing: bool
    /** Bytes written to the socket, and those of the write in flight. */
    ghost var sent: Bytes
    ghost var inflight: Bytes
    /** Every frame ever appended, in order. */
    ghost var log: seq<Frame>

    ghost predicate Valid()
      reads this
    {
      Intact(sent, inflight, output, log) && (writing <==> inflight != [])
    }

    constructor ()
      ensures Valid() && log == [] && sent == [] && output == []
    {
      output, writing, sent, inflight, log := [], false, [], [], [];
    }

    /** Every frame writer: grow the buffer, encode the header, copy the payload. */
    method Append(f: Frame)
      requires Valid()
      modifies `output, `log
      ensures Valid() && log == old(log) + [f] && output == old(output) + EncodeFrame(f)
    {
      hide Intact, EncodeHeader;
      IntactAppend(sent, inflight, output, log, f);
      output := output + EncodeHeader(HeaderOf(f));
      output := output + f.payload;
      log := log + [f];
      assert output == old(output) + EncodeFrame(f);
    }

    method WriteHeaders(sid: nat, hpack: Bytes, endHeaders: bool)
      requires Valid()
      modifies `output, `log
      ensures Valid() && log == old(log) + [FrameOf(HeaderBlock(sid, hpack, endHeaders))]
    {
      Append(Frame(HEADERS, if endHeaders then END_HEADERS else 0, sid, hpack));
    }

    method WriteData(sid: nat, data: Bytes, endStream: bool)
      requires Valid()
      modifies `output, `log
      ensures Valid() && log == old(log) + [FrameOf(Content(sid, data, endStream))]
    {
      Append(Frame(DATA, if endStream then END_STREAM else 0, sid, data));
    }

    method WriteRstStream(sid: nat, error: nat)
      requires Valid()
      modifies `output, `log
      ensures Valid() && log == old(log) + [FrameOf(Reset(sid, error))]
    {
      Append(Frame(RST_STREAM, 0, sid, Be(error, 4)));
    }

    method WriteGoAway(lastSid: nat, error: nat)
      requires Valid()
      modifies `output, `log
      ensures Valid() && log == old(log) + [FrameOf(Leave(lastSid, error))]
    {
      Append(Frame(GOAWAY, 0, 0, Be31(lastSid) + Be(error, 4)));
    }

    method WriteWindowUpdate(sid: nat, increment: nat)
      requires Valid()
      modifies `output, `log
      ensures Valid() && log == old(log) + [FrameOf(Credit(sid, increment))]
    {
      Append(Frame(WINDOW_UPDATE, 0, sid, Be31(increment)));
    }

    method WritePingAck(data: Bytes)
      requires Valid() && |data| == 8
      modifies `output, `log
      ensures Valid() && log == old(log) + [FrameOf(Pong(data))]
    {
      Append(Frame(PING, ACK, 0, data));
    }

    method WriteSettingsAck()
      requires Valid()
      modifies `output, `log
      ensures Valid() && log == old(log) + [FrameOf(SettingsRead)]
    {
      Append(Frame(SETTINGS, ACK, 0, []));
    }

    /** The part of a flush before it suspends: nothing if a write is in flight,
        else the whole buffer goes out and an empty one takes its place. */
    method FlushBegin()
      requires Valid()
      modifies `output, `writing, `inflight
      ensures Valid() && log == old(log) && sent == old(sent)
      ensures inflight == if old(writing) then old(inflight) else old(output)
      ensures output == if old(writing) then old(output) else []
    {
      hide Intact;
      IntactMove(sent, inflight, output, log);
      if writing {
        return;
      }
      writing := true;
      if output != [] {
        inflight, output := output, [];
      } else {
        writing := false;
      }
    }

    /** The part of a flush after the write completed without error. */
    method FlushEnd()
      requires Valid() && writing
      modifies `writing, `sent, `inflight
      ensures Valid() && !writing && log == old(log) && output == old(output)
      ensures sent == old(sent) + old(inflight) && inflight == []
    {
      hide Intact;
      IntactMove(sent, inflight, output, log);
      sent, inflight, writing := sent + inflight, [], false;
    }

    /** Any interleaving: no byte is lost, repeated or out of order, and at
        most one write is in flight. */
    method Run(events: seq<Event>)
      requires Valid()
      modifies this
      ensures Valid() && old(sent) <= sent <= EncodeFrames(log)
      ensures log == old(log) + Emitted(events, |events|)
    {
      hide Intact;
      for n := 0 to |events|
        invariant Valid() && old(sent) <= sent && log == old(log) + Emitted(events, n)
      {
        Happen(events[n]);
      }
      IntactMove(sent, inflight, output, log);
    }

    method Happen(e: Event)
      requires Valid()
      modifies this
      ensures Valid() && old(sent) <= sent
      ensures log == old(log) + (if e.Emit? then [e.frame] else [])
    {
      hide Intact;
      match e
      case Emit(f) => Append(f);
      case Flush => FlushBegin();
      case Complete => if writing { FlushEnd(); }
    }
  }

  /** The frames of the first `n` events. */
  function Emitted(events: seq<Event>, n: nat): seq<Frame>
    requires n <= |events|
  {
    if n == 0 then []
    else Emitted(events, n - 1) + (if events[n - 1].Emit? then [events[n - 1].frame] else [])
  }

  const LENGTH_LIMIT: nat := 0xFF_FFFF

  /** A frame stream that never changes the size limit. */
  predicate Plain(fs: seq<Frame>) {
    forall i :: 0 <= i < |fs| ==> WellSized(fs[i]) && NextMax(LENGTH_LIMIT, fs[i]) == LENGTH_LIMIT
  }

  /** Neither the server's own settings, without a frame size, nor any other
      of its frames changes the limit. */
  lemma OwnFramesPlain(f: Frame, s: Settings)
    requires f.kind == SETTINGS && f.flags % 2 == 0 ==>
               f.payload == EncodeSettings(s) && Encodable(s) && s.maxFrameSize == None
    ensures NextMax(LENGTH_LIMIT, f) == LENGTH_LIMIT
  {
    hide DecodeFrom, EncodeSettings, Encodable;
    if f.kind == SETTINGS && f.flags % 2 == 0 {
      SettingsRoundTrip(s);
    }
  }

  lemma {:induction false} PlainAdmitted(fs: seq<Frame>)
    requires Plain(fs)
    ensures Admitted(fs, LENGTH_LIMIT) && MaxAfter(fs, LENGTH_LIMIT) == LENGTH_LIMIT
  {
    if fs != [] {
      hide NextMax, WellSized;
      SizedWithin(fs[0]);
      PlainAdmitted(fs[1..]);
    }
  }

  lemma SizedWithin(f: Frame)
    requires WellSized(f)
    ensures |f.payload| <= LENGTH_LIMIT
  {
  }

  /** A peer that reads the bytes gets exactly the frames that were appended. */
  lemma OutputReparses(fs: seq<Frame>)
    requires Plain(fs)
    ensures Segment(EncodeFrames(fs), LENGTH_LIMIT) == Batch(fs, [], false, LENGTH_LIMIT)
  {
    PlainAdmitted(fs);
    SegmentEncoded(fs, [], LENGTH_LIMIT);
    assert EncodeFrames(fs) + [] == EncodeFrames(fs);
  }

  lemma OwnMessagePlain(m: Message)
    ensures NextMax(LENGTH_LIMIT, FrameOf(m)) == LENGTH_LIMIT
  {
    hide Be, Be31, DecodeFrom;
  }

  /** From the bytes of any messages a peer gets those messages, in order, as
      far as their fields carry them. */
  lemma MessagesRead(ms: seq<Message>)
    requires forall i :: 0 <= i < |ms| ==> Sendable(ms[i])
    ensures var b := Segment(EncodeFrames(FramesOf(ms)), LENGTH_LIMIT);
            && b.rest == [] && !b.tooLarge && |b.frames| == |ms|
            && forall i :: 0 <= i < |ms| ==> MessageOf(b.frames[i]) == Some(Carried(ms[i]))
  {
    hide Segment, EncodeFrames, MessageOf, Carried, FrameOf, NextMax, WellSized;
    forall i | 0 <= i < |ms|
      ensures WellSized(FramesOf(ms)[i]) && NextMax(LENGTH_LIMIT, FramesOf(ms)[i]) == LENGTH_LIMIT
    {
      OwnMessagePlain(ms[i]);
    }
    OutputReparses(FramesOf(ms));
    forall i | 0 <= i < |ms| ensures MessageOf(FramesOf(ms)[i]) == Some(Carried(ms[i])) {
      MessageRead(ms[i]);
    }
  }

  /** A payload of 2^24 bytes or more is announced modulo 2^24. */
  lemma OversizedMisread(f: Frame, rest: Bytes)
    requires f.streamId < 0x8000_0000
    ensures DecodeHeader(EncodeFrame(f) + rest).length == |f.payload| % 0x100_0000
  {
    hide Be31, From31, FromBe, Be;
    var d := EncodeFrame(f) + rest;
    assert d[..3] == Be(|f.payload|, 3);
    BeTruncates(|f.payload|, 3);
    Pow256Values();
  }
}
