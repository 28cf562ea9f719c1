/** The HTTP/2 connection as an object: what its coroutines do to its fields
    between two suspension points. */
module Session {
  import opened Bits
  import opened Frames
  import opened Options
  import opened Settings
  import opened FrameBatch
  import opened Fields
  import opened HpackTable
  import opened HpackPrimitives
  import opened Hpack
  import opened StreamManager
  import opened FlowControl
  import opened Output
  import opened Connection
  import opened Lifecycle
  import opened Runs

  class H2Session {
    const mgr: H2StreamManager
    const decoder: HpackDecoder
    const flow: H2FlowControl
    const out: H2Output
    const maxBody: nat
    var streams: map<nat, Context>
    var contId: nat
    var block: Bytes
    var goawaySent: bool
    var goawayReceived: bool
    var peerMaxFrameSize: nat
    /** Where the main coroutine is suspended in handling a stream. */
    var busy: Busy
    /** The WebSocket coroutines at work. */
    var running: multiset<nat>
    /** Every header field given to a context so far. */
    ghost var given: seq<Given>

    ghost function State(): Conn
      reads this, mgr, decoder, flow, out
    {
      Conn(mgr.State(), streams, contId, block, decoder.State(), decoder.history, decoder.meant, flow.Account(),
           goawaySent, given, out.log)
    }

    ghost function Now(): Snap
      reads this, mgr, decoder, flow, out
    {
      Snap(State(), busy, running)
    }

    ghost predicate Parts()
      reads this, mgr, decoder, flow, out
    {
      mgr.Valid() && decoder.Valid() && Consistent(decoder.State()) && flow.Valid() && out.Valid()
    }

    ghost predicate Valid()
      reads this, mgr, decoder, flow, out
    {
      Parts() && ConnOk(State())
    }

    constructor (maxBody: nat)
      ensures Valid() && Now() == NEW_SNAP && peerMaxFrameSize == 16384 && !goawayReceived && this.maxBody == maxBody
      ensures fresh(mgr) && fresh(decoder) && fresh(flow) && fresh(out)
    {
      hide H2StreamManager.Valid, HpackDecoder.Valid, H2FlowControl.Valid, H2Output.Valid, DecodeBlock, ConnOk;
      NewInvariant();
      mgr := new H2StreamManager();
      decoder := new HpackDecoder();
      flow := new H2FlowControl(65535);
      out := new H2Output();
      this.maxBody := maxBody;
      streams, contId, block := map[], 0, [];
      goawaySent, goawayReceived, peerMaxFrameSize := false, false, 16384;
      busy, running, given := Waiting, multiset{}, [];
      new;
      assert flow.Account() == NEW_CONN.books;
      assert Now() == NEW_SNAP;
    }

    // ---- Frames ----

    /** Decodes a complete block into the stream's context. */
    method Absorb(sid: nat, data: Bytes, mem: Memory) returns (ok: bool)
      requires Parts() && sid in streams
      modifies `streams, `given, decoder
      ensures Parts() && Feed(old(State()), sid, data, mem) == Fed(State(), ok)
    {
      hide DecodeBlock, AddHeader, HuffmanReady, NewestThatFit, Consistent, GivenAll;
      var delivered;
      ok, delivered := decoder.Decode(data, mem);
      var ctx := streams[sid];
      for n := 0 to |delivered|
        invariant ctx == Deliver(streams[sid], delivered, n)
      {
        ctx := AddHeader(ctx, delivered[n]);
      }
      streams := streams[sid := ctx];
      given := given + GivenAll(sid, delivered);
    }

    method OnHeaders(f: Frame, mem: Memory)
      requires Parts() && f.kind == HEADERS
      modifies `streams, `contId, `block, `given, mgr, decoder, out
      ensures Parts() && State() == HeadersStep(old(State()), f, mem)
    {
      hide CanOpen, AdmittedStep, Feed, DecodeBlock, Consistent;
      hide H2StreamManager.Valid, HpackDecoder.Valid, H2FlowControl.Valid, H2Output.Valid;
      var sid := f.streamId;
      var ok := mgr.OnStreamOpen(sid);
      if !ok {
        out.WriteRstStream(sid, REFUSED_STREAM);
        return;
      }
      if sid !in streams {
        streams := streams[sid := NEW_CONTEXT];
      }
      TakeBlock(f, mem);
    }

    method TakeBlock(f: Frame, mem: Memory)
      requires Parts() && f.kind == HEADERS && f.streamId in streams
      modifies `streams, `contId, `block, `given, mgr, decoder, out
      ensures Parts() && State() == AdmittedStep(old(State()), f, mem)
    {
      hide Feed, Has, Slice, HeadersDone, DecodeBlock, Consistent;
      hide H2StreamManager.Valid, HpackDecoder.Valid, H2FlowControl.Valid, H2Output.Valid;
      var sid := f.streamId;
      if !Has(f.flags, END_HEADERS) {
        contId, block := sid, Slice(f, mem);
        return;
      }
      var ok := Absorb(sid, Slice(f, mem), mem);
      if !ok {
        out.WriteRstStream(sid, COMPRESSION_ERROR);
        return;
      }
      EndHeaders(sid, Has(f.flags, END_STREAM));
    }

    method EndHeaders(sid: nat, endStream: bool)
      requires mgr.Valid() && sid in streams
      modifies mgr
      ensures mgr.Valid() && State() == HeadersDone(old(State()), sid, endStream)
    {
      hide H2StreamManager.Valid;
      if endStream || streams[sid].wsExtended {
        if endStream {
          mgr.OnStreamEndStream(sid);
        }
        mgr.Enqueue(sid);
      }
    }

    method OnContinuation(f: Frame, mem: Memory)
      requires Parts() && f.kind == CONTINUATION
      modifies `streams, `contId, `block, `goawaySent, `given, decoder, out
      ensures Parts() && State() == ContinuationStep(old(State()), f, mem)
    {
      hide Has, Feed, DecodeBlock, Consistent;
      hide H2StreamManager.Valid, HpackDecoder.Valid, H2FlowControl.Valid, H2Output.Valid;
      if f.streamId != contId {
        EndConnection(PROTOCOL_ERROR);
        return;
      }
      block := block + f.payload;
      if Has(f.flags, END_HEADERS) {
        FinishBlock(mem);
      }
    }

    method FinishBlock(mem: Memory)
      requires Parts()
      modifies `streams, `contId, `block, `given, decoder, out
      ensures Parts() && State() == BlockDone(old(State()), mem)
    {
      hide Feed, DecodeBlock, Consistent;
      hide H2StreamManager.Valid, HpackDecoder.Valid, H2FlowControl.Valid, H2Output.Valid;
      var sid := contId;
      contId := 0;
      if sid !in streams {
        out.WriteRstStream(sid, PROTOCOL_ERROR);
        return;
      }
      var ok := Absorb(sid, block, mem);
      if !ok {
        out.WriteRstStream(sid, COMPRESSION_ERROR);
        return;
      }
      block := [];
    }

    method EndConnection(error: nat)
      requires Parts()
      modifies `goawaySent, out
      ensures Parts() && State() == Send(old(State()), GoAway(mgr.lastClientStreamId, error)).(goawaySent := true)
    {
      hide DecodeBlock, Consistent;
      hide H2StreamManager.Valid, HpackDecoder.Valid, H2FlowControl.Valid, H2Output.Valid;
      out.WriteGoAway(mgr.lastClientStreamId, error);
      goawaySent := true;
    }

    /** `fits`: whether the region has room for the chunk. */
    method OnData(f: Frame, mem: Memory, fits: bool)
      requires Parts() && f.kind == DATA && WellSized(f) && 0 !in streams
      modifies `streams, mgr, flow, out
      ensures Parts() && State() == DataStep(old(State()), f, mem, fits, maxBody)
    {
      hide ReceivedStep, DecodeBlock, Consistent;
      hide H2StreamManager.Valid, HpackDecoder.Valid, H2FlowControl.Valid, H2Output.Valid;
      var sid := f.streamId;
      if sid !in streams {
        out.WriteRstStream(sid, STREAM_CLOSED);
      } else {
        DataArrived(f, mem, fits);
      }
    }

    method DataArrived(f: Frame, mem: Memory, fits: bool)
      requires Parts() && f.kind == DATA && WellSized(f) && f.streamId in streams && f.streamId != 0
      modifies `streams, mgr, flow, out
      ensures Parts() && State() == ReceivedStep(old(State()), f, mem, fits, maxBody)
    {
      hide Has, Receive, TooLarge, Slice, Sliceable, LengthOf, Charge, Announce, Updates, UpdateFrames;
      hide DecodeBlock, Consistent;
      hide H2StreamManager.Valid, HpackDecoder.Valid, H2FlowControl.Valid, H2Output.Valid, Ended, Queued, WellSized;
      var sid := f.streamId;
      DataLengthFits(f, mem);
      flow.ChargeData(sid, LengthOf(f, mem));
      var c := Receive(streams[sid], Slice(f, mem), fits && Sliceable(f));
      streams := streams[sid := c];
      if !c.wsActive && TooLarge(c, maxBody) {
        out.WriteRstStream(sid, REFUSED_STREAM);
        return;
      }
      ChargedKnown(old(flow.Account()), sid, LengthOf(f, mem));
      Answer(sid);
      if Has(f.flags, END_STREAM) {
        EndData(sid);
        UpdateTwice(old(streams), sid, c, c.(closed := true));
      }
    }

    /** The window updates that are due. */
    method Answer(sid: nat)
      requires flow.Valid() && out.Valid() && sid in flow.streams
      modifies flow, out
      ensures flow.Valid() && out.Valid() && flow.Account() == Announce(old(flow.Account()), sid)
      ensures out.log == old(out.log) + UpdateFrames(Updates(old(flow.Account()), sid))
    {
      hide Announce, Updates, UpdateFrames, H2FlowControl.Valid, H2Output.Valid;
      var updates := flow.AnnounceData(sid);
      WriteUpdates(updates);
    }

    /** The client is done: a request is complete, a WebSocket is told. */
    method EndData(sid: nat)
      requires mgr.Valid() && sid in streams
      modifies `streams, mgr
      ensures mgr.Valid()
      ensures mgr.State() == if old(streams)[sid].wsActive then Ended(old(mgr.State()), sid)
                             else Queued(Ended(old(mgr.State()), sid), sid)
      ensures streams == if old(streams)[sid].wsActive then old(streams)[sid := old(streams)[sid].(closed := true)]
                         else old(streams)
    {
      hide H2StreamManager.Valid;
      mgr.OnStreamEndStream(sid);
      if !streams[sid].wsActive {
        mgr.Enqueue(sid);
      } else {
        streams := streams[sid := streams[sid].(closed := true)];
      }
    }

    method WriteUpdates(updates: seq<Update>)
      requires out.Valid()
      modifies out`output, out`log
      ensures out.Valid() && out.log == old(out.log) + UpdateFrames(updates)
    {
      hide H2Output.Valid;
      for n := 0 to |updates|
        invariant out.Valid() && out.log == old(out.log) + UpdateFrames(updates)[..n]
      {
        out.WriteWindowUpdate(updates[n].id, updates[n].credit);
      }
      assert UpdateFrames(updates)[..|updates|] == UpdateFrames(updates);
    }

    method OnRstStream(f: Frame)
      requires Parts() && f.kind == RST_STREAM
      modifies `streams, mgr
      ensures Parts() && State() == RstStep(old(State()), f.streamId)
    {
      hide DecodeBlock, Consistent;
      hide H2StreamManager.Valid, HpackDecoder.Valid, H2FlowControl.Valid, H2Output.Valid;
      var sid := f.streamId;
      mgr.OnStreamClose(sid);
      if sid in streams {
        streams := streams[sid := streams[sid].(closed := true)];
      }
    }

    /** The new window counts even if the frame size ends the connection. */
    method OnSettings(f: Frame)
      requires Parts() && f.kind == SETTINGS
      modifies `goawaySent, `peerMaxFrameSize, flow, out
      ensures Parts() && peerMaxFrameSize == NextMax(old(peerMaxFrameSize), f)
      ensures State() == SettingsStep(old(State()), f)
    {
      hide DecodeBlock, Consistent, DecodeFrom;
      hide H2StreamManager.Valid, HpackDecoder.Valid, H2FlowControl.Valid, H2Output.Valid;
      if f.flags % 2 == 1 {
        return;
      }
      var s := DecodeSettings(f.payload);
      if s.initialWindowSize.Some? {
        DecodedFits(NO_SETTINGS, f.payload);
        flow.SetInitialWindow(s.initialWindowSize.value);
      }
      if s.maxFrameSize.Some? {
        if s.maxFrameSize.value < 16384 || s.maxFrameSize.value > 16777215 {
          EndConnection(PROTOCOL_ERROR);
          return;
        }
        peerMaxFrameSize := s.maxFrameSize.value;
      }
      out.WriteSettingsAck();
    }

    method OnPing(f: Frame)
      requires Parts() && f.kind == PING
      modifies out
      ensures Parts() && State() == old(State()).(out := old(out.log) + PingReply(f))
    {
      hide DecodeBlock, Consistent;
      hide H2StreamManager.Valid, HpackDecoder.Valid, H2FlowControl.Valid, H2Output.Valid;
      if f.flags % 2 == 0 && |f.payload| >= 8 {
        out.WritePingAck(f.payload[..8]);
      }
    }

    method OnGoAway(f: Frame)
      requires Parts() && f.kind == GOAWAY
      modifies `goawayReceived, `goawaySent, out
      ensures Parts() && State() == GoAwayStep(old(State()), f)
      ensures |f.payload| >= 8 ==> goawayReceived && goawaySent
    {
      hide DecodeBlock, Consistent;
      hide H2StreamManager.Valid, HpackDecoder.Valid, H2FlowControl.Valid, H2Output.Valid;
      if |f.payload| < 8 {
        return;
      }
      goawayReceived := true;
      if !goawaySent {
        EndConnection(NO_ERROR);
      }
    }

    /** Any frame: its step, and the frame size limit the batch loop goes on with. */
    method ProcessFrame(f: Frame, mem: Memory, fits: bool)
      requires Valid() && WellSized(f)
      modifies `streams, `contId, `block, `goawaySent, `goawayReceived, `peerMaxFrameSize, `given
      modifies mgr, decoder, flow, out
      ensures Valid() && State() == FrameStep(old(State()), f, mem, fits, maxBody)
      ensures peerMaxFrameSize == NextMax(old(peerMaxFrameSize), f)
    {
      hide ConnOk, DecodeBlock, Consistent, HeadersStep, ContinuationStep, DataStep, RstStep, DecodeFrom;
      hide SettingsStep, PingReply, GoAwayStep;
      hide H2StreamManager.Valid, HpackDecoder.Valid, H2FlowControl.Valid, H2Output.Valid, WellSized;
      StreamsPositive(State());
      FrameOk(State(), f, mem, fits, maxBody);
      if f.kind == SETTINGS {
        OnSettings(f);
      } else if f.kind == HEADERS {
        OnHeaders(f, mem);
      } else if f.kind == DATA {
        OnData(f, mem, fits);
      } else if f.kind == RST_STREAM {
        OnRstStream(f);
      } else if f.kind == PING {
        OnPing(f);
      } else if f.kind == GOAWAY {
        OnGoAway(f);
      } else if f.kind == CONTINUATION {
        OnContinuation(f, mem);
      }
    }

    method ProcessFrames(frames: seq<Frame>, mem: nat -> Memory, fits: nat -> bool)
      requires Valid() && forall f :: f in frames ==> WellSized(f)
      modifies `streams, `contId, `block, `goawaySent, `goawayReceived, `peerMaxFrameSize, `given
      modifies mgr, decoder, flow, out
      ensures Valid() && peerMaxFrameSize == MaxAfter(frames, old(peerMaxFrameSize))
      ensures State() == FramesStep(old(State()), frames, |frames|, mem, fits, maxBody)
    {
      hide NextMax, FrameStep, WellSized, DecodeBlock, ConnOk, Consistent;
      hide H2StreamManager.Valid, HpackDecoder.Valid, H2FlowControl.Valid, H2Output.Valid;
      assert frames[0..] == frames;
      for n := 0 to |frames|
        invariant Valid() && MaxAfter(frames[n..], peerMaxFrameSize) == MaxAfter(frames, old(peerMaxFrameSize))
        invariant State() == FramesStep(old(State()), frames, n, mem, fits, maxBody)
      {
        assert frames[n..][0] == frames[n] && frames[n..][1..] == frames[n + 1..];
        ProcessFrame(frames[n], mem(n), fits(n));
      }
      assert frames[|frames|..] == [];
    }

    /** The frames of a read batch one after the other, until one is too large.
        Cutting the batch with the limit each SETTINGS frame leaves behind is
        cutting it with the limit the session holds at that point. */
    method ReadBatch(buf: array<byte>, used: nat, mem: nat -> Memory, fits: nat -> bool)
      returns (used': nat, ghost cut: Batch)
      requires Valid() && used <= buf.Length
      modifies this, mgr, decoder, flow, out, buf
      ensures Valid() && busy == old(busy) && running == old(running) && used' <= buf.Length
      ensures cut == Segment(SkipPreface(old(buf[..used]), old(mgr.lastClientStreamId) == 0), old(peerMaxFrameSize))
      ensures buf[..used'] == cut.rest && peerMaxFrameSize == cut.max
      ensures State() == BatchStep(old(State()), cut, mem, fits, maxBody)
    {
      hide Segment, SkipPreface, NextMax, MaxAfter, Admitted, WellSized, DecodeBlock, ConnOk, Consistent;
      hide FramesStep, Send, Be, Be31, Partial, EncodeFrames;
      hide H2StreamManager.Valid, HpackDecoder.Valid, H2FlowControl.Valid, H2Output.Valid;
      var frames, max, tooLarge;
      ghost var d := SkipPreface(buf[..used], mgr.lastClientStreamId == 0);
      cut := Segment(d, peerMaxFrameSize);
      SegmentExact(d, peerMaxFrameSize);
      AdmittedSized(cut.frames, peerMaxFrameSize);
      frames, used', max, tooLarge := ParseBatch(buf, used, mgr.lastClientStreamId == 0, peerMaxFrameSize);
      ProcessFrames(frames, mem, fits);
      if tooLarge {
        SendOk(State(), GoAway(mgr.lastClientStreamId, FRAME_SIZE_ERROR));
        EndConnection(FRAME_SIZE_ERROR);
      }
    }

    // ---- Requests ----

    /** Both maps forget the stream. */
    method Forget(id: nat)
      requires Valid()
      modifies `streams, mgr
      ensures Valid() && State() == Forgotten(old(State()), id)
    {
      hide ConnOk, DecodeBlock, Consistent;
      hide H2StreamManager.Valid, HpackDecoder.Valid, H2FlowControl.Valid, H2Output.Valid;
      ForgottenOk(State(), id);
      streams := streams - {id};
      mgr.RemoveStream(id);
    }

    /** The oldest queue entry, up to the first suspension. */
    method BeginHandle(answered: bool, found: Match, throws: bool) returns (handled: seq<nat>)
      requires Valid() && busy == Waiting && mgr.pending != []
      modifies `streams, `busy, mgr, out
      ensures Valid() && Now() == Begun(old(Now()), answered, found, throws, maxBody)
      ensures handled == HandledBy(old(Now()), Take(answered, found, throws), maxBody)
    {
      hide ConnOk, DecodeBlock, Consistent, TooLarge, Refusal, Decision;
      hide H2StreamManager.Valid, HpackDecoder.Valid, H2FlowControl.Valid, H2Output.Valid;
      DequeuedOk(State(), []);
      BegunOk(Now(), answered, found, throws, maxBody);
      assert out.log + [] == out.log;
      handled := [];
      var id := mgr.Dequeue();
      if id !in streams {
        return;
      }
      if streams[id].closed {
        Forget(id);
        return;
      }
      if TooLarge(streams[id], maxBody) {
        Refuse(id, Drop, false);
        busy := Handling(id, Drop);
        return;
      }
      if !answered && found != NoHandler {
        handled := [id];
      }
      var next := Decision(streams[id].wsExtended, answered, found, throws);
      Refuse(id, next, throws);
      busy := Handling(id, next);
    }

    method Refuse(id: nat, next: Next, throws: bool)
      requires out.Valid()
      modifies out`output, out`log
      ensures out.Valid() && out.log == old(out.log) + Refusal(id, next, throws)
    {
      hide H2Output.Valid;
      if throws {
        out.WriteRstStream(id, INTERNAL_ERROR);
      } else if next == Drop {
        out.WriteRstStream(id, REFUSED_STREAM);
      }
    }

    /** The rest of a request; the region starts over when a clean-up leaves no
        stream. */
    method EndHandle() returns (reset: bool)
      requires Valid() && busy.Handling?
      modifies `streams, `busy, `running, mgr
      ensures Valid() && Now() == Resumed(old(Now()))
      ensures reset <==> old(busy).next == Cleanup && streams == map[]
    {
      hide ConnOk, DecodeBlock, Consistent, Forgotten;
      hide H2StreamManager.Valid, HpackDecoder.Valid, H2FlowControl.Valid, H2Output.Valid;
      var id, next := busy.id, busy.next;
      reset := false;
      if next == Upgrade {
        ActivatedOk(State(), id);
        if id in streams {
          streams := streams[id := streams[id].(wsActive := true)];
        }
        running := running + multiset{id};
      } else {
        Forget(id);
        reset := next == Cleanup && streams == map[];
      }
      busy := Waiting;
    }

    /** A WebSocket coroutine ends, at any suspension point of the main one. */
    method EndWebSocket(id: nat) returns (reset: bool)
      requires Valid() && id in running
      modifies `streams, `running, mgr
      ensures Valid() && Now() == Snap(Forgotten(old(State()), id), old(busy), old(running) - multiset{id})
      ensures reset <==> streams == map[]
    {
      hide ConnOk, DecodeBlock, Consistent, Forgotten;
      hide H2StreamManager.Valid, HpackDecoder.Valid, H2FlowControl.Valid, H2Output.Valid;
      Forget(id);
      running := running - multiset{id};
      reset := streams == map[];
    }

    // ---- Whole runs ----

    method Perform(e: Step) returns (handled: seq<nat>)
      requires Valid()
      modifies this, mgr, decoder, flow, out
      ensures Valid() && Now() == StepOf(old(Now()), e, maxBody) && handled == HandledBy(old(Now()), e, maxBody)
    {
      hide ConnOk, DecodeBlock, Consistent, FrameStep, Begun, Resumed, Forgotten, Servable, WellSized;
      hide H2StreamManager.Valid, HpackDecoder.Valid, H2FlowControl.Valid, H2Output.Valid;
      handled := [];
      match e
      case Arrive(f, mem, fits) =>
        if busy == Waiting && WellSized(f) {
          ProcessFrame(f, mem, fits);
        }
      case Take(answered, found, throws) =>
        if busy == Waiting && mgr.pending != [] {
          handled := BeginHandle(answered, found, throws);
        }
      case Resume =>
        if busy.Handling? {
          var reset := EndHandle();
        }
      case WebSocketOver(id) =>
        if id in running {
          var reset := EndWebSocket(id);
        }
    }

    /** A new connection after any run of steps: it is what the steps make of
        it, both maps agree, identifiers were odd and increasing, and a stream
        reached its handler twice only if its headers asked for a WebSocket. */
    method Run(steps: seq<Step>) returns (handled: seq<nat>)
      requires Valid() && Now() == NEW_SNAP
      modifies this, mgr, decoder, flow, out
      ensures Valid() && Now() == RunOf(old(Now()), steps, |steps|, maxBody)
      ensures handled == HandledIn(old(Now()), steps, |steps|, maxBody)
      ensures streams.Keys == mgr.states.Keys && mgr.activeCount == |Live(mgr.states)| <= MAX_CONCURRENT
      ensures OddIncreasing(mgr.everOpen)
      ensures forall id :: multiset(handled)[id] >= 2 ==> WsAsked(given, id)
    {
      hide ConnOk, DecodeBlock, Consistent, StepOf, HandledBy, OddIncreasing, Live, WsAsked, Booked;
      hide HpackDecoder.Valid, H2FlowControl.Valid, H2Output.Valid;
      handled := [];
      for n := 0 to |steps|
        invariant Valid() && Now() == RunOf(old(Now()), steps, n, maxBody)
        invariant handled == HandledIn(old(Now()), steps, n, maxBody)
      {
        var h := Perform(steps[n]);
        handled := handled + h;
      }
      RunSafe(steps, maxBody);
    }
  }

  /** A whole batch; a frame too large behind it ends the connection. */
  ghost function BatchStep(s: Conn, b: Batch, mem: nat -> Memory, fits: nat -> bool, maxBody: nat): Conn
    requires Consistent(s.table)
  {
    var t := FramesStep(s, b.frames, |b.frames|, mem, fits, maxBody);
    if b.tooLarge then Send(t, GoAway(t.mgr.last, FRAME_SIZE_ERROR)).(goawaySent := true) else t
  }

  /** A frame above the limit, behind the whole frames of a batch, ends the
      connection: GOAWAY with error 6 and the last stream opened. */
  lemma TooLargeEnds(s: Conn, b: Batch, mem: nat -> Memory, fits: nat -> bool, maxBody: nat)
    requires Consistent(s.table)
    ensures var t, u := FramesStep(s, b.frames, |b.frames|, mem, fits, maxBody), BatchStep(s, b, mem, fits, maxBody);
            if b.tooLarge then
              && u == t.(out := u.out, goawaySent := true) && |u.out| == |t.out| + 1 && t.out <= u.out
              && MessageOf(u.out[|t.out|]) == Some(Leave(t.mgr.last % 0x8000_0000, 6))
            else u == t
  {
    hide FramesStep, DecodeBlock, Consistent, MessageOf, Be, Be31;
    var last := FramesStep(s, b.frames, |b.frames|, mem, fits, maxBody).mgr.last;
    MessageRead(Leave(last, FRAME_SIZE_ERROR));
    assert FrameOf(Leave(last, FRAME_SIZE_ERROR)) == GoAway(last, FRAME_SIZE_ERROR);
  }

  lemma DataLengthFits(f: Frame, mem: Memory)
    requires WellSized(f) && f.kind == DATA
    ensures LengthOf(f, mem) < TWO32
  {
  }

  lemma UpdateTwice(streams: map<nat, Context>, id: nat, a: Context, b: Context)
    ensures streams[id := a][id := b] == streams[id := b]
  {
  }

  lemma ChargedKnown(b: Books, id: nat, n: nat)
    ensures id in Charge(b, id, n).known
  {
  }

  lemma StreamsPositive(c: Conn)
    requires ConnOk(c)
    ensures 0 !in c.streams && Consistent(c.table)
  {
  }

  lemma SendOk(c: Conn, f: Frame)
    requires ConnOk(c) && f.kind != WINDOW_UPDATE
    ensures ConnOk(Send(c, f).(goawaySent := true))
  {
    hide Consistent, Aligned, Marked, Booked;
    OtherFrames(c.out, [f], c.books.popped);
  }

  lemma ActivatedOk(c: Conn, id: nat)
    requires ConnOk(c)
    ensures ConnOk(c.(streams := Activated(c.streams, id)))
  {
    hide Consistent, Booked, WsAsked, Live;
    assert Activated(c.streams, id).Keys == c.streams.Keys;
  }
}
