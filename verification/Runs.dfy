/** Whole runs of an HTTP/2 connection: frames, request handling and WebSocket
    coroutines in any order the suspension points allow. */
module Runs {
  import opened Bits
  import opened Frames
  import opened Options
  import opened Fields
  import opened HpackTable
  import opened HpackPrimitives
  import opened Hpack
  import opened StreamManager
  import opened FlowControl
  import opened Output
  import opened Connection
  import opened Lifecycle

  /** What the suspended main coroutine does with its stream when it goes on. */
  datatype Next = Upgrade | Drop | Cleanup

  datatype Busy = Waiting | Handling(id: nat, next: Next)

  /** The connection, where its main coroutine is suspended, and the WebSocket
      coroutines at work. */
  datatype Snap = Snap(conn: Conn, busy: Busy, running: multiset<nat>)

  const NEW_SNAP := Snap(NEW_CONN, Waiting, multiset{})

  /** What the router finds for a path. */
  datatype Match = NoHandler | StreamHandler | PlainHandler

  datatype Step =
    | Arrive(f: Frame, mem: Memory, fits: bool)
    | Take(answered: bool, found: Match, throws: bool)
    | Resume
    | WebSocketOver(id: nat)

  /** What becomes of a stream whose headers asked for a WebSocket or not. */
  function Decision(ws: bool, answered: bool, found: Match, throws: bool): Next {
    if throws || (!answered && found == StreamHandler) || !ws then Cleanup
    else if found != NoHandler then Upgrade
    else Drop
  }

  /** What is sent before the next suspension, apart from the response. */
  function Refusal(id: nat, next: Next, throws: bool): seq<Frame> {
    if throws then [Rst(id, INTERNAL_ERROR)] else if next == Drop then [Rst(id, REFUSED_STREAM)] else []
  }

  /** Both maps forget the stream. */
  function Forgotten(c: Conn, id: nat): Conn {
    c.(streams := c.streams - {id}, mgr := Removed(c.mgr, id))
  }

  /** A stream that is there, was not reset, and whose body is not too large. */
  predicate Servable(c: Conn, id: nat, maxBody: nat) {
    id in c.streams && !c.streams[id].closed && !TooLarge(c.streams[id], maxBody)
  }

  /** The oldest queue entry, up to the first suspension: a stale entry is
      skipped, a reset stream forgotten, any other stream taken up. */
  function Begun(s: Snap, answered: bool, found: Match, throws: bool, maxBody: nat): Snap
    requires s.conn.mgr.pending != []
  {
    var pending := s.conn.mgr.pending;
    var id, c := pending[0], s.conn.(mgr := s.conn.mgr.(pending := pending[1..]));
    if id !in c.streams then s.(conn := c)
    else if c.streams[id].closed then s.(conn := Forgotten(c, id))
    else if TooLarge(c.streams[id], maxBody) then
      s.(conn := c.(out := c.out + Refusal(id, Drop, false)), busy := Handling(id, Drop))
    else
      var next := Decision(c.streams[id].wsExtended, answered, found, throws);
      s.(conn := c.(out := c.out + Refusal(id, next, throws)), busy := Handling(id, next))
  }

  function Activated(streams: map<nat, Context>, id: nat): map<nat, Context> {
    if id in streams then streams[id := streams[id].(wsActive := true)] else streams
  }

  /** The rest of a request: a WebSocket gets a coroutine of its own, any other
      stream is forgotten. */
  function Resumed(s: Snap): Snap
    requires s.busy.Handling?
  {
    var id := s.busy.id;
    if s.busy.next == Upgrade then
      Snap(s.conn.(streams := Activated(s.conn.streams, id)), Waiting, s.running + multiset{id})
    else s.(conn := Forgotten(s.conn, id), busy := Waiting)
  }

  /** A step, if it can happen: frames and queue entries come while the main
      coroutine waits, WebSocket coroutines end whenever they are there. */
  ghost function StepOf(s: Snap, e: Step, maxBody: nat): (t: Snap)
    requires Consistent(s.conn.table)
    ensures Consistent(t.conn.table)
  {
    match e
    case Arrive(f, mem, fits) =>
      if s.busy == Waiting && WellSized(f) then s.(conn := FrameStep(s.conn, f, mem, fits, maxBody)) else s
    case Take(answered, found, throws) =>
      if s.busy == Waiting && s.conn.mgr.pending != [] then Begun(s, answered, found, throws, maxBody) else s
    case Resume =>
      if s.busy.Handling? then Resumed(s) else s
    case WebSocketOver(id) =>
      if id in s.running then Snap(Forgotten(s.conn, id), s.busy, s.running - multiset{id}) else s
  }

  /** The stream that reaches its handler in a step, if one does. */
  function HandledBy(s: Snap, e: Step, maxBody: nat): seq<nat> {
    if e.Take? && s.busy == Waiting && s.conn.mgr.pending != []
       && Servable(s.conn, s.conn.mgr.pending[0], maxBody) && !e.answered && e.found != NoHandler
    then [s.conn.mgr.pending[0]] else []
  }

  ghost function RunOf(s: Snap, steps: seq<Step>, n: nat, maxBody: nat): (t: Snap)
    requires Consistent(s.conn.table) && n <= |steps|
    ensures Consistent(t.conn.table)
  {
    if n == 0 then s else StepOf(RunOf(s, steps, n - 1, maxBody), steps[n - 1], maxBody)
  }

  /** The streams that reach their handlers in a run, in order. */
  ghost function HandledIn(s: Snap, steps: seq<Step>, n: nat, maxBody: nat): seq<nat>
    requires Consistent(s.conn.table) && n <= |steps|
  {
    if n == 0 then []
    else HandledIn(s, steps, n - 1, maxBody) + HandledBy(RunOf(s, steps, n - 1, maxBody), steps[n - 1], maxBody)
  }

  // ---- What every step keeps ----

  /** How often each stream reached its handler so far. A stream that did is
      gone, being handled, or asked for a WebSocket; only such a stream
      reaches it again. */
  ghost predicate Once(c: Conn, busy: Busy, reached: multiset<nat>) {
    && (forall id :: id in reached ==> id <= c.mgr.last)
    && (forall id :: id in reached && id in c.streams ==> WsAsked(c.given, id) || (busy.Handling? && busy.id == id))
    && (forall id :: reached[id] >= 2 ==> WsAsked(c.given, id))
    && (busy.Handling? && busy.next == Upgrade ==> WsAsked(c.given, busy.id))
  }

  ghost predicate ConnOk(c: Conn) {
    && Consistent(c.table) && Aligned(c.mgr, c.streams) && Marked(c.given, c.streams) && Booked(c.out, c.books.popped)
  }

  ghost predicate Invariant(s: Snap, reached: multiset<nat>) {
    ConnOk(s.conn) && Once(s.conn, s.busy, reached)
  }

  lemma AskedForGood(a: seq<Given>, b: seq<Given>)
    requires a <= b
    ensures forall id :: WsAsked(a, id) ==> WsAsked(b, id)
  {
    hide Ascii;
    forall id | WsAsked(a, id) ensures WsAsked(b, id) {
      var i :| 0 <= i < |a| && a[i] == Given(id, WS_FIELD);
      assert b[i] == a[i];
    }
  }

  lemma NoStreamZero(c: Conn)
    requires Aligned(c.mgr, c.streams)
    ensures 0 !in c.streams
  {
  }

  lemma FrameOk(c: Conn, f: Frame, mem: Memory, fits: bool, maxBody: nat)
    requires ConnOk(c)
    ensures ConnOk(FrameStep(c, f, mem, fits, maxBody)) && Extends(c, FrameStep(c, f, mem, fits, maxBody))
  {
    hide FrameStep, DecodeBlock, Consistent, Marked, Booked, Extends;
    NoStreamZero(c);
    hide Aligned;
    FrameAligned(c, f, mem, fits, maxBody);
    FrameMarks(c, f, mem, fits, maxBody);
    FrameBooked(c, f, mem, fits, maxBody);
  }

  lemma FrameKeeps(s: Snap, f: Frame, mem: Memory, fits: bool, maxBody: nat, reached: multiset<nat>)
    requires Invariant(s, reached) && s.busy == Waiting
    ensures Invariant(s.(conn := FrameStep(s.conn, f, mem, fits, maxBody)), reached)
  {
    var t := FrameStep(s.conn, f, mem, fits, maxBody);
    FrameOk(s.conn, f, mem, fits, maxBody);
    hide FrameStep, DecodeBlock, ConnOk, WsAsked;
    AskedForGood(s.conn.given, t.given);
  }

  lemma ForgottenOk(c: Conn, id: nat)
    requires ConnOk(c)
    ensures ConnOk(Forgotten(c, id))
  {
    hide Consistent, Aligned, Booked, WsAsked;
    DropAligned(c.mgr, c.streams, id);
  }

  lemma DequeuedOk(c: Conn, fs: seq<Frame>)
    requires ConnOk(c) && c.mgr.pending != [] && forall i :: 0 <= i < |fs| ==> fs[i].kind != WINDOW_UPDATE
    ensures ConnOk(c.(mgr := c.mgr.(pending := c.mgr.pending[1..]), out := c.out + fs))
  {
    hide Consistent, Marked, Booked, Live;
    OtherFrames(c.out, fs, c.books.popped);
  }

  lemma BegunOk(s: Snap, answered: bool, found: Match, throws: bool, maxBody: nat)
    requires ConnOk(s.conn) && s.conn.mgr.pending != []
    ensures ConnOk(Begun(s, answered, found, throws, maxBody).conn)
  {
    var c, id := s.conn, s.conn.mgr.pending[0];
    assert c.out + [] == c.out;
    DequeuedOk(c, []);
    ForgottenOk(c.(mgr := c.mgr.(pending := c.mgr.pending[1..])), id);
    hide ConnOk, TooLarge, Be;
    DequeuedOk(c, Refusal(id, Drop, false));
    if id in c.streams {
      DequeuedOk(c, Refusal(id, Decision(c.streams[id].wsExtended, answered, found, throws), throws));
    }
  }

  /** Taking up a stream cannot be the second time, unless it asked for a WebSocket. */
  lemma TakenUpOnce(c: Conn, id: nat, next: Next, reached: multiset<nat>)
    requires Once(c, Waiting, reached) && id in c.streams && id <= c.mgr.last
    requires next == Upgrade ==> WsAsked(c.given, id)
    ensures Once(c, Handling(id, next), reached) && Once(c, Handling(id, next), reached + multiset{id})
  {
    hide WsAsked;
    assert forall x :: x in reached + multiset{id} <==> x in reached || x == id;
  }

  lemma SkippedOnce(c: Conn, id: nat, reached: multiset<nat>)
    requires Once(c, Waiting, reached)
    ensures Once(Forgotten(c, id), Waiting, reached)
  {
    hide WsAsked;
  }

  lemma PendingFacts(c: Conn, id: nat)
    requires ConnOk(c) && id in c.streams
    ensures id <= c.mgr.last && (c.streams[id].wsExtended ==> WsAsked(c.given, id))
  {
    hide Consistent, Booked, Live, WsAsked;
  }

  lemma BegunOnce(s: Snap, e: Step, maxBody: nat, reached: multiset<nat>)
    requires Invariant(s, reached) && e.Take? && s.busy == Waiting && s.conn.mgr.pending != []
    ensures var t := Begun(s, e.answered, e.found, e.throws, maxBody);
            Once(t.conn, t.busy, reached + multiset(HandledBy(s, e, maxBody)))
  {
    hide ConnOk, Once, WsAsked, TooLarge, Forgotten;
    var c, id := s.conn, s.conn.mgr.pending[0];
    var d := c.(mgr := c.mgr.(pending := c.mgr.pending[1..]));
    var t := Begun(s, e.answered, e.found, e.throws, maxBody);
    assert reached + multiset([]) == reached;
    assert multiset([id]) == multiset{id};
    OnceIgnoresQueue(c, d, Waiting, reached);
    SkippedOnce(d, id, reached);
    if id in c.streams && !c.streams[id].closed {
      PendingFacts(c, id);
      TakenUpOnce(c, id, t.busy.next, reached);
      OnceIgnoresQueue(c, t.conn, t.busy, reached + multiset(HandledBy(s, e, maxBody)));
    }
  }

  lemma OnceIgnoresQueue(c: Conn, d: Conn, busy: Busy, reached: multiset<nat>)
    requires Once(c, busy, reached) && d.mgr.last == c.mgr.last && d.streams == c.streams && d.given == c.given
    ensures Once(d, busy, reached)
  {
  }

  lemma ResumedKeeps(s: Snap, reached: multiset<nat>)
    requires Invariant(s, reached) && s.busy.Handling?
    ensures Invariant(Resumed(s), reached)
  {
    hide Consistent, Booked, WsAsked, Live;
    if s.busy.next == Upgrade {
      assert Activated(s.conn.streams, s.busy.id).Keys == s.conn.streams.Keys;
    } else {
      ForgottenOk(s.conn, s.busy.id);
      hide Aligned, Marked;
    }
  }

  lemma WebSocketOverKeeps(s: Snap, id: nat, reached: multiset<nat>)
    requires Invariant(s, reached)
    ensures Invariant(s.(conn := Forgotten(s.conn, id)), reached)
  {
    ForgottenOk(s.conn, id);
    hide ConnOk, WsAsked;
  }

  /** Every step keeps the invariant, counting the handler it reached. */
  lemma StepKeeps(s: Snap, e: Step, maxBody: nat, reached: multiset<nat>)
    requires Invariant(s, reached)
    ensures Invariant(StepOf(s, e, maxBody), reached + multiset(HandledBy(s, e, maxBody)))
  {
    hide ConnOk, Once, FrameStep, DecodeBlock, Begun, Resumed, Forgotten, Consistent, TooLarge;
    assert !e.Take? ==> reached + multiset(HandledBy(s, e, maxBody)) == reached;
    match e
    case Arrive(f, mem, fits) =>
      if s.busy == Waiting && WellSized(f) {
        FrameKeeps(s, f, mem, fits, maxBody, reached);
      }
    case Take(answered, found, throws) =>
      if s.busy == Waiting && s.conn.mgr.pending != [] {
        BegunOk(s, answered, found, throws, maxBody);
        BegunOnce(s, e, maxBody, reached);
      } else {
        assert reached + multiset(HandledBy(s, e, maxBody)) == reached;
      }
    case Resume =>
      if s.busy.Handling? {
        ResumedKeeps(s, reached);
      }
    case WebSocketOver(id) =>
      if id in s.running {
        WebSocketOverKeeps(s, id, reached);
        OnceIgnoresRunning(s, id, reached);
      }
  }

  lemma OnceIgnoresRunning(s: Snap, id: nat, reached: multiset<nat>)
    requires Invariant(s.(conn := Forgotten(s.conn, id)), reached)
    ensures Invariant(Snap(Forgotten(s.conn, id), s.busy, s.running - multiset{id}), reached)
  {
  }

  lemma InvariantTable(s: Snap, reached: multiset<nat>)
    requires Invariant(s, reached)
    ensures Consistent(s.conn.table)
  {
  }

  lemma {:induction false} RunKeeps(s: Snap, steps: seq<Step>, n: nat, maxBody: nat, reached: multiset<nat>)
    requires Invariant(s, reached) && n <= |steps|
    ensures Invariant(RunOf(s, steps, n, maxBody), reached + multiset(HandledIn(s, steps, n, maxBody)))
  {
    hide StepOf, HandledBy, ConnOk, Once, DecodeBlock, Consistent;
    InvariantTable(s, reached);
    if n == 0 {
      assert reached + multiset([]) == reached;
    } else {
      RunKeeps(s, steps, n - 1, maxBody, reached);
      var before := HandledIn(s, steps, n - 1, maxBody);
      StepKeeps(RunOf(s, steps, n - 1, maxBody), steps[n - 1], maxBody, reached + multiset(before));
      var now := HandledBy(RunOf(s, steps, n - 1, maxBody), steps[n - 1], maxBody);
      assert reached + multiset(before) + multiset(now) == reached + multiset(before + now);
    }
  }

  lemma NewInvariant()
    ensures Invariant(NEW_SNAP, multiset{})
  {
    assert Live(map[]) == {};
    forall e: nat ensures Cut(Written([], 0, e), Entry(map[], e)) {
    }
  }

  /** Over every run of a new connection: both maps know the same streams, at
      most a hundred of them live; the window updates written are the credits
      booked; and a stream reaches its handler at most once, unless a header
      field delivered to it asked for a WebSocket. */
  lemma RunSafe(steps: seq<Step>, maxBody: nat)
    ensures Consistent(NEW_SNAP.conn.table)
    ensures var c := RunOf(NEW_SNAP, steps, |steps|, maxBody).conn;
            && c.streams.Keys == c.mgr.states.Keys && |Live(c.mgr.states)| <= MAX_CONCURRENT
            && Booked(c.out, c.books.popped)
            && forall id :: multiset(HandledIn(NEW_SNAP, steps, |steps|, maxBody))[id] >= 2 ==> WsAsked(c.given, id)
  {
    NewInvariant();
    hide RunOf, HandledIn, DecodeBlock, Booked, Live, WsAsked;
    RunKeeps(NEW_SNAP, steps, |steps|, maxBody, multiset{});
    var h := multiset(HandledIn(NEW_SNAP, steps, |steps|, maxBody));
    assert multiset{} + h == h;
  }

  // ---- GOAWAY over whole runs ----

  lemma StepParted(s: Snap, e: Step, maxBody: nat)
    requires Consistent(s.conn.table) && Parted(s.conn)
    ensures Parted(StepOf(s, e, maxBody).conn)
  {
    hide FrameStep, DecodeBlock, Consistent, TooLarge, Be, SaysGoAway;
    match e
    case Arrive(f, mem, fits) => FrameParted(s.conn, f, mem, fits, maxBody);
    case Take(answered, found, throws) =>
      if s.busy == Waiting && s.conn.mgr.pending != [] {
        BegunParted(s, answered, found, throws, maxBody);
      }
    case _ =>
  }

  lemma BegunParted(s: Snap, answered: bool, found: Match, throws: bool, maxBody: nat)
    requires Parted(s.conn) && s.conn.mgr.pending != []
    ensures Parted(Begun(s, answered, found, throws, maxBody).conn)
  {
    hide TooLarge, Be, SaysGoAway;
    var c, id := s.conn, s.conn.mgr.pending[0];
    SaysSame(c.out, Refusal(id, Drop, false));
    if id in c.streams {
      SaysSame(c.out, Refusal(id, Decision(c.streams[id].wsExtended, answered, found, throws), throws));
    }
  }

  lemma {:induction false} RunParted(s: Snap, steps: seq<Step>, n: nat, maxBody: nat)
    requires Consistent(s.conn.table) && Parted(s.conn) && n <= |steps|
    ensures Parted(RunOf(s, steps, n, maxBody).conn)
  {
    hide StepOf, Parted, DecodeBlock, Consistent;
    if n > 0 {
      RunParted(s, steps, n - 1, maxBody);
      StepParted(RunOf(s, steps, n - 1, maxBody), steps[n - 1], maxBody);
    }
  }

  /** Over every run of a new connection, a client's GOAWAY is answered if and
      only if the server has not written one yet. */
  lemma GoAwayOncePerRun(steps: seq<Step>, f: Frame, mem: Memory, fits: bool, maxBody: nat)
    requires f.kind == 7 && |f.payload| >= 8
    ensures Consistent(NEW_SNAP.conn.table)
    ensures var c := RunOf(NEW_SNAP, steps, |steps|, maxBody).conn;
            var t := FrameStep(c, f, mem, fits, maxBody);
            && SaysGoAway(t.out) && (t.out == c.out <==> SaysGoAway(c.out))
            && (t.out != c.out ==> |t.out| == |c.out| + 1
                                   && MessageOf(t.out[|c.out|]) == Some(Leave(c.mgr.last % 0x8000_0000, 0)))
  {
    hide DecodeBlock, FrameStep, StepOf;
    NewInvariant();
    hide Consistent;
    assert Parted(NEW_SNAP.conn);
    RunParted(NEW_SNAP, steps, |steps|, maxBody);
    hide Parted, SaysGoAway, MessageOf;
    GoAwayAnswered(RunOf(NEW_SNAP, steps, |steps|, maxBody).conn, f, mem, fits, maxBody);
  }
}
