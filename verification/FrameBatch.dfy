/** Cutting one read batch into frames: the connection's inner loop over the
    read buffer. */
module FrameBatch {
  import opened Bits
  import opened Frames
  import opened Options
  import opened Settings
  import opened Fields

  const SETTINGS_KIND: byte := 4
  const PREFACE_LEN: nat := 24

  /** The client connection preface (section 3.5 of RFC 7540). */
  function Preface(): (p: Bytes)
    ensures |p| == PREFACE_LEN
  {
    Ascii("PRI * HTTP/2.0\r\n\r\nSM\r\n\r\n")
  }

  /** The frame size limit after a frame: SETTINGS may change it. */
  function NextMax(max: nat, f: Frame): nat {
    if f.kind == SETTINGS_KIND && f.flags % 2 == 0 then
      var size := DecodeFrom(NO_SETTINGS, f.payload).maxFrameSize;
      if size.Some? && 16384 <= size.value <= 16777215 then size.value else max
    else max
  }

  datatype Batch = Batch(frames: seq<Frame>, rest: Bytes, tooLarge: bool, max: nat)

  /** The first frame of `d`, which holds all of it. */
  function FirstFrame(d: Bytes): Frame
    requires |d| >= HEADER_SIZE && |d| >= HEADER_SIZE + DecodeHeader(d).length
  {
    var h := DecodeHeader(d);
    Frame(h.kind, h.flags, h.streamId, d[HEADER_SIZE..HEADER_SIZE + h.length])
  }

  /** Frames from the front, until one is incomplete or too large. */
  function Segment(d: Bytes, max: nat): Batch
    decreases |d|
  {
    if |d| < HEADER_SIZE then Batch([], d, false, max) else
      var n := DecodeHeader(d).length;
      if n > max then Batch([], d, true, max)
      else if HEADER_SIZE + n > |d| then Batch([], d, false, max)
      else
        var f := FirstFrame(d);
        var b := Segment(d[HEADER_SIZE + n..], NextMax(max, f));
        b.(frames := [f] + b.frames)
  }

  /** Every frame is within the limit in force when it comes. */
  predicate Admitted(fs: seq<Frame>, max: nat) {
    fs == [] || (WellSized(fs[0]) && |fs[0].payload| <= max && Admitted(fs[1..], NextMax(max, fs[0])))
  }

  function MaxAfter(fs: seq<Frame>, max: nat): nat {
    if fs == [] then max else MaxAfter(fs[1..], NextMax(max, fs[0]))
  }

  lemma {:induction false} AdmittedSized(fs: seq<Frame>, max: nat)
    requires Admitted(fs, max)
    ensures forall f :: f in fs ==> WellSized(f)
  {
    if fs != [] {
      hide WellSized, NextMax;
      AdmittedSized(fs[1..], NextMax(max, fs[0]));
      assert forall f :: f in fs ==> f == fs[0] || f in fs[1..];
    }
  }

  /** `d` is the beginning of a frame within the limit, not the whole of it. */
  predicate Partial(d: Bytes, max: nat) {
    |d| < HEADER_SIZE || (DecodeHeader(d).length <= max && HEADER_SIZE + DecodeHeader(d).length > |d|)
  }

  lemma FirstOfEncoded(f: Frame, rest: Bytes)
    requires WellSized(f)
    ensures var d := EncodeFrame(f) + rest;
            && DecodeHeader(d).length == |f.payload|
            && FirstFrame(d) == f
            && d[HEADER_SIZE + |f.payload|..] == rest
  {
    hide EncodeHeader, DecodeHeader;
    var d := EncodeFrame(f) + rest;
    assert d == EncodeHeader(HeaderOf(f)) + (f.payload + rest);
    HeaderRoundTrip(HeaderOf(f), f.payload + rest);
    assert d[HEADER_SIZE..HEADER_SIZE + |f.payload|] == f.payload;
  }

  /** Encoded frames and a partial frame come apart as they were put together. */
  lemma {:induction false} SegmentEncoded(fs: seq<Frame>, tail: Bytes, max: nat)
    requires Admitted(fs, max) && Partial(tail, MaxAfter(fs, max))
    ensures Segment(EncodeFrames(fs) + tail, max) == Batch(fs, tail, false, MaxAfter(fs, max))
    decreases |fs|
  {
    hide EncodeFrame, DecodeHeader, NextMax, FirstFrame, WellSized;
    if fs == [] {
      assert EncodeFrames(fs) + tail == tail;
    } else {
      var rest := EncodeFrames(fs[1..]) + tail;
      assert EncodeFrames(fs) + tail == EncodeFrame(fs[0]) + rest;
      FirstOfEncoded(fs[0], rest);
      SegmentEncoded(fs[1..], tail, NextMax(max, fs[0]));
      assert [fs[0]] + fs[1..] == fs;
    }
  }

  /** What a segmentation of `d` under the limit `max` must be. */
  predicate Accounts(b: Batch, d: Bytes, max: nat) {
    && Admitted(b.frames, max) && b.max == MaxAfter(b.frames, max)
    && |EncodeFrames(b.frames)| + |b.rest| == |d|
    && b.rest == d[|d| - |b.rest|..]
    && (b.tooLarge <==> |b.rest| >= HEADER_SIZE && DecodeHeader(b.rest).length > b.max)
    && (!b.tooLarge ==> Partial(b.rest, b.max))
  }

  lemma AccountsStep(b: Batch, d: Bytes, max: nat)
    requires |d| >= HEADER_SIZE && DecodeHeader(d).length <= max && HEADER_SIZE + DecodeHeader(d).length <= |d|
    requires Accounts(b, d[HEADER_SIZE + DecodeHeader(d).length..], NextMax(max, FirstFrame(d)))
    ensures Accounts(b.(frames := [FirstFrame(d)] + b.frames), d, max)
  {
    HeaderBounds(d);
    hide DecodeHeader, NextMax, EncodeHeader;
    var f := FirstFrame(d);
    assert ([f] + b.frames)[1..] == b.frames;
  }

  /** For any bytes: the frames cut off are admitted, what is left is a suffix,
      and the two account for every byte. */
  lemma {:induction false} SegmentExact(d: Bytes, max: nat)
    ensures Accounts(Segment(d, max), d, max)
    decreases |d|
  {
    if |d| >= HEADER_SIZE && DecodeHeader(d).length <= max && HEADER_SIZE + DecodeHeader(d).length <= |d| {
      hide DecodeHeader, NextMax, FirstFrame, Accounts;
      var rest, max' := d[HEADER_SIZE + DecodeHeader(d).length..], NextMax(max, FirstFrame(d));
      SegmentExact(rest, max');
      AccountsStep(Segment(rest, max'), d, max);
    }
  }

  /** The batch without the preface, which is skipped before any stream opened. */
  function SkipPreface(d: Bytes, noStreamYet: bool): Bytes {
    if noStreamYet && |d| >= PREFACE_LEN && d[..PREFACE_LEN] == Preface() then d[PREFACE_LEN..] else d
  }

  function Prepend(fs: seq<Frame>, b: Batch): Batch {
    b.(frames := fs + b.frames)
  }

  /** One turn of the loop: what is left after a whole frame. */
  lemma SegmentStep(fs: seq<Frame>, d: Bytes, max: nat)
    requires |d| >= HEADER_SIZE && DecodeHeader(d).length <= max && HEADER_SIZE + DecodeHeader(d).length <= |d|
    ensures Prepend(fs, Segment(d, max))
         == Prepend(fs + [FirstFrame(d)],
                    Segment(d[HEADER_SIZE + DecodeHeader(d).length..], NextMax(max, FirstFrame(d))))
  {
    hide DecodeHeader, NextMax, FirstFrame;
    var f := FirstFrame(d);
    var b := Segment(d[HEADER_SIZE + DecodeHeader(d).length..], NextMax(max, f));
    assert fs + ([f] + b.frames) == (fs + [f]) + b.frames;
  }

  lemma SegmentStops(d: Bytes, max: nat)
    ensures Partial(d, max) ==> Segment(d, max) == Batch([], d, false, max)
    ensures |d| >= HEADER_SIZE && DecodeHeader(d).length > max ==> Segment(d, max) == Batch([], d, true, max)
  {
    hide DecodeHeader, NextMax, FirstFrame;
  }

  method CutFrames(buf: array<byte>, pos0: nat, used: nat, max0: nat)
    returns (frames: seq<Frame>, pos: nat, max: nat, tooLarge: bool)
    requires pos0 <= used <= buf.Length
    ensures pos0 <= pos <= used
    ensures Batch(frames, buf[pos..used], tooLarge, max) == Segment(buf[pos0..used], max0)
  {
    hide Segment, DecodeHeader, NextMax, FirstFrame;
    frames, pos, max, tooLarge := [], pos0, max0, false;
    assert Prepend([], Segment(buf[pos0..used], max0)) == Segment(buf[pos0..used], max0);
    while used - pos >= HEADER_SIZE
      invariant pos0 <= pos <= used
      invariant Prepend(frames, Segment(buf[pos..used], max)) == Segment(buf[pos0..used], max0)
      decreases used - pos
    {
      var d := buf[pos..used];
      var n := DecodeHeader(d).length;
      SegmentStops(d, max);
      if n > max {
        return frames, pos, max, true;
      }
      if HEADER_SIZE + n > used - pos {
        return;
      }
      SegmentStep(frames, d, max);
      var f := FirstFrame(d);
      frames, max := frames + [f], NextMax(max, f);
      pos := pos + HEADER_SIZE + n;
      assert d[HEADER_SIZE + n..] == buf[pos..used];
    }
    SegmentStops(buf[pos..used], max);
  }

  /** memmove of the unread bytes to the front. */
  method MoveDown(buf: array<byte>, pos: nat, used: nat)
    requires pos <= used <= buf.Length
    modifies buf
    ensures buf[..used - pos] == old(buf[pos..used])
  {
    forall i | 0 <= i < used - pos {
      buf[i] := buf[pos + i];
    }
  }

  /** The loop over the read buffer: frames are handed on in order, and a
      partial frame is moved to the front. */
  method ParseBatch(buf: array<byte>, used: nat, noStreamYet: bool, max: nat)
    returns (frames: seq<Frame>, used': nat, max': nat, tooLarge: bool)
    requires used <= buf.Length
    modifies buf
    ensures used' <= buf.Length
    ensures Batch(frames, buf[..used'], tooLarge, max') == Segment(SkipPreface(old(buf[..used]), noStreamYet), max)
  {
    hide Segment, Preface;
    var pos := 0;
    if noStreamYet && used >= PREFACE_LEN && buf[..PREFACE_LEN] == Preface() {
      pos := PREFACE_LEN;
    }
    ghost var d := buf[..used];
    assert used >= PREFACE_LEN ==> d[..PREFACE_LEN] == buf[..PREFACE_LEN];
    assert d[pos..] == buf[pos..used];
    frames, pos, max', tooLarge := CutFrames(buf, pos, used, max);
    MoveDown(buf, pos, used);
    used' := used - pos;
  }

  /** A batch of preface, whole frames and a partial one: exactly those frames
      are handed on and exactly the partial one is kept. */
  lemma BatchIsFrames(fs: seq<Frame>, tail: Bytes, max: nat)
    requires Admitted(fs, max) && Partial(tail, MaxAfter(fs, max))
    ensures Segment(SkipPreface(Preface() + EncodeFrames(fs) + tail, true), max)
         == Batch(fs, tail, false, MaxAfter(fs, max))
  {
    hide Segment, Preface, Admitted, Partial;
    var d := Preface() + EncodeFrames(fs) + tail;
    assert d[..PREFACE_LEN] == Preface();
    assert d[PREFACE_LEN..] == EncodeFrames(fs) + tail;
    SegmentEncoded(fs, tail, max);
  }

  /** Read as a frame header, the preface announces five megabytes. */
  lemma PrefaceIsNoFrame(d: Bytes)
    requires |d| >= PREFACE_LEN && d[..PREFACE_LEN] == Preface()
    ensures DecodeHeader(d).length == 0x50_5249
  {
    var b := d[..3];
    assert b == d[..PREFACE_LEN][..3] == [0x50, 0x52, 0x49];
    assert b[..2] == [0x50, 0x52] && b[..2][..1] == [0x50];
    assert FromBe([0x50]) == 0x50 by { assert FromBe([]) == 0; }
    assert FromBe([0x50, 0x52]) == 0x5052;
  }

  /** Without a preface, while the limit is below that, nothing is skipped. */
  lemma BatchWithoutPreface(fs: seq<Frame>, tail: Bytes, max: nat, noStreamYet: bool)
    requires Admitted(fs, max) && Partial(tail, MaxAfter(fs, max)) && max < 0x50_5249
    ensures Segment(SkipPreface(EncodeFrames(fs) + tail, noStreamYet), max)
         == Batch(fs, tail, false, MaxAfter(fs, max))
  {
    var d := EncodeFrames(fs) + tail;
    hide Segment, Preface, EncodeFrame, DecodeHeader;
    SegmentEncoded(fs, tail, max);
    if fs == [] {
      assert d == tail;
    } else {
      assert d == EncodeFrame(fs[0]) + (EncodeFrames(fs[1..]) + tail);
      FirstOfEncoded(fs[0], EncodeFrames(fs[1..]) + tail);
    }
    if |d| >= PREFACE_LEN && d[..PREFACE_LEN] == Preface() {
      PrefaceIsNoFrame(d);
      assert false;
    }
  }
}
