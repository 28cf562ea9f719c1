/** The HTTP/2 binary frame layer (sections 4.1 and 6 of RFC 7540): frame
    headers and the fixed payloads, byte by byte. */
module Frames {
  import opened Bits

  // ---- Big-endian fields ----

  function Pow256(n: nat): (p: nat)
    ensures p >= 1
  {
    if n == 0 then 1 else 256 * Pow256(n - 1)
  }

  /** The `n` low bytes of `v`, most significant first. */
  function Be(v: nat, n: nat): (b: Bytes)
    ensures |b| == n
    decreases n
  {
    if n == 0 then [] else Be(v / 256, n - 1) + [v % 256]
  }

  function FromBe(b: Bytes): nat {
    if b == [] then 0 else 256 * FromBe(b[..|b| - 1]) + (b[|b| - 1] as int)
  }

  lemma {:induction false} BeRoundTrip(v: nat, n: nat)
    requires v < Pow256(n)
    ensures FromBe(Be(v, n)) == v
    decreases n
  {
    if n > 0 {
      BeRoundTrip(v / 256, n - 1);
      assert Be(v, n)[..n - 1] == Be(v / 256, n - 1);
    }
  }

  lemma {:induction false} FromBeRoundTrip(b: Bytes)
    ensures FromBe(b) < Pow256(|b|) && Be(FromBe(b), |b|) == b
  {
    if b != [] {
      var front := b[..|b| - 1];
      FromBeRoundTrip(front);
      assert b == front + [b[|b| - 1]];
    }
  }

  lemma Pow256Values()
    ensures Pow256(2) == 0x1_0000 && Pow256(3) == 0x100_0000 && Pow256(4) == 0x1_0000_0000
  {
    assert Pow256(1) == 256;
  }

  lemma {:induction false} BeTruncates(v: nat, n: nat)
    ensures FromBe(Be(v, n)) == v % Pow256(n)
    decreases n
  {
    if n > 0 {
      BeTruncates(v / 256, n - 1);
      assert Be(v, n)[..n - 1] == Be(v / 256, n - 1);
      SplitMod(v, Pow256(n - 1));
    }
  }

  lemma SplitMod(v: nat, p: nat)
    requires p >= 1
    ensures v % (256 * p) == 256 * (v / 256 % p) + v % 256
  {
    var q, r := v / 256 / p, v / 256 % p;
    assert v == 256 * (q * p + r) + v % 256;
    assert v == q * (256 * p) + (256 * r + v % 256);
    DivModUnique(v, 256 * p, q, 256 * r + v % 256);
  }

  /** A four-byte field whose top bit is reserved: dropped on both ways. */
  function ClearTop(b: Bytes): (r: Bytes)
    ensures |r| == |b|
  {
    if b == [] then [] else [b[0] % 128] + b[1..]
  }

  function Be31(v: nat): (b: Bytes)
    ensures |b| == 4
  {
    ClearTop(Be(v, 4))
  }

  function From31(b: Bytes): nat {
    FromBe(ClearTop(b))
  }

  /** The first byte of a field holds the high bits. */
  lemma {:induction false} TopByte(v: nat, n: nat)
    requires n >= 1 && v < Pow256(n)
    ensures Be(v, n)[0] * Pow256(n - 1) <= v < (Be(v, n)[0] + 1) * Pow256(n - 1)
    decreases n
  {
    if n > 1 {
      TopByte(v / 256, n - 1);
      var t, p := Be(v, n)[0], Pow256(n - 2);
      assert Be(v / 256, n - 1)[0] == t;
      TopByteStep(v, t, p);
    }
  }

  lemma TopByteStep(v: nat, t: nat, p: nat)
    requires t * p <= v / 256 < (t + 1) * p
    ensures t * (256 * p) <= v < (t + 1) * (256 * p)
  {
    assert t * (256 * p) == 256 * (t * p);
    assert (t + 1) * (256 * p) == 256 * ((t + 1) * p);
  }

  /** The first byte counts most. */
  lemma {:induction false} FromBeFirst(b: Bytes)
    requires b != []
    ensures FromBe(b) == b[0] * Pow256(|b| - 1) + FromBe(b[1..])
  {
    if |b| == 1 {
      assert FromBe(b[1..]) == 0 && FromBe(b[..0]) == 0;
    } else {
      var front := b[..|b| - 1];
      FromBeFirst(front);
      assert b[1..][..|b| - 2] == front[1..];
      assert b[1..][|b| - 2] == b[|b| - 1];
      MulThrough(b[0], Pow256(|b| - 2));
    }
  }

  lemma MulThrough(a: nat, p: nat)
    ensures 256 * (a * p) == a * (256 * p)
  {
  }

  /** A field without its reserved bit is cut to 31 bits. */
  lemma From31Cuts(b: Bytes)
    requires |b| == 4
    ensures From31(b) == FromBe(b) % 0x8000_0000
  {
    hide FromBe, ClearTop;
    TopCleared(b);
    FirstOfFour(b);
    FirstOfFour(ClearTop(b));
    CutTop(b[0], FromBe(b[1..]), FromBe(b), FromBe(ClearTop(b)));
  }

  lemma FirstOfFour(b: Bytes)
    requires |b| == 4
    ensures FromBe(b) == b[0] * 0x100_0000 + FromBe(b[1..]) && FromBe(b[1..]) < 0x100_0000
  {
    Pow256Values();
    FromBeFirst(b);
    hide FromBe;
    FromBeRoundTrip(b[1..]);
  }

  lemma TopCleared(b: Bytes)
    requires b != []
    ensures ClearTop(b)[0] == b[0] % 128 && ClearTop(b)[1..] == b[1..]
  {
  }

  lemma CutTop(t: nat, r: nat, whole: nat, cut: nat)
    requires t < 256 && r < 0x100_0000 && whole == t * 0x100_0000 + r && cut == t % 128 * 0x100_0000 + r
    ensures cut == whole % 0x8000_0000
  {
    DivModUnique(whole, 0x8000_0000, t / 128, cut);
  }

  lemma Be31RoundTrip(v: nat)
    requires v < 0x8000_0000
    ensures Be31(v) == Be(v, 4) && From31(Be31(v)) == v
  {
    Pow256Values();
    BeRoundTrip(v, 4);
    TopByte(v, 4);
    var b := Be(v, 4);
    assert b[0] < 128;
    assert b == [b[0]] + b[1..];
  }

  /** What is read of a value written into a 31-bit field. */
  lemma Be31Cuts(v: nat)
    ensures From31(Be31(v)) == v % 0x8000_0000
  {
    Pow256Values();
    BeTruncates(v, 4);
    From31Cuts(Be(v, 4));
    var b := Be(v, 4);
    assert ClearTop(ClearTop(b)) == ClearTop(b);
    hide FromBe, Be;
    var q := v / 0x1_0000_0000;
    var low := v % 0x1_0000_0000;
    DivModUnique(v, 0x8000_0000, 2 * q + low / 0x8000_0000, low % 0x8000_0000);
  }

  lemma From31Bound(b: Bytes)
    requires |b| == 4
    ensures From31(b) < 0x8000_0000
  {
    Pow256Values();
    var c := ClearTop(b);
    FromBeRoundTrip(c);
    TopByte(FromBe(c), 4);
  }

  // ---- Frame headers ----

  const HEADER_SIZE: nat := 9

  datatype FrameHeader = FrameHeader(length: nat, kind: byte, flags: byte, streamId: nat)

  function EncodeHeader(h: FrameHeader): (b: Bytes)
    ensures |b| == HEADER_SIZE
  {
    Be(h.length, 3) + [h.kind, h.flags] + Be31(h.streamId)
  }

  function DecodeHeader(d: Bytes): FrameHeader
    requires |d| >= HEADER_SIZE
  {
    FrameHeader(FromBe(d[..3]), d[3], d[4], From31(d[5..9]))
  }

  /** Headers with a 24-bit length and a 31-bit stream survive. */
  lemma HeaderRoundTrip(h: FrameHeader, rest: Bytes)
    requires h.length < 0x100_0000 && h.streamId < 0x8000_0000
    ensures DecodeHeader(EncodeHeader(h) + rest) == h
  {
    hide Be, FromBe, Be31, From31;
    Pow256Values();
    BeRoundTrip(h.length, 3);
    Be31RoundTrip(h.streamId);
    var d := EncodeHeader(h) + rest;
    assert d[..3] == Be(h.length, 3);
    assert d[5..9] == Be31(h.streamId);
  }

  lemma HeaderBounds(d: Bytes)
    requires |d| >= HEADER_SIZE
    ensures DecodeHeader(d).length < 0x100_0000 && DecodeHeader(d).streamId < 0x8000_0000
  {
    hide From31;
    Pow256Values();
    FromBeRoundTrip(d[..3]);
    From31Bound(d[5..9]);
  }

  // ---- Frames ----

  datatype Frame = Frame(kind: byte, flags: byte, streamId: nat, payload: Bytes)

  /** A frame whose length and stream fit their fields. */
  predicate WellSized(f: Frame) {
    |f.payload| < 0x100_0000 && f.streamId < 0x8000_0000
  }

  function HeaderOf(f: Frame): FrameHeader {
    FrameHeader(|f.payload|, f.kind, f.flags, f.streamId)
  }

  function EncodeFrame(f: Frame): (b: Bytes)
    ensures |b| == HEADER_SIZE + |f.payload|
  {
    EncodeHeader(HeaderOf(f)) + f.payload
  }

  function EncodeFrames(fs: seq<Frame>): Bytes {
    if fs == [] then [] else EncodeFrame(fs[0]) + EncodeFrames(fs[1..])
  }

  lemma {:induction false} EncodeFramesAppend(fs: seq<Frame>, f: Frame)
    ensures EncodeFrames(fs + [f]) == EncodeFrames(fs) + EncodeFrame(f)
  {
    hide EncodeFrame;
    if fs == [] {
      assert fs + [f] == [f];
      assert EncodeFrames([f]) == EncodeFrame(f) + EncodeFrames([]);
    } else {
      EncodeFramesAppend(fs[1..], f);
      assert (fs + [f])[1..] == fs[1..] + [f];
    }
  }
}
