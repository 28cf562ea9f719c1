/** The WebSocket frame codec (sections 5.2 and 5.3 of RFC 6455) over a byte
    stream that delivers its bytes in pieces of any size. */
module WebSocket {
  import opened Bits
  import opened Frames

  // ---- Masking ----

  /** Exclusive or of the `n` low bits. */
  function XorBits(a: nat, b: nat, n: nat): (x: nat)
    ensures x < Pow2(n)
  {
    if n == 0 then 0 else 2 * XorBits(a / 2, b / 2, n - 1) + (if a % 2 != b % 2 then 1 else 0)
  }

  /** The low bit and the others of an exclusive or. */
  lemma XorLow(a: nat, b: nat, n: nat)
    requires n > 0
    ensures XorBits(a, b, n) / 2 == XorBits(a / 2, b / 2, n - 1)
    ensures XorBits(a, b, n) % 2 == if a % 2 != b % 2 then 1 else 0
  {
  }

  lemma {:induction false} XorTwice(a: nat, b: nat, n: nat)
    requires a < Pow2(n)
    ensures XorBits(XorBits(a, b, n), b, n) == a
  {
    if n > 0 {
      var x := XorBits(a, b, n);
      XorTwice(a / 2, b / 2, n - 1);
      XorLow(a, b, n);
      XorLow(x, b, n);
      hide XorBits;
      assert XorBits(x, b, n) / 2 == a / 2 && XorBits(x, b, n) % 2 == a % 2;
    }
  }

  lemma {:induction false} XorZero(a: nat, n: nat)
    requires a < Pow2(n)
    ensures XorBits(a, 0, n) == a
  {
    if n > 0 {
      XorZero(a / 2, n - 1);
    }
  }

  lemma Pow2Of8()
    ensures Pow2(8) == 256
  {
    assert Pow2(4) == 16;
  }

  function Xor(a: byte, b: byte): byte {
    Pow2Of8();
    XorBits(a, b, 8)
  }

  type Key = k: Bytes | |k| == 4 witness [0, 0, 0, 0]

  const ZERO_KEY: Key := [0, 0, 0, 0]

  function Masked(s: Bytes, key: Key): (r: Bytes)
    ensures |r| == |s|
  {
    seq(|s|, i requires 0 <= i < |s| => Xor(s[i], key[i % 4]))
  }

  /** Unmasking undoes masking, for every key. */
  lemma MaskedTwice(s: Bytes, key: Key)
    ensures Masked(Masked(s, key), key) == s
  {
    Pow2Of8();
    forall i | 0 <= i < |s| ensures Masked(Masked(s, key), key)[i] == s[i] {
      XorTwice(s[i], key[i % 4], 8);
    }
  }

  lemma MaskedZero(s: Bytes)
    ensures Masked(s, ZERO_KEY) == s
  {
    Pow2Of8();
    forall i | 0 <= i < |s| ensures Masked(s, ZERO_KEY)[i] == s[i] {
      XorZero(s[i], 8);
    }
  }

  method UnmaskPayload(payload: array<byte>, key: Key)
    modifies payload
    ensures payload[..] == Masked(old(payload[..]), key)
  {
    hide XorBits;
    for i := 0 to payload.Length
      invariant forall k :: 0 <= k < i ==> payload[k] == Xor(old(payload[k]), key[k % 4])
      invariant forall k :: i <= k < payload.Length ==> payload[k] == old(payload[k])
    {
      payload[i] := Xor(payload[i], key[i % 4]);
    }
  }

  // ---- Frames ----

  datatype WsFrame = WsFrame(fin: bool, opcode: nat, payload: Bytes)

  const BINARY: nat := 2
  const NO_FRAME := WsFrame(true, BINARY, [])
  const MAX_PAYLOAD: nat := 1024 * 1024

  datatype Mask = Unmasked | MaskedWith(key: Key)

  /** The length in its shortest form: seven bits, or a code for what follows. */
  function LengthCode(len: nat): (c: nat)
    ensures c < 128
  {
    if len < 126 then len else if len <= 0xFFFF then 126 else 127
  }

  function Extended(len: nat): Bytes {
    if len < 126 then [] else if len <= 0xFFFF then Be(len, 2) else Be(len, 8)
  }

  predicate Fits64(len: nat) {
    len < 0x1_0000_0000_0000_0000
  }

  /** The two header bytes: end of message and opcode, mask bit and length. */
  function Byte0(f: WsFrame): (b: byte)
    requires f.opcode < 16
    ensures (b >= 0x80) == f.fin && b % 16 == f.opcode
  {
    (if f.fin then 0x80 else 0) + f.opcode
  }

  function Byte1(len: nat, m: Mask): (b: byte)
    ensures (b >= 0x80) == m.MaskedWith? && b % 128 == LengthCode(len)
  {
    (if m.MaskedWith? then 0x80 else 0) + LengthCode(len)
  }

  function KeyBytes(m: Mask): Bytes {
    if m.Unmasked? then [] else m.key
  }

  /** The payload as it travels. */
  function Apply(m: Mask, s: Bytes): (r: Bytes)
    ensures |r| == |s|
  {
    if m.Unmasked? then s else Masked(s, m.key)
  }

  function FrameBytes(f: WsFrame, m: Mask): Bytes
    requires f.opcode < 16
  {
    [Byte0(f), Byte1(|f.payload|, m)] + (Extended(|f.payload|) + (KeyBytes(m) + Apply(m, f.payload)))
  }

  datatype Read<T> = Read(value: T, rest: Bytes)

  /** `n` bytes, or nothing and the end of the stream. */
  function Take(d: Bytes, n: nat): Read<Bytes> {
    if n <= |d| then Read(d[..n], d[n..]) else Read([], [])
  }

  /** The length after the second header byte; nothing if it is cut off. */
  datatype Length = CutOff | Known(n: nat)

  function ReadLength(len7: nat, d: Bytes): Read<Length> {
    if len7 < 126 then Read(Known(len7), d) else
      var n := if len7 == 126 then 2 else 8;
      var ext := Take(d, n);
      Read(if |ext.value| < n then CutOff else Known(FromBe(ext.value)), ext.rest)
  }

  /** The payload of an announced length, unmasked. */
  function ReadPayload(f: WsFrame, len: nat, masked: bool, d: Bytes): Read<WsFrame> {
    var key := if masked then Take(d, 4) else Read(ZERO_KEY, d);
    if |key.value| < 4 then Read(f, key.rest)
    else if len > MAX_PAYLOAD || len == 0 then Read(f, key.rest)
    else
      var p := Take(key.rest, len);
      if |p.value| < len then Read(NO_FRAME, p.rest)
      else Read(f.(payload := if masked then Masked(p.value, key.value) else p.value), p.rest)
  }

  /** A frame whose header bytes are `b0` and `b1`. */
  function ReadRest(b0: byte, b1: byte, d: Bytes): Read<WsFrame> {
    var f := WsFrame(b0 >= 0x80, b0 % 16, []);
    var len := ReadLength(b1 % 128, d);
    if len.value.CutOff? then Read(f, len.rest)
    else ReadPayload(f, len.value.n, b1 >= 0x80, len.rest)
  }

  /** One frame from the front of `d`. */
  function ReadOne(d: Bytes): Read<WsFrame> {
    var h := Take(d, 2);
    if |h.value| < 2 then Read(NO_FRAME, h.rest) else ReadRest(h.value[0], h.value[1], h.rest)
  }

  // ---- Round trip ----

  lemma TakePrefix(b: Bytes, rest: Bytes)
    ensures Take(b + rest, |b|) == Read(b, rest)
  {
  }

  lemma Fits64Pow(len: nat)
    ensures Fits64(len) <==> len < Pow256(8)
  {
    Pow256Values();
    assert Pow256(5) == 0x100_0000_0000 && Pow256(6) == 0x1_0000_0000_0000;
    assert Pow256(7) == 0x100_0000_0000_0000;
  }

  lemma LengthRoundTrip(len: nat, rest: Bytes)
    requires Fits64(len)
    ensures ReadLength(LengthCode(len), Extended(len) + rest) == Read(Known(len), rest)
  {
    Fits64Pow(len);
    Pow256Values();
    hide Be, FromBe, Pow256, Take, Fits64;
    if len < 126 {
      assert Extended(len) + rest == rest;
    } else {
      var n := if len <= 0xFFFF then 2 else 8;
      BeRoundTrip(len, n);
      TakePrefix(Be(len, n), rest);
    }
  }

  lemma PayloadRoundTrip(f: WsFrame, m: Mask, rest: Bytes)
    requires |f.payload| <= MAX_PAYLOAD
    ensures ReadPayload(f.(payload := []), |f.payload|, m.MaskedWith?, KeyBytes(m) + (Apply(m, f.payload) + rest))
         == Read(f, rest)
  {
    TakePrefix(Apply(m, f.payload), rest);
    if m.MaskedWith? {
      TakePrefix(m.key, Apply(m, f.payload) + rest);
      MaskedTwice(f.payload, m.key);
    } else {
      assert KeyBytes(m) + (Apply(m, f.payload) + rest) == Apply(m, f.payload) + rest;
    }
    hide Take, Masked;
  }

  /** A frame comes apart into its header and what follows. */
  lemma HeaderRead(f: WsFrame, m: Mask, rest: Bytes)
    requires f.opcode < 16 && Fits64(|f.payload|)
    ensures ReadOne(FrameBytes(f, m) + rest)
         == ReadPayload(f.(payload := []), |f.payload|, m.MaskedWith?, KeyBytes(m) + (Apply(m, f.payload) + rest))
  {
    hide ReadPayload, ReadLength, Apply, Extended, KeyBytes, Take, Byte0, Byte1, LengthCode, Fits64;
    var tail := KeyBytes(m) + (Apply(m, f.payload) + rest);
    var head := [Byte0(f), Byte1(|f.payload|, m)];
    FrameParts(head, Extended(|f.payload|), KeyBytes(m), Apply(m, f.payload), rest);
    hide FrameBytes;
    TakePrefix(head, Extended(|f.payload|) + tail);
    LengthRoundTrip(|f.payload|, tail);
  }

  lemma FrameParts(a: Bytes, b: Bytes, c: Bytes, d: Bytes, rest: Bytes)
    ensures a + (b + (c + d)) + rest == a + (b + (c + (d + rest)))
  {
    assert a + (b + (c + d)) + rest == a + ((b + (c + d)) + rest);
    assert (b + (c + d)) + rest == b + ((c + d) + rest);
    assert (c + d) + rest == c + (d + rest);
  }

  /** A frame is read back, byte for byte, exactly when its payload is at most
      a mebibyte. */
  lemma FrameRoundTrip(f: WsFrame, m: Mask, rest: Bytes)
    requires f.opcode < 16 && Fits64(|f.payload|)
    ensures ReadOne(FrameBytes(f, m) + rest) == Read(f, rest) <==> |f.payload| <= MAX_PAYLOAD
  {
    hide ReadOne, FrameBytes, Masked;
    HeaderRead(f, m, rest);
    if |f.payload| <= MAX_PAYLOAD {
      PayloadRoundTrip(f, m, rest);
    }
  }

  lemma TakeCut(d: Bytes, n: nat)
    requires |d| < n
    ensures Take(d, n) == Read([], [])
  {
  }

  /** The bytes in front of the payload. */
  function HeadSize(f: WsFrame, m: Mask): nat {
    2 + |Extended(|f.payload|)| + |KeyBytes(m)|
  }

  lemma CutPayload(f: WsFrame, m: Mask, d: Bytes)
    requires |f.payload| <= MAX_PAYLOAD && |d| < |KeyBytes(m)| + |f.payload|
    ensures ReadPayload(f.(payload := []), |f.payload|, m.MaskedWith?, d)
         == if |d| < |KeyBytes(m)| then Read(f.(payload := []), []) else Read(NO_FRAME, [])
  {
    hide Masked;
    if m.Unmasked? {
      TakeCut(d, |f.payload|);
    } else if |d| < 4 {
      TakeCut(d, 4);
    } else {
      TakeCut(d[4..], |f.payload|);
    }
  }

  lemma CutHead(f: WsFrame, m: Mask, d: Bytes)
    requires f.opcode < 16 && 126 <= |f.payload| && |d| < |Extended(|f.payload|)|
    ensures ReadRest(Byte0(f), Byte1(|f.payload|, m), d) == Read(f.(payload := []), [])
  {
    hide ReadPayload, Be, FromBe;
    TakeCut(d, |Extended(|f.payload|)|);
  }

  /** A frame cut off by the end of the stream, for every place of the cut: no
      payload, and nothing is left. It is the empty binary frame that stands for
      the end, unless the cut is inside the length or the key. */
  lemma CutFrame(f: WsFrame, m: Mask, k: nat)
    requires f.opcode < 16 && |f.payload| <= MAX_PAYLOAD && k < |FrameBytes(f, m)|
    ensures ReadOne(FrameBytes(f, m)[..k])
         == Read(if 2 <= k < HeadSize(f, m) then f.(payload := []) else WsFrame(true, 2, []), [])
  {
    var ext, rest := Extended(|f.payload|), KeyBytes(m) + Apply(m, f.payload);
    var d := FrameBytes(f, m)[..k];
    hide ReadRest, ReadPayload, Be, FromBe, Apply, FrameBytes;
    if k < 2 {
      TakeCut(d, 2);
    } else {
      CutAfterHeader(f, m, k);
      TakePrefix([Byte0(f), Byte1(|f.payload|, m)], (ext + rest)[..k - 2]);
      if k - 2 < |ext| {
        CutHead(f, m, (ext + rest)[..k - 2]);
      } else {
        CutBehindLength(f, m, rest[..k - 2 - |ext|]);
        assert (ext + rest)[..k - 2] == ext + rest[..k - 2 - |ext|];
        CutPayload(f, m, rest[..k - 2 - |ext|]);
      }
    }
  }

  lemma CutAfterHeader(f: WsFrame, m: Mask, k: nat)
    requires f.opcode < 16 && 2 <= k <= |FrameBytes(f, m)|
    ensures |FrameBytes(f, m)| == 2 + |Extended(|f.payload|)| + |KeyBytes(m)| + |f.payload|
    ensures FrameBytes(f, m)[..k] == [Byte0(f), Byte1(|f.payload|, m)]
                                     + (Extended(|f.payload|) + (KeyBytes(m) + Apply(m, f.payload)))[..k - 2]
  {
    hide Extended, KeyBytes, Apply, Byte0, Byte1;
  }

  lemma CutBehindLength(f: WsFrame, m: Mask, d: Bytes)
    requires f.opcode < 16 && |f.payload| <= MAX_PAYLOAD
    ensures ReadRest(Byte0(f), Byte1(|f.payload|, m), Extended(|f.payload|) + d)
         == ReadPayload(f.(payload := []), |f.payload|, m.MaskedWith?, d)
  {
    hide ReadPayload, ReadLength, Extended, LengthCode;
    assert Fits64(|f.payload|);
    LengthRoundTrip(|f.payload|, d);
  }

  datatype Sent = Sent(frame: WsFrame, mask: Mask)

  predicate Readable(s: Sent) {
    s.frame.opcode < 16 && |s.frame.payload| <= MAX_PAYLOAD
  }

  function StreamBytes(sent: seq<Sent>): Bytes
    requires forall i :: 0 <= i < |sent| ==> Readable(sent[i])
  {
    if sent == [] then [] else
      assert Readable(sent[0]);
      FrameBytes(sent[0].frame, sent[0].mask) + StreamBytes(sent[1..])
  }

  function FramesOf(sent: seq<Sent>): seq<WsFrame> {
    seq(|sent|, i requires 0 <= i < |sent| => sent[i].frame)
  }

  /** `n` frames one after the other. */
  function ReadMany(d: Bytes, n: nat): Read<seq<WsFrame>>
    decreases n
  {
    if n == 0 then Read([], d) else
      var first := ReadOne(d);
      var others := ReadMany(first.rest, n - 1);
      Read([first.value] + others.value, others.rest)
  }

  /** Any sequence of frames, masked or not, is read back in order with
      exactly its bytes consumed. */
  lemma {:induction false} StreamRoundTrip(sent: seq<Sent>, rest: Bytes)
    requires forall i :: 0 <= i < |sent| ==> Readable(sent[i])
    ensures ReadMany(StreamBytes(sent) + rest, |sent|) == Read(FramesOf(sent), rest)
    decreases |sent|
  {
    hide ReadOne, FrameBytes;
    if sent == [] {
      assert StreamBytes(sent) + rest == rest;
    } else {
      assert Readable(sent[0]);
      var tail := StreamBytes(sent[1..]) + rest;
      assert StreamBytes(sent) + rest == FrameBytes(sent[0].frame, sent[0].mask) + tail;
      FrameRoundTrip(sent[0].frame, sent[0].mask, tail);
      StreamRoundTrip(sent[1..], rest);
      assert FramesOf(sent) == [sent[0].frame] + FramesOf(sent[1..]);
    }
  }

  // ---- The reader and the writer ----

  class Stream {
    /** What the peer sent and is yet to be read; what was written to it. */
    var incoming: Bytes
    var written: Bytes

    constructor (d: Bytes)
      ensures incoming == d && written == []
    {
      incoming, written := d, [];
    }

    /** At least one byte and at most `max`, as many as happen to be there. */
    method ReadSome(buf: array<byte>, at: nat, max: nat) returns (ok: bool, n: nat)
      requires at + max <= buf.Length && max > 0
      modifies `incoming, buf
      ensures ok == (old(incoming) != [])
      ensures ok ==> 1 <= n <= max && n <= |old(incoming)| && incoming == old(incoming)[n..]
      ensures ok ==> buf[..at + n] == old(buf[..at]) + old(incoming)[..n]
      ensures !ok ==> incoming == []
    {
      if incoming == [] {
        return false, 0;
      }
      n :| 1 <= n <= max && n <= |incoming|;
      forall i | 0 <= i < n {
        buf[at + i] := incoming[i];
      }
      incoming := incoming[n..];
      ok := true;
    }

    /** All `n` bytes, however they arrive, or an empty buffer at the end. */
    method ReadExactly(n: nat) returns (buf: array<byte>)
      modifies `incoming
      ensures fresh(buf)
      ensures Read(buf[..], incoming) == Take(old(incoming), n)
    {
      buf := new byte[n];
      var total := 0;
      while total < n
        invariant total <= n && buf.Length == n && fresh(buf)
        invariant total <= |old(incoming)| && buf[..total] == old(incoming)[..total]
        invariant incoming == old(incoming)[total..]
        decreases n - total
      {
        var ok, bytes := ReadSome(buf, total, n - total);
        if !ok {
          assert |old(incoming)| == total;
          buf := new byte[0];
          assert buf[..] == [];
          return;
        }
        assert old(incoming)[..total] + old(incoming)[total..][..bytes] == old(incoming)[..total + bytes];
        total := total + bytes;
      }
      assert buf[..] == buf[..n];
    }

    /** The extended length, one byte after the other. */
    method ReadExtended(len7: nat) returns (len: Length)
      requires len7 < 128
      modifies `incoming
      ensures Read(len, incoming) == ReadLength(len7, old(incoming))
    {
      if len7 < 126 {
        return Known(len7);
      }
      var n := if len7 == 126 then 2 else 8;
      var ext := ReadExactly(n);
      if ext.Length < n {
        return CutOff;
      }
      var v := 0;
      for i := 0 to n
        invariant v == FromBe(ext[..i])
      {
        assert ext[..i + 1][..i] == ext[..i];
        v := 256 * v + (ext[i] as int);
      }
      assert ext[..n] == ext[..];
      return Known(v);
    }

    method ReadFrame() returns (frame: WsFrame)
      modifies `incoming
      ensures Read(frame, incoming) == ReadOne(old(incoming))
    {
      hide ReadLength, ReadPayload;
      var h := ReadExactly(2);
      if h.Length < 2 {
        return NO_FRAME;
      }
      assert h[..][0] == h[0] && h[..][1] == h[1];
      frame := WsFrame(h[0] >= 0x80, h[0] % 16, []);
      var len := ReadExtended(h[1] % 128);
      if len.CutOff? {
        return;
      }
      frame := ReadBody(frame, len.n, h[1] >= 0x80);
    }

    method ReadBody(frame0: WsFrame, len: nat, masked: bool) returns (frame: WsFrame)
      modifies `incoming
      ensures Read(frame, incoming) == ReadPayload(frame0, len, masked, old(incoming))
    {
      hide Masked;
      frame := frame0;
      var key: Key := ZERO_KEY;
      if masked {
        var mk := ReadExactly(4);
        if mk.Length < 4 {
          return;
        }
        key := mk[..];
      }
      if len > MAX_PAYLOAD {
        return;
      }
      if len > 0 {
        var payload := ReadExactly(len);
        if payload.Length < len {
          return NO_FRAME;
        }
        if masked {
          UnmaskPayload(payload, key);
        }
        frame := frame.(payload := payload[..]);
      }
    }

    /** Header, length, and with `mask` a key of zeros, then the payload. */
    method WriteFrame(opcode: nat, payload: Bytes, fin: bool, mask: bool)
      requires opcode < 16 && Fits64(|payload|)
      modifies `written
      ensures written == old(written)
                         + FrameBytes(WsFrame(fin, opcode, payload), if mask then MaskedWith(ZERO_KEY) else Unmasked)
    {
      hide Masked, Extended, Fits64;
      ghost var m := if mask then MaskedWith(ZERO_KEY) else Unmasked;
      var header: Bytes := [(if fin then 0x80 else 0) + opcode];
      var length := WriteLength(if mask then 0x80 else 0, |payload|);
      header := header + length;
      var key, body := [], payload;
      if mask {
        key := ZERO_KEY;
        var buf := new byte[|payload|](i requires 0 <= i < |payload| => payload[i]);
        assert buf[..] == payload;
        UnmaskPayload(buf, ZERO_KEY);
        body := buf[..];
      }
      assert header + key + body == [header[0], length[0]] + (Extended(|payload|) + (key + body));
      header := header + key + body;
      written := written + header;
    }
  }

  method WriteLength(maskBit: byte, len: nat) returns (b: Bytes)
    requires maskBit in {0, 0x80} && Fits64(len)
    ensures b == [maskBit + LengthCode(len)] + Extended(len)
  {
    hide Be;
    if len < 126 {
      return [maskBit + len];
    }
    if len <= 0xFFFF {
      BeTwo(len);
      return [maskBit + 126] + [len / 256 % 256] + [len % 256];
    }
    var long := WriteLong(len);
    return [maskBit + 127] + long;
  }

  /** Eight bytes, the most significant first. */
  method WriteLong(len: nat) returns (b: Bytes)
    requires Fits64(len)
    ensures b == Be(len, 8)
  {
    Fits64Pow(len);
    b := [];
    var i := 8;
    DivSmall(len, Pow256(8));
    assert Be(0, 0) == [];
    assert len / Pow256(0) == len;
    hide Be, Pow256;
    while i > 0
      invariant 0 <= i <= 8 && b == Be(len / Pow256(i), 8 - i)
    {
      i := i - 1;
      ShiftByte(len, i);
      BeStep(len / Pow256(i), 8 - i);
      b := b + [len / Pow256(i) % 256];
    }
  }

  lemma BeStep(v: nat, n: nat)
    requires n > 0
    ensures Be(v, n) == Be(v / 256, n - 1) + [v % 256]
  {
  }

  lemma BeTwo(v: nat)
    ensures Be(v, 2) == [v / 256 % 256, v % 256]
  {
    assert Be(v / 256, 1) == Be(v / 256 / 256, 0) + [v / 256 % 256];
  }

  lemma DivSmall(v: nat, p: nat)
    requires v < p
    ensures v / p == 0
  {
    DivModUnique(v, p, 0, v);
  }

  /** Dropping `i + 1` bytes is dropping one more than `i`. */
  lemma ShiftByte(v: nat, i: nat)
    ensures v / Pow256(i) / 256 == v / Pow256(i + 1)
  {
    var p, q := Pow256(i), v / Pow256(i);
    assert v == (q / 256 * 256 + q % 256) * p + v % p;
    MulParts(q / 256, q % 256, p);
    MulAtMost(q % 256, 255, p);
    DivModUnique(v, 256 * p, q / 256, q % 256 * p + v % p);
  }

  lemma MulParts(a: nat, b: nat, p: nat)
    ensures (a * 256 + b) * p == a * (256 * p) + b * p
  {
  }

  lemma MulAtMost(a: nat, b: nat, p: nat)
    requires a <= b
    ensures a * p <= b * p
  {
  }
}
