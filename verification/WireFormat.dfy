/** The bytes on the wire, one by one: frame headers and SETTINGS (sections 4.1
    and 6.5.1 of RFC 7540), the connection preface (section 3.5) and WebSocket
    frames (sections 5.2, 5.3 and 5.7 of RFC 6455). What the round trips cannot
    tell: that both ends use the standards' own layout. */
module WireFormat {
  import opened Bits
  import opened Frames
  import opened Options
  import opened Settings
  import WebSocket
  import FrameBatch

  // ---- Big-endian fields ----

  lemma DivTwice(v: nat, a: nat, p: nat)
    requires a >= 1 && p >= 1
    ensures a * p >= 1 && v / a / p == v / (a * p)
  {
    var q, r := v / a / p, v / a % p;
    assert v / a == q * p + r;
    calc {
      v;
      (q * p + r) * a + v % a;
      q * (a * p) + (r * a + v % a);
    }
    Below(r, p, a, v % a);
    DivModUnique(v, a * p, q, r * a + v % a);
  }

  lemma Below(r: nat, p: nat, a: nat, rest: nat)
    requires r < p && rest < a
    ensures 0 <= r * a + rest < a * p
  {
    assert r * a <= (p - 1) * a;
    assert (p - 1) * a + a == a * p;
  }

  /** Every byte of a field, most significant first. */
  lemma {:induction false} BeAt(v: nat, n: nat, i: nat)
    requires i < n
    ensures Be(v, n)[i] == v / Pow256(n - 1 - i) % 256
    decreases n
  {
    if i < n - 1 {
      BeAt(v / 256, n - 1, i);
      DivTwice(v, 256, Pow256(n - 2 - i));
    }
  }

  lemma BeFour(v: nat)
    ensures Be(v, 4) == [v / 0x100_0000 % 256, v / 0x1_0000 % 256, v / 256 % 256, v % 256]
  {
    BeAt(v, 4, 0);
    BeAt(v, 4, 1);
    BeAt(v, 4, 2);
    BeAt(v, 4, 3);
    Pow256Values();
    assert Pow256(1) == 256 && Pow256(2) == 0x1_0000 && Pow256(0) == 1;
    hide Be;
  }

  lemma BeThree(v: nat)
    ensures Be(v, 3) == [v / 0x1_0000 % 256, v / 256 % 256, v % 256]
  {
    BeAt(v, 3, 0);
    BeAt(v, 3, 1);
    BeAt(v, 3, 2);
    assert Pow256(1) == 256 && Pow256(2) == 0x1_0000 && Pow256(0) == 1;
    hide Be;
  }

  lemma HalfByte(v: nat)
    ensures v % 256 % 128 == v % 128
  {
  }

  lemma FourBytes(a: byte, b: byte, c: byte, d: byte)
    ensures FromBe([a, b, c, d]) == 0x100_0000 * a + 0x1_0000 * b + 256 * c + d
  {
    ThreeBytes(a, b, c);
    assert [a, b, c, d][..3] == [a, b, c];
  }

  lemma ThreeBytes(a: byte, b: byte, c: byte)
    ensures FromBe([a, b, c]) == 0x1_0000 * a + 256 * b + c
  {
    TwoBytes(a, b);
    assert [a, b, c][..2] == [a, b];
  }

  lemma TwoBytes(a: byte, b: byte)
    ensures FromBe([a, b]) == 256 * a + b
  {
    var one: Bytes := [a];
    assert one[..0] == [] && FromBe(one) == a;
    assert [a, b][..1] == one;
  }

  // ---- Frame headers ----

  /** The nine bytes of every header: length, type, flags, stream. */
  lemma HeaderBytes(h: FrameHeader)
    ensures EncodeHeader(h)
         == [h.length / 0x1_0000 % 256, h.length / 256 % 256, h.length % 256, h.kind, h.flags,
             h.streamId / 0x100_0000 % 128, h.streamId / 0x1_0000 % 256, h.streamId / 256 % 256, h.streamId % 256]
  {
    hide Be;
    BeThree(h.length);
    BeFour(h.streamId);
    HalfByte(h.streamId / 0x100_0000);
  }

  /** And what any nine bytes are read as; the reserved bit is ignored. */
  lemma HeaderReadBytes(d: Bytes)
    requires |d| >= 9
    ensures var h := DecodeHeader(d);
            && h.length == 0x1_0000 * d[0] as int + 256 * d[1] as int + d[2] as int && h.kind == d[3] && h.flags == d[4]
            && h.streamId
               == 0x100_0000 * (d[5] as int % 128) + 0x1_0000 * d[6] as int + 256 * d[7] as int + d[8] as int
  {
    ThreeBytes(d[0], d[1], d[2]);
    FourBytes(d[5] % 128, d[6], d[7], d[8]);
    assert d[..3] == [d[0], d[1], d[2]];
    assert ClearTop(d[5..9]) == [d[5] % 128, d[6], d[7], d[8]];
  }

  lemma PrefaceBytes()
    ensures FrameBatch.Preface()
         == [0x50, 0x52, 0x49, 0x20, 0x2a, 0x20, 0x48, 0x54, 0x54, 0x50, 0x2f, 0x32, 0x2e, 0x30, 0x0d, 0x0a, 0x0d, 0x0a,
             0x53, 0x4d, 0x0d, 0x0a, 0x0d, 0x0a]
  {
  }

  // ---- SETTINGS ----

  /** Settings with one value set, by its identifier in the registry (section
      6.5.2 of RFC 7540, section 3 of RFC 8441); any other changes nothing. */
  function Having(s: Settings, id: nat, v: nat): (t: Settings) {
    Settings(if id == 1 then Some(v) else s.headerTableSize, if id == 2 then Some(v) else s.enablePush,
             if id == 3 then Some(v) else s.maxConcurrentStreams, if id == 4 then Some(v) else s.initialWindowSize,
             if id == 5 then Some(v) else s.maxFrameSize, if id == 6 then Some(v) else s.maxHeaderListSize,
             if id == 8 then Some(v) else s.enableConnectProtocol)
  }

  /** Every six bytes: two of the identifier, four of the value, each with its
      most significant byte first. */
  lemma SettingRead(s: Settings, b: Bytes, rest: Bytes)
    requires |b| == 6
    ensures DecodeFrom(s, b + rest)
         == DecodeFrom(Having(s, 256 * b[0] as int + b[1] as int,
                              0x100_0000 * b[2] as int + 0x1_0000 * b[3] as int + 256 * b[4] as int + b[5] as int),
                       rest)
  {
    TwoBytes(b[0], b[1]);
    FourBytes(b[2], b[3], b[4], b[5]);
    var d := b + rest;
    assert d[..2] == [b[0], b[1]] && d[2..6] == [b[2], b[3], b[4], b[5]] && d[6..] == rest;
    hide FromBe;
  }

  // ---- WebSocket masking ----

  function Bit(x: nat, j: nat): nat {
    x / Pow2(j) % 2
  }

  lemma BitHalf(x: nat, j: nat)
    requires j > 0
    ensures Bit(x, j) == Bit(x / 2, j - 1)
  {
    DivTwice(x, 2, Pow2(j - 1));
  }

  /** Exclusive or, bit by bit: set exactly where the two differ. */
  lemma {:induction false} XorAt(a: nat, b: nat, n: nat, j: nat)
    requires j < n
    ensures Bit(WebSocket.XorBits(a, b, n), j) == if Bit(a, j) != Bit(b, j) then 1 else 0
    decreases n
  {
    WebSocket.XorLow(a, b, n);
    if j > 0 {
      XorAt(a / 2, b / 2, n - 1, j - 1);
      BitHalf(a, j);
      BitHalf(b, j);
      BitHalf(WebSocket.XorBits(a, b, n), j);
    } else {
      assert Pow2(0) == 1;
    }
  }

  /** Byte `i` is masked with byte `i` modulo 4 of the key. */
  lemma MaskedAt(s: Bytes, key: WebSocket.Key, i: nat, j: nat)
    requires i < |s| && j < 8
    ensures Bit(WebSocket.Masked(s, key)[i], j) == if Bit(s[i], j) != Bit(key[i % 4], j) then 1 else 0
  {
    XorAt(s[i], key[i % 4], 8, j);
    hide Bit, WebSocket.XorBits;
  }

  // ---- WebSocket frames ----

  /** The head of a frame: end flag and opcode, mask flag and length, the length
      in 7, 16 or 64 bits, the shortest that holds it. */
  lemma FrameHead(f: WebSocket.WsFrame, m: WebSocket.Mask)
    requires f.opcode < 16
    ensures var len, flag := |f.payload|, if m.MaskedWith? then 128 else 0;
            var head := if len < 126 then [flag + len]
                        else if len < 65536 then [flag + 126, len / 256, len % 256]
                        else [flag + 127] + Be(len, 8);
            var d := WebSocket.FrameBytes(f, m);
            && |d| == 1 + |head| + (if m.MaskedWith? then 4 else 0) + len
            && d[0] == (if f.fin then 128 else 0) + f.opcode && d[1..1 + |head|] == head
            && (m.MaskedWith? ==> d[1 + |head|..5 + |head|] == m.key)
            && (m.Unmasked? ==> d[1 + |head|..] == f.payload)
            && (m.MaskedWith? ==> d[5 + |head|..] == WebSocket.Masked(f.payload, m.key))
  {
    hide Be, WebSocket.Masked;
    if 126 <= |f.payload| < 65536 {
      WebSocket.BeTwo(|f.payload|);
    }
  }

  /** The text "Hello", as one unmasked and as one masked frame. */
  lemma Hello(key: WebSocket.Key)
    requires key == [0x37, 0xfa, 0x21, 0x3d]
    ensures var f := WebSocket.WsFrame(true, 1, [0x48, 0x65, 0x6c, 0x6c, 0x6f]);
            && WebSocket.FrameBytes(f, WebSocket.Unmasked) == [0x81, 0x05, 0x48, 0x65, 0x6c, 0x6c, 0x6f]
            && WebSocket.FrameBytes(f, WebSocket.MaskedWith(key))
               == [0x81, 0x85, 0x37, 0xfa, 0x21, 0x3d, 0x7f, 0x9f, 0x4d, 0x51, 0x58]
  {
    HelloMasked();
    hide WebSocket.Xor;
    var f := WebSocket.WsFrame(true, 1, [0x48, 0x65, 0x6c, 0x6c, 0x6f]);
    assert WebSocket.Masked(f.payload, key) == [0x7f, 0x9f, 0x4d, 0x51, 0x58];
    hide WebSocket.Masked;
  }

  lemma HelloMasked()
    ensures WebSocket.Xor(0x48, 0x37) == 0x7f && WebSocket.Xor(0x65, 0xfa) == 0x9f
    ensures WebSocket.Xor(0x6c, 0x21) == 0x4d && WebSocket.Xor(0x6c, 0x3d) == 0x51
    ensures WebSocket.Xor(0x6f, 0x37) == 0x58
  {
  }
}
