/** The bit-window Huffman decoder, exact against "the code bits of a text
    followed by fewer than eight one-bits" (section 5.2 of RFC 7541). */
module HuffmanDecoder {
  import opened Bits
  import opened Huffman

  /** One length per byte value, usable for canonical coding. */
  predicate ByteCode(lens: seq<nat>) {
    |lens| == 256 && ValidLengths(lens)
  }

  /** The concatenated code bits of a text. */
  function EncodeBits(lens: seq<nat>, s: Bytes): seq<bool>
    requires ByteCode(lens)
  {
    if s == [] then [] else CodeBits(lens, s[0]) + EncodeBits(lens, s[1..])
  }

  lemma {:induction false} EncodeBitsAppend(lens: seq<nat>, s: Bytes, sym: byte)
    requires ByteCode(lens)
    ensures EncodeBits(lens, s + [sym]) == EncodeBits(lens, s) + CodeBits(lens, sym)
  {
    hide CodeBits, ValidLengths;
    if s == [] {
      assert s + [sym] == [sym];
      assert EncodeBits(lens, [sym]) == CodeBits(lens, sym) + EncodeBits(lens, []);
    } else {
      EncodeBitsAppend(lens, s[1..], sym);
      var t := s + [sym];
      assert t[0] == s[0] && t[1..] == s[1..] + [sym];
      assert EncodeBits(lens, t) == CodeBits(lens, s[0]) + EncodeBits(lens, t[1..]);
    }
  }

  /** `data` is the Huffman encoding of `s`: its code bits, padded to a byte
      boundary with fewer than eight one-bits. */
  predicate Encodes(lens: seq<nat>, s: Bytes, data: Bytes)
    requires ByteCode(lens)
  {
    var e := EncodeBits(lens, s);
    |e| <= 8 * |data| < |e| + 8 && BytesBits(data) == e + Ones(8 * |data| - |e|)
  }

  /** No symbol's code begins the bit string `bs`. */
  predicate Stuck(lens: seq<nat>, bs: seq<bool>)
    requires ByteCode(lens)
  {
    forall sym: byte :: !(CodeBits(lens, sym) <= bs)
  }

  lemma OnesHaveNoCode(lens: seq<nat>, sym: byte, n: nat)
    requires ByteCode(lens)
    ensures !(CodeBits(lens, sym) <= Ones(n))
  {
    var bs := CodeBits(lens, sym);
    if bs <= Ones(n) {
      assert bs == Ones(|bs|);
      OnesVal(|bs|);
      CodeFits(lens, sym);
      assert false;
    }
  }

  lemma SameHead(lens: seq<nat>, a: byte, b: byte, x: seq<bool>, y: seq<bool>)
    requires ByteCode(lens)
    requires CodeBits(lens, a) + x == CodeBits(lens, b) + y
    ensures a == b && x == y
  {
    var p, q := CodeBits(lens, a), CodeBits(lens, b);
    assert p == (p + x)[..|p|] && q == (q + y)[..|q|];
    if |p| <= |q| {
      assert p == q[..|p|];
      PrefixFree(lens, a, b);
    } else {
      assert q == p[..|q|];
      PrefixFree(lens, b, a);
    }
    assert x == (p + x)[|p|..] && y == (q + y)[|q|..];
  }

  /** Reading codes greedily is the only way to read them: once no code
      matches, the codes read so far and the rest are determined. */
  lemma {:induction false} ParseUnique(lens: seq<nat>, a: Bytes, x: seq<bool>, b: Bytes, pad: nat)
    requires ByteCode(lens)
    requires EncodeBits(lens, a) + x == EncodeBits(lens, b) + Ones(pad)
    requires Stuck(lens, x)
    ensures a == b && x == Ones(pad)
  {
    hide CodeBits, ValidLengths, Ones;
    if b != [] {
      assert CodeBits(lens, b[0]) <= EncodeBits(lens, b) + Ones(pad);
    }
    assert [] + x == x;
    if b == [] {
      assert EncodeBits(lens, b) + Ones(pad) == Ones(pad);
      if a != [] {
        assert CodeBits(lens, a[0]) <= EncodeBits(lens, a) + x;
        OnesHaveNoCode(lens, a[0], pad);
        assert false;
      }
      assert EncodeBits(lens, a) + x == x;
    } else if a == [] {
      assert false;
    } else {
      var ra, rb := EncodeBits(lens, a[1..]) + x, EncodeBits(lens, b[1..]) + Ones(pad);
      assert EncodeBits(lens, a) + x == CodeBits(lens, a[0]) + ra;
      assert EncodeBits(lens, b) + Ones(pad) == CodeBits(lens, b[0]) + rb;
      SameHead(lens, a[0], b[0], ra, rb);
      ParseUnique(lens, a[1..], x, b[1..], pad);
      assert a == [a[0]] + a[1..] && b == [b[0]] + b[1..];
    }
  }

  /** A byte string encodes at most one text. */
  lemma EncodesUnique(lens: seq<nat>, s: Bytes, t: Bytes, data: Bytes)
    requires ByteCode(lens) && Encodes(lens, s, data) && Encodes(lens, t, data)
    ensures s == t
  {
    var pad := 8 * |data| - |EncodeBits(lens, s)|;
    forall sym: byte ensures !(CodeBits(lens, sym) <= Ones(pad)) {
      OnesHaveNoCode(lens, sym, pad);
    }
    ParseUnique(lens, s, Ones(pad), t, 8 * |data| - |EncodeBits(lens, t)|);
  }

  /** The result of decoding: the encoded text, or nothing when `data`
      encodes no text. */
  ghost predicate DecodesTo(lens: seq<nat>, data: Bytes, result: Bytes)
    requires ByteCode(lens)
  {
    && (result != [] ==> Encodes(lens, result, data))
    && (forall s :: Encodes(lens, s, data) ==> result == s)
  }

  lemma BytesBitsNext(data: Bytes, pos: nat)
    requires pos < |data|
    ensures BytesBits(data[pos..]) == ByteBits(data[pos]) + BytesBits(data[pos + 1..])
  {
    assert data[pos..][1..] == data[pos + 1..];
  }

  /** The bits not yet decoded: the window, then the unread bytes. */
  function Unread(data: Bytes, pos: nat, buf: nat, bits: nat): (rest: seq<bool>)
    requires pos <= |data|
    ensures |rest| == bits + 8 * (|data| - pos)
  {
    Window(buf, bits) + BytesBits(data[pos..])
  }

  lemma UnreadRefill(data: Bytes, pos: nat, buf: nat, bits: nat)
    requires pos < |data| && bits <= 32
    ensures Unread(data, pos + 1, ShiftByteIn(buf, data[pos]), bits + 8) == Unread(data, pos, buf, bits)
  {
    hide Window, BytesBits, ShiftByteIn;
    WindowGrows(buf, bits, data[pos]);
    BytesBitsNext(data, pos);
  }

  /** The decoder's state: what it has read and what it has not make up the input. */
  ghost predicate Reading(lens: seq<nat>, data: Bytes, pos: nat, buf: nat, bits: nat, result: Bytes)
    requires ByteCode(lens)
  {
    && pos <= |data| && bits <= 40
    && BytesBits(data) == EncodeBits(lens, result) + Unread(data, pos, buf, bits)
  }

  lemma ReadingStart(lens: seq<nat>, data: Bytes)
    requires ByteCode(lens)
    ensures Reading(lens, data, 0, 0, 0, [])
  {
    assert data[0..] == data;
  }

  lemma ReadingRefill(lens: seq<nat>, data: Bytes, pos: nat, buf: nat, bits: nat, result: Bytes)
    requires ByteCode(lens) && Reading(lens, data, pos, buf, bits, result)
    requires pos < |data| && bits <= 32
    ensures Reading(lens, data, pos + 1, ShiftByteIn(buf, data[pos]), bits + 8, result)
  {
    hide Unread, ShiftByteIn, EncodeBits, ByteCode;
    UnreadRefill(data, pos, buf, bits);
  }

  /** The refill loop: afterwards the window shows more than 32 bits, or
      all the input that is left. */
  method Refill(ghost lens: seq<nat>, data: Bytes, pos0: nat, buf0: nat, bits0: nat, ghost result: Bytes)
    returns (pos: nat, buf: nat, bits: nat)
    requires ByteCode(lens) && Reading(lens, data, pos0, buf0, bits0, result)
    ensures Reading(lens, data, pos, buf, bits, result)
    ensures pos <= |data| && bits <= 40 && (pos == |data| || bits > 32)
    ensures bits + 8 * (|data| - pos) == bits0 + 8 * (|data| - pos0)
  {
    hide ByteCode, ShiftByteIn, EncodeBits, Unread;
    pos, buf, bits := pos0, buf0, bits0;
    while bits <= 32 && pos < |data|
      invariant pos <= |data| && bits <= 40
      invariant Reading(lens, data, pos, buf, bits, result)
      invariant bits + 8 * (|data| - pos) == bits0 + 8 * (|data| - pos0)
      decreases |data| - pos
    {
      ReadingRefill(lens, data, pos, buf, bits, result);
      pos, buf, bits := pos + 1, ShiftByteIn(buf, data[pos]), bits + 8;
    }
  }

  lemma PeekMatches(lens: seq<nat>, sym: byte, buf: nat, bits: nat)
    requires ByteCode(lens) && lens[sym] <= bits
    ensures (buf / Pow2(bits - lens[sym])) % Pow2(lens[sym]) == Code(lens, sym)
       <==> CodeBits(lens, sym) <= Window(buf, bits)
  {
    hide Window, CodeBits, Code, Pow2;
    WindowSplits(buf, bits, lens[sym]);
    var head, c := Window(buf, bits)[..lens[sym]], CodeBits(lens, sym);
    assert c <= Window(buf, bits) <==> c == head;
    if Val(head) == Code(lens, sym) {
      ValInjective(head, c);
    }
  }

  /** The linear scan over all symbols; 256 stands for "no symbol matched". */
  method MatchSymbol(table: seq<HuffmanEntry>, ghost lens: seq<nat>, buf: nat, bits: nat) returns (sym: nat)
    requires ByteCode(lens) && IsTableOf(table, lens)
    ensures sym < 256 ==> CodeBits(lens, sym) <= Window(buf, bits)
    ensures sym >= 256 ==> Stuck(lens, Window(buf, bits))
  {
    hide Window, CodeBits, Code, Pow2, ValidLengths;
    sym := 0;
    while sym < 256
      invariant sym <= 256
      invariant forall k :: 0 <= k < sym ==> !(CodeBits(lens, k) <= Window(buf, bits))
    {
      var len := table[sym].len;
      if len <= bits {
        PeekMatches(lens, sym, buf, bits);
        if (buf / Pow2(bits - len)) % Pow2(len) == table[sym].code {
          return;
        }
      }
      sym := sym + 1;
    }
  }

  lemma SymbolLength(lens: seq<nat>, sym: byte)
    requires ByteCode(lens)
    ensures |CodeBits(lens, sym)| == lens[sym] >= 1
  {
  }

  lemma TakeSymbol(lens: seq<nat>, s: Bytes, sym: byte, data: Bytes, pos: nat, buf: nat, bits: nat)
    requires ByteCode(lens) && pos <= |data| && CodeBits(lens, sym) <= Window(buf, bits)
    ensures EncodeBits(lens, s) + Unread(data, pos, buf, bits)
         == EncodeBits(lens, s + [sym]) + Unread(data, pos, buf, bits - lens[sym])
  {
    hide Window, CodeBits, EncodeBits, ValidLengths, BytesBits;
    WindowSplits(buf, bits, lens[sym]);
    EncodeBitsAppend(lens, s, sym);
    var w, c := Window(buf, bits), CodeBits(lens, sym);
    assert w == c + w[|c|..];
  }

  lemma ReadingTake(lens: seq<nat>, data: Bytes, pos: nat, buf: nat, bits: nat, result: Bytes, sym: byte)
    requires ByteCode(lens) && Reading(lens, data, pos, buf, bits, result)
    requires CodeBits(lens, sym) <= Window(buf, bits)
    ensures 1 <= lens[sym] <= bits
    ensures Reading(lens, data, pos, buf, bits - lens[sym], result + [sym])
  {
    hide Unread, EncodeBits, CodeBits, Window, ValidLengths;
    SymbolLength(lens, sym);
    TakeSymbol(lens, result, sym, data, pos, buf, bits);
  }

  /** When nothing matches, a window of more than 32 bits is as good as the
      whole rest of the input. */
  lemma StuckWindow(lens: seq<nat>, data: Bytes, pos: nat, buf: nat, bits: nat)
    requires ByteCode(lens) && pos <= |data| && (pos == |data| || bits > 32)
    requires Stuck(lens, Window(buf, bits))
    ensures Stuck(lens, Unread(data, pos, buf, bits))
  {
    hide Window, CodeBits;
    forall sym: byte ensures !(CodeBits(lens, sym) <= Unread(data, pos, buf, bits)) {
      var c := CodeBits(lens, sym);
      if c <= Unread(data, pos, buf, bits) {
        assert false;
      }
    }
  }

  /** What the stopped decoder knows about any text that `data` encodes. */
  lemma StoppedAt(lens: seq<nat>, data: Bytes, result: Bytes, rest: seq<bool>)
    requires ByteCode(lens) && Stuck(lens, rest)
    requires BytesBits(data) == EncodeBits(lens, result) + rest
    ensures forall s :: Encodes(lens, s, data) ==> result == s && |rest| < 8 && rest == Ones(|rest|)
    ensures |rest| < 8 && rest == Ones(|rest|) ==> Encodes(lens, result, data)
  {
    hide CodeBits, EncodeBits, ValidLengths, BytesBits, Stuck;
    forall s | Encodes(lens, s, data)
      ensures result == s && |rest| < 8 && rest == Ones(|rest|)
    {
      ParseUnique(lens, result, rest, s, 8 * |data| - |EncodeBits(lens, s)|);
    }
  }

  /** Decoding succeeds exactly on the encodings, and gives the text back. */
  method HuffmanDecode(table: seq<HuffmanEntry>, ghost lens: seq<nat>, data: Bytes) returns (result: Bytes)
    requires ByteCode(lens) && IsTableOf(table, lens)
    ensures DecodesTo(lens, data, result)
  {
    hide Reading, CodeBits, ValidLengths, Stuck, Window, DecodesTo;
    result := [];
    var pos: nat, buf: nat, bits: nat := 0, 0, 0;
    ReadingStart(lens, data);
    while true
      invariant pos <= |data| && Reading(lens, data, pos, buf, bits, result)
      decreases bits + 8 * (|data| - pos)
    {
      pos, buf, bits := Refill(lens, data, pos, buf, bits, result);
      var sym := MatchSymbol(table, lens, buf, bits);
      if sym < 256 {
        ReadingTake(lens, data, pos, buf, bits, result, sym);
        result, bits := result + [sym], bits - table[sym].len;
      } else {
        result := Finish(lens, data, pos, buf, bits, result);
        return;
      }
    }
  }

  /** The end of input: what is left must be fewer than eight one-bits. */
  method Finish(ghost lens: seq<nat>, data: Bytes, pos: nat, buf: nat, bits: nat, result: Bytes) returns (r: Bytes)
    requires ByteCode(lens) && Reading(lens, data, pos, buf, bits, result)
    requires pos == |data| || bits > 32
    requires Stuck(lens, Window(buf, bits))
    ensures DecodesTo(lens, data, r)
  {
    hide EncodeBits, Encodes, CodeBits, ValidLengths, Stuck, Window, Pow2;
    StuckWindow(lens, data, pos, buf, bits);
    StoppedAt(lens, data, result, Unread(data, pos, buf, bits));
    PaddingBits(buf, bits);
    if pos == |data| && bits <= 7 && buf % Pow2(bits) == Pow2(bits) - 1 {
      return result;
    }
    return [];
  }

  lemma PaddingBits(buf: nat, bits: nat)
    ensures buf % Pow2(bits) == Pow2(bits) - 1 <==> Window(buf, bits) == Ones(bits)
  {
    OnesVal(bits);
    WindowIs(buf, Window(buf, bits));
    if buf % Pow2(bits) == Pow2(bits) - 1 {
      ValInjective(Window(buf, bits), Ones(bits));
    }
  }
}
