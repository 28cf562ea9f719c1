/** The HPACK wire primitives: prefixed integers (section 5.1 of RFC 7541)
    and string literals (section 5.2). A cursor is the unread suffix. */
module HpackPrimitives {
  import opened Bits
  import opened Huffman
  import opened HuffmanDecoder
  import opened HuffmanTable

  /** The widths of the integer prefixes in the header field forms. */
  predicate Prefix(bits: nat) {
    4 <= bits <= 7
  }

  /** The largest prefix value, which announces continuation bytes. */
  function Mask(bits: nat): (m: nat)
    requires Prefix(bits)
    ensures 15 <= m <= 127
  {
    match bits case 4 => 15 case 5 => 31 case 6 => 63 case _ => 127
  }

  datatype Decoded<T> = Decoded(value: T, rest: Bytes)

  /** The continuation bytes of an integer, added up in a 32-bit counter. */
  function IntTail(d: Bytes, shift: nat, acc: nat): (r: Decoded<nat>)
    ensures |r.rest| <= |d| && (d != [] ==> |r.rest| < |d|)
    ensures acc < TWO32 ==> r.value < TWO32
  {
    if d == [] then Decoded(acc, []) else
      var sum := (acc + Shl(d[0] % 128, shift)) % TWO32;
      if d[0] < 128 then Decoded(sum, d[1..]) else IntTail(d[1..], shift + 7, sum)
  }

  function DecodeInt(d: Bytes, bits: nat): (r: Decoded<nat>)
    requires Prefix(bits)
    ensures d != [] ==> |r.rest| < |d|
    ensures |r.rest| <= |d| && r.value < TWO32
  {
    if d == [] then Decoded(0, []) else
      var v := d[0] % (Mask(bits) + 1);
      if v < Mask(bits) then Decoded(v, d[1..]) else IntTail(d[1..], 0, v)
  }

  /** The decoder's loop over an index into the block. */
  method DecodeInteger(d: Bytes, bits: nat) returns (value: nat, rest: Bytes)
    requires Prefix(bits)
    ensures Decoded(value, rest) == DecodeInt(d, bits)
  {
    hide Shl, Mask;
    if |d| == 0 {
      return 0, [];
    }
    value := d[0] % (Mask(bits) + 1);
    var consumed := 1;
    if value == Mask(bits) {
      value, consumed := ReadTail(d, value);
    }
    rest := d[consumed..];
  }

  method ReadTail(d: Bytes, start: nat) returns (value: nat, consumed: nat)
    requires d != []
    ensures 1 <= consumed <= |d|
    ensures Decoded(value, d[consumed..]) == IntTail(d[1..], 0, start)
  {
    hide Shl;
    var shift: nat := 0;
    value, consumed := start, 1;
    while consumed < |d|
      invariant 1 <= consumed <= |d|
      invariant IntTail(d[consumed..], shift, value) == IntTail(d[1..], 0, start)
    {
      var b := d[consumed];
      assert d[consumed..][1..] == d[consumed + 1..];
      consumed := consumed + 1;
      value := (value + Shl(b % 128, shift)) % TWO32;
      shift := shift + 7;
      if b < 128 {
        return;
      }
    }
  }

  /** Base-128 groups, least significant first, all but the last flagged. */
  function Groups(v: nat): (g: Bytes)
    ensures g != []
  {
    if v >= 128 then [v % 128 + 128] + Groups(v / 128) else [v]
  }

  /** An integer whose prefix shares its byte with the flag bits in `first`. */
  function EncodeInt(first: byte, v: nat, bits: nat): (e: Bytes)
    requires Prefix(bits) && first % (Mask(bits) + 1) == 0 && first + Mask(bits) < 256
    ensures e != [] && first <= e[0] <= first + Mask(bits)
  {
    if v < Mask(bits) then [first + v] else [first + Mask(bits)] + Groups(v - Mask(bits))
  }

  /** The encoder's loop: the prefix goes into the last byte written, if any. */
  method EncodeInteger(out: Bytes, v: nat, bits: nat) returns (out': Bytes)
    requires Prefix(bits)
    requires out != [] ==> out[|out| - 1] % (Mask(bits) + 1) == 0 && out[|out| - 1] + Mask(bits) < 256
    ensures out == [] ==> out' == EncodeInt(0, v, bits)
    ensures out != [] ==> out' == out[..|out| - 1] + EncodeInt(out[|out| - 1], v, bits)
  {
    hide Mask;
    var front: Bytes, first: byte := [], 0;
    if out != [] {
      front, first := out[..|out| - 1], out[|out| - 1];
    }
    if v < Mask(bits) {
      return front + [first + v];
    }
    out' := AppendGroups(front + [first + Mask(bits)], v - Mask(bits));
  }

  method AppendGroups(out: Bytes, v: nat) returns (out': Bytes)
    ensures out' == out + Groups(v)
  {
    var value: nat := v;
    out' := out;
    while value >= 128
      invariant out' + Groups(value) == out + Groups(v)
    {
      out' := out' + [value % 128 + 128];
      value := value / 128;
    }
    out' := out' + [value];
  }

  lemma ShlSplit(v: nat, shift: nat)
    ensures Shl(v, shift) == Shl(v % 128, shift) + Shl(v / 128, shift + 7)
  {
    assert Shl(v / 128, 7) == 128 * (v / 128);
    ShlTwice(v / 128, 7, shift);
    ShlAdd(v % 128, 128 * (v / 128), shift);
  }

  lemma {:induction false} GroupsRoundTrip(v: nat, rest: Bytes, shift: nat, acc: nat)
    requires acc + Shl(v, shift) < TWO32
    ensures IntTail(Groups(v) + rest, shift, acc) == Decoded(acc + Shl(v, shift), rest)
  {
    hide Shl;
    var d := Groups(v) + rest;
    if v < 128 {
      assert d[1..] == rest;
    } else {
      ShlSplit(v, shift);
      assert d[0] % 128 == v % 128;
      assert d[1..] == Groups(v / 128) + rest;
      GroupsRoundTrip(v / 128, rest, shift + 7, acc + Shl(v % 128, shift));
    }
  }

  lemma PrefixValue(first: byte, v: nat, m: nat)
    requires m > 0 && first % m == 0 && v < m
    ensures (first + v) % m == v
  {
    DivModUnique(first + v, m, first / m, v);
  }

  /** Every 32-bit integer survives, whatever flags share its first byte. */
  lemma IntRoundTrip(first: byte, v: nat, bits: nat, rest: Bytes)
    requires Prefix(bits) && first % (Mask(bits) + 1) == 0 && first + Mask(bits) < 256
    requires v < TWO32
    ensures DecodeInt(EncodeInt(first, v, bits) + rest, bits) == Decoded(v, rest)
  {
    hide Mask, IntTail, Groups;
    var m := Mask(bits);
    var d := EncodeInt(first, v, bits) + rest;
    if v < m {
      PrefixValue(first, v, m + 1);
      assert d[1..] == rest;
    } else {
      PrefixValue(first, m, m + 1);
      assert d[1..] == Groups(v - m) + rest;
      GroupsRoundTrip(v - m, rest, 0, m);
    }
  }

  /** The text a Huffman-coded string stands for; empty when it is malformed. */
  ghost function HuffmanText(raw: Bytes): (s: Bytes)
  {
    HuffLensValid();
    if s :| Encodes(HUFF_LENS, s, raw) then s else []
  }

  /** A decoder that meets its specification computes that text. */
  lemma HuffmanTextIs(raw: Bytes, s: Bytes)
    requires ByteCode(HUFF_LENS) && DecodesTo(HUFF_LENS, raw, s)
    ensures HuffmanText(raw) == s
  {
    hide Encodes;
    if t :| Encodes(HUFF_LENS, t, raw) {
      assert t == s;
    } else {
      assert s == [];
    }
  }

  /** What the code leaves to the memory around it: whether the session's
      region has room for the string after which `n` bytes of the block remain
      (without room the copy is empty), what a name reads as then if its table
      entry is gone, and what is read past the end of a frame. */
  datatype Memory = Memory(fits: nat -> bool, stale: nat -> Bytes, beyond: Bytes)

  /** A string literal. A bad length or bad Huffman code loses the rest of
      the block and gives the empty string. */
  ghost function DecodeStr(d: Bytes, mem: Memory): (r: Decoded<Bytes>)
    ensures |r.rest| <= |d| && (d != [] ==> |r.rest| < |d|)
  {
    if d == [] then Decoded([], []) else
      var n := DecodeInt(d, 7);
      if n.value > |n.rest| then Decoded([], []) else
        var raw, rest := n.rest[..n.value], n.rest[n.value..];
        var text := if d[0] >= 128 then HuffmanText(raw) else raw;
        if d[0] >= 128 && text == [] then Decoded([], [])
        else Decoded(if mem.fits(|rest|) then text else [], rest)
  }

  /** `table` is the code table built from the server's length table. */
  predicate HuffmanReady(table: seq<HuffmanEntry>) {
    ByteCode(HUFF_LENS) && IsTableOf(table, HUFF_LENS)
  }

  method DecodeString(table: seq<HuffmanEntry>, d: Bytes, mem: Memory) returns (value: Bytes, rest: Bytes)
    requires HuffmanReady(table)
    ensures Decoded(value, rest) == DecodeStr(d, mem)
  {
    hide DecodeInt, HuffmanText, DecodesTo, IsTableOf, ByteCode;
    if |d| == 0 {
      return [], [];
    }
    var n, r := DecodeInteger(d, 7);
    if n > |r| {
      return [], [];
    }
    value, rest := r[..n], r[n..];
    if d[0] >= 128 {
      var text := HuffmanDecode(table, HUFF_LENS, value);
      HuffmanTextIs(value, text);
      if text == [] {
        return [], [];
      }
      value := text;
    }
    if !mem.fits(|rest|) {
      value := [];
    }
  }

  /** The encoder's literal: a length and the raw bytes, never Huffman-coded. */
  function EncodeStr(s: Bytes): (e: Bytes)
    ensures e != [] && e[0] < 128
  {
    EncodeInt(0, |s|, 7) + s
  }

  method EncodeString(out: Bytes, s: Bytes) returns (out': Bytes)
    requires |s| < TWO32
    ensures out' == out + EncodeStr(s)
  {
    hide EncodeInt;
    out' := EncodeInteger(out + [0], |s|, 7);
    assert (out + [0])[..|out|] == out;
    out' := out' + s;
  }

  lemma StrRoundTrip(s: Bytes, rest: Bytes, mem: Memory)
    requires |s| < TWO32 && mem.fits(|rest|)
    ensures DecodeStr(EncodeStr(s) + rest, mem) == Decoded(s, rest)
  {
    hide EncodeInt, DecodeInt, HuffmanText;
    IntRoundTrip(0, |s|, 7, s + rest);
    assert EncodeStr(s) + rest == EncodeInt(0, |s|, 7) + (s + rest);
  }

  /** The Huffman form of a string literal with code bytes `raw`. */
  function HuffmanStr(raw: Bytes): (e: Bytes)
    ensures e != [] && e[0] >= 128
  {
    EncodeInt(128, |raw|, 7) + raw
  }

  /** The Huffman form of a text, from any encoder, is read back with exactly
      its bytes consumed if and only if there is room for the text or, for the
      empty text, nothing behind it in the block. */
  lemma HuffmanStrRoundTrip(s: Bytes, raw: Bytes, rest: Bytes, mem: Memory)
    requires ByteCode(HUFF_LENS) && Encodes(HUFF_LENS, s, raw) && |raw| < TWO32
    ensures DecodeStr(HuffmanStr(raw) + rest, mem) == Decoded(s, rest)
       <==> if s == [] then rest == [] else mem.fits(|rest|)
  {
    EncodedText(s, raw);
    hide DecodeStr, HuffmanText, Encodes, ByteCode;
    HuffmanStrRead(raw, rest, mem);
  }

  lemma HuffmanStrRead(raw: Bytes, rest: Bytes, mem: Memory)
    requires |raw| < TWO32
    ensures DecodeStr(HuffmanStr(raw) + rest, mem)
         == if HuffmanText(raw) == [] then Decoded([], [])
            else Decoded(if mem.fits(|rest|) then HuffmanText(raw) else [], rest)
  {
    hide EncodeInt, DecodeInt, HuffmanText;
    IntRoundTrip(128, |raw|, 7, raw + rest);
    assert HuffmanStr(raw) + rest == EncodeInt(128, |raw|, 7) + (raw + rest);
  }

  lemma EncodedText(s: Bytes, raw: Bytes)
    requires ByteCode(HUFF_LENS) && Encodes(HUFF_LENS, s, raw)
    ensures HuffmanText(raw) == s
  {
    EncodesUnique(HUFF_LENS, HuffmanText(raw), s, raw);
  }

  /** The one byte 0x80 is the Huffman form of the empty text: it is read as
      that, and whatever is behind it in the block is lost. */
  lemma EmptyHuffmanDropsRest(rest: Bytes, mem: Memory)
    ensures ByteCode(HUFF_LENS) && Encodes(HUFF_LENS, [], []) && HuffmanStr([]) == [0x80]
    ensures DecodeStr([0x80] + rest, mem) == Decoded([], [])
  {
    HuffLensValid();
    assert EncodeBits(HUFF_LENS, []) == [] && BytesBits([]) == [];
    EncodedText([], []);
    hide DecodeStr, HuffmanText, Encodes, HUFF_LENS;
    EmptyPrefix();
    HuffmanStrRead([], rest, mem);
  }

  lemma EmptyPrefix()
    ensures EncodeInt(128, 0, 7) == [0x80] && EncodeInt(128, 0, 7) + [] == [0x80]
  {
  }
}
