/** What a header block means (section 6 of RFC 7541): the representations any
    encoder may write, byte by byte, and the fields they name. The meaning is
    told from the insertions alone, not from the decoder's table. */
module Representations {
  import opened Bits
  import opened Fields
  import opened HuffmanDecoder
  import opened HuffmanTable
  import opened HpackPrimitives
  import opened StaticTable
  import opened HpackTable
  import opened Hpack

  // ---- Bytes ----

  /** A string as it may be written: plain, or as Huffman code bytes of a text. */
  datatype Str = Plain(text: Bytes) | Coded(text: Bytes, raw: Bytes)

  datatype Name = ByIndex(i: nat) | Spelled(str: Str)

  datatype Rep =
    | Indexed(i: nat)
    | Incremental(name: Name, value: Str)
    | Unindexed(name: Name, value: Str)
    | NeverIndexed(name: Name, value: Str)
    | SizeUpdate(max: nat)

  function Continuation(v: nat): Bytes {
    if v < 128 then [v] else [v % 128 + 128] + Continuation(v / 128)
  }

  /** An integer behind the bits of `pattern`; `largest` fills its prefix. */
  function IntBytes(pattern: byte, largest: byte, v: nat): Bytes
    requires pattern as int + largest as int < 256
  {
    if v < largest then [pattern + v] else [pattern + largest] + Continuation(v - largest)
  }

  function StrBytes(s: Str): Bytes {
    match s
    case Plain(text) => IntBytes(0, 127, |text|) + text
    case Coded(_, raw) => IntBytes(128, 127, |raw|) + raw
  }

  function NameIndex(n: Name): nat {
    if n.ByIndex? then n.i else 0
  }

  function NameBytes(n: Name): Bytes {
    if n.ByIndex? then [] else StrBytes(n.str)
  }

  function RepBytes(r: Rep): Bytes {
    match r
    case Indexed(i) => IntBytes(128, 127, i)
    case Incremental(name, value) => IntBytes(64, 63, NameIndex(name)) + (NameBytes(name) + StrBytes(value))
    case Unindexed(name, value) => IntBytes(0, 15, NameIndex(name)) + (NameBytes(name) + StrBytes(value))
    case NeverIndexed(name, value) => IntBytes(16, 15, NameIndex(name)) + (NameBytes(name) + StrBytes(value))
    case SizeUpdate(max) => IntBytes(32, 31, max)
  }

  function BlockBytes(reps: seq<Rep>): Bytes {
    if reps == [] then [] else RepBytes(reps[0]) + BlockBytes(reps[1..])
  }

  // ---- Meaning ----

  /** The size of the first `n` insertions (section 4.1 of RFC 7541). */
  function Weight(history: seq<Header>, n: nat): nat
    requires n <= |history|
  {
    if n == 0 then 0 else Weight(history, n - 1) + 32 + |history[n - 1].name| + |history[n - 1].value|
  }

  /** Index `i` names a static field, or an insertion that still fits. */
  predicate Known(history: seq<Header>, max: nat, i: nat) {
    1 <= i <= 61 || (62 <= i && i - 62 < |history| && Weight(history, i - 61) <= max)
  }

  function Named(history: seq<Header>, i: nat): Header
    requires 1 <= i && i < 62 + |history|
  {
    StaticLength();
    if i <= 61 then STATIC[i - 1] else history[i - 62]
  }

  ghost predicate NameKnown(history: seq<Header>, max: nat, n: Name) {
    if n.ByIndex? then Known(history, max, n.i) && Named(history, n.i).name != []
    else Proper(n.str) && n.str.text != []
  }

  ghost function NameOf(history: seq<Header>, max: nat, n: Name): Bytes
    requires NameKnown(history, max, n)
  {
    if n.ByIndex? then Named(history, n.i).name else n.str.text
  }

  ghost predicate Proper(s: Str) {
    match s
    case Plain(text) => |text| < TWO32
    case Coded(text, raw) => |raw| < TWO32 && ByteCode(HUFF_LENS) && Encodes(HUFF_LENS, text, raw)
  }

  /** What the representation may assume of the insertions before it. An entry
      whose name is taken from another must leave that one in the table. */
  ghost predicate Legal(r: Rep, history: seq<Header>, max: nat) {
    match r
    case Indexed(i) => Known(history, max, i) && Named(history, i).name != []
    case Incremental(name, value) =>
      && NameKnown(history, max, name) && Proper(value)
      && (name.ByIndex? && name.i >= 62 ==>
            var size := 32 + |NameOf(history, max, name)| + |value.text|;
            size > max || Weight(history, name.i - 61) + size <= max)
    case Unindexed(name, value) => NameKnown(history, max, name) && Proper(value)
    case NeverIndexed(name, value) => NameKnown(history, max, name) && Proper(value)
    case SizeUpdate(max') => max' <= max
  }

  /** The field a representation names; none for a size update. */
  ghost function FieldOf(r: Rep, history: seq<Header>, max: nat): seq<Header>
    requires Legal(r, history, max)
  {
    match r
    case Indexed(i) => [Named(history, i)]
    case Incremental(name, value) => [Header(NameOf(history, max, name), value.text)]
    case Unindexed(name, value) => [Header(NameOf(history, max, name), value.text)]
    case NeverIndexed(name, value) => [Header(NameOf(history, max, name), value.text)]
    case SizeUpdate(_) => []
  }

  /** Only a literal with incremental indexing is inserted. */
  ghost function HistoryAfter(r: Rep, history: seq<Header>, max: nat): seq<Header>
    requires Legal(r, history, max)
  {
    if r.Incremental? then FieldOf(r, history, max) + history else history
  }

  function MaxAfter(r: Rep, max: nat): nat {
    if r.SizeUpdate? then r.max else max
  }

  ghost predicate AllLegal(reps: seq<Rep>, history: seq<Header>, max: nat) {
    reps == [] || (Legal(reps[0], history, max)
                   && AllLegal(reps[1..], HistoryAfter(reps[0], history, max), MaxAfter(reps[0], max)))
  }

  /** The fields a block names, the insertions after it, and the limit. */
  ghost function FieldsOf(reps: seq<Rep>, history: seq<Header>, max: nat): seq<Header>
    requires AllLegal(reps, history, max)
  {
    if reps == [] then []
    else FieldOf(reps[0], history, max)
         + FieldsOf(reps[1..], HistoryAfter(reps[0], history, max), MaxAfter(reps[0], max))
  }

  ghost function HistoryOf(reps: seq<Rep>, history: seq<Header>, max: nat): seq<Header>
    requires AllLegal(reps, history, max)
  {
    if reps == [] then history
    else HistoryOf(reps[1..], HistoryAfter(reps[0], history, max), MaxAfter(reps[0], max))
  }

  function MaxOf(reps: seq<Rep>, max: nat): nat {
    if reps == [] then max else MaxOf(reps[1..], MaxAfter(reps[0], max))
  }

  /** A value in the Huffman form of the empty text ends what the decoder reads. */
  predicate EndsReading(r: Rep) {
    !r.Indexed? && !r.SizeUpdate? && r.value.Coded? && r.value.text == []
  }

  function ReadPart(reps: seq<Rep>): (part: seq<Rep>)
    ensures part <= reps
  {
    if reps == [] then [] else if EndsReading(reps[0]) then [reps[0]] else [reps[0]] + ReadPart(reps[1..])
  }

  // ---- The decoder gets it ----

  lemma {:induction false} ContinuationIs(v: nat)
    ensures Continuation(v) == Groups(v)
  {
    if v >= 128 {
      ContinuationIs(v / 128);
    }
  }

  lemma IntBytesAre(v: nat)
    ensures IntBytes(128, 127, v) == EncodeInt(128, v, 7) && IntBytes(0, 127, v) == EncodeInt(0, v, 7)
    ensures IntBytes(64, 63, v) == EncodeInt(64, v, 6) && IntBytes(32, 31, v) == EncodeInt(32, v, 5)
    ensures IntBytes(16, 15, v) == EncodeInt(16, v, 4) && IntBytes(0, 15, v) == EncodeInt(0, v, 4)
  {
    hide Continuation, Groups;
    if v >= 127 { ContinuationIs(v - 127); }
    if v >= 63 { ContinuationIs(v - 63); }
    if v >= 31 { ContinuationIs(v - 31); }
    if v >= 15 { ContinuationIs(v - 15); }
  }

  lemma StrRead(s: Str, rest: Bytes, mem: Memory)
    requires Proper(s) && AllRoom(mem)
    ensures DecodeStr(StrBytes(s) + rest, mem)
         == if s.Coded? && s.text == [] then Decoded([], []) else Decoded(s.text, rest)
  {
    hide IntBytes, EncodeInt, DecodeStr, HuffmanText, Encodes, ByteCode;
    match s
    case Plain(text) =>
      IntBytesAre(|text|);
      StrRoundTrip(text, rest, mem);
    case Coded(text, raw) =>
      IntBytesAre(|raw|);
      EncodedText(text, raw);
      HuffmanStrRead(raw, rest, mem);
  }

  lemma {:induction false} WeightIs(history: seq<Header>, n: nat)
    requires n <= |history|
    ensures Weight(history, n) == SizeOf(history, n) && 32 * n <= Weight(history, n)
  {
    if n > 0 {
      WeightIs(history, n - 1);
    }
  }

  /** A known index is found in the decoder's table. */
  lemma KnownIsFound(t: Table, history: seq<Header>, i: nat)
    requires Refines(t, history) && t.max < TWO32 && Known(history, t.max, i)
    ensures Lookup(t.entries, i) == Named(history, i) && i < 0x8000_0000
    ensures i >= 62 ==> i - 62 < |t.entries|
  {
    StaticLength();
    if i >= 62 {
      WeightIs(history, i - 61);
      FitsInside(t.entries, history, t.max, i - 61);
    }
  }

  lemma FitsInside(es: seq<Header>, history: seq<Header>, max: nat, n: nat)
    requires NewestThatFit(es, history, max) && n <= |history| && SizeOf(history, n) <= max
    ensures n <= |es|
  {
    if |es| < n {
      SizeOfGrows(history, |es| + 1, n);
    }
  }

  /** An entry that leaves room for the one its name comes from keeps that one. */
  lemma SurvivorIsKept(t: Table, history: seq<Header>, i: nat, h: Header)
    requires Refines(t, history) && i >= 62 && i - 62 < |t.entries|
    requires EntrySize(h) > t.max || SizeOf(history, i - 61) + EntrySize(h) <= t.max
    ensures NameKept(t, i, h)
  {
    if EntrySize(h) <= t.max {
      SizeOfPrefix(t.entries, history, i - 61);
      FitsInside(MakeRoom(t, EntrySize(h)).entries, t.entries, t.max - EntrySize(h), i - 61);
    }
  }

  /** A name and a value behind an integer are read as the field they spell. */
  lemma LiteralRead(entries: seq<Header>, pattern: byte, bits: nat, name: Name, text: Bytes, value: Str,
                    rest: Bytes, mem: Memory)
    requires Prefix(bits) && pattern % (Mask(bits) + 1) == 0 && pattern + Mask(bits) < 256
    requires if name.ByIndex? then 0 < name.i < 0x8000_0000 && Lookup(entries, name.i).name == text
             else Proper(name.str) && name.str.text == text
    requires text != [] && Proper(value) && AllRoom(mem)
    ensures var d := EncodeInt(pattern, NameIndex(name), bits) + (NameBytes(name) + (StrBytes(value) + rest));
            DecodeLiteral(entries, d, bits, mem) ==
            Literal(Header(text, value.text), NameIndex(name), if value.Coded? && value.text == [] then [] else rest)
  {
    hide EncodeInt, DecodeInt, DecodeStr, StrBytes, Lookup, Proper, AllRoom, Mask;
    var tail := StrBytes(value) + rest;
    IntRoundTrip(pattern, NameIndex(name), bits, NameBytes(name) + tail);
    StrRead(value, rest, mem);
    if name.Spelled? {
      StrRead(name.str, tail, mem);
    } else {
      assert [] + tail == tail;
    }
  }

  /** The state after one representation. */
  ghost predicate Meant(r: Rep, st: Decoding, st': Decoding)
    requires Legal(r, st.history, st.table.max)
  {
    && Sound(st') && st'.delivered == st.delivered + FieldOf(r, st.history, st.table.max)
    && st'.history == HistoryAfter(r, st.history, st.table.max) && st'.table.max == MaxAfter(r, st.table.max)
  }

  ghost predicate ReadsAs(st: Decoding, d: Bytes, r: Rep, rest: Bytes, mem: Memory)
    requires Legal(r, st.history, st.table.max) && d != [] && Consistent(st.table)
  {
    var f := DecodeField(st, d, mem);
    f.Accepted? && f.rest == (if EndsReading(r) then [] else rest) && Meant(r, st, f.st)
  }

  lemma IndexedRead(st: Decoding, r: Rep, rest: Bytes, mem: Memory)
    requires Sound(st) && st.table.max < TWO32 && r.Indexed? && Legal(r, st.history, st.table.max)
    ensures RepBytes(r) + rest != [] && ReadsAs(st, RepBytes(r) + rest, r, rest, mem)
  {
    hide EncodeInt, DecodeInt, IntBytes, Lookup, NewestThatFit, Weight, Named;
    IntBytesAre(r.i);
    KnownIsFound(st.table, st.history, r.i);
    IntRoundTrip(128, r.i, 7, rest);
  }

  lemma SizeUpdateRead(st: Decoding, r: Rep, rest: Bytes, mem: Memory)
    requires Sound(st) && st.table.max < TWO32 && r.SizeUpdate? && Legal(r, st.history, st.table.max)
    ensures RepBytes(r) + rest != [] && ReadsAs(st, RepBytes(r) + rest, r, rest, mem)
  {
    hide EncodeInt, DecodeInt, IntBytes, Lookup, Refines;
    IntBytesAre(r.max);
    IntRoundTrip(32, r.max, 5, rest);
    ShrinkRefines(st.table, st.history, r.max);
    assert st.delivered + [] == st.delivered;
  }

  /** Behind the integer of a literal: name, value, rest. */
  lemma LiteralSplit(first: Bytes, name: Name, value: Str, rest: Bytes)
    ensures (first + (NameBytes(name) + StrBytes(value))) + rest == first + (NameBytes(name) + (StrBytes(value) + rest))
  {
    hide StrBytes, NameBytes;
  }

  lemma NameFound(t: Table, history: seq<Header>, name: Name)
    requires Refines(t, history) && t.max < TWO32 && NameKnown(history, t.max, name)
    ensures NameOf(history, t.max, name) != []
    ensures name.ByIndex? ==> 0 < name.i < 0x8000_0000 && Lookup(t.entries, name.i).name == NameOf(history, t.max, name)
    ensures name.ByIndex? && name.i >= 62 ==> name.i - 62 < |t.entries|
  {
    hide NewestThatFit, Lookup;
    if name.ByIndex? {
      KnownIsFound(t, history, name.i);
    }
  }

  lemma UnindexedRead(st: Decoding, r: Rep, rest: Bytes, mem: Memory)
    requires Sound(st) && st.table.max < TWO32 && AllRoom(mem) && Legal(r, st.history, st.table.max)
    requires r.Unindexed? || r.NeverIndexed?
    ensures RepBytes(r) + rest != [] && ReadsAs(st, RepBytes(r) + rest, r, rest, mem)
  {
    hide EncodeInt, DecodeLiteral, IntBytes, Lookup, Refines, NameKnown, StrBytes, NameBytes, Proper, AllRoom;
    hide Insert, Evict, Consistent, Weight;
    var pattern := if r.Unindexed? then 0 else 16;
    IntBytesAre(NameIndex(r.name));
    NameFound(st.table, st.history, r.name);
    LiteralSplit(EncodeInt(pattern, NameIndex(r.name), 4), r.name, r.value, rest);
    NameProper(st.history, st.table.max, r.name);
    LiteralRead(st.table.entries, pattern, 4, r.name, NameOf(st.history, st.table.max, r.name), r.value, rest, mem);
  }

  lemma NameProper(history: seq<Header>, max: nat, name: Name)
    requires NameKnown(history, max, name)
    ensures name.Spelled? ==> Proper(name.str) && name.str.text == NameOf(history, max, name)
  {
    hide Proper;
  }

  lemma IncrementalRead(st: Decoding, r: Rep, rest: Bytes, mem: Memory)
    requires Sound(st) && st.table.max < TWO32 && AllRoom(mem) && Legal(r, st.history, st.table.max) && r.Incremental?
    ensures RepBytes(r) + rest != [] && ReadsAs(st, RepBytes(r) + rest, r, rest, mem)
  {
    hide DecodeLiteral, RepBytes, Refines, AllRoom, NameKept, Insert, Inserting, NameKnown, NameOf, Weight, Proper;
    var h := Header(NameOf(st.history, st.table.max, r.name), r.value.text);
    IncrementalLiteral(st, r, h, rest, mem);
    IncrementalKept(st, r, h);
    InsertRefines(st.table, st.history, h);
    KeptInserting(st, DecodeLiteral(st.table.entries, RepBytes(r) + rest, 6, mem), mem);
  }

  lemma IncrementalLiteral(st: Decoding, r: Rep, h: Header, rest: Bytes, mem: Memory)
    requires Sound(st) && st.table.max < TWO32 && AllRoom(mem) && Legal(r, st.history, st.table.max) && r.Incremental?
    requires h == Header(NameOf(st.history, st.table.max, r.name), r.value.text)
    ensures Consistent(st.table) && RepBytes(r) + rest != [] && 64 <= (RepBytes(r) + rest)[0] < 128
    ensures DecodeLiteral(st.table.entries, RepBytes(r) + rest, 6, mem)
         == Literal(h, NameIndex(r.name), if EndsReading(r) then [] else rest)
  {
    hide EncodeInt, DecodeLiteral, IntBytes, Lookup, NewestThatFit, NameKnown, StrBytes, NameBytes, Proper, AllRoom;
    hide Weight, NameOf;
    IntBytesAre(NameIndex(r.name));
    NameFound(st.table, st.history, r.name);
    LiteralSplit(EncodeInt(64, NameIndex(r.name), 6), r.name, r.value, rest);
    NameProper(st.history, st.table.max, r.name);
    LiteralRead(st.table.entries, 64, 6, r.name, h.name, r.value, rest, mem);
  }

  lemma KeptInserting(st: Decoding, l: LiteralResult, mem: Memory)
    requires Consistent(st.table) && l.Literal? && NameKept(st.table, l.index, l.field)
    ensures Inserting(st, l, mem)
         == Decoding(Insert(st.table, l.field), [l.field] + st.history, [l.field] + st.meant, st.delivered + [l.field])
  {
    hide NameKept, Insert;
  }

  lemma IncrementalKept(st: Decoding, r: Rep, h: Header)
    requires Sound(st) && st.table.max < TWO32 && r.Incremental? && Legal(r, st.history, st.table.max)
    requires h == Header(NameOf(st.history, st.table.max, r.name), r.value.text)
    ensures NameKept(st.table, NameIndex(r.name), h)
  {
    hide NewestThatFit, Proper, Lookup;
    if r.name.ByIndex? && r.name.i >= 62 {
      NameFound(st.table, st.history, r.name);
      WeightIs(st.history, r.name.i - 61);
      SurvivorIsKept(st.table, st.history, r.name.i, h);
    }
  }

  lemma RepRead(st: Decoding, r: Rep, rest: Bytes, mem: Memory)
    requires Sound(st) && st.table.max < TWO32 && AllRoom(mem) && Legal(r, st.history, st.table.max)
    ensures RepBytes(r) + rest != [] && ReadsAs(st, RepBytes(r) + rest, r, rest, mem)
  {
    hide ReadsAs, RepBytes, Legal, Refines, AllRoom;
    match r
    case Indexed(_) => IndexedRead(st, r, rest, mem);
    case Incremental(_, _) => IncrementalRead(st, r, rest, mem);
    case SizeUpdate(_) => SizeUpdateRead(st, r, rest, mem);
    case _ => UnindexedRead(st, r, rest, mem);
  }

  lemma LimitShrinks(r: Rep, history: seq<Header>, max: nat)
    requires Legal(r, history, max)
    ensures MaxAfter(r, max) <= max
  {
  }

  /** Any concatenation of representations, from any encoder: the decoder
      delivers exactly the fields named, in order, inserts exactly the literals
      with incremental indexing, and takes over the limit; up to and including
      the first value in the Huffman form of the empty text. */
  lemma {:induction false} BlockRead(st: Decoding, reps: seq<Rep>, mem: Memory)
    requires Sound(st) && st.table.max < TWO32 && AllRoom(mem) && AllLegal(reps, st.history, st.table.max)
    ensures AllLegal(ReadPart(reps), st.history, st.table.max)
    ensures var r := DecodeBlock(st, BlockBytes(reps), mem);
            && r.ok && r.st.delivered == st.delivered + FieldsOf(ReadPart(reps), st.history, st.table.max)
            && r.st.history == HistoryOf(ReadPart(reps), st.history, st.table.max)
            && r.st.table.max == MaxOf(ReadPart(reps), st.table.max) && Refines(r.st.table, r.st.history)
    decreases |reps|
  {
    hide DecodeField, RepBytes, Legal, FieldOf, EndsReading, NewestThatFit, Consistent, AllRoom;
    if reps == [] {
      assert st.delivered + [] == st.delivered;
    } else {
      var rest := BlockBytes(reps[1..]);
      RepRead(st, reps[0], rest, mem);
      LimitShrinks(reps[0], st.history, st.table.max);
      var f := DecodeField(st, RepBytes(reps[0]) + rest, mem);
      assert [reps[0]][1..] == [];
      assert ([reps[0]] + ReadPart(reps[1..]))[1..] == ReadPart(reps[1..]);
      if !EndsReading(reps[0]) {
        BlockRead(f.st, reps[1..], mem);
      }
    }
  }
}
