/** HPACK header blocks: the decoder with its dynamic table, the encoder,
    and the round trip between them. */
module Hpack {
  import opened Bits
  import opened Huffman
  import opened HuffmanDecoder
  import opened HuffmanTable
  import opened HpackPrimitives
  import opened Fields
  import opened StaticTable
  import opened HpackTable

  /** The decoder's table, everything it ever inserted, what was meant to be
      inserted (both newest first), and the header fields delivered so far in
      the current block. */
  datatype Decoding = Decoding(table: Table, history: seq<Header>, meant: seq<Header>, delivered: seq<Header>)

  datatype FieldResult = Rejected | Accepted(st: Decoding, rest: Bytes)

  /** A 32-bit unsigned value read as a signed index. */
  function AsInt32(v: nat): int {
    if v < 0x8000_0000 then v else v - TWO32
  }

  /** A literal field, and where its name comes from (0: it was spelled out). */
  datatype LiteralResult = BadLiteral | Literal(field: Header, index: int, rest: Bytes)

  /** The name (by index or as a string) and value of a literal field. */
  ghost function DecodeLiteral(entries: seq<Header>, d: Bytes, bits: nat, mem: Memory): (r: LiteralResult)
    requires Prefix(bits) && d != []
    ensures r.Literal? ==> |r.rest| < |d|
  {
    var idx := DecodeInt(d, bits);
    var name := if idx.value == 0 then DecodeStr(idx.rest, mem)
                else Decoded(Lookup(entries, AsInt32(idx.value)).name, idx.rest);
    if name.value == [] then BadLiteral else
      var value := DecodeStr(name.rest, mem);
      Literal(Header(name.value, value.value), AsInt32(idx.value), value.rest)
  }

  /** A literal is delivered and inserted. */
  function Inserting(st: Decoding, l: LiteralResult, mem: Memory): (r: Decoding)
    requires Consistent(st.table) && l.Literal?
    ensures Consistent(r.table)
  {
    var stored := Stored(st.table, l.index, l.field, mem.stale(|l.rest|));
    Decoding(Insert(st.table, stored), [stored] + st.history, [l.field] + st.meant, st.delivered + [l.field])
  }

  /** One header field representation (section 6 of RFC 7541). */
  ghost function DecodeField(st: Decoding, d: Bytes, mem: Memory): (r: FieldResult)
    requires d != [] && Consistent(st.table)
    ensures r.Accepted? ==> |r.rest| < |d| && Consistent(r.st.table)
  {
    if d[0] >= 0x80 then
      var idx := DecodeInt(d, 7);
      var h := Lookup(st.table.entries, AsInt32(idx.value));
      if idx.value == 0 || h.name == [] then Rejected
      else Accepted(st.(delivered := st.delivered + [h]), idx.rest)
    else if d[0] >= 0x40 then
      var l := DecodeLiteral(st.table.entries, d, 6, mem);
      if l.BadLiteral? then Rejected
      else Accepted(Inserting(st, l, mem), l.rest)
    else if d[0] >= 0x20 then
      var size := DecodeInt(d, 5);
      if size.value > st.table.max then Rejected
      else Accepted(st.(table := Resize(st.table, size.value)), size.rest)
    else
      var l := DecodeLiteral(st.table.entries, d, 4, mem);
      if l.BadLiteral? then Rejected
      else Accepted(st.(delivered := st.delivered + [l.field]), l.rest)
  }

  datatype BlockResult = BlockResult(ok: bool, st: Decoding)

  /** A whole block: field after field until the end or the first bad field. */
  ghost function DecodeBlock(st: Decoding, d: Bytes, mem: Memory): (r: BlockResult)
    requires Consistent(st.table)
    ensures Consistent(r.st.table)
    decreases |d|
  {
    if d == [] then BlockResult(true, st) else
      match DecodeField(st, d, mem)
      case Rejected => BlockResult(false, st)
      case Accepted(st', rest) => DecodeBlock(st', rest, mem)
  }

  ghost predicate Sound(st: Decoding) {
    Refines(st.table, st.history)
  }

  lemma FieldKeepsSound(st: Decoding, d: Bytes, mem: Memory)
    requires d != [] && Sound(st)
    ensures DecodeField(st, d, mem).Accepted? ==> Sound(DecodeField(st, d, mem).st)
  {
    hide NewestThatFit, Consistent, DecodeLiteral, DecodeInt, Lookup, Stored;
    var r := DecodeField(st, d, mem);
    if r.Accepted? {
      if 0x40 <= d[0] < 0x80 {
        var l := DecodeLiteral(st.table.entries, d, 6, mem);
        InsertRefines(st.table, st.history, Stored(st.table, l.index, l.field, mem.stale(|l.rest|)));
      } else if 0x20 <= d[0] < 0x40 {
        ShrinkRefines(st.table, st.history, DecodeInt(d, 5).value);
      }
    }
  }

  /** On arbitrary bytes, good or bad, and whatever copies fail, the table
      stays the newest part of what was inserted that fits. */
  lemma {:induction false} BlockKeepsSound(st: Decoding, d: Bytes, mem: Memory)
    requires Sound(st)
    ensures Sound(DecodeBlock(st, d, mem).st)
    decreases |d|
  {
    hide DecodeField;
    if d != [] {
      FieldKeepsSound(st, d, mem);
      match DecodeField(st, d, mem)
      case Rejected =>
      case Accepted(st', rest) => BlockKeepsSound(st', rest, mem);
    }
  }

  // ---- When the table holds what the peer meant ----

  /** Every name that comes from the table survives the insertion it is for. */
  ghost predicate NamesKept(st: Decoding, d: Bytes, mem: Memory)
    requires Consistent(st.table)
    decreases |d|
  {
    d != [] ==>
      && (0x40 <= d[0] < 0x80 ==>
            var l := DecodeLiteral(st.table.entries, d, 6, mem);
            l.Literal? ==> NameKept(st.table, l.index, l.field))
      && match DecodeField(st, d, mem)
         case Rejected => true
         case Accepted(st', rest) => NamesKept(st', rest, mem)
  }

  type Stale = nat -> Bytes

  /** A field whose name is kept does the same whatever the memory holds. */
  lemma KeptFieldSame(st: Decoding, d: Bytes, mem: Memory, stale: Stale)
    requires d != [] && Consistent(st.table) && st.history == st.meant
    requires 0x40 <= d[0] < 0x80 ==>
               var l := DecodeLiteral(st.table.entries, d, 6, mem);
               l.Literal? ==> NameKept(st.table, l.index, l.field)
    ensures DecodeField(st, d, mem.(stale := stale)) == DecodeField(st, d, mem)
    ensures DecodeField(st, d, mem).Accepted? ==> DecodeField(st, d, mem).st.history == DecodeField(st, d, mem).st.meant
  {
    StaleIrrelevant(st.table.entries, d, mem, stale);
    hide DecodeLiteral, DecodeInt, Lookup, NameKept, Consistent, Insert, Resize, Junk;
  }

  lemma StaleIrrelevant(entries: seq<Header>, d: Bytes, mem: Memory, stale: Stale)
    requires d != []
    ensures DecodeLiteral(entries, d, 6, mem.(stale := stale)) == DecodeLiteral(entries, d, 6, mem)
    ensures DecodeLiteral(entries, d, 4, mem.(stale := stale)) == DecodeLiteral(entries, d, 4, mem)
  {
    StaleIrrelevantStr(DecodeInt(d, 6).rest, mem, stale);
    StaleIrrelevantStr(DecodeInt(d, 4).rest, mem, stale);
    hide DecodeInt, Lookup;
    var a6, a4 := DecodeInt(d, 6), DecodeInt(d, 4);
    StaleIrrelevantStr(if a6.value == 0 then DecodeStr(a6.rest, mem).rest else a6.rest, mem, stale);
    StaleIrrelevantStr(if a4.value == 0 then DecodeStr(a4.rest, mem).rest else a4.rest, mem, stale);
    hide DecodeStr;
  }

  lemma StaleIrrelevantStr(d: Bytes, mem: Memory, stale: Stale)
    ensures DecodeStr(d, mem.(stale := stale)) == DecodeStr(d, mem)
  {
    hide DecodeInt, HuffmanText;
  }

  /** Once they differ, what was inserted and what was meant differ for good. */
  lemma {:induction false} DifferForGood(st: Decoding, d: Bytes, mem: Memory)
    requires Consistent(st.table) && |st.history| == |st.meant| && st.history != st.meant
    ensures DecodeBlock(st, d, mem).st.history != DecodeBlock(st, d, mem).st.meant
    decreases |d|
  {
    if d != [] {
      FieldPrepends(st, d, mem);
      hide DecodeField, Consistent;
      match DecodeField(st, d, mem)
      case Rejected =>
      case Accepted(st', rest) => DifferForGood(st', rest, mem);
    }
  }

  lemma FieldPrepends(st: Decoding, d: Bytes, mem: Memory)
    requires d != [] && Consistent(st.table) && |st.history| == |st.meant| && st.history != st.meant
    ensures var r := DecodeField(st, d, mem);
            r.Accepted? ==> |r.st.history| == |r.st.meant| && r.st.history != r.st.meant
  {
    hide DecodeLiteral, DecodeInt, Lookup, Consistent, Insert, Resize, Stored;
    var r := DecodeField(st, d, mem);
    if r.Accepted? && 0x40 <= d[0] < 0x80 {
      assert r.st.history[1..] == st.history && r.st.meant[1..] == st.meant;
    }
  }

  /** A name that is not kept reads as something else from some memory. */
  lemma {:induction false} SomeMemoryDiffers(st: Decoding, d: Bytes, mem: Memory) returns (stale: Stale)
    requires Consistent(st.table) && st.history == st.meant && !NamesKept(st, d, mem)
    ensures var r := DecodeBlock(st, d, mem.(stale := stale)); r.st.history != r.st.meant
    decreases |d|
  {
    hide Consistent, NameKept, DecodeField, DecodeLiteral;
    var l := DecodeLiteral(st.table.entries, d, 6, mem);
    if 0x40 <= d[0] < 0x80 && l.Literal? && !NameKept(st.table, l.index, l.field) {
      stale := UnkeptDiffers(st, d, mem);
      var mem' := mem.(stale := stale);
      DifferForGood(DecodeField(st, d, mem').st, DecodeField(st, d, mem').rest, mem');
    } else {
      match DecodeField(st, d, mem)
      case Rejected => assert false;
      case Accepted(st', rest) =>
        KeptFieldSame(st, d, mem, mem.stale);
        stale := SomeMemoryDiffers(st', rest, mem);
        KeptFieldSame(st, d, mem, stale);
    }
  }

  lemma UnkeptDiffers(st: Decoding, d: Bytes, mem: Memory) returns (stale: Stale)
    requires d != [] && Consistent(st.table) && st.history == st.meant && 0x40 <= d[0] < 0x80
    requires var l := DecodeLiteral(st.table.entries, d, 6, mem); l.Literal? && !NameKept(st.table, l.index, l.field)
    ensures var r := DecodeField(st, d, mem.(stale := stale));
            r.Accepted? && |r.st.history| == |r.st.meant| && r.st.history != r.st.meant
  {
    var l := DecodeLiteral(st.table.entries, d, 6, mem);
    var junk: Bytes := [if l.field.name[0] == 0 then 1 else 0];
    stale := n => junk;
    StaleIrrelevant(st.table.entries, d, mem, stale);
    hide DecodeLiteral, DecodeInt, Lookup, NameKept, Consistent, Insert, Resize;
    var r := DecodeField(st, d, mem.(stale := stale));
    assert r.st.history[0].name[0] == junk[0] && r.st.meant[0] == l.field;
  }

  lemma {:induction false} KeptNamesMeant(st: Decoding, d: Bytes, mem: Memory, stale: Stale)
    requires Consistent(st.table) && st.history == st.meant && NamesKept(st, d, mem)
    ensures var r := DecodeBlock(st, d, mem.(stale := stale)); r.st.history == r.st.meant
    decreases |d|
  {
    if d != [] {
      KeptFieldSame(st, d, mem, stale);
      hide DecodeField, Consistent, NameKept;
      match DecodeField(st, d, mem)
      case Rejected =>
      case Accepted(st', rest) => KeptNamesMeant(st', rest, mem, stale);
    }
  }

  /** Then the table refines what the peer meant to insert. */
  lemma KeptNamesSound(st: Decoding, d: Bytes, mem: Memory)
    requires Sound(st) && st.history == st.meant && NamesKept(st, d, mem)
    ensures var r := DecodeBlock(st, d, mem).st; Refines(r.table, r.meant)
  {
    hide DecodeBlock, NamesKept, NewestThatFit, Consistent;
    BlockKeepsSound(st, d, mem);
    KeptNamesMeant(st, d, mem, mem.stale);
    assert mem.(stale := mem.stale) == mem;
  }

  /** A block inserts what the peer meant, whatever freed memory holds, exactly
      when every name it takes from the table survives its own insertion. */
  lemma MeantExactly(st: Decoding, d: Bytes, mem: Memory)
    requires Consistent(st.table) && st.history == st.meant
    ensures NamesKept(st, d, mem) <==>
            forall stale: Stale ::
              DecodeBlock(st, d, mem.(stale := stale)).st.history == DecodeBlock(st, d, mem.(stale := stale)).st.meant
  {
    hide NamesKept, DecodeBlock, Consistent;
    if NamesKept(st, d, mem) {
      forall stale: Stale
        ensures DecodeBlock(st, d, mem.(stale := stale)).st.history == DecodeBlock(st, d, mem.(stale := stale)).st.meant
      {
        KeptNamesMeant(st, d, mem, stale);
      }
    } else {
      var stale := SomeMemoryDiffers(st, d, mem);
    }
  }

  class HpackDecoder {
    var dynamicTable: seq<Header>
    var maxTableSize: nat
    var currentTableSize: nat
    ghost var history: seq<Header>
    ghost var meant: seq<Header>
    const huffman: seq<HuffmanEntry>

    ghost function State(): Table
      reads this
    {
      Table(dynamicTable, currentTableSize, maxTableSize)
    }

    ghost predicate Valid()
      reads this
    {
      HuffmanReady(huffman) && Refines(State(), history)
    }

    constructor ()
      ensures Valid() && State() == Table([], 0, 4096) && history == [] && meant == []
    {
      HuffLensValid();
      var codes := InitHuffmanTable(HUFF_LENS);
      huffman := codes;
      dynamicTable, maxTableSize, currentTableSize, history, meant := [], 4096, 0, [], [];
    }

    method EvictTo(target: nat)
      requires Consistent(State())
      modifies `dynamicTable, `currentTableSize
      ensures State() == Evict(old(State()), target)
    {
      while currentTableSize > target && dynamicTable != []
        invariant Consistent(State())
        invariant Evict(State(), target) == Evict(old(State()), target)
        decreases |dynamicTable|
      {
        EvictStep(State(), target);
        var last := |dynamicTable| - 1;
        currentTableSize := currentTableSize - EntrySize(dynamicTable[last]);
        dynamicTable := dynamicTable[..last];
      }
    }

    method SetMaxTableSize(size: nat)
      requires Consistent(State())
      modifies `dynamicTable, `currentTableSize, `maxTableSize
      ensures State() == Resize(old(State()), size)
    {
      EvictTo(size);
      maxTableSize := size;
    }

    /** Makes room, then reads the name again: from the literal itself, from
        the static table, or from the dynamic table if its entry is still there. */
    method AddEntry(h: Header, index: int, stale: Bytes)
      requires Consistent(State()) && (index >= 62 ==> h.name == Lookup(dynamicTable, index).name)
      modifies `dynamicTable, `currentTableSize, `history, `meant
      ensures var stored := Stored(old(State()), index, h, stale);
              State() == Insert(old(State()), stored) && history == [stored] + old(history)
      ensures meant == [h] + old(meant)
    {
      hide Lookup, Junk, Evict, SizeOf;
      var s := EntrySize(h);
      if index >= 62 {
        NameThere(State(), index, h);
      }
      EvictTo(maxTableSize - (if s < maxTableSize then s else maxTableSize));
      var name := h.name;
      if s <= maxTableSize {
        if index >= 62 {
          name := if index - 62 < |dynamicTable| then dynamicTable[index - 62].name else Junk(|h.name|, stale);
        }
        dynamicTable := [Header(name, h.value)] + dynamicTable;
        currentTableSize := currentTableSize + s;
      }
      history, meant := [Header(name, h.value)] + history, [h] + meant;
    }

    method ReadLiteral(d: Bytes, bits: nat, mem: Memory) returns (r: LiteralResult)
      requires Valid() && Prefix(bits) && d != []
      ensures r == DecodeLiteral(dynamicTable, d, bits, mem)
      ensures r.Literal? && r.index >= 62 ==> r.field.name == Lookup(dynamicTable, r.index).name
    {
      hide DecodeInt, DecodeStr, Lookup, Refines, HuffmanReady;
      var idx, rest := DecodeInteger(d, bits);
      var name: Bytes;
      if idx == 0 {
        name, rest := DecodeString(huffman, rest, mem);
      } else {
        name := Lookup(dynamicTable, AsInt32(idx)).name;
      }
      if name == [] {
        return BadLiteral;
      }
      var value;
      value, rest := DecodeString(huffman, rest, mem);
      return Literal(Header(name, value), AsInt32(idx), rest);
    }

    /** One field; `delivered` collects what the stream context is given. */
    method DecodeOne(d: Bytes, delivered: seq<Header>, mem: Memory)
      returns (ok: bool, rest: Bytes, delivered': seq<Header>)
      requires Valid() && d != []
      modifies `dynamicTable, `currentTableSize, `maxTableSize, `history, `meant
      ensures Valid()
      ensures DecodeField(Decoding(old(State()), old(history), old(meant), delivered), d, mem)
           == if ok then Accepted(Decoding(State(), history, meant, delivered'), rest) else Rejected
      ensures !ok ==>
                State() == old(State()) && history == old(history) && meant == old(meant) && delivered' == delivered
    {
      hide DecodeInt, DecodeLiteral, Lookup, HuffmanReady, NewestThatFit, Consistent, Insert, Resize, Stored;
      FieldKeepsSound(Decoding(State(), history, meant, delivered), d, mem);
      ok, delivered' := false, delivered;
      if d[0] >= 0x80 {
        var idx;
        idx, rest := DecodeInteger(d, 7);
        var h := Lookup(dynamicTable, AsInt32(idx));
        if idx != 0 && h.name != [] {
          ok, delivered' := true, delivered + [h];
        }
      } else if 0x20 <= d[0] < 0x40 {
        var size;
        size, rest := DecodeInteger(d, 5);
        if size <= maxTableSize {
          SetMaxTableSize(size);
          ok := true;
        }
      } else {
        var l := ReadLiteral(d, if d[0] >= 0x40 then 6 else 4, mem);
        rest := d;
        if l.Literal? {
          ok, rest, delivered' := true, l.rest, delivered + [l.field];
          if d[0] >= 0x40 {
            AddEntry(l.field, l.index, mem.stale(|l.rest|));
          }
        }
      }
    }

    /** Decodes a header block of arbitrary bytes; the table keeps refining
        the insertion history. */
    method Decode(data: Bytes, mem: Memory) returns (ok: bool, delivered: seq<Header>)
      requires Valid()
      modifies `dynamicTable, `currentTableSize, `maxTableSize, `history, `meant
      ensures Valid()
      ensures BlockResult(ok, Decoding(State(), history, meant, delivered))
           == DecodeBlock(Decoding(old(State()), old(history), old(meant), []), data, mem)
    {
      hide DecodeField, HuffmanReady, NewestThatFit, Consistent;
      var rest := data;
      ok, delivered := true, [];
      while rest != []
        invariant Valid()
        invariant DecodeBlock(Decoding(State(), history, meant, delivered), rest, mem)
               == DecodeBlock(Decoding(old(State()), old(history), old(meant), []), data, mem)
        decreases |rest|
      {
        ok, rest, delivered := DecodeOne(rest, delivered, mem);
        if !ok {
          return;
        }
      }
    }
  }

  /** A name that is kept is found again where it was. */
  lemma NameThere(t: Table, index: int, h: Header)
    requires Consistent(t) && index >= 62 && h.name == Lookup(t.entries, index).name
    ensures var e := MakeRoom(t, EntrySize(h)).entries;
            index - 62 < |e| ==> e[index - 62].name == h.name
  {
    StaticLength();
    hide MakeRoom;
  }

  lemma EvictStep(t: Table, target: nat)
    requires Consistent(t) && t.size > target && t.entries != []
    ensures var n := |t.entries| - 1;
            var u := Table(t.entries[..n], t.size - EntrySize(t.entries[n]), t.max);
            t.size >= EntrySize(t.entries[n]) && Consistent(u) && Evict(t, target) == Evict(u, target)
  {
    SizesOfPrefix(t.entries[..|t.entries| - 1], t.entries);
  }

  /** The bytes of one header field, given where the static table holds it
      (`idx`) and its name (`nameIdx`), zero meaning nowhere: indexed if it
      can be, otherwise a never-indexed literal. */
  function FieldBytes(idx: nat, nameIdx: nat, h: Header): (e: Bytes)
    ensures e != []
  {
    if idx > 0 then EncodeInt(0x80, idx, 7)
    else EncodeInt(0x10, nameIdx, 4) + (if nameIdx > 0 then [] else EncodeStr(h.name)) + EncodeStr(h.value)
  }

  function EncodeField(h: Header): (e: Bytes)
    ensures e != []
  {
    FieldBytes(StaticField(h), StaticName(h.name), h)
  }

  function EncodeBlock(hs: seq<Header>): Bytes {
    if hs == [] then [] else EncodeField(hs[0]) + EncodeBlock(hs[1..])
  }

  /** A field whose lengths are 32-bit. */
  predicate Writable(h: Header) {
    |h.name| < TWO32 && |h.value| < TWO32
  }

  /** A writable field with a real name. */
  predicate Encodable(h: Header) {
    h.name != [] && Writable(h)
  }

  method Encode(headers: seq<Header>) returns (result: Bytes)
    requires forall h :: h in headers ==> Writable(h)
    ensures result == EncodeBlock(headers)
  {
    hide EncodeField;
    result := [];
    for i := 0 to |headers|
      invariant result + EncodeBlock(headers[i..]) == EncodeBlock(headers)
    {
      var e := EncodeOne(headers[i]);
      assert headers[i..][1..] == headers[i + 1..];
      result := result + e;
    }
    assert headers[|headers|..] == [];
  }

  method EncodeOne(h: Header) returns (e: Bytes)
    requires Writable(h)
    ensures e == EncodeField(h)
  {
    hide EncodeInt, EncodeStr, FindField, FindName;
    var idx := LookupStatic(STATIC, h.name, h.value);
    var nameIdx := LookupStaticNameOnly(STATIC, h.name);
    e := WriteField(idx, nameIdx, h);
  }

  method WriteField(idx: nat, nameIdx: nat, h: Header) returns (e: Bytes)
    requires Writable(h)
    ensures e == FieldBytes(idx, nameIdx, h)
  {
    hide EncodeInt, EncodeStr;
    if idx > 0 {
      e := EncodeInteger([0x80], idx, 7);
      return;
    }
    e := EncodeInteger([0x10], nameIdx, 4);
    if nameIdx == 0 {
      e := EncodeString(e, h.name);
    }
    e := EncodeString(e, h.value);
  }

  ghost predicate AllRoom(mem: Memory) {
    forall n :: mem.fits(n)
  }

  lemma LiteralRoundTrip(entries: seq<Header>, nameIdx: nat, h: Header, rest: Bytes, mem: Memory)
    requires Encodable(h) && AllRoom(mem) && nameIdx <= STATIC_SIZE
    requires nameIdx > 0 ==> Lookup(entries, nameIdx).name == h.name
    ensures DecodeLiteral(entries, FieldBytes(0, nameIdx, h) + rest, 4, mem) == Literal(h, nameIdx, rest)
  {
    hide EncodeInt, EncodeStr, DecodeInt, DecodeStr, Lookup;
    var value := EncodeStr(h.value) + rest;
    var name := if nameIdx > 0 then [] else EncodeStr(h.name);
    IntRoundTrip(0x10, nameIdx, 4, name + value);
    assert FieldBytes(0, nameIdx, h) + rest == EncodeInt(0x10, nameIdx, 4) + (name + value);
    assert name + value == if nameIdx > 0 then value else EncodeStr(h.name) + value;
    StrRoundTrip(h.name, value, mem);
    StrRoundTrip(h.value, rest, mem);
  }

  lemma FieldRoundTrip(st: Decoding, h: Header, rest: Bytes, mem: Memory)
    requires Consistent(st.table) && Encodable(h) && AllRoom(mem)
    ensures DecodeField(st, EncodeField(h) + rest, mem)
         == Accepted(st.(delivered := st.delivered + [h]), rest)
  {
    hide EncodeInt, EncodeStr, DecodeInt, DecodeLiteral, Lookup, Consistent, StaticField, StaticName, EncodeStr;
    StaticInversion(st.table.entries, h);
    if StaticField(h) > 0 {
      IntRoundTrip(0x80, StaticField(h), 7, rest);
    } else {
      LiteralRoundTrip(st.table.entries, StaticName(h.name), h, rest, mem);
      FirstByteIsNeverIndexed(StaticName(h.name), h, rest);
    }
  }

  lemma FirstByteIsNeverIndexed(nameIdx: nat, h: Header, rest: Bytes)
    ensures 0x10 <= (FieldBytes(0, nameIdx, h) + rest)[0] < 0x20
  {
  }

  /** What the encoder writes the decoder reads: the same fields in the same
      order, every byte consumed, the dynamic table untouched. */
  lemma {:induction false} BlockRoundTrip(st: Decoding, hs: seq<Header>, mem: Memory)
    requires Consistent(st.table) && AllRoom(mem)
    requires forall h :: h in hs ==> Encodable(h)
    ensures DecodeBlock(st, EncodeBlock(hs), mem)
         == BlockResult(true, st.(delivered := st.delivered + hs))
    decreases |hs|
  {
    hide EncodeField, DecodeField, Encodable, Consistent;
    if hs == [] {
      assert st.delivered + hs == st.delivered;
    } else {
      FieldRoundTrip(st, hs[0], EncodeBlock(hs[1..]), mem);
      var st' := st.(delivered := st.delivered + [hs[0]]);
      BlockRoundTrip(st', hs[1..], mem);
      assert st'.delivered + hs[1..] == st.delivered + hs;
    }
  }

  /** A literal whose value is the Huffman form of the empty text, which section
      5.2 of RFC 7541 allows: it is accepted, and every field behind it is lost. */
  lemma EmptyValueLosesRest(st: Decoding, name: Bytes, rest: Bytes, mem: Memory)
    requires Consistent(st.table) && AllRoom(mem) && name != [] && |name| < TWO32
    ensures DecodeBlock(st, [0] + (EncodeStr(name) + ([0x80] + rest)), mem)
         == BlockResult(true, st.(delivered := st.delivered + [Header(name, [])]))
  {
    hide DecodeStr, EncodeStr, DecodeInt, EncodeInt, Lookup, Consistent;
    var tail := EncodeStr(name) + ([0x80] + rest);
    var d := [0] + tail;
    ZeroIndex();
    IntRoundTrip(0, 0, 4, tail);
    StrRoundTrip(name, [0x80] + rest, mem);
    EmptyHuffmanDropsRest(rest, mem);
    assert DecodeLiteral(st.table.entries, d, 4, mem) == Literal(Header(name, []), 0, []);
    assert DecodeField(st, d, mem) == Accepted(st.(delivered := st.delivered + [Header(name, [])]), []);
  }

  lemma ZeroIndex()
    ensures EncodeInt(0, 0, 4) == [0] && AsInt32(0) == 0
  {
  }

  /** A field without a name is written but never accepted back. */
  lemma NamelessRejected(st: Decoding, h: Header, rest: Bytes, mem: Memory)
    requires Consistent(st.table) && Writable(h) && h.name == [] && AllRoom(mem)
    ensures DecodeField(st, EncodeField(h) + rest, mem) == Rejected
  {
    hide EncodeInt, EncodeStr, DecodeInt, DecodeStr, Lookup, Consistent, StaticField, StaticName;
    StaticInversion(st.table.entries, h);
    var nameIdx := StaticName([]);
    if StaticField(h) > 0 {
      IntRoundTrip(0x80, StaticField(h), 7, rest);
    } else {
      FirstByteIsNeverIndexed(nameIdx, h, rest);
      var value := EncodeStr(h.value) + rest;
      var name := if nameIdx > 0 then [] else EncodeStr([]);
      assert EncodeField(h) + rest == EncodeInt(0x10, nameIdx, 4) + (name + value);
      IntRoundTrip(0x10, nameIdx, 4, name + value);
      if nameIdx == 0 {
        StrRoundTrip([], value, mem);
      }
    }
  }

  /** A block the encoder wrote is accepted exactly when every name is real. */
  lemma {:induction false} BlockAcceptedIff(st: Decoding, hs: seq<Header>, mem: Memory)
    requires Consistent(st.table) && AllRoom(mem)
    requires forall h :: h in hs ==> Writable(h)
    ensures DecodeBlock(st, EncodeBlock(hs), mem).ok <==> forall h :: h in hs ==> h.name != []
    decreases |hs|
  {
    hide EncodeField, DecodeField, Writable, Consistent;
    if hs != [] {
      assert forall h :: h in hs <==> h == hs[0] || h in hs[1..];
      if hs[0].name == [] {
        NamelessRejected(st, hs[0], EncodeBlock(hs[1..]), mem);
      } else {
        FieldRoundTrip(st, hs[0], EncodeBlock(hs[1..]), mem);
        BlockAcceptedIff(st.(delivered := st.delivered + [hs[0]]), hs[1..], mem);
      }
    }
  }
}
