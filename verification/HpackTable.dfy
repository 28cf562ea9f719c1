/** The decoder's dynamic table (section 4 of RFC 7541) against the history
    of everything ever inserted. Both are newest first. */
module HpackTable {
  import opened Bits
  import opened Fields
  import opened StaticTable

  function EntrySize(h: Header): (s: nat)
    ensures s >= 32
  {
    32 + |h.name| + |h.value|
  }

  /** The size of the first `n` entries. */
  function SizeOf(es: seq<Header>, n: nat): nat
    requires n <= |es|
  {
    if n == 0 then 0 else SizeOf(es, n - 1) + EntrySize(es[n - 1])
  }

  datatype Table = Table(entries: seq<Header>, size: nat, max: nat)

  /** The running size is the sum of the entry sizes. */
  predicate Consistent(t: Table) {
    t.size == SizeOf(t.entries, |t.entries|)
  }

  /** `es` is the longest newest-first part of `history` that fits in `max`. */
  predicate NewestThatFit(es: seq<Header>, history: seq<Header>, max: nat) {
    && |es| <= |history|
    && es == history[..|es|]
    && SizeOf(history, |es|) <= max
    && (|es| < |history| ==> SizeOf(history, |es| + 1) > max)
  }

  predicate Refines(t: Table, history: seq<Header>) {
    Consistent(t) && NewestThatFit(t.entries, history, t.max)
  }

  lemma {:induction false} SizeOfPrefix(es: seq<Header>, history: seq<Header>, n: nat)
    requires n <= |es| <= |history| && es == history[..|es|]
    ensures SizeOf(es, n) == SizeOf(history, n)
  {
    if n > 0 {
      SizeOfPrefix(es, history, n - 1);
    }
  }

  lemma SizesOfPrefix(es: seq<Header>, history: seq<Header>)
    requires |es| <= |history| && es == history[..|es|]
    ensures forall n :: 0 <= n <= |es| ==> SizeOf(es, n) == SizeOf(history, n)
  {
    forall n | 0 <= n <= |es| ensures SizeOf(es, n) == SizeOf(history, n) {
      SizeOfPrefix(es, history, n);
    }
  }

  lemma {:induction false} SizeOfGrows(es: seq<Header>, m: nat, n: nat)
    requires m <= n <= |es|
    ensures SizeOf(es, m) <= SizeOf(es, n)
    ensures m < n ==> SizeOf(es, m) < SizeOf(es, n)
  {
    if m < n {
      SizeOfGrows(es, m, n - 1);
    }
  }

  lemma {:induction false} SizeOfCons(h: Header, es: seq<Header>, n: nat)
    requires n <= |es|
    ensures SizeOf([h] + es, n + 1) == EntrySize(h) + SizeOf(es, n)
  {
    if n == 0 {
      assert SizeOf([h] + es, 0) == 0;
    } else {
      SizeOfCons(h, es, n - 1);
    }
  }

  /** Drop the oldest entries until the size is at most `target`. */
  function Evict(t: Table, target: nat): (r: Table)
    requires Consistent(t)
    ensures Consistent(r) && r.max == t.max
    ensures NewestThatFit(r.entries, t.entries, target)
    decreases |t.entries|
  {
    assert t.entries == t.entries[..|t.entries|];
    if t.size > target && t.entries != [] then
      var n := |t.entries| - 1;
      var front := t.entries[..n];
      SizesOfPrefix(front, t.entries);
      Evict(Table(front, t.size - EntrySize(t.entries[n]), t.max), target)
    else t
  }

  /** What is left when there is room for an entry of size `s`, or nothing is left. */
  function MakeRoom(t: Table, s: nat): (e: Table)
    requires Consistent(t)
    ensures Consistent(e) && e.max == t.max && e.entries <= t.entries
  {
    Evict(t, t.max - (if s < t.max then s else t.max))
  }

  /** Add `h`, evicting to make room; an entry larger than the table empties it. */
  function Insert(t: Table, h: Header): (r: Table)
    requires Consistent(t)
    ensures Consistent(r) && r.max == t.max
  {
    var s := EntrySize(h);
    var e := MakeRoom(t, s);
    if s <= t.max then
      SizeOfCons(h, e.entries, |e.entries|);
      Table([h] + e.entries, e.size + s, t.max)
    else e
  }

  function Resize(t: Table, max: nat): (r: Table)
    requires Consistent(t)
    ensures Consistent(r) && r.max == max
  {
    Evict(t, max).(max := max)
  }

  /** Fitting in less of what fits is fitting in less. */
  lemma NewestOfNewest(a: seq<Header>, b: seq<Header>, history: seq<Header>, small: nat, max: nat)
    requires small <= max
    requires NewestThatFit(b, history, max) && NewestThatFit(a, b, small)
    ensures NewestThatFit(a, history, small)
  {
    assert a == history[..|a|];
    SizeOfPrefix(b, history, |a|);
    if |a| < |b| {
      SizeOfPrefix(b, history, |a| + 1);
    }
  }

  /** An entry that fits goes in front of what still fits beside it. */
  lemma FittingInsert(es: seq<Header>, history: seq<Header>, h: Header, max: nat)
    requires EntrySize(h) <= max && NewestThatFit(es, history, max - EntrySize(h))
    ensures NewestThatFit([h] + es, [h] + history, max)
  {
    SizeOfCons(h, history, |es|);
    if |es| < |history| {
      SizeOfCons(h, history, |es| + 1);
    }
  }

  /** Before an oversized entry nothing older can fit. */
  lemma OversizedInsert(es: seq<Header>, history: seq<Header>, h: Header, max: nat)
    requires EntrySize(h) > max && NewestThatFit(es, history, 0)
    ensures NewestThatFit(es, [h] + history, max)
  {
    SizeOfGrows(history, 0, |es|);
    assert es == [];
    SizeOfCons(h, history, 0);
  }

  lemma InsertRefines(t: Table, history: seq<Header>, h: Header)
    requires Refines(t, history)
    ensures Refines(Insert(t, h), [h] + history)
  {
    hide NewestThatFit, Evict, EntrySize;
    var s := EntrySize(h);
    var target := t.max - (if s < t.max then s else t.max);
    var e := Evict(t, target).entries;
    NewestOfNewest(e, t.entries, history, target, t.max);
    if s <= t.max {
      FittingInsert(e, history, h, t.max);
    } else {
      OversizedInsert(e, history, h, t.max);
    }
  }

  lemma ShrinkRefines(t: Table, history: seq<Header>, max: nat)
    requires Refines(t, history) && max <= t.max
    ensures Refines(Resize(t, max), history)
  {
    NewestOfNewest(Evict(t, max).entries, t.entries, history, max, t.max);
  }

  /** Changing the limit from outside keeps the refinement exactly when it is
      not raised, or nothing was dropped, or the entry dropped last would
      still not fit. */
  lemma ResizeRefinesIff(t: Table, history: seq<Header>, max: nat)
    requires Refines(t, history)
    ensures Refines(Resize(t, max), history)
       <==> max <= t.max || |t.entries| == |history| || t.size + EntrySize(history[|t.entries|]) > max
  {
    SizeOfPrefix(t.entries, history, |t.entries|);
    if max <= t.max {
      ShrinkRefines(t, history, max);
    } else {
      assert Evict(t, max) == t;
    }
  }

  /** Raising the limit does not bring evicted entries back. */
  lemma RaisingForgets(h: Header)
    ensures Refines(Table([h], EntrySize(h), EntrySize(h)), [h])
    ensures !Refines(Resize(Resize(Table([h], EntrySize(h), EntrySize(h)), 0), EntrySize(h)), [h])
  {
    var t := Table([h], EntrySize(h), EntrySize(h));
    assert SizeOf([h], 1) == SizeOf([h], 0) + EntrySize(h);
    var empty := Resize(t, 0);
    ShrinkRefines(t, [h], 0);
    assert empty == Table([], 0, 0);
    ResizeRefinesIff(empty, [h], EntrySize(h));
  }

  /** The combined index space: static entries, then the dynamic table. */
  function Lookup(entries: seq<Header>, index: int): Header
  {
    if 1 <= index <= |STATIC| then STATIC[index - 1]
    else if 0 <= index - 62 < |entries| then entries[index - 62]
    else Header([], [])
  }

  /** Dynamic index 62 + k names the k-th newest insertion, while it fits. */
  lemma LookupIsHistory(t: Table, history: seq<Header>, k: nat)
    requires Refines(t, history)
    ensures Lookup(t.entries, 62 + k)
         == if k < |history| && SizeOf(history, k + 1) <= t.max then history[k] else Header([], [])
  {
    StaticLength();
    if k < |history| {
      if k < |t.entries| {
        SizeOfGrows(history, k + 1, |t.entries|);
      } else {
        SizeOfGrows(history, |t.entries| + 1, k + 1);
      }
    }
  }

  // ---- Names read after the eviction ----

  /** The decoder makes room for a literal before it reads the literal's name.
      A name taken from the dynamic table is still there then, or not needed. */
  predicate NameKept(t: Table, index: int, h: Header)
    requires Consistent(t)
  {
    index < 62 || EntrySize(h) > t.max || index - 62 < |MakeRoom(t, EntrySize(h)).entries|
  }

  /** `n` bytes of memory that was given back. */
  function Junk(n: nat, stale: Bytes): (r: Bytes)
    ensures |r| == n
  {
    seq(n, i requires 0 <= i < n => if i < |stale| then stale[i] else 0)
  }

  /** The entry that is stored for `h`, whose name is that of `index`. */
  function Stored(t: Table, index: int, h: Header, stale: Bytes): (s: Header)
    requires Consistent(t)
    ensures EntrySize(s) == EntrySize(h)
  {
    if NameKept(t, index, h) then h else Header(Junk(|h.name|, stale), h.value)
  }

  /** What is stored is what was sent, whatever the memory holds, exactly when
      the entry its name comes from survives making room for it. */
  lemma StoredAsMeant(t: Table, index: int, h: Header)
    requires Consistent(t) && h.name != []
    ensures NameKept(t, index, h) <==> forall stale :: Stored(t, index, h, stale) == h
  {
    hide MakeRoom;
    if !NameKept(t, index, h) {
      var other: Bytes := [if h.name[0] == 0 then 1 else 0];
      assert Stored(t, index, h, other).name[0] == other[0];
    }
  }

  /** A table with room for one entry: naming that entry in a new one evicts it. */
  lemma NameEvictedByItself(h: Header, value: Bytes)
    requires |h.name| == 10 && |h.value| == 10 && |value| == 10
    ensures var t := Table([h], 52, 60);
            && Consistent(t) && Lookup(t.entries, 62) == h
            && !NameKept(t, 62, Header(h.name, value))
            && Insert(t, Header(h.name, value)).entries == [Header(h.name, value)]
  {
    StaticLength();
    var t := Table([h], 52, 60);
    assert SizeOf([h], 1) == EntrySize(h) by { assert SizeOf([h], 0) == 0; }
    assert Evict(t, 8) == Table([], 0, 60) by {
      assert t.entries[..0] == [];
    }
  }

  /** What the encoder finds in the static table the decoder finds again. */
  lemma StaticInversion(entries: seq<Header>, h: Header)
    ensures StaticField(h) > 0 ==> Lookup(entries, StaticField(h)) == h
    ensures StaticName(h.name) > 0 ==> Lookup(entries, StaticName(h.name)).name == h.name
  {
    hide FindField, FindName;
  }
}
