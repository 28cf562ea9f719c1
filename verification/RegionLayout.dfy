/** Regions of the pool as intervals of bytes: sorting and merging the free
    list, and what that keeps. */
module RegionLayout {

  datatype Slot = Slot(offset: nat, size: nat) {
    function End(): nat {
      offset + size
    }

    predicate Holds(b: int) {
      offset <= b < offset + size
    }
  }

  const POOL_SIZE: nat := 0x1000_0000
  const MIN_REGION: nat := 4096

  /** A proper region: not empty and aligned. */
  predicate Proper(s: Slot) {
    s.size > 0 && s.offset % MIN_REGION == 0 && s.size % MIN_REGION == 0
  }

  predicate AllProper(fs: seq<Slot>) {
    forall i :: 0 <= i < |fs| ==> Proper(fs[i])
  }

  /** Some slot of the list holds byte `b`. */
  ghost predicate Covers(fs: seq<Slot>, b: int) {
    exists i :: 0 <= i < |fs| && fs[i].Holds(b)
  }

  /** In order of offset, neighbours without overlap. */
  predicate Ordered(fs: seq<Slot>) {
    forall i, j :: 0 <= i < |fs| && j == i + 1 < |fs| ==> fs[i].End() <= fs[j].offset
  }

  /** In order of offset, and no two neighbours touch. */
  predicate Gapped(fs: seq<Slot>) {
    forall i, j :: 0 <= i < |fs| && j == i + 1 < |fs| ==> fs[i].End() < fs[j].offset
  }

  /** Then no two slots overlap or touch. */
  lemma {:induction false} GappedPairs(fs: seq<Slot>, i: nat, j: nat)
    requires Gapped(fs) && i < j < |fs|
    ensures fs[i].End() < fs[j].offset
    decreases j
  {
    if i < j - 1 {
      GappedPairs(fs, i, j - 1);
      assert fs[j - 1].End() < fs[j].offset;
    }
  }

  // ---- Sorting by offset ----

  predicate SortedByOffset(fs: seq<Slot>) {
    forall i, j :: 0 <= i < |fs| && j == i + 1 < |fs| ==> fs[i].offset <= fs[j].offset
  }

  /** Behind which of the first `n` slots an offset belongs. */
  function Position(fs: seq<Slot>, offset: nat, n: nat): (k: nat)
    requires n <= |fs|
    ensures k <= n && (k > 0 ==> fs[k - 1].offset <= offset)
    ensures forall j :: k <= j < n ==> fs[j].offset > offset
  {
    if n == 0 || fs[n - 1].offset <= offset then n else Position(fs, offset, n - 1)
  }

  /** `s` put into place `k`. */
  function InsertAt(fs: seq<Slot>, s: Slot, k: nat): (r: seq<Slot>)
    requires k <= |fs|
    ensures |r| == |fs| + 1
    ensures forall i {:trigger r[i]} :: 0 <= i < |r| ==>
              r[i] == if i < k then fs[i] else if i == k then s else fs[i - 1]
  {
    fs[..k] + [s] + fs[k..]
  }

  lemma InsertAtSame(fs: seq<Slot>, s: Slot, k: nat)
    requires k <= |fs|
    ensures multiset(InsertAt(fs, s, k)) == multiset(fs) + multiset{s}
  {
    assert fs == fs[..k] + fs[k..];
  }

  lemma InsertAtSorted(fs: seq<Slot>, s: Slot)
    requires SortedByOffset(fs)
    ensures SortedByOffset(InsertAt(fs, s, Position(fs, s.offset, |fs|)))
  {
    hide InsertAt;
  }

  /** The list in order of offset. */
  function Sorted(fs: seq<Slot>): seq<Slot> {
    if fs == [] then [] else
      var r, s := Sorted(fs[..|fs| - 1]), fs[|fs| - 1];
      InsertAt(r, s, Position(r, s.offset, |r|))
  }

  lemma {:induction false} SortedOk(fs: seq<Slot>)
    ensures SortedByOffset(Sorted(fs)) && multiset(Sorted(fs)) == multiset(fs)
  {
    hide InsertAt;
    if fs != [] {
      var front, s := fs[..|fs| - 1], fs[|fs| - 1];
      SortedOk(front);
      assert fs == front + [s];
      InsertAtSorted(Sorted(front), s);
      InsertAtSame(Sorted(front), s, Position(Sorted(front), s.offset, |Sorted(front)|));
    }
  }

  // ---- Merging ----

  /** Put `s` behind `acc`, growing the last slot if they touch. */
  function Append(acc: seq<Slot>, s: Slot): seq<Slot> {
    if acc != [] && acc[|acc| - 1].End() == s.offset
    then acc[..|acc| - 1] + [Slot(acc[|acc| - 1].offset, acc[|acc| - 1].size + s.size)]
    else acc + [s]
  }

  /** The first `n` slots of an ordered list, merged. */
  function Merged(fs: seq<Slot>, n: nat): seq<Slot>
    requires n <= |fs|
  {
    if n == 0 then [] else Append(Merged(fs, n - 1), fs[n - 1])
  }

  lemma AppendGapped(acc: seq<Slot>, s: Slot)
    requires Gapped(acc) && AllProper(acc) && Proper(s)
    requires acc != [] ==> acc[|acc| - 1].End() <= s.offset
    ensures Gapped(Append(acc, s)) && AllProper(Append(acc, s))
    ensures Append(acc, s) != [] && Append(acc, s)[|Append(acc, s)| - 1].End() == s.End()
  {
  }

  lemma AppendCovers(acc: seq<Slot>, s: Slot, b: int)
    ensures Covers(Append(acc, s), b) <==> Covers(acc, b) || s.Holds(b)
  {
    var r := Append(acc, s);
    if Covers(acc, b) {
      var i :| 0 <= i < |acc| && acc[i].Holds(b);
      assert r[i].Holds(b);
    }
    if s.Holds(b) {
      assert r[|r| - 1].Holds(b);
    }
  }

  /** Merging an ordered list leaves no two slots touching, keeps alignment,
      and covers exactly the same bytes. */
  lemma {:induction false} MergedGapped(fs: seq<Slot>, n: nat)
    requires n <= |fs| && Ordered(fs) && AllProper(fs)
    ensures Gapped(Merged(fs, n)) && AllProper(Merged(fs, n))
    ensures n > 0 ==> Merged(fs, n) != [] && Merged(fs, n)[|Merged(fs, n)| - 1].End() == fs[n - 1].End()
  {
    if n > 0 {
      MergedGapped(fs, n - 1);
      AppendGapped(Merged(fs, n - 1), fs[n - 1]);
    }
  }

  lemma {:induction false} MergedCovers(fs: seq<Slot>, n: nat, b: int)
    requires n <= |fs|
    ensures Covers(Merged(fs, n), b) <==> exists i :: 0 <= i < n && fs[i].Holds(b)
  {
    if n > 0 {
      MergedCovers(fs, n - 1, b);
      AppendCovers(Merged(fs, n - 1), fs[n - 1], b);
    }
  }

  // ---- The whole pool ----

  ghost predicate InSome(out: set<Slot>, b: int) {
    exists r :: r in out && r.Holds(b)
  }

  /** The free list and the handed-out regions: all proper, the free list
      sorted with gaps, no byte in two regions, and together exactly the
      first `top` bytes. */
  ghost predicate Layout(free: seq<Slot>, out: set<Slot>, top: nat) {
    && AllProper(free) && Gapped(free) && (forall r :: r in out ==> Proper(r))
    && (forall r, s :: r in out && s in out && r != s ==> Apart(r, s))
    && (forall b: int :: Covers(free, b) || InSome(out, b) <==> 0 <= b < top)
    && (forall b: int :: !(Covers(free, b) && InSome(out, b)))
    && top <= POOL_SIZE && top % MIN_REGION == 0
  }

  predicate Apart(r: Slot, s: Slot) {
    r.End() <= s.offset || s.End() <= r.offset
  }

  lemma SharedByte(r: Slot, s: Slot)
    requires Proper(r) && Proper(s) && !Apart(r, s)
    ensures exists b :: r.Holds(b) && s.Holds(b)
  {
    var b := if r.offset <= s.offset then s.offset else r.offset;
    assert r.Holds(b) && s.Holds(b);
  }

  /** A free slot lies apart from every region handed out. */
  lemma FreeApart(free: seq<Slot>, out: set<Slot>, top: nat, i: nat, r: Slot)
    requires Layout(free, out, top) && i < |free| && r in out
    ensures Apart(free[i], r)
  {
    if !Apart(free[i], r) {
      SharedByte(free[i], r);
      var b :| free[i].Holds(b) && r.Holds(b);
      assert Covers(free, b) && InSome(out, b);
      assert false;
    }
  }

  /** Handing out a free slot. */
  lemma TakeSlot(free: seq<Slot>, out: set<Slot>, top: nat, i: nat)
    requires Layout(free, out, top) && i < |free|
    ensures free[i] !in out
    ensures Layout(free[..i] + free[i + 1..], out + {free[i]}, top)
  {
    var rest, out' := free[..i] + free[i + 1..], out + {free[i]};
    TakeGapped(free, i);
    assert free[i].Holds(free[i].offset);
    forall r | r in out ensures Apart(free[i], r) && Apart(r, free[i]) {
      FreeApart(free, out, top, i, r);
    }
    forall b: int ensures Covers(rest, b) || InSome(out', b) <==> 0 <= b < top
                  ensures !(Covers(rest, b) && InSome(out', b))
    {
      TakeCovers(free, i, b);
      AddedHolds(out, free[i], b);
    }
  }

  lemma TakeGapped(free: seq<Slot>, i: nat)
    requires Gapped(free) && AllProper(free) && i < |free|
    ensures Gapped(free[..i] + free[i + 1..]) && AllProper(free[..i] + free[i + 1..])
  {
    if 0 < i < |free| - 1 {
      GappedPairs(free, i - 1, i + 1);
    }
  }

  /** Without slot `i` the list covers what it covered, less that slot. */
  lemma TakeCovers(free: seq<Slot>, i: nat, b: int)
    requires Gapped(free) && AllProper(free) && i < |free|
    ensures Covers(free[..i] + free[i + 1..], b) <==> Covers(free, b) && !free[i].Holds(b)
  {
    var rest := free[..i] + free[i + 1..];
    if Covers(free, b) && !free[i].Holds(b) {
      var k :| 0 <= k < |free| && free[k].Holds(b);
      assert rest[if k < i then k else k - 1].Holds(b);
    }
    if Covers(rest, b) {
      var k :| 0 <= k < |rest| && rest[k].Holds(b);
      var k' := if k < i then k else k + 1;
      assert free[k'].Holds(b);
      if k' < i {
        GappedPairs(free, k', i);
      } else {
        GappedPairs(free, i, k');
      }
    }
  }

  lemma AddedHolds(out: set<Slot>, s: Slot, b: int)
    ensures InSome(out + {s}, b) <==> InSome(out, b) || s.Holds(b)
  {
    if InSome(out, b) {
      var r :| r in out && r.Holds(b);
      assert r in out + {s};
    }
  }

  /** Handing out new space from the top. */
  lemma BumpTop(free: seq<Slot>, out: set<Slot>, top: nat, need: nat)
    requires Layout(free, out, top) && need > 0 && need % MIN_REGION == 0 && top + need <= POOL_SIZE
    ensures Slot(top, need) !in out
    ensures Layout(free, out + {Slot(top, need)}, top + need)
  {
    var s := Slot(top, need);
    forall r | r in out ensures r.End() <= top {
      assert r.Holds(r.End() - 1);
      assert InSome(out, r.End() - 1);
    }
    forall b: int ensures Covers(free, b) || InSome(out + {s}, b) <==> 0 <= b < top + need
                  ensures !(Covers(free, b) && InSome(out + {s}, b))
    {
      AddedHolds(out, s, b);
    }
  }

  // ---- Giving a region back ----

  lemma {:induction false} SortedAlready(fs: seq<Slot>)
    requires SortedByOffset(fs)
    ensures Sorted(fs) == fs
  {
    if fs != [] {
      var front, s := fs[..|fs| - 1], fs[|fs| - 1];
      SortedAlready(front);
      assert front != [] ==> front[|front| - 1].offset <= s.offset;
      assert InsertAt(front, s, |front|) == front + [s] == fs;
    }
  }

  /** The list after pushing `r` and sorting: `r` in its place. */
  lemma PushThenSort(free: seq<Slot>, r: Slot)
    requires Gapped(free) && AllProper(free)
    ensures Sorted(free + [r]) == InsertAt(free, r, Position(free, r.offset, |free|))
  {
    assert (free + [r])[..|free|] == free;
    SortedAlready(free);
  }

  lemma PlacedOrdered(free: seq<Slot>, r: Slot, k: nat)
    requires Gapped(free) && AllProper(free) && Proper(r)
    requires k <= |free| && (k > 0 ==> free[k - 1].End() <= r.offset) && (k < |free| ==> r.End() <= free[k].offset)
    ensures Ordered(InsertAt(free, r, k)) && AllProper(InsertAt(free, r, k))
  {
    hide InsertAt;
  }

  lemma PlacedCovers(free: seq<Slot>, r: Slot, k: nat, b: int)
    requires k <= |free|
    ensures Covers(InsertAt(free, r, k), b) <==> Covers(free, b) || r.Holds(b)
  {
    hide InsertAt;
    var fs := InsertAt(free, r, k);
    if r.Holds(b) {
      assert fs[k].Holds(b);
    }
    if Covers(free, b) {
      var i :| 0 <= i < |free| && free[i].Holds(b);
      assert fs[if i < k then i else i + 1].Holds(b);
    }
  }

  /** The free list after a release. */
  function Coalesced(free: seq<Slot>): seq<Slot> {
    Merged(Sorted(free), |Sorted(free)|)
  }

  lemma GiveBack(free: seq<Slot>, out: set<Slot>, top: nat, r: Slot)
    requires Layout(free, out, top) && r in out
    ensures Layout(Coalesced(free + [r]), out - {r}, top)
  {
    hide InsertAt, Merged;
    var k := Position(free, r.offset, |free|);
    var fs := InsertAt(free, r, k);
    if k > 0 {
      FreeApart(free, out, top, k - 1, r);
    }
    if k < |free| {
      FreeApart(free, out, top, k, r);
    }
    PlacedOrdered(free, r, k);
    PushThenSort(free, r);
    MergedGapped(fs, |fs|);
    forall b: int ensures Covers(Coalesced(free + [r]), b) <==> Covers(free, b) || r.Holds(b)
    {
      PlacedCovers(free, r, k, b);
      MergedCovers(fs, |fs|, b);
    }
    GivenBytes(free, Coalesced(free + [r]), out, top, r);
  }

  lemma GivenBytes(free: seq<Slot>, fs: seq<Slot>, out: set<Slot>, top: nat, r: Slot)
    requires Layout(free, out, top) && r in out && Gapped(fs) && AllProper(fs)
    requires forall b: int :: Covers(fs, b) <==> Covers(free, b) || r.Holds(b)
    ensures Layout(fs, out - {r}, top)
  {
    forall b: int ensures InSome(out - {r}, b) <==> InSome(out, b) && !r.Holds(b) {
      if InSome(out, b) && !r.Holds(b) {
        var s :| s in out && s.Holds(b);
        assert s in out - {r};
      }
      if InSome(out - {r}, b) {
        var s :| s in out - {r} && s.Holds(b);
        assert Apart(r, s);
      }
    }
    forall b: int ensures Covers(fs, b) || InSome(out - {r}, b) <==> 0 <= b < top
                  ensures !(Covers(fs, b) && InSome(out - {r}, b))
    {
      assert r.Holds(b) ==> InSome(out, b);
    }
  }
}
