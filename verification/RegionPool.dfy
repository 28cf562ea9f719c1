/** The worker's memory pool: first fit through a free list, else bump
    allocation; released regions are sorted in and merged in place. */
module RegionPool {
  import opened Bits
  import opened RegionLayout

  /** A request rounded up to whole minimum regions. */
  function Need(minSize: nat): (need: nat)
    ensures need >= minSize && need >= 4096 && need % 4096 == 0
    ensures need < minSize + 4096 || need == 4096
  {
    var n := ((minSize + MIN_REGION - 1) / MIN_REGION) * MIN_REGION;
    if n < MIN_REGION then MIN_REGION else n
  }

  /** No slot of the free list is large enough. */
  predicate NoFit(free: seq<Slot>, need: nat) {
    forall i :: 0 <= i < |free| ==> free[i].size < need
  }

  /** `s` is the first of `was` that is large enough, and `now` the others. */
  predicate FirstTaken(was: seq<Slot>, k: nat, s: Slot, now: seq<Slot>, need: nat) {
    k < |was| && NoFit(was[..k], need) && was[k] == s && s.size >= need && now == was[..k] + was[k + 1..]
  }

  class RegionPool {
    const base: array<byte>
    var bumpOffset: nat
    var free: seq<Slot>
    /** The regions handed out and not given back. */
    ghost var outstanding: set<Slot>
    /** How much was ever handed out by bumping. */
    ghost var top: nat

    ghost predicate Valid()
      reads this
    {
      && base.Length == POOL_SIZE && Layout(free, outstanding, top)
      && (bumpOffset == top || bumpOffset > POOL_SIZE)
    }

    /** Nothing free fits, and bumping overflows or has overflowed before. */
    ghost predicate Refuses(minSize: nat)
      reads this
    {
      NoFit(free, Need(minSize)) && (bumpOffset != top || top + Need(minSize) > POOL_SIZE)
    }

    constructor ()
      ensures Valid() && outstanding == {} && free == [] && top == 0 && bumpOffset == 0 && fresh(base)
    {
      base := new byte[POOL_SIZE];
      bumpOffset, free, outstanding, top := 0, [], {}, 0;
    }

    /** A region of at least `minSize` bytes, or size 0. It fails exactly when
        nothing free fits and bumping overflows; and since a failed bump is
        not undone, after the first failure only the free list serves. */
    method Acquire(minSize: nat) returns (offset: nat, size: nat)
      requires Valid()
      modifies this
      ensures Valid()
      ensures size == 0 <==> old(Refuses(minSize))
      ensures size == 0 ==> offset == 0 && outstanding == old(outstanding) && free == old(free) && top == old(top)
      ensures size == 0 ==> bumpOffset == old(bumpOffset) + Need(minSize)
      ensures size > 0 ==> size >= Need(minSize) && Slot(offset, size) !in old(outstanding)
      ensures size > 0 ==> outstanding == old(outstanding) + {Slot(offset, size)} && offset + size <= 0x1000_0000
      ensures NoFit(old(free), Need(minSize)) && size > 0 ==>
                offset == old(top) && size == Need(minSize) && free == old(free) && top == old(top) + size
      ensures !NoFit(old(free), Need(minSize)) ==>
                top == old(top) && exists k :: FirstTaken(old(free), k, Slot(offset, size), free, Need(minSize))
    {
      hide Layout, Need;
      var need := Need(minSize);
      var i := FirstFit(need);
      if i < |free| {
        SlotInside(free, outstanding, top, i);
        TakeSlot(free, outstanding, top, i);
        offset, size := free[i].offset, free[i].size;
        outstanding := outstanding + {free[i]};
        free := free[..i] + free[i + 1..];
        assert FirstTaken(old(free), i, Slot(offset, size), free, need);
        return;
      }
      offset := bumpOffset;
      bumpOffset := bumpOffset + need;
      if bumpOffset > POOL_SIZE {
        return 0, 0;
      }
      BumpTop(free, outstanding, top, need);
      outstanding, top := outstanding + {Slot(offset, need)}, top + need;
      size := need;
    }

    method FirstFit(need: nat) returns (i: nat)
      ensures i <= |free| && NoFit(free[..i], need) && (i < |free| ==> free[i].size >= need)
      ensures i == |free| ==> NoFit(free, need)
    {
      i := 0;
      while i < |free| && free[i].size < need
        invariant i <= |free| && NoFit(free[..i], need)
      {
        i := i + 1;
      }
      assert free[..|free|] == free;
    }

    /** Gives a region back. */
    method Release(offset: nat, size: nat)
      requires Valid() && (size > 0 ==> Slot(offset, size) in outstanding)
      modifies this
      ensures Valid() && top == old(top) && bumpOffset == old(bumpOffset)
      ensures outstanding == old(outstanding) - {Slot(offset, size)}
      ensures free == if size == 0 then old(free) else Coalesced(old(free) + [Slot(offset, size)])
    {
      hide Layout;
      if size == 0 {
        NoEmptyRegion(free, outstanding, top, offset);
        return;
      }
      GiveBack(free, outstanding, top, Slot(offset, size));
      free := free + [Slot(offset, size)];
      outstanding := outstanding - {Slot(offset, size)};
      Coalesce();
    }

    method Coalesce()
      modifies `free
      ensures free == Coalesced(old(free))
    {
      hide Sorted;
      if |free| < 2 {
        ShortList(free);
        return;
      }
      free := SortFree(free);
      Compact();
    }

    /** Merges touching neighbours in place: `wi` is the last merged slot, `ri`
        the next one to look at. */
    method Compact()
      requires free != []
      modifies `free
      ensures free == Merged(old(free), |old(free)|)
    {
      hide Merged;
      var wi := 0;
      FirstMerged(free);
      for ri := 1 to |free|
        invariant Compacting(free, old(free), wi, ri)
      {
        CompactStep(free, old(free), wi, ri);
        if free[wi].End() == free[ri].offset {
          free := Grown(free, wi, ri);
        } else {
          wi := wi + 1;
          free := free[wi := free[ri]];
        }
      }
      free := free[..wi + 1];
    }
  }

  /** The buffer during compaction: merged slots, stale ones, unread ones. */
  ghost predicate Compacting(buf: seq<Slot>, fs: seq<Slot>, wi: nat, ri: nat) {
    |buf| == |fs| && wi < ri <= |fs| && buf[..wi + 1] == Merged(fs, ri) && buf[ri..] == fs[ri..]
  }

  /** The last merged slot takes in the one behind it. */
  function Grown(buf: seq<Slot>, wi: nat, ri: nat): seq<Slot>
    requires wi < |buf| && ri < |buf|
  {
    buf[wi := Slot(buf[wi].offset, buf[wi].size + buf[ri].size)]
  }

  lemma FirstMerged(fs: seq<Slot>)
    requires fs != []
    ensures Compacting(fs, fs, 0, 1)
  {
    assert Merged(fs, 0) == [];
  }

  lemma CompactStep(buf: seq<Slot>, fs: seq<Slot>, wi: nat, ri: nat)
    requires Compacting(buf, fs, wi, ri) && ri < |fs|
    ensures buf[wi].End() == buf[ri].offset ==> Compacting(Grown(buf, wi, ri), fs, wi, ri + 1)
    ensures buf[wi].End() != buf[ri].offset ==> Compacting(buf[wi + 1 := buf[ri]], fs, wi + 1, ri + 1)
  {
    var acc, s := buf[..wi + 1], fs[ri];
    assert buf[ri] == buf[ri..][0] == s;
    assert Merged(fs, ri + 1) == Append(acc, s);
    if buf[wi].End() == s.offset {
      assert Grown(buf, wi, ri)[..wi + 1] == Append(acc, s);
      assert Grown(buf, wi, ri)[ri + 1..] == fs[ri + 1..];
    } else {
      assert buf[wi + 1 := s][..wi + 2] == Append(acc, s);
      assert buf[wi + 1 := s][ri + 1..] == fs[ri + 1..];
    }
  }

  lemma SlotInside(free: seq<Slot>, out: set<Slot>, top: nat, i: nat)
    requires Layout(free, out, top) && i < |free|
    ensures free[i].size > 0 && free[i].End() <= POOL_SIZE
  {
    assert free[i].Holds(free[i].End() - 1);
    assert Covers(free, free[i].End() - 1);
  }

  lemma NoEmptyRegion(free: seq<Slot>, out: set<Slot>, top: nat, offset: nat)
    requires Layout(free, out, top)
    ensures out - {Slot(offset, 0)} == out
  {
    assert Slot(offset, 0) in out ==> Proper(Slot(offset, 0));
  }

  lemma ShortList(fs: seq<Slot>)
    requires |fs| < 2
    ensures Coalesced(fs) == fs
  {
    SortedAlready(fs);
    if |fs| == 1 {
      assert Merged(fs, 0) == [];
    }
  }

  /** Insertion by insertion, the list in order of offset. */
  method SortFree(fs: seq<Slot>) returns (r: seq<Slot>)
    ensures r == Sorted(fs) && |r| == |fs|
  {
    hide InsertAt, Position;
    r := [];
    for i := 0 to |fs|
      invariant r == Sorted(fs[..i]) && |r| == i
    {
      var k := FindPosition(r, fs[i].offset);
      assert fs[..i + 1][..i] == fs[..i];
      r := InsertAt(r, fs[i], k);
    }
    assert fs[..|fs|] == fs;
  }

  method FindPosition(r: seq<Slot>, offset: nat) returns (k: nat)
    ensures k == Position(r, offset, |r|)
  {
    k := |r|;
    while k > 0 && r[k - 1].offset > offset
      invariant 0 <= k <= |r| && Position(r, offset, k) == Position(r, offset, |r|)
    {
      k := k - 1;
    }
  }
}
