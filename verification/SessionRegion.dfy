/** A session's bump region inside the worker's pool. References into it are
    offsets, so they stay good when the region moves. */
module SessionRegion {
  import opened Bits
  import opened RegionLayout
  import opened RegionPool

  const INIT_SIZE: nat := 65536

  /** A value of `size_t`. */
  type Size = n: nat | n < TWO64

  /** The bytes of an object in memory, at most half of the address space. */
  type Text = s: seq<byte> | |s| < 0x8000_0000_0000_0000

  /** Sizes are rounded up to eight bytes. */
  function Align8(n: nat): (r: nat)
    ensures n <= r < n + 8 && r % 8 == 0
  {
    (n + 7) / 8 * 8
  }

  /** The rounding and the addition as the code does them, on 64 bits. */
  function Rounded(n: Size): Size {
    (n + 7) % TWO64 / 8 * 8
  }

  function Bumped(used: nat, n: nat): Size {
    (used + n) % TWO64
  }

  /** The true end of `n` more bytes, rounded, is a 64-bit value. */
  predicate InWidth(used: nat, n: nat) {
    used + Align8(n) < TWO64
  }

  /** That is exactly when the code computes it; else it gets a value that is
      not behind `used`. */
  lemma BumpedExactly(used: nat, n: Size)
    requires used <= POOL_SIZE && n > 0
    ensures Bumped(used, Rounded(n)) == used + Align8(n) <==> InWidth(used, n)
    ensures !InWidth(used, n) ==> Bumped(used, Rounded(n)) == used + Align8(n) - TWO64 <= used
  {
    RoundedIs(n);
    hide Rounded;
    if Rounded(n) == Align8(n) && !InWidth(used, n) {
      DivModUnique(used + Rounded(n), TWO64, 1, used + Rounded(n) - TWO64);
    }
  }

  lemma RoundedIs(n: Size)
    ensures Rounded(n) == if Align8(n) < TWO64 then Align8(n) else 0
    ensures Align8(n) <= TWO64
  {
    if n + 7 >= TWO64 {
      DivModUnique(n + 7, TWO64, 1, n + 7 - TWO64);
    }
  }

  /** The reference to a request body, whose length is cut to 32 bits, lies in
      the space reserved for it exactly if its end is a 64-bit value; if not, it
      is longer than the pool. */
  lemma BodyInsideExactly(used: nat, n: Size)
    requires used <= POOL_SIZE && n > 0
    ensures used + n % TWO32 <= Bumped(used, Rounded(n)) <==> InWidth(used, n)
    ensures !InWidth(used, n) ==> n % TWO32 > POOL_SIZE
  {
    BumpedExactly(used, n);
    if !InWidth(used, n) {
      DivModUnique(n, TWO32, TWO32 - 1, n - (TWO64 - TWO32));
    }
  }

  lemma BumpedText(used: nat, n: nat)
    requires used <= POOL_SIZE && n < 0x8000_0000_0000_0000
    ensures Bumped(used, n) == used + n && InWidth(used, n)
  {
  }

  datatype RegionOff = RegionOff(off: nat, len: nat)

  /** Every region handed out before, except `mine`, is still handed out and
      holds the same bytes. */
  twostate predicate OthersKept(pool: RegionPool, mine: Slot)
    reads pool, pool.base
  {
    forall r :: r in old(pool.outstanding) && r != mine ==>
      r in pool.outstanding && forall i :: 0 <= i < pool.base.Length && r.Holds(i) ==> pool.base[i] == old(pool.base[i])
  }

  /** Twice the size, up to the whole pool. */
  function Doubled(cap: nat): nat {
    if cap * 2 > POOL_SIZE then POOL_SIZE else cap * 2
  }

  /** Why a region did not move: the pool refused, or gave the region at
      offset 0, which counts as a refusal. */
  twostate predicate NoMove(pool: RegionPool, size: nat)
    reads pool
  {
    old(pool.Refuses(size)) || exists s :: s in pool.outstanding && s !in old(pool.outstanding) && s.offset == 0
  }

  class SessionRegion {
    var pool: RegionPool?
    var offset: nat
    var cap: nat
    var used: nat

    ghost predicate Valid()
      reads this, pool
    {
      && used <= cap && offset + cap <= POOL_SIZE
      && (pool == null ==> cap == 0)
      && (pool != null ==> pool.Valid())
      && (pool != null && cap > 0 ==> Slot(offset, cap) in pool.outstanding)
    }

    /** The bytes written so far. */
    ghost function Content(): (c: seq<byte>)
      requires Valid()
      reads this, pool, if pool == null then {} else {pool.base}
      ensures |c| == used
    {
      if pool == null then [] else pool.base[offset..offset + used]
    }

    ghost function Mine(): Slot
      reads this
    {
      Slot(offset, cap)
    }

    constructor ()
      ensures Valid() && pool == null && Content() == []
    {
      pool, offset, cap, used := null, 0, 0, 0;
    }

    method Reset()
      requires Valid()
      modifies `used
      ensures Valid() && Content() == []
    {
      used := 0;
    }

    /** Moves to a region of twice the size, if the pool has one. */
    method Migrate()
      requires Valid()
      modifies this, pool, if pool == null then {} else {pool.base}
      ensures Valid() && pool == old(pool) && Content() == old(Content())
      ensures pool != null ==> OthersKept(pool, old(Mine()))
      ensures pool != null ==> Mine() == old(Mine()) || Mine() !in old(pool.outstanding)
      ensures pool != null ==> cap >= Doubled(old(cap)) || (Mine() == old(Mine()) && NoMove(pool, Doubled(old(cap))))
      ensures pool != null && pool.top > old(pool.top) && Mine() != old(Mine()) ==>
                cap == Need(if 2 * old(cap) < POOL_SIZE then 2 * old(cap) else POOL_SIZE)
    {
      hide Layout, FirstTaken, NoFit;
      if pool == null {
        return;
      }
      var newCap := Doubled(cap);
      var newOff, newSize := pool.Acquire(newCap);
      if newOff == 0 {
        assert newSize > 0 ==> Slot(newOff, newSize) in pool.outstanding;
        return;
      }
      MoveTo(newOff, newSize);
    }

    /** Copies what is used to the new region and gives the old one back. */
    method MoveTo(newOff: nat, newSize: nat)
      requires Valid() && pool != null && used <= newSize && newOff + newSize <= POOL_SIZE
      requires Slot(newOff, newSize) in pool.outstanding && Slot(newOff, newSize) != Mine()
      modifies this, pool, pool.base
      ensures Valid() && pool == old(pool) && Content() == old(Content()) && Mine() == Slot(newOff, newSize)
      ensures pool.top == old(pool.top)
      ensures forall r :: r in old(pool.outstanding) && r != old(Mine()) ==> r in pool.outstanding
      ensures forall r, i :: r in old(pool.outstanding) && r != Mine() && 0 <= i < POOL_SIZE && r.Holds(i) ==>
                pool.base[i] == old(pool.base[i])
    {
      hide Layout, Coalesced;
      if cap > 0 {
        OthersApart(pool.free, pool.outstanding, pool.top, Mine());
      }
      OthersApart(pool.free, pool.outstanding, pool.top, Slot(newOff, newSize));
      CopyInside(pool.base, offset, newOff, used);
      pool.Release(offset, cap);
      offset, cap := newOff, newSize;
    }

    /** Makes room for `n` more bytes if it can: there is room exactly if they
        fit now or after moving. */
    method Reserve(n: Size) returns (ok: bool)
      requires Valid()
      modifies this, pool, if pool == null then {} else {pool.base}
      ensures Valid() && pool == old(pool) && Content() == old(Content())
      ensures ok <==> Bumped(used, n) <= cap
      ensures Bumped(old(used), n) <= old(cap) ==> ok && Mine() == old(Mine())
      ensures pool != null ==> OthersKept(pool, old(Mine()))
      ensures pool != null ==> Mine() == old(Mine()) || Mine() !in old(pool.outstanding)
      ensures pool != null && !ok ==> cap >= Doubled(old(cap)) || NoMove(pool, Doubled(old(cap)))
    {
      hide Layout, Doubled, Bumped;
      if Bumped(used, n) > cap {
        Migrate();
      }
      ok := Bumped(used, n) <= cap;
    }

    /** Bump allocation: the place of `n` bytes behind the content, or nothing,
        exactly if their end is a 64-bit value. If it is not, the place is given
        but nothing is reserved: the content is cut instead. */
    method Alloc(n: Size) returns (ok: bool, at: nat)
      requires Valid()
      modifies this, pool, if pool == null then {} else {pool.base}
      ensures Valid() && pool == old(pool) && (n == 0 ==> !ok) && (ok ==> at == old(used))
      ensures (if ok then at + n <= used && old(Content()) <= Content() else Content() == old(Content()))
         <==> InWidth(old(used), n)
      ensures ok && InWidth(old(used), n) ==> used == old(used) + Align8(n)
      ensures !InWidth(old(used), n) ==> ok && used == old(used) + Align8(n) - TWO64 && Mine() == old(Mine())
      ensures !InWidth(old(used), n) ==> Content() <= old(Content())
      ensures n > 0 && old(used) + Align8(n) <= old(cap) ==> ok && Mine() == old(Mine())
      ensures !ok && n > 0 ==> used + Align8(n) > cap
      ensures pool != null && !ok && n > 0 ==> cap >= Doubled(old(cap)) || NoMove(pool, Doubled(old(cap)))
      ensures pool != null ==> OthersKept(pool, old(Mine()))
      ensures pool != null ==> Mine() == old(Mine()) || Mine() !in old(pool.outstanding)
    {
      hide Layout, Align8, Doubled, Rounded, Bumped;
      ok, at := false, 0;
      if n == 0 {
        return;
      }
      BumpedExactly(used, n);
      ok := Reserve(Rounded(n));
      if ok {
        at := used;
        used := Bumped(used, Rounded(n));
      }
    }

    /** Copies bytes into place `at` of the part in use. */
    method Put(at: nat, s: seq<byte>)
      requires Valid() && at + |s| <= used && s != []
      modifies if pool == null then {} else {pool.base}
      ensures Valid() && Content() == old(Content())[..at] + s + old(Content())[at + |s|..]
      ensures pool != null ==> OthersKept(pool, Mine())
    {
      hide Layout;
      OthersApart(pool.free, pool.outstanding, pool.top, Mine());
      forall i | 0 <= i < |s| {
        pool.base[offset + at + i] := s[i];
      }
    }

    /** Allocates and copies: all or nothing. */
    method Dup(s: Text) returns (ok: bool, at: nat)
      requires Valid()
      modifies this, pool, if pool == null then {} else {pool.base}
      ensures Valid() && pool == old(pool) && (s == [] ==> !ok)
      ensures ok ==> at == old(used) && used == old(used) + Align8(|s|) && Content()[..at] == old(Content())
      ensures ok ==> Content()[at..at + |s|] == s
      ensures s != [] && old(used) + Align8(|s|) <= old(cap) ==> ok && Mine() == old(Mine())
      ensures !ok ==> Content() == old(Content()) && (s == [] || used + Align8(|s|) > cap)
      ensures pool != null ==> OthersKept(pool, old(Mine()))
      ensures pool != null ==> Mine() == old(Mine()) || Mine() !in old(pool.outstanding)
    {
      hide Layout, Align8, InWidth;
      BumpedText(used, |s|);
      ok, at := Alloc(|s|);
      if ok {
        Put(at, s);
      }
    }

    /** Allocates, copies and gives a reference that survives moving. */
    method DupOff(s: Text) returns (r: RegionOff)
      requires Valid()
      modifies this, pool, if pool == null then {} else {pool.base}
      ensures Valid() && pool == old(pool)
      ensures old(Content()) <= Content()
      ensures r.len > 0 ==> r.len == |s| && Reads(r, s) && r.off + r.len < 0x1_0000_0000
      ensures r.len > 0 ==> r.off == old(used) && used == old(used) + Align8(|s|)
      ensures s != [] && old(used) + Align8(|s|) <= old(cap) ==> r.len > 0 && Mine() == old(Mine())
      ensures r.len == 0 ==> Content() == old(Content()) && (s == [] || used + Align8(|s|) > cap)
      ensures pool != null ==> OthersKept(pool, old(Mine()))
      ensures pool != null ==> Mine() == old(Mine()) || Mine() !in old(pool.outstanding)
    {
      hide Layout, Align8;
      var ok, at := Dup(s);
      r := if ok then RegionOff(at, |s|) else RegionOff(0, 0);
    }

    /** What a reference into the content reads. */
    method View(r: RegionOff) returns (s: seq<byte>)
      requires Valid() && r.off + r.len <= used
      ensures Reads(r, s)
    {
      s := if pool == null then [] else pool.base[offset + r.off..offset + r.off + r.len];
    }

    /** The reference, read now, gives these bytes. */
    ghost predicate Reads(r: RegionOff, s: seq<byte>)
      requires Valid()
      reads this, pool, if pool == null then {} else {pool.base}
    {
      r.off + r.len <= used && Content()[r.off..r.off + r.len] == s
    }

    /** Appends bytes without padding: all or nothing. */
    method Write(s: Text) returns (ok: bool)
      requires Valid()
      modifies this, pool, if pool == null then {} else {pool.base}
      ensures Valid() && pool == old(pool)
      ensures Content() == if ok then old(Content()) + s else old(Content())
      ensures !ok ==> used + |s| > cap
      ensures pool != null ==> OthersKept(pool, old(Mine()))
      ensures pool != null ==> Mine() == old(Mine()) || Mine() !in old(pool.outstanding)
    {
      hide Layout, Bumped, InWidth, Align8, Doubled;
      if s == [] {
        return true;
      }
      BumpedText(used, |s|);
      ok := Reserve(|s|);
      if ok {
        PutBehind(s);
      }
    }

    /** Appends bytes for which there is room. */
    method PutBehind(s: Text)
      requires Valid() && s != [] && used + |s| <= cap
      modifies `used, if pool == null then {} else {pool.base}
      ensures Valid() && Content() == old(Content()) + s
      ensures pool != null ==> OthersKept(pool, Mine())
    {
      hide Layout;
      BumpedText(used, |s|);
      var at := used;
      used := Bumped(used, |s|);
      Put(at, s);
      assert Content() == old(Content()) + s;
    }

    /** Appends a 64-bit number in decimal, its digits made back to front. */
    method WriteUint(n: Size) returns (ok: bool)
      requires Valid()
      modifies this, pool, if pool == null then {} else {pool.base}
      ensures Valid() && pool == old(pool)
      ensures Content() == if ok then old(Content()) + Decimal(n) else old(Content())
      ensures pool != null ==> OthersKept(pool, old(Mine()))
    {
      var digits := FormatUint(n);
      TwentyDigits(n);
      ok := Write(digits);
    }

    /** Attaches to a pool; a region already held there is kept and emptied.
        Detaching (`null`) forgets the pool but not the region's bounds, which
        is harmless exactly if there was no region. */
    method Init(p: RegionPool?)
      requires Valid() && (p != null ==> p.Valid())
      modifies this, pool, p
      ensures pool == p && (Valid() <==> p != null || old(cap) == 0)
      ensures Valid() ==> Content() == []
      ensures p == null ==> offset == old(offset) && cap == old(cap)
      ensures old(pool) != null && old(pool) != p ==>
                && old(pool).Valid()
                && old(pool).outstanding == old(pool.outstanding) - (if old(offset) != 0 then {old(Mine())} else {})
      ensures p != null && cap > 0 ==> Mine() == old(Mine()) || Mine() !in old(p.outstanding)
      ensures old(pool) == p && old(offset) != 0 ==> Mine() == old(Mine())
      ensures p != null && (old(pool) != p || old(offset) == 0) ==>
                (cap == 0 <==> old(p.Refuses(65536))) && (cap > 0 ==> cap >= 65536)
      ensures p != null ==>
                forall r :: r in old(p.outstanding) && (old(pool) != p || r != old(Mine())) ==> r in p.outstanding
    {
      hide Layout, FirstTaken, NoFit;
      if pool == p && offset != 0 {
        used := 0;
        return;
      }
      if pool != null && offset != 0 {
        pool.Release(offset, cap);
      }
      pool := p;
      if p == null {
        return;
      }
      offset, cap := p.Acquire(INIT_SIZE);
      used := 0;
    }

    /** Gives the region back, unless it is the one at offset zero. */
    method Close()
      requires Valid()
      modifies pool
      ensures pool != null ==> pool.Valid()
      ensures pool != null ==> pool.outstanding == old(pool.outstanding) - (if offset != 0 then {Mine()} else {})
    {
      hide Layout;
      if pool != null && offset != 0 {
        pool.Release(offset, cap);
      }
    }

    /** A new session in the place of one that was closed. */
    method Renew()
      modifies this
      ensures Valid() && pool == null && cap == 0 && Content() == []
    {
      pool, offset, cap, used := null, 0, 0, 0;
    }
  }

  /** A session attaches to a new pool, one region grows to the pool's size, and
      from then on a single byte is refused, though all but the first region is
      unused. */
  method RefusedAfterOverflow() returns (first: nat, grown: nat, one: nat, ghost unused: nat)
    ensures first == INIT_SIZE && grown == 0 && one == 0 && unused == POOL_SIZE - INIT_SIZE
  {
    hide Layout, FirstTaken;
    var p := new RegionPool();
    var offset;
    offset, first := p.Acquire(INIT_SIZE);
    offset, grown := p.Acquire(POOL_SIZE);
    offset, one := p.Acquire(1);
    unused := POOL_SIZE - p.top;
  }

  // ---- Decimal numbers ----

  function Digits(n: nat): seq<byte> {
    if n == 0 then [] else Digits(n / 10) + [48 + n % 10]
  }

  function Decimal(n: nat): seq<byte> {
    if n == 0 then [48] else Digits(n)
  }

  /** The number a digit string spells. */
  function Number(s: seq<byte>): int {
    if s == [] then 0 else 10 * Number(s[..|s| - 1]) + s[|s| - 1] - 48
  }

  lemma {:induction false} DigitsSpell(n: nat)
    ensures Number(Digits(n)) == n
    ensures forall i :: 0 <= i < |Digits(n)| ==> 48 <= Digits(n)[i] <= 57
  {
    if n > 0 {
      DigitsSpell(n / 10);
      assert Digits(n)[..|Digits(n)| - 1] == Digits(n / 10);
    }
  }

  /** The text is made of digits and spells the number. */
  lemma DecimalSpells(n: nat)
    ensures Decimal(n) != [] && Number(Decimal(n)) == n
    ensures forall i :: 0 <= i < |Decimal(n)| ==> 48 <= Decimal(n)[i] <= 57
  {
    DigitsSpell(n);
    assert Number([48]) == 0;
  }

  function Pow10(k: nat): nat {
    if k == 0 then 1 else 10 * Pow10(k - 1)
  }

  lemma {:induction false} DigitsFit(n: nat, k: nat)
    requires n < Pow10(k)
    ensures |Digits(n)| <= k
  {
    if n > 0 {
      DigitsFit(n / 10, k - 1);
    }
  }

  lemma TwentyDigits(n: Size)
    ensures |Digits(n)| <= 20
  {
    assert Pow10(5) == 100000;
    assert Pow10(10) == 1_00000_00000;
    assert Pow10(15) == 1_00000_00000_00000;
    assert Pow10(20) == 1_00000_00000_00000_00000;
    DigitsFit(n, 20);
  }

  method FormatUint(n: Size) returns (s: seq<byte>)
    ensures s == Decimal(n)
  {
    TwentyDigits(n);
    var tmp := new byte[24];
    var p := 23;
    tmp[23] := 0;
    if n == 0 {
      p := 22;
      tmp[22] := 48;
    } else {
      var m := n;
      while m > 0
        invariant 0 <= m && |Digits(m)| <= p <= 23
        invariant Digits(m) + tmp[p..23] == Digits(n)
      {
        ghost var tail := tmp[p..23];
        p := p - 1;
        tmp[p] := 48 + m % 10;
        assert tmp[p..23] == [48 + m % 10] + tail;
        m := m / 10;
      }
    }
    s := tmp[p..23];
  }

  lemma OthersApart(free: seq<Slot>, out: set<Slot>, top: nat, s: Slot)
    requires Layout(free, out, top) && s in out
    ensures forall r :: r in out && r != s ==> Apart(r, s)
  {
  }

  /** memcpy between two parts of the pool that do not overlap. */
  method CopyInside(base: array<byte>, src: nat, dst: nat, n: nat)
    requires src + n <= base.Length && dst + n <= base.Length && (n > 0 ==> src + n <= dst || dst + n <= src)
    modifies base
    ensures base[dst..dst + n] == old(base[src..src + n])
    ensures forall i :: 0 <= i < base.Length && !(dst <= i < dst + n) ==> base[i] == old(base[i])
  {
    forall i | 0 <= i < n {
      base[dst + i] := base[src + i];
    }
  }
}
