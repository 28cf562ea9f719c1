/** Many sessions on one pool: whatever they do in whatever order, every
    reference a session took stays readable until that session starts over or
    ends, or allocates so much that the sum of sizes wraps. */
module Worker {
  import opened Bits
  import Fields
  import opened RegionLayout
  import opened RegionPool
  import opened SessionRegion

  /** What a session may be told to do. */
  datatype Op =
    | Attach(who: nat)
    | Restart(who: nat)
    | Allocate(who: nat, n: Size)
    | Take(who: nat, bytes: Text)
    | Append(who: nat, bytes: Text)
    | End(who: nat)

  /** A reference that was given out: by which session, and to what. */
  datatype Ref = Ref(who: nat, at: RegionOff, bytes: Text)

  twostate predicate SameFields(s: SessionRegion)
    reads s
  {
    s.pool == old(s.pool) && s.offset == old(s.offset) && s.cap == old(s.cap) && s.used == old(s.used)
  }

  class Worker {
    const pool: RegionPool
    const sessions: seq<SessionRegion>
    ghost var live: set<Ref>

    constructor (n: nat)
      ensures Valid() && live == {} && |sessions| == n && pool.outstanding == {}
    {
      pool := new RegionPool();
      var ss := NewSessions(n);
      sessions, live := ss, {};
    }

    ghost function Footprint(): set<object> {
      {pool, pool.base} + (set s | s in sessions)
    }

    ghost predicate Valid()
      reads this, Footprint()
    {
      && pool.Valid()
      && (forall i, j :: 0 <= i < j < |sessions| ==> sessions[i] != sessions[j])
      && (forall i :: 0 <= i < |sessions| ==> Settled(i))
      && (forall i, j :: 0 <= i < j < |sessions| && sessions[i].cap > 0 && sessions[j].cap > 0 ==>
            sessions[i].Mine() != sessions[j].Mine())
      && (forall f :: f in live ==> Readable(f))
    }

    /** Session `i` is consistent and belongs to this worker or to nobody yet. */
    ghost predicate Settled(i: nat)
      requires i < |sessions|
      reads Footprint()
    {
      (sessions[i].pool == pool || sessions[i].pool == null) && sessions[i].Valid()
    }

    ghost predicate Readable(f: Ref)
      reads Footprint()
    {
      f.who < |sessions| && Settled(f.who) && sessions[f.who].Reads(f.at, f.bytes)
    }

    /** Session `i` has not changed, nor have the bytes it wrote. */
    twostate predicate Undisturbed(i: nat)
      requires i < |sessions|
      reads Footprint()
    {
      && SameFields(sessions[i]) && Settled(i) && old(Settled(i))
      && sessions[i].Content() == old(sessions[i].Content())
    }

    /** What every step of session `who` leaves behind. */
    twostate predicate Stepped(who: nat)
      requires who < |sessions|
      reads this, Footprint()
    {
      && old(Valid()) && pool.Valid() && Settled(who)
      && OthersStay(who) && OthersKept(pool, old(sessions[who].Mine()))
      && (sessions[who].cap > 0 ==>
            sessions[who].Mine() == old(sessions[who].Mine()) || sessions[who].Mine() !in old(pool.outstanding))
      && (sessions[who].cap > 0 && old(sessions[who].cap) == 0 ==> sessions[who].Mine() !in old(pool.outstanding))
    }

    twostate predicate OthersStay(who: nat)
      reads Footprint()
    {
      forall i :: 0 <= i < |sessions| && i != who ==> SameFields(sessions[i])
    }

    /** A step of session `who` that keeps to its own region disturbs no other. */
    twostate lemma OthersUndisturbed(who: nat)
      requires who < |sessions| && Stepped(who)
      ensures forall i :: 0 <= i < |sessions| && i != who ==> Undisturbed(i)
    {
      hide Layout;
      forall i | 0 <= i < |sessions| && i != who ensures Undisturbed(i) {
        var s := sessions[i];
        assert old(Settled(i)) && old(Settled(who));
        if s.pool != null && s.cap > 0 {
          assert s.Mine() != old(sessions[who].Mine()) by {
            if old(sessions[who].cap) > 0 {
              assert i < who || who < i;
            }
          }
          assert s.Mine() in old(pool.outstanding);
        }
      }
    }

    /** Session `who` only added bytes. */
    twostate predicate Grew(who: nat)
      requires who < |sessions|
      reads Footprint()
    {
      old(Settled(who)) && Settled(who) && old(sessions[who].Content()) <= sessions[who].Content()
    }

    /** The references now claimed are readable, or old ones of sessions that
        did not start over. */
    twostate predicate Claimed(who: nat)
      requires who < |sessions|
      reads this, Footprint()
    {
      forall f :: f in live ==> Readable(f) || (f in old(live) && (f.who != who || Grew(who)))
    }

    /** The worker is valid again after a step. */
    twostate lemma StepKeepsValid(who: nat)
      requires who < |sessions| && Stepped(who) && Claimed(who)
      ensures Valid()
    {
      hide Layout, OthersKept;
      OthersUndisturbed(who);
      forall f | f in live ensures Readable(f) {
        if f in old(live) && (f.who != who || Grew(who)) {
          assert old(Readable(f));
          if f.who == who {
            SlicesKept(old(sessions[who].Content()), sessions[who].Content(), f.at);
          } else {
            assert Undisturbed(f.who);
          }
        }
      }
      forall i | 0 <= i < |sessions| ensures Settled(i) {
        assert i != who ==> Undisturbed(i);
      }
      forall i, j | 0 <= i < j < |sessions| && sessions[i].cap > 0 && sessions[j].cap > 0
        ensures sessions[i].Mine() != sessions[j].Mine()
      {
        var k := if i == who then j else i;
        if i == who || j == who {
          assert old(Settled(k)) && old(Settled(who));
          assert sessions[k].Mine() in old(pool.outstanding);
        }
      }
    }

    /** The session empties its region, or attaches to the pool again: its
        references end, all others stay. */
    method StartOver(who: nat, attach: bool)
      requires Valid() && who < |sessions|
      modifies this, Footprint()
      ensures Valid() && OthersStay(who)
      ensures var op := if attach then Attach(who) else Restart(who);
              && Moved(old(sessions[who].used), op, sessions[who].used)
              && live == Kept(old(live), op, old(sessions[who].used), sessions[who].used)
    {
      hide Layout;
      assert Settled(who);
      var s := sessions[who];
      if attach {
        s.Init(pool);
      } else {
        s.Reset();
      }
      live := Without(live, who);
      StepKeepsValid(who);
    }

    /** The session is destroyed and a new one, not attached yet, takes its
        place: its references end, all others stay. */
    method EndSession(who: nat)
      requires Valid() && who < |sessions|
      modifies this, Footprint()
      ensures Valid() && OthersStay(who) && sessions[who].pool == null
      ensures Moved(old(sessions[who].used), End(who), sessions[who].used)
      ensures live == Kept(old(live), End(who), old(sessions[who].used), sessions[who].used)
      ensures forall r :: r in old(pool.outstanding) && r != old(sessions[who].Mine()) ==> r in pool.outstanding
    {
      hide Layout;
      assert Settled(who);
      var s := sessions[who];
      s.Close();
      s.Renew();
      live := Without(live, who);
      StepKeepsValid(who);
    }

    /** The session takes a copy and a reference to it. */
    method TakeRef(who: nat, bytes: Text) returns (r: RegionOff)
      requires Valid() && who < |sessions|
      modifies this, Footprint()
      ensures Valid() && OthersStay(who) && Moved(old(sessions[who].used), Take(who, bytes), sessions[who].used)
      ensures live == if r.len > 0 then old(live) + {Ref(who, r, bytes)} else old(live)
      ensures live == Kept(old(live), Take(who, bytes), old(sessions[who].used), sessions[who].used)
    {
      hide Layout, Align8, Doubled;
      assert Settled(who);
      r := sessions[who].DupOff(bytes);
      if r.len > 0 {
        live := live + {Ref(who, r, bytes)};
      }
      StepKeepsValid(who);
    }

    /** The sessions use this much of their regions. */
    ghost predicate Uses(u: seq<nat>)
      reads Footprint()
    {
      |u| == |sessions| && forall i :: 0 <= i < |sessions| ==> sessions[i].used == u[i]
    }

    /** Space behind the content; or, if its end is no 64-bit value, the content
        is cut, and the references that are no longer live are those that can no
        longer be read. */
    method Allot(who: nat, n: Size)
      requires Valid() && who < |sessions|
      modifies this, Footprint()
      ensures Valid() && OthersStay(who) && Moved(old(sessions[who].used), Allocate(who, n), sessions[who].used)
      ensures live == Kept(old(live), Allocate(who, n), old(sessions[who].used), sessions[who].used)
      ensures forall f :: f in old(live) && f !in live ==> !Readable(f)
    {
      hide Layout, Align8, Doubled, InWidth, NoFit, Need;
      assert Settled(who);
      var s := sessions[who];
      ghost var before, content := s.used, s.Content();
      var ok, at := s.Alloc(n);
      live := Kept(live, Allocate(who, n), before, s.used);
      forall f | f in live && f.who == who && !InWidth(before, n) ensures Readable(f) {
        assert old(Readable(f));
        SlicesKept(s.Content(), content, f.at);
      }
      StepKeepsValid(who);
    }

    method Print(who: nat, bytes: Text)
      requires Valid() && who < |sessions|
      modifies this, Footprint()
      ensures Valid() && OthersStay(who) && Moved(old(sessions[who].used), Append(who, bytes), sessions[who].used)
      ensures live == Kept(old(live), Append(who, bytes), old(sessions[who].used), sessions[who].used)
    {
      hide Layout;
      assert Settled(who);
      var ok := sessions[who].Write(bytes);
      StepKeepsValid(who);
    }

    method Do(op: Op, ghost u: seq<nat>) returns (ghost v: seq<nat>)
      requires Valid() && Uses(u)
      modifies this, Footprint()
      ensures Valid() && Uses(v) && Evolves(u, op, v) && live == LiveAfter(old(live), op, u, v)
    {
      hide Moved, Kept, Settled, Readable;
      v := u;
      if op.who >= |sessions| {
        return;
      }
      match op {
        case Attach(who) => StartOver(who, true);
        case Restart(who) => StartOver(who, false);
        case Allocate(who, n) => Allot(who, n);
        case Take(who, bytes) => var r := TakeRef(who, bytes);
        case Append(who, bytes) => Print(who, bytes);
        case End(who) => EndSession(who);
      }
      v := u[op.who := sessions[op.who].used];
    }

    /** What is used is inside the pool. */
    lemma UsesBounded(u: seq<nat>)
      requires Valid() && Uses(u)
      ensures InPool(u)
    {
      forall i | 0 <= i < |u| ensures u[i] <= POOL_SIZE {
        assert Settled(i);
      }
    }

    /** Any run of any sessions; `usage` is what each session uses before every
        operation and at the end. The references live at the end are those the
        operations leave, and every one still reads the same bytes. */
    method Run(ops: seq<Op>) returns (ghost usage: seq<seq<nat>>)
      requires Valid()
      modifies this, Footprint()
      ensures Valid() && Ran(ops, usage, |ops|) && old(Uses(usage[0])) && Uses(usage[|ops|])
      ensures live == LiveIn(old(live), ops, usage, |ops|)
      ensures forall f :: f in live ==> Readable(f)
    {
      hide Evolves, LiveAfter, Ran, Settled, Readable;
      ghost var u := seq(|sessions|, i requires 0 <= i < |sessions| reads Footprint() => sessions[i].used);
      UsesBounded(u);
      usage := [u];
      RanNone(ops, usage);
      for n := 0 to |ops|
        invariant Valid() && Ran(ops, usage, n) && |usage| == n + 1 && old(Uses(usage[0])) && Uses(usage[n])
        invariant live == LiveIn(old(live), ops, usage, n)
      {
        ghost var v := Do(ops[n], usage[n]);
        UsesBounded(v);
        RanMore(ops, usage, v, n);
        LiveInMore(old(live), ops, usage, v, n);
        usage := usage + [v];
      }
    }
  }

  /** The operation makes session `who` start over or end. */
  predicate Ends(op: Op, who: nat) {
    (op.Attach? || op.Restart? || op.End?) && op.who == who
  }

  /** How far an operation moves the mark of its session: a request the pool
      refuses moves nothing, one whose end wraps moves it back. */
  predicate Moved(before: nat, op: Op, after: nat) {
    match op
    case Allocate(_, n) =>
      if InWidth(before, n) then after == before || after == before + Align8(n)
      else after == before + Align8(n) - TWO64 <= before
    case Take(_, bytes) => after == before || after == before + Align8(|bytes|)
    case Append(_, bytes) => after == before || after == before + |bytes|
    case _ => after == 0
  }

  predicate Evolves(u: seq<nat>, op: Op, v: seq<nat>) {
    if op.who < |u| then |v| == |u| && v == u[op.who := v[op.who]] && Moved(u[op.who], op, v[op.who]) else v == u
  }

  predicate InPool(u: seq<nat>) {
    forall i :: 0 <= i < |u| ==> u[i] <= POOL_SIZE
  }

  predicate Ran(ops: seq<Op>, usage: seq<seq<nat>>, n: nat) {
    && n <= |ops| && n < |usage|
    && (forall k :: 0 <= k < n ==> Evolves(usage[k], ops[k], usage[k + 1]))
    && (forall k :: 0 <= k <= n ==> InPool(usage[k]))
  }

  lemma RanNone(ops: seq<Op>, usage: seq<seq<nat>>)
    requires |usage| == 1 && InPool(usage[0])
    ensures Ran(ops, usage, 0)
  {
  }

  lemma RanMore(ops: seq<Op>, usage: seq<seq<nat>>, v: seq<nat>, n: nat)
    requires Ran(ops, usage, n) && |usage| == n + 1 && n < |ops| && Evolves(usage[n], ops[n], v) && InPool(v)
    ensures Ran(ops, usage + [v], n + 1)
  {
    hide Evolves, InPool;
  }

  // ---- Which references an operation leaves ----

  function Kept(live: set<Ref>, op: Op, before: nat, after: nat): set<Ref> {
    match op
    case Allocate(who, n) =>
      if InWidth(before, n) then live else set f | f in live && (f.who != who || f.at.off + f.at.len <= after)
    case Take(who, bytes) =>
      if after == before then live else live + {Ref(who, RegionOff(before, |bytes|), bytes)}
    case Append(_, _) => live
    case _ => Without(live, op.who)
  }

  function LiveAfter(live: set<Ref>, op: Op, u: seq<nat>, v: seq<nat>): set<Ref> {
    if op.who < |u| && op.who < |v| then Kept(live, op, u[op.who], v[op.who]) else live
  }

  /** The references after the first `n` operations. */
  function LiveIn(live: set<Ref>, ops: seq<Op>, usage: seq<seq<nat>>, n: nat): set<Ref>
    requires n <= |ops| && n < |usage|
  {
    if n == 0 then live else LiveAfter(LiveIn(live, ops, usage, n - 1), ops[n - 1], usage[n - 1], usage[n])
  }

  lemma {:induction false} LiveInMore(live: set<Ref>, ops: seq<Op>, usage: seq<seq<nat>>, v: seq<nat>, n: nat)
    requires n <= |ops| && n < |usage|
    ensures LiveIn(live, ops, usage + [v], n) == LiveIn(live, ops, usage, n)
  {
    hide LiveAfter;
    if n > 0 {
      LiveInMore(live, ops, usage, v, n - 1);
    }
  }

  /** The operation cuts off the reference: an allocation whose end wraps to
      before the reference's end. */
  predicate Cuts(op: Op, u: seq<nat>, v: seq<nat>, f: Ref) {
    && op.Allocate? && op.who == f.who && f.who < |u| && f.who < |v|
    && !InWidth(u[f.who], op.n) && v[f.who] < f.at.off + f.at.len
  }

  /** Offset stability, exactly: a reference whose session neither starts over
      nor takes the same one again stays live through a run if and only if no
      allocation whose end wraps cuts it off. */
  lemma {:induction false} StableExactly(live: set<Ref>, ops: seq<Op>, usage: seq<seq<nat>>, n: nat, f: Ref)
    requires Ran(ops, usage, n) && f in live
    requires forall k :: 0 <= k < n ==> !Ends(ops[k], f.who) && ops[k] != Take(f.who, f.bytes)
    ensures f in LiveIn(live, ops, usage, n) <==> forall k :: 0 <= k < n ==> !Cuts(ops[k], usage[k], usage[k + 1], f)
  {
    hide InWidth, Align8;
    if n > 0 {
      StableExactly(live, ops, usage, n - 1, f);
      assert Evolves(usage[n - 1], ops[n - 1], usage[n]);
    }
  }

  /** Sizes that leave room for the pool never wrap: then every reference whose
      session does not start over stays. */
  lemma {:induction false} SmallSizesStable(live: set<Ref>, ops: seq<Op>, usage: seq<seq<nat>>, n: nat, f: Ref)
    requires Ran(ops, usage, n) && f in live && forall k :: 0 <= k < n ==> !Ends(ops[k], f.who)
    requires forall k :: 0 <= k < n && ops[k].Allocate? ==> InWidth(POOL_SIZE, ops[k].n)
    ensures f in LiveIn(live, ops, usage, n)
  {
    hide Align8, Moved;
    if n > 0 {
      SmallSizesStable(live, ops, usage, n - 1, f);
      assert InPool(usage[n - 1]);
    }
  }

  // ---- A length that wraps ----

  /** Any 64-bit number can be announced as a content length. */
  lemma DecimalRead(n: Size)
    ensures Fields.Digits(0, Decimal(n)) == n
  {
    if n > 0 {
      DigitsRead(n);
    } else {
      assert [48][1..] == [];
    }
  }

  lemma {:induction false} DigitsRead(n: Size)
    ensures Fields.Digits(0, Digits(n)) == n
  {
    if n > 0 {
      DigitsRead(n / 10);
      DigitsSpell(n / 10);
      LastDigit(n);
      OneDigitMore(Digits(n / 10), n / 10, n % 10);
    }
  }

  lemma OneDigitMore(s: seq<byte>, q: nat, d: nat)
    requires Fields.Digits(0, s) == q && d < 10 && 10 * q + d < TWO64
    requires forall i :: 0 <= i < |s| ==> 48 <= s[i] <= 57
    ensures Fields.Digits(0, s + [48 + d]) == 10 * q + d
  {
    hide Fields.Digits;
    DigitsAppend(0, s, 48 + d);
  }

  lemma LastDigit(n: nat)
    requires n > 0
    ensures Digits(n) == Digits(n / 10) + [48 + n % 10]
  {
  }

  lemma {:induction false} DigitsAppend(acc: nat, a: seq<byte>, c: byte)
    requires 48 <= c <= 57 && forall i :: 0 <= i < |a| ==> 48 <= a[i] <= 57
    ensures Fields.Digits(acc, a + [c]) == (Fields.Digits(acc, a) * 10 + (c - 48)) % TWO64
    decreases |a|
  {
    if a == [] {
      assert ([] + [c])[1..] == [];
    } else {
      assert (a + [c])[1..] == a[1..] + [c];
      DigitsAppend((acc * 10 + (a[0] - 48)) % TWO64, a[1..], c);
    }
  }

  /** A session copies 64 bytes, the client announces 2^64 - 16 bytes, and the
      next copy, of 16 bytes, is written over the end of the first: the reference
      to it reads other bytes, unless the second copy repeats them. */
  method AnnouncedLengthOverwrites(taken: Text, next: Text) returns (length: seq<byte>, r: RegionOff, read: seq<byte>)
    requires |taken| == 64 && |next| == 16
    ensures length == Decimal(TWO64 - 16) && r == RegionOff(0, 64)
    ensures read == taken[..48] + next && (read == taken <==> next == taken[48..])
  {
    hide Layout, Decimal, Digits, Fields.Digits, Align8;
    var n: Size := TWO64 - 16;
    Aligned();
    var session;
    session, r := FirstCopy(taken);
    length := Decimal(n);
    DecimalRead(n);
    CopyAfterWrap(session, Fields.Digits(0, length), next);
    read := session.View(r);
    EndOverwritten(session.Content(), taken, next, read);
  }

  lemma Aligned()
    ensures Align8(64) == 64 && Align8(16) == 16 && Align8(TWO64 - 16) == TWO64 - 16
  {
  }

  lemma EndOverwritten(c: seq<byte>, taken: seq<byte>, next: seq<byte>, read: seq<byte>)
    requires |c| == |taken| == 64 && |next| == 16 && c[..48 + 16] == taken[..48] + next && read == c[0..64]
    ensures read == taken[..48] + next && (read == taken <==> next == taken[48..])
  {
    assert taken == taken[..48] + taken[48..];
    assert (taken[..48] + next)[48..] == next;
  }

  /** After an allocation whose end wraps, the next copy is written over the
      content, from where the end wrapped to. */
  method CopyAfterWrap(s: SessionRegion, n: Size, next: Text)
    requires s.Valid() && s.pool != null && !InWidth(s.used, n) && next != []
    requires s.used + Align8(n) + Align8(|next|) <= s.cap + TWO64
    modifies s, s.pool, s.pool.base
    ensures s.Valid() && s.used == old(s.used) + Align8(n) + Align8(|next|) - TWO64
    ensures var cut := old(s.used) + Align8(n) - TWO64;
            0 <= cut <= old(s.used) && s.Content()[..cut + |next|] == old(s.Content())[..cut] + next
  {
    hide Layout, Align8, Doubled;
    var ok, at := s.Alloc(n);
    ghost var kept := s.Content();
    var r := s.DupOff(next);
    assert s.Content()[..r.off + r.len] == s.Content()[..r.off] + s.Content()[r.off..r.off + r.len];
  }

  /** A session attached to a new pool, and its first copy. */
  method FirstCopy(taken: Text) returns (s: SessionRegion, r: RegionOff)
    requires |taken| == 64
    ensures fresh(s) && s.Valid() && s.pool != null && fresh(s.pool) && fresh(s.pool.base)
    ensures s.Content() == taken && s.cap >= INIT_SIZE && r == RegionOff(0, 64)
  {
    hide Layout, FirstTaken, Doubled;
    var pool := new RegionPool();
    s := new SessionRegion();
    s.Init(pool);
    r := s.DupOff(taken);
    assert s.Content() == s.Content()[0..64];
  }

  function Without(live: set<Ref>, who: nat): set<Ref> {
    set f | f in live && f.who != who
  }

  lemma SlicesKept(a: seq<byte>, b: seq<byte>, r: RegionOff)
    requires a <= b
    ensures r.off + r.len <= |a| ==> b[r.off..r.off + r.len] == a[r.off..r.off + r.len]
  {
  }

  method NewSessions(n: nat) returns (ss: seq<SessionRegion>)
    ensures |ss| == n
    ensures forall i :: 0 <= i < n ==> fresh(ss[i]) && ss[i].pool == null && ss[i].Valid() && ss[i].cap == 0
    ensures forall i, j :: 0 <= i < j < n ==> ss[i] != ss[j]
  {
    ss := [];
    for k := 0 to n
      invariant |ss| == k
      invariant forall i :: 0 <= i < k ==> fresh(ss[i]) && ss[i].pool == null && ss[i].Valid() && ss[i].cap == 0
      invariant forall i, j :: 0 <= i < j < k ==> ss[i] != ss[j]
    {
      var s := new SessionRegion();
      ss := ss + [s];
    }
  }
}
