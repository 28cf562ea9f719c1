/** Connection and stream windows: the credit kept in place against the
    flow-control window of section 6.9 of RFC 7540, computed from the whole
    run (initial size, plus updates sent, minus data received). */
module FlowControl {
  import opened Bits

  const TWO31: int := 0x8000_0000

  /** A 32-bit value: `int32_t` arithmetic keeps this residue of the exact one. */
  function Signed(x: int): (r: int)
    ensures -TWO31 <= r < TWO31
  {
    (x + TWO31) % TWO32 - TWO31
  }

  function Unsigned(x: int): (r: nat)
    ensures r < TWO32
  {
    x % TWO32
  }

  /** Equal up to a multiple of 2^32. */
  predicate Same(x: int, y: int) {
    x % TWO32 == y % TWO32
  }

  lemma SameIff(x: int, y: int, k: int)
    requires x == y + k * TWO32
    ensures Same(x, y)
  {
    DivModUnique(x, TWO32, y / TWO32 + k, y % TWO32);
  }

  lemma SignedSame(x: int, y: int)
    ensures Same(Signed(x), x)
    ensures Same(x, y) ==> Signed(x) == Signed(y)
  {
    SameIff(Signed(x), x, -((x + TWO31) / TWO32));
    if Same(x, y) {
      var k := x / TWO32 - y / TWO32;
      DivModUnique(x + TWO31, TWO32, (y + TWO31) / TWO32 + k, (y + TWO31) % TWO32);
    }
  }

  lemma SameAdd(a: int, b: int, c: int, d: int)
    requires Same(a, b) && Same(c, d)
    ensures Same(a + c, b + d) && Same(a - c, b - d)
  {
    SameIff(a + c, b + d, a / TWO32 - b / TWO32 + (c / TWO32 - d / TWO32));
    SameIff(a - c, b - d, a / TWO32 - b / TWO32 - (c / TWO32 - d / TWO32));
  }

  /** `credit += delta` on 32 bits is exact addition before truncation. */
  lemma SignedAdd(x: int, delta: int, exact: int)
    requires Same(delta, exact)
    ensures Signed(Signed(x) + delta) == Signed(x + exact)
  {
    SignedSame(x, x);
    SameAdd(Signed(x), x, delta, exact);
    SignedSame(Signed(x) + delta, x + exact);
  }

  lemma UnsignedAdd(x: int, n: int)
    ensures Unsigned(Unsigned(x) + n) == Unsigned(x + n)
  {
    SameIff(Unsigned(x), x, -(x / TWO32));
    SameAdd(Unsigned(x), x, n, n);
  }

  datatype Window = Window(credit: int, consumed: nat)

  /** The window of an entity charged `charged` bytes whose peer was sent
      updates worth `popped`. */
  function WindowFor(initial: nat, charged: nat, popped: nat): Window {
    Window(Signed(initial + popped - charged), Unsigned(charged - popped))
  }

  lemma FreshWindow(initial: nat)
    ensures WindowFor(initial, 0, 0) == Window(Signed(initial), 0)
  {
  }

  /** Credit and consumed bytes make up the initial window exactly when the
      difference is a signed 32-bit value; always modulo 2^32. */
  lemma CreditPlusConsumed(initial: nat, charged: nat, popped: nat)
    requires initial < TWO32
    ensures var w := WindowFor(initial, charged, popped);
            && Same(w.credit + w.consumed, initial)
            && (w.credit + w.consumed == initial <==> -TWO31 <= initial - w.consumed < TWO31)
  {
    var w, owed := WindowFor(initial, charged, popped), charged - popped;
    SameIff(w.consumed, owed, -(owed / TWO32));
    SignedSame(initial - owed, initial - owed);
    SameAdd(w.credit, initial - owed, w.consumed, owed);
    SameAdd(initial, initial, w.consumed, owed);
    SignedSame(initial - w.consumed, initial - owed);
  }

  /** While fewer than 2^32 bytes are outstanding none is lost: updates sent
      plus consumed bytes are all bytes charged, and only then. */
  lemma PoppedPlusConsumed(initial: nat, charged: nat, popped: nat)
    requires popped <= charged
    ensures popped + WindowFor(initial, charged, popped).consumed == charged <==> charged - popped < TWO32
  {
  }

  type Ledger = map<nat, nat>

  function Entry(l: Ledger, id: nat): nat {
    if id in l then l[id] else 0
  }

  function Credited(l: Ledger, id: nat, n: nat): (r: Ledger)
    ensures forall e :: Entry(r, e) == Entry(l, e) + (if e == id then n else 0)
  {
    l[id := Entry(l, id) + n]
  }

  datatype Op = SetWindow(size: nat) | Consume(id: nat, n: nat) | Pop(id: nat)

  predicate InRange(op: Op) {
    match op
    case SetWindow(size) => size < TWO32
    case Consume(id, n) => id < TWO32 && n < TWO32
    case Pop(id) => id < TWO32
  }

  /** A stream is charged its own bytes, the connection (0) everyone's. */
  function ChargedBy(op: Op, e: nat): nat {
    match op
    case Consume(id, n) => if e == id || e == 0 then n else 0
    case _ => 0
  }

  /** The bytes entity `e` is charged by the first `n` operations. */
  function Charged(ops: seq<Op>, n: nat, e: nat): nat
    requires n <= |ops|
  {
    if n == 0 then 0
    else Charged(ops, n - 1, e) + ChargedBy(ops[n - 1], e)
  }

  datatype Update = Update(id: nat, credit: nat)

  /** What the first `n` updates give entity `e`. */
  function Granted(us: seq<Update>, n: nat, e: nat): nat
    requires n <= |us|
  {
    if n == 0 then 0 else Granted(us, n - 1, e) + (if us[n - 1].id == e then us[n - 1].credit else 0)
  }

  lemma {:induction false} GrantedPrefix(us: seq<Update>, u: Update, n: nat, e: nat)
    requires n <= |us|
    ensures Granted(us + [u], n, e) == Granted(us, n, e)
  {
    if n > 0 {
      GrantedPrefix(us, u, n - 1, e);
    }
  }

  /** The initial size in force after the first `n` operations. */
  function InitialAfter(initial: nat, ops: seq<Op>, n: nat): nat
    requires n <= |ops|
  {
    if n == 0 then initial
    else if ops[n - 1].SetWindow? then ops[n - 1].size
    else InitialAfter(initial, ops, n - 1)
  }

  // ---- Books: what was charged and announced ----

  /** The initial size, the streams heard of, and both ledgers: what every
      window is made of. */
  datatype Books = Books(initial: nat, known: set<nat>, charged: Ledger, popped: Ledger)

  /** The bytes entity `e` was charged and not yet given back. */
  function Used(b: Books, e: nat): nat {
    Unsigned(Entry(b.charged, e) - Entry(b.popped, e))
  }

  predicate Due(b: Books, e: nat) {
    (e == 0 || e in b.known) && Used(b, e) >= b.initial / 2
  }

  /** A DATA frame of `n` bytes on stream `id`: the connection is charged twice. */
  function Charge(b: Books, id: nat, n: nat): Books {
    b.(known := b.known + {id}, charged := Credited(Credited(Credited(b.charged, id, n), 0, n), 0, n))
  }

  function Refund(b: Books, e: nat): Books {
    if Due(b, e) then b.(popped := Credited(b.popped, e, Used(b, e))) else b
  }

  function UpdateDue(b: Books, e: nat): seq<Update> {
    if Due(b, e) then [Update(e, Used(b, e))] else []
  }

  /** The updates after a DATA frame: for the stream, then for the connection. */
  function Announce(b: Books, id: nat): Books {
    Refund(Refund(b, id), 0)
  }

  function Updates(b: Books, id: nat): seq<Update> {
    UpdateDue(b, id) + UpdateDue(b, 0)
  }

  /** An increment of section 6.9 of RFC 7540. */
  predicate Legal(u: Update) {
    1 <= u.credit < TWO31
  }

  /** Every announced increment is legal exactly when neither entity has 2^31
      bytes or more outstanding and, with an initial size below 2, none has none. */
  lemma LegalExactly(b: Books, id: nat)
    requires id in b.known && b.initial < TWO32
    ensures (forall u :: u in Updates(b, id) ==> Legal(u)) <==>
            && Used(b, id) < TWO31 && Used(b, 0) < TWO31
            && (b.initial >= 2 || (Used(b, id) > 0 && Used(b, 0) > 0))
  {
    hide Used;
    var us := Updates(b, id);
    assert forall u :: u in us <==> u in UpdateDue(b, id) || u in UpdateDue(b, 0);
    forall e | e in {id, 0} && Due(b, e) ensures Update(e, Used(b, e)) in us {
      assert Update(e, Used(b, e)) in UpdateDue(b, e);
    }
  }

  /** So they are for frames that keep less than 2^31 bytes outstanding. */
  lemma OrdinaryLegal(b: Books, id: nat, n: nat)
    requires id != 0 && 2 <= b.initial < TWO32 && Used(b, id) + n < TWO31 && Used(b, 0) + n + n < TWO31
    ensures forall u :: u in Updates(Charge(b, id, n), id) ==> Legal(u)
  {
    UsedMore(b, Charge(b, id, n), id, n);
    UsedMore(b, Charge(b, id, n), 0, n + n);
    hide Used;
    LegalExactly(Charge(b, id, n), id);
  }

  lemma UsedMore(b: Books, c: Books, e: nat, n: nat)
    requires Entry(c.charged, e) == Entry(b.charged, e) + n && c.popped == b.popped && Used(b, e) + n < TWO32
    ensures Used(c, e) == Used(b, e) + n
  {
    UnsignedAdd(Entry(b.charged, e) - Entry(b.popped, e), n);
    hide Entry;
    SmallUnsigned(Used(b, e) + n);
  }

  lemma SmallUnsigned(x: nat)
    requires x < TWO32
    ensures Unsigned(x) == x
  {
  }

  /** With an initial size of 0, an empty DATA frame announces increments of 0. */
  lemma ZeroIncrement()
    ensures var b := Charge(Books(0, {}, map[], map[]), 1, 0);
            Updates(b, 1) == [Update(1, 0), Update(0, 0)]
  {
  }

  class H2FlowControl {
    var initialWindow: nat
    var conn: Window
    var streams: map<nat, Window>
    ghost var charged: Ledger
    ghost var popped: Ledger

    function WindowOf(id: nat): Window
      reads this
    {
      if id == 0 then conn
      else if id in streams then streams[id]
      else Window(Signed(initialWindow), 0)
    }

    ghost function Account(): Books
      reads this
    {
      Books(initialWindow, streams.Keys, charged, popped)
    }

    ghost predicate Balanced(id: nat)
      reads this
    {
      && Entry(popped, id) <= Entry(charged, id)
      && WindowOf(id) == WindowFor(initialWindow, Entry(charged, id), Entry(popped, id))
    }

    ghost predicate Valid()
      reads this
    {
      && initialWindow < TWO32
      && 0 !in streams
      && (forall id :: id in charged || id in popped ==> id == 0 || id in streams)
      && (forall id: nat :: Balanced(id))
    }

    constructor (initial: nat)
      requires initial < TWO32
      ensures Valid() && initialWindow == initial && charged == map[] && popped == map[] && streams == map[]
    {
      initialWindow, conn, streams := initial, Window(Signed(initial), 0), map[];
      charged, popped := map[], map[];
    }

    /** A new initial size moves every window, open or not, by the difference. */
    method SetInitialWindow(size: nat)
      requires Valid() && size < TWO32
      modifies `initialWindow, `conn, `streams
      ensures Valid() && initialWindow == size && streams.Keys == old(streams.Keys)
    {
      hide Signed, WindowFor;
      var delta := Signed(Signed(size) - Signed(initialWindow));
      ghost var was := initialWindow;
      assert old(Balanced(0));
      WindowMoves(was, size, Entry(charged, 0), Entry(popped, 0));
      initialWindow := size;
      conn := conn.(credit := Signed(conn.credit + delta));
      forall id | id in streams
        ensures streams[id] == WindowFor(was, Entry(charged, id), Entry(popped, id))
      {
        assert old(Balanced(id));
      }
      MoveStreams(delta, was);
      forall id: nat ensures Balanced(id) {
        assert old(Balanced(id));
        FreshWindow(was);
        FreshWindow(size);
      }
    }

    /** The loop over the stream windows. */
    method MoveStreams(delta: int, ghost was: nat)
      requires 0 !in streams && delta == Signed(Signed(initialWindow) - Signed(was))
      requires forall id :: id in streams ==> streams[id] == WindowFor(was, Entry(charged, id), Entry(popped, id))
      modifies `streams
      ensures streams.Keys == old(streams.Keys)
      ensures forall id :: id in streams ==>
                streams[id] == WindowFor(initialWindow, Entry(charged, id), Entry(popped, id))
    {
      hide Signed, WindowFor, Entry;
      var todo := streams.Keys;
      while todo != {}
        invariant todo <= streams.Keys == old(streams.Keys)
        invariant forall id :: id in todo ==> streams[id] == WindowFor(was, Entry(charged, id), Entry(popped, id))
        invariant forall id :: id in streams && id !in todo ==>
                    streams[id] == WindowFor(initialWindow, Entry(charged, id), Entry(popped, id))
        decreases |todo|
      {
        var id :| id in todo;
        WindowMoves(was, initialWindow, Entry(charged, id), Entry(popped, id));
        streams := streams[id := streams[id].(credit := Signed(streams[id].credit + delta))];
        todo := todo - {id};
      }
    }

    /** A reference to the window; a stream heard of first gets the initial size. */
    method GetOrCreate(id: nat) returns (w: Window)
      requires Valid()
      modifies `streams
      ensures Valid() && w == WindowOf(id) && streams.Keys == old(streams.Keys) + (if id == 0 then {} else {id})
      ensures forall e: nat :: WindowOf(e) == old(WindowOf(e))
    {
      if id == 0 {
        return conn;
      }
      if id !in streams {
        streams := streams[id := Window(Signed(initialWindow), 0)];
        forall e: nat ensures Balanced(e) {
          assert old(Balanced(e));
        }
      }
      return streams[id];
    }

    /** A write through that reference. */
    method Store(id: nat, w: Window)
      requires id == 0 || id in streams
      modifies `conn, `streams
      ensures streams.Keys == old(streams.Keys)
      ensures forall e: nat :: WindowOf(e) == if e == id then w else old(WindowOf(e))
    {
      if id == 0 {
        conn := w;
      } else {
        streams := streams[id := w];
      }
    }

    /** `n` bytes of data: charged to the stream and to the connection. */
    method ConsumeBytes(id: nat, n: nat)
      requires Valid() && n < TWO32
      modifies `conn, `streams, `charged
      ensures Valid() && streams.Keys == old(streams.Keys) + (if id == 0 then {} else {id})
      ensures charged == if id == 0 then Credited(old(charged), 0, n) else Credited(Credited(old(charged), id, n), 0, n)
    {
      ChargeOne(id, n);
      if id != 0 {
        ChargeOne(0, n);
      }
    }

    method ChargeOne(id: nat, n: nat)
      requires Valid() && n < TWO32
      modifies `conn, `streams, `charged
      ensures Valid() && streams.Keys == old(streams.Keys) + (if id == 0 then {} else {id})
      ensures charged == Credited(old(charged), id, n)
    {
      hide Signed, Unsigned, WindowFor;
      var w := GetOrCreate(id);
      assert Balanced(id);
      WindowCharges(initialWindow, Entry(charged, id), Entry(popped, id), n);
      label before:
      Store(id, Window(Signed(w.credit - Signed(n)), Unsigned(w.consumed + n)));
      charged := Credited(charged, id, n);
      forall e: nat ensures Balanced(e) {
        assert old@before(Balanced(e));
      }
    }

    /** The credit to announce; counting starts over. */
    method PopCredit(id: nat) returns (credit: nat)
      requires Valid()
      modifies `conn, `streams, `popped
      ensures Valid() && credit == old(WindowOf(id)).consumed && WindowOf(id).consumed == 0
      ensures streams.Keys == old(streams.Keys) + (if id == 0 then {} else {id})
      ensures forall e: nat :: e != id ==> WindowOf(e) == old(WindowOf(e))
      ensures popped == Credited(old(popped), id, credit)
    {
      hide Signed, Unsigned, WindowFor;
      var w := GetOrCreate(id);
      assert Balanced(id);
      credit := w.consumed;
      WindowPops(initialWindow, Entry(charged, id), Entry(popped, id));
      label before:
      Store(id, Window(Signed(w.credit + Signed(credit)), 0));
      popped := Credited(popped, id, credit);
      forall e: nat ensures Balanced(e) {
        assert old@before(Balanced(e));
      }
    }

    /** Time to announce credit: half the window, or more, is used up. */
    predicate ShouldUpdate(id: nat)
      reads this
    {
      (id == 0 || id in streams) && WindowOf(id).consumed >= initialWindow / 2
    }

    /** A DATA frame of `n` bytes on stream `id`: the connection is charged
        twice. */
    method ChargeData(id: nat, n: nat)
      requires Valid() && id != 0 && n < TWO32
      modifies `conn, `streams, `charged
      ensures Valid() && Account() == Charge(old(Account()), id, n)
    {
      hide Signed, Unsigned, WindowFor, Entry, Balanced;
      ConsumeBytes(id, n);
      ConsumeBytes(0, n);
    }

    /** The updates due for the stream and the connection. Afterwards less
        than half of either window is used up. */
    method AnnounceData(id: nat) returns (updates: seq<Update>)
      requires Valid() && id in streams
      modifies `conn, `streams, `popped
      ensures Valid() && Account() == Announce(old(Account()), id) && updates == Updates(old(Account()), id)
      ensures HalfOpen(id) && HalfOpen(0)
    {
      hide Signed, Unsigned, WindowFor, Balanced;
      assert id != 0;
      var first := Replenish(id);
      var second := Replenish(0);
      updates := first + second;
    }

    /** Less than half of the window is used up; nothing, if half is nothing. */
    predicate HalfOpen(id: nat)
      reads this
    {
      WindowOf(id).consumed == 0 || WindowOf(id).consumed < initialWindow / 2
    }

    method Replenish(id: nat) returns (updates: seq<Update>)
      requires Valid() && (id == 0 || id in streams)
      modifies `conn, `streams, `popped
      ensures Valid() && HalfOpen(id)
      ensures Account() == Refund(old(Account()), id) && updates == UpdateDue(old(Account()), id)
      ensures forall e: nat :: e != id ==> WindowOf(e) == old(WindowOf(e))
    {
      hide Signed, Unsigned, Entry;
      assert Balanced(id);
      updates := [];
      if ShouldUpdate(id) {
        var credit := PopCredit(id);
        updates := [Update(id, credit)];
      }
    }

    method Perform(op: Op, updates: seq<Update>) returns (updates': seq<Update>)
      requires Valid() && InRange(op)
      modifies this
      ensures Valid() && initialWindow == if op.SetWindow? then op.size else old(initialWindow)
      ensures forall e: nat :: Entry(charged, e) == old(Entry(charged, e)) + ChargedBy(op, e)
      ensures forall e: nat :: Entry(popped, e) + Granted(updates, |updates|, e)
                            == old(Entry(popped, e)) + Granted(updates', |updates'|, e)
    {
      hide Signed, Unsigned, WindowFor, Entry, Balanced;
      updates' := updates;
      match op
      case SetWindow(size) => SetInitialWindow(size);
      case Consume(id, n) => ConsumeBytes(id, n);
      case Pop(id) =>
        var credit := PopCredit(id);
        updates' := updates + [Update(id, credit)];
        forall e: nat
          ensures Granted(updates', |updates'|, e) == Granted(updates, |updates|, e) + (if e == id then credit else 0)
        {
          GrantedPrefix(updates, Update(id, credit), |updates|, e);
        }
    }

    /** After any run, every window is what the run's operations and updates
        make it; a stream never heard of included. */
    method Run(ops: seq<Op>) returns (updates: seq<Update>)
      requires Valid() && charged == map[] && popped == map[]
      requires forall op :: op in ops ==> InRange(op)
      modifies this
      ensures Valid() && initialWindow == InitialAfter(old(initialWindow), ops, |ops|)
      ensures forall e: nat ::
                WindowOf(e) == WindowFor(initialWindow, Charged(ops, |ops|, e), Granted(updates, |updates|, e))
      ensures forall e: nat :: Granted(updates, |updates|, e) <= Charged(ops, |ops|, e)
    {
      hide Signed, Unsigned, WindowFor, InRange;
      updates := [];
      for n := 0 to |ops|
        invariant Valid() && initialWindow == InitialAfter(old(initialWindow), ops, n)
        invariant forall e: nat :: Entry(charged, e) == Charged(ops, n, e)
        invariant forall e: nat :: Entry(popped, e) == Granted(updates, |updates|, e)
      {
        updates := Perform(ops[n], updates);
      }
      forall e: nat
        ensures WindowOf(e) == WindowFor(initialWindow, Charged(ops, |ops|, e), Granted(updates, |updates|, e))
        ensures Granted(updates, |updates|, e) <= Charged(ops, |ops|, e)
      {
        assert Balanced(e);
      }
    }
  }

  /** Half open means at least half of the initial size is there to be used. */
  lemma HalfIsAvailable(initial: nat, charged: nat, popped: nat)
    requires initial < TWO31 && popped <= charged
    requires var used := WindowFor(initial, charged, popped).consumed; used == 0 || used < initial / 2
    ensures WindowFor(initial, charged, popped).credit >= initial - initial / 2
  {
    CreditPlusConsumed(initial, charged, popped);
  }

  /** The difference of two sizes as the code computes it. */
  lemma DeltaExact(size: nat, was: nat)
    ensures Same(Signed(Signed(size) - Signed(was)), size - was)
  {
    SignedSame(size, size);
    SignedSame(was, was);
    SameAdd(Signed(size), size, Signed(was), was);
    SignedSame(Signed(size) - Signed(was), 0);
  }

  lemma WindowMoves(was: nat, size: nat, charged: nat, popped: nat)
    ensures var w := WindowFor(was, charged, popped);
            w.(credit := Signed(w.credit + Signed(Signed(size) - Signed(was)))) == WindowFor(size, charged, popped)
  {
    hide Signed, Unsigned, Same;
    DeltaExact(size, was);
    SignedAdd(was + popped - charged, Signed(Signed(size) - Signed(was)), size - was);
  }

  lemma WindowCharges(initial: nat, charged: nat, popped: nat, n: nat)
    ensures var w := WindowFor(initial, charged, popped);
            Window(Signed(w.credit - Signed(n)), Unsigned(w.consumed + n)) == WindowFor(initial, charged + n, popped)
  {
    hide Signed, Unsigned, Same;
    SignedSame(n, n);
    SameAdd(0, 0, Signed(n), n);
    SignedAdd(initial + popped - charged, 0 - Signed(n), 0 - n);
    UnsignedAdd(charged - popped, n);
  }

  lemma WindowPops(initial: nat, charged: nat, popped: nat)
    requires popped <= charged
    ensures var w := WindowFor(initial, charged, popped);
            && popped + w.consumed <= charged
            && Window(Signed(w.credit + Signed(w.consumed)), 0) == WindowFor(initial, charged, popped + w.consumed)
  {
    var owed := charged - popped;
    var back := Unsigned(owed);
    assert owed - back == owed / TWO32 * TWO32;
    SameIff(owed - back, 0, owed / TWO32);
    hide Signed, Same;
    SignedSame(back, 0);
    SignedAdd(initial + popped - charged, Signed(back), back);
  }
}
