/** The pool of upstream servers: round robin with passive health checks. */
module Upstream {
  import opened Bits

  const MAX_FAILURES: nat := 3
  const COOLDOWN_MS: nat := 10_000

  datatype Server = Server(host: string, port: nat, failures: nat, alive: bool, deadSince: nat)

  predicate Healthy(s: Server) {
    s.alive <==> s.failures < MAX_FAILURES
  }

  /** Alive, or dead for long enough to be tried again. */
  predicate Eligible(s: Server, now: nat) {
    s.alive || now - s.deadSince >= COOLDOWN_MS
  }

  function Revived(s: Server): Server {
    if s.alive then s else s.(alive := true, failures := 0)
  }

  function Failed(s: Server, now: nat): Server {
    var t := s.(failures := s.failures + 1);
    if t.failures >= MAX_FAILURES && t.alive then t.(alive := false, deadSince := now) else t
  }

  // ---- Round robin ----

  /** The value of the counter after `x` increments from 0. */
  function Wrapped(x: nat): (c: nat)
    ensures c < TWO64
  {
    x % TWO64
  }

  /** The server looked at `j` steps after the counter was `c`. */
  function Visit(c: nat, j: nat, n: nat): (i: nat)
    requires n > 0
    ensures i < n
  {
    Wrapped(c + j) % n
  }

  /** The next `len` steps do not wrap the counter, or wrapping does no harm. */
  predicate Even(c: nat, len: nat, n: nat)
    requires n > 0
  {
    c + len <= TWO64 || TWO64 % n == 0
  }

  lemma VisitEven(c: nat, len: nat, n: nat, j: nat)
    requires n > 0 && Even(c, len, n) && j < len
    ensures Visit(c, j, n) == (c + j) % n
  {
    var x := c + j;
    if c + len <= TWO64 {
      DivModUnique(x, TWO64, 0, x);
    } else {
      var q, k := x / TWO64, TWO64 / n;
      assert x == q * (k * n) + x % TWO64;
      MulAssoc(q, k, n);
      DivModUnique(x, n, q * k + x % TWO64 / n, x % TWO64 % n);
    }
  }

  lemma MulAssoc(q: int, k: int, n: int)
    ensures q * (k * n) == q * k * n
  {
  }

  lemma ModSum(a: int, b: int, n: int)
    requires n > 0
    ensures (a + b) % n == (a % n + b) % n
  {
    var r := a % n + b;
    DivModUnique(a + b, n, a / n + r / n, r % n);
  }

  /** Some step of the next round looks at server `i`. */
  lemma EveryServerVisited(c: nat, n: nat, i: nat) returns (j: nat)
    requires i < n && Even(c, n, n)
    ensures j < n && Visit(c, j, n) == i
  {
    j := (i - c % n + n) % n;
    VisitEven(c, n, n, j);
    ModSum(c, j, n);
    var r := c % n;
    if i >= r {
      DivModUnique(i - r + n, n, 1, i - r);
      DivModUnique(r + j, n, 0, i);
    } else {
      DivModUnique(i - r + n, n, 0, i - r + n);
      DivModUnique(r + j, n, 1, i);
    }
  }

  /** How many of the first `len` steps look at server `i`. */
  function Visits(c: nat, n: nat, i: nat, len: nat): nat
    requires n > 0
  {
    if len == 0 then 0 else Visits(c, n, i, len - 1) + (if Visit(c, len - 1, n) == i then 1 else 0)
  }

  /** The server `j` steps after `x`, were the counter unbounded. */
  function At(x: nat, j: nat, n: nat): nat
    requires n > 0
  {
    (x + j) % n
  }

  /** How many of `len` such steps look at server `i`. */
  function Turns(x: nat, n: nat, i: nat, len: nat): nat
    requires n > 0
  {
    if len == 0 then 0 else Turns(x, n, i, len - 1) + (if At(x, len - 1, n) == i then 1 else 0)
  }

  /** A sliding window of `n` steps: the step that leaves is the one that comes. */
  lemma {:induction false} TurnsSlide(x: nat, n: nat, i: nat, len: nat)
    requires n > 0
    ensures Turns(x, n, i, len) + (if At(x, len, n) == i then 1 else 0)
         == (if At(x, 0, n) == i then 1 else 0) + Turns(x + 1, n, i, len)
    decreases len
  {
    if len > 0 {
      TurnsSlide(x, n, i, len - 1);
    }
  }

  /** Below `n` the steps from 0 are the numbers themselves. */
  lemma {:induction false} TurnsFromZero(n: nat, i: nat, len: nat)
    requires i < n && len <= n
    ensures Turns(0, n, i, len) == if i < len then 1 else 0
    decreases len
  {
    if len > 0 {
      TurnsFromZero(n, i, len - 1);
      DivModUnique(len - 1, n, 0, len - 1);
    }
  }

  /** Any `n` consecutive steps look at each server once. */
  lemma {:induction false} OneRound(x: nat, n: nat, i: nat)
    requires i < n
    ensures Turns(x, n, i, n) == 1
    decreases x
  {
    if x == 0 {
      TurnsFromZero(n, i, n);
    } else {
      OneRound(x - 1, n, i);
      TurnsSlide(x - 1, n, i, n);
      DivModUnique(x - 1 + n, n, (x - 1) / n + 1, (x - 1) % n);
    }
  }

  lemma {:induction false} TurnsSplit(x: nat, n: nat, i: nat, a: nat, b: nat)
    requires n > 0
    ensures Turns(x, n, i, a + b) == Turns(x, n, i, a) + Turns(x + a, n, i, b)
    decreases b
  {
    if b > 0 {
      TurnsSplit(x, n, i, a, b - 1);
    }
  }

  lemma {:induction false} Rounds(x: nat, n: nat, i: nat, k: nat)
    requires i < n
    ensures Turns(x, n, i, k * n) == k
    decreases k
  {
    if k == 0 {
      assert k * n == 0;
    } else {
      hide Turns;
      var m := (k - 1) * n;
      assert k * n == m + n;
      Rounds(x, n, i, k - 1);
      OneRound(x + m, n, i);
      TurnsSplit(x, n, i, m, n);
    }
  }

  lemma {:induction false} VisitsAreTurns(c: nat, n: nat, i: nat, len: nat, all: nat)
    requires n > 0 && len <= all && Even(c, all, n)
    ensures Visits(c, n, i, len) == Turns(c, n, i, len)
    decreases len
  {
    if len > 0 {
      VisitsAreTurns(c, n, i, len - 1, all);
      VisitEven(c, all, n, len - 1);
    }
  }

  /** `k` rounds look at each server exactly `k` times. */
  lemma FairRounds(c: nat, n: nat, k: nat, i: nat)
    requires i < n && Even(c, k * n, n)
    ensures Visits(c, n, i, k * n) == k
  {
    VisitsAreTurns(c, n, i, k * n, k * n);
    Rounds(c, n, i, k);
  }

  // ---- Across the wrap ----

  lemma {:induction false} TurnsSome(x: nat, n: nat, i: nat, len: nat, j: nat)
    requires n > 0 && j < len && At(x, j, n) == i
    ensures Turns(x, n, i, len) >= 1
    decreases len
  {
    if j < len - 1 {
      TurnsSome(x, n, i, len - 1, j);
    }
  }

  /** Only where the steps start modulo `n` matters. */
  lemma {:induction false} TurnsModulo(x: nat, n: nat, i: nat, len: nat)
    requires n > 0
    ensures Turns(x, n, i, len) == Turns(x % n, n, i, len)
    decreases len
  {
    if len > 0 {
      TurnsModulo(x, n, i, len - 1);
      ModSum(x, len - 1, n);
    }
  }

  /** After the wrap the counting starts over at zero. */
  lemma {:induction false} VisitsAcross(c: nat, n: nat, i: nat, b: nat)
    requires n > 0 && c < TWO64 && b <= TWO64
    ensures Visits(c, n, i, TWO64 - c + b) == Turns(c, n, i, TWO64 - c) + Turns(0, n, i, b)
    decreases b
  {
    if b == 0 {
      VisitsAreTurns(c, n, i, TWO64 - c, TWO64 - c);
    } else {
      VisitsAcross(c, n, i, b - 1);
      DivModUnique(TWO64 + (b - 1), TWO64, 1, b - 1);
    }
  }

  /** Fewer than `n` steps from 0 miss a server that those from elsewhere see. */
  lemma MissedServer(s: nat, n: nat, t: nat) returns (i: nat)
    requires 0 < s < n && 0 < t < n
    ensures i < n && Turns(0, n, i, t) < Turns(s, n, i, t)
  {
    i := if t >= s then t else s;
    TurnsFromZero(n, i, t);
    DivModUnique(i, n, 0, i);
    hide Turns;
    TurnsSome(s, n, i, t, i - s);
  }

  lemma MissedAfter(x: nat, n: nat, b: nat) returns (i: nat)
    requires n > 0 && x % n != 0 && b % n != 0
    ensures i < n && Turns(0, n, i, b) < Turns(x, n, i, b)
  {
    hide Turns;
    var q, t := b / n, b % n;
    i := MissedServer(x % n, n, t);
    Peel(0, n, i, q, t);
    Peel(x, n, i, q, t);
    DivModUnique(0, n, 0, 0);
  }

  lemma Peel(x: nat, n: nat, i: nat, q: nat, t: nat)
    requires i < n
    ensures Turns(x, n, i, q * n + t) == q + Turns(x % n, n, i, t)
  {
    hide Turns;
    TurnsSplit(x, n, i, q * n, t);
    Rounds(x, n, i, q);
    TurnsModulo(x + q * n, n, i, t);
    DivModUnique(x + q * n, n, x / n + q, x % n);
  }

  predicate EvenRounds(c: nat, n: nat, len: nat)
    requires n > 0
  {
    Even(c, len, n) || (c + len - TWO64) % n == 0
  }

  predicate Fair(c: nat, n: nat, len: nat, k: nat)
    requires n > 0
  {
    forall i :: 0 <= i < n ==> Visits(c, n, i, len) == k
  }

  /** A server's share of rounds that cross the wrap. */
  lemma Crossing(c: nat, n: nat, i: nat, k: nat, b: nat)
    requires i < n && c < TWO64 && b <= TWO64 && k * n == TWO64 - c + b
    ensures Visits(c, n, i, TWO64 - c + b) + Turns(TWO64, n, i, b) == k + Turns(0, n, i, b)
  {
    hide Turns, Visits;
    VisitsAcross(c, n, i, b);
    Rounds(c, n, i, k);
    TurnsSplit(c, n, i, TWO64 - c, b);
  }

  /** Whole rounds after the wrap are as good as without it. */
  lemma CrossingWhole(c: nat, n: nat, i: nat, k: nat, q: nat)
    requires i < n && c < TWO64 && q * n <= TWO64 && k * n == TWO64 - c + q * n
    ensures Visits(c, n, i, k * n) == k
  {
    hide Turns, Visits;
    Crossing(c, n, i, k, q * n);
    Rounds(0, n, i, q);
    Rounds(TWO64, n, i, q);
  }

  lemma CrossingFairly(c: nat, n: nat, k: nat, len: nat)
    requires n > 0 && c < TWO64 && len == k * n <= TWO64 && !Even(c, len, n)
    ensures (c + len - TWO64) % n == 0 <==> Fair(c, n, len, k)
  {
    hide Turns, Visits;
    var b := c + len - TWO64;
    if b % n == 0 {
      forall i | 0 <= i < n ensures Visits(c, n, i, len) == k {
        CrossingWhole(c, n, i, k, b / n);
      }
    } else {
      var i := MissedAfter(TWO64, n, b);
      Crossing(c, n, i, k, b);
      assert Visits(c, n, i, len) != k;
    }
  }

  lemma {:induction false} VisitsSome(c: nat, n: nat, i: nat, len: nat, j: nat)
    requires n > 0 && j < len && Visit(c, j, n) == i
    ensures Visits(c, n, i, len) >= 1
    decreases len
  {
    if j < len - 1 {
      VisitsSome(c, n, i, len - 1, j);
    }
  }

  /** The steps of one round look at server `i`. */
  predicate Covers(c: nat, n: nat, i: nat)
    requires n > 0
  {
    exists j :: 0 <= j < n && Visit(c, j, n) == i
  }

  /** One round looks at every server exactly when it is even. */
  lemma RoundCovers(c: nat, n: nat)
    requires 0 < n <= TWO64 && c < TWO64
    ensures Even(c, n, n) <==> forall i :: 0 <= i < n ==> Covers(c, n, i)
  {
    if Even(c, n, n) {
      forall i | 0 <= i < n ensures Covers(c, n, i) {
        var j := EveryServerVisited(c, n, i);
      }
    } else {
      hide Turns, Visits, Visit;
      var b := c + n - TWO64;
      DivModUnique(b, n, 0, b);
      var i := MissedAfter(TWO64, n, b);
      Crossing(c, n, i, 1, b);
      if Covers(c, n, i) {
        var j :| 0 <= j < n && Visit(c, j, n) == i;
        VisitsSome(c, n, i, n, j);
        assert false;
      }
    }
  }

  /** Up to a whole turn of the counter: `k` rounds are fair exactly when they
      do not cross the wrap, the number of servers divides 2^64, or whole
      rounds are left after the wrap. */
  lemma FairExactly(c: nat, n: nat, k: nat, len: nat)
    requires n > 0 && c < TWO64 && len == k * n <= TWO64
    ensures EvenRounds(c, n, len) <==> Fair(c, n, len, k)
  {
    hide Visits;
    if Even(c, len, n) {
      forall i | 0 <= i < n ensures Visits(c, n, i, len) == k {
        FairRounds(c, n, k, i);
      }
    } else {
      CrossingFairly(c, n, k, len);
    }
  }

  /** Across the wrap three servers are not visited evenly: one round looks
      at the first twice and at the last not at all. */
  lemma UnfairAcrossWrap()
    ensures Visits(0xFFFF_FFFF_FFFF_FFFF, 3, 0, 3) == 2 && Visits(0xFFFF_FFFF_FFFF_FFFF, 3, 2, 3) == 0
  {
    var c := 0xFFFF_FFFF_FFFF_FFFF;
    assert Visit(c, 0, 3) == 0 && Visit(c, 1, 3) == 0 && Visit(c, 2, 3) == 1;
    assert Visits(c, 3, 0, 1) == 1 && Visits(c, 3, 2, 1) == 0;
    assert Visits(c, 3, 0, 2) == 2 && Visits(c, 3, 2, 2) == 0;
  }

  // ---- The pool ----

  datatype Choice = Nobody | Chosen(index: nat)

  datatype Event = PickAt(now: nat) | FailureAt(server: Choice, now: nat) | SuccessOf(server: Choice)

  /** Nothing that could bring server `i`, dead since then, back. */
  predicate Quiet(e: Event, i: nat, deadSince: nat) {
    match e
    case PickAt(now) => now - deadSince < COOLDOWN_MS
    case FailureAt(_, _) => true
    case SuccessOf(server) => server != Chosen(i)
  }

  predicate QuietUntil(events: seq<Event>, n: nat, i: nat, t: nat)
    requires n <= |events|
  {
    forall k :: 0 <= k < n ==> Quiet(events[k], i, t)
  }

  // ---- What the events alone say about a server ----

  /** An event with what came of it: the choice, and the servers looked at. */
  datatype Record = Record(event: Event, choice: Choice, looks: seq<nat>)

  /** The failures reported for server `i` in a row: since its last success, or
      since a pick after three of them brought it back. */
  function Streak(start: seq<Server>, log: seq<Record>, i: nat): nat
    requires i < |start|
  {
    if log == [] then start[i].failures else
      var before, r := Streak(start, log[..|log| - 1], i), log[|log| - 1];
      match r.event
      case FailureAt(server, _) => if server == Chosen(i) then before + 1 else before
      case SuccessOf(server) => if server == Chosen(i) then 0 else before
      case PickAt(_) => if r.choice == Chosen(i) && before >= 3 then 0 else before
  }

  /** The time of the last failure that was the third in a row. */
  function Died(start: seq<Server>, log: seq<Record>, i: nat): nat
    requires i < |start|
  {
    if log == [] then start[i].deadSince else
      var before, e := log[..|log| - 1], log[|log| - 1].event;
      if e.FailureAt? && e.server == Chosen(i) && Streak(start, before, i) == 2 then e.now
      else Died(start, before, i)
  }

  /** May be chosen: fewer than three failures in a row, or ten seconds ago. */
  predicate Available(start: seq<Server>, log: seq<Record>, i: nat, now: nat)
    requires i < |start|
  {
    Streak(start, log, i) < 3 || now - Died(start, log, i) >= 10000
  }

  /** How many servers were looked at. */
  function Looked(log: seq<Record>): nat {
    if log == [] then 0 else Looked(log[..|log| - 1]) + |log[|log| - 1].looks|
  }

  /** Record `r` behind `log`: a pick looks at the servers in turn, behind those
      looked at before, until one may be chosen, and chooses that one; any other
      event looks at none. */
  predicate InTurn(start: seq<Server>, log: seq<Record>, c: nat, r: Record) {
    match r.event
    case PickAt(now) =>
      && |r.looks| <= |start|
      && (forall j :: 0 <= j < |r.looks| ==>
            && r.looks[j] < |start| && r.looks[j] == Visit(c, Looked(log) + j, |start|)
            && (Available(start, log, r.looks[j], now) <==> j == |r.looks| - 1 && r.choice == Chosen(r.looks[j])))
      && (r.choice.Chosen? ==> r.looks != [] && r.choice.index == r.looks[|r.looks| - 1])
      && (r.choice.Nobody? ==> |r.looks| == |start|)
    case _ => r.looks == [] && r.choice == Nobody
  }

  predicate Followed(start: seq<Server>, log: seq<Record>, c: nat) {
    forall m :: 0 <= m < |log| ==> InTurn(start, log[..m], c, log[m])
  }

  lemma FollowedMore(start: seq<Server>, log: seq<Record>, c: nat, r: Record)
    requires Followed(start, log, c) && InTurn(start, log, c, r)
    ensures Followed(start, log + [r], c)
  {
    hide InTurn;
    forall m | 0 <= m < |log + [r]| ensures InTurn(start, (log + [r])[..m], c, (log + [r])[m]) {
      assert (log + [r])[..m] == if m < |log| then log[..m] else log;
    }
  }

  /** Event `k` is the third failure in a row of server `i`; since then no
      success for it, and no pick ten seconds or more later. */
  predicate Out(start: seq<Server>, log: seq<Record>, k: nat, m: nat, i: nat)
    requires i < |start|
  {
    && k < m <= |log| && log[k].event.FailureAt? && log[k].event.server == Chosen(i)
    && Streak(start, log[..k], i) == 2
    && forall j :: k < j < m ==>
         && log[j].event != SuccessOf(Chosen(i))
         && (log[j].event.PickAt? ==> log[j].event.now - log[k].event.now < 10000)
  }

  lemma {:induction false} StaysOut(start: seq<Server>, log: seq<Record>, c: nat, k: nat, m: nat, i: nat)
    requires Followed(start, log, c) && i < |start| && Out(start, log, k, m, i)
    ensures Streak(start, log[..m], i) >= 3 && Died(start, log[..m], i) == log[k].event.now
    decreases m
  {
    hide Followed, InTurn;
    assert log[..m][..m - 1] == log[..m - 1];
    if m > k + 1 {
      StaysOut(start, log, c, k, m - 1, i);
      if log[m - 1].event.PickAt? {
        ChosenExactly(start, log, c, m - 1, i);
      }
    }
  }

  /** A pick chooses server `i` exactly if it looks at it and may choose it. */
  lemma ChosenExactly(start: seq<Server>, log: seq<Record>, c: nat, m: nat, i: nat)
    requires Followed(start, log, c) && i < |start| && m < |log| && log[m].event.PickAt?
    ensures log[m].choice == Chosen(i) <==> i in log[m].looks && Available(start, log[..m], i, log[m].event.now)
  {
    hide Visit, Looked, Available;
    assert InTurn(start, log[..m], c, log[m]);
  }

  /** In every run: from the failure that is its third in a row, at time t, a
      server is not chosen before t + 10000 unless a success was reported for it;
      and a pick at that time or later that looks at it chooses it. */
  lemma OutForTenSeconds(start: seq<Server>, log: seq<Record>, c: nat, k: nat, m: nat, i: nat)
    requires Followed(start, log, c) && i < |start| && Out(start, log, k, m, i)
    requires m < |log| && log[m].event.PickAt?
    ensures log[m].event.now < log[k].event.now + 10000 ==> log[m].choice != Chosen(i)
    ensures log[m].event.now >= log[k].event.now + 10000 && i in log[m].looks ==> log[m].choice == Chosen(i)
  {
    hide Followed, Streak, Died;
    StaysOut(start, log, c, k, m, i);
    ChosenExactly(start, log, c, m, i);
  }

  // ---- One step of the pool ----

  /** What an event does to server `i`. */
  predicate Changed(s: Server, e: Event, c: Choice, i: nat, t: Server) {
    match e
    case PickAt(_) => t == if c == Chosen(i) then Revived(s) else s
    case FailureAt(server, now) => t == if server == Chosen(i) then Failed(s, now) else s
    case SuccessOf(server) => t == if server == Chosen(i) then s.(failures := 0, alive := true) else s
  }

  predicate Looks(servers: seq<Server>, c: nat, r: Record) {
    match r.event
    case PickAt(now) =>
      && |r.looks| <= |servers|
      && (forall j :: 0 <= j < |r.looks| ==>
            && r.looks[j] < |servers| && r.looks[j] == Visit(c, j, |servers|)
            && (Eligible(servers[r.looks[j]], now) <==> j == |r.looks| - 1 && r.choice == Chosen(r.looks[j])))
      && (r.choice.Chosen? ==> r.looks != [] && r.choice.index == r.looks[|r.looks| - 1])
      && (r.choice.Nobody? ==> |r.looks| == |servers|)
    case _ => r.looks == [] && r.choice == Nobody
  }

  /** The servers are what the events so far say. */
  predicate Agrees(start: seq<Server>, log: seq<Record>, servers: seq<Server>) {
    |servers| == |start| && forall i :: 0 <= i < |start| ==> AgreesAt(start, log, servers[i], i)
  }

  predicate AgreesAt(start: seq<Server>, log: seq<Record>, s: Server, i: nat)
    requires i < |start|
  {
    && Healthy(s) && s.failures == Streak(start, log, i)
    && (!s.alive ==> s.deadSince == Died(start, log, i))
  }

  lemma StillAgrees(start: seq<Server>, log: seq<Record>, s: Server, r: Record, i: nat, t: Server)
    requires i < |start| && AgreesAt(start, log, s, i) && Changed(s, r.event, r.choice, i, t)
    ensures AgreesAt(start, log + [r], t, i)
  {
    assert (log + [r])[..|log|] == log;
  }

  lemma LooksInTurn(start: seq<Server>, log: seq<Record>, servers: seq<Server>, c: nat, r: Record)
    requires Agrees(start, log, servers) && Looks(servers, Wrapped(c + Looked(log)), r)
    ensures InTurn(start, log, c, r)
  {
    hide Visit, Looked, Streak, Died;
    if r.event.PickAt? {
      forall j | 0 <= j < |r.looks|
        ensures r.looks[j] == Visit(c, Looked(log) + j, |start|)
        ensures Available(start, log, r.looks[j], r.event.now) <==> Eligible(servers[r.looks[j]], r.event.now)
      {
        VisitOn(c, Looked(log), j, |start|);
        assert AgreesAt(start, log, servers[r.looks[j]], r.looks[j]);
      }
    }
  }

  lemma VisitOn(c: nat, l: nat, j: nat, n: nat)
    requires n > 0
    ensures Visit(Wrapped(c + l), j, n) == Visit(c, l + j, n)
  {
    ModSum(c + l, j, TWO64);
  }

  lemma CounterOn(c: nat, log: seq<Record>, r: Record)
    ensures Wrapped(Wrapped(c + Looked(log)) + |r.looks|) == Wrapped(c + Looked(log + [r]))
  {
    assert (log + [r])[..|log|] == log;
    ModSum(c + Looked(log), |r.looks|, TWO64);
  }

  /** The servers looked at in `tries` steps. */
  function Round(c: nat, tries: nat, n: nat): (looks: seq<nat>)
    requires tries <= n
    ensures |looks| == tries && forall j :: 0 <= j < tries ==> looks[j] == Visit(c, j, n) < n
  {
    seq(tries, j requires 0 <= j < tries => Visit(c, j, n))
  }

  /** Dead, and since when. */
  predicate DeadSince(servers: seq<Server>, i: nat, t: nat) {
    i < |servers| && !servers[i].alive && servers[i].deadSince == t
  }

  class UpstreamPool {
    var servers: seq<Server>
    var counter: nat

    ghost predicate Valid()
      reads this
    {
      counter < TWO64 && forall i :: 0 <= i < |servers| ==> Healthy(servers[i])
    }

    constructor (servers: seq<Server>)
      requires forall i :: 0 <= i < |servers| ==> Healthy(servers[i])
      ensures Valid() && this.servers == servers && counter == 0
    {
      this.servers, counter := servers, 0;
    }

    /** The counter's value, modulo the number of servers, before it goes up. */
    method FetchAdd() returns (idx: nat)
      requires Valid() && servers != []
      modifies `counter
      ensures Valid() && idx == Visit(old(counter), 0, |servers|) && counter == Wrapped(old(counter) + 1)
    {
      DivModUnique(counter, TWO64, 0, counter);
      idx := counter % |servers|;
      counter := (counter + 1) % TWO64;
    }

    /** The first eligible server in turn, at most one round; `tries` servers
        were looked at. Nobody is chosen only if nobody is eligible. */
    method Pick(now: nat) returns (r: Choice, ghost tries: nat)
      requires Valid()
      modifies this
      ensures Valid() && tries <= |servers| == |old(servers)| && counter == Wrapped(old(counter) + tries)
      ensures forall j :: 0 <= j < tries - (if r.Chosen? then 1 else 0) ==>
                !Eligible(old(servers)[Visit(old(counter), j, |servers|)], now)
      ensures r.Chosen? ==> tries > 0 && r.index == Visit(old(counter), tries - 1, |servers|)
      ensures r.Chosen? ==> Eligible(old(servers)[r.index], now)
      ensures r.Chosen? ==> servers == old(servers)[r.index := Revived(old(servers)[r.index])]
      ensures r.Nobody? ==> servers == old(servers) && tries == |servers|
      ensures servers != [] && Even(old(counter), |servers|, |servers|) ==>
                (r.Nobody? <==> forall i :: 0 <= i < |servers| ==> !Eligible(old(servers)[i], now))
    {
      hide Visit, Even, Eligible, Wrapped;
      assert Wrapped(counter + 0) == counter by { WrappedSmall(counter); }
      tries := 0;
      if servers == [] {
        return Nobody, 0;
      }
      ghost var c, n := counter, |servers|;
      for attempt := 0 to |servers|
        invariant Valid() && servers == old(servers) && counter == Wrapped(c + attempt) && tries == attempt
        invariant forall j :: 0 <= j < attempt ==> !Eligible(servers[Visit(c, j, n)], now)
      {
        var idx := FetchAdd();
        VisitLater(c, attempt, n);
        CounterStep(c, attempt);
        tries := attempt + 1;
        EligibleIs(servers[idx], now);
        if servers[idx].alive {
          assert servers == servers[idx := servers[idx]];
          return Chosen(idx), tries;
        }
        if now - servers[idx].deadSince >= COOLDOWN_MS {
          servers := servers[idx := servers[idx].(alive := true, failures := 0)];
          return Chosen(idx), tries;
        }
      }
      if Even(c, n, n) {
        forall i | 0 <= i < n ensures !Eligible(servers[i], now) {
          var j := EveryServerVisited(c, n, i);
        }
      }
      return Nobody, tries;
    }

    /** The third failure in a row takes the server out. */
    method ReportFailure(server: Choice, now: nat)
      requires Valid()
      modifies `servers
      ensures Valid() && |servers| == |old(servers)|
      ensures forall i :: 0 <= i < |servers| ==>
                servers[i] == if server == Chosen(i) then Failed(old(servers)[i], now) else old(servers)[i]
    {
      if server.Nobody? {
        return;
      }
      for i := 0 to |servers|
        invariant servers == old(servers) && server.index >= i
      {
        if i == server.index {
          var s := servers[i].(failures := servers[i].failures + 1);
          if s.failures >= MAX_FAILURES && s.alive {
            s := s.(alive := false, deadSince := now);
          }
          servers := servers[i := s];
          return;
        }
      }
    }

    method ReportSuccess(server: Choice)
      requires Valid()
      modifies `servers
      ensures Valid() && |servers| == |old(servers)|
      ensures forall i :: 0 <= i < |servers| ==>
                servers[i] == if server == Chosen(i) then old(servers)[i].(failures := 0, alive := true)
                              else old(servers)[i]
    {
      if server.Nobody? {
        return;
      }
      for i := 0 to |servers|
        invariant servers == old(servers)
        invariant server.index < i ==> servers[server.index].failures == 0
      {
        if i == server.index && servers[i].failures > 0 {
          servers := servers[i := servers[i].(failures := 0, alive := true)];
          return;
        }
      }
    }

    method Happen(e: Event) returns (c: Choice, ghost r: Record)
      requires Valid()
      modifies this
      ensures Valid() && r.event == e && r.choice == c && counter == Wrapped(old(counter) + |r.looks|)
      ensures |servers| == |old(servers)| && Looks(old(servers), old(counter), r)
      ensures forall i :: 0 <= i < |servers| ==> Changed(old(servers)[i], e, c, i, servers[i])
      ensures forall i, t :: old(DeadSince(servers, i, t)) && Quiet(e, i, t) ==>
                DeadSince(servers, i, t) && c != Chosen(i)
    {
      hide Visit, Even, Wrapped;
      c := Nobody;
      assert Wrapped(counter + 0) == counter by { WrappedSmall(counter); }
      ghost var looks: seq<nat> := [];
      match e {
        case PickAt(now) =>
          ghost var tries;
          c, tries := Pick(now);
          looks := Round(old(counter), tries, |old(servers)|);
        case FailureAt(server, now) => ReportFailure(server, now);
        case SuccessOf(server) => ReportSuccess(server);
      }
      r := Record(e, c, looks);
    }

    /** In any run the choices follow from the events alone. Besides, a server
        that is dead stays dead, and is not chosen, until a success is reported
        for it or a pick finds its cooldown over. */
    method Run(events: seq<Event>) returns (choices: seq<Choice>, ghost log: seq<Record>)
      requires Valid()
      modifies this
      ensures Valid() && |choices| == |log| == |events|
      ensures forall m :: 0 <= m < |events| ==> log[m].event == events[m] && log[m].choice == choices[m]
      ensures Followed(old(servers), log, old(counter)) && Agrees(old(servers), log, servers)
      ensures forall i, t :: old(DeadSince(servers, i, t)) && QuietUntil(events, |events|, i, t) ==>
                DeadSince(servers, i, t) && Chosen(i) !in choices
    {
      hide Quiet, DeadSince, Followed, AgreesAt, Wrapped, Looked, Looks, Changed, Healthy;
      choices, log := [], [];
      Begins(servers, counter);
      for m := 0 to |events|
        invariant Valid() && |choices| == |log| == m && counter == Wrapped(old(counter) + Looked(log))
        invariant forall k :: 0 <= k < m ==> log[k].event == events[k] && log[k].choice == choices[k]
        invariant Followed(old(servers), log, old(counter)) && Agrees(old(servers), log, servers)
        invariant forall i, t :: old(DeadSince(servers, i, t)) && QuietUntil(events, m, i, t) ==>
                    DeadSince(servers, i, t) && Chosen(i) !in choices
      {
        ghost var before := servers;
        var c, r := Happen(events[m]);
        LooksInTurn(old(servers), log, before, old(counter), r);
        FollowedMore(old(servers), log, old(counter), r);
        CounterOn(old(counter), log, r);
        forall i | 0 <= i < |servers| ensures AgreesAt(old(servers), log + [r], servers[i], i) {
          StillAgrees(old(servers), log, before[i], r, i, servers[i]);
        }
        choices, log := choices + [c], log + [r];
      }
    }

    /** With every server alive, `k` rounds of picks choose each `k` times,
        exactly when the rounds are even. */
    method PickRounds(k: nat, now: nat) returns (picks: seq<nat>)
      requires Valid() && servers != [] && k * |servers| <= TWO64
      requires forall i :: 0 <= i < |servers| ==> servers[i].alive
      modifies this
      ensures Valid() && servers == old(servers) && |picks| == k * |servers|
      ensures EvenRounds(old(counter), |servers|, |picks|) <==> forall i :: 0 <= i < |servers| ==> Times(picks, i) == k
    {
      hide Visit, Even, EvenRounds, Wrapped;
      assert Wrapped(counter + 0) == counter by { WrappedSmall(counter); }
      ghost var c, n := counter, |servers|;
      picks := [];
      var total := k * |servers|;
      for m := 0 to total
        invariant Valid() && servers == old(servers) && |picks| == m && counter == Wrapped(c + m)
        invariant forall i :: 0 <= i < n ==> Times(picks, i) == Visits(c, n, i, m)
      {
        var r, tries := Pick(now);
        EligibleIs(servers[Visit(Wrapped(c + m), 0, n)], now);
        assert tries == 1;
        VisitLater(c, m, n);
        CounterStep(c, m);
        picks := picks + [r.index];
        assert picks[..m] + [r.index] == picks && picks[..|picks| - 1] == picks[..m];
      }
      hide Fair;
      FairExactly(c, n, k, total);
      TimesFair(picks, c, n, k);
    }
  }

  function Times(picks: seq<nat>, i: nat): nat {
    if picks == [] then 0
    else Times(picks[..|picks| - 1], i) + (if picks[|picks| - 1] == i then 1 else 0)
  }

  lemma TimesFair(picks: seq<nat>, c: nat, n: nat, k: nat)
    requires n > 0 && forall i :: 0 <= i < n ==> Times(picks, i) == Visits(c, n, i, |picks|)
    ensures Fair(c, n, |picks|, k) <==> forall i :: 0 <= i < n ==> Times(picks, i) == k
  {
    if Fair(c, n, |picks|, k) {
      forall i | 0 <= i < n ensures Times(picks, i) == k {
        assert Visits(c, n, i, |picks|) == k;
      }
    } else {
      var i :| 0 <= i < n && Visits(c, n, i, |picks|) != k;
      assert Times(picks, i) != k;
    }
  }

  lemma EligibleIs(s: Server, now: nat)
    ensures Eligible(s, now) <==> s.alive || now - s.deadSince >= COOLDOWN_MS
  {
  }

  lemma WrappedSmall(c: nat)
    requires c < TWO64
    ensures Wrapped(c) == c
  {
    DivModUnique(c, TWO64, 0, c);
  }

  lemma Begins(servers: seq<Server>, c: nat)
    requires c < TWO64 && forall i :: 0 <= i < |servers| ==> Healthy(servers[i])
    ensures Followed(servers, [], c) && Agrees(servers, [], servers) && Wrapped(c + Looked([])) == c
  {
    WrappedSmall(c);
  }

  lemma CounterStep(c: nat, j: nat)
    ensures Wrapped(Wrapped(c + j) + 1) == Wrapped(c + (j + 1))
  {
    ModSum(c + j, 1, TWO64);
  }

  lemma VisitLater(c: nat, m: nat, n: nat)
    requires n > 0
    ensures Visit(Wrapped(c + m), 0, n) == Visit(c, m, n)
  {
    WrappedSmall(Wrapped(c + m));
  }
}
