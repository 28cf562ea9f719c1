/** Stream states, identifiers and the queue of complete requests (sections
    5.1 and 5.1.1 of RFC 7540). */
module StreamManager {

  datatype StreamState = Idle | Open | HalfClosedRemote | HalfClosedLocal | Closed

  type States = map<nat, StreamState>

  const MAX_CONCURRENT: nat := 100

  /** The streams that count against the limit. */
  function Live(states: States): set<nat> {
    set id | id in states && states[id] != Closed
  }

  /** What the manager knows, without its counter of live streams. */
  datatype Manager = Manager(states: States, pending: seq<nat>, last: nat)

  predicate CanOpen(m: Manager, id: nat) {
    id % 2 == 1 && id > m.last && |Live(m.states)| < MAX_CONCURRENT
  }

  function Opened(m: Manager, id: nat): Manager {
    m.(states := m.states[id := Open], last := id)
  }

  /** Only an open stream becomes half closed. */
  function Ended(m: Manager, id: nat): Manager {
    if id in m.states && m.states[id] == Open then m.(states := m.states[id := HalfClosedRemote]) else m
  }

  function Shut(m: Manager, id: nat): Manager {
    if id in m.states then m.(states := m.states[id := Closed]) else m
  }

  function Queued(m: Manager, id: nat): Manager {
    m.(pending := m.pending + [id])
  }

  function Removed(m: Manager, id: nat): Manager {
    m.(states := m.states - {id})
  }

  lemma LiveChanges(states: States, id: nat)
    ensures id !in states ==> |Live(states[id := Open])| == |Live(states)| + 1
    ensures id in states && states[id] == Open ==> Live(states[id := HalfClosedRemote]) == Live(states)
    ensures id in Live(states) ==> |Live(states[id := Closed])| == |Live(states)| - 1
    ensures id in states && states[id] == Closed ==> Live(states - {id}) == Live(states)
    ensures id !in states ==> states - {id} == states
  {
    if id !in states {
      assert Live(states[id := Open]) == Live(states) + {id};
    } else if id in Live(states) {
      assert Live(states[id := Closed]) == Live(states) - {id};
    }
  }

  /** Odd and strictly increasing: no identifier opens twice. */
  predicate OddIncreasing(ids: seq<nat>) {
    && (forall i :: 0 <= i < |ids| ==> ids[i] % 2 == 1)
    && (forall i, j :: 0 <= i < j < |ids| ==> ids[i] < ids[j])
  }

  lemma Fresh(ids: seq<nat>, id: nat)
    requires OddIncreasing(ids) && id % 2 == 1 && (ids == [] || ids[|ids| - 1] < id)
    ensures OddIncreasing(ids + [id]) && id !in ids
  {
  }

  class H2StreamManager {
    var states: States
    var pending: seq<nat>
    var activeCount: nat
    var lastClientStreamId: nat
    /** Every stream ever opened, in order. */
    ghost var everOpen: seq<nat>

    ghost function State(): Manager
      reads this
    {
      Manager(states, pending, lastClientStreamId)
    }

    ghost predicate Valid()
      reads this
    {
      && activeCount == |Live(states)| <= MAX_CONCURRENT
      && OddIncreasing(everOpen)
      && (if everOpen == [] then lastClientStreamId == 0 else lastClientStreamId == everOpen[|everOpen| - 1])
      && (forall id :: id in states ==> id in everOpen)
    }

    constructor ()
      ensures Valid() && State() == Manager(map[], [], 0) && everOpen == []
    {
      states, pending, activeCount, lastClientStreamId, everOpen := map[], [], 0, 0, [];
    }

    method OnStreamOpen(id: nat) returns (ok: bool)
      requires Valid()
      modifies this
      ensures Valid() && ok == CanOpen(old(State()), id)
      ensures State() == if ok then Opened(old(State()), id) else old(State())
      ensures everOpen == if ok then old(everOpen) + [id] else old(everOpen)
      ensures ok ==> id !in old(everOpen)
    {
      if id % 2 == 0 {
        return false;
      }
      if id <= lastClientStreamId {
        return false;
      }
      if activeCount >= MAX_CONCURRENT {
        return false;
      }
      Fresh(everOpen, id);
      hide OddIncreasing;
      LiveChanges(states, id);
      lastClientStreamId := id;
      states := states[id := Open];
      activeCount := activeCount + 1;
      everOpen := everOpen + [id];
      return true;
    }

    method OnStreamEndStream(id: nat)
      requires Valid()
      modifies `states
      ensures Valid() && State() == Ended(old(State()), id)
    {
      hide OddIncreasing;
      LiveChanges(states, id);
      if id !in states {
        return;
      }
      if states[id] == Open {
        states := states[id := HalfClosedRemote];
      }
    }

    /** The counter is never zero when it has to come down. */
    method OnStreamClose(id: nat)
      requires Valid()
      modifies `states, `activeCount
      ensures Valid() && State() == Shut(old(State()), id)
      ensures id in states ==> states[id] == Closed
    {
      hide OddIncreasing;
      LiveChanges(states, id);
      if id !in states {
        return;
      }
      if states[id] != Closed {
        states := states[id := Closed];
        if activeCount > 0 {
          activeCount := activeCount - 1;
        }
      } else {
        assert states == states[id := Closed];
      }
    }

    method RemoveStream(id: nat)
      requires Valid()
      modifies `states, `activeCount
      ensures Valid() && State() == Removed(old(State()), id)
    {
      hide OddIncreasing;
      LiveChanges(states, id);
      if id !in states {
        return;
      }
      if states[id] != Closed {
        OnStreamClose(id);
      }
      LiveChanges(states, id);
      states := states - {id};
      assert states == old(states) - {id};
    }

    method Enqueue(id: nat)
      requires Valid()
      modifies `pending
      ensures Valid() && State() == Queued(old(State()), id)
    {
      pending := pending + [id];
    }

    /** The oldest entry, or 0, which is never a stream. */
    method Dequeue() returns (id: nat)
      requires Valid()
      modifies `pending
      ensures Valid() && states == old(states) && 0 !in states
      ensures old(pending) == if id == 0 && old(pending) == [] then pending else [id] + pending
    {
      if pending == [] {
        return 0;
      }
      id := pending[0];
      pending := pending[1..];
    }

    /** Erases the closed entries, one after the other; no live stream goes. */
    method GcClosed()
      requires Valid()
      modifies `states
      ensures Valid() && states.Keys == Live(old(states)) && forall id :: id in states ==> states[id] == old(states)[id]
    {
      hide OddIncreasing;
      ghost var was := states;
      var todo := states.Keys;
      while todo != {}
        invariant todo <= states.Keys && Live(was) <= states.Keys && states.Keys - todo <= Live(was)
        invariant forall id :: id in states ==> id in was && states[id] == was[id]
        decreases |todo|
      {
        var id :| id in todo;
        if states[id] == Closed {
          states := states - {id};
        }
        todo := todo - {id};
      }
      assert states.Keys == states.Keys - todo;
      assert Live(states) == Live(was);
    }
  }
}
