// ScopeRunner (lib/simple-web-server/utility.hpp): any number of threads take shared locks and
// stop, with compare-and-exchange loops on one atomic counter.
module ScopeRunner {

  // Where a call of continue_lock or stop stands between two accesses to the counter, and the
  // lock that a call has returned.
  datatype Call =
    | Loading                  // continue_lock: before the first load
    | Trying(expected: int)    // continue_lock: before the loop's test
    | Held                     // a lock not yet destroyed
    | Refused                  // continue_lock has returned a null pointer
    | Released
    | Stopping                 // stop: before an exchange
    | Failed(seen: int)        // stop: an exchange failed and saw this value
    | Stopped                  // stop has returned

  /** compare_exchange_weak: the new counter, whether it succeeded, and what it saw. */
  function CompareExchange(count: int, expected: int, desired: int, spurious: bool): (int, bool, int) {
    if count == expected && !spurious then (desired, true, expected) else (count, false, count)
  }

  /** The next atomic step of a call; an exchange may fail spuriously. */
  function Move(call: Call, count: int, spurious: bool): (Call, int) {
    match call
    case Loading => (Trying(count), count)
    case Trying(e) =>
      if e < 0 then (Refused, count)
      else
        var (now, ok, seen) := CompareExchange(count, e, e + 1, spurious);
        (if ok then Held else Trying(seen), now)
    case Held => (Released, count - 1)
    case Stopping =>
      var (now, ok, seen) := CompareExchange(count, 0, -1, spurious);
      (if ok then Stopped else Failed(seen), now)
    case Failed(seen) => (if seen < 0 then Stopped else Stopping, count)
    case _ => (call, count)
  }

  // ---------- one call among others ----------

  // What happens before a step of a call: other threads leave the counter at a value, and the
  // step's exchange may fail spuriously.
  datatype Round = Round(count: int, spurious: bool)

  /** A call's state and the counter after some steps, each after interference. */
  function Rounds(call: Call, count: int, script: seq<Round>): (Call, int)
    decreases |script|
  {
    if script == [] then (call, count)
    else
      var n := |script| - 1;
      Move(Rounds(call, count, script[..n]).0, script[n].count, script[n].spurious)
  }

  class Runner {
    var count: int

    constructor ()
      ensures count == 0
    {
      count := 0;
    }

    method CompareExchangeWeak(expected: int, desired: int, spurious: bool) returns (ok: bool, seen: int)
      modifies this
      ensures (count, ok, seen) == CompareExchange(old(count), expected, desired, spurious)
    {
      ok := count == expected && !spurious;
      seen := count;
      if ok {
        count := desired;
      }
    }

    /** continue_lock, as far as its script goes; `used` counts the steps taken. */
    method ContinueLock(script: seq<Round>) returns (call: Call, used: nat)
      requires script != []
      modifies this
      ensures used <= |script| && (call, count) == Rounds(Loading, old(count), script[..used])
      ensures call.Held? || call.Refused? || (call.Trying? && used == |script|)
    {
      count := script[0].count;
      var expected := count;
      used := 1;
      assert script[..1][..0] == [];
      while used < |script|
        invariant 1 <= used <= |script|
        invariant (Trying(expected), count) == Rounds(Loading, old(count), script[..used])
      {
        ghost var before := script[..used];
        count := script[used].count;
        used := used + 1;
        assert script[..used][..used - 1] == before;
        if expected < 0 {
          return Refused, used;
        }
        var ok;
        ok, expected := CompareExchangeWeak(expected, expected + 1, script[used - 1].spurious);
        if ok {
          return Held, used;
        }
      }
      call := Trying(expected);
    }

    /** stop, as far as its script goes. */
    method Stop(script: seq<Round>) returns (call: Call, used: nat)
      modifies this
      ensures used <= |script| && (call, count) == Rounds(Stopping, old(count), script[..used])
      ensures call.Stopped? || used == |script|
    {
      used := 0;
      while used < |script|
        invariant 0 <= used <= |script|
        invariant (Stopping, count) == Rounds(Stopping, old(count), script[..used])
      {
        ghost var before := script[..used];
        count := script[used].count;
        used := used + 1;
        assert script[..used][..used - 1] == before;
        var ok, seen := CompareExchangeWeak(0, -1, script[used - 1].spurious);
        if ok {
          return Stopped, used;
        }
        if used == |script| {
          return Failed(seen), used;
        }
        before := script[..used];
        count := script[used].count;
        used := used + 1;
        assert script[..used][..used - 1] == before;
        if seen < 0 {
          return Stopped, used;
        }
      }
      call := Stopping;
    }
  }

  // ---------- all calls together ----------

  datatype State = State(count: int, calls: map<nat, Call>)

  datatype Event = CallLock(id: nat) | CallStop(id: nat) | Go(id: nat, spurious: bool)

  const START := State(0, map[])

  function Step(s: State, e: Event): State {
    match e
    case CallLock(id) => if id in s.calls then s else s.(calls := s.calls[id := Loading])
    case CallStop(id) => if id in s.calls then s else s.(calls := s.calls[id := Stopping])
    case Go(id, spurious) =>
      if id !in s.calls then s
      else
        var (call, count) := Move(s.calls[id], s.count, spurious);
        State(count, s.calls[id := call])
  }

  /** The state after a run: any calls, in any interleaving. */
  function After(run: seq<Event>): State
    decreases |run|
  {
    if run == [] then START else Step(After(run[..|run| - 1]), run[|run| - 1])
  }

  function Holders(calls: map<nat, Call>): set<nat> {
    set id | id in calls && calls[id] == Held
  }

  ghost predicate Knows(call: Call, count: int) {
    match call
    case Trying(e) => e < 0 ==> count == -1
    case Failed(seen) => seen < 0 ==> count == -1
    case Refused => count == -1
    case Stopped => count == -1
    case _ => true
  }

  /** The counter is the number of locks held, or -1 with no lock held and some stop returned;
      and what the calls have seen agrees with it. */
  ghost predicate Inv(s: State) {
    && (s.count == |Holders(s.calls)| || (s.count == -1 && Holders(s.calls) == {}))
    && (s.count == -1 ==> exists id :: id in s.calls && s.calls[id] == Stopped)
    && forall id :: id in s.calls ==> Knows(s.calls[id], s.count)
  }

  lemma HoldersUpdate(calls: map<nat, Call>, id: nat, call: Call)
    ensures Holders(calls[id := call]) == if call == Held then Holders(calls) + {id} else Holders(calls) - {id}
  {
  }

  /** A step leaves -1 alone, and what has been returned by stop. */
  lemma StepKeeps(s: State, e: Event)
    requires Inv(s)
    ensures s.count == -1 ==> Step(s, e).count == -1
    ensures forall id :: id in s.calls && s.calls[id] == Stopped ==> id in Step(s, e).calls && Step(s, e).calls[id] == Stopped
  {
    if s.count == -1 && e.Go? && e.id in s.calls {
      assert e.id !in Holders(s.calls);
    }
  }

  lemma StepCounts(s: State, e: Event)
    requires Inv(s)
    ensures var t := Step(s, e);
            t.count == |Holders(t.calls)| || (t.count == -1 && Holders(t.calls) == {})
    ensures Step(s, e).count == -1 ==> s.count == -1 || (e.Go? && e.id in s.calls && Step(s, e).calls[e.id] == Stopped)
  {
    if Step(s, e) != s {
      HoldersUpdate(s.calls, e.id, Step(s, e).calls[e.id]);
      if e.Go? {
        assert e.id in Holders(s.calls) <==> s.calls[e.id] == Held;
      }
    }
  }

  lemma StepInv(s: State, e: Event)
    requires Inv(s)
    ensures Inv(Step(s, e))
  {
    StepCounts(s, e);
    StepKeeps(s, e);
    var t := Step(s, e);
    if s.count == -1 {
      var id :| id in s.calls && s.calls[id] == Stopped;
      assert id in t.calls && t.calls[id] == Stopped;
    }
    forall id | id in t.calls
      ensures Knows(t.calls[id], t.count)
    {
      assert id in s.calls ==> Knows(s.calls[id], s.count);
    }
  }

  /** Mutual exclusion between locks and stop, in every reachable state. */
  lemma {:induction false} Reachable(run: seq<Event>)
    ensures Inv(After(run))
    decreases |run|
  {
    if run == [] {
      assert Holders(START.calls) == {};
    } else {
      Reachable(run[..|run| - 1]);
      StepInv(After(run[..|run| - 1]), run[|run| - 1]);
    }
  }

  /** Once the counter is -1 it never changes, and no lock is held or granted again; whatever
      has been returned stays so. */
  lemma {:induction false} StoppedForever(run: seq<Event>, more: seq<Event>)
    requires After(run).count == -1 || exists id :: id in After(run).calls && After(run).calls[id] == Stopped
    ensures After(run + more).count == -1 && Holders(After(run + more).calls) == {}
    decreases |more|
  {
    Reachable(run + more);
    if more == [] {
      assert run + more == run;
    } else {
      var n := |more| - 1;
      StoppedForever(run, more[..n]);
      assert (run + more)[..|run + more| - 1] == run + more[..n];
      Reachable(run + more[..n]);
      StepKeeps(After(run + more[..n]), more[n]);
    }
  }

  /** A lock is refused only when some stop has returned. */
  lemma RefusedOnlyAfterStop(run: seq<Event>, id: nat)
    requires id in After(run).calls && After(run).calls[id] == Refused
    ensures exists stop :: stop in After(run).calls && After(run).calls[stop] == Stopped
  {
    Reachable(run);
    assert Knows(After(run).calls[id], After(run).count);
  }

  // ---------- a call that runs alone ----------

  /** k steps of one call with no interference. */
  function Alone(s: State, id: nat, k: nat): State
    decreases k
  {
    if k == 0 then s else Alone(Step(s, Go(id, false)), id, k - 1)
  }

  /** From any reachable state, continue_lock on its own returns within two steps, with a lock
      exactly when nothing has been stopped. */
  lemma LockAlone(run: seq<Event>, id: nat) returns (k: nat)
    requires id in After(run).calls && (After(run).calls[id].Loading? || After(run).calls[id].Trying?)
    ensures k <= 2 && id in Alone(After(run), id, k).calls
    ensures Alone(After(run), id, k).calls[id] == if After(run).count >= 0 then Held else Refused
  {
    var s := After(run);
    Reachable(run);
    var t := Step(s, Go(id, false));
    var u := Step(t, Go(id, false));
    assert Alone(t, id, 0) == t && Alone(s, id, 1) == t;
    assert Alone(u, id, 0) == u && Alone(t, id, 1) == u && Alone(s, id, 2) == u;
    k := if t.calls[id].Trying? then 2 else 1;
  }

  /** From any reachable state, stop on its own returns if and only if no lock is held. */
  lemma StopAloneIff(run: seq<Event>, id: nat, k: nat)
    requires id in After(run).calls && (After(run).calls[id].Stopping? || After(run).calls[id].Failed?)
    requires k >= 3
    ensures id in Alone(After(run), id, k).calls
    ensures Alone(After(run), id, k).calls[id] == Stopped <==> Holders(After(run).calls) == {}
  {
    var s := After(run);
    Reachable(run);
    assert Knows(s.calls[id], s.count);
    if s.count > 0 {
      StopBlocked(s, id, k);
    } else {
      var t := Step(s, Go(id, false));
      var u := Step(t, Go(id, false));
      var v := Step(u, Go(id, false));
      assert Alone(s, id, k) == Alone(t, id, k - 1) == Alone(u, id, k - 2) == Alone(v, id, k - 3);
      StaysStopped(v, id, k - 3);
    }
  }

  lemma {:induction false} StopBlocked(s: State, id: nat, k: nat)
    requires s.count > 0 && id in s.calls && (s.calls[id].Stopping? || (s.calls[id].Failed? && s.calls[id].seen >= 0))
    ensures id in Alone(s, id, k).calls && Alone(s, id, k).calls[id] != Stopped
    decreases k
  {
    if k > 0 {
      StopBlocked(Step(s, Go(id, false)), id, k - 1);
    }
  }

  lemma {:induction false} StaysStopped(s: State, id: nat, k: nat)
    requires id in s.calls && s.calls[id] == Stopped
    ensures Alone(s, id, k) == s
    decreases k
  {
    if k > 0 {
      assert s.calls[id := Stopped] == s.calls;
      StaysStopped(Step(s, Go(id, false)), id, k - 1);
    }
  }
}
