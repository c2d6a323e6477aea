// The connection pool of the client (lib/simple-web-server/client_http.hpp).
module ConnectionPool {

  // The pool between two critical sections of its mutex. A connection is known by the number of
  // its creation; two of its flags are kept as sets.
  datatype Pool = Pool(pooled: set<nat>, inUse: set<nat>, mayReconnect: set<nat>, created: nat)
  {
    function Idle(): set<nat> {
      pooled - inUse
    }

    function With(c: nat): Pool {
      this.(pooled := pooled + {c}, inUse := inUse + {c}, created := created + 1)
    }
  }

  /** get_connection hands out any idle connection, or else a new one. */
  ghost predicate Gets(p: Pool, q: Pool, c: nat) {
    if p.Idle() != {} then c in p.Idle() && q == p.(inUse := p.inUse + {c}, mayReconnect := p.mayReconnect + {c})
    else c == p.created && q == p.With(c).(mayReconnect := p.mayReconnect + {c})
  }

  /** What pruning leaves of a set of connections, in whatever order it visits them: those in
      use, and one of the others if there is one. */
  ghost predicate Pruned(before: set<nat>, inUse: set<nat>, after: set<nat>) {
    && after <= before && before * inUse <= after
    && (forall a, b :: a in after - inUse && b in after - inUse ==> a == b)
    && (before - inUse != {} ==> after - inUse != {})
  }

  /** A request on connection c is over. */
  ghost predicate Finishes(p: Pool, q: Pool, c: nat, failed: bool) {
    && q == p.(pooled := q.pooled, inUse := p.inUse - {c})
    && Pruned(if failed then p.pooled - {c} else p.pooled, q.inUse, q.pooled)
  }

  /** The first read on c failed: a pooled connection is replaced, once. */
  ghost predicate Replaces(p: Pool, q: Pool, c: nat, n: nat) {
    && c in p.mayReconnect && c in p.pooled
    && n == p.created && q == p.With(n).(pooled := p.pooled - {c} + {n}, mayReconnect := p.mayReconnect - {n})
  }

  class Client {
    var connections: set<nat>
    var inUse: set<nat>
    var mayReconnect: set<nat>
    var created: nat

    function View(): Pool
      reads this
    {
      Pool(connections, inUse, mayReconnect, created)
    }

    constructor ()
      ensures View() == Pool({}, {}, {}, 0)
    {
      connections, inUse, mayReconnect, created := {}, {}, {}, 0;
    }

    method CreateConnection() returns (c: nat)
      modifies this
      ensures c == old(created) && View() == old(View()).(created := c + 1)
    {
      c := created;
      created := created + 1;
    }

    method GetConnection() returns (c: nat)
      modifies this
      ensures Gets(old(View()), View(), c)
    {
      var todo, found := connections, false;
      c := 0;
      while todo != {} && !found
        invariant todo <= connections
        invariant if found then c in View().Idle() else View().Idle() <= todo
        decreases todo, !found
      {
        var it :| it in todo;
        todo := todo - {it};
        if it !in inUse {
          c, found := it, true;
        }
      }
      if !found {
        c := CreateConnection();
        connections := connections + {c};
      }
      mayReconnect := mayReconnect + {c};
      inUse := inUse + {c};
    }

    /** The callback that request gives its session. */
    method Finish(c: nat, failed: bool)
      modifies this
      ensures Finishes(old(View()), View(), c, failed)
    {
      inUse := inUse - {c};
      ghost var all := connections;
      var todo, unused := connections, 0;
      while todo != {}
        invariant View() == old(View()).(pooled := connections, inUse := old(inUse) - {c})
        invariant todo <= connections <= all
        invariant failed ==> c !in connections - todo
        invariant (all - todo) * inUse - (if failed then {c} else {}) <= connections
        invariant unused == 0 ==> all - todo - inUse <= if failed then {c} else {}
        invariant unused == 0 ==> connections - todo - inUse == {}
        invariant unused > 0 ==> exists one :: connections - todo - inUse == {one}
        decreases todo
      {
        var it :| it in todo;
        todo := todo - {it};
        if failed && it == c {
          connections := connections - {it};
        } else if it !in inUse {
          unused := unused + 1;
          if unused > 1 {
            connections := connections - {it};
          } else {
            assert connections - todo - inUse == {it};
          }
        }
      }
      assert connections - todo - inUse == connections - inUse;
      if unused > 0 {
        ghost var one :| connections - todo - inUse == {one};
        assert one in connections - inUse && forall a :: a in connections - inUse ==> a in {one};
      }
    }

    /** What read does when its first read fails; aborted: with operation_aborted. */
    method Reconnect(c: nat, aborted: bool) returns (replaced: bool, n: nat)
      modifies this
      ensures if c in old(mayReconnect) && !aborted && c in old(connections)
              then replaced && Replaces(old(View()), View(), c, n)
              else !replaced && View() == old(View())
    {
      replaced, n := c in mayReconnect && !aborted && c in connections, c;
      if replaced {
        connections := connections - {c};
        n := CreateConnection();
        mayReconnect := mayReconnect - {n};
        inUse := inUse + {n};
        connections := connections + {n};
      }
    }

    method Stop()
      modifies this
      ensures View() == old(View()).(pooled := {})
    {
      while connections != {}
        invariant View() == old(View()).(pooled := connections)
        decreases connections
      {
        var it :| it in connections;
        connections := connections - {it};
      }
    }
  }

  // ---------- requests in flight ----------

  // headRead: the response's head has been read, so the request no longer reconnects.
  datatype Session = Session(connection: nat, reconnects: nat, headRead: bool)

  // spent: the connections on which a request has failed.
  datatype System = System(pool: Pool, sessions: map<nat, Session>, spent: set<nat>)

  const START := System(Pool({}, {}, {}, 0), map[], {})

  datatype Event = Request(r: nat) | Replace(r: nat) | HeadRead(r: nat) | Complete(r: nat, failed: bool) | Stop

  /** One critical section, for any choice of idle connection and any order of pruning. */
  ghost predicate Step(s: System, e: Event, t: System) {
    match e
    case Request(r) =>
      && r !in s.sessions && r in t.sessions
      && t.sessions == s.sessions[r := Session(t.sessions[r].connection, 0, false)]
      && Gets(s.pool, t.pool, t.sessions[r].connection) && t.spent == s.spent
    case Replace(r) =>
      && r in s.sessions && r in t.sessions && !s.sessions[r].headRead
      && Replaces(s.pool, t.pool, s.sessions[r].connection, t.sessions[r].connection)
      && t.sessions == s.sessions[r := Session(t.sessions[r].connection, s.sessions[r].reconnects + 1, false)]
      && t.spent == s.spent + {s.sessions[r].connection}
    case HeadRead(r) =>
      && r in s.sessions && !s.sessions[r].headRead
      && t == System(s.pool.(mayReconnect := s.pool.mayReconnect + {s.sessions[r].connection}),
                     s.sessions[r := s.sessions[r].(headRead := true)], s.spent)
    case Complete(r, failed) =>
      && r in s.sessions
      && Finishes(s.pool, t.pool, s.sessions[r].connection, failed)
      && t.sessions == s.sessions - {r}
      && t.spent == if failed then s.spent + {s.sessions[r].connection} else s.spent
    case Stop => t == s.(pool := s.pool.(pooled := {}))
  }

  ghost predicate Run(states: seq<System>, events: seq<Event>) {
    && |states| == |events| + 1 && states[0] == START
    && forall i :: 0 <= i < |events| ==> Step(states[i], events[i], states[i + 1])
  }

  ghost predicate AtMostOneIdle(p: Pool) {
    forall a, b :: a in p.Idle() && b in p.Idle() ==> a == b
  }

  ghost predicate Distinct(sessions: map<nat, Session>) {
    forall q, r :: q in sessions && r in sessions && q != r ==> sessions[q].connection != sessions[r].connection
  }

  ghost predicate Owned(sessions: map<nat, Session>, c: nat) {
    exists r :: r in sessions && sessions[r].connection == c
  }

  ghost predicate Inv(s: System) {
    && AtMostOneIdle(s.pool) && Distinct(s.sessions)
    && (forall r :: r in s.sessions ==> SessionInv(s.sessions[r], s.pool, s.spent))
    && (forall c :: c in s.pool.pooled && c in s.pool.inUse ==> Owned(s.sessions, c))
    && (forall c :: c in s.pool.pooled ==> c < s.pool.created && c !in s.spent)
    && (forall c :: c in s.pool.inUse ==> c < s.pool.created)
    && (forall c :: c in s.spent ==> c < s.pool.created)
  }

  ghost predicate SessionInv(session: Session, p: Pool, spent: set<nat>) {
    && session.connection in p.inUse && session.connection !in spent
    && session.reconnects <= 1
    && (session.reconnects == 1 && !session.headRead ==> session.connection !in p.mayReconnect)
  }

  lemma StillOwned(s: System, r: nat, t: System)
    requires r in t.sessions && (t.sessions - {r} == s.sessions - {r})
    ensures forall c :: Owned(s.sessions, c) && (r in s.sessions ==> c != s.sessions[r].connection) ==> Owned(t.sessions, c)
    ensures Owned(t.sessions, t.sessions[r].connection)
  {
    forall c | Owned(s.sessions, c) && (r in s.sessions ==> c != s.sessions[r].connection)
      ensures Owned(t.sessions, c)
    {
      var q :| q in s.sessions && s.sessions[q].connection == c;
      assert q in s.sessions - {r} && q in t.sessions - {r};
    }
  }

  lemma RequestInv(s: System, r: nat, t: System)
    requires Inv(s) && Step(s, Request(r), t)
    ensures Inv(t)
  {
    assert forall a :: a in t.pool.Idle() ==> a in s.pool.Idle();
    StillOwned(s, r, t);
  }

  lemma ReplaceInv(s: System, r: nat, t: System)
    requires Inv(s) && Step(s, Replace(r), t)
    ensures Inv(t)
  {
    assert forall a :: a in t.pool.Idle() ==> a in s.pool.Idle();
    StillOwned(s, r, t);
    assert SessionInv(s.sessions[r], s.pool, s.spent);
  }

  lemma HeadReadInv(s: System, r: nat, t: System)
    requires Inv(s) && Step(s, HeadRead(r), t)
    ensures Inv(t)
  {
    assert forall a :: a in t.pool.Idle() ==> a in s.pool.Idle();
    StillOwned(s, r, t);
    assert SessionInv(s.sessions[r], s.pool, s.spent);
  }

  lemma CompleteInv(s: System, r: nat, failed: bool, t: System)
    requires Inv(s) && Step(s, Complete(r, failed), t)
    ensures Inv(t)
  {
    assert SessionInv(s.sessions[r], s.pool, s.spent);
    forall c | c in t.pool.pooled && c in t.pool.inUse
      ensures Owned(t.sessions, c)
    {
      var q :| q in s.sessions && s.sessions[q].connection == c;
      assert q in t.sessions;
    }
  }

  lemma StepInv(s: System, e: Event, t: System)
    requires Inv(s) && Step(s, e, t)
    ensures Inv(t)
  {
    match e
    case Request(r) => RequestInv(s, r, t);
    case Replace(r) => ReplaceInv(s, r, t);
    case HeadRead(r) => HeadReadInv(s, r, t);
    case Complete(r, failed) => CompleteInv(s, r, failed, t);
    case Stop =>
  }

  lemma {:induction false} RunInv(states: seq<System>, events: seq<Event>, i: nat)
    requires Run(states, events) && i < |states|
    ensures Inv(states[i])
  {
    if i > 0 {
      RunInv(states, events, i - 1);
      StepInv(states[i - 1], events[i - 1], states[i]);
    }
  }

  /** In every state of every run at most one pooled connection is idle, requests in flight own
      distinct connections, and each has reconnected at most once. */
  lemma PoolInvariant(states: seq<System>, events: seq<Event>, i: nat)
    requires Run(states, events) && i < |states|
    ensures |states[i].pool.Idle()| <= 1
    ensures Distinct(states[i].sessions)
    ensures forall r :: r in states[i].sessions ==> states[i].sessions[r].reconnects <= 1
  {
    RunInv(states, events, i);
    AtMostOne(states[i].pool.Idle());
    assert forall r :: r in states[i].sessions ==> SessionInv(states[i].sessions[r], states[i].pool, states[i].spent);
  }

  lemma AtMostOne(idle: set<nat>)
    requires forall a, b :: a in idle && b in idle ==> a == b
    ensures |idle| <= 1
  {
    if idle != {} {
      var a :| a in idle;
      assert idle == {a};
    }
  }

  /** Pruning never removes the connection of another request in flight. */
  lemma PruningSparesOthers(states: seq<System>, events: seq<Event>, i: nat, q: nat)
    requires Run(states, events) && i < |events| && events[i].Complete? && q != events[i].r
    requires q in states[i].sessions
    ensures q in states[i + 1].sessions && states[i + 1].sessions[q] == states[i].sessions[q]
    ensures states[i].sessions[q].connection in states[i].pool.pooled
            ==> states[i].sessions[q].connection in states[i + 1].pool.pooled
  {
    RunInv(states, events, i);
    assert SessionInv(states[i].sessions[q], states[i].pool, states[i].spent);
    assert Step(states[i], events[i], states[i + 1]);
  }

  /** A connection on which a request has failed is out of the pool, and no later request has it. */
  lemma {:induction false} SpentForever(states: seq<System>, events: seq<Event>, i: nat, j: nat, c: nat)
    requires Run(states, events) && i <= j < |states| && c in states[i].spent
    ensures c in states[j].spent && c !in states[j].pool.pooled && !Owned(states[j].sessions, c)
    decreases j
  {
    RunInv(states, events, j);
    assert forall r :: r in states[j].sessions ==> SessionInv(states[j].sessions[r], states[j].pool, states[j].spent);
    if i < j {
      SpentForever(states, events, i, j - 1, c);
      assert Step(states[j - 1], events[j - 1], states[j]);
    }
  }

  // ---------- runs without failures ----------

  ghost predicate Smooth(events: seq<Event>) {
    forall i :: 0 <= i < |events| ==> events[i] != Stop && (events[i].Complete? ==> !events[i].failed)
  }

  ghost predicate Full(s: System) {
    && (s.pool.created > 0 ==> s.pool.pooled != {})
    && (forall r :: r in s.sessions ==> s.sessions[r].connection in s.pool.pooled)
  }

  lemma StepFull(s: System, e: Event, t: System)
    requires Inv(s) && Full(s) && Step(s, e, t) && e != Stop && (e.Complete? ==> !e.failed)
    ensures Full(t)
  {
    match e
    case Request(r) =>
    case Replace(r) =>
      assert t.sessions[r].connection in t.pool.pooled;
      assert forall q :: q in s.sessions && q != r ==> s.sessions[q].connection != s.sessions[r].connection;
    case HeadRead(r) =>
    case Complete(r, failed) =>
      var c := s.sessions[r].connection;
      assert c in s.pool.pooled - t.pool.inUse;
      assert forall q :: q in t.sessions ==> SessionInv(s.sessions[q], s.pool, s.spent)
                                             && s.sessions[q].connection != c;
  }

  lemma {:induction false} RunFull(states: seq<System>, events: seq<Event>, i: nat)
    requires Run(states, events) && Smooth(events) && i < |states|
    ensures Full(states[i])
  {
    if i > 0 {
      RunFull(states, events, i - 1);
      RunInv(states, events, i - 1);
      StepFull(states[i - 1], events[i - 1], states[i]);
    }
  }

  lemma {:induction false} SomeCreated(states: seq<System>, events: seq<Event>, i: nat)
    requires Run(states, events) && 1 <= i < |states|
    ensures (exists k :: 0 <= k < i && events[k].Request?) ==> states[i].pool.created > 0
  {
    assert Step(states[i - 1], events[i - 1], states[i]);
    RunInv(states, events, i - 1);
    if i > 1 {
      SomeCreated(states, events, i - 1);
    }
  }

  /** When all requests have succeeded, perhaps after reconnecting, and none is in flight,
      exactly one connection is left. */
  lemma ExactlyOneRemains(states: seq<System>, events: seq<Event>, i: nat)
    requires Run(states, events) && Smooth(events) && i < |states|
    requires states[i].sessions == map[] && exists k :: 0 <= k < i && events[k].Request?
    ensures |states[i].pool.pooled| == 1
  {
    RunInv(states, events, i);
    RunFull(states, events, i);
    SomeCreated(states, events, i);
    var p := states[i].pool;
    assert p.Idle() == p.pooled;
    AtMostOne(p.Idle());
    assert |p.pooled| > 0 by {
      var c :| c in p.pooled;
    }
  }
}
