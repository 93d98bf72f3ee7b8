/** The wait queue over all runs: it holds exactly the waiters of the clients that wait,
    all of them active, oldest first; and no wake-up is lost. */
module PoolQueue {
  import opened Basics
  import opened PoolEntry
  import opened PoolProtocol

  ghost predicate Increasing(ws: seq<Waiter>) {
    forall i, j :: 0 <= i < j < |ws| ==> ws[i].id < ws[j].id
  }

  predicate Waits(clients: map<nat, Client>, c: nat, x: Waiter) {
    c in clients && clients[c] == Client(x.ctx, Waiting(x.id))
  }

  /** The queue is in order of arrival; its waiters are the active ones; each belongs to a
      client that waits, and each client that waits is queued. */
  ghost predicate QueueOk(ws: seq<Waiter>, live: set<nat>, next: nat, clients: map<nat, Client>) {
    && Increasing(ws)
    && (forall x :: x in ws ==> x.id < next)
    && live == Ids(ws)
    && (forall x :: x in ws ==> exists c: nat :: Waits(clients, c, x))
    && (forall c, x :: Waits(clients, c, x) ==> x in ws)
    && (forall c, d, x :: Waits(clients, c, x) && Waits(clients, d, x) ==> c == d)
  }

  lemma {:induction false} WithoutKeepsOrder(ws: seq<Waiter>, w: nat)
    requires Increasing(ws)
    ensures Increasing(Without(ws, w)) && Ids(Without(ws, w)) == Ids(ws) - {w}
  {
    if ws == [] {
    } else {
      var rest := ws[1..];
      assert ws == [ws[0]] + rest;
      WithoutKeepsOrder(rest, w);
      forall x | x in rest ensures ws[0].id < x.id {
        var j :| 0 <= j < |rest| && rest[j] == x;
        assert ws[j + 1] == x;
      }
      if ws[0].id != w {
        PrependKeepsOrder(ws[0], Without(rest, w));
      }
    }
  }

  lemma PrependKeepsOrder(x: Waiter, rest: seq<Waiter>)
    requires Increasing(rest) && forall y :: y in rest ==> x.id < y.id
    ensures Increasing([x] + rest)
  {
    var all := [x] + rest;
    forall i, j | 0 <= i < j < |all| ensures all[i].id < all[j].id {
      assert all[j] == rest[j - 1];
      if i > 0 { assert all[i] == rest[i - 1]; }
    }
  }

  lemma FirstIsLeast(ws: seq<Waiter>)
    requires Increasing(ws) && ws != []
    ensures Increasing(ws[1..]) && forall x :: x in ws[1..] ==> ws[0].id < x.id
  {
    forall x | x in ws[1..] ensures ws[0].id < x.id {
      var j :| 0 <= j < |ws[1..]| && ws[1..][j] == x;
      assert ws[j + 1] == x;
    }
  }

  lemma {:induction false} NotOnInOrder(ws: seq<Waiter>, ctx: Ctx)
    requires Increasing(ws)
    ensures Increasing(NotOn(ws, ctx))
  {
    if ws == [] {
    } else {
      FirstIsLeast(ws);
      hide Increasing;
      NotOnInOrder(ws[1..], ctx);
      if ws[0].ctx != ctx {
        PrependKeepsOrder(ws[0], NotOn(ws[1..], ctx));
      }
    }
  }

  lemma NotOnKeepsOrder(ws: seq<Waiter>, ctx: Ctx)
    requires Increasing(ws)
    ensures Increasing(NotOn(ws, ctx)) && Ids(NotOn(ws, ctx)) == Ids(ws) - IdsOn(ws, ctx)
  {
    NotOnInOrder(ws, ctx);
    hide NotOn, Increasing;
    forall id ensures id in Ids(NotOn(ws, ctx)) <==> id in Ids(ws) - IdsOn(ws, ctx) {
      if id in Ids(NotOn(ws, ctx)) {
        var x :| x in NotOn(ws, ctx) && x.id == id;
        forall y | y in ws && y.id == id ensures y == x { SameId(ws, x, y); }
      }
    }
  }

  /** In order, waiters with the same number are the same waiter. */
  lemma SameId(ws: seq<Waiter>, x: Waiter, y: Waiter)
    requires Increasing(ws) && x in ws && y in ws && x.id == y.id
    ensures x == y
  {
  }

  lemma TailKeepsOrder(ws: seq<Waiter>)
    requires Increasing(ws) && ws != []
    ensures Increasing(ws[1..]) && Ids(ws[1..]) == Ids(ws) - {ws[0].id}
    ensures forall x :: x in ws <==> x == ws[0] || x in ws[1..]
    ensures forall x :: x in ws[1..] ==> ws[0].id < x.id
  {
    assert ws == [ws[0]] + ws[1..];
    forall x | x in ws[1..] ensures ws[0].id < x.id {
      var j :| 0 <= j < |ws[1..]| && ws[1..][j] == x;
      assert ws[j + 1] == x;
    }
  }

  lemma Enqueued(ws: seq<Waiter>, live: set<nat>, next: nat, clients: map<nat, Client>, c: nat, ctx: Ctx)
    requires QueueOk(ws, live, next, clients)
    requires c !in clients || !clients[c].phase.Waiting?
    ensures QueueOk(ws + [Waiter(next, ctx)], live + {next}, next + 1, clients[c := Client(ctx, Waiting(next))])
  {
    var x := Waiter(next, ctx);
    var ws', clients' := ws + [x], clients[c := Client(ctx, Waiting(next))];
    assert Waits(clients', c, x);
    forall y | y in ws ensures y in ws' && exists d: nat :: Waits(clients', d, y) {
      var d: nat :| Waits(clients, d, y);
      assert Waits(clients', d, y);
    }
    forall d, y | Waits(clients', d, y) ensures y in ws' && (y == x <==> d == c) {
      if d != c { assert Waits(clients, d, y) && y in ws; } else { assert y == x == ws'[|ws|]; }
    }
    forall d, e, y | Waits(clients', d, y) && Waits(clients', e, y) ensures d == e {
      if d != c && e != c { assert Waits(clients, d, y) && Waits(clients, e, y); }
    }
  }

  /** Changing clients that do not wait leaves the queue alone. */
  lemma Unqueued(ws: seq<Waiter>, live: set<nat>, next: nat, clients: map<nat, Client>, clients': map<nat, Client>)
    requires QueueOk(ws, live, next, clients)
    requires forall d, y :: Waits(clients', d, y) <==> Waits(clients, d, y)
    ensures QueueOk(ws, live, next, clients')
  {
    forall y | y in ws ensures exists d: nat :: Waits(clients', d, y) {
      var d: nat :| Waits(clients, d, y);
      assert Waits(clients', d, y);
    }
  }

  /** Waiters leave the queue together with the waiting of their clients. */
  lemma Dequeued(ws: seq<Waiter>, live: set<nat>, next: nat, clients: map<nat, Client>,
                 ws': seq<Waiter>, live': set<nat>, clients': map<nat, Client>, gone: set<nat>)
    requires QueueOk(ws, live, next, clients)
    requires Increasing(ws') && live' == Ids(ws') && (forall x :: x in ws' <==> x in ws && x.id !in gone)
    requires forall d, y :: Waits(clients', d, y) <==> Waits(clients, d, y) && y.id !in gone
    ensures QueueOk(ws', live', next, clients')
  {
    forall y | y in ws' ensures exists d: nat :: Waits(clients', d, y) {
      var d: nat :| Waits(clients, d, y);
      assert Waits(clients', d, y);
    }
  }

  ghost predicate Ok(s: State) {
    QueueOk(s.entry.waiters, s.live, s.nextWaiter, s.clients)
  }

  /** Both kinds of giving a place back wake the oldest waiter. */
  lemma WakesOldest(ws: seq<Waiter>, live: set<nat>, next: nat, clients: map<nat, Client>)
    requires QueueOk(ws, live, next, clients)
    ensures ws == [] ==> WakeOne(ws, live) == ([], None)
    ensures ws != [] ==> WakeOne(ws, live) == (ws[1..], Some(ws[0].id))
    ensures ws != [] ==> forall x :: x in ws ==> ws[0].id <= x.id
  {
    if ws != [] {
      assert ws[0] in ws;
      TailKeepsOrder(ws);
    }
  }

  lemma GivenBack(ws: seq<Waiter>, live: set<nat>, next: nat, clients: map<nat, Client>, c: nat)
    requires QueueOk(ws, live, next, clients) && c in clients && !clients[c].phase.Waiting?
    ensures var (rest, woken) := WakeOne(ws, live);
            QueueOk(rest, live - Woken(woken), next, Wake(clients - {c}, Woken(woken)))
  {
    WakesOldest(ws, live, next, clients);
    var (rest, woken) := WakeOne(ws, live);
    if ws == [] {
      Unqueued(ws, live, next, clients, Wake(clients - {c}, {}));
    } else {
      TailKeepsOrder(ws);
      var clients' := Wake(clients - {c}, Woken(woken));
      forall x | x in ws ensures x.id == ws[0].id <==> x == ws[0] {
        assert ws[0] in ws;
        if x.id == ws[0].id { SameId(ws, x, ws[0]); }
      }
      Dequeued(ws, live, next, clients, rest, live - Woken(woken), clients', {ws[0].id});
    }
  }

  /** The waiter of a client that stops waiting leaves the queue, and no other. */
  lemma LeftAlone(s: State, c: nat, clients': map<nat, Client>)
    requires Ok(s) && c in s.clients && s.clients[c].phase.Waiting?
    requires clients' == s.clients - {c} || clients' == s.clients[c := s.clients[c].(phase := Rerun)]
    ensures var w := s.clients[c].phase.w;
            w in s.live && QueueOk(Left(s, w).waiters, s.live - {w}, s.nextWaiter, clients')
  {
    var ws, w := s.entry.waiters, s.clients[c].phase.w;
    var x := Waiter(w, s.clients[c].ctx);
    assert Waits(s.clients, c, x) && x in ws;
    WithoutKeepsOrder(ws, w);
    forall d, y ensures Waits(clients', d, y) <==> Waits(s.clients, d, y) && y.id != w {
      if Waits(s.clients, d, y) && y.id == w { SameId(ws, y, x); }
    }
    Dequeued(ws, s.live, s.nextWaiter, s.clients, Without(ws, w), s.live - {w}, clients', {w});
  }

  /** Every step keeps the queue in order. */
  lemma StepKeepsQueue(s: State, step: Step, limit: nat)
    requires Ok(s) && Enabled(s, step)
    ensures Ok(Apply(s, step, limit))
  {
    var t := Apply(s, step, limit);
    var ws := s.entry.waiters;
    hide QueueOk;
    match step
    case Acquire(c, ctx, now) =>
      if AcquireEntry(s.entry, limit, ctx, now, s.nextWaiter).1.Wait? {
        Enqueued(ws, s.live, s.nextWaiter, s.clients, c, ctx);
      } else {
        Unqueued(ws, s.live, s.nextWaiter, s.clients, t.clients);
      }
    case Created(c, now) =>
      Unqueued(ws, s.live, s.nextWaiter, s.clients, t.clients);
    case CreateFailed(c) =>
      GivenBack(ws, s.live, s.nextWaiter, s.clients, c);
    case Release(c, keep, now) =>
      GivenBack(ws, s.live, s.nextWaiter, s.clients, c);
    case Timeout(c) =>
      LeftAlone(s, c, t.clients);
    case Cancelled(c) =>
      LeftAlone(s, c, t.clients);
    case Clear =>
      ClearedQueue(s, t);
    case DropContext(ctx) =>
      DroppedQueue(s, ctx, t);
    case Elsewhere =>
      NumberTaken(ws, s.live, s.nextWaiter, s.clients);
  }

  lemma NumberTaken(ws: seq<Waiter>, live: set<nat>, next: nat, clients: map<nat, Client>)
    requires QueueOk(ws, live, next, clients)
    ensures QueueOk(ws, live, next + 1, clients)
  {
  }

  lemma ClearedQueue(s: State, t: State)
    requires Ok(s) && t == Apply(s, Clear, 0)
    ensures Ok(t)
  {
    forall d, y ensures Waits(t.clients, d, y) <==> Waits(s.clients, d, y) && y.id !in Ids(s.entry.waiters) {}
    Dequeued(s.entry.waiters, s.live, s.nextWaiter, s.clients, [], {}, t.clients, Ids(s.entry.waiters));
  }

  lemma DroppedQueue(s: State, ctx: Ctx, t: State)
    requires Ok(s) && Enabled(s, DropContext(ctx)) && t == Apply(s, DropContext(ctx), 0)
    ensures Ok(t)
  {
    var ws := s.entry.waiters;
    NotOnKeepsOrder(ws, ctx);
    forall x | x in ws ensures x.id in IdsOn(ws, ctx) <==> x.ctx == ctx {
      if x.id in IdsOn(ws, ctx) {
        var y :| y in ws && y.ctx == ctx && y.id == x.id;
        SameId(ws, x, y);
      }
    }
    forall d, y ensures Waits(t.clients, d, y) <==> Waits(s.clients, d, y) && y.id !in IdsOn(ws, ctx) {
      if Waits(s.clients, d, y) { assert y in ws; }
    }
    Dequeued(ws, s.live, s.nextWaiter, s.clients, NotOn(ws, ctx), t.live, t.clients, IdsOn(ws, ctx));
  }
}
