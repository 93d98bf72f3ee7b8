/** Counting over all runs: the pool's counters count its clients, the limit bounds each
    io_context, and a queue is never left without someone who will serve it. */
module PoolLimits {
  import opened PoolEntry
  import opened PoolProtocol
  import opened PoolQueue

  predicate Holds(client: Client) {
    client.phase.Creating? || client.phase.Borrowed?
  }

  /** The clients that hold a place: they create or use a connection. */
  ghost function Holders(clients: map<nat, Client>): set<nat> {
    set c | c in clients && Holds(clients[c])
  }

  ghost function HoldersOn(clients: map<nat, Client>, ctx: Ctx): set<nat> {
    set c | c in clients && Holds(clients[c]) && clients[c].ctx == ctx
  }

  /** The clients that were woken or timed out and have not yet run the loop again. */
  ghost function Reruns(clients: map<nat, Client>): set<nat> {
    set c | c in clients && clients[c].phase.Rerun?
  }

  /** active counts the places held; every place taken was given back, failed or is held. */
  ghost predicate Counted(s: State) {
    && s.entry.active == |Holders(s.clients)|
    && s.entry.created + s.entry.reused == s.entry.active + s.releases + s.failures
  }

  /** On each io_context, places held and idle connections together stay within the limit. */
  ghost predicate Bounded(s: State, limit: nat) {
    limit > 0 ==> forall ctx: Ctx :: |HoldersOn(s.clients, ctx)| + |IdleOf(s.entry, ctx)| <= limit
  }

  /** No lost wake-up: while someone queues, as many as the limit hold a place or are
      about to run the loop again. */
  ghost predicate Served(s: State, limit: nat) {
    s.entry.waiters != [] ==> limit > 0 && s.entry.active + |Reruns(s.clients)| >= limit
  }

  // ---------------------------------------------------------------------------
  // What one change of a client does to the sets
  // ---------------------------------------------------------------------------

  lemma Enters(clients: map<nat, Client>, c: nat, client: Client)
    requires Holds(client) && (c in clients ==> clients[c] == Client(client.ctx, Rerun))
    ensures var after := clients[c := client];
            && |Holders(after)| == |Holders(clients)| + 1
            && |HoldersOn(after, client.ctx)| == |HoldersOn(clients, client.ctx)| + 1
            && (forall x: Ctx :: x != client.ctx ==> HoldersOn(after, x) == HoldersOn(clients, x))
            && |Reruns(after)| + 1 >= |Reruns(clients)|
  {
    var after := clients[c := client];
    EntersSets(clients, c, client);
    hide *;
  }

  lemma EntersSets(clients: map<nat, Client>, c: nat, client: Client)
    requires Holds(client) && (c in clients ==> clients[c] == Client(client.ctx, Rerun))
    ensures c !in Holders(clients) && Holders(clients[c := client]) == Holders(clients) + {c}
    ensures c !in HoldersOn(clients, client.ctx)
    ensures HoldersOn(clients[c := client], client.ctx) == HoldersOn(clients, client.ctx) + {c}
    ensures forall x: Ctx :: x != client.ctx ==> HoldersOn(clients[c := client], x) == HoldersOn(clients, x)
    ensures Reruns(clients[c := client]) == Reruns(clients) - {c}
  {
  }

  /** A client that neither held a place nor does so afterwards. */
  lemma StaysOut(clients: map<nat, Client>, c: nat, client: Client)
    requires !Holds(client) && (c in clients ==> !Holds(clients[c]))
    ensures Holders(clients[c := client]) == Holders(clients)
    ensures forall x: Ctx :: HoldersOn(clients[c := client], x) == HoldersOn(clients, x)
  {
    assert forall x: Ctx :: HoldersOn(clients[c := client], x) == HoldersOn(clients, x);
  }

  lemma GoesOn(clients: map<nat, Client>, c: nat, client: Client)
    requires c in clients && Holds(clients[c]) && Holds(client) && client.ctx == clients[c].ctx
    ensures Holders(clients[c := client]) == Holders(clients)
    ensures forall x: Ctx :: HoldersOn(clients[c := client], x) == HoldersOn(clients, x)
    ensures Reruns(clients[c := client]) == Reruns(clients)
  {
    assert forall x: Ctx :: HoldersOn(clients[c := client], x) == HoldersOn(clients, x);
  }

  lemma Goes(clients: map<nat, Client>, c: nat)
    requires c in clients && Holds(clients[c])
    ensures |Holders(clients - {c})| == |Holders(clients)| - 1
    ensures |HoldersOn(clients - {c}, clients[c].ctx)| == |HoldersOn(clients, clients[c].ctx)| - 1
    ensures forall x: Ctx :: x != clients[c].ctx ==> HoldersOn(clients - {c}, x) == HoldersOn(clients, x)
    ensures Reruns(clients - {c}) == Reruns(clients)
  {
    assert Holders(clients - {c}) == Holders(clients) - {c};
    assert HoldersOn(clients - {c}, clients[c].ctx) == HoldersOn(clients, clients[c].ctx) - {c};
  }

  lemma WakeKeepsHolders(clients: map<nat, Client>, ws: set<nat>)
    ensures Holders(Wake(clients, ws)) == Holders(clients)
    ensures forall x: Ctx :: HoldersOn(Wake(clients, ws), x) == HoldersOn(clients, x)
    ensures Reruns(clients) <= Reruns(Wake(clients, ws))
  {
    assert forall x: Ctx :: HoldersOn(Wake(clients, ws), x) == HoldersOn(clients, x);
  }

  /** Waking a queued waiter makes one more client run the loop again. */
  lemma WakeAddsRerun(clients: map<nat, Client>, d: nat, x: Waiter)
    requires Waits(clients, d, x)
    ensures |Reruns(Wake(clients, {x.id}))| >= |Reruns(clients)| + 1
  {
    var after := Wake(clients, {x.id});
    assert Reruns(clients) + {d} <= Reruns(after);
    SubsetSize(Reruns(clients) + {d}, Reruns(after));
  }

  lemma SubsetSize<T>(a: set<T>, b: set<T>)
    requires a <= b
    ensures |a| <= |b|
  {
    assert b == a + (b - a);
  }

  lemma HoldersOnSize(clients: map<nat, Client>, ctx: Ctx)
    ensures |HoldersOn(clients, ctx)| <= |Holders(clients)|
  {
    SubsetSize(HoldersOn(clients, ctx), Holders(clients));
  }

  // ---------------------------------------------------------------------------
  // The steps
  // ---------------------------------------------------------------------------

  ghost predicate Good(s: State, limit: nat) {
    Ok(s) && Counted(s) && Bounded(s, limit) && Served(s, limit)
  }

  lemma AcquireKeeps(s: State, c: nat, ctx: Ctx, now: int, limit: nat)
    requires Good(s, limit) && Enabled(s, Acquire(c, ctx, now))
    ensures var t := Apply(s, Acquire(c, ctx, now), limit);
            Counted(t) && Bounded(t, limit) && Served(t, limit)
  {
    var t := Apply(s, Acquire(c, ctx, now), limit);
    var idle := IdleOf(s.entry, ctx);
    assert forall x: Ctx :: x != ctx ==> IdleOf(t.entry, x) == IdleOf(s.entry, x);
    hide QueueOk;
    match AcquireEntry(s.entry, limit, ctx, now, s.nextWaiter).1
    case Reuse(conn) =>
      Enters(s.clients, c, Client(ctx, Borrowed(conn)));
      assert |IdleOf(t.entry, ctx)| < |idle|;
    case Create =>
      Enters(s.clients, c, Client(ctx, Creating));
      HoldersOnSize(s.clients, ctx);
      assert IdleOf(t.entry, ctx) == [];
    case Wait(w) =>
      StaysOut(s.clients, c, Client(ctx, Waiting(w)));
      assert IdleOf(t.entry, ctx) == [];
  }

  lemma GivingBackKeeps(s: State, step: Step, c: nat, limit: nat)
    requires Good(s, limit) && Enabled(s, step)
    requires step == CreateFailed(c) || exists keep, now :: step == Release(c, keep, now)
    requires step.Release? ==> s.clients[c].phase.conn.ctx == s.clients[c].ctx
    ensures var t := Apply(s, step, limit);
            Counted(t) && Bounded(t, limit) && Served(t, limit)
  {
    var t := Apply(s, step, limit);
    var ws := s.entry.waiters;
    var rest := s.clients - {c};
    var woken := WakeOne(ws, s.live).1;
    Goes(s.clients, c);
    WakeKeepsHolders(rest, Woken(woken));
    WakesOldest(ws, s.live, s.nextWaiter, s.clients);
    assert s.entry.active > 0;
    SubsetSize(Reruns(rest), Reruns(t.clients));
    if ws != [] {
      assert ws[0] in ws;
      var d: nat :| Waits(s.clients, d, ws[0]);
      assert Waits(rest, d, ws[0]);
      WakeAddsRerun(rest, d, ws[0]);
    }
    hide QueueOk;
    assert forall x: Ctx :: x != s.clients[c].ctx ==> IdleOf(t.entry, x) == IdleOf(s.entry, x);
    assert |IdleOf(t.entry, s.clients[c].ctx)| <= |IdleOf(s.entry, s.clients[c].ctx)| + 1;
  }

  lemma CreatedKeeps(s: State, c: nat, now: int, limit: nat)
    requires Good(s, limit) && Enabled(s, Created(c, now))
    ensures var t := Apply(s, Created(c, now), limit);
            Counted(t) && Bounded(t, limit) && Served(t, limit)
  {
    hide QueueOk;
    GoesOn(s.clients, c, Apply(s, Created(c, now), limit).clients[c]);
  }

  /** Steps that move no holder and no connection into a bucket. */
  lemma QuietStepKeeps(s: State, t: State, limit: nat)
    requires Good(s, limit)
    requires Holders(t.clients) == Holders(s.clients) && Reruns(s.clients) <= Reruns(t.clients)
    requires forall x: Ctx :: HoldersOn(t.clients, x) == HoldersOn(s.clients, x)
    requires forall x: Ctx :: |IdleOf(t.entry, x)| <= |IdleOf(s.entry, x)|
    requires t.entry.waiters != [] ==> s.entry.waiters != []
    requires t.entry.active == s.entry.active && t.entry.created == s.entry.created && t.entry.reused == s.entry.reused
    requires t.releases == s.releases && t.failures == s.failures
    ensures Counted(t) && Bounded(t, limit) && Served(t, limit)
  {
    hide QueueOk, IdleOf, Holders, HoldersOn, Reruns;
    SubsetSize(Reruns(s.clients), Reruns(t.clients));
  }

  lemma OtherStepKeeps(s: State, step: Step, limit: nat)
    requires Good(s, limit) && Enabled(s, step)
    requires step.Timeout? || step.Cancelled? || step.Clear? || step.DropContext? || step.Elsewhere?
    ensures var t := Apply(s, step, limit);
            Counted(t) && Bounded(t, limit) && Served(t, limit)
  {
    var t := Apply(s, step, limit);
    hide QueueOk, Counted, Bounded, Served;
    assert Holders(t.clients) == Holders(s.clients) && Reruns(s.clients) <= Reruns(t.clients);
    assert forall x: Ctx :: HoldersOn(t.clients, x) == HoldersOn(s.clients, x);
    QuietStepKeeps(s, t, limit);
  }
}
