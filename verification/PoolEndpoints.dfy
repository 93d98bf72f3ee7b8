/** The whole pool with the clients of all its endpoints: what happens under the lock is, for
    each endpoint, a step of the protocol of one. */
module PoolEndpoints {
  import opened Basics
  import opened PoolEntry
  import opened ConnectionPool
  import P = PoolProtocol
  import opened PoolQueue
  import opened PoolLimits
  import opened PoolOwnership
  import opened PoolTheorems

  /** The clients of one endpoint, and what is counted for them. */
  datatype Side = Side(clients: map<nat, P.Client>, nextConn: nat, releases: nat, failures: nat)

  const NOBODY := Side(map[], 0, 0, 0)

  datatype System = System(pool: Fields, sides: map<Key, Side>)

  const START := System(Fields(map[], {}, 0), map[])

  function SideAt(sides: map<Key, Side>, key: Key): Side {
    if key in sides then sides[key] else NOBODY
  }

  /** What one endpoint sees of the pool. */
  function View(sys: System, key: Key): P.State {
    var e, side := EntryIn(sys.pool.entries, key), SideAt(sys.sides, key);
    P.State(e, sys.pool.live * Ids(e.waiters), sys.pool.nextWaiter,
            side.clients, side.nextConn, side.releases, side.failures)
  }

  /** A step of a client of one endpoint, or clear or the end of an io_context, which touch
      all of them. */
  datatype Event = At(key: Key, step: P.Step) | ClearAll | DropAll(ctx: Ctx)

  predicate IsLocal(step: P.Step) {
    !step.Clear? && !step.DropContext? && !step.Elsewhere?
  }

  ghost predicate Possible(sys: System, event: Event) {
    match event
    case At(key, step) => IsLocal(step) && P.Enabled(View(sys, key), step)
    case ClearAll => true
    case DropAll(ctx) => forall key :: key in sys.sides ==> P.Enabled(View(sys, key), P.DropContext(ctx))
  }

  function Put(sys: System, pool: Fields, key: Key, side: Side): System {
    System(pool, sys.sides[key := side])
  }

  /** A client of one endpoint goes through a region of the pool. */
  function Local(sys: System, key: Key, step: P.Step, limit: nat): System
    requires IsLocal(step) && P.Enabled(View(sys, key), step)
  {
    var side := SideAt(sys.sides, key);
    match step
    case Acquire(c, ctx, now) =>
      var (pool, o) := AfterAcquire(sys.pool, key, limit, ctx, now);
      var phase := match o
                   case Reuse(conn) => P.Borrowed(conn)
                   case Create => P.Creating
                   case Wait(w) => P.Waiting(w);
      Put(sys, pool, key, side.(clients := side.clients[c := P.Client(ctx, phase)]))
    case Created(c, now) =>
      var ctx := side.clients[c].ctx;
      var conn := Conn(side.nextConn, ctx, now, true);
      Put(sys, sys.pool, key, side.(clients := side.clients[c := P.Client(ctx, P.Borrowed(conn))],
                                    nextConn := side.nextConn + 1))
    case CreateFailed(c) =>
      var (pool, woken) := AfterCreateFailed(sys.pool, key);
      Put(sys, pool, key, side.(clients := P.Wake(side.clients - {c}, Woken(woken)), failures := side.failures + 1))
    case Release(c, keep, now) =>
      var (pool, woken) := AfterRelease(sys.pool, key, side.clients[c].phase.conn, keep, now);
      Put(sys, pool, key, side.(clients := P.Wake(side.clients - {c}, Woken(woken)), releases := side.releases + 1))
    case Timeout(c) =>
      Put(sys, AfterLeave(sys.pool, key, side.clients[c].phase.w), key,
          side.(clients := side.clients[c := side.clients[c].(phase := P.Rerun)]))
    case Cancelled(c) =>
      Put(sys, AfterLeave(sys.pool, key, side.clients[c].phase.w), key, side.(clients := side.clients - {c}))
  }

  function Happens(sys: System, event: Event, limits: Key -> nat): System
    requires Possible(sys, event)
  {
    match event
    case At(key, step) => Local(sys, key, step, limits(key))
    case ClearAll =>
      var (pool, woken) := AfterClear(sys.pool);
      System(pool, map k | k in sys.sides :: sys.sides[k].(clients := P.Wake(sys.sides[k].clients, woken)))
    case DropAll(ctx) =>
      var (pool, _) := AfterDrop(sys.pool, ctx);
      System(pool, map k | k in sys.sides :: sys.sides[k].(clients := OffContext(sys.sides[k].clients, ctx)))
  }

  function OffContext(clients: map<nat, P.Client>, ctx: Ctx): map<nat, P.Client> {
    map c | c in clients && clients[c].ctx != ctx :: clients[c]
  }

  // ---------------------------------------------------------------------------
  // What every event keeps
  // ---------------------------------------------------------------------------

  /** Every queue is in order, and no waiter is in two of them. */
  ghost predicate Sound(sys: System) {
    && (forall key: Key :: Ok(View(sys, key)))
    && (forall k: Key, l: Key :: k != l ==> View(sys, k).live !! View(sys, l).live)
  }

  /** The wake-up loop looks at the flags of its own queue only. */
  lemma {:induction false} WakesOwn(ws: seq<Waiter>, live: set<nat>)
    ensures WakeOne(ws, live) == WakeOne(ws, live * Ids(ws))
  {
    WakesAlike(ws, live, live * Ids(ws));
  }

  lemma {:induction false} WakesAlike(ws: seq<Waiter>, a: set<nat>, b: set<nat>)
    requires forall x :: x in ws ==> (x.id in a <==> x.id in b)
    ensures WakeOne(ws, a) == WakeOne(ws, b)
  {
    if ws == [] {
    } else {
      assert forall x :: x in ws[1..] ==> x in ws;
      WakesAlike(ws[1..], a, b);
    }
  }

  lemma WokenView(ws: seq<Waiter>, live: set<nat>, next: nat, clients: map<nat, P.Client>)
    requires QueueOk(ws, live * Ids(ws), next, clients)
    ensures var (rest, woken) := WakeOne(ws, live);
            && (rest, woken) == WakeOne(ws, live * Ids(ws))
            && (live - Woken(woken)) * Ids(rest) == live * Ids(ws) - Woken(woken)
            && Woken(woken) <= live * Ids(ws)
  {
    WakesOwn(ws, live);
    WakesOldest(ws, live * Ids(ws), next, clients);
    if ws != [] {
      TailKeepsOrder(ws);
      assert ws[0] in ws;
    }
  }

  lemma JoinedView(ws: seq<Waiter>, live: set<nat>, x: Waiter)
    ensures (live + {x.id}) * Ids(ws + [x]) == live * Ids(ws) + {x.id}
  {
    assert Ids(ws + [x]) == Ids(ws) + {x.id};
  }

  lemma LeftView(sys: System, key: Key, c: nat)
    requires Ok(View(sys, key))
    requires var s := View(sys, key); c in s.clients && s.clients[c].phase.Waiting?
    ensures var s := View(sys, key); var w := s.clients[c].phase.w; var f := AfterLeave(sys.pool, key, w);
            && w in s.live && f.nextWaiter == s.nextWaiter
            && EntryIn(f.entries, key) == P.Left(s, w)
            && f.live * Ids(EntryIn(f.entries, key).waiters) == s.live - {w}
  {
    var s := View(sys, key);
    var ws, w := s.entry.waiters, s.clients[c].phase.w;
    assert Waits(s.clients, c, Waiter(w, s.clients[c].ctx));
    WithoutKeepsOrder(ws, w);
  }

  /** A local step is a step of the protocol of its endpoint. */
  lemma LocalView(sys: System, key: Key, step: P.Step, limit: nat)
    requires Ok(View(sys, key)) && IsLocal(step) && P.Enabled(View(sys, key), step)
    ensures View(Local(sys, key, step, limit), key) == P.Apply(View(sys, key), step, limit)
  {
    var s := View(sys, key);
    var ws, live := s.entry.waiters, sys.pool.live;
    hide QueueOk, WakeOne, Without, Ids, P.Wake, LastUsable;
    match step
    case Acquire(c, ctx, now) => JoinedView(ws, live, Waiter(s.nextWaiter, ctx));
    case Created(c, now) =>
    case CreateFailed(c) => WokenView(ws, live, s.nextWaiter, s.clients);
    case Release(c, keep, now) => WokenView(ws, live, s.nextWaiter, s.clients);
    case Timeout(c) => LeftView(sys, key, c);
    case Cancelled(c) => LeftView(sys, key, c);
  }

  /** What a local step does to the shared flags and the numbers. */
  lemma LocalFlags(sys: System, key: Key, step: P.Step, limit: nat)
    requires Ok(View(sys, key)) && IsLocal(step) && P.Enabled(View(sys, key), step)
    ensures var s, f, t := View(sys, key), sys.pool, Local(sys, key, step, limit);
            && (forall other :: other != key ==>
                  EntryIn(t.pool.entries, other) == EntryIn(f.entries, other)
                  && SideAt(t.sides, other) == SideAt(sys.sides, other))
            && ((t.pool.nextWaiter == f.nextWaiter + 1 && t.pool.live == f.live + {f.nextWaiter})
                || (t.pool.nextWaiter == f.nextWaiter && exists gone :: gone <= s.live && t.pool.live == f.live - gone))
  {
    var s := View(sys, key);
    var ws, live := s.entry.waiters, sys.pool.live;
    hide QueueOk, WakeOne, Without, Ids, P.Wake, LastUsable;
    match step
    case Acquire(c, ctx, now) => NothingGone(live, s.live);
    case Created(c, now) => NothingGone(live, s.live);
    case CreateFailed(c) => WokenView(ws, live, s.nextWaiter, s.clients);
    case Release(c, keep, now) => WokenView(ws, live, s.nextWaiter, s.clients);
    case Timeout(c) => LeftView(sys, key, c);
    case Cancelled(c) => LeftView(sys, key, c);
  }

  lemma NothingGone(live: set<nat>, of: set<nat>)
    ensures exists gone :: gone <= of && live == live - gone
  {
    var gone: set<nat> := {};
    assert gone <= of && live == live - gone;
  }

  /** And another endpoint sees at most that a number was taken. */
  lemma OtherView(sys: System, key: Key, step: P.Step, limit: nat, other: Key)
    requires Sound(sys) && IsLocal(step) && P.Enabled(View(sys, key), step) && other != key
    ensures var s, t := View(sys, other), View(Local(sys, key, step, limit), other);
            t == s || t == P.Apply(s, P.Elsewhere, limit)
  {
    assert Ok(View(sys, key)) && Ok(View(sys, other)) && View(sys, key).live !! View(sys, other).live;
    LocalFlags(sys, key, step, limit);
    var s, f, t := View(sys, other), sys.pool, Local(sys, key, step, limit);
    hide Local, P.Enabled, Sound;
    var ids := Ids(s.entry.waiters);
    assert f.nextWaiter !in ids && s.live == ids;
    assert t.pool.live * ids == s.live;
  }

  lemma WakeSame(clients: map<nat, P.Client>, a: set<nat>, b: set<nat>)
    requires forall c :: c in clients && clients[c].phase.Waiting? ==>
               (clients[c].phase.w in a <==> clients[c].phase.w in b)
    ensures P.Wake(clients, a) == P.Wake(clients, b)
  {
  }

  lemma NobodyThere(ws: set<nat>, ctx: Ctx)
    ensures P.Wake(map[], ws) == map[] && OffContext(map[], ctx) == map[]
    ensures ClearEntry(EMPTY_ENTRY) == EMPTY_ENTRY && DropEntry(EMPTY_ENTRY, ctx) == EMPTY_ENTRY
  {
  }

  lemma WaiterQueued(s: P.State, c: nat)
    requires Ok(s) && c in s.clients && s.clients[c].phase.Waiting?
    ensures s.clients[c].phase.w in Ids(s.entry.waiters) && s.live == Ids(s.entry.waiters)
  {
    assert Waits(s.clients, c, Waiter(s.clients[c].phase.w, s.clients[c].ctx));
  }

  lemma IdsInAll(entries: map<Key, Entry>, key: Key)
    ensures Ids(EntryIn(entries, key).waiters) <= AllIds(entries)
  {
    assert Ids(EMPTY_ENTRY.waiters) == {};
  }

  lemma ClearView(sys: System, limits: Key -> nat, key: Key)
    requires Sound(sys)
    ensures View(Happens(sys, ClearAll, limits), key) == P.Apply(View(sys, key), P.Clear, limits(key))
  {
    var s, t := View(sys, key), View(Happens(sys, ClearAll, limits), key);
    var (pool, woken) := AfterClear(sys.pool);
    assert Ok(s);
    IdsInAll(sys.pool.entries, key);
    NobodyThere(woken, 0);
    forall c | c in s.clients && s.clients[c].phase.Waiting?
      ensures s.clients[c].phase.w in woken && s.clients[c].phase.w in s.live * Ids(s.entry.waiters)
    {
      WaiterQueued(s, c);
    }
    WakeSame(s.clients, woken, s.live * Ids(s.entry.waiters));
    assert t.entry == ClearEntry(s.entry);
    assert t.live == {} && s.live - Ids(s.entry.waiters) == {};
  }

  lemma IdsOnApart(sys: System, key: Key, ctx: Ctx)
    requires Sound(sys)
    ensures AllIdsOn(sys.pool.entries, ctx) * Ids(NotOn(View(sys, key).entry.waiters, ctx)) == {}
  {
    var entries, ws := sys.pool.entries, View(sys, key).entry.waiters;
    assert Ok(View(sys, key));
    NotOnKeepsOrder(ws, ctx);
    forall w | w in AllIdsOn(entries, ctx) ensures w !in Ids(NotOn(ws, ctx)) {
      var k :| k in entries && w in IdsOn(entries[k].waiters, ctx);
      if k != key {
        assert Ok(View(sys, k)) && View(sys, k).live !! View(sys, key).live;
        assert w in Ids(entries[k].waiters);
      }
    }
  }

  lemma DropView(sys: System, ctx: Ctx, limits: Key -> nat, key: Key)
    requires Sound(sys) && Possible(sys, DropAll(ctx))
    ensures P.Enabled(View(sys, key), P.DropContext(ctx))
    ensures View(Happens(sys, DropAll(ctx), limits), key) == P.Apply(View(sys, key), P.DropContext(ctx), limits(key))
  {
    var s, t := View(sys, key), View(Happens(sys, DropAll(ctx), limits), key);
    assert Ok(s);
    hide Sound, Ok, Increasing, NotOn, Ids, IdsOn, AllIdsOn, P.Apply;
    IdsOnApart(sys, key, ctx);
    InOrderOf(s);
    NotOnKeepsOrder(s.entry.waiters, ctx);
    NobodyThere({}, ctx);
    DroppedLive(sys.pool.live, AllIdsOn(sys.pool.entries, ctx), Ids(s.entry.waiters),
                IdsOn(s.entry.waiters, ctx), Ids(NotOn(s.entry.waiters, ctx)));
    assert t.entry == DropEntry(s.entry, ctx);
    DropIs(s, t, ctx, limits(key));
  }

  lemma InOrderOf(s: P.State)
    requires Ok(s)
    ensures Increasing(s.entry.waiters)
  {
  }

  lemma DroppedLive(live: set<nat>, all: set<nat>, ids: set<nat>, on: set<nat>, left: set<nat>)
    requires all * left == {} && left == ids - on
    ensures (live - live * all) * left == live * ids - on
  {
    forall x | x in left ensures x !in all {
      assert x in all ==> x in all * left;
    }
  }

  lemma DropIs(s: P.State, t: P.State, ctx: Ctx, limit: nat)
    requires P.Enabled(s, P.DropContext(ctx))
    requires t == s.(entry := DropEntry(s.entry, ctx), live := s.live - IdsOn(s.entry.waiters, ctx),
                     clients := OffContext(s.clients, ctx))
    ensures t == P.Apply(s, P.DropContext(ctx), limit)
  {
  }

  // ---------------------------------------------------------------------------
  // Runs
  // ---------------------------------------------------------------------------

  /** What an event is to one endpoint: one of its steps, or none. */
  lemma EventView(sys: System, event: Event, limits: Key -> nat, key: Key) returns (steps: seq<P.Step>)
    requires Sound(sys) && Possible(sys, event)
    ensures P.Run(View(sys, key), steps, limits(key)) == View(Happens(sys, event, limits), key)
    ensures |steps| <= 1 && (steps != [] ==> P.Enabled(View(sys, key), steps[0]))
    ensures event.At? && event.key == key ==> steps == [event.step]
    ensures steps != [] && steps[0].Acquire? ==> event.At? && event.key == key
  {
    assert Ok(View(sys, key));
    match event
    case At(k, step) =>
      if k == key {
        LocalView(sys, key, step, limits(key));
        steps := [step];
      } else {
        OtherView(sys, k, step, limits(k), key);
        steps := if View(Local(sys, k, step, limits(k)), key) == View(sys, key) then [] else [P.Elsewhere];
      }
    case ClearAll =>
      ClearView(sys, limits, key);
      steps := [P.Clear];
    case DropAll(ctx) =>
      DropView(sys, ctx, limits, key);
      steps := [P.DropContext(ctx)];
  }

  /** A step of the protocol adds at most the next number to the active waiters. */
  lemma StepLive(s: P.State, step: P.Step, limit: nat)
    requires P.Enabled(s, step)
    ensures P.Apply(s, step, limit).live <= s.live + {s.nextWaiter}
    ensures P.Apply(s, step, limit).live <= s.live || step.Acquire?
  {
  }

  lemma EventKeepsSound(sys: System, event: Event, limits: Key -> nat)
    requires Sound(sys) && Possible(sys, event)
    ensures Sound(Happens(sys, event, limits))
  {
    var t := Happens(sys, event, limits);
    forall key: Key ensures Ok(View(t, key))
    {
      var steps := EventView(sys, event, limits, key);
      if steps != [] { StepKeepsQueue(View(sys, key), steps[0], limits(key)); }
    }
    forall k: Key, l: Key | k != l ensures View(t, k).live !! View(t, l).live {
      ApartAfter(sys, event, limits, k, l);
    }
  }

  lemma ApartAfter(sys: System, event: Event, limits: Key -> nat, k: Key, l: Key)
    requires Sound(sys) && Possible(sys, event) && k != l
    ensures var t := Happens(sys, event, limits); View(t, k).live !! View(t, l).live
  {
    assert Ok(View(sys, k)) && Ok(View(sys, l)) && View(sys, k).live !! View(sys, l).live;
    var a := EventView(sys, event, limits, k);
    var b := EventView(sys, event, limits, l);
    if a != [] { StepLive(View(sys, k), a[0], limits(k)); }
    if b != [] { StepLive(View(sys, l), b[0], limits(l)); }
    assert sys.pool.nextWaiter !in View(sys, k).live && sys.pool.nextWaiter !in View(sys, l).live;
  }

  /** The state after a run of the whole pool; events that cannot happen are passed over. */
  ghost function RunAll(sys: System, events: seq<Event>, limits: Key -> nat): System
    decreases |events|
  {
    if events == [] then sys
    else if Possible(sys, events[0]) then RunAll(Happens(sys, events[0], limits), events[1..], limits)
    else RunAll(sys, events[1..], limits)
  }

  lemma RunSplit(s: P.State, steps: seq<P.Step>, more: seq<P.Step>, limit: nat)
    requires |steps| <= 1
    ensures P.Run(s, steps + more, limit) == P.Run(P.Run(s, steps, limit), more, limit)
  {
    if steps == [] {
      assert steps + more == more;
    } else {
      assert (steps + more)[1..] == more && steps[1..] == [];
    }
  }

  /** Every run of the whole pool is, for each endpoint, a run of its protocol, in which no
      other client acquires a connection than in the run of the pool. */
  lemma {:induction false} RunView(sys: System, events: seq<Event>, limits: Key -> nat, key: Key)
    returns (steps: seq<P.Step>)
    requires Sound(sys)
    ensures P.Run(View(sys, key), steps, limits(key)) == View(RunAll(sys, events, limits), key)
    ensures forall i :: 0 <= i < |steps| && steps[i].Acquire? ==> At(key, steps[i]) in events
    decreases |events|
  {
    hide View, Happens, Possible, P.Run, Sound;
    if events == [] {
      steps := [];
      RunNothing(View(sys, key), limits(key));
    } else {
      var rest := events[1..];
      if Possible(sys, events[0]) {
        var first := EventView(sys, events[0], limits, key);
        EventKeepsSound(sys, events[0], limits);
        var more := RunView(Happens(sys, events[0], limits), rest, limits, key);
        RunSplit(View(sys, key), first, more, limits(key));
        steps := first + more;
        assert first != [] && first[0].Acquire? ==> At(key, first[0]) == events[0];
      } else {
        steps := RunView(sys, rest, limits, key);
      }
    }
  }

  lemma RunNothing(s: P.State, limit: nat)
    ensures P.Run(s, [], limit) == s
  {
  }

  lemma StartSound(key: Key)
    ensures Sound(START) && View(START, key) == P.INITIAL
  {
    assert forall k: Key :: View(START, k) == P.INITIAL;
  }

  /** So the promises hold at every endpoint, whatever happens at the others: the counter is
      right, the limit holds on each io_context, and nobody queues in vain. */
  lemma EveryEndpoint(events: seq<Event>, limits: Key -> nat, key: Key)
    ensures var s, limit := View(RunAll(START, events, limits), key), limits(key);
            && Owned(s) && s.entry.active == |Holders(s.clients)|
            && (limit > 0 ==> forall ctx: Ctx :: |HoldersOn(s.clients, ctx)| + |IdleOf(s.entry, ctx)| <= limit)
            && (s.entry.waiters != [] ==> limit > 0 && s.entry.active + |Reruns(s.clients)| >= limit)
  {
    hide RunAll, View, Sound, QueueOk, Owned, P.Run;
    StartSound(key);
    var steps := RunView(START, events, limits, key);
    InitialGood(limits(key));
    RunKeepsAll(P.INITIAL, steps, limits(key));
  }

  /** And with the clients of an endpoint on k io_contexts it never has more than k times its
      limit at once. */
  lemma LimitAtEndpoint(events: seq<Event>, limits: Key -> nat, key: Key, ctxs: set<Ctx>)
    requires limits(key) > 0
    requires forall e :: e in events && e.At? && e.key == key && e.step.Acquire? ==> e.step.ctx in ctxs
    ensures var s := View(RunAll(START, events, limits), key);
            s.entry.active <= s.entry.peakActive <= |ctxs| * limits(key)
  {
    hide RunAll, View, Sound, P.Run;
    StartSound(key);
    var steps := RunView(START, events, limits, key);
    LimitPerContext(steps, ctxs, limits(key));
  }
}
