/** The connection pool's promises, for every run of its clients. */
module PoolTheorems {
  import opened PoolEntry
  import opened PoolProtocol
  import opened PoolQueue
  import opened PoolLimits
  import opened PoolOwnership

  lemma StepKeepsAll(s: State, step: Step, limit: nat)
    requires Good(s, limit) && Owned(s) && Enabled(s, step)
    ensures Good(Apply(s, step, limit), limit) && Owned(Apply(s, step, limit))
  {
    hide Counted, Bounded, Served, Ok;
    StepKeepsQueue(s, step, limit) by { assert Ok(s); }
    StepKeepsOwned(s, step, limit);
    match step
    case Acquire(c, ctx, now) => AcquireKeeps(s, c, ctx, now, limit);
    case Created(c, now) => CreatedKeeps(s, c, now, limit);
    case CreateFailed(c) => GivingBackKeeps(s, step, c, limit);
    case Release(c, keep, now) =>
      assert At(s, With(c), s.clients[c].phase.conn);
      GivingBackKeeps(s, step, c, limit);
    case _ => OtherStepKeeps(s, step, limit);
  }

  lemma InitialGood(limit: nat)
    ensures Good(INITIAL, limit) && Owned(INITIAL)
  {
    assert Holders(INITIAL.clients) == {};
    assert forall ctx: Ctx :: HoldersOn(INITIAL.clients, ctx) == {};
  }

  lemma {:induction false} RunKeepsAll(s: State, steps: seq<Step>, limit: nat)
    requires Good(s, limit) && Owned(s)
    ensures Good(Run(s, steps, limit), limit) && Owned(Run(s, steps, limit))
    decreases |steps|
  {
    if steps == [] {
    } else {
      if Enabled(s, steps[0]) {
        StepKeepsAll(s, steps[0], limit);
        RunKeepsAll(Apply(s, steps[0], limit), steps[1..], limit);
      } else {
        RunKeepsAll(s, steps[1..], limit);
      }
    }
  }

  /** Accounting: in every reachable state the counter of places is the number of clients
      that hold one, and every connection created or reused has been given back, has
      failed, or is held. */
  lemma Accounting(steps: seq<Step>, limit: nat)
    ensures var s := Run(INITIAL, steps, limit);
            && s.entry.active == |Holders(s.clients)|
            && s.entry.created + s.entry.reused == |Holders(s.clients)| + s.releases + s.failures
  {
    InitialGood(limit);
    RunKeepsAll(INITIAL, steps, limit);
  }

  /** The guard of the decrement is never needed: whoever gives back a place is counted. */
  lemma NeverSaturates(steps: seq<Step>, limit: nat, c: nat)
    ensures var s := Run(INITIAL, steps, limit);
            c in s.clients && Holds(s.clients[c]) ==> s.entry.active > 0 && Lower(s.entry.active) == s.entry.active - 1
  {
    InitialGood(limit);
    RunKeepsAll(INITIAL, steps, limit);
    var s := Run(INITIAL, steps, limit);
    if c in s.clients && Holds(s.clients[c]) { assert c in Holders(s.clients); }
  }

  /** No lost wake-up: whenever a client queues, the limit is used up by clients that hold
      a place, whose giving back wakes the queue, or that are about to run the loop. */
  lemma NoLostWakeUp(steps: seq<Step>, limit: nat)
    ensures var s := Run(INITIAL, steps, limit);
            && (s.entry.waiters != [] ==> limit > 0 && s.entry.active + |Reruns(s.clients)| >= limit)
            && ((exists c :: c in s.clients && s.clients[c].phase.Waiting?) && Reruns(s.clients) == {} ==>
                 |Holders(s.clients)| >= limit > 0)
  {
    InitialGood(limit);
    RunKeepsAll(INITIAL, steps, limit);
    var s := Run(INITIAL, steps, limit);
    if c :| c in s.clients && s.clients[c].phase.Waiting? {
      assert Waits(s.clients, c, Waiter(s.clients[c].phase.w, s.clients[c].ctx));
    }
  }

  /** The client of waiter x leaves the queue to run the loop again. */
  ghost predicate WokenBy(s: State, t: State, x: Waiter) {
    exists c: nat :: Waits(s.clients, c, x) && c in t.clients && t.clients[c] == Client(x.ctx, Rerun)
  }

  /** Giving back a place wakes the client that has queued longest, and no other waiter
      leaves the queue. */
  lemma FirstComeFirstServed(steps: seq<Step>, limit: nat, step: Step)
    requires step.Release? || step.CreateFailed?
    ensures var s := Run(INITIAL, steps, limit);
            Enabled(s, step) && s.entry.waiters != [] ==>
              var t := Apply(s, step, limit);
              var oldest := s.entry.waiters[0];
              && (forall c :: c in s.clients && s.clients[c].phase.Waiting? ==> oldest.id <= s.clients[c].phase.w)
              && WokenBy(s, t, oldest)
              && t.entry.waiters == s.entry.waiters[1..]
  {
    InitialGood(limit);
    RunKeepsAll(INITIAL, steps, limit);
    var s := Run(INITIAL, steps, limit);
    if Enabled(s, step) && s.entry.waiters != [] {
      var ws := s.entry.waiters;
      var t := Apply(s, step, limit);
      WakesOldest(ws, s.live, s.nextWaiter, s.clients);
      assert ws[0] in ws;
      var d: nat :| Waits(s.clients, d, ws[0]);
      assert t.clients[d] == Client(ws[0].ctx, Rerun);
      forall c | c in s.clients && s.clients[c].phase.Waiting? ensures ws[0].id <= s.clients[c].phase.w {
        assert Waits(s.clients, c, Waiter(s.clients[c].phase.w, s.clients[c].ctx));
      }
    }
  }

  /** Every connection is in one place, on its own io_context, and is handed out nowhere
      else. */
  lemma OnePlaceEach(steps: seq<Step>, limit: nat)
    ensures var s := Run(INITIAL, steps, limit);
            && (forall p, q, a, b :: At(s, p, a) && At(s, q, b) && a.id == b.id ==> p == q)
            && (forall p, a :: At(s, p, a) ==> PlaceCtx(s, p) == a.ctx)
            && (forall c, ctx, now ::
                  Enabled(s, Acquire(c, ctx, now)) &&
                  AcquireEntry(s.entry, limit, ctx, now, s.nextWaiter).1.Reuse? ==>
                    AcquireEntry(s.entry, limit, ctx, now, s.nextWaiter).1.conn.ctx == ctx)
  {
    InitialGood(limit);
    RunKeepsAll(INITIAL, steps, limit);
    var s := Run(INITIAL, steps, limit);
    forall c, ctx, now | Enabled(s, Acquire(c, ctx, now))
        && AcquireEntry(s.entry, limit, ctx, now, s.nextWaiter).1.Reuse?
      ensures AcquireEntry(s.entry, limit, ctx, now, s.nextWaiter).1.conn.ctx == ctx
    {
      var k := LastUsable(IdleOf(s.entry, ctx), now);
      assert At(s, InBucket(ctx, k), IdleOf(s.entry, ctx)[k]);
    }
  }

  // ---------------------------------------------------------------------------
  // The limit
  // ---------------------------------------------------------------------------

  ghost function HoldersIn(clients: map<nat, Client>, ctxs: set<Ctx>): set<nat> {
    set c | c in clients && Holds(clients[c]) && clients[c].ctx in ctxs
  }

  lemma {:induction false} HoldersInSize(clients: map<nat, Client>, ctxs: set<Ctx>, limit: nat)
    requires forall ctx: Ctx :: |HoldersOn(clients, ctx)| <= limit
    ensures |HoldersIn(clients, ctxs)| <= |ctxs| * limit
  {
    if ctxs == {} {
      assert HoldersIn(clients, ctxs) == {};
    } else {
      var x := PickOne(ctxs);
      HoldersInSize(clients, ctxs - {x}, limit);
      var rest, here := HoldersIn(clients, ctxs - {x}), HoldersOn(clients, x);
      assert HoldersIn(clients, ctxs) == rest + here;
      assert rest !! here;
      assert |ctxs| * limit == |ctxs - {x}| * limit + limit;
    }
  }

  lemma PickOne<T>(s: set<T>) returns (x: T)
    requires s != {}
    ensures x in s
  {
    x :| x in s;
  }

  /** All clients run on the io_contexts in ctxs, and the peak stays within the product. */
  ghost predicate Peaked(s: State, ctxs: set<Ctx>, limit: nat) {
    && (forall c :: c in s.clients ==> s.clients[c].ctx in ctxs)
    && s.entry.active <= s.entry.peakActive <= |ctxs| * limit
  }

  lemma StepKeepsPeak(s: State, step: Step, ctxs: set<Ctx>, limit: nat)
    requires limit > 0 && Good(s, limit) && Owned(s) && Peaked(s, ctxs, limit) && Enabled(s, step)
    requires step.Acquire? ==> step.ctx in ctxs
    ensures Peaked(Apply(s, step, limit), ctxs, limit)
  {
    var t := Apply(s, step, limit);
    StepKeepsAll(s, step, limit);
    assert forall c :: c in t.clients ==> t.clients[c].ctx in ctxs;
    hide Ok, Served;
    HoldersInSize(t.clients, ctxs, limit);
    assert HoldersIn(t.clients, ctxs) == Holders(t.clients);
    assert t.entry.active <= |ctxs| * limit;
    assert t.entry.peakActive == s.entry.peakActive || t.entry.peakActive == t.entry.active;
  }

  lemma {:induction false} RunKeepsPeak(s: State, steps: seq<Step>, ctxs: set<Ctx>, limit: nat)
    requires limit > 0 && Good(s, limit) && Owned(s) && Peaked(s, ctxs, limit)
    requires forall i :: 0 <= i < |steps| && steps[i].Acquire? ==> steps[i].ctx in ctxs
    ensures Peaked(Run(s, steps, limit), ctxs, limit)
    decreases |steps|
  {
    if steps == [] {
    } else {
      var rest := steps[1..];
      assert forall i :: 0 <= i < |rest| ==> rest[i] == steps[i + 1];
      if Enabled(s, steps[0]) {
        StepKeepsPeak(s, steps[0], ctxs, limit);
        StepKeepsAll(s, steps[0], limit);
        RunKeepsPeak(Apply(s, steps[0], limit), rest, ctxs, limit);
      } else {
        RunKeepsPeak(s, rest, ctxs, limit);
      }
    }
  }

  /** With clients on k io_contexts, no more than k * limit places are ever held at once;
      on one io_context the limit itself holds, although reuse does not test it. */
  lemma LimitPerContext(steps: seq<Step>, ctxs: set<Ctx>, limit: nat)
    requires limit > 0
    requires forall i :: 0 <= i < |steps| && steps[i].Acquire? ==> steps[i].ctx in ctxs
    ensures var s := Run(INITIAL, steps, limit);
            && s.entry.active <= s.entry.peakActive <= |ctxs| * limit
            && (forall ctx: Ctx :: |HoldersOn(s.clients, ctx)| + |IdleOf(s.entry, ctx)| <= limit)
  {
    InitialGood(limit);
    RunKeepsAll(INITIAL, steps, limit);
    assert |ctxs| * limit >= 0;
    RunKeepsPeak(INITIAL, steps, ctxs, limit);
  }

  lemma LimitOnOneContext(steps: seq<Step>, ctx: Ctx, limit: nat)
    requires limit > 0
    requires forall i :: 0 <= i < |steps| && steps[i].Acquire? ==> steps[i].ctx == ctx
    ensures var s := Run(INITIAL, steps, limit);
            s.entry.active <= s.entry.peakActive <= limit
  {
    LimitPerContext(steps, {ctx}, limit);
  }

  /** When an acquire oversteps the limit: exactly when it is reached and an idle
      connection of this io_context is reused. */
  lemma OverstepsExactlyOnReuse(s: State, c: nat, ctx: Ctx, now: int, limit: nat)
    requires limit > 0 && s.entry.active <= limit && Enabled(s, Acquire(c, ctx, now))
    ensures Apply(s, Acquire(c, ctx, now), limit).entry.active > limit <==>
            s.entry.active == limit &&
            exists k :: 0 <= k < |IdleOf(s.entry, ctx)| && Usable(IdleOf(s.entry, ctx)[k], now)
  {
    var k := LastUsable(IdleOf(s.entry, ctx), now);
    if k >= 0 { assert Usable(IdleOf(s.entry, ctx)[k], now); }
  }
}
