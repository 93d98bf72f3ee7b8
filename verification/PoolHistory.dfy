/** What became of a connection: over all runs, which connections count as fresh, which may
    wait to be used again, and which one an acquire takes. */
module PoolHistory {
  import opened Basics
  import opened PoolEntry
  import opened PoolProtocol
  import opened PoolQueue
  import opened PoolLimits
  import opened PoolOwnership
  import opened PoolTheorems

  /** A connection was given back, by the so many-th release. */
  datatype GivenBack = GivenBack(keep: bool, at: int, turn: nat)

  /** The last time each connection was given back, by number. */
  type History = map<nat, GivenBack>

  function Noted(h: History, s: State, step: Step): History
    requires Enabled(s, step)
  {
    match step
    case Release(c, keep, now) => h[s.clients[c].phase.conn.id := GivenBack(keep, now, s.releases)]
    case _ => h
  }

  /** The history of a run, from a state with a history. */
  function Recorded(h: History, s: State, steps: seq<Step>, limit: nat): History
    decreases |steps|
  {
    if steps == [] then h
    else if Enabled(s, steps[0]) then Recorded(Noted(h, s, steps[0]), Apply(s, steps[0], limit), steps[1..], limit)
    else Recorded(h, s, steps[1..], limit)
  }

  function HistoryOf(steps: seq<Step>, limit: nat): History {
    Recorded(map[], INITIAL, steps, limit)
  }

  /** A connection in use: fresh as long as it was never given back, else given back to be
      kept. */
  predicate UsedRight(h: History, conn: Conn) {
    if conn.id in h then !conn.isFresh && h[conn.id].keep else conn.isFresh
  }

  /** An idle connection: given back last to be kept, at the time it bears. */
  predicate IdleRight(h: History, conn: Conn) {
    conn.id in h && h[conn.id].keep && h[conn.id].at == conn.lastUsed
  }

  /** A bucket is in the order in which its connections were given back. */
  ghost predicate InTurn(h: History, idle: seq<Conn>) {
    && (forall i :: 0 <= i < |idle| ==> IdleRight(h, idle[i]))
    && (forall i, j :: 0 <= i < j < |idle| ==> h[idle[i].id].turn < h[idle[j].id].turn)
  }

  ghost predicate Remembers(h: History, s: State) {
    && (forall c :: c in s.clients && s.clients[c].phase.Borrowed? ==> UsedRight(h, s.clients[c].phase.conn))
    && (forall ctx: Ctx :: InTurn(h, IdleOf(s.entry, ctx)))
    && (forall id :: id in h ==> id < s.nextConn && h[id].turn < s.releases)
  }

  lemma TakenFront(h: History, idle: seq<Conn>, k: nat)
    requires InTurn(h, idle) && k <= |idle|
    ensures InTurn(h, idle[..k])
  {
  }

  /** One more at the end of a bucket, given back just now. */
  lemma PutBehind(h: History, idle: seq<Conn>, conn: Conn, keep: bool, now: int, turn: nat)
    requires InTurn(h, idle) && keep && forall id :: id in h ==> h[id].turn < turn
    requires forall i :: 0 <= i < |idle| ==> idle[i].id != conn.id
    ensures InTurn(h[conn.id := GivenBack(keep, now, turn)], idle + [conn.(lastUsed := now)])
  {
  }

  lemma OthersStay(h: History, idle: seq<Conn>, id: nat, g: GivenBack)
    requires InTurn(h, idle) && forall i :: 0 <= i < |idle| ==> idle[i].id != id
    ensures InTurn(h[id := g], idle)
  {
  }

  lemma ReleaseRemembers(h: History, s: State, step: Step, limit: nat)
    requires Remembers(h, s) && Owned(s) && Enabled(s, step) && step.Release?
    ensures Remembers(Noted(h, s, step), Apply(s, step, limit))
  {
    var c, conn := step.c, s.clients[step.c].phase.conn;
    var h', t := Noted(h, s, step), Apply(s, step, limit);
    assert At(s, With(c), conn);
    forall ctx: Ctx ensures InTurn(h', IdleOf(t.entry, ctx)) {
      var idle := IdleOf(s.entry, ctx);
      forall i | 0 <= i < |idle| ensures idle[i].id != conn.id {
        assert At(s, InBucket(ctx, i), idle[i]);
      }
      if step.keep && ctx == conn.ctx {
        PutBehind(h, idle, conn, step.keep, step.now, s.releases);
      } else {
        OthersStay(h, idle, conn.id, h'[conn.id]);
      }
    }
    forall d | d in t.clients && t.clients[d].phase.Borrowed? ensures UsedRight(h', t.clients[d].phase.conn) {
      assert At(s, With(d), t.clients[d].phase.conn);
    }
  }

  lemma StepRemembers(h: History, s: State, step: Step, limit: nat)
    requires Remembers(h, s) && Owned(s) && Enabled(s, step)
    ensures Remembers(Noted(h, s, step), Apply(s, step, limit))
  {
    var t := Apply(s, step, limit);
    match step
    case Release(c, keep, now) => ReleaseRemembers(h, s, step, limit);
    case Acquire(c, ctx, now) => AcquireRemembers(h, s, c, ctx, now, limit);
    case Created(c, now) => assert s.nextConn !in h;
    case _ => QuietRemembers(h, s, step, limit);
  }

  lemma AcquireRemembers(h: History, s: State, c: nat, ctx: Ctx, now: int, limit: nat)
    requires Remembers(h, s) && Enabled(s, Acquire(c, ctx, now))
    ensures Remembers(h, Apply(s, Acquire(c, ctx, now), limit))
  {
    var t := Apply(s, Acquire(c, ctx, now), limit);
    var k := LastUsable(IdleOf(s.entry, ctx), now);
    forall x: Ctx ensures InTurn(h, IdleOf(t.entry, x)) {
      TakenFront(h, IdleOf(s.entry, x), 0);
      if k >= 0 && x == ctx { TakenFront(h, IdleOf(s.entry, ctx), k); }
    }
    if k >= 0 { assert IdleRight(h, IdleOf(s.entry, ctx)[k]); }
  }

  lemma QuietRemembers(h: History, s: State, step: Step, limit: nat)
    requires Remembers(h, s) && Enabled(s, step) && !step.Release? && !step.Acquire? && !step.Created?
    ensures Remembers(h, Apply(s, step, limit))
  {
    var t := Apply(s, step, limit);
    forall x: Ctx ensures InTurn(h, IdleOf(t.entry, x)) {
      assert IdleOf(t.entry, x) == IdleOf(s.entry, x) || IdleOf(t.entry, x) == [];
    }
    forall d | d in t.clients && t.clients[d].phase.Borrowed? ensures UsedRight(h, t.clients[d].phase.conn) {
      assert d in s.clients && s.clients[d].phase == t.clients[d].phase;
    }
  }

  lemma {:induction false} RunRemembers(h: History, s: State, steps: seq<Step>, limit: nat)
    requires Remembers(h, s) && Good(s, limit) && Owned(s)
    ensures Remembers(Recorded(h, s, steps, limit), Run(s, steps, limit))
    decreases |steps|
  {
    hide Remembers, Good, Owned, Apply, Noted;
    if steps == [] {
    } else if Enabled(s, steps[0]) {
      StepRemembers(h, s, steps[0], limit);
      StepKeepsAll(s, steps[0], limit);
      RunRemembers(Noted(h, s, steps[0]), Apply(s, steps[0], limit), steps[1..], limit);
    } else {
      RunRemembers(h, s, steps[1..], limit);
    }
  }

  lemma Reached(steps: seq<Step>, limit: nat)
    ensures var s := Run(INITIAL, steps, limit);
            Remembers(HistoryOf(steps, limit), s) && Good(s, limit) && Owned(s)
  {
    InitialGood(limit);
    RunKeepsAll(INITIAL, steps, limit);
    assert Remembers(map[], INITIAL);
    RunRemembers(map[], INITIAL, steps, limit);
  }

  // ---------------------------------------------------------------------------
  // What this means
  // ---------------------------------------------------------------------------

  /** A connection in use is fresh if and only if it was never given back before. */
  lemma FreshUntilGivenBack(steps: seq<Step>, limit: nat, c: nat)
    ensures var s := Run(INITIAL, steps, limit);
            c in s.clients && s.clients[c].phase.Borrowed? ==>
              var conn := s.clients[c].phase.conn;
              conn.isFresh <==> conn.id !in HistoryOf(steps, limit)
  {
    Reached(steps, limit);
  }

  /** What was given back not to be kept is nowhere, in any later state; what is idle was
      given back to be kept. */
  lemma DroppedForGood(steps: seq<Step>, limit: nat, p: Place, conn: Conn)
    ensures var s, h := Run(INITIAL, steps, limit), HistoryOf(steps, limit);
            At(s, p, conn) ==>
              && (conn.id in h ==> h[conn.id].keep)
              && (p.InBucket? ==> conn.id in h && h[conn.id].at == conn.lastUsed)
  {
    Reached(steps, limit);
    var s, h := Run(INITIAL, steps, limit), HistoryOf(steps, limit);
    if At(s, p, conn) && p.InBucket? {
      assert InTurn(h, IdleOf(s.entry, p.ctx));
    }
  }

  /** Idle for more than 120 seconds, in nanoseconds. */
  predicate Expired(h: History, conn: Conn, now: int)
    requires conn.id in h
  {
    now - h[conn.id].at > 120_000_000_000
  }

  /** What an acquire does, by the history: it takes the idle connection of this io_context
      that was given back last, unless that is too long ago, and drops those behind it; without
      one it creates a connection while the limit is not reached, and queues up behind all
      others when it is. */
  ghost predicate Decided(h: History, s: State, t: State, limit: nat, c: nat, ctx: Ctx, now: int) {
    var idle, left := IdleOf(s.entry, ctx), IdleOf(t.entry, ctx);
    && InTurn(h, idle) && left <= idle
    && (forall j :: |left| < j < |idle| ==> Expired(h, idle[j], now))
    && (forall x: Ctx :: x != ctx ==> IdleOf(t.entry, x) == IdleOf(s.entry, x))
    && t.clients.Keys == s.clients.Keys + {c} && (forall d :: d in s.clients && d != c ==> t.clients[d] == s.clients[d])
    && t.clients[c].ctx == ctx
    && match t.clients[c].phase
       case Borrowed(conn) =>
         && |left| < |idle| && !Expired(h, idle[|left|], now)
         && conn.id == idle[|left|].id && conn.ctx == idle[|left|].ctx && !conn.isFresh
         && t.entry.waiters == s.entry.waiters
       case Creating =>
         && left == [] && (idle != [] ==> Expired(h, idle[0], now))
         && (limit == 0 || |Holders(s.clients)| < limit) && t.entry.waiters == s.entry.waiters
       case Waiting(w) =>
         && left == [] && (idle != [] ==> Expired(h, idle[0], now))
         && limit > 0 && |Holders(s.clients)| >= limit
         && t.entry.waiters == s.entry.waiters + [Waiter(w, ctx)] && w !in s.live && w in t.live
       case Rerun => false
  }

  lemma AcquireDecides(steps: seq<Step>, limit: nat, c: nat, ctx: Ctx, now: int)
    ensures var s := Run(INITIAL, steps, limit);
            Enabled(s, Acquire(c, ctx, now)) ==>
              Decided(HistoryOf(steps, limit), s, Apply(s, Acquire(c, ctx, now), limit), limit, c, ctx, now)
  {
    Reached(steps, limit);
    var s, h := Run(INITIAL, steps, limit), HistoryOf(steps, limit);
    if Enabled(s, Acquire(c, ctx, now)) { Decides(h, s, limit, c, ctx, now); }
  }

  lemma NextIsNew(s: State, limit: nat)
    requires Good(s, limit)
    ensures s.nextWaiter !in s.live && s.entry.active == |Holders(s.clients)|
  {
  }

  lemma Decides(h: History, s: State, limit: nat, c: nat, ctx: Ctx, now: int)
    requires Remembers(h, s) && Good(s, limit) && Enabled(s, Acquire(c, ctx, now))
    ensures Decided(h, s, Apply(s, Acquire(c, ctx, now), limit), limit, c, ctx, now)
  {
    hide Good, Holders, Ids;
    NextIsNew(s, limit);
    var idle := IdleOf(s.entry, ctx);
    var k := LastUsable(idle, now);
    assert forall j :: 0 <= j < |idle| ==> IdleRight(h, idle[j]);
    assert forall j :: k < j < |idle| ==> !Usable(idle[j], now) && IdleRight(h, idle[j]);
  }

  /** What giving back does: the place is free, a connection to be kept is the last one in the
      bucket of its io_context, and the client that has queued longest runs the loop again. */
  ghost predicate GaveBack(s: State, t: State, step: Step)
    requires Enabled(s, step) && (step.Release? || step.CreateFailed?)
  {
    var ws := s.entry.waiters;
    && Holders(t.clients) == Holders(s.clients) - {step.c} && step.c !in t.clients
    && t.entry.active == s.entry.active - 1
    && (forall x: Ctx :: IdleOf(t.entry, x) == IdleOf(s.entry, x) +
          if step.Release? && step.keep && x == s.clients[step.c].ctx
          then [s.clients[step.c].phase.conn.(lastUsed := step.now)] else [])
    && t.entry.waiters == (if ws == [] then [] else ws[1..])
    && (forall d :: d in s.clients && d != step.c ==>
          && d in t.clients
          && t.clients[d] == if ws != [] && Waits(s.clients, d, ws[0]) then Client(ws[0].ctx, Rerun) else s.clients[d])
    && t.clients.Keys <= s.clients.Keys
  }

  lemma GivingBack(steps: seq<Step>, limit: nat, step: Step)
    requires step.Release? || step.CreateFailed?
    ensures var s := Run(INITIAL, steps, limit);
            Enabled(s, step) ==> GaveBack(s, Apply(s, step, limit), step)
  {
    Reached(steps, limit);
    var s := Run(INITIAL, steps, limit);
    if Enabled(s, step) { GivesBack(s, step, limit); }
  }

  lemma GivesBack(s: State, step: Step, limit: nat)
    requires Good(s, limit) && Owned(s) && Enabled(s, step) && (step.Release? || step.CreateFailed?)
    ensures GaveBack(s, Apply(s, step, limit), step)
  {
    hide Owned, Good, Holders, Waits, WakeOne, Wake, IdleOf;
    Oldest(s, limit);
    GivesBackEntry(s, step, limit);
    GivesBackClients(s, step, limit);
  }

  lemma Oldest(s: State, limit: nat)
    requires Good(s, limit)
    ensures Ok(s)
    ensures var ws := s.entry.waiters;
            WakeOne(ws, s.live) == if ws == [] then ([], None) else (ws[1..], Some(ws[0].id))
  {
    WakesOldest(s.entry.waiters, s.live, s.nextWaiter, s.clients);
  }

  lemma GivesBackEntry(s: State, step: Step, limit: nat)
    requires Good(s, limit) && Owned(s) && Enabled(s, step) && (step.Release? || step.CreateFailed?)
    ensures var t, ws := Apply(s, step, limit), s.entry.waiters;
            && t.entry.active == s.entry.active - 1
            && t.entry.waiters == (if ws == [] then [] else ws[1..])
            && (forall x: Ctx :: IdleOf(t.entry, x) == IdleOf(s.entry, x) +
                  if step.Release? && step.keep && x == s.clients[step.c].ctx
                  then [s.clients[step.c].phase.conn.(lastUsed := step.now)] else [])
  {
    Oldest(s, limit);
    assert step.c in Holders(s.clients);
    if step.Release? { assert At(s, With(step.c), s.clients[step.c].phase.conn); }
    hide WakeOne, QueueOk, Bounded, Served, Wake;
  }

  lemma GivesBackClients(s: State, step: Step, limit: nat)
    requires Good(s, limit) && Enabled(s, step) && (step.Release? || step.CreateFailed?)
    ensures var t, ws := Apply(s, step, limit), s.entry.waiters;
            && Holders(t.clients) == Holders(s.clients) - {step.c} && step.c !in t.clients
            && (forall d :: d in s.clients && d != step.c ==>
                  && d in t.clients
                  && t.clients[d] ==
                     if ws != [] && Waits(s.clients, d, ws[0]) then Client(ws[0].ctx, Rerun) else s.clients[d])
            && t.clients.Keys <= s.clients.Keys
  {
    var ws := s.entry.waiters;
    Oldest(s, limit);
    if ws != [] {
      forall d | d in s.clients && s.clients[d].phase.Waiting?
        ensures s.clients[d].phase.w == ws[0].id <==> Waits(s.clients, d, ws[0])
      {
        WaiterIs(s, d);
      }
    }
    hide WakeOne, QueueOk, Good;
    var t := Apply(s, step, limit);
    assert t.clients == Wake(s.clients - {step.c}, if ws == [] then {} else {ws[0].id});
    assert Holders(t.clients) == Holders(s.clients) - {step.c};
  }

  /** A waiting client is the one whose waiter is queued. */
  lemma WaiterIs(s: State, d: nat)
    requires Ok(s) && d in s.clients && s.clients[d].phase.Waiting? && s.entry.waiters != []
    ensures s.clients[d].phase.w == s.entry.waiters[0].id <==> Waits(s.clients, d, s.entry.waiters[0])
  {
    var x := Waiter(s.clients[d].phase.w, s.clients[d].ctx);
    assert Waits(s.clients, d, x);
    assert s.entry.waiters[0] in s.entry.waiters;
    if x.id == s.entry.waiters[0].id { SameId(s.entry.waiters, x, s.entry.waiters[0]); }
  }

  /** A client whose timer ran out runs the loop again, one that was cancelled is gone; its
      waiter leaves the queue, and all else stays. */
  lemma Leaving(steps: seq<Step>, limit: nat, step: Step)
    requires step.Timeout? || step.Cancelled?
    ensures var s := Run(INITIAL, steps, limit);
            Enabled(s, step) ==>
              var t := Apply(s, step, limit);
              var x := Waiter(s.clients[step.c].phase.w, s.clients[step.c].ctx);
              && x in s.entry.waiters && x.id !in t.live && Increasing(t.entry.waiters)
              && (forall y :: y in t.entry.waiters <==> y in s.entry.waiters && y != x)
              && t.entry == s.entry.(waiters := t.entry.waiters)
              && t.clients == if step.Timeout? then s.clients[step.c := Client(x.ctx, Rerun)] else s.clients - {step.c}
  {
    Reached(steps, limit);
    var s := Run(INITIAL, steps, limit);
    if Enabled(s, step) {
      var x := Waiter(s.clients[step.c].phase.w, s.clients[step.c].ctx);
      assert Waits(s.clients, step.c, x);
      WithoutKeepsOrder(s.entry.waiters, x.id);
      forall y | y in s.entry.waiters && y.id == x.id ensures y == x { SameId(s.entry.waiters, x, y); }
    }
  }

  /** A clear leaves nothing idle and nobody queued: who waited runs the loop again, and who
      holds a place keeps it. */
  lemma Clearing(steps: seq<Step>, limit: nat)
    ensures var s := Run(INITIAL, steps, limit); var t := Apply(s, Clear, limit);
            && (forall x: Ctx :: IdleOf(t.entry, x) == []) && t.entry.waiters == [] && t.live == {}
            && t.entry == s.entry.(waiters := [], idleByCtx := t.entry.idleByCtx)
            && t.clients.Keys == s.clients.Keys
            && (forall d :: d in s.clients ==>
                  t.clients[d] == if s.clients[d].phase.Waiting? then Client(s.clients[d].ctx, Rerun) else s.clients[d])
  {
    Reached(steps, limit);
    var s := Run(INITIAL, steps, limit);
    forall d | d in s.clients && s.clients[d].phase.Waiting?
      ensures s.clients[d].phase.w in s.live * Ids(s.entry.waiters)
    {
      assert Waits(s.clients, d, Waiter(s.clients[d].phase.w, s.clients[d].ctx));
    }
  }

  /** With an io_context its idle connections go, and the clients that waited on it; those of
      the others stay as they are. */
  lemma Dropping(steps: seq<Step>, limit: nat, ctx: Ctx)
    ensures var s := Run(INITIAL, steps, limit);
            Enabled(s, DropContext(ctx)) ==>
              var t := Apply(s, DropContext(ctx), limit);
              && (forall x: Ctx :: IdleOf(t.entry, x) == if x == ctx then [] else IdleOf(s.entry, x))
              && (forall y :: y in t.entry.waiters <==> y in s.entry.waiters && y.ctx != ctx)
              && Increasing(t.entry.waiters) && t.live == Ids(t.entry.waiters)
              && t.entry == s.entry.(waiters := t.entry.waiters, idleByCtx := t.entry.idleByCtx)
              && (forall d :: d in t.clients <==> d in s.clients && s.clients[d].ctx != ctx)
              && (forall d :: d in t.clients ==> t.clients[d] == s.clients[d])
  {
    Reached(steps, limit);
    var s := Run(INITIAL, steps, limit);
    if Enabled(s, DropContext(ctx)) {
      NotOnKeepsOrder(s.entry.waiters, ctx);
    }
  }

  /** A new connection is fresh, has a number that no other had, and is bound to the io_context
      of its client. */
  lemma Creating(steps: seq<Step>, limit: nat, c: nat, now: int)
    ensures var s := Run(INITIAL, steps, limit);
            Enabled(s, Created(c, now)) ==>
              var t := Apply(s, Created(c, now), limit);
              && t.entry == s.entry && t.clients.Keys == s.clients.Keys
              && (forall d :: d in s.clients && d != c ==> t.clients[d] == s.clients[d])
              && t.clients[c].phase.Borrowed?
              && var conn := t.clients[c].phase.conn;
                 && conn.isFresh && conn.ctx == t.clients[c].ctx == s.clients[c].ctx
                 && (forall p, other :: At(s, p, other) ==> other.id != conn.id)
  {
    Reached(steps, limit);
  }
}
