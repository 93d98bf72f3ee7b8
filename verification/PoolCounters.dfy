/** What stats reports of an endpoint, over all runs: every counter counts what it says. */
module PoolCounters {
  import opened PoolEntry
  import opened PoolProtocol
  import opened PoolQueue
  import opened PoolLimits
  import opened PoolOwnership
  import opened PoolTheorems

  ghost function Creators(clients: map<nat, Client>): set<nat> {
    set c | c in clients && clients[c].phase.Creating?
  }

  /** Every creation begun succeeded, failed, or goes on. */
  ghost predicate CreationsCounted(s: State) {
    s.entry.created == s.nextConn + s.failures + |Creators(s.clients)|
  }

  lemma CreatorsPut(clients: map<nat, Client>, c: nat, client: Client)
    ensures Creators(clients[c := client]) ==
            if client.phase.Creating? then Creators(clients) + {c} else Creators(clients) - {c}
  {
  }

  lemma CreatorsGo(clients: map<nat, Client>, c: nat, ws: set<nat>)
    ensures Creators(Wake(clients - {c}, ws)) == Creators(clients) - {c}
    ensures Creators(Wake(clients, ws)) == Creators(clients)
    ensures Creators(clients - {c}) == Creators(clients) - {c}
  {
  }

  lemma AcquireCountsCreations(s: State, c: nat, ctx: Ctx, now: int, limit: nat)
    requires CreationsCounted(s) && Enabled(s, Acquire(c, ctx, now))
    ensures CreationsCounted(Apply(s, Acquire(c, ctx, now), limit))
  {
    hide LastUsable;
    var t := Apply(s, Acquire(c, ctx, now), limit);
    CreatorsPut(s.clients, c, t.clients[c]);
    assert c !in Creators(s.clients);
    hide Creators;
    assert t.clients == s.clients[c := t.clients[c]];
    assert Creators(s.clients) - {c} == Creators(s.clients);
  }

  lemma StepCountsCreations(s: State, step: Step, limit: nat)
    requires CreationsCounted(s) && Enabled(s, step)
    ensures CreationsCounted(Apply(s, step, limit))
  {
    var t := Apply(s, step, limit);
    if step.Acquire? {
      AcquireCountsCreations(s, step.c, step.ctx, step.now, limit);
    } else if step.DropContext? {
      assert Creators(t.clients) == Creators(s.clients);
    } else if step.Clear? {
      CreatorsGo(s.clients, 0, s.live * Ids(s.entry.waiters));
    } else if step.Created? || step.Timeout? {
      assert step.c in Creators(s.clients) <==> step.Created?;
      CreatorsPut(s.clients, step.c, t.clients[step.c]);
    } else if !step.Elsewhere? {
      assert step.c in Creators(s.clients) <==> step.CreateFailed?;
      GivenBackCreators(s, step, limit);
    }
  }

  lemma GivenBackCreators(s: State, step: Step, limit: nat)
    requires Enabled(s, step) && (step.CreateFailed? || step.Release? || step.Cancelled?)
    ensures Creators(Apply(s, step, limit).clients) == Creators(s.clients) - {step.c}
  {
    hide Creators, Wake;
    if step.CreateFailed? {
      CreatorsGo(s.clients, step.c, Woken(CreateFailedEntry(s.entry, s.live).1));
    } else if step.Release? {
      CreatorsGo(s.clients, step.c,
                 Woken(ReleaseEntry(s.entry, s.live, s.clients[step.c].phase.conn, step.keep, step.now).1));
    } else {
      CreatorsGo(s.clients, step.c, {});
    }
  }

  /** How often somebody elsewhere took a number. */
  function Elsewheres(steps: seq<Step>): nat {
    if steps == [] then 0 else (if steps[0].Elsewhere? then 1 else 0) + Elsewheres(steps[1..])
  }

  /** How often somebody queued up here is what the numbers taken leave. */
  lemma {:induction false} WaitsCounted(s: State, steps: seq<Step>, limit: nat)
    ensures var t := Run(s, steps, limit);
            t.nextWaiter - s.nextWaiter == t.entry.queuedWaits - s.entry.queuedWaits + Elsewheres(steps)
    decreases |steps|
  {
    if steps == [] {
    } else if Enabled(s, steps[0]) {
      var t := Apply(s, steps[0], limit);
      assert t.nextWaiter - s.nextWaiter ==
             t.entry.queuedWaits - s.entry.queuedWaits + if steps[0].Elsewhere? then 1 else 0;
      hide Apply, Enabled;
      WaitsCounted(t, steps[1..], limit);
    } else {
      hide Apply, Enabled;
      WaitsCounted(s, steps[1..], limit);
    }
  }

  lemma {:induction false} RunCountsCreations(s: State, steps: seq<Step>, limit: nat)
    requires CreationsCounted(s)
    ensures CreationsCounted(Run(s, steps, limit))
    decreases |steps|
  {
    hide CreationsCounted, Apply;
    if steps == [] {
    } else if Enabled(s, steps[0]) {
      StepCountsCreations(s, steps[0], limit);
      RunCountsCreations(Apply(s, steps[0], limit), steps[1..], limit);
    } else {
      RunCountsCreations(s, steps[1..], limit);
    }
  }

  // ---------------------------------------------------------------------------
  // The peak
  // ---------------------------------------------------------------------------

  /** The most places held at once in any state of a run, the first and the last one too. */
  function Highest(s: State, steps: seq<Step>, limit: nat): (m: nat)
    ensures m >= s.entry.active
    decreases |steps|
  {
    if steps == [] then s.entry.active
    else
      var next := if Enabled(s, steps[0]) then Apply(s, steps[0], limit) else s;
      var m := Highest(next, steps[1..], limit);
      if m > s.entry.active then m else s.entry.active
  }

  lemma {:induction false} HighestIs(s: State, steps: seq<Step>, limit: nat, k: nat)
    requires k <= |steps|
    ensures Run(s, steps[..k], limit).entry.active <= Highest(s, steps, limit)
    decreases |steps|
  {
    hide Apply, Enabled;
    if k == 0 {
      assert steps[..0] == [];
    } else {
      assert steps[..k][0] == steps[0] && steps[..k][1..] == steps[1..][..k - 1];
      HighestIs(if Enabled(s, steps[0]) then Apply(s, steps[0], limit) else s, steps[1..], limit, k - 1);
    }
  }

  lemma {:induction false} HighestReached(s: State, steps: seq<Step>, limit: nat) returns (k: nat)
    ensures k <= |steps| && Run(s, steps[..k], limit).entry.active == Highest(s, steps, limit)
    decreases |steps|
  {
    hide Apply, Enabled;
    if steps == [] || Highest(s, steps, limit) == s.entry.active {
      k := 0;
      assert steps[..0] == [];
    } else {
      k := HighestReached(if Enabled(s, steps[0]) then Apply(s, steps[0], limit) else s, steps[1..], limit);
      k := k + 1;
      assert steps[..k][0] == steps[0] && steps[..k][1..] == steps[1..][..k - 1];
    }
  }

  lemma {:induction false} PeakIsHighest(s: State, steps: seq<Step>, limit: nat)
    requires s.entry.active <= s.entry.peakActive
    ensures var m, p := Highest(s, steps, limit), s.entry.peakActive;
            Run(s, steps, limit).entry.peakActive == if m > p then m else p
    decreases |steps|
  {
    if steps == [] {
    } else if Enabled(s, steps[0]) {
      var t := Apply(s, steps[0], limit);
      assert t.entry.peakActive == if t.entry.active > s.entry.peakActive then t.entry.active else s.entry.peakActive;
      hide Apply, Enabled;
      PeakIsHighest(t, steps[1..], limit);
    } else {
      hide Apply, Enabled;
      PeakIsHighest(s, steps[1..], limit);
    }
  }

  /** In every reachable state: active counts the places held; created the creations begun,
      reused the other ways to get a place; the peak is the most places ever held at once; and
      queuedWaits counts the waiters of this endpoint. */
  lemma CountersMean(steps: seq<Step>, limit: nat) returns (k: nat)
    ensures var s := Run(INITIAL, steps, limit);
            && s.entry.active == |Holders(s.clients)|
            && s.entry.created == s.nextConn + s.failures + |Creators(s.clients)|
            && s.entry.reused + s.nextConn + |Creators(s.clients)| == |Holders(s.clients)| + s.releases
            && s.entry.queuedWaits + Elsewheres(steps) == s.nextWaiter
            && (forall j :: 0 <= j <= |steps| ==> Run(INITIAL, steps[..j], limit).entry.active <= s.entry.peakActive)
            && k <= |steps| && Run(INITIAL, steps[..k], limit).entry.active == s.entry.peakActive
  {
    Accounting(steps, limit);
    assert Creators(INITIAL.clients) == {};
    RunCountsCreations(INITIAL, steps, limit);
    WaitsCounted(INITIAL, steps, limit);
    PeakIsHighest(INITIAL, steps, limit);
    forall j | 0 <= j <= |steps|
      ensures Run(INITIAL, steps[..j], limit).entry.active <= Highest(INITIAL, steps, limit)
    {
      HighestIs(INITIAL, steps, limit, j);
    }
    k := HighestReached(INITIAL, steps, limit);
  }
}
