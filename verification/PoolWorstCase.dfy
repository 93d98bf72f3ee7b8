/** The bound of k * limit places is reached: a run that fills the idle buckets of k
    io_contexts one after the other and then reuses everything. */
module PoolWorstCase {
  import opened PoolEntry
  import opened PoolProtocol

  ghost predicate OnlyOn(steps: seq<Step>, k: nat) {
    forall i :: 0 <= i < |steps| && steps[i].Acquire? ==> steps[i].ctx < k
  }

  lemma RunCons(s: State, a: Step, rest: seq<Step>, limit: nat)
    requires Enabled(s, a)
    ensures Run(s, [a] + rest, limit) == Run(Apply(s, a, limit), rest, limit)
  {
    assert ([a] + rest)[1..] == rest;
  }

  /** All connections of a bucket can be reused at time 0. */
  ghost predicate AllUsable(idle: seq<Conn>) {
    forall j :: 0 <= j < |idle| ==> Usable(idle[j], 0)
  }

  /** Clients 0..i-1 use connections of io_context x and n connections are idle there; the
      buckets before x are full, those behind it empty. */
  ghost predicate Filling(s: State, x: Ctx, i: nat, n: nat, limit: nat) {
    && s.entry.waiters == [] && s.entry.active == i
    && (forall c: nat :: c in s.clients <==> c < i)
    && (forall c: nat :: c < i ==>
          s.clients[c].ctx == x && s.clients[c].phase.Borrowed? && s.clients[c].phase.conn.ctx == x)
    && (forall y: Ctx :: |IdleOf(s.entry, y)| == (if y < x then limit else if y == x then n else 0)
                         && AllUsable(IdleOf(s.entry, y)))
  }

  lemma CreateOne(s: State, x: Ctx, i: nat, limit: nat) returns (t: State)
    requires Filling(s, x, i, 0, limit) && i < limit
    ensures Enabled(s, Acquire(i, x, 0)) && Enabled(Apply(s, Acquire(i, x, 0), limit), Created(i, 0))
    ensures t == Apply(Apply(s, Acquire(i, x, 0), limit), Created(i, 0), limit)
    ensures Filling(t, x, i + 1, 0, limit)
  {
    var m := Apply(s, Acquire(i, x, 0), limit);
    t := Apply(m, Created(i, 0), limit);
    forall y: Ctx ensures |IdleOf(t.entry, y)| == (if y < x then limit else 0) && AllUsable(IdleOf(t.entry, y)) {
      assert IdleOf(t.entry, y) == if y == x then [] else IdleOf(s.entry, y);
    }
  }

  lemma CreateAll(s: State, x: Ctx, i: nat, limit: nat) returns (steps: seq<Step>)
    requires Filling(s, x, i, 0, limit) && i <= limit
    ensures OnlyOn(steps, x + 1) && Filling(Run(s, steps, limit), x, limit, 0, limit)
    decreases limit - i
  {
    if i == limit {
      steps := [];
    } else {
      var t := CreateOne(s, x, i, limit);
      var rest := CreateAll(t, x, i + 1, limit);
      var a, b := Acquire(i, x, 0), Created(i, 0);
      RunCons(Apply(s, a, limit), b, rest, limit);
      RunCons(s, a, [b] + rest, limit);
      steps := [a] + ([b] + rest);
    }
  }

  lemma ReleaseOne(s: State, x: Ctx, i: nat, n: nat, limit: nat) returns (t: State)
    requires Filling(s, x, i, n, limit) && i > 0
    ensures Enabled(s, Release(i - 1, true, 0)) && t == Apply(s, Release(i - 1, true, 0), limit)
    ensures Filling(t, x, i - 1, n + 1, limit)
  {
    t := Apply(s, Release(i - 1, true, 0), limit);
    forall y: Ctx
      ensures |IdleOf(t.entry, y)| == (if y < x then limit else if y == x then n + 1 else 0)
              && AllUsable(IdleOf(t.entry, y))
    {
      assert |IdleOf(s.entry, y)| >= 0;
    }
  }

  lemma ReleaseAll(s: State, x: Ctx, i: nat, n: nat, limit: nat) returns (steps: seq<Step>)
    requires Filling(s, x, i, n, limit) && i + n == limit
    ensures OnlyOn(steps, x + 1) && Filling(Run(s, steps, limit), x + 1, 0, 0, limit)
    decreases i
  {
    if i == 0 {
      steps := [];
      forall y: Ctx ensures |IdleOf(s.entry, y)| == (if y < x + 1 then limit else 0) && AllUsable(IdleOf(s.entry, y)) {}
    } else {
      var t := ReleaseOne(s, x, i, n, limit);
      var rest := ReleaseAll(t, x, i - 1, n + 1, limit);
      RunCons(s, Release(i - 1, true, 0), rest, limit);
      steps := [Release(i - 1, true, 0)] + rest;
    }
  }

  lemma RunAppend(s: State, a: seq<Step>, b: seq<Step>, limit: nat)
    ensures Run(s, a + b, limit) == Run(Run(s, a, limit), b, limit)
    decreases |a|
  {
    if a == [] {
      assert a + b == b;
    } else {
      assert (a + b)[1..] == a[1..] + b;
      RunAppend(if Enabled(s, a[0]) then Apply(s, a[0], limit) else s, a[1..], b, limit);
    }
  }

  lemma FillAll(s: State, x: Ctx, k: nat, limit: nat) returns (steps: seq<Step>)
    requires Filling(s, x, 0, 0, limit) && x <= k
    ensures OnlyOn(steps, k) && Filling(Run(s, steps, limit), k, 0, 0, limit)
    decreases k - x
  {
    if x == k {
      steps := [];
    } else {
      var up := CreateAll(s, x, 0, limit);
      var t := Run(s, up, limit);
      var down := ReleaseAll(t, x, limit, 0, limit);
      var u := Run(t, down, limit);
      var rest := FillAll(u, x + 1, k, limit);
      RunAppend(t, down, rest, limit);
      RunAppend(s, up, down + rest, limit);
      steps := up + (down + rest);
    }
  }

  /** Clients 0..n-1 use connections; n more are idle in the bucket of x and the buckets
      up to k are full. */
  ghost predicate Draining(s: State, x: Ctx, left: nat, used: nat, k: nat, limit: nat) {
    && s.entry.active == used
    && (forall c: nat :: c in s.clients <==> c < used)
    && (forall y: Ctx :: y < k ==>
          |IdleOf(s.entry, y)| == (if y < x then 0 else if y == x then left else limit)
              && AllUsable(IdleOf(s.entry, y)))
  }

  lemma ReuseOne(s: State, x: Ctx, left: nat, used: nat, k: nat, limit: nat) returns (t: State)
    requires Draining(s, x, left, used, k, limit) && left > 0 && x < k
    ensures Enabled(s, Acquire(used, x, 0)) && t == Apply(s, Acquire(used, x, 0), limit)
    ensures Draining(t, x, left - 1, used + 1, k, limit)
  {
    var idle := IdleOf(s.entry, x);
    assert Usable(idle[left - 1], 0);
    t := Apply(s, Acquire(used, x, 0), limit);
    assert IdleOf(t.entry, x) == idle[..left - 1];
    forall y: Ctx | y < k
      ensures |IdleOf(t.entry, y)| == (if y < x then 0 else if y == x then left - 1 else limit)
      ensures AllUsable(IdleOf(t.entry, y))
    {
      assert y != x ==> IdleOf(t.entry, y) == IdleOf(s.entry, y);
    }
  }

  lemma ReuseAll(s: State, x: Ctx, left: nat, used: nat, k: nat, limit: nat) returns (steps: seq<Step>)
    requires Draining(s, x, left, used, k, limit) && x < k
    ensures OnlyOn(steps, k)
    ensures Run(s, steps, limit).entry.active == used + left + (k - 1 - x) * limit
    decreases k - x, left
  {
    if left > 0 {
      var t := ReuseOne(s, x, left, used, k, limit);
      var rest := ReuseAll(t, x, left - 1, used + 1, k, limit);
      RunCons(s, Acquire(used, x, 0), rest, limit);
      steps := [Acquire(used, x, 0)] + rest;
    } else if x + 1 < k {
      forall y: Ctx | y < k
        ensures |IdleOf(s.entry, y)| == (if y < x + 1 then 0 else limit) && AllUsable(IdleOf(s.entry, y))
      {}
      steps := ReuseAll(s, x + 1, limit, used, k, limit);
      assert (k - 1 - x) * limit == limit + (k - 1 - (x + 1)) * limit;
    } else {
      steps := [];
    }
  }

  /** For any number of io_contexts and any limit there is a run, with clients on these
      io_contexts only, in which k * limit places are held at once. */
  lemma BoundIsReached(k: nat, limit: nat) returns (steps: seq<Step>)
    requires k > 0
    ensures OnlyOn(steps, k) && Run(INITIAL, steps, limit).entry.active == k * limit
  {
    var fill := FillAll(INITIAL, 0, k, limit);
    var t := Run(INITIAL, fill, limit);
    forall y: Ctx | y < k ensures |IdleOf(t.entry, y)| == (limit) && AllUsable(IdleOf(t.entry, y)) {}
    var use := ReuseAll(t, 0, limit, 0, k, limit);
    RunAppend(INITIAL, fill, use, limit);
    assert limit + (k - 1) * limit == k * limit;
    steps := fill + use;
  }
}
