/** Who has which connection, over all runs: every connection is in exactly one place and
    stays on the io_context that created it. */
module PoolOwnership {
  import opened PoolEntry
  import opened PoolProtocol

  datatype Place = InBucket(ctx: Ctx, i: nat) | With(c: nat)

  predicate At(s: State, p: Place, conn: Conn) {
    match p
    case InBucket(ctx, i) => i < |IdleOf(s.entry, ctx)| && IdleOf(s.entry, ctx)[i] == conn
    case With(c) => c in s.clients && s.clients[c].phase == Borrowed(conn)
  }

  function PlaceCtx(s: State, p: Place): Ctx
    requires p.With? ==> p.c in s.clients
  {
    match p
    case InBucket(ctx, _) => ctx
    case With(c) => s.clients[c].ctx
  }

  ghost predicate Owned(s: State) {
    && (forall p, conn :: At(s, p, conn) ==> conn.id < s.nextConn && PlaceCtx(s, p) == conn.ctx)
    && (forall p, q, conn, conn' :: At(s, p, conn) && At(s, q, conn') && conn.id == conn'.id ==> p == q)
  }

  /** Where a connection was before the step that brought it to p. */
  function From(s: State, step: Step, limit: nat, p: Place): Place
    requires Enabled(s, step)
  {
    if step.Acquire? && p == With(step.c) then
      var k := LastUsable(IdleOf(s.entry, step.ctx), step.now);
      if k >= 0 then InBucket(step.ctx, k) else p
    else if step.Release? && p.InBucket? && step.keep && p.ctx == s.clients[step.c].phase.conn.ctx
            && p.i == |IdleOf(s.entry, p.ctx)| then With(step.c)
    else p
  }

  /** A step brings no connection from elsewhere, and the new one of Created is new. */
  lemma StepMoves(s: State, step: Step, limit: nat, p: Place, conn: Conn)
    requires Owned(s) && Enabled(s, step) && At(Apply(s, step, limit), p, conn)
    ensures var t := Apply(s, step, limit);
            if step.Created? && p == With(step.c)
            then conn.id == s.nextConn && conn.ctx == PlaceCtx(t, p) && t.nextConn == s.nextConn + 1
            else exists was: Conn :: was.id == conn.id && was.ctx == conn.ctx && At(s, From(s, step, limit, p), was)
    ensures PlaceCtx(Apply(s, step, limit), p) == conn.ctx && s.nextConn <= Apply(s, step, limit).nextConn
  {
    var t := Apply(s, step, limit);
    var q := From(s, step, limit, p);
    match step
    case Acquire(c, ctx, now) =>
      var k := LastUsable(IdleOf(s.entry, ctx), now);
      if p == With(c) {
        assert At(s, InBucket(ctx, k), IdleOf(s.entry, ctx)[k]);
      } else {
        assert At(s, p, conn);
      }
    case Created(c, now) =>
      if p != With(c) { assert At(s, p, conn); }
    case CreateFailed(c) =>
      assert At(s, p, conn);
    case Release(c, keep, now) =>
      if q == With(c) {
        assert At(s, With(c), s.clients[c].phase.conn);
      } else {
        assert At(s, p, conn);
      }
    case Timeout(c) =>
      assert At(s, p, conn);
    case Cancelled(c) =>
      assert At(s, p, conn);
    case Clear =>
      assert At(s, p, conn);
    case DropContext(ctx) =>
      assert At(s, p, conn);
    case Elsewhere =>
      assert At(s, p, conn);
  }

  /** Two places do not fill from one. */
  lemma FromInjective(s: State, step: Step, limit: nat, p: Place, q: Place, conn: Conn, conn': Conn)
    requires Owned(s) && Enabled(s, step)
    requires At(Apply(s, step, limit), p, conn) && At(Apply(s, step, limit), q, conn')
    requires From(s, step, limit, p) == From(s, step, limit, q)
    ensures p == q
  {
  }

  lemma StepKeepsOwned(s: State, step: Step, limit: nat)
    requires Owned(s) && Enabled(s, step)
    ensures Owned(Apply(s, step, limit))
  {
    var t := Apply(s, step, limit);
    forall p, conn | At(t, p, conn) ensures conn.id < t.nextConn && PlaceCtx(t, p) == conn.ctx {
      StepMoves(s, step, limit, p, conn);
    }
    forall p, q, conn, conn' | At(t, p, conn) && At(t, q, conn') && conn.id == conn'.id ensures p == q {
      StepMoves(s, step, limit, p, conn);
      StepMoves(s, step, limit, q, conn');
      if From(s, step, limit, p) == From(s, step, limit, q) {
        FromInjective(s, step, limit, p, q, conn, conn');
      }
    }
  }
}
