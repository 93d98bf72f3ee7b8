/** The clients of one endpoint of the connection pool, as a state machine whose steps are
    the regions under the pool's lock, and what holds in every state they can reach. */
module PoolProtocol {
  import opened PoolEntry

  /** Where a coroutine is that entered acquire: creating a connection, using one, queued
      with its timer armed, or woken (or timed out) and about to run the loop again. */
  datatype Phase = Creating | Borrowed(conn: Conn) | Waiting(w: nat) | Rerun

  datatype Client = Client(ctx: Ctx, phase: Phase)

  datatype State = State(
    entry: Entry,
    live: set<nat>,
    nextWaiter: nat,
    clients: map<nat, Client>,
    nextConn: nat,
    releases: nat,
    failures: nat)

  const INITIAL := State(EMPTY_ENTRY, {}, 0, map[], 0, 0, 0)

  datatype Step =
    | Acquire(c: nat, ctx: Ctx, now: int)
    | Created(c: nat, now: int)
    | CreateFailed(c: nat)
    | Release(c: nat, keep: bool, now: int)
    | Timeout(c: nat)
    | Cancelled(c: nat)
    | Clear
    | DropContext(ctx: Ctx)
    | Elsewhere

  /** Which steps can happen. Elsewhere, at another endpoint, somebody may queue up at any time
      and take a waiter number. An io_context goes away only when no coroutine on it is
      creating, using or about to acquire a connection. */
  predicate Enabled(s: State, step: Step) {
    match step
    case Acquire(c, ctx, _) => c !in s.clients || s.clients[c] == Client(ctx, Rerun)
    case Created(c, _) => c in s.clients && s.clients[c].phase.Creating?
    case CreateFailed(c) => c in s.clients && s.clients[c].phase.Creating?
    case Release(c, _, _) => c in s.clients && s.clients[c].phase.Borrowed?
    case Timeout(c) => c in s.clients && s.clients[c].phase.Waiting?
    case Cancelled(c) => c in s.clients && s.clients[c].phase.Waiting?
    case Clear => true
    case DropContext(ctx) => forall c :: c in s.clients && s.clients[c].ctx == ctx ==> s.clients[c].phase.Waiting?
    case Elsewhere => true
  }

  /** The waiting clients whose waiters are in ws are to run the loop again. */
  function Wake(clients: map<nat, Client>, ws: set<nat>): map<nat, Client> {
    map c | c in clients ::
      if clients[c].phase.Waiting? && clients[c].phase.w in ws
      then clients[c].(phase := Rerun)
      else clients[c]
  }

  function Apply(s: State, step: Step, limit: nat): State
    requires Enabled(s, step)
  {
    match step
    case Acquire(c, ctx, now) =>
      var (e, o) := AcquireEntry(s.entry, limit, ctx, now, s.nextWaiter);
      (match o
       case Reuse(conn) => s.(entry := e, clients := s.clients[c := Client(ctx, Borrowed(conn))])
       case Create => s.(entry := e, clients := s.clients[c := Client(ctx, Creating)])
       case Wait(w) =>
         s.(entry := e, clients := s.clients[c := Client(ctx, Waiting(w))],
            live := s.live + {w}, nextWaiter := s.nextWaiter + 1))
    case Created(c, now) =>
      var ctx := s.clients[c].ctx;
      s.(clients := s.clients[c := Client(ctx, Borrowed(Conn(s.nextConn, ctx, now, true)))], nextConn := s.nextConn + 1)
    case CreateFailed(c) =>
      var (e, woken) := CreateFailedEntry(s.entry, s.live);
      s.(entry := e, live := s.live - Woken(woken), clients := Wake(s.clients - {c}, Woken(woken)),
         failures := s.failures + 1)
    case Release(c, keep, now) =>
      var (e, woken) := ReleaseEntry(s.entry, s.live, s.clients[c].phase.conn, keep, now);
      s.(entry := e, live := s.live - Woken(woken), clients := Wake(s.clients - {c}, Woken(woken)),
         releases := s.releases + 1)
    case Timeout(c) =>
      var w := s.clients[c].phase.w;
      s.(entry := Left(s, w), live := s.live - {w}, clients := s.clients[c := s.clients[c].(phase := Rerun)])
    case Cancelled(c) =>
      var w := s.clients[c].phase.w;
      s.(entry := Left(s, w), live := s.live - {w}, clients := s.clients - {c})
    case Clear =>
      s.(entry := ClearEntry(s.entry), live := s.live - Ids(s.entry.waiters),
         clients := Wake(s.clients, s.live * Ids(s.entry.waiters)))
    case DropContext(ctx) =>
      s.(entry := DropEntry(s.entry, ctx), live := s.live - IdsOn(s.entry.waiters, ctx),
         clients := map c | c in s.clients && s.clients[c].ctx != ctx :: s.clients[c])
    case Elsewhere => s.(nextWaiter := s.nextWaiter + 1)
  }

  /** What the destructor of WaiterGuard makes of the entry. */
  function Left(s: State, w: nat): Entry {
    if w in s.live then s.entry.(waiters := Without(s.entry.waiters, w)) else s.entry
  }

  /** The state after a run; steps that cannot happen are passed over. */
  function Run(s: State, steps: seq<Step>, limit: nat): State
    decreases |steps|
  {
    if steps == [] then s
    else if Enabled(s, steps[0]) then Run(Apply(s, steps[0], limit), steps[1..], limit)
    else Run(s, steps[1..], limit)
  }
}
