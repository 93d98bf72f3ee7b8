/** One endpoint's entry of HttpConnectionPool (src/http_client.cpp), and what each region
    under the pool's lock makes of it. */
module PoolEntry {
  import opened Basics

  /** An io_context, by number. */
  type Ctx = nat

  /** A pooled connection: who it is, the io_context its socket is bound to, when it was
      last given back (steady clock, nanoseconds), and whether the current use is its first. */
  datatype Conn = Conn(id: nat, ctx: Ctx, lastUsed: int, isFresh: bool)

  /** A queued waiter. Its active flag is kept apart, in a set of numbers, because the
      waiting coroutine and the queue share it. */
  datatype Waiter = Waiter(id: nat, ctx: Ctx)

  datatype Entry = Entry(
    idleByCtx: map<Ctx, seq<Conn>>,
    waiters: seq<Waiter>,
    active: nat,
    created: nat,
    reused: nat,
    peakActive: nat,
    queuedWaits: nat)

  const EMPTY_ENTRY := Entry(map[], [], 0, 0, 0, 0, 0)

  /** kPoolIdleTimeout: 120 s */
  const IDLE_TIMEOUT: int := 120_000_000_000

  function IdleOf(e: Entry, ctx: Ctx): seq<Conn> {
    if ctx in e.idleByCtx then e.idleByCtx[ctx] else []
  }

  predicate Usable(conn: Conn, now: int) {
    now - conn.lastUsed <= IDLE_TIMEOUT
  }

  /** The last connection of a bucket that has not been idle for too long, or -1. */
  function LastUsable(idle: seq<Conn>, now: int): (k: int)
    ensures -1 <= k < |idle|
    ensures k >= 0 ==> Usable(idle[k], now)
    ensures forall j :: k < j < |idle| ==> !Usable(idle[j], now)
  {
    if idle == [] then -1
    else if Usable(idle[|idle| - 1], now) then |idle| - 1
    else LastUsable(idle[..|idle| - 1], now)
  }

  datatype Acquired = Reuse(conn: Conn) | Create | Wait(waiter: nat)

  /** acquire: reuse an idle connection of this io_context, else create one if the limit
      allows it (0 is no limit), else queue up as waiter number w. */
  function AcquireEntry(e: Entry, limit: nat, ctx: Ctx, now: int, w: nat): (Entry, Acquired) {
    var idle := IdleOf(e, ctx);
    var k := LastUsable(idle, now);
    var one := e.active + 1;
    if k >= 0 then
      (e.(idleByCtx := e.idleByCtx[ctx := idle[..k]], active := one, reused := e.reused + 1,
          peakActive := Max(e.peakActive, one)),
       Reuse(idle[k].(isFresh := false)))
    else if limit == 0 || e.active < limit then
      (e.(idleByCtx := e.idleByCtx[ctx := []], active := one, created := e.created + 1,
          peakActive := Max(e.peakActive, one)),
       Create)
    else
      (e.(idleByCtx := e.idleByCtx[ctx := []], queuedWaits := e.queuedWaits + 1,
          waiters := e.waiters + [Waiter(w, ctx)]),
       Wait(w))
  }

  /** Drops queued waiters up to and including the first active one, which is woken. */
  function WakeOne(ws: seq<Waiter>, live: set<nat>): (r: (seq<Waiter>, Option<nat>)) {
    if ws == [] then ([], None)
    else if ws[0].id in live then (ws[1..], Some(ws[0].id))
    else WakeOne(ws[1..], live)
  }

  function Woken(o: Option<nat>): set<nat> {
    if o.Some? then {o.value} else {}
  }

  /** A place is given back: the count goes down, but not below zero. */
  function Lower(active: nat): nat {
    if active > 0 then active - 1 else 0
  }

  function CreateFailedEntry(e: Entry, live: set<nat>): (Entry, Option<nat>) {
    var (rest, woken) := WakeOne(e.waiters, live);
    (e.(active := Lower(e.active), waiters := rest), woken)
  }

  function ReleaseEntry(e: Entry, live: set<nat>, conn: Conn, keep: bool, now: int): (Entry, Option<nat>) {
    var (rest, woken) := WakeOne(e.waiters, live);
    var idle := if keep
                then e.idleByCtx[conn.ctx := IdleOf(e, conn.ctx) + [conn.(lastUsed := now)]]
                else e.idleByCtx;
    (e.(active := Lower(e.active), idleByCtx := idle, waiters := rest), woken)
  }

  function Without(ws: seq<Waiter>, w: nat): (r: seq<Waiter>)
    ensures forall x :: x in r <==> x in ws && x.id != w
  {
    if ws == [] then []
    else if ws[0].id == w then Without(ws[1..], w)
    else [ws[0]] + Without(ws[1..], w)
  }

  function NotOn(ws: seq<Waiter>, ctx: Ctx): (r: seq<Waiter>)
    ensures forall x :: x in r <==> x in ws && x.ctx != ctx
  {
    if ws == [] then []
    else if ws[0].ctx == ctx then NotOn(ws[1..], ctx)
    else [ws[0]] + NotOn(ws[1..], ctx)
  }

  function Ids(ws: seq<Waiter>): set<nat> {
    set x | x in ws :: x.id
  }

  function IdsOn(ws: seq<Waiter>, ctx: Ctx): set<nat> {
    set x | x in ws && x.ctx == ctx :: x.id
  }

  function ClearEntry(e: Entry): Entry {
    e.(idleByCtx := map c | c in e.idleByCtx :: [], waiters := [])
  }

  function DropEntry(e: Entry, ctx: Ctx): Entry {
    e.(idleByCtx := e.idleByCtx - {ctx}, waiters := NotOn(e.waiters, ctx))
  }
}
