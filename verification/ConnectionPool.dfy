/** HttpConnectionPool of src/http_client.cpp: the fields it keeps under its lock, with one
    method for each region that holds the lock. */
module ConnectionPool {
  import opened Basics
  import opened PoolEntry

  datatype Key = Key(https: bool, host: string, port: nat, verify: bool)

  /** The fields; whether a waiter is active is kept in one set for all endpoints. */
  datatype Fields = Fields(entries: map<Key, Entry>, live: set<nat>, nextWaiter: nat)

  /** entries_[key]: an endpoint not met before has an empty entry. */
  function EntryIn(entries: map<Key, Entry>, key: Key): Entry {
    if key in entries then entries[key] else EMPTY_ENTRY
  }

  function AfterAcquire(f: Fields, key: Key, limit: nat, ctx: Ctx, now: int): (Fields, Acquired) {
    var (e, o) := AcquireEntry(EntryIn(f.entries, key), limit, ctx, now, f.nextWaiter);
    var entries := f.entries[key := e];
    if o.Wait? then (Fields(entries, f.live + {o.waiter}, f.nextWaiter + 1), o) else (f.(entries := entries), o)
  }

  function AfterCreateFailed(f: Fields, key: Key): (Fields, Option<nat>) {
    var (e, o) := CreateFailedEntry(EntryIn(f.entries, key), f.live);
    (f.(entries := f.entries[key := e], live := f.live - Woken(o)), o)
  }

  function AfterRelease(f: Fields, key: Key, conn: Conn, keep: bool, now: int): (Fields, Option<nat>) {
    var (e, o) := ReleaseEntry(EntryIn(f.entries, key), f.live, conn, keep, now);
    (f.(entries := f.entries[key := e], live := f.live - Woken(o)), o)
  }

  /** A waiter that is still active leaves the queue. */
  function AfterLeave(f: Fields, key: Key, w: nat): Fields {
    if w !in f.live then f
    else if key !in f.entries then f.(live := f.live - {w})
    else f.(entries := f.entries[key := f.entries[key].(waiters := Without(f.entries[key].waiters, w))],
            live := f.live - {w})
  }

  function AllIds(entries: map<Key, Entry>): set<nat> {
    set k, w | k in entries && w in Ids(entries[k].waiters) :: w
  }

  function AllIdsOn(entries: map<Key, Entry>, ctx: Ctx): set<nat> {
    set k, w | k in entries && w in IdsOn(entries[k].waiters, ctx) :: w
  }

  /** Every active waiter of every endpoint is to be woken. */
  function AfterClear(f: Fields): (Fields, set<nat>) {
    var toCancel := f.live * AllIds(f.entries);
    (f.(entries := map k | k in f.entries :: ClearEntry(f.entries[k]), live := f.live - toCancel), toCancel)
  }

  function AfterDrop(f: Fields, ctx: Ctx): (Fields, set<nat>) {
    var toCancel := f.live * AllIdsOn(f.entries, ctx);
    (f.(entries := map k | k in f.entries :: DropEntry(f.entries[k], ctx), live := f.live - toCancel), toCancel)
  }

  class HttpConnectionPool {
    var entries: map<Key, Entry>
    var live: set<nat>
    var nextWaiter: nat

    ghost function View(): Fields
      reads this
    {
      Fields(entries, live, nextWaiter)
    }

    constructor ()
      ensures View() == Fields(map[], {}, 0)
    {
      entries := map[];
      live := {};
      nextWaiter := 0;
    }

    /** The locked part of acquire. */
    method Acquire(key: Key, maxConcurrent: nat, ctx: Ctx, now: int) returns (outcome: Acquired)
      modifies this
      ensures (View(), outcome) == AfterAcquire(old(View()), key, maxConcurrent, ctx, now)
    {
      var e := EntryIn(entries, key);
      var idle := IdleOf(e, ctx);
      ghost var bucket := idle;
      while idle != []
        invariant idle <= bucket
        invariant LastUsable(idle, now) == LastUsable(bucket, now)
        invariant entries == old(entries) && live == old(live) && nextWaiter == old(nextWaiter)
      {
        var conn := idle[|idle| - 1];
        idle := idle[..|idle| - 1];
        if now - conn.lastUsed <= IDLE_TIMEOUT {
          var one := e.active + 1;
          e := e.(idleByCtx := e.idleByCtx[ctx := idle], active := one, reused := e.reused + 1,
                  peakActive := Max(e.peakActive, one));
          entries := entries[key := e];
          assert idle == bucket[..LastUsable(bucket, now)];
          return Reuse(conn.(isFresh := false));
        }
      }
      e := e.(idleByCtx := e.idleByCtx[ctx := idle]);
      if maxConcurrent == 0 || e.active < maxConcurrent {
        var one := e.active + 1;
        e := e.(active := one, created := e.created + 1, peakActive := Max(e.peakActive, one));
        entries := entries[key := e];
        return Create;
      }
      var w := nextWaiter;
      nextWaiter := nextWaiter + 1;
      live := live + {w};
      e := e.(queuedWaits := e.queuedWaits + 1, waiters := e.waiters + [Waiter(w, ctx)]);
      entries := entries[key := e];
      return Wait(w);
    }

    /** The wake-up loop shared by release and by a failed creation. */
    method WakeFirst(waiters: seq<Waiter>) returns (rest: seq<Waiter>, toNotify: Option<nat>)
      modifies this`live
      ensures (rest, toNotify) == WakeOne(waiters, old(live))
      ensures live == old(live) - Woken(toNotify)
    {
      rest, toNotify := waiters, None;
      while rest != []
        invariant WakeOne(rest, live) == WakeOne(waiters, live)
        invariant live == old(live) && toNotify == None
      {
        var w := rest[0];
        rest := rest[1..];
        if w.id in live {
          live := live - {w.id};
          toNotify := Some(w.id);
          break;
        }
      }
    }

    /** The locked part of acquire's handler for a creation that failed or was cancelled. */
    method CreateFailed(key: Key) returns (toNotify: Option<nat>)
      modifies this`entries, this`live
      ensures (View(), toNotify) == AfterCreateFailed(old(View()), key)
    {
      var e := EntryIn(entries, key);
      if e.active > 0 {
        e := e.(active := e.active - 1);
      }
      var rest;
      rest, toNotify := WakeFirst(e.waiters);
      entries := entries[key := e.(waiters := rest)];
    }

    /** The locked part of release; open says whether the socket still is. */
    method Release(key: Key, conn: Conn, reusable: bool, open: bool, now: int) returns (toNotify: Option<nat>)
      modifies this`entries, this`live
      ensures (View(), toNotify) == AfterRelease(old(View()), key, conn, reusable && open, now)
    {
      var e := EntryIn(entries, key);
      if e.active > 0 {
        e := e.(active := e.active - 1);
      }
      if reusable && open {
        e := e.(idleByCtx := e.idleByCtx[conn.ctx := IdleOf(e, conn.ctx) + [conn.(lastUsed := now)]]);
      }
      var rest;
      rest, toNotify := WakeFirst(e.waiters);
      entries := entries[key := e.(waiters := rest)];
    }

    /** The destructor of WaiterGuard: a waiter that is still active leaves the queue. */
    method Leave(key: Key, w: nat)
      modifies this`entries, this`live
      ensures View() == AfterLeave(old(View()), key, w)
    {
      if w in live {
        live := live - {w};
        if key in entries {
          entries := entries[key := entries[key].(waiters := Without(entries[key].waiters, w))];
        }
      }
    }

    /** The inner loop of Clear: every active waiter of one queue is to be woken. */
    method CancelAll(waiters: seq<Waiter>) returns (toCancel: set<nat>)
      modifies this`live
      ensures toCancel == old(live) * Ids(waiters) && live == old(live) - toCancel
    {
      toCancel := {};
      for i := 0 to |waiters|
        invariant toCancel == old(live) * Ids(waiters[..i]) && live == old(live) - toCancel
      {
        var w := waiters[i];
        assert waiters[..i + 1] == waiters[..i] + [w];
        assert Ids(waiters[..i + 1]) == Ids(waiters[..i]) + {w.id};
        if w.id in live {
          live := live - {w.id};
          toCancel := toCancel + {w.id};
        }
      }
      assert waiters[..|waiters|] == waiters;
    }

    /** Drops every idle connection and wakes every waiter of every endpoint. */
    method Clear() returns (toCancel: set<nat>)
      modifies this`entries, this`live
      ensures (View(), toCancel) == AfterClear(old(View()))
    {
      toCancel := {};
      var keys := entries.Keys;
      while keys != {}
        invariant keys <= old(entries).Keys
        invariant entries == map k | k in old(entries) ::
                  if k in keys then old(entries)[k] else ClearEntry(old(entries)[k])
        invariant forall w :: w in toCancel <==>
                    w in old(live) && exists k :: k in old(entries) && k !in keys && w in Ids(old(entries)[k].waiters)
        invariant live == old(live) - toCancel
        decreases keys
      {
        var key := NextKey(keys);
        var e := entries[key];
        var more := CancelAll(e.waiters);
        entries := entries[key := ClearEntry(e)];
        keys, toCancel := keys - {key}, toCancel + more;
      }
      assert toCancel == old(live) * AllIds(old(entries));
      assert entries == AfterClear(old(View())).0.entries;
    }

    /** The inner loop of DropContext: the waiters of one io_context leave the queue, and
        the active ones among them are to be woken. */
    method DropWaiters(waiters: seq<Waiter>, ctx: Ctx) returns (rest: seq<Waiter>, toCancel: set<nat>)
      modifies this`live
      ensures rest == NotOn(waiters, ctx)
      ensures toCancel == old(live) * IdsOn(waiters, ctx) && live == old(live) - toCancel
    {
      rest, toCancel := [], {};
      for i := 0 to |waiters|
        invariant rest == NotOn(waiters[..i], ctx)
        invariant toCancel == old(live) * IdsOn(waiters[..i], ctx) && live == old(live) - toCancel
      {
        var w := waiters[i];
        assert waiters[..i + 1] == waiters[..i] + [w];
        NotOnMore(waiters[..i], w, ctx);
        assert IdsOn(waiters[..i + 1], ctx) == IdsOn(waiters[..i], ctx) + if w.ctx == ctx then {w.id} else {};
        if w.ctx == ctx {
          if w.id in live {
            live := live - {w.id};
            toCancel := toCancel + {w.id};
          }
        } else {
          rest := rest + [w];
        }
      }
      assert waiters[..|waiters|] == waiters;
    }

    /** An io_context is going away: its idle connections and its waiters go with it. */
    method DropContext(ctx: Ctx) returns (toCancel: set<nat>)
      modifies this`entries, this`live
      ensures (View(), toCancel) == AfterDrop(old(View()), ctx)
    {
      toCancel := {};
      var keys := entries.Keys;
      while keys != {}
        invariant keys <= old(entries).Keys
        invariant entries == map k | k in old(entries) ::
                  if k in keys then old(entries)[k] else DropEntry(old(entries)[k], ctx)
        invariant forall w :: w in toCancel <==>
                    w in old(live) && exists k ::
                      k in old(entries) && k !in keys && w in IdsOn(old(entries)[k].waiters, ctx)
        invariant live == old(live) - toCancel
        decreases keys
      {
        var key := NextKey(keys);
        var e := entries[key];
        var rest, more := DropWaiters(e.waiters, ctx);
        entries := entries[key := e.(idleByCtx := e.idleByCtx - {ctx}, waiters := rest)];
        keys, toCancel := keys - {key}, toCancel + more;
      }
      assert toCancel == old(live) * AllIdsOn(old(entries), ctx);
      assert entries == AfterDrop(old(View()), ctx).0.entries;
    }
  }

  lemma NotOnMore(ws: seq<Waiter>, w: Waiter, ctx: Ctx)
    ensures NotOn(ws + [w], ctx) == NotOn(ws, ctx) + if w.ctx == ctx then [] else [w]
  {
    if ws != [] {
      assert (ws + [w])[1..] == ws[1..] + [w];
      NotOnMore(ws[1..], w, ctx);
    }
  }
}
