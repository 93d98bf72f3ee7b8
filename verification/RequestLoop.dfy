/** The attempt and redirect loops of requestAsync in src/http_client.cpp, over every way in
    which connections and exchanges can end. */
module RequestLoop {
  import opened Basics
  import opened Redirects

  /** How an exchange ends: with a response, with a system error that does or does not mean
      that the other side had closed the connection, or with some other exception. */
  datatype Outcome = Responded(response: Response) | SystemError(retryable: bool) | OtherError

  /** What an attempt meets: no connection, or a new or an idle one and an exchange over it. */
  datatype Meeting = Refused | Got(idle: bool, outcome: Outcome)

  /** What attempts meet, counted over a whole run. */
  type World = nat -> Meeting

  /** A lease is one borrowing of a connection. */
  datatype Event =
    | Acquired(lease: nat)
    | Created(lease: nat)
    | NoConnection
    | Exchanged(lease: nat, reused: bool, request: Request, outcome: Outcome)
    | Released(lease: nat, reusable: bool)

  // ---------------------------------------------------------------------------
  // What a run looks like
  // ---------------------------------------------------------------------------

  datatype Attempt = Failed | Try(lease: nat, reused: bool, outcome: Outcome)

  /** One turn of the redirect loop. */
  datatype Hop = Hop(request: Request, attempts: seq<Attempt>)

  function MaxAttempts(usePool: bool): nat {
    if usePool then 2 else 1
  }

  /** A reused connection turned out to be closed. */
  predicate Stale(a: Attempt) {
    a.Try? && a.reused && a.outcome == SystemError(true)
  }

  predicate Reusable(o: Outcome) {
    o.Responded? && o.response.keepAlive
  }

  function AttemptLog(usePool: bool, q: Request, a: Attempt): seq<Event> {
    match a
    case Failed => [NoConnection]
    case Try(lease, reused, outcome) =>
      if usePool then
        [Acquired(lease), Exchanged(lease, reused, q, outcome), Released(lease, Reusable(outcome))]
      else
        [Created(lease), Exchanged(lease, reused, q, outcome)]
  }

  function AttemptsLog(usePool: bool, q: Request, attempts: seq<Attempt>): seq<Event> {
    if attempts == [] then []
    else AttemptsLog(usePool, q, attempts[..|attempts| - 1]) + AttemptLog(usePool, q, Last(attempts))
  }

  function HopsLog(usePool: bool, hops: seq<Hop>): seq<Event> {
    if hops == [] then []
    else HopsLog(usePool, hops[..|hops| - 1]) + AttemptsLog(usePool, Last(hops).request, Last(hops).attempts)
  }

  /** The attempt that meets this; without the pool no connection is reused. */
  function AttemptAt(usePool: bool, world: World, n: nat): Attempt {
    match world(n)
    case Refused => Failed
    case Got(idle, outcome) => Try(n, usePool && idle, outcome)
  }

  /** A hop tries again only behind a stale connection, and only once; a URL that does not
      parse is not tried. */
  ghost predicate ValidHop(usePool: bool, world: World, hop: Hop, lease: nat) {
    var a := hop.attempts;
    && |a| <= MaxAttempts(usePool)
    && (a == [] <==> UrlParse.ParseUrl(hop.request.url).None?)
    && (forall k :: 0 <= k < |a| - 1 ==> Stale(a[k]))
    && (a != [] && Stale(Last(a)) ==> |a| == MaxAttempts(usePool))
    && (forall k :: 0 <= k < |a| ==> a[k] == AttemptAt(usePool, world, lease + k))
  }

  function Leases(attempts: seq<Attempt>): nat {
    if attempts == [] then 0 else Leases(attempts[..|attempts| - 1]) + if Last(attempts).Try? then 1 else 0
  }

  /** The number of leases before a hop. */
  function LeasesBefore(hops: seq<Hop>): nat {
    if hops == [] then 0 else LeasesBefore(hops[..|hops| - 1]) + Leases(Last(hops).attempts)
  }

  function ResultOf(hop: Hop): Option<Response> {
    if hop.attempts != [] && Last(hop.attempts).Try? && Last(hop.attempts).outcome.Responded?
    then Some(Last(hop.attempts).outcome.response) else None
  }

  predicate Continues(hop: Hop) {
    ResultOf(hop).Some? && LeadsOn(ResultOf(hop).value)
  }

  /** A hop behind another one is where that one leads. */
  ghost predicate Follows(hops: seq<Hop>, k: nat)
    requires k < |hops|
  {
    k > 0 ==> Continues(hops[k - 1]) && hops[k].request == NextRequest(hops[k - 1].request, ResultOf(hops[k - 1]).value)
  }

  ghost predicate ValidHops(usePool: bool, world: World, start: Request, hops: seq<Hop>) {
    && (forall k :: 0 <= k < |hops| ==> ValidHop(usePool, world, hops[k], LeasesBefore(hops[..k])))
    && (hops != [] ==> hops[0].request == start)
    && (forall k :: 0 <= k < |hops| ==> Follows(hops, k))
  }

  /** A whole run: it goes on exactly as long as there are redirects, and no further than
      the limit. */
  ghost predicate ValidRun(usePool: bool, world: World, start: Request, followRedirect: nat, hops: seq<Hop>) {
    && ValidHops(usePool, world, start, hops)
    && 0 < |hops| <= followRedirect + 1
    && (|hops| <= followRedirect ==> !Continues(Last(hops)))
  }

  // ---------------------------------------------------------------------------
  // The loops
  // ---------------------------------------------------------------------------

  lemma AttemptsLogMore(usePool: bool, q: Request, attempts: seq<Attempt>, a: Attempt)
    ensures AttemptsLog(usePool, q, attempts + [a]) == AttemptsLog(usePool, q, attempts) + AttemptLog(usePool, q, a)
    ensures Leases(attempts + [a]) == Leases(attempts) + if a.Try? then 1 else 0
  {
    assert (attempts + [a])[..|attempts|] == attempts;
  }

  /** The attempts so far, all of them stale. */
  ghost predicate AllStale(usePool: bool, world: World, attempts: seq<Attempt>, from: nat) {
    && (forall k :: 0 <= k < |attempts| ==>
          Stale(attempts[k]) && attempts[k] == AttemptAt(usePool, world, from + k) && usePool)
    && Leases(attempts) == |attempts|
  }

  lemma StartStale(usePool: bool, world: World, q: Request, from: nat)
    ensures AllStale(usePool, world, [], from) && AttemptsLog(usePool, q, []) == []
  {
  }

  lemma BadUrl(usePool: bool, world: World, q: Request, from: nat)
    requires UrlParse.ParseUrl(q.url).None?
    ensures ValidHop(usePool, world, Hop(q, []), from) && ResultOf(Hop(q, [])) == None
    ensures AttemptsLog(usePool, q, []) == [] && Leases([]) == 0
  {
    hide UrlParse.ParseUrl;
  }

  /** One more stale attempt. */
  lemma StaleMore(usePool: bool, world: World, done: seq<Attempt>, a: Attempt, from: nat)
    requires AllStale(usePool, world, done, from) && a.Try? && Stale(a) && usePool
    requires a == AttemptAt(usePool, world, from + |done|)
    ensures AllStale(usePool, world, done + [a], from)
  {
    AttemptsLogMore(usePool, Request("", "", "", ""), done, a);
  }

  /** The last attempt of a turn. */
  lemma LastAttempt(usePool: bool, world: World, q: Request, done: seq<Attempt>, a: Attempt, from: nat)
    requires AllStale(usePool, world, done, from) && |done| < MaxAttempts(usePool) && UrlParse.ParseUrl(q.url).Some?
    requires Stale(a) ==> |done| + 1 == MaxAttempts(usePool)
    requires a == AttemptAt(usePool, world, from + |done|)
    ensures ValidHop(usePool, world, Hop(q, done + [a]), from)
    ensures ResultOf(Hop(q, done + [a])) == if a.Try? && a.outcome.Responded? then Some(a.outcome.response) else None
    ensures Leases(done + [a]) == |done| + if a.Try? then 1 else 0
  {
    hide UrlParse.ParseUrl, AttemptsLog, AttemptLog, Leases;
    AttemptsLogMore(usePool, q, done, a);
    StaleAt(usePool, world, done, from);
    hide AllStale, Stale;
    var all := done + [a];
    assert Last(all) == a;
    assert forall k :: 0 <= k < |done| ==> all[k] == done[k];
  }

  lemma StaleAt(usePool: bool, world: World, done: seq<Attempt>, from: nat)
    requires AllStale(usePool, world, done, from)
    ensures Leases(done) == |done|
    ensures forall k :: 0 <= k < |done| ==> Stale(done[k]) && done[k] == AttemptAt(usePool, world, from + k)
  {
  }

  lemma LogOfTry(log: seq<Event>, usePool: bool, q: Request, lease: nat, reused: bool, outcome: Outcome)
    ensures log + AttemptLog(usePool, q, Try(lease, reused, outcome)) ==
            if usePool then
              log + [Acquired(lease)] + [Exchanged(lease, reused, q, outcome)] + [Released(lease, Reusable(outcome))]
            else log + [Created(lease)] + [Exchanged(lease, reused, q, outcome)]
    ensures log + AttemptLog(usePool, q, Failed) == log + [NoConnection]
    ensures Stale(Try(lease, reused, outcome)) <==> reused && outcome == SystemError(true)
    ensures !Stale(Failed)
    ensures Reusable(outcome) <==> outcome.Responded? && outcome.response.keepAlive
  {
  }

  lemma AttemptIs(usePool: bool, world: World, n: nat)
    ensures AttemptAt(usePool, world, n) ==
            if world(n).Refused? then Failed else Try(n, usePool && world(n).idle, world(n).outcome)
  {
  }

  lemma MaxAttemptsIs(usePool: bool)
    ensures MaxAttempts(usePool) == if usePool then 2 else 1
  {
  }

  /** The result, the events and the next free number of a turn with some attempts. */
  ghost predicate IsTurn(usePool: bool, world: World, q: Request, from: nat, result: Option<Response>, log: seq<Event>,
                         next: nat, attempts: seq<Attempt>) {
    && ValidHop(usePool, world, Hop(q, attempts), from)
    && result == ResultOf(Hop(q, attempts))
    && log == AttemptsLog(usePool, q, attempts)
    && next == from + Leases(attempts)
  }

  lemma TurnIs(usePool: bool, world: World, q: Request, from: nat, result: Option<Response>, log: seq<Event>,
               next: nat, attempts: seq<Attempt>)
    ensures IsTurn(usePool, world, q, from, result, log, next, attempts) <==>
            && ValidHop(usePool, world, Hop(q, attempts), from)
            && result == ResultOf(Hop(q, attempts))
            && log == AttemptsLog(usePool, q, attempts)
            && next == from + Leases(attempts)
  {
    hide ValidHop, ResultOf, AttemptsLog, Leases;
  }

  /** One turn of the redirect loop: acquire or create a connection, exchange, release. */
  method Attempts(usePool: bool, world: World, q: Request, from: nat)
    returns (result: Option<Response>, log: seq<Event>, next: nat)
    ensures exists attempts :: IsTurn(usePool, world, q, from, result, log, next, attempts)
  {
    hide *;
    result, log, next := None, [], from;
    ghost var done: seq<Attempt> := [];
    StartStale(usePool, world, q, from);
    MaxAttemptsIs(usePool);
    if UrlParse.ParseUrl(q.url).None? {
      BadUrl(usePool, world, q, from);
      TurnIs(usePool, world, q, from, result, log, next, []);
      return;
    }
    var maxAttempts := if usePool then 2 else 1;
    var attempt := 0;
    while attempt < maxAttempts
      invariant attempt == |done| < maxAttempts
      invariant result == None && AllStale(usePool, world, done, from) && next == from + |done|
      invariant log == AttemptsLog(usePool, q, done)
      decreases maxAttempts - attempt
    {
      // acquire, or createConnection: it may throw
      var meeting := world(next);
      AttemptIs(usePool, world, next);
      if meeting.Refused? {
        LogOfTry(log, usePool, q, 0, false, OtherError);
        AttemptsLogMore(usePool, q, done, Failed);
        LastAttempt(usePool, world, q, done, Failed, from);
        log := log + [NoConnection];
        TurnIs(usePool, world, q, from, result, log, next, done + [Failed]);
        return;
      }
      var lease := next;
      next := next + 1;
      var reused := usePool && meeting.idle;
      var outcome := meeting.outcome;
      ghost var a := Try(lease, reused, outcome);
      LogOfTry(log, usePool, q, lease, reused, outcome);
      AttemptsLogMore(usePool, q, done, a);
      log := log + [if usePool then Acquired(lease) else Created(lease)];
      log := log + [Exchanged(lease, reused, q, outcome)];
      match outcome
      case SystemError(retryable) =>
        if reused && attempt + 1 < maxAttempts && retryable {
          log := log + [Released(lease, false)];
          StaleMore(usePool, world, done, a, from);
          done := done + [a];
          attempt := attempt + 1;
          continue;
        }
        if usePool {
          log := log + [Released(lease, false)];
        }
        LastAttempt(usePool, world, q, done, a, from);
        TurnIs(usePool, world, q, from, result, log, next, done + [a]);
        return;
      case OtherError =>
        if usePool {
          log := log + [Released(lease, false)];
        }
        LastAttempt(usePool, world, q, done, a, from);
        TurnIs(usePool, world, q, from, result, log, next, done + [a]);
        return;
      case Responded(response) =>
        result := Some(response);
        var poolable := usePool && response.keepAlive;
        if usePool {
          log := log + [Released(lease, poolable)];
        }
        LastAttempt(usePool, world, q, done, a, from);
        TurnIs(usePool, world, q, from, result, log, next, done + [a]);
        return;
    }
  }

  lemma HopsMore(usePool: bool, world: World, start: Request, hops: seq<Hop>, hop: Hop)
    requires ValidHops(usePool, world, start, hops) && ValidHop(usePool, world, hop, LeasesBefore(hops))
    requires if hops == [] then hop.request == start
             else Continues(Last(hops)) && hop.request == NextRequest(Last(hops).request, ResultOf(Last(hops)).value)
    ensures ValidHops(usePool, world, start, hops + [hop])
    ensures HopsLog(usePool, hops + [hop]) == HopsLog(usePool, hops) + AttemptsLog(usePool, hop.request, hop.attempts)
    ensures LeasesBefore(hops + [hop]) == LeasesBefore(hops) + Leases(hop.attempts)
    ensures Last(hops + [hop]) == hop
  {
    hide ValidHop, Continues, NextRequest, ResultOf, AttemptsLog, Leases;
    var all := hops + [hop];
    assert all[..|hops|] == hops;
    forall k | 0 <= k < |all| ensures Follows(all, k) {
      if k < |hops| { assert Follows(hops, k); }
    }
    forall k | 0 <= k < |all| ensures ValidHop(usePool, world, all[k], LeasesBefore(all[..k])) {
      if k < |hops| { assert all[..k] == hops[..k]; }
    }
  }

  /** The result and the events of a run with some hops. */
  ghost predicate RunOf(usePool: bool, world: World, start: Request, followRedirect: nat, result: Option<Response>,
                        log: seq<Event>, hops: seq<Hop>) {
    && ValidRun(usePool, world, start, followRedirect, hops)
    && result == ResultOf(Last(hops))
    && log == HopsLog(usePool, hops)
  }

  /** What requestAsync can return, and what happens on the way. */
  ghost predicate IsRun(usePool: bool, world: World, start: Request, followRedirect: nat, result: Option<Response>,
                        log: seq<Event>) {
    exists hops :: RunOf(usePool, world, start, followRedirect, result, log, hops)
  }

  lemma NoHopsYet(usePool: bool, world: World, start: Request)
    ensures ValidHops(usePool, world, start, []) && HopsLog(usePool, []) == [] && LeasesBefore([]) == 0
  {
  }

  lemma RunEnds(usePool: bool, world: World, start: Request, followRedirect: nat, result: Option<Response>,
                log: seq<Event>, hops: seq<Hop>)
    requires ValidHops(usePool, world, start, hops) && 0 < |hops| <= followRedirect + 1
    requires result == ResultOf(Last(hops)) && log == HopsLog(usePool, hops)
    requires |hops| <= followRedirect ==>
               result.None? || !IsRedirectStatus(result.value.status) || result.value.location == ""
    ensures IsRun(usePool, world, start, followRedirect, result, log)
  {
    hide ValidHops, HopsLog, ResultOf, IsRedirectStatus;
    assert RunOf(usePool, world, start, followRedirect, result, log, hops);
  }

  lemma RunGoesOn(hop: Hop, url: string)
    requires ResultOf(hop).Some? && IsRedirectStatus(ResultOf(hop).value.status) && ResultOf(hop).value.location != ""
    requires url == UrlParse.ResolveRedirectUrl(hop.request.url, ResultOf(hop).value.location)
    ensures Continues(hop)
    ensures NextRequest(hop.request, ResultOf(hop).value) ==
            if RedirectChangesToGet(ResultOf(hop).value.status) then Request("GET", url, "", "")
            else hop.request.(url := url)
  {
    hide ResultOf, UrlParse.ResolveRedirectUrl, IsRedirectStatus, RedirectChangesToGet;
  }

  /** requestAsync */
  method RequestAsync(usePool: bool, world: World, start: Request, followRedirect: nat)
    returns (result: Option<Response>, log: seq<Event>)
    ensures IsRun(usePool, world, start, followRedirect, result, log)
  {
    hide *;
    log := [];
    ghost var hops: seq<Hop> := [];
    var current := start;
    var lease: nat := 0;
    var redirectCount := 0;
    NoHopsYet(usePool, world, start);
    while true
      invariant redirectCount == |hops| <= followRedirect
      invariant ValidHops(usePool, world, start, hops) && log == HopsLog(usePool, hops) && lease == LeasesBefore(hops)
      invariant if hops == [] then current == start
                else Continues(Last(hops)) && ResultOf(Last(hops)).Some?
                     && current == NextRequest(Last(hops).request, ResultOf(Last(hops)).value)
      decreases followRedirect - redirectCount
    {
      var events, next;
      result, events, next := Attempts(usePool, world, current, lease);
      ghost var attempts :| IsTurn(usePool, world, current, lease, result, events, next, attempts);
      TurnIs(usePool, world, current, lease, result, events, next, attempts);
      ghost var hop := Hop(current, attempts);
      log := log + events;
      lease := next;
      HopsMore(usePool, world, start, hops, hop);
      hops := hops + [hop];
      if result.None? {
        RunEnds(usePool, world, start, followRedirect, result, log, hops);
        return;
      }
      if redirectCount >= followRedirect {
        RunEnds(usePool, world, start, followRedirect, result, log, hops);
        return;
      }
      if !IsRedirectStatus(result.value.status) {
        RunEnds(usePool, world, start, followRedirect, result, log, hops);
        return;
      }
      if result.value.location == "" {
        RunEnds(usePool, world, start, followRedirect, result, log, hops);
        return;
      }
      var url := UrlParse.ResolveRedirectUrl(current.url, result.value.location);
      RunGoesOn(hop, url);
      if RedirectChangesToGet(result.value.status) {
        current := Request("GET", url, "", "");
      } else {
        current := current.(url := url);
      }
      redirectCount := redirectCount + 1;
    }
  }
}
