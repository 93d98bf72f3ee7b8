/** What holds of every run of requestAsync. */
module RequestRuns {
  import opened Basics
  import opened Redirects
  import opened RequestLoop

  // ---------------------------------------------------------------------------
  // Connections
  // ---------------------------------------------------------------------------

  /** What is held between two events. */
  datatype Holding = Nothing | Held(lease: nat, used: bool) | Broken

  /** A connection is acquired while none is held, used once, and released once. */
  function Play(h: Holding, e: Event): Holding {
    match e
    case Acquired(l) => if h.Nothing? then Held(l, false) else Broken
    case Exchanged(l, _, _, _) => if h == Held(l, false) then Held(l, true) else Broken
    case Released(l, _) => if h == Held(l, true) then Nothing else Broken
    case NoConnection => if h.Nothing? then Nothing else Broken
    case Created(_) => Broken
  }

  function PlayAll(h: Holding, log: seq<Event>): Holding {
    if log == [] then h else Play(PlayAll(h, log[..|log| - 1]), Last(log))
  }

  lemma {:induction false} PlaySplit(h: Holding, a: seq<Event>, b: seq<Event>)
    ensures PlayAll(h, a + b) == PlayAll(PlayAll(h, a), b)
    decreases |b|
  {
    hide Play;
    if b == [] {
      assert a + b == a;
    } else {
      assert (a + b)[..|a + b| - 1] == a + b[..|b| - 1];
      PlaySplit(h, a, b[..|b| - 1]);
    }
  }

  /** How often a lease is acquired or released. */
  function Acquisitions(log: seq<Event>, l: nat): nat {
    if log == [] then 0 else Acquisitions(log[..|log| - 1], l) + if Last(log) == Acquired(l) then 1 else 0
  }

  function Releases(log: seq<Event>, l: nat): nat {
    if log == [] then 0
    else Releases(log[..|log| - 1], l) + if Last(log).Released? && Last(log).lease == l then 1 else 0
  }

  lemma {:induction false} CountsSplit(a: seq<Event>, b: seq<Event>, l: nat)
    ensures Acquisitions(a + b, l) == Acquisitions(a, l) + Acquisitions(b, l)
    ensures Releases(a + b, l) == Releases(a, l) + Releases(b, l)
    decreases |b|
  {
    if b == [] {
      assert a + b == a;
    } else {
      assert (a + b)[..|a + b| - 1] == a + b[..|b| - 1];
      CountsSplit(a, b[..|b| - 1], l);
    }
  }

  lemma ThreeEvents(x: Event, y: Event, z: Event, l: nat, h: Holding)
    ensures PlayAll(h, [x, y, z]) == Play(Play(Play(h, x), y), z)
    ensures Acquisitions([x, y, z], l) == Acquisitions([x], l) + Acquisitions([y], l) + Acquisitions([z], l)
    ensures Releases([x, y, z], l) == Releases([x], l) + Releases([y], l) + Releases([z], l)
  {
    hide Play;
    var xy := [x] + [y];
    assert [x, y, z] == xy + [z];
    CountsSplit([x], [y], l);
    CountsSplit(xy, [z], l);
    PlaySplit(h, [x], [y]);
    PlaySplit(h, xy, [z]);
    PlayOne(h, x);
    PlayOne(Play(h, x), y);
    PlayOne(Play(Play(h, x), y), z);
  }

  lemma PlayOne(h: Holding, x: Event)
    ensures PlayAll(h, [x]) == Play(h, x)
  {
    assert [x][..0] == [];
    assert PlayAll(h, []) == h;
  }

  lemma OneCounts(x: Event, l: nat)
    ensures Acquisitions([x], l) == if x == Acquired(l) then 1 else 0
    ensures Releases([x], l) == if x.Released? && x.lease == l then 1 else 0
  {
    assert [x][..0] == [];
    assert Acquisitions([], l) == 0 && Releases([], l) == 0;
  }

  lemma AttemptBalanced(q: Request, a: Attempt, l: nat)
    ensures PlayAll(Nothing, AttemptLog(true, q, a)) == Nothing
    ensures Acquisitions(AttemptLog(true, q, a), l) == if a.Try? && a.lease == l then 1 else 0
    ensures Releases(AttemptLog(true, q, a), l) == if a.Try? && a.lease == l then 1 else 0
  {
    hide PlayAll, Acquisitions, Releases, Reusable;
    match a
    case Failed =>
      PlayOne(Nothing, NoConnection);
      OneCounts(NoConnection, l);
    case Try(lease, reused, outcome) =>
      var x, y, z := Acquired(lease), Exchanged(lease, reused, q, outcome), Released(lease, Reusable(outcome));
      ThreeEvents(x, y, z, l, Nothing);
      OneCounts(x, l);
      OneCounts(y, l);
      OneCounts(z, l);
  }

  /** All attempts of a hop hold leases one after the other, numbered from a first one; only
      the last can fail to get one. */
  ghost predicate Numbered(attempts: seq<Attempt>, from: nat) {
    && (forall k :: 0 <= k < |attempts| && attempts[k].Try? ==> attempts[k].lease == from + k)
    && (forall k :: 0 <= k < |attempts| - 1 ==> attempts[k].Try?)
  }

  lemma {:induction false} AttemptsBalanced(q: Request, attempts: seq<Attempt>, from: nat, l: nat)
    requires Numbered(attempts, from)
    ensures PlayAll(Nothing, AttemptsLog(true, q, attempts)) == Nothing
    ensures Acquisitions(AttemptsLog(true, q, attempts), l) == if from <= l < from + Leases(attempts) then 1 else 0
    ensures Releases(AttemptsLog(true, q, attempts), l) == if from <= l < from + Leases(attempts) then 1 else 0
    ensures Leases(attempts) <= |attempts|
    ensures (attempts != [] ==> Last(attempts).Try?) ==> Leases(attempts) == |attempts|
    decreases |attempts|
  {
    hide PlayAll, Acquisitions, Releases, AttemptLog;
    if attempts == [] {
      NoEvents(l);
    } else {
      var init, a := attempts[..|attempts| - 1], Last(attempts);
      AttemptsBalanced(q, init, from, l);
      PlaySplit(Nothing, AttemptsLog(true, q, init), AttemptLog(true, q, a));
      CountsSplit(AttemptsLog(true, q, init), AttemptLog(true, q, a), l);
      AttemptBalanced(q, a, l);
    }
  }

  lemma NoEvents(l: nat)
    ensures PlayAll(Nothing, []) == Nothing && Acquisitions([], l) == 0 && Releases([], l) == 0
  {
  }

  lemma ValidIsNumbered(usePool: bool, world: World, hop: Hop, from: nat)
    requires ValidHop(usePool, world, hop, from)
    ensures Numbered(hop.attempts, from)
  {
    hide UrlParse.ParseUrl;
  }

  lemma {:induction false} HopsBalanced(world: World, start: Request, hops: seq<Hop>, l: nat)
    requires ValidHops(true, world, start, hops)
    ensures PlayAll(Nothing, HopsLog(true, hops)) == Nothing
    ensures Acquisitions(HopsLog(true, hops), l) == if l < LeasesBefore(hops) then 1 else 0
    ensures Releases(HopsLog(true, hops), l) == if l < LeasesBefore(hops) then 1 else 0
    decreases |hops|
  {
    hide PlayAll, Acquisitions, Releases, AttemptsLog, Leases, ValidHop, Follows;
    if hops == [] {
      NoEvents(l);
    } else {
      var n := |hops| - 1;
      var init, hop := hops[..n], Last(hops);
      ValidInit(true, world, start, hops);
      HopsBalanced(world, start, init, l);
      ValidIsNumbered(true, world, hop, LeasesBefore(init));
      AttemptsBalanced(hop.request, hop.attempts, LeasesBefore(init), l);
      PlaySplit(Nothing, HopsLog(true, init), AttemptsLog(true, hop.request, hop.attempts));
      CountsSplit(HopsLog(true, init), AttemptsLog(true, hop.request, hop.attempts), l);
    }
  }

  lemma ValidInit(usePool: bool, world: World, start: Request, hops: seq<Hop>)
    requires ValidHops(usePool, world, start, hops) && hops != []
    ensures ValidHops(usePool, world, start, hops[..|hops| - 1])
    ensures ValidHop(usePool, world, Last(hops), LeasesBefore(hops[..|hops| - 1]))
    ensures Follows(hops, |hops| - 1)
  {
    hide ValidHop, LeasesBefore;
    var n := |hops| - 1;
    var init := hops[..n];
    forall k | 0 <= k < n ensures ValidHop(usePool, world, init[k], LeasesBefore(init[..k])) && Follows(init, k) {
      assert init[..k] == hops[..k];
      assert Follows(hops, k);
    }
  }

  /** With the pool, a run holds at most one connection at a time, uses it for one exchange,
      and holds none at the end: every one acquired is released exactly once, on every path. */
  lemma ReleasedExactlyOnce(world: World, start: Request, followRedirect: nat, result: Option<Response>,
                            log: seq<Event>)
    requires IsRun(true, world, start, followRedirect, result, log)
    ensures PlayAll(Nothing, log) == Nothing
    ensures forall l: nat :: Acquisitions(log, l) == Releases(log, l) <= 1
  {
    hide PlayAll, Acquisitions, Releases, HopsLog, ValidHops;
    var hops :| RunOf(true, world, start, followRedirect, result, log, hops);
    HopsBalanced(world, start, hops, 0);
    forall l: nat ensures Acquisitions(log, l) == Releases(log, l) <= 1 {
      HopsBalanced(world, start, hops, l);
    }
  }

  // ---------------------------------------------------------------------------
  // Exchanges
  // ---------------------------------------------------------------------------

  function Exchanges(log: seq<Event>): seq<Event> {
    if log == [] then []
    else Exchanges(log[..|log| - 1]) + if Last(log).Exchanged? then [Last(log)] else []
  }

  lemma {:induction false} ExchangesSplit(a: seq<Event>, b: seq<Event>)
    ensures Exchanges(a + b) == Exchanges(a) + Exchanges(b)
    decreases |b|
  {
    if b == [] {
      assert a + b == a;
    } else {
      assert (a + b)[..|a + b| - 1] == a + b[..|b| - 1];
      ExchangesSplit(a, b[..|b| - 1]);
    }
  }

  /** The same request again, because a reused connection was stale. */
  ghost predicate Repeated(e: Event, f: Event) {
    && e.Exchanged? && f.Exchanged?
    && e.reused && e.outcome == SystemError(true) && f.request == e.request
  }

  /** The request that a redirect leads to. */
  ghost predicate Redirected(e: Event, f: Event) {
    && e.Exchanged? && f.Exchanged?
    && e.outcome.Responded? && LeadsOn(e.outcome.response) && f.request == NextRequest(e.request, e.outcome.response)
  }

  /** Every exchange behind the first has its reason in the one before it, and no request is
      repeated twice. */
  ghost predicate Linked(ex: seq<Event>) {
    && (forall k :: 0 <= k < |ex| ==> ex[k].Exchanged?)
    && (forall k :: 0 <= k < |ex| - 1 ==> Repeated(ex[k], ex[k + 1]) || Redirected(ex[k], ex[k + 1]))
    && (forall k :: 0 <= k < |ex| - 2 ==> !Repeated(ex[k], ex[k + 1]) || !Repeated(ex[k + 1], ex[k + 2]))
  }

  lemma AttemptExchanges(usePool: bool, q: Request, a: Attempt)
    ensures Exchanges(AttemptLog(usePool, q, a)) ==
            match a
            case Failed => []
            case Try(lease, reused, outcome) => [Exchanged(lease, reused, q, outcome)]
  {
    match a
    case Failed =>
      ExchangesOne(NoConnection);
    case Try(lease, reused, outcome) =>
      var x, y, z := Acquired(lease), Exchanged(lease, reused, q, outcome), Released(lease, Reusable(outcome));
      hide Exchanges;
      ExchangesOne(x);
      ExchangesOne(Created(lease));
      ExchangesOne(y);
      ExchangesOne(z);
      ExchangesSplit([x], [y]);
      ExchangesSplit([x] + [y], [z]);
      ExchangesSplit([Created(lease)], [y]);
      assert [x] + [y] + [z] == [x, y, z] && [Created(lease)] + [y] == [Created(lease), y];
  }

  lemma ExchangesOne(x: Event)
    ensures Exchanges([x]) == if x.Exchanged? then [x] else []
  {
    assert [x][..0] == [];
    assert Exchanges([]) == [];
  }

  /** How many exchanges ended with a response. */
  function Answers(ex: seq<Event>): nat {
    if ex == [] then 0
    else Answers(ex[..|ex| - 1]) + if Last(ex).Exchanged? && Last(ex).outcome.Responded? then 1 else 0
  }

  lemma {:induction false} AnswersSplit(a: seq<Event>, b: seq<Event>)
    ensures Answers(a + b) == Answers(a) + Answers(b)
    decreases |b|
  {
    if b == [] {
      assert a + b == a;
    } else {
      assert (a + b)[..|a + b| - 1] == a + b[..|b| - 1];
      AnswersSplit(a, b[..|b| - 1]);
    }
  }

  lemma AnswersOfFew(ex: seq<Event>)
    requires |ex| <= 2 && (forall k :: 0 <= k < |ex| ==> ex[k].Exchanged?) && (|ex| == 2 ==> !ex[0].outcome.Responded?)
    ensures Answers(ex) == if ex != [] && Last(ex).outcome.Responded? then 1 else 0
  {
    if |ex| == 2 {
      assert ex[..1][..0] == [] && Answers([]) == 0;
      assert Answers(ex[..1]) == 0;
    }
  }

  /** The exchanges of a hop: none, one, or one more behind a stale connection. */
  ghost predicate HopShape(usePool: bool, hop: Hop, ex: seq<Event>) {
    && |ex| <= MaxAttempts(usePool)
    && (forall k :: 0 <= k < |ex| ==> ex[k].Exchanged? && ex[k].request == hop.request)
    && (|ex| == 2 ==> Repeated(ex[0], ex[1]))
    && Answers(ex) == (if ResultOf(hop).Some? then 1 else 0)
    && (ResultOf(hop).Some? ==> ex != [] && Last(ex).outcome == Responded(ResultOf(hop).value))
  }

  lemma {:induction false} AttemptsExchanges(usePool: bool, q: Request, attempts: seq<Attempt>)
    requires forall k :: 0 <= k < |attempts| - 1 ==> Stale(attempts[k])
    ensures var ex := Exchanges(AttemptsLog(usePool, q, attempts));
            && |ex| == (if attempts == [] || Last(attempts).Try? then |attempts| else |attempts| - 1)
            && forall k :: 0 <= k < |ex| ==>
                 attempts[k].Try? && ex[k] == Exchanged(attempts[k].lease, attempts[k].reused, q, attempts[k].outcome)
    decreases |attempts|
  {
    hide AttemptLog, Exchanges;
    if attempts == [] {
      ExchangesNone();
    } else {
      var init, a := attempts[..|attempts| - 1], Last(attempts);
      assert init != [] ==> Stale(Last(init));
      AttemptsExchanges(usePool, q, init);
      ExchangesSplit(AttemptsLog(usePool, q, init), AttemptLog(usePool, q, a));
      AttemptExchanges(usePool, q, a);
    }
  }

  lemma ExchangesNone()
    ensures Exchanges([]) == []
  {
  }

  lemma HopExchanges(usePool: bool, world: World, hop: Hop, from: nat)
    requires ValidHop(usePool, world, hop, from)
    ensures HopShape(usePool, hop, Exchanges(AttemptsLog(usePool, hop.request, hop.attempts)))
  {
    hide UrlParse.ParseUrl, Exchanges, AttemptsLog, Answers;
    AttemptsExchanges(usePool, hop.request, hop.attempts);
    AnswersOfFew(Exchanges(AttemptsLog(usePool, hop.request, hop.attempts)));
  }

  /** The exchanges of some hops, and how they end. */
  ghost predicate RunShape(usePool: bool, hops: seq<Hop>, ex: seq<Event>) {
    && Linked(ex)
    && |ex| <= MaxAttempts(usePool) * |hops|
    && (ex != [] ==> hops != [] && ex[0].request == hops[0].request)
    && (hops != [] ==> Answers(ex) == if ResultOf(Last(hops)).Some? then |hops| else |hops| - 1)
    && (hops != [] && ResultOf(Last(hops)).Some? ==>
          && ex != []
          && Last(ex).outcome == Responded(ResultOf(Last(hops)).value)
          && Last(ex).request == Last(hops).request)
  }

  lemma ShapeMore(usePool: bool, hops: seq<Hop>, ex: seq<Event>, hop: Hop, more: seq<Event>)
    requires RunShape(usePool, hops, ex) && HopShape(usePool, hop, more)
    requires hops != [] ==>
               Continues(Last(hops)) && hop.request == NextRequest(Last(hops).request, ResultOf(Last(hops)).value)
    requires hops == [] ==> ex == []
    ensures RunShape(usePool, hops + [hop], ex + more)
  {
    hide NextRequest, LeadsOn, Answers;
    var all := ex + more;
    AnswersSplit(ex, more);
    NoAnswers();
    assert Last(hops + [hop]) == hop;
    if ex != [] && more != [] {
      assert Redirected(Last(ex), more[0]);
    }
    forall k | 0 <= k < |all| - 1 ensures Repeated(all[k], all[k + 1]) || Redirected(all[k], all[k + 1]) {
      if k + 1 < |ex| {
        assert all[k] == ex[k] && all[k + 1] == ex[k + 1];
      } else if k >= |ex| {
        assert all[k] == more[0] && all[k + 1] == more[1];
      }
    }
    forall k | 0 <= k < |all| - 2 ensures !Repeated(all[k], all[k + 1]) || !Repeated(all[k + 1], all[k + 2]) {
      if k + 2 < |ex| {
        assert all[k] == ex[k] && all[k + 1] == ex[k + 1] && all[k + 2] == ex[k + 2];
      }
    }
    assert MaxAttempts(usePool) * |hops + [hop]| == MaxAttempts(usePool) * |hops| + MaxAttempts(usePool);
  }

  lemma NoAnswers()
    ensures Answers([]) == 0
  {
  }

  lemma NoHops(usePool: bool)
    ensures RunShape(usePool, [], Exchanges(HopsLog(usePool, []))) && Exchanges(HopsLog(usePool, [])) == []
  {
  }

  lemma LastHop(usePool: bool, hops: seq<Hop>)
    requires hops != []
    ensures var n := |hops| - 1;
            && Last(hops) == hops[n] && hops == hops[..n] + [hops[n]]
            && HopsLog(usePool, hops) ==
               HopsLog(usePool, hops[..n]) + AttemptsLog(usePool, hops[n].request, hops[n].attempts)
            && (n > 0 && Follows(hops, n) ==>
                  && Last(hops[..n]) == hops[n - 1] && Continues(Last(hops[..n])) && ResultOf(Last(hops[..n])).Some?
                  && hops[n].request == NextRequest(Last(hops[..n]).request, ResultOf(Last(hops[..n])).value))
  {
    hide AttemptsLog, NextRequest, ResultOf;
  }

  lemma {:induction false} HopsExchanges(usePool: bool, world: World, start: Request, hops: seq<Hop>)
    requires ValidHops(usePool, world, start, hops)
    ensures RunShape(usePool, hops, Exchanges(HopsLog(usePool, hops)))
    ensures hops == [] ==> Exchanges(HopsLog(usePool, hops)) == []
    decreases |hops|
  {
    hide *;
    if hops == [] {
      NoHops(usePool);
    } else {
      var n := |hops| - 1;
      var init, hop := hops[..n], hops[n];
      ValidInit(usePool, world, start, hops);
      LastHop(usePool, hops);
      HopsExchanges(usePool, world, start, init);
      HopExchanges(usePool, world, hop, LeasesBefore(init));
      var more := Exchanges(AttemptsLog(usePool, hop.request, hop.attempts));
      ExchangesSplit(HopsLog(usePool, init), AttemptsLog(usePool, hop.request, hop.attempts));
      ShapeMore(usePool, init, Exchanges(HopsLog(usePool, init)), hop, more);
    }
  }

  /** A run makes at most two exchanges per request, so at most 2 * (followRedirect + 1); a
      request goes out again only behind a reused connection that turned out to be closed,
      and then only once; any other exchange is one that a redirect asked for. */
  lemma ExchangesBounded(usePool: bool, world: World, start: Request, followRedirect: nat, result: Option<Response>,
                         log: seq<Event>)
    requires IsRun(usePool, world, start, followRedirect, result, log)
    ensures var ex := Exchanges(log);
            && |ex| <= MaxAttempts(usePool) * (followRedirect + 1) <= 2 * (followRedirect + 1)
            && Linked(ex) && (ex != [] ==> ex[0].request == start)
  {
    hide Exchanges, HopsLog, Linked, Answers;
    var hops :| RunOf(usePool, world, start, followRedirect, result, log, hops);
    HopsExchanges(usePool, world, start, hops);
    if usePool {
      assert MaxAttempts(usePool) == 2;
    }
  }

  /** The result is the response of the last exchange. It can be a redirect only when as
      many redirects were followed as allowed; and nothing is returned although an exchange
      went well only if that one was a redirect. */
  lemma ResultMeans(usePool: bool, world: World, start: Request, followRedirect: nat, result: Option<Response>,
                    log: seq<Event>)
    requires IsRun(usePool, world, start, followRedirect, result, log)
    ensures var ex := Exchanges(log);
            && Answers(ex) <= followRedirect + 1
            && (result.Some? ==> ex != [] && Last(ex).Exchanged? && Last(ex).outcome == Responded(result.value))
            && (result.Some? && LeadsOn(result.value) ==> Answers(ex) == followRedirect + 1)
            && (result.None? ==> Answers(ex) <= followRedirect)
  {
    hide Exchanges, HopsLog, Answers, LeadsOn, ValidHops;
    var hops :| RunOf(usePool, world, start, followRedirect, result, log, hops);
    HopsExchanges(usePool, world, start, hops);
  }

  // ---------------------------------------------------------------------------
  // What a run makes of what it meets
  // ---------------------------------------------------------------------------

  /** The exchanges go with what is met from number n on, one by one. */
  ghost predicate GoesWith(usePool: bool, world: World, ex: seq<Event>, n: nat) {
    forall k :: 0 <= k < |ex| ==>
      && ex[k].Exchanged? && ex[k].lease == n + k
      && world(n + k).Got? && ex[k].outcome == world(n + k).outcome
      && (ex[k].reused <==> usePool && world(n + k).idle)
  }

  /** An idle connection that the other side had closed. */
  predicate Vain(m: Meeting) {
    m.Got? && m.idle && m.outcome == SystemError(true)
  }

  /** Two attempts at most: the exchanges and the result of a turn. */
  lemma TurnMeans(usePool: bool, world: World, q: Request, from: nat, result: Option<Response>, log: seq<Event>,
                  next: nat)
    requires exists attempts :: IsTurn(usePool, world, q, from, result, log, next, attempts)
    ensures var ex, first, second := Exchanges(log), world(from), world(from + 1);
            && GoesWith(usePool, world, ex, from) && next == from + |ex|
            && (UrlParse.ParseUrl(q.url).None? ==> result == None && ex == [])
            && (UrlParse.ParseUrl(q.url).Some? ==>
                  && (first.Refused? ==> result == None && ex == [])
                  && (first.Got? && first.outcome.Responded? ==> result == Some(first.outcome.response) && |ex| == 1)
                  && (usePool && Vain(first) ==>
                        && (second.Refused? ==> result == None && |ex| == 1)
                        && (second.Got? ==> |ex| == 2)
                        && (second.Got? && second.outcome.Responded? ==> result == Some(second.outcome.response))
                        && (second.Got? && !second.outcome.Responded? ==> result == None))
                  && (first.Got? && !first.outcome.Responded? && !(usePool && Vain(first)) ==>
                        result == None && |ex| == 1))
  {
    hide UrlParse.ParseUrl, Exchanges, AttemptsLog, Leases;
    var attempts :| IsTurn(usePool, world, q, from, result, log, next, attempts);
    AttemptsExchanges(usePool, q, attempts);
    LeasesAre(attempts);
    if attempts != [] {
      assert attempts[0] == AttemptAt(usePool, world, from + 0);
      if |attempts| == 2 { assert attempts[1] == AttemptAt(usePool, world, from + 1); }
    }
  }

  lemma {:induction false} LeasesAre(attempts: seq<Attempt>)
    requires forall k :: 0 <= k < |attempts| - 1 ==> attempts[k].Try?
    ensures Leases(attempts) == if attempts == [] || Last(attempts).Try? then |attempts| else |attempts| - 1
    decreases |attempts|
  {
    if attempts == [] {
    } else {
      var init := attempts[..|attempts| - 1];
      assert init != [] ==> Last(init).Try?;
      LeasesAre(init);
    }
  }

  lemma HopGoesWith(usePool: bool, world: World, hop: Hop, from: nat)
    requires ValidHop(usePool, world, hop, from)
    ensures GoesWith(usePool, world, Exchanges(AttemptsLog(usePool, hop.request, hop.attempts)), from)
    ensures |Exchanges(AttemptsLog(usePool, hop.request, hop.attempts))| == Leases(hop.attempts)
  {
    hide UrlParse.ParseUrl, Exchanges, AttemptsLog, Leases;
    AttemptsExchanges(usePool, hop.request, hop.attempts);
    LeasesAre(hop.attempts);
    forall k | 0 <= k < |hop.attempts| ensures hop.attempts[k] == AttemptAt(usePool, world, from + k) {}
  }

  lemma GoOn(usePool: bool, world: World, ex: seq<Event>, more: seq<Event>)
    requires GoesWith(usePool, world, ex, 0) && GoesWith(usePool, world, more, |ex|)
    ensures GoesWith(usePool, world, ex + more, 0)
  {
    var all := ex + more;
    forall k | 0 <= k < |all|
      ensures all[k].Exchanged? && all[k].lease == k && world(k).Got? && all[k].outcome == world(k).outcome
      ensures all[k].reused <==> usePool && world(k).idle
    {
      if k >= |ex| { assert all[k] == more[k - |ex|]; }
    }
  }

  lemma {:induction false} HopsGoWith(usePool: bool, world: World, start: Request, hops: seq<Hop>)
    requires ValidHops(usePool, world, start, hops)
    ensures GoesWith(usePool, world, Exchanges(HopsLog(usePool, hops)), 0)
    ensures |Exchanges(HopsLog(usePool, hops))| == LeasesBefore(hops)
    decreases |hops|
  {
    hide GoesWith, ValidHop, AttemptsLog, Leases, Follows, Exchanges;
    if hops == [] {
      NothingGoes(usePool, world);
    } else {
      var n := |hops| - 1;
      var init, hop := hops[..n], Last(hops);
      ValidInit(usePool, world, start, hops);
      HopsGoWith(usePool, world, start, init);
      HopGoesWith(usePool, world, hop, LeasesBefore(init));
      ExchangesSplit(HopsLog(usePool, init), AttemptsLog(usePool, hop.request, hop.attempts));
      GoOn(usePool, world, Exchanges(HopsLog(usePool, init)),
           Exchanges(AttemptsLog(usePool, hop.request, hop.attempts)));
    }
  }

  lemma NothingGoes(usePool: bool, world: World)
    ensures Exchanges([]) == [] && GoesWith(usePool, world, [], 0)
  {
  }

  /** In every run the k-th exchange is over the connection that is met k-th, new or idle, and
      ends as that one does. */
  lemma ExchangesMeet(usePool: bool, world: World, start: Request, followRedirect: nat, result: Option<Response>,
                      log: seq<Event>)
    requires IsRun(usePool, world, start, followRedirect, result, log)
    ensures GoesWith(usePool, world, Exchanges(log), 0)
  {
    hide Exchanges, HopsLog, GoesWith, ValidHops;
    var hops :| RunOf(usePool, world, start, followRedirect, result, log, hops);
    HopsGoWith(usePool, world, start, hops);
  }

  /** Whether the pool may keep a connection: exactly when the exchange over it gave a response
      that allows it. */
  ghost predicate ReleasedRight(world: World, e: Event) {
    e.Released? ==>
      (e.reusable <==> world(e.lease).Got? && world(e.lease).outcome.Responded?
                       && world(e.lease).outcome.response.keepAlive)
  }

  lemma AttemptReleases(usePool: bool, world: World, q: Request, n: nat)
    ensures forall e :: e in AttemptLog(usePool, q, AttemptAt(usePool, world, n)) ==> ReleasedRight(world, e)
  {
  }

  lemma {:induction false} AttemptsRelease(usePool: bool, world: World, q: Request, attempts: seq<Attempt>, from: nat)
    requires forall k :: 0 <= k < |attempts| ==> attempts[k] == AttemptAt(usePool, world, from + k)
    ensures forall e :: e in AttemptsLog(usePool, q, attempts) ==> ReleasedRight(world, e)
    decreases |attempts|
  {
    hide ReleasedRight, AttemptLog, AttemptAt;
    if attempts == [] {
    } else {
      var n := |attempts| - 1;
      AttemptsRelease(usePool, world, q, attempts[..n], from);
      AttemptReleases(usePool, world, q, from + n);
      assert attempts[n] == AttemptAt(usePool, world, from + n);
    }
  }

  lemma {:induction false} HopsRelease(usePool: bool, world: World, start: Request, hops: seq<Hop>)
    requires ValidHops(usePool, world, start, hops)
    ensures forall e :: e in HopsLog(usePool, hops) ==> ReleasedRight(world, e)
    decreases |hops|
  {
    hide ReleasedRight, ValidHop, AttemptsLog, Follows;
    if hops == [] {
    } else {
      var n := |hops| - 1;
      ValidInit(usePool, world, start, hops);
      HopsRelease(usePool, world, start, hops[..n]);
      ValidAttempts(usePool, world, hops[n], LeasesBefore(hops[..n]));
      AttemptsRelease(usePool, world, hops[n].request, hops[n].attempts, LeasesBefore(hops[..n]));
    }
  }

  lemma ValidAttempts(usePool: bool, world: World, hop: Hop, from: nat)
    requires ValidHop(usePool, world, hop, from)
    ensures forall k :: 0 <= k < |hop.attempts| ==> hop.attempts[k] == AttemptAt(usePool, world, from + k)
  {
    hide UrlParse.ParseUrl;
  }

  lemma ReleasedForReuse(usePool: bool, world: World, start: Request, followRedirect: nat, result: Option<Response>,
                         log: seq<Event>)
    requires IsRun(usePool, world, start, followRedirect, result, log)
    ensures forall e :: e in log ==> ReleasedRight(world, e)
  {
    hide ReleasedRight, HopsLog, ValidHops;
    var hops :| RunOf(usePool, world, start, followRedirect, result, log, hops);
    HopsRelease(usePool, world, start, hops);
  }

  // ---------------------------------------------------------------------------
  // Redirects
  // ---------------------------------------------------------------------------

  /** Every hop ended with a response. */
  ghost predicate Answered(hops: seq<Hop>) {
    forall k :: 0 <= k < |hops| ==> ResultOf(hops[k]).Some?
  }

  /** The responses that hops ended with. */
  ghost function Responses(hops: seq<Hop>): (r: seq<Response>)
    requires Answered(hops)
    ensures |r| == |hops| && forall k :: 0 <= k < |r| ==> r[k] == ResultOf(hops[k]).value
  {
    if hops == [] then [] else Responses(hops[..|hops| - 1]) + [ResultOf(hops[|hops| - 1]).value]
  }

  lemma ResponsesMore(hops: seq<Hop>, k: nat)
    requires k < |hops| && Answered(hops[..k]) && ResultOf(hops[k]).Some?
    ensures Answered(hops[..k + 1])
    ensures Responses(hops[..k + 1]) == Responses(hops[..k]) + [ResultOf(hops[k]).value]
  {
    hide ResultOf;
    assert hops[..k + 1][..k] == hops[..k];
    assert hops[..k + 1] == hops[..k] + [hops[k]];
  }

  lemma AlongMore(q: Request, chain: seq<Response>, r: Response)
    ensures Along(q, chain + [r]) == NextRequest(Along(q, chain), r)
  {
    hide NextRequest;
    assert (chain + [r])[..|chain|] == chain;
  }

  lemma FollowsMeans(hops: seq<Hop>, k: nat)
    requires k + 1 < |hops| && Follows(hops, k + 1)
    ensures ResultOf(hops[k]).Some?
    ensures hops[k + 1].request == NextRequest(hops[k].request, ResultOf(hops[k]).value)
  {
    hide NextRequest, ResultOf;
  }

  /** Every hop sends what the redirects before it made of the first request. */
  lemma {:induction false} HopRequests(usePool: bool, world: World, start: Request, hops: seq<Hop>, k: nat)
    requires ValidHops(usePool, world, start, hops) && k < |hops|
    ensures Answered(hops[..k])
    ensures hops[k].request == Along(start, Responses(hops[..k]))
  {
    hide NextRequest, ValidHop, ResultOf, Follows;
    if k == 0 {
      assert hops[..0] == [];
    } else {
      HopRequests(usePool, world, start, hops, k - 1);
      assert Follows(hops, k);
      FollowsMeans(hops, k - 1);
      ResponsesMore(hops, k - 1);
      AlongMore(start, Responses(hops[..k - 1]), ResultOf(hops[k - 1]).value);
    }
  }

  /** The request of a hop: GET without a body behind any 301, 302 or 303; and at the origin
      of the first URL as long as no Location named another host. */
  lemma HopMeans(usePool: bool, world: World, start: Request, hops: seq<Hop>, k: nat)
    requires ValidHops(usePool, world, start, hops) && k < |hops|
    ensures Answered(hops[..k])
    ensures var chain := Responses(hops[..k]); var q := hops[k].request;
            && (ChangesToGet(chain) ==> q.method_ == "GET" && q.body == "")
            && (!ChangesToGet(chain) ==> q.method_ == start.method_ && q.body == start.body)
            && (UrlParse.ParseUrl(start.url).Some?
                && (forall i :: 0 <= i < k ==> UrlParse.StaysOnHost(chain[i].location)) ==>
                  && UrlParse.ParseUrl(q.url).Some?
                  && var from, there := UrlParse.ParseUrl(start.url).value, UrlParse.ParseUrl(q.url).value;
                     there == from.(path := there.path))
  {
    hide *;
    HopRequests(usePool, world, start, hops, k);
    var chain := Responses(hops[..k]);
    MethodAlong(start, chain);
    if UrlParse.ParseUrl(start.url).Some? && forall i :: 0 <= i < k ==> UrlParse.StaysOnHost(chain[i].location) {
      OriginAlong(start, chain);
    }
  }
}
