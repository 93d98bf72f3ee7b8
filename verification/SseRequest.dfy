/** The attempt loop of requestSseAsync in src/http_client.cpp, around one exchange. */
module SseRequest {
  import opened Redirects
  import opened RequestLoop
  import R = RequestRuns
  import X = SseExchange

  /** An exchange as the loop sees it: over, with a connection that can or cannot be used
      again, or an exception. */
  function OutcomeOf(net: X.Network, end: X.End): Outcome {
    match end
    case Ended(reusable) => Responded(Response(if net.head.Head? then net.head.status else 0, reusable, ""))
    case Threw(e) => if e.SystemError? then SystemError(e.retryable) else OtherError
  }

  function Chunks(onChunk: X.Callback, net: X.Network): seq<string> {
    X.Exchange(onChunk, net).1
  }

  /** What an attempt gets from the pool, or by connecting. */
  datatype Connection = Unavailable | New | Idle

  function AttemptAt(usePool: bool, onChunk: X.Callback, conns: seq<Connection>, nets: seq<X.Network>, k: nat): Attempt
    requires k < |nets| <= |conns|
  {
    if conns[k].Unavailable? then Failed
    else Try(k, usePool && conns[k].Idle?, OutcomeOf(nets[k], X.Exchange(onChunk, nets[k]).0))
  }

  /** Attempt k meets connection and network k. */
  ghost predicate Meets(usePool: bool, onChunk: X.Callback, conns: seq<Connection>, nets: seq<X.Network>,
                        attempts: seq<Attempt>, k: nat)
    requires k < |attempts| <= |nets| <= |conns|
  {
    attempts[k] == AttemptAt(usePool, onChunk, conns, nets, k)
  }

  /** A reused connection was closed, and onChunk has seen nothing yet. */
  ghost predicate InVain(onChunk: X.Callback, nets: seq<X.Network>, attempts: seq<Attempt>, k: nat)
    requires k < |attempts| <= |nets|
  {
    Stale(attempts[k]) && Chunks(onChunk, nets[k]) == []
  }

  ghost predicate ValidAttempts(usePool: bool, q: Request, onChunk: X.Callback, conns: seq<Connection>,
                                nets: seq<X.Network>, attempts: seq<Attempt>) {
    && |attempts| <= MaxAttempts(usePool) == |nets| == |conns|
    && (attempts == [] <==> UrlParse.ParseUrl(q.url).None?)
    && (forall k :: 0 <= k < |attempts| ==> Meets(usePool, onChunk, conns, nets, attempts, k))
    && (forall k :: 0 <= k < |attempts| - 1 ==> InVain(onChunk, nets, attempts, k))
    && (attempts != [] && InVain(onChunk, nets, attempts, |attempts| - 1) ==> |attempts| == MaxAttempts(usePool))
  }

  /** What onChunk got: the chunks of the last attempt, if that had a connection. */
  function Delivered(onChunk: X.Callback, nets: seq<X.Network>, attempts: seq<Attempt>): seq<string>
    requires |attempts| <= |nets|
  {
    if attempts == [] || Last(attempts).Failed? then [] else Chunks(onChunk, nets[|attempts| - 1])
  }

  /** The attempts so far. */
  ghost predicate AllInVain(usePool: bool, onChunk: X.Callback, conns: seq<Connection>, nets: seq<X.Network>,
                            attempts: seq<Attempt>) {
    && |attempts| < MaxAttempts(usePool) == |nets| == |conns|
    && (forall k :: 0 <= k < |attempts| ==>
          Meets(usePool, onChunk, conns, nets, attempts, k) && InVain(onChunk, nets, attempts, k))
  }

  lemma InVainMore(usePool: bool, onChunk: X.Callback, conns: seq<Connection>, nets: seq<X.Network>, done: seq<Attempt>,
                   a: Attempt)
    requires AllInVain(usePool, onChunk, conns, nets, done)
    ensures |done + [a]| <= |nets|
    ensures forall k :: 0 <= k < |done| ==>
              Meets(usePool, onChunk, conns, nets, done + [a], k) && InVain(onChunk, nets, done + [a], k)
  {
    hide X.Exchange, Stale, Chunks;
    var all := done + [a];
    forall k | 0 <= k < |done| ensures Meets(usePool, onChunk, conns, nets, all, k) && InVain(onChunk, nets, all, k) {
      assert all[k] == done[k];
      assert Meets(usePool, onChunk, conns, nets, done, k) && InVain(onChunk, nets, done, k);
    }
  }

  lemma Another(usePool: bool, onChunk: X.Callback, conns: seq<Connection>, nets: seq<X.Network>, done: seq<Attempt>,
                a: Attempt)
    requires AllInVain(usePool, onChunk, conns, nets, done) && |done| + 1 < MaxAttempts(usePool)
    requires a == AttemptAt(usePool, onChunk, conns, nets, |done|)
    requires Stale(a) && Chunks(onChunk, nets[|done|]) == []
    ensures AllInVain(usePool, onChunk, conns, nets, done + [a])
  {
    hide X.Exchange, Stale, Chunks, OutcomeOf;
    InVainMore(usePool, onChunk, conns, nets, done, a);
    var all := done + [a];
    assert all[|done|] == a;
    assert Meets(usePool, onChunk, conns, nets, all, |done|) && InVain(onChunk, nets, all, |done|);
  }

  lemma Final(usePool: bool, q: Request, onChunk: X.Callback, conns: seq<Connection>, nets: seq<X.Network>,
              done: seq<Attempt>, a: Attempt)
    requires AllInVain(usePool, onChunk, conns, nets, done) && UrlParse.ParseUrl(q.url).Some?
    requires a == AttemptAt(usePool, onChunk, conns, nets, |done|)
    requires Stale(a) && Chunks(onChunk, nets[|done|]) == [] ==> |done| + 1 == MaxAttempts(usePool)
    ensures ValidAttempts(usePool, q, onChunk, conns, nets, done + [a])
    ensures Delivered(onChunk, nets, done + [a]) == if a.Try? then Chunks(onChunk, nets[|done|]) else []
    ensures Last(done + [a]) == a
  {
    hide X.Exchange, Stale, Chunks, OutcomeOf, UrlParse.ParseUrl;
    InVainMore(usePool, onChunk, conns, nets, done, a);
    var all := done + [a];
    assert all[|done|] == a;
    assert Meets(usePool, onChunk, conns, nets, all, |done|);
  }

  lemma NoAttempt(usePool: bool, q: Request, onChunk: X.Callback, conns: seq<Connection>, nets: seq<X.Network>)
    requires |nets| == |conns| == MaxAttempts(usePool)
    ensures AllInVain(usePool, onChunk, conns, nets, []) && AttemptsLog(usePool, q, []) == []
    ensures Delivered(onChunk, nets, []) == []
    ensures UrlParse.ParseUrl(q.url).None? ==> ValidAttempts(usePool, q, onChunk, conns, nets, [])
  {
    hide UrlParse.ParseUrl;
  }

  lemma OutcomeIs(net: X.Network, end: X.End)
    ensures end.Ended? ==> OutcomeOf(net, end).Responded? && Reusable(OutcomeOf(net, end)) == end.reusable
    ensures end.Threw? ==> !OutcomeOf(net, end).Responded? && !Reusable(OutcomeOf(net, end))
    ensures OutcomeOf(net, end) == SystemError(true) <==> end == X.Threw(X.SystemError(true))
    ensures end.Threw? && end.error.SystemError? ==> OutcomeOf(net, end) == SystemError(end.error.retryable)
  {
  }

  lemma AttemptIs(usePool: bool, onChunk: X.Callback, conns: seq<Connection>, nets: seq<X.Network>, k: nat)
    requires k < |nets| <= |conns|
    ensures AttemptAt(usePool, onChunk, conns, nets, k) ==
            if conns[k].Unavailable? then Failed
            else Try(k, usePool && conns[k].Idle?, OutcomeOf(nets[k], X.Exchange(onChunk, nets[k]).0))
  {
    hide X.Exchange, OutcomeOf;
  }

  lemma ChunksAre(onChunk: X.Callback, net: X.Network)
    ensures Chunks(onChunk, net) == X.Exchange(onChunk, net).1
  {
  }

  /** What comes of some attempts. */
  ghost predicate RunOf(usePool: bool, q: Request, onChunk: X.Callback, conns: seq<Connection>, nets: seq<X.Network>,
                        finished: bool, chunks: seq<string>, log: seq<Event>, attempts: seq<Attempt>) {
    && ValidAttempts(usePool, q, onChunk, conns, nets, attempts)
    && log == AttemptsLog(usePool, q, attempts)
    && chunks == Delivered(onChunk, nets, attempts)
    && (finished <==> attempts != [] && Last(attempts).Try? && Last(attempts).outcome.Responded?)
  }

  /** How requestSseAsync can end, what onChunk got, and what happened on the way. */
  ghost predicate IsRun(usePool: bool, q: Request, onChunk: X.Callback, conns: seq<Connection>, nets: seq<X.Network>,
                        finished: bool, chunks: seq<string>, log: seq<Event>) {
    exists attempts :: RunOf(usePool, q, onChunk, conns, nets, finished, chunks, log, attempts)
  }

  lemma RunIs(usePool: bool, q: Request, onChunk: X.Callback, conns: seq<Connection>, nets: seq<X.Network>,
              finished: bool, chunks: seq<string>, log: seq<Event>, attempts: seq<Attempt>)
    requires ValidAttempts(usePool, q, onChunk, conns, nets, attempts) && |attempts| <= |nets|
    requires log == AttemptsLog(usePool, q, attempts) && chunks == Delivered(onChunk, nets, attempts)
    requires finished <==> attempts != [] && Last(attempts).Try? && Last(attempts).outcome.Responded?
    ensures IsRun(usePool, q, onChunk, conns, nets, finished, chunks, log)
  {
    hide ValidAttempts, AttemptsLog, Delivered;
    assert RunOf(usePool, q, onChunk, conns, nets, finished, chunks, log, attempts);
  }

  /** requestSseAsync. Each attempt meets one of the given networks; true when it ends without
      an exception. */
  method RequestSse(usePool: bool, q: Request, onChunk: X.Callback, conns: seq<Connection>, nets: seq<X.Network>)
    returns (finished: bool, chunks: seq<string>, log: seq<Event>)
    requires |nets| == |conns| == MaxAttempts(usePool)
    ensures IsRun(usePool, q, onChunk, conns, nets, finished, chunks, log)
  {
    hide *;
    finished, chunks, log := false, [], [];
    ghost var attempts: seq<Attempt> := [];
    NoAttempt(usePool, q, onChunk, conns, nets);
    MaxAttemptsIs(usePool);
    if UrlParse.ParseUrl(q.url).None? {
      RunIs(usePool, q, onChunk, conns, nets, finished, chunks, log, attempts);
      return;
    }
    var maxAttempts := if usePool then 2 else 1;
    var attempt := 0;
    while attempt < maxAttempts
      invariant attempt == |attempts| < maxAttempts
      invariant !finished && chunks == []
      invariant AllInVain(usePool, onChunk, conns, nets, attempts)
      invariant log == AttemptsLog(usePool, q, attempts)
      decreases maxAttempts - attempt
    {
      // acquire, or createConnection: it may throw
      var conn := conns[attempt];
      AttemptIs(usePool, onChunk, conns, nets, attempt);
      if conn.Unavailable? {
        LogOfTry(log, usePool, q, 0, false, OtherError);
        AttemptsLogMore(usePool, q, attempts, Failed);
        Final(usePool, q, onChunk, conns, nets, attempts, Failed);
        log := log + [NoConnection];
        attempts := attempts + [Failed];
        RunIs(usePool, q, onChunk, conns, nets, finished, chunks, log, attempts);
        return;
      }
      var lease := attempt;
      var reused := usePool && conn.Idle?;
      var end, delivered, anyDelivered := X.DoSseExchange(onChunk, nets[attempt]);
      var outcome := OutcomeOf(nets[attempt], end);
      ghost var a := Try(lease, reused, outcome);
      OutcomeIs(nets[attempt], end);
      ChunksAre(onChunk, nets[attempt]);
      LogOfTry(log, usePool, q, lease, reused, outcome);
      AttemptsLogMore(usePool, q, attempts, a);
      log := log + [if usePool then Acquired(lease) else Created(lease)];
      log := log + [Exchanged(lease, reused, q, outcome)];
      if end.Threw? && end.error.SystemError? && reused && attempt + 1 < maxAttempts && !anyDelivered
          && end.error.retryable {
        log := log + [Released(lease, false)];
        Another(usePool, onChunk, conns, nets, attempts, a);
        attempts := attempts + [a];
        attempt := attempt + 1;
        continue;
      }
      Final(usePool, q, onChunk, conns, nets, attempts, a);
      attempts := attempts + [a];
      chunks := delivered;
      if end.Threw? {
        if usePool {
          log := log + [Released(lease, false)];
        }
        RunIs(usePool, q, onChunk, conns, nets, finished, chunks, log, attempts);
        return;
      }
      if usePool {
        log := log + [Released(lease, usePool && end.reusable)];
      }
      finished := true;
      RunIs(usePool, q, onChunk, conns, nets, finished, chunks, log, attempts);
      return;
    }
  }

  // ---------------------------------------------------------------------------
  // What holds of every run
  // ---------------------------------------------------------------------------

  lemma ValidIsNumbered(usePool: bool, q: Request, onChunk: X.Callback, conns: seq<Connection>, nets: seq<X.Network>,
                        attempts: seq<Attempt>)
    requires ValidAttempts(usePool, q, onChunk, conns, nets, attempts)
    ensures R.Numbered(attempts, 0)
  {
    hide X.Exchange, UrlParse.ParseUrl, Chunks, OutcomeOf;
    forall k | 0 <= k < |attempts| && attempts[k].Try? ensures attempts[k].lease == 0 + k {
      assert Meets(usePool, onChunk, conns, nets, attempts, k);
    }
    forall k | 0 <= k < |attempts| - 1 ensures attempts[k].Try? {
      assert InVain(onChunk, nets, attempts, k);
    }
  }

  /** With the pool, every connection acquired is released exactly once, and none is held
      at the end. */
  lemma ReleasedExactlyOnce(q: Request, onChunk: X.Callback, conns: seq<Connection>, nets: seq<X.Network>,
                            finished: bool, chunks: seq<string>, log: seq<Event>)
    requires IsRun(true, q, onChunk, conns, nets, finished, chunks, log)
    ensures R.PlayAll(R.Nothing, log) == R.Nothing
    ensures forall l: nat :: R.Acquisitions(log, l) == R.Releases(log, l) <= 1
  {
    hide ValidAttempts, AttemptsLog, Delivered, R.PlayAll, R.Acquisitions, R.Releases, R.Numbered;
    var attempts :| RunOf(true, q, onChunk, conns, nets, finished, chunks, log, attempts);
    ValidIsNumbered(true, q, onChunk, conns, nets, attempts);
    R.AttemptsBalanced(q, attempts, 0, 0);
    forall l: nat ensures R.Acquisitions(log, l) == R.Releases(log, l) <= 1 {
      R.AttemptsBalanced(q, attempts, 0, l);
    }
  }

  /** The network that the chunks came from: all networks before it gave a closed connection
      and no chunk. */
  ghost predicate CameFrom(onChunk: X.Callback, nets: seq<X.Network>, chunks: seq<string>, k: nat) {
    && k < |nets| && X.Streams(nets[k])
    && chunks == X.Exchange(onChunk, nets[k]).1
    && (forall j :: 0 <= j < k ==> X.Exchange(onChunk, nets[j]) == (X.Threw(X.SystemError(true)), []))
  }

  /** Everything that onChunk gets comes from one attempt, in the order in which it arrived
      and without gaps; it is not called again once it has said to stop. A second attempt
      is made only if the first one used an idle connection that turned out to be closed,
      and handed nothing on. */
  lemma DeliveredOnce(usePool: bool, q: Request, onChunk: X.Callback, conns: seq<Connection>, nets: seq<X.Network>,
                      finished: bool, chunks: seq<string>, log: seq<Event>)
    requires IsRun(usePool, q, onChunk, conns, nets, finished, chunks, log)
    ensures X.Polite(onChunk, chunks, 0)
    ensures chunks != [] ==>
              exists k: nat, n: nat :: CameFrom(onChunk, nets, chunks, k) && X.IsFirstPart(chunks, nets[k], n)
  {
    hide *;
    var attempts := AttemptsOf(usePool, q, onChunk, conns, nets, finished, chunks, log);
    DeliveredIs(usePool, q, onChunk, conns, nets, attempts);
    if chunks != [] {
      var k: nat := |attempts| - 1;
      forall j: nat | j < k ensures X.Exchange(onChunk, nets[j]) == (X.Threw(X.SystemError(true)), []) {
        VainMeans(usePool, q, onChunk, conns, nets, attempts, j);
      }
      var n := X.ExchangeDelivers(onChunk, nets[k]);
      FromIs(onChunk, nets, chunks, k);
    }
  }

  lemma FromIs(onChunk: X.Callback, nets: seq<X.Network>, chunks: seq<string>, k: nat)
    requires k < |nets| && X.Streams(nets[k]) && chunks == X.Exchange(onChunk, nets[k]).1
    requires forall j: nat :: j < k ==> X.Exchange(onChunk, nets[j]) == (X.Threw(X.SystemError(true)), [])
    ensures CameFrom(onChunk, nets, chunks, k)
  {
    hide X.Exchange, X.Streams;
  }

  lemma AttemptsOf(usePool: bool, q: Request, onChunk: X.Callback, conns: seq<Connection>, nets: seq<X.Network>,
                   finished: bool, chunks: seq<string>, log: seq<Event>) returns (attempts: seq<Attempt>)
    requires IsRun(usePool, q, onChunk, conns, nets, finished, chunks, log)
    ensures ValidAttempts(usePool, q, onChunk, conns, nets, attempts) && |attempts| <= |nets|
    ensures log == AttemptsLog(usePool, q, attempts) && chunks == Delivered(onChunk, nets, attempts)
    ensures finished <==> attempts != [] && Last(attempts).Try? && Last(attempts).outcome.Responded?
  {
    hide ValidAttempts, AttemptsLog, Delivered;
    attempts :| RunOf(usePool, q, onChunk, conns, nets, finished, chunks, log, attempts);
    AtMost(usePool, q, onChunk, conns, nets, attempts);
  }

  lemma AtMost(usePool: bool, q: Request, onChunk: X.Callback, conns: seq<Connection>, nets: seq<X.Network>,
               attempts: seq<Attempt>)
    requires ValidAttempts(usePool, q, onChunk, conns, nets, attempts)
    ensures |attempts| <= |nets|
  {
    hide Meets, InVain, UrlParse.ParseUrl;
  }

  lemma VainMeans(usePool: bool, q: Request, onChunk: X.Callback, conns: seq<Connection>, nets: seq<X.Network>,
                  attempts: seq<Attempt>, k: nat)
    requires ValidAttempts(usePool, q, onChunk, conns, nets, attempts) && k < |attempts| - 1
    ensures attempts[k].Try? && attempts[k].reused && attempts[k].outcome == SystemError(true)
    ensures X.Exchange(onChunk, nets[k]) == (X.Threw(X.SystemError(true)), [])
  {
    hide X.Exchange, UrlParse.ParseUrl;
    assert Meets(usePool, onChunk, conns, nets, attempts, k) && InVain(onChunk, nets, attempts, k);
    OutcomeIs(nets[k], X.Exchange(onChunk, nets[k]).0);
  }

  lemma DeliveredIs(usePool: bool, q: Request, onChunk: X.Callback, conns: seq<Connection>, nets: seq<X.Network>,
                    attempts: seq<Attempt>)
    requires ValidAttempts(usePool, q, onChunk, conns, nets, attempts)
    ensures |attempts| <= |nets|
    ensures var chunks := Delivered(onChunk, nets, attempts);
            chunks == [] || (attempts != [] && chunks == X.Exchange(onChunk, nets[|attempts| - 1]).1)
    ensures X.Polite(onChunk, [], 0)
  {
    hide X.Exchange, UrlParse.ParseUrl;
  }

  /** A request ends well only when the whole message was handed on, or onChunk stopped it. */
  lemma FinishedMeans(usePool: bool, q: Request, onChunk: X.Callback, conns: seq<Connection>, nets: seq<X.Network>,
                      chunks: seq<string>, log: seq<Event>)
    requires IsRun(usePool, q, onChunk, conns, nets, true, chunks, log)
    ensures exists k: nat, n: nat :: CameFrom(onChunk, nets, chunks, k) && X.IsFirstPart(chunks, nets[k], n)
              && ((chunks != [] && onChunk(chunks) == X.Stop) || X.IsWhole(chunks, nets[k], n))
  {
    hide *;
    var attempts := AttemptsOf(usePool, q, onChunk, conns, nets, true, chunks, log);
    var k: nat := |attempts| - 1;
    forall j: nat | j < k ensures X.Exchange(onChunk, nets[j]) == (X.Threw(X.SystemError(true)), []) {
      VainMeans(usePool, q, onChunk, conns, nets, attempts, j);
    }
    LastMeans(usePool, q, onChunk, conns, nets, attempts);
    var n := X.ExchangeDelivers(onChunk, nets[k]);
    FromIs(onChunk, nets, chunks, k);
  }

  lemma LastMeans(usePool: bool, q: Request, onChunk: X.Callback, conns: seq<Connection>, nets: seq<X.Network>,
                  attempts: seq<Attempt>)
    requires ValidAttempts(usePool, q, onChunk, conns, nets, attempts) && |attempts| <= |nets|
    requires attempts != [] && Last(attempts).Try? && Last(attempts).outcome.Responded?
    ensures var k := |attempts| - 1;
            && X.Exchange(onChunk, nets[k]).0.Ended?
            && Delivered(onChunk, nets, attempts) == X.Exchange(onChunk, nets[k]).1
  {
    hide X.Exchange, UrlParse.ParseUrl;
    assert Meets(usePool, onChunk, conns, nets, attempts, |attempts| - 1);
    OutcomeIs(nets[|attempts| - 1], X.Exchange(onChunk, nets[|attempts| - 1]).0);
  }

  /** An idle connection that the other side had closed, so that nothing was handed on. */
  predicate Vain(onChunk: X.Callback, conn: Connection, net: X.Network) {
    conn.Idle? && X.Exchange(onChunk, net) == (X.Threw(X.SystemError(true)), [])
  }

  /** How a request ends, told by what its attempts meet: the exchange of the first one counts,
      unless that went over an idle connection in vain; then the exchange of the second one
      counts. */
  lemma RequestMeans(usePool: bool, q: Request, onChunk: X.Callback, conns: seq<Connection>, nets: seq<X.Network>,
                     finished: bool, chunks: seq<string>, log: seq<Event>)
    requires IsRun(usePool, q, onChunk, conns, nets, finished, chunks, log)
    ensures 0 < |nets| == |conns| && (usePool ==> |nets| == 2)
    ensures var ex := R.Exchanges(log);
            && (UrlParse.ParseUrl(q.url).None? ==> !finished && chunks == [] && ex == [])
            && (UrlParse.ParseUrl(q.url).Some? ==>
                  && (conns[0].Unavailable? ==> !finished && chunks == [] && ex == [])
                  && (!conns[0].Unavailable? && !(usePool && Vain(onChunk, conns[0], nets[0])) ==>
                        && chunks == X.Exchange(onChunk, nets[0]).1
                        && (finished <==> X.Exchange(onChunk, nets[0]).0.Ended?) && |ex| == 1)
                  && (usePool && Vain(onChunk, conns[0], nets[0]) ==>
                        if conns[1].Unavailable? then !finished && chunks == [] && |ex| == 1
                        else
                          && chunks == X.Exchange(onChunk, nets[1]).1
                          && (finished <==> X.Exchange(onChunk, nets[1]).0.Ended?) && |ex| == 2))
            && (forall k :: 0 <= k < |ex| ==> ex[k].Exchanged? && ex[k].lease == k && ex[k].request == q)
  {
    hide *;
    var attempts := AttemptsOf(usePool, q, onChunk, conns, nets, finished, chunks, log);
    AttemptsMean(usePool, q, onChunk, conns, nets, attempts);
    StaleAttempts(usePool, q, onChunk, conns, nets, attempts);
    R.AttemptsExchanges(usePool, q, attempts);
    ExchangesOfFew(usePool, q, onChunk, conns, nets, attempts);
  }

  lemma StaleAttempts(usePool: bool, q: Request, onChunk: X.Callback, conns: seq<Connection>, nets: seq<X.Network>,
                      attempts: seq<Attempt>)
    requires ValidAttempts(usePool, q, onChunk, conns, nets, attempts)
    ensures forall k :: 0 <= k < |attempts| - 1 ==> Stale(attempts[k])
  {
    hide X.Exchange, UrlParse.ParseUrl, Stale, Chunks, AttemptAt;
    forall k | 0 <= k < |attempts| - 1 ensures Stale(attempts[k]) {
      assert InVain(onChunk, nets, attempts, k);
    }
  }

  lemma ExchangesOfFew(usePool: bool, q: Request, onChunk: X.Callback, conns: seq<Connection>, nets: seq<X.Network>,
                       attempts: seq<Attempt>)
    requires ValidAttempts(usePool, q, onChunk, conns, nets, attempts)
    ensures |attempts| <= 2 && |attempts| <= |nets| <= |conns|
    ensures attempts != [] ==> Last(attempts) == attempts[|attempts| - 1]
    ensures forall k :: 0 <= k < |attempts| && attempts[k].Try? ==> attempts[k].lease == k
  {
    hide X.Exchange, UrlParse.ParseUrl, OutcomeOf, Chunks;
    forall k | 0 <= k < |attempts| ensures attempts[k] == AttemptAt(usePool, onChunk, conns, nets, k) {
      assert Meets(usePool, onChunk, conns, nets, attempts, k);
    }
  }

  lemma AttemptsMean(usePool: bool, q: Request, onChunk: X.Callback, conns: seq<Connection>, nets: seq<X.Network>,
                     attempts: seq<Attempt>)
    requires ValidAttempts(usePool, q, onChunk, conns, nets, attempts)
    ensures 0 < |nets| == |conns| == MaxAttempts(usePool) && |attempts| <= |nets| && (usePool ==> |nets| == 2)
    ensures var chunks := Delivered(onChunk, nets, attempts);
            var finished := attempts != [] && Last(attempts).Try? && Last(attempts).outcome.Responded?;
            && (UrlParse.ParseUrl(q.url).None? ==> !finished && chunks == [] && attempts == [])
            && (UrlParse.ParseUrl(q.url).Some? ==>
                  && (conns[0].Unavailable? ==> !finished && chunks == [] && attempts == [Failed])
                  && (!conns[0].Unavailable? && !(usePool && Vain(onChunk, conns[0], nets[0])) ==>
                        && chunks == X.Exchange(onChunk, nets[0]).1 && |attempts| == 1 && attempts[0].Try?
                        && (finished <==> X.Exchange(onChunk, nets[0]).0.Ended?))
                  && (usePool && Vain(onChunk, conns[0], nets[0]) ==>
                        && |attempts| == 2 && attempts[0].Try? && attempts[1].Try? == !conns[1].Unavailable?
                        && if conns[1].Unavailable? then !finished && chunks == []
                           else
                             && chunks == X.Exchange(onChunk, nets[1]).1
                             && (finished <==> X.Exchange(onChunk, nets[1]).0.Ended?)))
  {
    hide X.Exchange, UrlParse.ParseUrl, OutcomeOf;
    forall k | 0 <= k < |attempts|
      ensures attempts[k] == AttemptAt(usePool, onChunk, conns, nets, k)
      ensures InVain(onChunk, nets, attempts, k) <==> usePool && Vain(onChunk, conns[k], nets[k])
    {
      assert Meets(usePool, onChunk, conns, nets, attempts, k);
      OutcomeIs(nets[k], X.Exchange(onChunk, nets[k]).0);
      ChunksAre(onChunk, nets[k]);
    }
    if attempts != [] {
      var k := |attempts| - 1;
      assert attempts[k] == AttemptAt(usePool, onChunk, conns, nets, k);
      OutcomeIs(nets[k], X.Exchange(onChunk, nets[k]).0);
      ChunksAre(onChunk, nets[k]);
      if k == 1 { assert InVain(onChunk, nets, attempts, 0); }
    }
  }

  /** The pool may keep a connection exactly when its exchange read the whole message and the
      message allows it. */
  lemma ReleasedForReuse(usePool: bool, q: Request, onChunk: X.Callback, conns: seq<Connection>, nets: seq<X.Network>,
                         finished: bool, chunks: seq<string>, log: seq<Event>)
    requires IsRun(usePool, q, onChunk, conns, nets, finished, chunks, log)
    ensures forall e :: e in log && e.Released? ==>
              e.lease < |nets| && (e.reusable <==> X.Exchange(onChunk, nets[e.lease]).0 == X.Ended(true))
  {
    hide *;
    var attempts := AttemptsOf(usePool, q, onChunk, conns, nets, finished, chunks, log);
    ExchangesOfFew(usePool, q, onChunk, conns, nets, attempts);
    ReleasesOf(usePool, q, onChunk, conns, nets, attempts, attempts);
  }

  lemma {:induction false} ReleasesOf(usePool: bool, q: Request, onChunk: X.Callback, conns: seq<Connection>,
                                      nets: seq<X.Network>, all: seq<Attempt>, attempts: seq<Attempt>)
    requires ValidAttempts(usePool, q, onChunk, conns, nets, all) && |attempts| <= |all| <= |nets|
    requires attempts == all[..|attempts|]
    ensures forall e :: e in AttemptsLog(usePool, q, attempts) && e.Released? ==>
              e.lease < |nets| && (e.reusable <==> X.Exchange(onChunk, nets[e.lease]).0 == X.Ended(true))
    decreases |attempts|
  {
    hide X.Exchange, UrlParse.ParseUrl, OutcomeOf, InVain;
    if attempts == [] {
    } else {
      var n := |attempts| - 1;
      ReleasesOf(usePool, q, onChunk, conns, nets, all, attempts[..n]);
      assert attempts[n] == all[n];
      assert Meets(usePool, onChunk, conns, nets, all, n);
      OutcomeIs(nets[n], X.Exchange(onChunk, nets[n]).0);
    }
  }
}
