/** doSseExchange of src/http_client.cpp: send the request, read the head, then hand the body
    to onChunk as it arrives. */
module SseExchange {
  import opened Basics

  datatype Error = SystemError(retryable: bool) | RateLimited | OtherError

  /** What onChunk makes of a chunk: go on (false), stop (true), or an exception. It may
      depend on all chunks so far, the last one being the one in hand. */
  datatype Verdict = GoOn | Stop | Throws

  type Callback = seq<string> -> Verdict

  datatype Read = Piece(text: string, done: bool) | ReadFails(error: Error)

  datatype Head = NoHead(error: Error) | Head(status: nat, keepAlive: bool, text: string, done: bool)

  /** How the other side behaves. Behind the last read nothing more comes, and the next one
      times out. */
  datatype Network = Network(write: Option<Error>, head: Head, pieces: seq<Read>)

  datatype End = Ended(reusable: bool) | Threw(error: Error)

  // ---------------------------------------------------------------------------
  // What is handed on
  // ---------------------------------------------------------------------------

  /** The chunks handed on, from some text in the buffer on. */
  function Feed(onChunk: Callback, history: seq<string>, text: string, done: bool, keepAlive: bool, pieces: seq<Read>)
    : (End, seq<string>)
    decreases |pieces|
  {
    var h := if text == "" then history else history + [text];
    var verdict := if text == "" then GoOn else onChunk(h);
    match verdict
    case Throws => (Threw(OtherError), h)
    case Stop => (Ended(done && keepAlive), h)
    case GoOn =>
      if done then (Ended(keepAlive), h)
      else if pieces == [] then (Threw(OtherError), h)
      else
        match pieces[0]
        case ReadFails(e) => (Threw(e), h)
        case Piece(t, d) => Feed(onChunk, h, t, d, keepAlive, pieces[1..])
  }

  /** The error behind an error status, whose body is read to its end first. */
  function ErrorBody(error: Error, done: bool, pieces: seq<Read>): Error
    decreases |pieces|
  {
    if done then error
    else if pieces == [] then OtherError
    else
      match pieces[0]
      case ReadFails(e) => e
      case Piece(_, d) => ErrorBody(error, d, pieces[1..])
  }

  function Exchange(onChunk: Callback, net: Network): (End, seq<string>) {
    match net.write
    case Some(e) => (Threw(e), [])
    case None =>
      match net.head
      case NoHead(e) => (Threw(e), [])
      case Head(status, keepAlive, text, done) =>
        if status == 429 then (Threw(ErrorBody(RateLimited, done, net.pieces)), [])
        else if status / 100 != 2 then (Threw(ErrorBody(OtherError, done, net.pieces)), [])
        else Feed(onChunk, [], text, done, keepAlive, net.pieces)
  }

  // ---------------------------------------------------------------------------
  // The code
  // ---------------------------------------------------------------------------

  /** flushBody: hands on what is in the buffer behind the processed part, and empties it. */
  method FlushBody(onChunk: Callback, history: seq<string>, body: string, processed: nat)
    returns (verdict: Verdict, chunks: seq<string>, left: string, start: nat)
    ensures left == "" && start == 0
    ensures if |body| > processed then chunks == history + [body[processed..]] && verdict == onChunk(chunks)
            else chunks == history && verdict == GoOn
  {
    verdict, chunks := GoOn, history;
    if |body| > processed {
      chunks := history + [body[processed..]];
      verdict := onChunk(chunks);
      if verdict == Throws {
        return Throws, chunks, "", 0;
      }
    }
    left, start := "", 0;
  }

  /** Reads the body of an error response, and throws. */
  method ReadErrorBody(error: Error, done: bool, pieces: seq<Read>) returns (thrown: Error)
    ensures thrown == ErrorBody(error, done, pieces)
  {
    var isDone, i := done, 0;
    while !isDone
      invariant i <= |pieces|
      invariant ErrorBody(error, isDone, pieces[i..]) == ErrorBody(error, done, pieces)
      decreases |pieces| - i, if isDone then 0 else 1
    {
      if i == |pieces| {
        return OtherError;
      }
      match pieces[i]
      case ReadFails(e) =>
        return e;
      case Piece(_, d) =>
        isDone := d;
        assert pieces[i..][1..] == pieces[i + 1..];
        i := i + 1;
    }
    return error;
  }

  /** What the loop has to show for a piece: the rest of the reads goes on from here. */
  ghost predicate OnTrack(onChunk: Callback, net: Network, chunks: seq<string>, text: string, done: bool, i: nat) {
    && i <= |net.pieces| && net.head.Head?
    && Feed(onChunk, chunks, text, done, net.head.keepAlive, net.pieces[i..]) == Exchange(onChunk, net)
  }

  /** The piece in the buffer was handed on, or there was none, and the loop goes on. */
  ghost predicate Flushed(onChunk: Callback, net: Network, chunks: seq<string>, done: bool, i: nat) {
    && i <= |net.pieces| && net.head.Head?
    && Exchange(onChunk, net) ==
         if done then (Ended(net.head.keepAlive), chunks)
         else if i == |net.pieces| then (Threw(OtherError), chunks)
         else match net.pieces[i]
              case ReadFails(e) => (Threw(e), chunks)
              case Piece(t, d) => Feed(onChunk, chunks, t, d, net.head.keepAlive, net.pieces[i + 1..])
  }

  lemma FlushOne(onChunk: Callback, net: Network, before: seq<string>, text: string, done: bool, i: nat)
    requires OnTrack(onChunk, net, before, text, done, i)
    ensures var chunks := if text == "" then before else before + [text];
            var verdict := if text == "" then GoOn else onChunk(chunks);
            match verdict
            case GoOn => Flushed(onChunk, net, chunks, done, i)
            case Stop => Exchange(onChunk, net) == (Ended(done && net.head.keepAlive), chunks)
            case Throws => Exchange(onChunk, net) == (Threw(OtherError), chunks)
  {
    hide Exchange;
    var rest := net.pieces[i..];
    if rest != [] {
      assert rest[0] == net.pieces[i] && rest[1..] == net.pieces[i + 1..];
    }
  }

  lemma ReadOne(onChunk: Callback, net: Network, chunks: seq<string>, i: nat)
    requires Flushed(onChunk, net, chunks, false, i)
    ensures i <= |net.pieces|
    ensures i == |net.pieces| ==> Exchange(onChunk, net) == (Threw(OtherError), chunks)
    ensures i < |net.pieces| && net.pieces[i].ReadFails? ==>
            Exchange(onChunk, net) == (Threw(net.pieces[i].error), chunks)
    ensures i < |net.pieces| && net.pieces[i].Piece? ==>
              OnTrack(onChunk, net, chunks, net.pieces[i].text, net.pieces[i].done, i + 1)
  {
    hide Exchange, Feed;
  }

  lemma AtEnd(onChunk: Callback, net: Network, chunks: seq<string>, i: nat)
    requires Flushed(onChunk, net, chunks, true, i)
    ensures net.head.Head? && Exchange(onChunk, net) == (Ended(net.head.keepAlive), chunks)
  {
    hide Exchange, Feed;
  }

  lemma StartTrack(onChunk: Callback, net: Network)
    requires net.write.None? && net.head.Head? && net.head.status / 100 == 2
    ensures OnTrack(onChunk, net, [], net.head.text, net.head.done, 0)
  {
    hide Feed;
    assert net.pieces[0..] == net.pieces;
  }

  lemma EarlyEnd(onChunk: Callback, net: Network)
    ensures net.write.Some? ==> Exchange(onChunk, net) == (Threw(net.write.value), [])
    ensures net.write.None? && net.head.NoHead? ==> Exchange(onChunk, net) == (Threw(net.head.error), [])
    ensures net.write.None? && net.head.Head? && net.head.status / 100 != 2 ==>
              Exchange(onChunk, net) ==
              (Threw(ErrorBody(if net.head.status == 429 then RateLimited else OtherError,
                               net.head.done, net.pieces)), [])
  {
    hide Feed, ErrorBody;
  }

  method DoSseExchange(onChunk: Callback, net: Network) returns (end: End, chunks: seq<string>, anyDelivered: bool)
    ensures (end, chunks) == Exchange(onChunk, net)
    ensures anyDelivered == (chunks != [])
  {
    hide *;
    chunks, anyDelivered := [], false;
    EarlyEnd(onChunk, net);
    if net.write.Some? {
      return Threw(net.write.value), [], false;
    }
    if net.head.NoHead? {
      return Threw(net.head.error), [], false;
    }
    if net.head.status == 429 {
      var e := ReadErrorBody(RateLimited, net.head.done, net.pieces);
      return Threw(e), [], false;
    }
    if net.head.status / 100 != 2 {
      var e := ReadErrorBody(OtherError, net.head.done, net.pieces);
      return Threw(e), [], false;
    }
    StartTrack(onChunk, net);
    var body, isDone, processed: nat := net.head.text, net.head.done, 0;
    var reusable := false;
    var i: nat := 0;
    var verdict;
    FlushOne(onChunk, net, chunks, body, isDone, i);
    assert body[0..] == body;
    verdict, chunks, body, processed := FlushBody(onChunk, chunks, body, processed);
    anyDelivered := chunks != [];
    if verdict == Throws {
      return Threw(OtherError), chunks, anyDelivered;
    }
    if verdict == Stop {
      if isDone { reusable := net.head.keepAlive; }
      return Ended(reusable), chunks, anyDelivered;
    }
    while !isDone
      invariant i <= |net.pieces| && body == "" && processed == 0 && verdict == GoOn && !reusable
      invariant Flushed(onChunk, net, chunks, isDone, i)
      invariant anyDelivered == (chunks != [])
      decreases |net.pieces| - i, if isDone then 0 else 1
    {
      ReadOne(onChunk, net, chunks, i);
      if i == |net.pieces| {
        return Threw(OtherError), chunks, anyDelivered;
      }
      if net.pieces[i].ReadFails? {
        return Threw(net.pieces[i].error), chunks, anyDelivered;
      }
      body, isDone := body + net.pieces[i].text, net.pieces[i].done;
      assert body == net.pieces[i].text && body[0..] == body;
      i := i + 1;
      FlushOne(onChunk, net, chunks, body, isDone, i);
      verdict, chunks, body, processed := FlushBody(onChunk, chunks, body, processed);
      anyDelivered := chunks != [];
      if verdict == Throws {
        return Threw(OtherError), chunks, anyDelivered;
      }
      if verdict == Stop {
        if isDone { reusable := net.head.keepAlive; }
        break;
      }
    }
    ghost var ending := Exchange(onChunk, net);
    if verdict == GoOn { AtEnd(onChunk, net, chunks, i); }
    if !reusable {
      verdict, chunks, body, processed := FlushBody(onChunk, chunks, body, processed);
      if isDone { reusable := net.head.keepAlive; }
    }
    return Ended(reusable), chunks, anyDelivered;
  }

  // ---------------------------------------------------------------------------
  // What onChunk sees
  // ---------------------------------------------------------------------------

  /** The first n reads, as text. */
  function Arrived(pieces: seq<Read>, n: nat): string
    requires n <= |pieces|
  {
    if n == 0 then ""
    else Arrived(pieces, n - 1) + match pieces[n - 1] case Piece(t, _) => t case _ => ""
  }

  /** All calls of onChunk but the last one said to go on, and none got an empty chunk. */
  ghost predicate Polite(onChunk: Callback, chunks: seq<string>, from: nat) {
    && (forall k :: from <= k < |chunks| ==> chunks[k] != "")
    && (forall k :: from < k < |chunks| ==> onChunk(chunks[..k]) == GoOn)
  }

  /** Has the message ended with what arrived? */
  predicate EndsAt(done: bool, pieces: seq<Read>, n: nat)
    requires n <= |pieces|
  {
    if n == 0 then done else pieces[n - 1].Piece? && pieces[n - 1].done
  }

  /** What was handed on is what arrived, in order: the text in the buffer and n pieces. The
      stream ended by itself only where the message ends, and only there can the connection
      be used again. */
  ghost predicate HandedOn(onChunk: Callback, history: seq<string>, text: string, done: bool, keepAlive: bool,
                           pieces: seq<Read>, r: (End, seq<string>), n: nat) {
    && n <= |pieces|
    && Concat(r.1) == Concat(history) + (text + Arrived(pieces, n))
    && |history| <= |r.1| && r.1[..|history|] == history
    && (r.0 == Ended(true) ==> keepAlive && EndsAt(done, pieces, n))
    && (r.0.Ended? && !EndsAt(done, pieces, n) ==> |history| < |r.1| && onChunk(r.1) == Stop)
  }

  lemma {:induction false} ArrivedShift(pieces: seq<Read>, n: nat)
    requires pieces != [] && n < |pieces|
    ensures Arrived(pieces, n + 1) == (match pieces[0] case Piece(t, _) => t case _ => "") + Arrived(pieces[1..], n)
    decreases n
  {
    if n > 0 { ArrivedShift(pieces, n - 1); }
  }

  /** One more piece in front. */
  lemma HandedMore(onChunk: Callback, history: seq<string>, text: string, keepAlive: bool,
                   pieces: seq<Read>, h: seq<string>, r: (End, seq<string>), n: nat)
    requires pieces != [] && pieces[0].Piece?
    requires h == (if text == "" then history else history + [text]) && (text != "" ==> onChunk(h) == GoOn)
    requires HandedOn(onChunk, h, pieces[0].text, pieces[0].done, keepAlive, pieces[1..], r, n)
    requires Polite(onChunk, r.1, |h|)
    ensures HandedOn(onChunk, history, text, false, keepAlive, pieces, r, n + 1)
    ensures Polite(onChunk, r.1, |history|)
  {
    hide Concat, Arrived, EndsAt, Polite;
    TextMore(history, text, pieces, n);
    EndsShift(pieces, n);
    PoliteMore(onChunk, history, text, h, r.1);
  }

  lemma TextMore(history: seq<string>, text: string, pieces: seq<Read>, n: nat)
    requires pieces != [] && pieces[0].Piece? && n < |pieces|
    ensures var h := if text == "" then history else history + [text];
            Concat(h) + (pieces[0].text + Arrived(pieces[1..], n)) == Concat(history) + (text + Arrived(pieces, n + 1))
  {
    ConcatMore(history, text);
    ArrivedShift(pieces, n);
    hide Concat, Arrived;
    JoinsFour(Concat(history), text, pieces[0].text, Arrived(pieces[1..], n));
    assert Concat(history) + "" == Concat(history);
  }

  lemma EndsShift(pieces: seq<Read>, n: nat)
    requires pieces != [] && pieces[0].Piece? && n < |pieces|
    ensures EndsAt(false, pieces, n + 1) == EndsAt(pieces[0].done, pieces[1..], n)
  {
  }

  lemma PoliteMore(onChunk: Callback, history: seq<string>, text: string, h: seq<string>, chunks: seq<string>)
    requires h == (if text == "" then history else history + [text]) && (text != "" ==> onChunk(h) == GoOn)
    requires |h| <= |chunks| && chunks[..|h|] == h && Polite(onChunk, chunks, |h|)
    ensures Polite(onChunk, chunks, |history|) && |history| <= |chunks| && chunks[..|history|] == history
  {
    if text != "" {
      assert chunks[|history|] == h[|history|] == text;
      assert chunks[..|history|] == h[..|history|];
    }
  }

  lemma {:induction false} FeedHandsOn(onChunk: Callback, history: seq<string>, text: string, done: bool,
                                       keepAlive: bool, pieces: seq<Read>) returns (n: nat)
    ensures var r := Feed(onChunk, history, text, done, keepAlive, pieces);
            && HandedOn(onChunk, history, text, done, keepAlive, pieces, r, n)
            && Polite(onChunk, r.1, |history|)
    decreases |pieces|
  {
    var h := if text == "" then history else history + [text];
    var verdict := if text == "" then GoOn else onChunk(h);
    if verdict == GoOn && !done && pieces != [] && pieces[0].Piece? {
      hide HandedOn, Polite;
      n := FeedHandsOn(onChunk, h, pieces[0].text, pieces[0].done, keepAlive, pieces[1..]);
      var r := Feed(onChunk, h, pieces[0].text, pieces[0].done, keepAlive, pieces[1..]);
      HandedMore(onChunk, history, text, keepAlive, pieces, h, r, n);
      n := n + 1;
    } else {
      n := 0;
      ConcatMore(history, text);
      assert text + "" == text && Concat(history) + "" == Concat(history);
    }
  }

  /** A response whose body is handed on. */
  predicate Streams(net: Network) {
    net.write.None? && net.head.Head? && net.head.status / 100 == 2
  }

  function Body(net: Network, n: nat): string
    requires net.head.Head? && n <= |net.pieces|
  {
    net.head.text + Arrived(net.pieces, n)
  }

  /** Some chunks are the first part of a body: what came with the head, and n pieces. */
  ghost predicate IsFirstPart(chunks: seq<string>, net: Network, n: nat) {
    net.head.Head? && n <= |net.pieces| && Concat(chunks) == Body(net, n)
  }

  /** They are all of it. */
  ghost predicate IsWhole(chunks: seq<string>, net: Network, n: nat) {
    IsFirstPart(chunks, net, n) && EndsAt(net.head.done, net.pieces, n)
  }

  /** In an exchange, onChunk gets the body as it arrived, in order and without gaps, and is
      not called again once it has said to stop; without a 2xx head it is not called. The
      connection can be used again only when the whole message was read. */
  lemma ExchangeDelivers(onChunk: Callback, net: Network) returns (n: nat)
    ensures Polite(onChunk, Exchange(onChunk, net).1, 0)
    ensures var r := Exchange(onChunk, net);
            if Streams(net) then
              && IsFirstPart(r.1, net, n)
              && (r.0 == Ended(true) ==> net.head.keepAlive && IsWhole(r.1, net, n))
              && (r.0.Ended? && !IsWhole(r.1, net, n) ==> r.1 != [] && onChunk(r.1) == Stop)
            else r.1 == [] && r.0.Threw?
  {
    n := 0;
    EarlyEnd(onChunk, net);
    if Streams(net) {
      StartTrack(onChunk, net);
      hide Exchange, Feed, Arrived, EndsAt;
      assert net.pieces[0..] == net.pieces;
      n := FeedHandsOn(onChunk, [], net.head.text, net.head.done, net.head.keepAlive, net.pieces);
      assert "" + (net.head.text + Arrived(net.pieces, n)) == Body(net, n);
    }
  }

  // ---------------------------------------------------------------------------
  // How an exchange ends
  // ---------------------------------------------------------------------------

  /** What came with the head and the first n reads, without the empty ones: a chunk each. */
  function Filled(text: string, pieces: seq<Read>, n: nat): seq<string>
    requires n <= |pieces|
  {
    if n == 0 then (if text == "" then [] else [text])
    else
      Filled(text, pieces, n - 1)
      + match pieces[n - 1] case Piece(t, _) => (if t == "" then [] else [t]) case _ => []
  }

  /** What came last. */
  function Latest(text: string, pieces: seq<Read>, n: nat): string
    requires n <= |pieces|
  {
    if n == 0 then text else match pieces[n - 1] case Piece(t, _) => t case _ => ""
  }

  /** n pieces were read, and each chunk was handed on as it came. The exchange ended there
      because onChunk stopped it or threw; or the message was over; or the next read failed, or
      brought nothing in time. */
  ghost predicate EndsRight(onChunk: Callback, history: seq<string>, text: string, done: bool, keepAlive: bool,
                            pieces: seq<Read>, r: (End, seq<string>), n: nat) {
    && n <= |pieces|
    && (forall k :: 0 <= k < n ==> pieces[k].Piece? && !EndsAt(done, pieces, k))
    && r.1 == history + Filled(text, pieces, n)
    && var verdict := if Latest(text, pieces, n) == "" then GoOn else onChunk(r.1);
       match verdict
       case Stop => r.0 == Ended(EndsAt(done, pieces, n) && keepAlive)
       case Throws => r.0 == Threw(OtherError)
       case GoOn =>
         if EndsAt(done, pieces, n) then r.0 == Ended(keepAlive)
         else if n == |pieces| then r.0 == Threw(OtherError)
         else pieces[n].ReadFails? && r.0 == Threw(pieces[n].error)
  }

  lemma {:induction false} FilledShift(text: string, pieces: seq<Read>, n: nat)
    requires pieces != [] && pieces[0].Piece? && n < |pieces|
    ensures Filled(text, pieces, n + 1) == (if text == "" then [] else [text]) + Filled(pieces[0].text, pieces[1..], n)
    ensures Latest(text, pieces, n + 1) == Latest(pieces[0].text, pieces[1..], n)
    decreases n
  {
    if n > 0 { FilledShift(text, pieces, n - 1); }
  }

  lemma EndsMore(onChunk: Callback, history: seq<string>, text: string, keepAlive: bool, pieces: seq<Read>,
                 h: seq<string>, r: (End, seq<string>), n: nat)
    requires pieces != [] && pieces[0].Piece? && h == (if text == "" then history else history + [text])
    requires EndsRight(onChunk, h, pieces[0].text, pieces[0].done, keepAlive, pieces[1..], r, n)
    ensures EndsRight(onChunk, history, text, false, keepAlive, pieces, r, n + 1)
  {
    FilledShift(text, pieces, n);
    EndsShift(pieces, n);
    forall k | 0 <= k < n + 1 ensures pieces[k].Piece? && !EndsAt(false, pieces, k) {
      if k > 0 {
        EndsShift(pieces, k - 1);
        assert pieces[k] == pieces[1..][k - 1];
      }
    }
    hide Filled, EndsAt, Latest;
    assert n < |pieces[1..]| ==> pieces[1..][n] == pieces[n + 1];
    EmptyInFront(Filled(pieces[0].text, pieces[1..], n));
    Joins(history, if text == "" then [] else [text], Filled(pieces[0].text, pieces[1..], n));
    EmptyInFront(history);
  }

  lemma {:induction false} FeedEnds(onChunk: Callback, history: seq<string>, text: string, done: bool, keepAlive: bool,
                                    pieces: seq<Read>) returns (n: nat)
    ensures EndsRight(onChunk, history, text, done, keepAlive, pieces,
                      Feed(onChunk, history, text, done, keepAlive, pieces), n)
    decreases |pieces|
  {
    var h := if text == "" then history else history + [text];
    var verdict := if text == "" then GoOn else onChunk(h);
    if verdict == GoOn && !done && pieces != [] && pieces[0].Piece? {
      hide EndsRight;
      n := FeedEnds(onChunk, h, pieces[0].text, pieces[0].done, keepAlive, pieces[1..]);
      EndsMore(onChunk, history, text, keepAlive, pieces, h,
               Feed(onChunk, h, pieces[0].text, pieces[0].done, keepAlive, pieces[1..]), n);
      n := n + 1;
    } else {
      n := 0;
      EmptyInFront(history);
    }
  }

  /** What an exchange behind a 2xx head hands on, and how it ends. */
  lemma ExchangeEnds(onChunk: Callback, net: Network) returns (n: nat)
    requires net.write.None? && net.head.Head? && 200 <= net.head.status <= 299
    ensures EndsRight(onChunk, [], net.head.text, net.head.done, net.head.keepAlive, net.pieces,
                      Exchange(onChunk, net), n)
  {
    hide Feed, EndsRight;
    n := FeedEnds(onChunk, [], net.head.text, net.head.done, net.head.keepAlive, net.pieces);
  }

  /** The message is over behind piece k, and was read up to there. */
  ghost predicate ReadTo(done: bool, pieces: seq<Read>, k: nat) {
    && k <= |pieces| && EndsAt(done, pieces, k)
    && forall j :: 0 <= j < k ==> pieces[j].Piece? && !EndsAt(done, pieces, j)
  }

  /** The read behind piece k fails, before the message is over. */
  ghost predicate FailsAt(done: bool, pieces: seq<Read>, k: nat) {
    && k < |pieces| && pieces[k].ReadFails? && !EndsAt(done, pieces, k)
    && forall j :: 0 <= j < k ==> pieces[j].Piece? && !EndsAt(done, pieces, j)
  }

  lemma {:induction false} ErrorBodyMeans(error: Error, done: bool, pieces: seq<Read>)
    ensures (exists k: nat :: ReadTo(done, pieces, k)) ==> ErrorBody(error, done, pieces) == error
    ensures forall k: nat :: FailsAt(done, pieces, k) ==> ErrorBody(error, done, pieces) == pieces[k].error
    ensures !(exists k: nat :: ReadTo(done, pieces, k)) && !(exists k: nat :: FailsAt(done, pieces, k)) ==>
              ErrorBody(error, done, pieces) == OtherError
    decreases |pieces|
  {
    if done {
      assert ReadTo(done, pieces, 0);
      assert EndsAt(done, pieces, 0);
      forall k: nat ensures !FailsAt(done, pieces, k) {
        assert k == 0 || 0 < k;
      }
    } else if pieces == [] {
    } else if pieces[0].ReadFails? {
      assert FailsAt(done, pieces, 0);
      assert forall k: nat :: k > 0 && (ReadTo(done, pieces, k) || FailsAt(done, pieces, k)) ==> pieces[0].Piece?;
    } else {
      var rest := pieces[1..];
      ErrorBodyMeans(error, pieces[0].done, rest);
      forall k: nat ensures ReadTo(pieces[0].done, rest, k) <==> ReadTo(done, pieces, k + 1)
        ensures FailsAt(pieces[0].done, rest, k) <==> FailsAt(done, pieces, k + 1)
        ensures k < |rest| ==> rest[k] == pieces[k + 1]
      {
        ShiftMeans(pieces, k);
      }
      assert !ReadTo(done, pieces, 0) && !FailsAt(done, pieces, 0);
      if k: nat :| ReadTo(done, pieces, k) { assert ReadTo(pieces[0].done, rest, k - 1); }
      if k: nat :| ReadTo(pieces[0].done, rest, k) { assert ReadTo(done, pieces, k + 1); }
      if k: nat :| FailsAt(pieces[0].done, rest, k) { assert FailsAt(done, pieces, k + 1); }
      forall k: nat | FailsAt(done, pieces, k) ensures k > 0 && FailsAt(pieces[0].done, rest, k - 1) {}
    }
  }

  lemma ShiftMeans(pieces: seq<Read>, k: nat)
    requires pieces != [] && pieces[0].Piece?
    ensures ReadTo(pieces[0].done, pieces[1..], k) <==> ReadTo(false, pieces, k + 1)
    ensures FailsAt(pieces[0].done, pieces[1..], k) <==> FailsAt(false, pieces, k + 1)
  {
    var rest := pieces[1..];
    forall j: nat | j < |pieces| ensures EndsAt(false, pieces, j + 1) == EndsAt(pieces[0].done, rest, j) {
      EndsShift(pieces, j);
    }
    forall j | 0 <= j < |rest| ensures rest[j] == pieces[j + 1] {}
    hide EndsAt;
    assert !EndsAt(false, pieces, 0) by { NotAtStart(pieces); }
    forall j | 0 < j <= |rest| ensures pieces[j].Piece? <==> rest[j - 1].Piece? {}
  }

  lemma NotAtStart(pieces: seq<Read>)
    ensures !EndsAt(false, pieces, 0)
  {
  }

  /** Behind an error status nothing is handed on; 429 means a limit of the rate and any other
      status some other error, once the body was read to its end. */
  lemma StatusMeans(onChunk: Callback, net: Network)
    requires net.write.None? && net.head.Head? && !(200 <= net.head.status <= 299)
    ensures var done, pieces, r := net.head.done, net.pieces, Exchange(onChunk, net);
            && r.1 == []
            && ((exists k: nat :: ReadTo(done, pieces, k)) ==>
                  r.0 == Threw(if net.head.status == 429 then RateLimited else OtherError))
            && (forall k: nat :: FailsAt(done, pieces, k) ==> r.0 == Threw(pieces[k].error))
            && (!(exists k: nat :: ReadTo(done, pieces, k)) && !(exists k: nat :: FailsAt(done, pieces, k)) ==>
                  r.0 == Threw(OtherError))
  {
    hide Feed, ErrorBody, ReadTo, FailsAt;
    ErrorBodyMeans(if net.head.status == 429 then RateLimited else OtherError, net.head.done, net.pieces);
  }
}
