/** How many status lines SseWriterImpl of include/utilxx/http_server.h puts on the stream. */
module SseHeads {
  import opened ChunkedCoding
  import opened EventStream
  import opened SseWriter

  // ---------------------------------------------------------------------------
  // The layout of the stream
  // ---------------------------------------------------------------------------

  /** Did any byte get out? */
  predicate Begun(out: Net) {
    out.Done? || out.after > 0
  }

  predicate IsStatusLine(x: Sent) {
    !x.Bytes? && Begun(x.out)
  }

  /** How many status lines are on the stream, or begun. */
  function StatusLines(sent: seq<Sent>): nat {
    if sent == [] then 0
    else StatusLines(sent[..|sent| - 1]) + if IsStatusLine(sent[|sent| - 1]) then 1 else 0
  }

  /** Where the head of the stream is, or would be. */
  function HeadAt(sent: seq<Sent>): nat {
    if sent != [] && sent[0].FullResponse? then 1 else 0
  }

  /** At most a full response, at most one head behind it, and bytes behind the head only. */
  ghost predicate LaidOut(sent: seq<Sent>) {
    var h := HeadAt(sent);
    (|sent| > h ==> sent[h].SseHead?) && forall k :: h < k < |sent| ==> sent[k].Bytes?
  }

  lemma {:induction false} CountLaidOut(sent: seq<Sent>)
    requires LaidOut(sent)
    ensures var h := HeadAt(sent);
            StatusLines(sent) == (if h == 1 && IsStatusLine(sent[0]) then 1 else 0)
                               + (if |sent| > h && IsStatusLine(sent[h]) then 1 else 0)
    decreases |sent|
  {
    if sent == [] {
    } else {
      var init := sent[..|sent| - 1];
      assert init != [] ==> init[0] == sent[0];
      CountLaidOut(init);
    }
  }

  // ---------------------------------------------------------------------------
  // What the stream says about the calls
  // ---------------------------------------------------------------------------

  ghost predicate HasWrite(calls: seq<Call>) {
    exists i :: 0 <= i < |calls| && IsWrite(calls[i])
  }

  ghost predicate HasClose(calls: seq<Call>) {
    exists i :: 0 <= i < |calls| && calls[i].Close?
  }

  predicate Responds(calls: seq<Call>) {
    calls != [] && calls[0].WriteResponse?
  }

  /** Call j is the first write, and nothing was closed before. */
  ghost predicate Opens(calls: seq<Call>, j: int) {
    0 <= j < |calls| && IsWrite(calls[j]) && forall k :: 0 <= k < j ==> calls[k].WriteResponse?
  }

  /** What the flags, the response and the head on the stream say about the calls so far. */
  ghost predicate Tells(s: State, calls: seq<Call>) {
    var h := HeadAt(s.sent);
    && LaidOut(s.sent)
    && (s.shut <==> HasClose(calls))
    && (s.headerSent <==> HasWrite(calls))
    && (s.headerSent && !s.shut ==> |s.sent| > h)
    && (!s.headerSent && !s.responseSent && !s.shut ==> calls == []) && (s.responseSent ==> calls != [])
    && (h == 1 <==> Responds(calls))
    && (h == 1 ==> s.sent[0].out == calls[0].net)
    && (|s.sent| > h ==> exists j :: Opens(calls, j))
    && (forall j :: Opens(calls, j) ==> |s.sent| > h && s.sent[h].out == calls[j].head)
  }

  lemma OpensMore(init: seq<Call>, c: Call, j: int)
    ensures var all := init + [c];
            && (Opens(all, j) <==>
                Opens(init, j) || (j == |init| && IsWrite(c) && !HasWrite(init) && !HasClose(init)))
            && (Opens(init, j) ==> 0 <= j < |init| && all[j] == init[j] && HasWrite(init))
            && all[|init|] == c
  {
    var all := init + [c];
    assert forall k :: 0 <= k < |init| ==> all[k] == init[k];
    if j == |init| && Opens(all, j) {
      assert forall k :: 0 <= k < |init| ==> init[k].WriteResponse?;
    }
    if j == |init| && !HasWrite(init) && !HasClose(init) {
      assert forall k :: 0 <= k < |init| ==> !IsWrite(init[k]) && !init[k].Close?;
    }
  }

  lemma FlagsMore(init: seq<Call>, c: Call)
    ensures var all := init + [c];
            && (HasWrite(all) <==> HasWrite(init) || IsWrite(c))
            && (HasClose(all) <==> HasClose(init) || c.Close?)
            && (init == [] ==> !HasWrite(init) && !HasClose(init))
            && all != [] && all[0] == (if init == [] then c else init[0])
  {
    var all := init + [c];
    assert forall k :: 0 <= k < |init| ==> all[k] == init[k];
    assert all[|init|] == c;
  }

  /** What one call puts on the stream. */
  lemma CallSends(s: State, c: Call)
    ensures var t := After(s, c).0;
            && (t.shut <==> s.shut || c.Close?)
            && (t.headerSent <==> s.headerSent || IsWrite(c))
            && (s.responseSent || (c.WriteResponse? && !s.headerSent) <==> t.responseSent)
            && (s.shut ==> t.sent == s.sent)
            && (c.WriteResponse? && !s.shut && !s.headerSent && !s.responseSent ==>
                exists x: Sent :: x.FullResponse? && x.out == c.net && t.sent == s.sent + [x])
            && (c.WriteResponse? && (s.headerSent || s.responseSent) ==> t.sent == s.sent)
            && (IsWrite(c) && !s.shut && !s.headerSent ==>
                t.sent == s.sent + [SseHead(c.head)] || exists b :: t.sent == s.sent + [SseHead(c.head)] + [Bytes(b)])
            && ((IsWrite(c) && s.headerSent) || c.Close? ==>
                t.sent == s.sent || exists b :: t.sent == s.sent + [Bytes(b)])
            && (c.Close? && !s.headerSent ==> t.sent == s.sent)
  {
    hide Frame;
    var t := After(s, c).0;
    if c.WriteResponse? {
      var x := FullResponse(c.status, c.contentType, c.body, c.net);
    } else if IsWrite(c) {
      AfterIsWrite(s, c);
      var out := Out(Frame(TextOf(c)), c.frame);
      if !s.shut && !s.headerSent && c.head.Done? {
        assert t.sent == s.sent + [SseHead(c.head)] + [Bytes(out.text)];
      }
    }
  }

  lemma AddBytes(sent: seq<Sent>, b: string)
    requires LaidOut(sent) && |sent| > HeadAt(sent)
    ensures var t := sent + [Bytes(b)]; var h := HeadAt(sent);
            LaidOut(t) && HeadAt(t) == h && |t| > h && t[h] == sent[h] && t[0] == sent[0]
  {
  }

  lemma AddHead(sent: seq<Sent>, out: Net)
    requires LaidOut(sent) && |sent| == HeadAt(sent)
    ensures var t := sent + [SseHead(out)]; var h := HeadAt(sent);
            LaidOut(t) && HeadAt(t) == h && |t| > h && t[h] == SseHead(out) && (h > 0 ==> t[0] == sent[0])
  {
  }

  lemma AddResponse(x: Sent)
    requires x.FullResponse?
    ensures LaidOut([x]) && HeadAt([x]) == 1
  {
  }

  lemma {:induction false} RunTells(calls: seq<Call>)
    ensures Tells(Run(FRESH, calls), calls)
    decreases |calls|
  {
    if calls == [] {
    } else {
      var n := |calls| - 1;
      var init, c := calls[..n], calls[n];
      assert calls == init + [c];
      hide *;
      RunTells(init);
      RunMore(init, c);
      CallTells(Run(FRESH, init), init, c);
    }
  }

  lemma CallTells(s: State, init: seq<Call>, c: Call)
    requires Tells(s, init)
    ensures Tells(After(s, c).0, init + [c])
  {
    hide After, LaidOut, HasWrite, HasClose, Opens;
    var all := init + [c];
    FlagsMore(init, c);
    forall j
      ensures Opens(all, j) <==> Opens(init, j) || (j == |init| && IsWrite(c) && !HasWrite(init) && !HasClose(init))
      ensures Opens(init, j) ==> 0 <= j < |init| && all[j] == init[j] && HasWrite(init)
    {
      OpensMore(init, c, j);
    }
    CallSends(s, c);
    var t := After(s, c).0;
    var h := HeadAt(s.sent);
    if t.sent == s.sent {
    } else if c.WriteResponse? {
      var x: Sent :| x.FullResponse? && x.out == c.net && t.sent == s.sent + [x];
      assert s.sent == [] && t.sent == [x];
      AddResponse(x);
    } else if IsWrite(c) && !s.headerSent {
      AddHead(s.sent, c.head);
      var sent := s.sent + [SseHead(c.head)];
      if b :| t.sent == sent + [Bytes(b)] { AddBytes(sent, b); }
      assert Opens(all, |init|);
    } else {
      var b :| t.sent == s.sent + [Bytes(b)];
      AddBytes(s.sent, b);
    }
  }

  // ---------------------------------------------------------------------------
  // One status line
  // ---------------------------------------------------------------------------

  /** A full response was accepted and bytes of it got out; call j is the first write behind
      it, no close is between, and bytes of its head get out. */
  ghost predicate SecondHead(calls: seq<Call>, j: int) {
    Responds(calls) && Begun(calls[0].net) && Opens(calls, j) && Begun(calls[j].head)
  }

  /** At most one status line goes out, exactly when no write begins a head behind a response. */
  lemma OneStatusLine(calls: seq<Call>)
    ensures StatusLines(Run(FRESH, calls).sent) <= 1 <==> !exists j :: SecondHead(calls, j)
  {
    RunTells(calls);
    var sent := Run(FRESH, calls).sent;
    CountLaidOut(sent);
    hide LaidOut, StatusLines, Run, Opens, HasWrite, HasClose;
    var h := HeadAt(sent);
    if Responds(calls) && |sent| > h {
      var j :| Opens(calls, j);
      assert SecondHead(calls, j) <==> Begun(sent[0].out) && Begun(sent[h].out);
    }
  }

  // ---------------------------------------------------------------------------
  // Responses and closes
  // ---------------------------------------------------------------------------

  /** A full response was asked for before anything was written. */
  ghost predicate HasResponse(calls: seq<Call>) {
    exists i :: 0 <= i < |calls| && calls[i].WriteResponse? && forall k :: 0 <= k < i ==> !IsWrite(calls[k])
  }

  lemma ResponseMore(init: seq<Call>, c: Call)
    ensures HasResponse(init + [c]) <==> HasResponse(init) || (c.WriteResponse? && !HasWrite(init))
  {
    var all := init + [c];
    assert all[|init|] == c && forall k :: 0 <= k < |init| ==> all[k] == init[k];
    if HasResponse(init) {
      var i :| 0 <= i < |init| && init[i].WriteResponse? && forall k :: 0 <= k < i ==> !IsWrite(init[k]);
      assert all[i].WriteResponse? && forall k :: 0 <= k < i ==> !IsWrite(all[k]);
    }
    if HasResponse(all) {
      var i :| 0 <= i < |all| && all[i].WriteResponse? && forall k :: 0 <= k < i ==> !IsWrite(all[k]);
      if i < |init| { assert init[i].WriteResponse? && forall k :: 0 <= k < i ==> !IsWrite(init[k]); }
    }
  }

  lemma {:induction false} ResponseFlag(calls: seq<Call>)
    ensures Run(FRESH, calls).responseSent <==> HasResponse(calls)
    decreases |calls|
  {
    if calls == [] {
    } else {
      var n := |calls| - 1;
      var init, c := calls[..n], calls[n];
      assert calls == init + [c];
      ResponseFlag(init);
      RunTells(init);
      RunMore(init, c);
      ResponseMore(init, c);
      CallSends(Run(FRESH, init), c);
    }
  }

  /** What a call comes to, told by the calls before. The terminator goes out only behind a
      write, with no response asked for before the first write, and no close; a response only as
      the very first call. A write succeeds if all of it gets out, with the head in front if it
      is the first one. */
  lemma CallsMean(calls: seq<Call>, c: Call)
    ensures var s, t := Run(FRESH, calls), Run(FRESH, calls + [c]);
            && (c.Close? ==>
                  t.sent == s.sent + if HasWrite(calls) && !HasResponse(calls) && !HasClose(calls)
                                     then [Out("0\r\n\r\n", c.net)] else [])
            && (c.WriteResponse? ==>
                  && t.sent == (if calls == [] then [FullResponse(c.status, c.contentType, c.body, c.net)] else s.sent)
                  && (After(s, c).1 <==> calls == [] && c.net.Done?))
            && (IsWrite(c) ==>
                  (After(s, c).1 <==> !HasClose(calls) && (HasWrite(calls) || c.head.Done?) && c.frame.Done?))
  {
    ResponseFlag(calls);
    RunTells(calls);
    RunMore(calls, c);
    hide Run, HasWrite, HasResponse, HasClose, Out, LaidOut, Opens;
    if c.WriteResponse? && calls == [] { assert Run(FRESH, []) == FRESH by { NothingRun(); } }
  }

  lemma NothingRun()
    ensures Run(FRESH, []) == FRESH
  {
  }

  /** For example, a write behind a response that was sent. */
  lemma WriteBehindResponse()
    ensures var calls := [WriteResponse(200, "text/plain", "ok", Done), WriteChunk("x", Done, Done)];
            var sent := Run(FRESH, calls).sent;
            && sent == [FullResponse(200, "text/plain", "ok", Done), SseHead(Done), Bytes(Frame("x"))]
            && StatusLines(sent) == 2
  {
    var a, b := WriteResponse(200, "text/plain", "ok", Done), WriteChunk("x", Done, Done);
    RunTwo(a, b);
    hide Frame, StatusLines;
    CountLaidOut(Run(FRESH, [a, b]).sent);
  }

  /** Behind a close nothing gets out any more, and writes return false. */
  lemma {:induction false} NothingBehindClose(calls: seq<Call>, net: Net, more: seq<Call>)
    ensures var s := Run(FRESH, calls + [Close(net)] + more);
            && s.shut && s.sent == Run(FRESH, calls + [Close(net)]).sent
            && forall c: Call :: !c.Close? ==> !After(s, c).1
    decreases |more|
  {
    var closed := calls + [Close(net)];
    if more == [] {
      assert closed + more == closed;
      RunMore(calls, Close(net));
    } else {
      var n := |more| - 1;
      NothingBehindClose(calls, net, more[..n]);
      RunMore(closed + more[..n], more[n]);
      assert closed + more == closed + more[..n] + [more[n]];
    }
    hide Run, Frame, EventText;
    forall c: Call | !c.Close? ensures !After(Run(FRESH, closed + more), c).1 { }
  }
}
