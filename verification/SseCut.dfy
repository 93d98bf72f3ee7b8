/** What a client reads when writes of SseWriterImpl are cut, and the handler goes on: the
    class keeps no mark of a failed write. */
module SseCut {
  import opened Basics
  import opened ChunkedCoding
  import opened ChunkedCut
  import opened EventStream
  import opened SseWriter
  import opened SseHeads

  // ---------------------------------------------------------------------------
  // As long as nothing follows a cut
  // ---------------------------------------------------------------------------

  /** Does a call put bytes of the body on the stream, or try to? */
  predicate Emits(s: State, c: Call) {
    !s.shut && (IsWrite(c) || (c.Close? && s.headerSent && !s.responseSent))
  }

  /** Did it get all of them out? */
  predicate WentOut(s: State, c: Call) {
    match c
    case WriteResponse(_, _, _, _) => true
    case Close(net) => !Emits(s, c) || net.Done? || net.after >= |TERMINATOR|
    case _ => !Emits(s, c) || ((s.headerSent || c.head.Done?) && (c.frame.Done? || c.frame.after >= |Frame(TextOf(c))|))
  }

  /** Nothing is put on the stream behind a frame that was cut. */
  ghost predicate NothingBehindCut(calls: seq<Call>) {
    forall i, j :: 0 <= i < j < |calls| ==> WentOut(Before(calls, i), calls[i]) || !Emits(Before(calls, j), calls[j])
  }

  /** The chunks of the frames that were written, whole or not; a terminator is the frame of
      an empty chunk. */
  function Chunks(calls: seq<Call>): seq<string> {
    if calls == [] then []
    else
      var init, c := calls[..|calls| - 1], calls[|calls| - 1];
      Chunks(init) + if Emits(Run(FRESH, init), c) then [TextOf(c)] else []
  }

  ghost predicate AllWentOut(calls: seq<Call>) {
    forall i :: 0 <= i < |calls| ==> WentOut(Before(calls, i), calls[i])
  }

  /** The bytes behind the head are the frames so far, or the first k bytes of them. */
  ghost predicate IsCutAt(calls: seq<Call>, k: nat) {
    && k <= |Frames(Chunks(calls))|
    && Payload(Run(FRESH, calls).sent) == Frames(Chunks(calls))[..k]
    && (AllWentOut(calls) ==> k == |Frames(Chunks(calls))|)
  }

  lemma BeforeInit(init: seq<Call>, c: Call, i: nat)
    requires i <= |init|
    ensures (init + [c])[..i] == init[..i] && Before(init + [c], i) == Before(init, i)
    ensures Before(init + [c], |init|) == Run(FRESH, init)
  {
    hide Run;
    assert (init + [c])[..i] == init[..i];
    assert (init + [c])[..|init|] == init;
  }

  lemma InitCuts(init: seq<Call>, c: Call)
    requires NothingBehindCut(init + [c])
    ensures NothingBehindCut(init)
    ensures AllWentOut(init) || !Emits(Run(FRESH, init), c)
    ensures AllWentOut(init + [c]) ==> AllWentOut(init) && WentOut(Run(FRESH, init), c)
  {
    hide Run, WentOut, Emits, Before;
    var all := init + [c];
    forall i | 0 <= i <= |init| ensures Before(all, i) == Before(init, i) && Before(all, |init|) == Run(FRESH, init) {
      BeforeInit(init, c, i);
    }
    forall i, j | 0 <= i < j < |init|
      ensures WentOut(Before(init, i), init[i]) || !Emits(Before(init, j), init[j])
    {
      assert all[i] == init[i] && all[j] == init[j];
    }
    BeforeInit(init, c, |init|);
    assert all[|init|] == c;
    if Emits(Run(FRESH, init), c) {
      forall i | 0 <= i < |init| ensures WentOut(Before(init, i), init[i]) {
        assert all[i] == init[i];
      }
    }
    if AllWentOut(all) {
      forall i | 0 <= i < |init| ensures WentOut(Before(init, i), init[i]) {
        assert all[i] == init[i];
        assert WentOut(Before(all, i), all[i]);
      }
    }
  }

  lemma ChunksMore(init: seq<Call>, c: Call)
    ensures Chunks(init + [c]) == Chunks(init) + if Emits(Run(FRESH, init), c) then [TextOf(c)] else []
  {
    hide Emits, Run, TextOf;
    assert (init + [c])[..|init|] == init;
  }

  /** One call adds a frame to the body, a first part of it, or nothing. */
  lemma CallAdds(s: State, c: Call) returns (out: string)
    ensures Payload(After(s, c).0.sent) == Payload(s.sent) + out
    ensures !Emits(s, c) ==> out == ""
    ensures Emits(s, c) ==> |out| <= |Frame(TextOf(c))| && out == Frame(TextOf(c))[..|out|]
    ensures Emits(s, c) && WentOut(s, c) ==> out == Frame(TextOf(c))
  {
    hide Frame, Payload;
    out := "";
    EmptyInFront(Payload(s.sent));
    match c
    case WriteResponse(status, contentType, body, net) =>
      PayloadMore(s.sent, FullResponse(status, contentType, body, net));
    case Close(net) =>
      EmptyFrame();
      if Emits(s, c) {
        out := Out(TERMINATOR, net).text;
        PayloadMore(s.sent, Out(TERMINATOR, net));
      }
    case _ =>
      AfterIsWrite(s, c);
      var frame := Out(Frame(TextOf(c)), c.frame);
      PayloadMore(s.sent, SseHead(c.head));
      PayloadMore(s.sent, frame);
      PayloadMore(s.sent + [SseHead(Done)], frame);
      assert s.sent + [SseHead(Done)] + [frame] == s.sent + [SseHead(Done), frame];
      if !s.shut && (s.headerSent || c.head.Done?) {
        out := frame.text;
      }
  }

  lemma TakeFront<T>(a: seq<T>, b: seq<T>, out: seq<T>)
    requires |out| <= |b| && out == b[..|out|]
    ensures (a + b)[..|a| + |out|] == a + out
  {
  }

  lemma NothingCut()
    ensures IsCutAt([], 0)
  {
    PayloadOfHead();
  }

  lemma LastCall(calls: seq<Call>)
    requires calls != []
    ensures calls == calls[..|calls| - 1] + [calls[|calls| - 1]]
  {
  }

  lemma {:induction false} BodyIsCut(calls: seq<Call>) returns (k: nat)
    requires NothingBehindCut(calls)
    ensures IsCutAt(calls, k)
    decreases |calls|
  {
    hide *;
    if calls == [] {
      k := 0;
      NothingCut();
    } else {
      var n := |calls| - 1;
      var init, c := calls[..n], calls[n];
      LastCall(calls);
      InitCuts(init, c);
      k := BodyIsCut(init);
      var out := CallAdds(Run(FRESH, init), c);
      RunMore(init, c);
      ChunksMore(init, c);
      CutMore(init, c, k, out);
      if Emits(Run(FRESH, init), c) { k := |Frames(Chunks(init))| + |out|; }
    }
  }

  lemma CutMore(init: seq<Call>, c: Call, k: nat, out: string)
    requires IsCutAt(init, k)
    requires AllWentOut(init) || !Emits(Run(FRESH, init), c)
    requires AllWentOut(init + [c]) ==> AllWentOut(init) && WentOut(Run(FRESH, init), c)
    requires Run(FRESH, init + [c]) == After(Run(FRESH, init), c).0
    requires Chunks(init + [c]) == Chunks(init) + if Emits(Run(FRESH, init), c) then [TextOf(c)] else []
    requires Payload(After(Run(FRESH, init), c).0.sent) == Payload(Run(FRESH, init).sent) + out
    requires !Emits(Run(FRESH, init), c) ==> out == ""
    requires Emits(Run(FRESH, init), c) ==> |out| <= |Frame(TextOf(c))| && out == Frame(TextOf(c))[..|out|]
    requires Emits(Run(FRESH, init), c) && WentOut(Run(FRESH, init), c) ==> out == Frame(TextOf(c))
    ensures IsCutAt(init + [c], if Emits(Run(FRESH, init), c) then |Frames(Chunks(init))| + |out| else k)
  {
    hide Run, After, Frames, Frame, Chunks, Payload, Emits, WentOut, AllWentOut, TextOf;
    var frames := Frames(Chunks(init));
    TakeAll(frames);
    if Emits(Run(FRESH, init), c) {
      FramesMore(Chunks(init), TextOf(c));
      TakeFront(frames, Frame(TextOf(c)), out);
    } else {
      EmptyInFront(Chunks(init));
      EmptyInFront(Payload(Run(FRESH, init).sent));
    }
  }

  lemma NoChunks()
    ensures Chunks([]) == [] && Texts([]) == [] && Concat([]) == ""
  {
  }

  /** Before a close, a call that emits nothing has no text. */
  lemma OneText(s: State, c: Call)
    requires !s.shut
    ensures Concat(if Emits(s, c) then [TextOf(c)] else []) == TextOf(c)
  {
    hide TextOf;
    SilentText(s, c);
    OneChunk(TextOf(c));
  }

  lemma OneChunk(x: string)
    ensures Concat([x]) == x && Concat([]) == ""
  {
    assert [x][1..] == [];
    assert Concat([]) == "";
  }

  lemma StaysShut(s: State, c: Call)
    ensures s.shut ==> After(s, c).0.shut
    ensures Emits(s, c) ==> !s.shut
  {
    hide Frame, EventText;
  }

  lemma {:induction false} AllTexts(calls: seq<Call>)
    requires !Run(FRESH, calls).shut
    ensures Concat(Chunks(calls)) == Concat(Texts(calls))
    decreases |calls|
  {
    hide *;
    if calls == [] {
      NoChunks();
    } else {
      var n := |calls| - 1;
      var init, c := calls[..n], calls[n];
      LastCall(calls);
      RunMore(init, c);
      StaysShut(Run(FRESH, init), c);
      AllTexts(init);
      ChunksMore(init, c);
      TextsMore(init, c);
      ConcatSplit(Chunks(init), if Emits(Run(FRESH, init), c) then [TextOf(c)] else []);
      OneText(Run(FRESH, init), c);
      ConcatMore(Texts(init), TextOf(c));
    }
  }

  /** The first chunks are what the first calls wrote. */
  lemma {:induction false} ChunksAreTexts(calls: seq<Call>, j: nat) returns (i: nat)
    requires j <= |Chunks(calls)|
    ensures i <= |calls| && Concat(Chunks(calls)[..j]) == Concat(Texts(calls[..i]))
    decreases |calls|
  {
    hide *;
    NoChunks();
    if calls == [] {
      i := 0;
      TakeAll(calls);
      TakeAll(Chunks(calls));
    } else {
      var n := |calls| - 1;
      var init, c := calls[..n], calls[n];
      var chunk := if Emits(Run(FRESH, init), c) then [TextOf(c)] else [];
      LastCall(calls);
      ChunksMore(init, c);
      TakePrefix(Chunks(init), chunk, j);
      if j <= |Chunks(init)| {
        i := ChunksAreTexts(init, j);
        TakePrefix(init, [c], i);
      } else {
        i := |calls|;
        StaysShut(Run(FRESH, init), c);
        AllTexts(init);
        TakeAll(calls);
        TakeAll(Chunks(calls));
        ConcatMore(Chunks(init), TextOf(c));
        TextsMore(init, c);
        ConcatMore(Texts(init), TextOf(c));
      }
    }
  }

  lemma TakePrefix<T>(a: seq<T>, b: seq<T>, j: nat)
    ensures j <= |a| ==> (a + b)[..j] == a[..j]
    ensures |a + b| == |a| + |b|
  {
  }

  lemma SilentText(s: State, c: Call)
    ensures !Emits(s, c) && !s.shut ==> TextOf(c) == ""
  {
  }

  // ---------------------------------------------------------------------------
  // What a client has in front of the data
  // ---------------------------------------------------------------------------

  /** The head of a stream that goes on is whole. */
  ghost predicate HeadWhole(sent: seq<Sent>, wentOut: bool) {
    var h := HeadAt(sent);
    |sent| > h && sent[h].SseHead? && !sent[h].out.Done? ==> |sent| == h + 1 && !wentOut
  }

  lemma CallKeepsHead(s: State, init: seq<Call>, c: Call)
    requires Tells(s, init) && HeadWhole(s.sent, AllWentOut(init))
    requires AllWentOut(init) || !Emits(s, c)
    requires AllWentOut(init + [c]) ==> AllWentOut(init) && WentOut(s, c)
    ensures HeadWhole(After(s, c).0.sent, AllWentOut(init + [c]))
  {
    hide AllWentOut, Frame, HasClose, Run;
    CallSends(s, c);
    var h := HeadAt(s.sent);
    if |s.sent| > h {
      var j :| Opens(init, j);
      assert s.headerSent;
    } else if IsWrite(c) && !s.shut && !s.headerSent {
      AfterIsWrite(s, c);
    }
  }

  lemma {:induction false} HeadIsWhole(calls: seq<Call>)
    requires NothingBehindCut(calls)
    ensures HeadWhole(Run(FRESH, calls).sent, AllWentOut(calls))
    decreases |calls|
  {
    hide *;
    if calls == [] {
      NoHead();
    } else {
      var n := |calls| - 1;
      var init, c := calls[..n], calls[n];
      LastCall(calls);
      InitCuts(init, c);
      HeadIsWhole(init);
      RunTells(init);
      RunMore(init, c);
      CallKeepsHead(Run(FRESH, init), init, c);
    }
  }

  lemma NoHead()
    ensures Run(FRESH, []).sent == [] && HeadWhole([], AllWentOut([]))
  {
  }

  lemma {:induction false} NoBytes(sent: seq<Sent>)
    requires forall k :: 0 <= k < |sent| ==> !sent[k].Bytes?
    ensures Payload(sent) == ""
    decreases |sent|
  {
    if sent == [] {
    } else {
      NoBytes(sent[..|sent| - 1]);
    }
  }

  /** A whole head, nothing of a response in front of it, and the body behind. */
  ghost predicate HeadThenBody(sent: seq<Sent>) {
    var h := HeadAt(sent);
    && |sent| > h && sent[h] == SseHead(Done)
    && (h == 1 ==> !Begun(sent[0].out))
    && forall k :: h < k < |sent| ==> sent[k].Bytes?
  }

  lemma DataHasHead(sent: seq<Sent>, wentOut: bool)
    requires LaidOut(sent) && HeadWhole(sent, wentOut) && StatusLines(sent) <= 1 && Payload(sent) != ""
    ensures HeadThenBody(sent)
  {
    CountLaidOut(sent);
    var h := HeadAt(sent);
    if forall k :: 0 <= k < |sent| ==> !sent[k].Bytes? {
      NoBytes(sent);
    }
    hide StatusLines, Payload;
    assert |sent| > h + 1;
  }

  /** In every run with one status line in which nothing is put on the stream behind a frame
      that was cut, a client reads a head and a well-formed body, and its data is what the
      first calls wrote. */
  lemma OnlyWrittenData(calls: seq<Call>) returns (i: nat)
    requires NothingBehindCut(calls) && StatusLines(Run(FRESH, calls).sent) <= 1
    ensures var sent := Run(FRESH, calls).sent; var r := Decode(Payload(sent));
            && (Payload(sent) != "" ==> HeadThenBody(sent))
            && !r.Malformed? && i <= |calls| && r.data == Concat(Texts(calls[..i]))
  {
    var sent := Run(FRESH, calls).sent;
    hide *;
    if Payload(sent) != "" {
      RunTells(calls);
      TellsLayout(Run(FRESH, calls), calls);
      HeadIsWhole(calls);
      DataHasHead(sent, AllWentOut(calls));
    }
    var k := BodyIsCut(calls);
    CutMeans(calls, k);
    var j := AnyCut(Chunks(calls), k);
    GivesMeans(Decode(Payload(sent)), Chunks(calls), j);
    i := ChunksAreTexts(calls, j);
  }

  lemma TellsLayout(s: State, calls: seq<Call>)
    requires Tells(s, calls)
    ensures LaidOut(s.sent)
  {
  }

  lemma CutMeans(calls: seq<Call>, k: nat)
    requires IsCutAt(calls, k)
    ensures k <= |Frames(Chunks(calls))| && Payload(Run(FRESH, calls).sent) == Frames(Chunks(calls))[..k]
  {
    hide AllWentOut, Frames, Payload, Run, Chunks;
  }

  lemma GivesMeans(r: Decoded, chunks: seq<string>, j: nat)
    requires GivesFirst(r, chunks, j)
    ensures j <= |chunks| && !r.Malformed? && r.data == Concat(chunks[..j])
  {
  }

  // ---------------------------------------------------------------------------
  // A close right behind a cut
  // ---------------------------------------------------------------------------

  lemma CloseAddsEnd(s: State, c: Call)
    requires IsWrite(c) && !s.responseSent && !s.shut && c.head.Done?
    ensures var t := After(s, c).0;
            Payload(After(t, Close(Done)).0.sent) == Payload(t.sent) + TERMINATOR
  {
    hide Frame, Payload;
    AfterIsWrite(s, c);
    PayloadMore(After(s, c).0.sent, Bytes(TERMINATOR));
  }

  lemma StreamingOpen(s: State, calls: seq<Call>)
    requires Streaming(s, calls)
    ensures !s.responseSent && !s.shut
  {
    hide Payload, Frames;
  }

  lemma PrependMeans(data: string, r: Decoded)
    ensures var p := Prepend(data, r);
            && p.data == data + r.data && (p.Ended? <==> r.Ended?) && (p.Malformed? <==> r.Malformed?)
            && (!r.Malformed? ==> p.rest == r.rest)
  {
  }

  lemma SamePrefix(a: string, d: string, x: string)
    ensures StartsWith(a + d, a + x) <==> StartsWith(d, x)
  {
    if StartsWith(d, x) {
      assert (a + d)[..|a + x|] == a + d[..|x|];
    }
    if StartsWith(a + d, a + x) {
      assert d[..|x|] == (a + d)[..|a + x|][|a|..] == (a + x)[|a|..] == x;
    }
  }

  /** A frame that was cut inside, after writes that went well, and a close right behind it:
      what a client has, and how the stream ends for it. */
  lemma CloseBehindCut(calls: seq<Call>, c: Call)
    requires (forall k :: 0 <= k < |calls| ==> Succeeds(calls[k])) && NoEmptyChunk(calls)
    requires IsWrite(c) && TextOf(c) != "" && c.head.Done? && c.frame.Cut? && c.frame.after < |Frame(TextOf(c))|
    ensures var d, n := TextOf(c), c.frame.after;
            var r := Decode(Payload(Run(FRESH, calls + [c] + [Close(Done)]).sent));
            && r.data == Concat(Texts(calls)) + Spoiled(d, n)
            && (r.Ended? <==> n == 0)
            && (r.Malformed? <==> n + 1 == LineSize(d) || (n >= LineSize(d) && Missing(d, n) < 3))
            && (n == 0 || (n >= LineSize(d) && Missing(d, n) == 3) ==> r.rest == "")
  {
    var d, n, s := TextOf(c), c.frame.after, Run(FRESH, calls);
    hide *;
    StreamingRun(calls);
    StreamingOpen(s, calls);
    TextsFilled(calls);
    RunMore(calls, c);
    RunMore(calls + [c], Close(Done));
    CutAdds(s, calls, c);
    OutCut(Frame(d), n);
    CloseAddsEnd(s, c);
    var part := Frame(d)[..n];
    Joins(Frames(Texts(calls)), part, TERMINATOR);
    DecodeFrames(Texts(calls), part + TERMINATOR);
    TerminatorBehindCut(d, n);
    PrependMeans(Concat(Texts(calls)), Decode(part + TERMINATOR));
  }

  /** Data nobody wrote comes out if and only if three bytes of data are missing and these
      are not the first three of the terminator, or one is missing and it is not a zero. */
  lemma WrongDataExactly(calls: seq<Call>, c: Call)
    requires (forall k :: 0 <= k < |calls| ==> Succeeds(calls[k])) && NoEmptyChunk(calls)
    requires IsWrite(c) && TextOf(c) != "" && c.head.Done? && c.frame.Cut? && c.frame.after < |Frame(TextOf(c))|
    ensures var d, n := TextOf(c), c.frame.after;
            var r := Decode(Payload(Run(FRESH, calls + [c] + [Close(Done)]).sent));
            !StartsWith(Concat(Texts(calls + [c])), r.data) <==> ComesOutWrong(d, n)
  {
    var d, n := TextOf(c), c.frame.after;
    hide *;
    CloseBehindCut(calls, c);
    TextsMore(calls, c);
    ConcatMore(Texts(calls), d);
    SamePrefix(Concat(Texts(calls)), d, Spoiled(d, n));
    SpoiledIsWrong(d, n);
  }

  /** For example: "abc" cut in front of its data, and a close. */
  lemma CutThenClose()
    ensures var r := Run(FRESH, [WriteChunk("abc", Done, Cut(3)), Close(Done)]);
            Payload(r.sent) == "3\r\n0\r\n\r\n" && Decode(Payload(r.sent)) == Partial("0\r\n", "")
  {
    var c := WriteChunk("abc", Done, Cut(3));
    FrameOfAbc();
    RunTwo(c, Close(Done));
    PayloadOfCut();
    hide Run, Decode, Frame, Payload, Texts, Concat;
    NoCalls();
    CloseBehindCut([], c);
    assert [] + [c] + [Close(Done)] == [c, Close(Done)];
  }

  lemma FrameOfAbc()
    ensures Frame("abc") == "3\r\nabc\r\n" && LineSize("abc") == 3
    ensures Missing("abc", 3) == 3 && Spoiled("abc", 3) == "0\r\n"
  {
    assert Digits.Hex(3) == "3";
  }

  lemma NoCalls()
    ensures Texts([]) == [] && Concat([]) == "" && NoEmptyChunk([])
  {
  }

  lemma PayloadOfCut()
    ensures var s := After(FRESH, WriteChunk("abc", Done, Cut(3))).0;
            Payload(After(s, Close(Done)).0.sent) == "3\r\n0\r\n\r\n"
  {
    FrameOfAbc();
    var s := After(FRESH, WriteChunk("abc", Done, Cut(3))).0;
    assert Frame("abc")[..3] == "3\r\n";
    hide Payload, Frame;
    assert s.sent == [SseHead(Done), Bytes("3\r\n")];
    PayloadOfHead();
    PayloadMore([SseHead(Done)], Bytes("3\r\n"));
    PayloadMore([SseHead(Done), Bytes("3\r\n")], Bytes(TERMINATOR));
    assert [SseHead(Done)] + [Bytes("3\r\n")] == [SseHead(Done), Bytes("3\r\n")];
  }

  // ---------------------------------------------------------------------------
  // Another write right behind a cut
  // ---------------------------------------------------------------------------

  lemma FrameAdded(t: State, e: Call)
    requires t.headerSent && !t.shut && IsWrite(e) && e.frame.Done?
    ensures After(t, e).1 && Payload(After(t, e).0.sent) == Payload(t.sent) + Frame(TextOf(e))
  {
    AfterIsWrite(t, e);
    hide Frame, Payload, TextOf, After;
    PayloadMore(t.sent, Bytes(Frame(TextOf(e))));
  }

  lemma WriteAddsFrame(s: State, c: Call, e: Call)
    requires IsWrite(c) && !s.shut && IsWrite(e) && e.frame.Done?
    ensures var t := After(s, c).0;
            After(t, e).1 && Payload(After(t, e).0.sent) == Payload(t.sent) + Frame(TextOf(e))
  {
    AfterIsWrite(s, c);
    hide Frame, Payload, TextOf, After;
    FrameAdded(After(s, c).0, e);
  }

  /** A frame that was cut, after writes that went well, and another write right behind it
      that succeeds. Cut off altogether, the frame is missing from the data and nothing shows
      it. Otherwise a client takes bytes of the new frame for the missing ones if they fill up
      the chunk, and has no more than the data in front of the cut if they do not. */
  lemma WriteBehindCut(calls: seq<Call>, c: Call, e: Call)
    requires (forall k :: 0 <= k < |calls| ==> Succeeds(calls[k])) && NoEmptyChunk(calls)
    requires IsWrite(c) && TextOf(c) != "" && c.head.Done? && c.frame.Cut? && c.frame.after < |Frame(TextOf(c))|
    requires IsWrite(e) && TextOf(e) != "" && e.frame.Done?
    ensures After(Run(FRESH, calls + [c]), e).1
    ensures var d, n, more, data := TextOf(c), c.frame.after, Frame(TextOf(e)), Concat(Texts(calls));
            var m, r := Missing(d, n), Decode(Payload(Run(FRESH, calls + [c] + [e]).sent));
            && (n == 0 ==> r == Partial(data + TextOf(e), ""))
            && (FillsUp(d, n, more) ==> r == Prepend(data + (d[..|d| - m] + more[..m]), Decode(more[m + 2..])))
            && (n > 0 && !FillsUp(d, n, more) ==>
                && r.data == data && !r.Ended?
                && (r.Malformed? <==> n + 1 == LineSize(d) || (n >= LineSize(d) && |more| >= m + 2)))
  {
    var d, n, x, s := TextOf(c), c.frame.after, TextOf(e), Run(FRESH, calls);
    hide *;
    StreamingRun(calls);
    StreamingOpen(s, calls);
    TextsFilled(calls);
    RunMore(calls, c);
    RunMore(calls + [c], e);
    CutAdds(s, calls, c);
    OutCut(Frame(d), n);
    WriteAddsFrame(s, c, e);
    var part, data := Frame(d)[..n], Concat(Texts(calls));
    Joins(Frames(Texts(calls)), part, Frame(x));
    DecodeFrames(Texts(calls), part + Frame(x));
    FrameBehindCut(d, n, x);
    PrependMeans(data, Decode(part + Frame(x)));
    EmptyInFront(data);
    if n == 0 {
      ReadsOne(x);
      PrependPartial(data, x, "");
    } else if FillsUp(d, n, Frame(x)) {
      FillsUpInside(d, n, Frame(x));
      var m := Missing(d, n);
      PrependTwice(data, d[..|d| - m] + Frame(x)[..m], Decode(Frame(x)[m + 2..]));
    }
  }

  lemma FillsUpInside(d: string, n: nat, more: string)
    requires FillsUp(d, n, more)
    ensures 0 <= Missing(d, n) <= |d| && Missing(d, n) + 2 <= |more|
  {
  }

  lemma ReadsOne(x: string)
    requires x != ""
    ensures Decode(Frame(x)) == Partial(x, "")
  {
    hide Decode, Frame;
    EmptyInFront(Frame(x));
    EmptyInFront(x);
    DecodeFrame(x, "");
    EmptyStream();
    PrependPartial(x, "", "");
  }

  /** For example: "abcde" cut in front of its data, and "xy" written behind it. */
  lemma CutThenWrite()
    ensures var calls := [WriteChunk("abcde", Done, Cut(3)), WriteChunk("xy", Done, Done)];
            Decode(Payload(Run(FRESH, calls).sent)) == Partial("2\r\nxy", "")
  {
    var c, e := WriteChunk("abcde", Done, Cut(3)), WriteChunk("xy", Done, Done);
    FramesOfTwo();
    RunTwo(c, e);
    hide Run, Decode, Frame, Payload, Texts, Concat;
    NoCalls();
    WriteBehindCut([], c, e);
    assert [] + [c] + [e] == [c, e];
    EmptyStream();
    PrependPartial("2\r\nxy", "", "");
    EmptyInFront("2\r\nxy");
  }

  lemma FramesOfTwo()
    ensures Frame("abcde") == "5\r\nabcde\r\n" && Frame("xy") == "2\r\nxy\r\n"
    ensures LineSize("abcde") == 3 && Missing("abcde", 3) == 5 && FillsUp("abcde", 3, Frame("xy"))
    ensures "abcde"[..0] + Frame("xy")[..5] == "2\r\nxy" && Frame("xy")[7..] == ""
  {
    assert Digits.Hex(5) == "5" && Digits.Hex(2) == "2";
  }
}
