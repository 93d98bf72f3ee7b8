/** SseWriterImpl of include/utilxx/http_server.h: what it puts on the stream, call by call,
    and what a client makes of it. */
module SseWriter {
  import opened Basics
  import opened ChunkedCoding
  import opened Digits
  import opened EventStream

  /** How a write to the stream ends: all of it is out, or an error or the timeout comes
      after some bytes. */
  datatype Net = Done | Cut(after: nat)

  /** What was put on the stream: the head of a streaming response or a full response, as far
      as it got out, or bytes behind a head. */
  datatype Sent =
    | SseHead(out: Net)
    | FullResponse(status: nat, contentType: string, body: string, out: Net)
    | Bytes(text: string)

  datatype Call =
    | WriteEvent(event: string, data: string, head: Net, frame: Net)
    | WriteChunk(chunk: string, head: Net, frame: Net)
    | WriteResponse(status: nat, contentType: string, body: string, net: Net)
    | Close(net: Net)

  datatype State = State(headerSent: bool, responseSent: bool, sent: seq<Sent>, shut: bool)

  const FRESH := State(false, false, [], false)

  /** The bytes of one async_write that got out. */
  function Out(bytes: string, net: Net): Sent {
    Bytes(if net.Done? || net.after > |bytes| then bytes else bytes[..net.after])
  }

  // ---------------------------------------------------------------------------
  // One call
  // ---------------------------------------------------------------------------

  /** Behind the shutdown nothing gets out, and a write ends in an error. */
  function AfterWrite(s: State, data: string, head: Net, frame: Net): (State, bool) {
    if s.shut then
      (s.(headerSent := true), false)
    else if s.headerSent then
      (s.(sent := s.sent + [Out(Frame(data), frame)]), frame.Done?)
    else if head.Done? then
      (s.(headerSent := true, sent := s.sent + [SseHead(Done), Out(Frame(data), frame)]), frame.Done?)
    else
      (s.(headerSent := true, sent := s.sent + [SseHead(head)]), false)
  }

  function AfterResponse(s: State, response: Sent): (State, bool)
    requires response.FullResponse?
  {
    if s.headerSent || s.responseSent then (s, false)
    else if s.shut then (s.(responseSent := true), false)
    else (s.(responseSent := true, sent := s.sent + [response]), response.out.Done?)
  }

  /** The state after a call, and what the call returns (true for Close). */
  function After(s: State, c: Call): (State, bool) {
    match c
    case WriteEvent(event, data, head, frame) => AfterWrite(s, EventText(event, data), head, frame)
    case WriteChunk(chunk, head, frame) => AfterWrite(s, chunk, head, frame)
    case WriteResponse(status, contentType, body, net) =>
      AfterResponse(s, FullResponse(status, contentType, body, net))
    case Close(net) =>
      (s.(sent := if s.headerSent && !s.responseSent && !s.shut then s.sent + [Out(TERMINATOR, net)] else s.sent,
          shut := true), true)
  }

  class SseWriterImpl {
    var headerSent: bool
    var responseSent: bool
    var sent: seq<Sent>
    var shut: bool

    ghost function View(): State
      reads this
    {
      State(headerSent, responseSent, sent, shut)
    }

    constructor ()
      ensures View() == FRESH
    {
      headerSent, responseSent, sent, shut := false, false, [], false;
    }

    /** async_write, of which the network lets out what x says */
    method Send(x: Sent, net: Net) returns (ok: bool)
      modifies this`sent
      ensures sent == if shut then old(sent) else old(sent) + [x]
      ensures ok == (!shut && net.Done?)
    {
      if shut {
        return false;
      }
      sent := sent + [x];
      return net.Done?;
    }

    method WriteEvent(event: string, data: string, head: Net, frame: Net) returns (ok: bool)
      modifies this
      ensures (View(), ok) == After(old(View()), Call.WriteEvent(event, data, head, frame))
    {
      var chunk := "";
      if event != "" {
        chunk := chunk + ("event: " + event + "\n");
      }
      chunk := chunk + ("data: " + data + "\n\n");
      assert chunk == EventText(event, data);
      ok := DoWrite(chunk, head, frame);
    }

    method WriteChunk(chunk: string, head: Net, frame: Net) returns (ok: bool)
      modifies this
      ensures (View(), ok) == After(old(View()), Call.WriteChunk(chunk, head, frame))
    {
      ok := DoWrite(chunk, head, frame);
    }

    method WriteResponse(status: nat, contentType: string, body: string, net: Net) returns (ok: bool)
      modifies this
      ensures (View(), ok) == After(old(View()), Call.WriteResponse(status, contentType, body, net))
    {
      if headerSent || responseSent {
        return false;
      }
      responseSent := true;
      ok := Send(FullResponse(status, contentType, body, net), net);
    }

    method Close(net: Net)
      modifies this
      ensures (View(), true) == After(old(View()), Call.Close(net))
    {
      if headerSent && !responseSent {
        var ec := Send(Out(TERMINATOR, net), net);
      }
      shut := true;
    }

    method DoWrite(data: string, head: Net, frame: Net) returns (ok: bool)
      modifies this
      ensures (View(), ok) == AfterWrite(old(View()), data, head, frame)
    {
      if !headerSent {
        ok := WriteWithHeader(data, head, frame);
        return;
      }
      ok := Send(Out(Digits.Hex(|data|) + "\r\n" + data + "\r\n", frame), frame);
    }

    method WriteWithHeader(data: string, head: Net, frame: Net) returns (ok: bool)
      requires !headerSent
      modifies this
      ensures (View(), ok) == AfterWrite(old(View()), data, head, frame)
    {
      headerSent := true;
      ok := Send(SseHead(head), head);
      if !ok {
        return;
      }
      ghost var out := Out(Frame(data), frame);
      assert old(sent) + [SseHead(Done)] + [out] == old(sent) + [SseHead(Done), out];
      ok := Send(Out(Digits.Hex(|data|) + "\r\n" + data + "\r\n", frame), frame);
    }
  }

  // ---------------------------------------------------------------------------
  // Runs
  // ---------------------------------------------------------------------------

  function Run(s: State, calls: seq<Call>): State
    decreases |calls|
  {
    if calls == [] then s else Run(After(s, calls[0]).0, calls[1..])
  }

  /** The state before call i of a run from the start. */
  function Before(calls: seq<Call>, i: nat): State
    requires i <= |calls|
  {
    Run(FRESH, calls[..i])
  }

  lemma {:induction false} RunLast(s: State, calls: seq<Call>)
    requires calls != []
    ensures Run(s, calls) == After(Run(s, calls[..|calls| - 1]), calls[|calls| - 1]).0
    decreases |calls|
  {
    hide After;
    var n := |calls| - 1;
    if n == 0 {
      assert calls[1..] == [] && calls[..0] == [];
    } else {
      RunLast(After(s, calls[0]).0, calls[1..]);
      assert calls[1..][..n - 1] == calls[..n][1..];
    }
  }

  predicate IsWrite(c: Call) {
    c.WriteEvent? || c.WriteChunk?
  }

  // ---------------------------------------------------------------------------
  // What a client reads
  // ---------------------------------------------------------------------------

  /** The bytes behind the head. */
  function Payload(sent: seq<Sent>): string {
    if sent == [] then ""
    else Payload(sent[..|sent| - 1]) + match sent[|sent| - 1] case Bytes(text) => text case _ => ""
  }

  lemma PayloadMore(sent: seq<Sent>, x: Sent)
    ensures Payload(sent + [x]) == Payload(sent) + match x case Bytes(text) => text case _ => ""
  {
    assert (sent + [x])[..|sent|] == sent;
  }

  /** The text that a write puts in its chunk. */
  function TextOf(c: Call): string {
    match c
    case WriteEvent(event, data, _, _) => EventText(event, data)
    case WriteChunk(chunk, _, _) => chunk
    case _ => ""
  }

  function Texts(calls: seq<Call>): (r: seq<string>)
    ensures |r| == |calls| && forall k :: 0 <= k < |r| ==> r[k] == TextOf(calls[k])
  {
    if calls == [] then [] else Texts(calls[..|calls| - 1]) + [TextOf(calls[|calls| - 1])]
  }

  predicate Succeeds(c: Call) {
    IsWrite(c) && c.head.Done? && c.frame.Done?
  }

  /** The stream after successful writes: one head and a frame for every call. */
  ghost predicate Streaming(s: State, calls: seq<Call>) {
    && (forall k :: 0 <= k < |calls| ==> IsWrite(calls[k]))
    && !s.responseSent && !s.shut
    && (s.headerSent <==> calls != [])
    && (calls != [] ==> s.sent != [] && s.sent[0] == SseHead(Done))
    && (forall k :: 0 < k < |s.sent| ==> s.sent[k].Bytes?)
    && (calls == [] ==> s.sent == [])
    && Payload(s.sent) == Frames(Texts(calls))
  }

  lemma FramesMore(chunks: seq<string>, x: string)
    ensures Frames(chunks + [x]) == Frames(chunks) + Frame(x)
  {
    FramesSplit(chunks, [x]);
    FramesOne(x, []);
    assert [x] + [] == [x];
    assert Frame(x) + "" == Frame(x);
  }

  lemma AfterIsWrite(s: State, c: Call)
    requires IsWrite(c)
    ensures After(s, c) == AfterWrite(s, TextOf(c), c.head, c.frame)
  {
  }

  lemma StreamingMore(s: State, calls: seq<Call>, c: Call)
    requires Streaming(s, calls) && Succeeds(c)
    ensures After(s, c).1 && Streaming(After(s, c).0, calls + [c])
  {
    hide Frame, Frames, Payload, TextOf, Texts, After, FRESH;
    AfterIsWrite(s, c);
    var out := Bytes(Frame(TextOf(c)));
    PayloadMore([], SseHead(Done));
    PayloadMore(s.sent, out);
    PayloadMore([SseHead(Done)], out);
    PayloadOfHead();
    assert [SseHead(Done)] + [out] == [SseHead(Done), out];
    assert [] + [SseHead(Done), out] == [SseHead(Done), out];
    FramesMore(Texts(calls), TextOf(c));
    TextsMore(calls, c);
  }

  lemma PayloadOfHead()
    ensures Payload([]) == "" && Payload([SseHead(Done)]) == "" && Frames([]) == ""
  {
    assert [SseHead(Done)][..0] == [];
  }

  lemma StreamingStart()
    ensures Streaming(Run(FRESH, []), [])
  {
    assert Texts([]) == [];
  }

  lemma {:induction false} StreamingRun(calls: seq<Call>)
    requires forall k :: 0 <= k < |calls| ==> Succeeds(calls[k])
    ensures Streaming(Run(FRESH, calls), calls)
    decreases |calls|
  {
    hide *;
    if calls == [] {
      StreamingStart();
    } else {
      var n := |calls| - 1;
      StreamingRun(calls[..n]);
      RunLast(FRESH, calls);
      StreamingMore(Run(FRESH, calls[..n]), calls[..n], calls[n]);
      assert calls == calls[..n] + [calls[n]];
    }
  }

  lemma WritesOnly(calls: seq<Call>)
    requires forall k :: 0 <= k < |calls| ==> Succeeds(calls[k])
    ensures forall k :: 0 <= k < |calls| ==> IsWrite(calls[k])
  {
    forall k | 0 <= k < |calls| ensures IsWrite(calls[k]) { assert Succeeds(calls[k]); }
  }

  lemma TextsMore(calls: seq<Call>, c: Call)
    ensures Texts(calls + [c]) == Texts(calls) + [TextOf(c)]
  {
    assert (calls + [c])[..|calls|] == calls;
  }

  lemma RunMore(calls: seq<Call>, c: Call)
    ensures Run(FRESH, calls + [c]) == After(Run(FRESH, calls), c).0
  {
    var all := calls + [c];
    assert all[..|calls|] == calls;
    RunLast(FRESH, all);
  }

  /** No chunk that a caller wrote was empty; events never are. */
  ghost predicate NoEmptyChunk(calls: seq<Call>) {
    forall k :: 0 <= k < |calls| ==> calls[k].WriteChunk? ==> calls[k].chunk != ""
  }

  lemma TextsFilled(calls: seq<Call>)
    requires forall k :: 0 <= k < |calls| ==> IsWrite(calls[k])
    ensures AllFilled(Texts(calls)) <==> NoEmptyChunk(calls)
  {
    forall k | 0 <= k < |calls| ensures Texts(calls)[k] == "" <==> calls[k].WriteChunk? && calls[k].chunk == "" {
      if calls[k].WriteEvent? { assert |TextOf(calls[k])| > 0; }
    }
  }

  lemma CloseAdds(s: State, calls: seq<Call>, net: Net)
    requires Streaming(s, calls) && calls != []
    ensures var t := After(s, Close(net)).0; var end := Out(TERMINATOR, net).text;
            && t.sent == s.sent + [Bytes(end)] && t.shut
            && t.sent[0] == SseHead(Done) && (forall k :: 0 < k < |t.sent| ==> t.sent[k].Bytes?)
            && Payload(t.sent) == Frames(Texts(calls)) + end
  {
    hide Frames, Payload;
    PayloadMore(s.sent, Out(TERMINATOR, net));
  }

  /** After successful writes and a close, the stream is one head and a body that a client
      decodes to all that was written, with nothing left over - if and only if no empty
      chunk was written. */
  lemma ClientReads(calls: seq<Call>)
    requires calls != [] && forall k :: 0 <= k < |calls| ==> Succeeds(calls[k])
    ensures var sent := Run(FRESH, calls + [Close(Done)]).sent;
            && sent != [] && sent[0] == SseHead(Done) && (forall k :: 0 < k < |sent| ==> sent[k].Bytes?)
            && (Decode(Payload(sent)) == Ended(Concat(Texts(calls)), "") <==> NoEmptyChunk(calls))
  {
    WritesOnly(calls);
    hide Streaming, After, Run, Payload, Frames, Concat, Decode, NoEmptyChunk, AllFilled, Succeeds, IsWrite;
    StreamingRun(calls);
    var s := Run(FRESH, calls);
    RunMore(calls, Close(Done));
    CloseAdds(s, calls, Done);
    StreamIsRead(Texts(calls));
    TextsFilled(calls);
  }

  lemma ReadsCutEnd(chunks: seq<string>, n: nat)
    requires AllFilled(chunks) && n < |TERMINATOR|
    ensures Decode(Frames(chunks) + TERMINATOR[..n]) == Partial(Concat(chunks), TERMINATOR[..n])
  {
    hide Decode, Frames, Concat, Prepend;
    var part := TERMINATOR[..n];
    DecodeFrames(chunks, part);
    CutTerminator(n);
    PrependPartial(Concat(chunks), "", part);
    assert Concat(chunks) + "" == Concat(chunks);
  }

  /** When the close is cut short, a client has all the data and waits for the end. */
  lemma ClientMissesEnd(calls: seq<Call>, n: nat)
    requires calls != [] && (forall k :: 0 <= k < |calls| ==> Succeeds(calls[k])) && NoEmptyChunk(calls)
    requires n < |TERMINATOR|
    ensures exists rest ::
              Decode(Payload(Run(FRESH, calls + [Close(Cut(n))]).sent)) == Partial(Concat(Texts(calls)), rest)
  {
    WritesOnly(calls);
    hide *;
    StreamingRun(calls);
    RunMore(calls, Close(Cut(n)));
    CloseAdds(Run(FRESH, calls), calls, Cut(n));
    OutCut(TERMINATOR, n);
    TextsFilled(calls);
    ReadsCutEnd(Texts(calls), n);
  }

  lemma CutAdds(s: State, calls: seq<Call>, c: Call)
    requires Streaming(s, calls) && IsWrite(c) && c.head.Done?
    ensures After(s, c).1 == c.frame.Done?
    ensures Payload(After(s, c).0.sent) == Frames(Texts(calls)) + Out(Frame(TextOf(c)), c.frame).text
  {
    hide Frame, Frames, Payload, TextOf, Texts, After;
    AfterIsWrite(s, c);
    var out := Out(Frame(TextOf(c)), c.frame);
    PayloadMore(s.sent, out);
    PayloadMore([SseHead(Done)], out);
    PayloadOfHead();
    assert [SseHead(Done)] + [out] == [SseHead(Done), out];
    assert [] + [SseHead(Done), out] == [SseHead(Done), out];
  }

  /** When a write is cut short it returns false; as long as nothing follows, a client has
      exactly the data of the writes before it, and waits. */
  lemma ClientWaits(calls: seq<Call>, c: Call)
    requires (forall k :: 0 <= k < |calls| ==> Succeeds(calls[k])) && NoEmptyChunk(calls)
    requires IsWrite(c) && TextOf(c) != "" && c.head.Done? && c.frame.Cut? && c.frame.after < |Frame(TextOf(c))|
    ensures !After(Run(FRESH, calls), c).1
    ensures exists rest :: Decode(Payload(Run(FRESH, calls + [c]).sent)) == Partial(Concat(Texts(calls)), rest)
  {
    WritesOnly(calls);
    hide *;
    StreamingRun(calls);
    RunMore(calls, c);
    CutAdds(Run(FRESH, calls), calls, c);
    OutCut(Frame(TextOf(c)), c.frame.after);
    TextsFilled(calls);
    ReadsCut(Texts(calls), TextOf(c), c.frame.after);
  }

  lemma OutCut(bytes: string, n: nat)
    requires n < |bytes|
    ensures Out(bytes, Cut(n)) == Bytes(bytes[..n])
  {
  }

  lemma ReadsCut(chunks: seq<string>, text: string, n: nat)
    requires AllFilled(chunks) && text != "" && n < |Frame(text)|
    ensures Decode(Frames(chunks) + Frame(text)[..n]) == Partial(Concat(chunks), Frame(text)[..n])
  {
    hide *;
    var part := Frame(text)[..n];
    DecodeFrames(chunks, part);
    DecodeCutFrame(text, n);
    PrependPartial(Concat(chunks), "", part);
    assert Concat(chunks) + "" == Concat(chunks);
  }

  // ---------------------------------------------------------------------------
  // What the contract of the caller is for
  // ---------------------------------------------------------------------------

  lemma RunTwo(a: Call, b: Call)
    ensures Run(FRESH, [a, b]) == After(After(FRESH, a).0, b).0
  {
    hide After;
    var first, both := [a], [a] + [b];
    RunMore([a], b);
    RunMore([], a);
    assert [] + [a] == [a] && both == [a, b];
  }

  /** An empty chunk in front of "x": a client takes the stream as complete, and "x" is left
      over. */
  lemma EmptyChunkEnds()
    ensures var calls := [WriteChunk("", Done, Done), WriteChunk("x", Done, Done)];
            Decode(Payload(Run(FRESH, calls + [Close(Done)]).sent)) == Ended("", "1\r\nx\r\n" + TERMINATOR)
  {
    var calls := [WriteChunk("", Done, Done), WriteChunk("x", Done, Done)];
    TextsOfTwo(calls[0], calls[1]);
    FrameOfX();
    hide *;
    BothSucceed();
    StreamingRun(calls);
    RunMore(calls, Close(Done));
    CloseAdds(Run(FRESH, calls), calls, Done);
    OutAll();
    StreamReads(["", "x"]);
    FirstIsEmpty();
  }

  lemma BothSucceed()
    ensures var calls := [WriteChunk("", Done, Done), WriteChunk("x", Done, Done)];
            forall k :: 0 <= k < |calls| ==> Succeeds(calls[k])
  {
  }

  lemma OutAll()
    ensures Out(TERMINATOR, Done) == Bytes(TERMINATOR)
  {
  }

  lemma TextsOfTwo(a: Call, b: Call)
    ensures Texts([a, b]) == [TextOf(a), TextOf(b)]
  {
    TextsMore([a], b);
    TextsMore([], a);
    assert [a] + [b] == [a, b] && [] + [a] == [a];
    assert Texts([]) == [];
  }

  lemma FrameOfX()
    ensures Frames(["x"]) == "1\r\nx\r\n"
  {
    assert Hex(1) == "1";
    assert ["x"][1..] == [];
    assert Frame("x") == "1\r\nx\r\n";
    assert Frames([]) == "";
  }

  lemma FirstIsEmpty()
    ensures FirstEmpty(["", "x"]) == 0 && ["", "x"][..0] == [] && ["", "x"][1..] == ["x"] && Concat([]) == ""
  {
  }
}
