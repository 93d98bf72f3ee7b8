/** The chunk frames that SseWriterImpl of include/utilxx/http_server.h writes, and a
    decoder after section 7.1 of RFC 9112. */
module ChunkedCoding {
  import opened Basics
  import opened Digits

  // ---------------------------------------------------------------------------
  // Writing
  // ---------------------------------------------------------------------------

  const CRLF := "\r\n"
  const TERMINATOR := "0\r\n\r\n"

  /** One chunk: {:x}, CRLF, data, CRLF. */
  function Frame(data: string): string {
    Hex(|data|) + CRLF + data + CRLF
  }

  function Frames(chunks: seq<string>): string {
    if chunks == [] then "" else Frame(chunks[0]) + Frames(chunks[1..])
  }

  predicate AllFilled(chunks: seq<string>) {
    forall k :: 0 <= k < |chunks| ==> chunks[k] != ""
  }

  // ---------------------------------------------------------------------------
  // Reading
  // ---------------------------------------------------------------------------

  /** What a reader has of a body: all of it, or a first part because more bytes must
      come, each with the bytes not used yet; or a first part in front of an error. */
  datatype Decoded = Ended(data: string, rest: string) | Partial(data: string, rest: string) | Malformed(data: string)

  function Prepend(data: string, d: Decoded): Decoded {
    match d
    case Ended(more, rest) => Ended(data + more, rest)
    case Partial(more, rest) => Partial(data + more, rest)
    case Malformed(more) => Malformed(data + more)
  }

  predicate CrlfAt(s: string, i: nat) {
    i + 2 <= |s| && s[i] == '\r' && s[i + 1] == '\n'
  }

  /** Where the first line ends; the length if it does not. */
  function LineEnd(s: string): (k: nat)
    ensures k <= |s| && (k < |s| ==> CrlfAt(s, k))
    ensures forall i :: 0 <= i < k ==> !CrlfAt(s, i)
  {
    if s == "" || CrlfAt(s, 0) then 0
    else
      var k := 1 + LineEnd(s[1..]);
      assert forall i :: 0 < i < k ==> (CrlfAt(s, i) <==> CrlfAt(s[1..], i - 1));
      k
  }

  function HexRun(s: string): (k: nat)
    ensures k <= |s| && AllHexDigits(s[..k]) && (k < |s| ==> !IsHexDigit(s[k]))
  {
    if s == "" || !IsHexDigit(s[0]) then 0
    else
      var k := HexRun(s[1..]);
      assert s[..k + 1] == [s[0]] + s[1..][..k];
      k + 1
  }

  /** chunk-size, with chunk extensions left out of account. */
  function ChunkSize(line: string): Option<nat> {
    var k := HexRun(line);
    if k == 0 || (k < |line| && line[k] != ';') then None else Some(HexValue(line[..k]))
  }

  /** The bytes behind the trailer section, which an empty line ends. */
  function AfterTrailer(s: string): Option<string>
    decreases |s|
  {
    var k := LineEnd(s);
    if k == |s| then None
    else if k == 0 then Some(s[2..])
    else AfterTrailer(s[k + 2..])
  }

  function Decode(s: string): Decoded
    decreases |s|
  {
    var k := LineEnd(s);
    if k == |s| then Partial("", s)
    else
      var rest := s[k + 2..];
      match ChunkSize(s[..k])
      case None => Malformed("")
      case Some(n) =>
        if n == 0 then
          match AfterTrailer(rest)
          case None => Partial("", s)
          case Some(after) => Ended("", after)
        else if |rest| < n + 2 then Partial("", s)
        else if !CrlfAt(rest, n) then Malformed("")
        else Prepend(rest[..n], Decode(rest[n + 2..]))
  }

  // ---------------------------------------------------------------------------
  // Reading what was written
  // ---------------------------------------------------------------------------

  lemma LineEndAt(s: string, k: nat)
    requires CrlfAt(s, k) && forall i :: 0 <= i < k ==> s[i] != '\r'
    ensures LineEnd(s) == k
  {
  }

  lemma HexRunAll(s: string)
    requires AllHexDigits(s)
    ensures HexRun(s) == |s|
  {
  }

  lemma SizeLine(n: nat)
    ensures ChunkSize(Hex(n)) == Some(n)
  {
    HexRunAll(Hex(n));
    HexReadsBack(n);
    assert Hex(n)[..|Hex(n)|] == Hex(n);
  }

  /** The line in front of a chunk. */
  lemma HeadOfFrame(n: nat, tail: string)
    ensures var s := Hex(n) + CRLF + tail; var k := |Hex(n)|;
            LineEnd(s) == k && k < |s| && s[..k] == Hex(n) && s[k + 2..] == tail
  {
    hide Hex;
    var s := Hex(n) + CRLF + tail;
    var k := |Hex(n)|;
    assert s[k] == '\r' && s[k + 1] == '\n';
    forall i | 0 <= i < k ensures s[i] != '\r' { assert IsHexDigit(Hex(n)[i]); }
    LineEndAt(s, k);
  }

  lemma Regroup(a: string, b: string, c: string, d: string, e: string)
    ensures a + b + c + d + e == a + b + (c + (d + e))
  {
  }

  lemma DataOfFrame(data: string, more: string)
    ensures var t := data + (CRLF + more);
            && |t| >= |data| + 2 && CrlfAt(t, |data|)
            && t[..|data|] == data && t[|data| + 2..] == more
  {
  }

  /** One line of the decoder. */
  lemma DecodeUnfolds(s: string, k: nat, n: nat)
    requires LineEnd(s) == k < |s| && ChunkSize(s[..k]) == Some(n) && n > 0
    ensures k + 2 <= |s|
    ensures var rest := s[k + 2..];
            Decode(s) == if |rest| < n + 2 then Partial("", s)
                         else if !CrlfAt(rest, n) then Malformed("")
                         else Prepend(rest[..n], Decode(rest[n + 2..]))
  {
    hide LineEnd, ChunkSize;
  }

  lemma DecodeFrame(data: string, more: string)
    requires data != ""
    ensures Decode(Frame(data) + more) == Prepend(data, Decode(more))
  {
    hide LineEnd, ChunkSize, Hex, Decode, CrlfAt, Prepend;
    var tail := data + (CRLF + more);
    Regroup(Hex(|data|), CRLF, data, CRLF, more);
    var s := Hex(|data|) + CRLF + tail;
    HeadOfFrame(|data|, tail);
    SizeLine(|data|);
    DataOfFrame(data, more);
    DecodeUnfolds(s, |Hex(|data|)|, |data|);
  }

  lemma EmptyFrame()
    ensures Frame("") == TERMINATOR
  {
    assert Hex(0) == "0";
  }

  lemma AfterEmptyLine(more: string)
    ensures AfterTrailer(CRLF + more) == Some(more)
  {
    var s := CRLF + more;
    LineEndAt(s, 0);
    assert s[2..] == more;
  }

  lemma DecodeLast(s: string, k: nat)
    requires LineEnd(s) == k < |s| && ChunkSize(s[..k]) == Some(0)
    ensures k + 2 <= |s|
    ensures Decode(s) == match AfterTrailer(s[k + 2..]) case None => Partial("", s) case Some(after) => Ended("", after)
  {
    hide LineEnd, ChunkSize, AfterTrailer;
  }

  /** A frame without data ends the body, whatever comes behind it. */
  lemma DecodeTerminator(more: string)
    ensures Decode(TERMINATOR + more) == Ended("", more)
  {
    hide LineEnd, ChunkSize, Decode, AfterTrailer, CrlfAt;
    EmptyFrame();
    HeadOfFrame(0, CRLF + more);
    SizeLine(0);
    AfterEmptyLine(more);
    assert Hex(0) == "0";
    var s := Hex(0) + CRLF + (CRLF + more);
    assert TERMINATOR + more == s;
    DecodeLast(s, |Hex(0)|);
  }

  lemma PrependTwice(a: string, b: string, d: Decoded)
    ensures Prepend(a, Prepend(b, d)) == Prepend(a + b, d)
  {
    match d
    case Ended(more, rest) => assert a + (b + more) == a + b + more;
    case Partial(more, rest) => assert a + (b + more) == a + b + more;
    case Malformed(more) => assert a + (b + more) == a + b + more;
  }

  lemma PrependNothing(d: Decoded)
    ensures Prepend("", d) == d
  {
    match d
    case Ended(more, rest) => assert "" + more == more;
    case Partial(more, rest) => assert "" + more == more;
    case Malformed(more) => assert "" + more == more;
  }

  /** Frames with data in them are read one after the other. */
  lemma {:induction false} DecodeFrames(chunks: seq<string>, more: string)
    requires AllFilled(chunks)
    ensures Decode(Frames(chunks) + more) == Prepend(Concat(chunks), Decode(more))
    decreases |chunks|
  {
    hide Decode, Prepend, Frame;
    if chunks == [] {
      assert "" + more == more;
      PrependNothing(Decode(more));
    } else {
      var rest := chunks[1..];
      DecodeFrames(rest, more);
      Joins(Frame(chunks[0]), Frames(rest), more);
      DecodeFrame(chunks[0], Frames(rest) + more);
      PrependTwice(chunks[0], Concat(rest), Decode(more));
    }
  }

  /** Where the first chunk without data is; the number of chunks if there is none. */
  function FirstEmpty(chunks: seq<string>): (e: nat)
    ensures e <= |chunks| && AllFilled(chunks[..e]) && (e < |chunks| ==> chunks[e] == "")
  {
    if chunks == [] || chunks[0] == "" then 0
    else
      var e := FirstEmpty(chunks[1..]);
      assert chunks[..e + 1] == [chunks[0]] + chunks[1..][..e];
      e + 1
  }

  lemma {:induction false} FramesSplit(a: seq<string>, b: seq<string>)
    ensures Frames(a + b) == Frames(a) + Frames(b)
  {
    hide Frame;
    if a == [] {
      assert a + b == b;
    } else {
      assert (a + b)[1..] == a[1..] + b;
      FramesSplit(a[1..], b);
      Joins(Frame(a[0]), Frames(a[1..]), Frames(b));
    }
  }

  lemma PrependEnded(data: string, rest: string)
    ensures Prepend(data, Ended("", rest)) == Ended(data, rest)
  {
    assert data + "" == data;
  }

  lemma ReadsAll(chunks: seq<string>)
    requires AllFilled(chunks)
    ensures Decode(Frames(chunks) + TERMINATOR) == Ended(Concat(chunks), "")
  {
    hide Decode, Frame, Frames, Concat, Prepend, AllFilled;
    DecodeFrames(chunks, TERMINATOR);
    DecodeTerminator("");
    assert TERMINATOR + "" == TERMINATOR;
    PrependEnded(Concat(chunks), "");
  }

  lemma ReadsUpTo(before: seq<string>, after: seq<string>)
    requires AllFilled(before)
    ensures Decode(Frames(before + ([""] + after)) + TERMINATOR) == Ended(Concat(before), Frames(after) + TERMINATOR)
  {
    hide *;
    var left := Frames(after) + TERMINATOR;
    EmptyFrame();
    FramesSplit(before, [""] + after);
    FramesOne("", after);
    Joins(Frames(before), TERMINATOR + Frames(after), TERMINATOR);
    Joins(TERMINATOR, Frames(after), TERMINATOR);
    DecodeFrames(before, TERMINATOR + left);
    DecodeTerminator(left);
    PrependEnded(Concat(before), left);
  }

  /** What a reader makes of the chunks and the terminator: the data up to the first chunk
      without any; and the rest of the stream is left over. */
  lemma StreamReads(chunks: seq<string>)
    ensures var e := FirstEmpty(chunks);
            Decode(Frames(chunks) + TERMINATOR) ==
            Ended(Concat(chunks[..e]), if e < |chunks| then Frames(chunks[e + 1..]) + TERMINATOR else "")
  {
    hide *;
    var e := FirstEmpty(chunks);
    if e == |chunks| {
      assert chunks[..e] == chunks;
      ReadsAll(chunks);
    } else {
      SplitAt(chunks, e);
      ReadsUpTo(chunks[..e], chunks[e + 1..]);
    }
  }

  lemma FramesOne(x: string, rest: seq<string>)
    ensures Frames([x] + rest) == Frame(x) + Frames(rest)
  {
    assert ([x] + rest)[1..] == rest;
  }

  /** The stream carries exactly the data, with its one end at the very end, if and only if
      every chunk has data in it. */
  lemma StreamIsRead(chunks: seq<string>)
    ensures Decode(Frames(chunks) + TERMINATOR) == Ended(Concat(chunks), "") <==> AllFilled(chunks)
  {
    hide Decode, Frame, Frames, Concat;
    StreamReads(chunks);
    var e := FirstEmpty(chunks);
    assert chunks[..|chunks|] == chunks;
    if e == |chunks| {
      assert AllFilled(chunks[..e]);
    } else {
      assert Frames(chunks[e + 1..]) + TERMINATOR != "";
    }
  }

  // ---------------------------------------------------------------------------
  // A stream that was cut off
  // ---------------------------------------------------------------------------

  /** The bytes are a first part of a chunk, but not all of it: the reader waits. */
  lemma DecodeCutFrame(data: string, k: nat)
    requires data != "" && k < |Frame(data)|
    ensures Decode(Frame(data)[..k]) == Partial("", Frame(data)[..k])
  {
    hide LineEnd, ChunkSize, Decode, Hex, HexValue;
    var head := Hex(|data|) + CRLF;
    var s := Frame(data)[..k];
    if k < |head| {
      CutLine(Hex(|data|), data + CRLF, k);
      assert Frame(data) == Hex(|data|) + CRLF + (data + CRLF);
      NoLine(s);
    } else {
      var tail := (data + CRLF)[..k - |head|];
      assert s == head + tail;
      HeadOfFrame(|data|, tail);
      SizeLine(|data|);
      DecodeUnfolds(s, |Hex(|data|)|, |data|);
    }
  }

  lemma CutLine(line: string, tail: string, k: nat)
    requires k < |line + CRLF| && AllHexDigits(line)
    ensures forall i :: 0 <= i < k ==> !CrlfAt((line + CRLF + tail)[..k], i)
  {
    var s := (line + CRLF + tail)[..k];
    forall i | 0 <= i < k ensures !CrlfAt(s, i) {
      if i < |line| { assert s[i] == line[i] && IsHexDigit(line[i]); }
    }
  }

  lemma NoLine(s: string)
    requires forall i :: 0 <= i < |s| ==> !CrlfAt(s, i)
    ensures Decode(s) == Partial("", s)
  {
  }

  /** What a reader has of a stream: the data of some first chunks, and wants more. */
  ghost predicate WaitsAfter(s: string, chunks: seq<string>, j: nat) {
    j <= |chunks| && exists rest :: Decode(s) == Partial(Concat(chunks[..j]), rest)
  }

  lemma {:induction false} DecodeCutFrames(chunks: seq<string>, k: nat) returns (j: nat)
    requires AllFilled(chunks) && k < |Frames(chunks)|
    ensures WaitsAfter(Frames(chunks)[..k], chunks, j)
    decreases |chunks|
  {
    hide Decode, Frame, Prepend;
    var f, rest := Frame(chunks[0]), chunks[1..];
    if k < |f| {
      DecodeCutFrame(chunks[0], k);
      assert Frames(chunks)[..k] == f[..k];
      assert Concat(chunks[..0]) == "";
      j := 0;
    } else {
      var more := Frames(rest)[..k - |f|];
      assert Frames(chunks)[..k] == f + more;
      DecodeFrame(chunks[0], more);
      j := DecodeCutFrames(rest, k - |f|);
      var r :| Decode(more) == Partial(Concat(rest[..j]), r);
      ConcatTake(chunks, j);
      PrependPartial(chunks[0], Concat(rest[..j]), r);
      j := j + 1;
    }
  }

  lemma CutTerminator(k: nat)
    requires k < |TERMINATOR|
    ensures Decode(TERMINATOR[..k]) == Partial("", TERMINATOR[..k])
  {
    hide LineEnd, ChunkSize, AfterTrailer, Decode;
    var s := TERMINATOR[..k];
    if k < 3 {
      NoLine(s);
    } else {
      EmptyFrame();
      HeadOfFrame(0, s[3..]);
      SizeLine(0);
      assert Hex(0) == "0" && s == Hex(0) + CRLF + s[3..];
      DecodeLast(s, 1);
      NoEmptyLine(s[3..]);
    }
  }

  lemma NoEmptyLine(s: string)
    requires forall i :: 0 <= i < |s| ==> !CrlfAt(s, i)
    ensures AfterTrailer(s) == None
  {
  }

  /** A stream of chunks with data that ends anywhere, with nothing behind, is read as the
      data of its first chunks. */
  lemma DecodeCut(chunks: seq<string>, k: nat) returns (j: nat)
    requires AllFilled(chunks) && k < |Frames(chunks) + TERMINATOR|
    ensures WaitsAfter((Frames(chunks) + TERMINATOR)[..k], chunks, j)
  {
    hide Decode, Frames, Prepend, Concat, AllFilled;
    var all := Frames(chunks);
    if k < |all| {
      assert (all + TERMINATOR)[..k] == all[..k];
      j := DecodeCutFrames(chunks, k);
    } else {
      var s := TERMINATOR[..k - |all|];
      assert (all + TERMINATOR)[..k] == all + s;
      DecodeFrames(chunks, s);
      CutTerminator(k - |all|);
      PrependPartial(Concat(chunks), "", s);
      assert Concat(chunks) + "" == Concat(chunks) && chunks[..|chunks|] == chunks;
      j := |chunks|;
    }
  }

  lemma ConcatTake(chunks: seq<string>, j: nat)
    requires j + 1 <= |chunks|
    ensures Concat(chunks[..j + 1]) == chunks[0] + Concat(chunks[1..][..j])
  {
    assert chunks[..j + 1][1..] == chunks[1..][..j];
  }

  lemma PrependPartial(data: string, more: string, rest: string)
    ensures Prepend(data, Partial(more, rest)) == Partial(data + more, rest)
  {
  }
}
