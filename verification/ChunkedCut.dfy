/** What a reader makes of streams that were cut: with nothing behind the cut, and with the
    terminator right behind it. */
module ChunkedCut {
  import opened Basics
  import opened Digits
  import opened ChunkedCoding

  // ---------------------------------------------------------------------------
  // Nothing behind the cut
  // ---------------------------------------------------------------------------

  /** The stream is well-formed as far as it goes, and gives the data of the first j chunks. */
  ghost predicate GivesFirst(r: Decoded, chunks: seq<string>, j: nat) {
    j <= |chunks| && !r.Malformed? && r.data == Concat(chunks[..j])
  }

  lemma FramesAround(before: seq<string>, after: seq<string>)
    ensures Frames(before + ([""] + after)) == Frames(before) + TERMINATOR + Frames(after)
  {
    hide *;
    EmptyFrame();
    FramesSplit(before, [""] + after);
    FramesOne("", after);
    Joins(Frames(before), TERMINATOR, Frames(after));
  }

  lemma TakeInside<T>(a: seq<T>, b: seq<T>, k: nat)
    requires k <= |a + b|
    ensures (a + b)[..k] == if k < |a| then a[..k] else a + b[..k - |a|]
  {
  }

  lemma WaitsGives(s: string, chunks: seq<string>, j: nat)
    requires WaitsAfter(s, chunks, j)
    ensures GivesFirst(Decode(s), chunks, j)
  {
    hide Decode, Concat;
    var rest :| Decode(s) == Partial(Concat(chunks[..j]), rest);
  }

  lemma TakeAgain<T>(s: seq<T>, e: nat, j: nat)
    requires j <= e <= |s|
    ensures s[..e][..j] == s[..j]
  {
  }

  lemma EmptyStream()
    ensures Decode("") == Partial("", "")
  {
    NoLine("");
  }

  lemma FilledCut(chunks: seq<string>, k: nat) returns (j: nat)
    requires AllFilled(chunks) && k <= |Frames(chunks)|
    ensures GivesFirst(Decode(Frames(chunks)[..k]), chunks, j)
  {
    hide *;
    var all := Frames(chunks);
    if k < |all| {
      j := DecodeCutFrames(chunks, k);
      WaitsGives(all[..k], chunks, j);
    } else {
      j := |chunks|;
      TakeAll(all);
      TakeAll(chunks);
      EmptyInFront(all);
      DecodeFrames(chunks, "");
      EmptyStream();
      PrependPartial(Concat(chunks), "", "");
      EmptyInFront(Concat(chunks));
      GivesAll(Decode(all), chunks);
    }
  }

  lemma GivesAll(r: Decoded, chunks: seq<string>)
    requires r.Partial? && r.data == Concat(chunks)
    ensures GivesFirst(r, chunks, |chunks|)
  {
    hide Concat;
    TakeAll(chunks);
  }

  /** Any chunks, empty ones too, cut anywhere: only data that was written comes out. */
  lemma AnyCut(chunks: seq<string>, k: nat) returns (j: nat)
    requires k <= |Frames(chunks)|
    ensures GivesFirst(Decode(Frames(chunks)[..k]), chunks, j)
  {
    hide *;
    var e := FirstEmpty(chunks);
    if e == |chunks| {
      TakeAll(chunks);
      j := FilledCut(chunks, k);
    } else {
      var before, after := chunks[..e], chunks[e + 1..];
      SplitAt(chunks, e);
      FramesAround(before, after);
      var front := Frames(before) + TERMINATOR;
      TakeInside(front, Frames(after), k);
      if k < |front| {
        j := DecodeCut(before, k);
        WaitsGives(front[..k], before, j);
        GivesInFront(Decode(front[..k]), chunks, e, j);
      } else {
        var more := Frames(after)[..k - |front|];
        j := e;
        Joins(Frames(before), TERMINATOR, more);
        DecodeFrames(before, TERMINATOR + more);
        DecodeTerminator(more);
        PrependEnded(Concat(before), more);
        GivesUpTo(Decode(front + more), chunks, e);
      }
    }
  }

  lemma GivesInFront(r: Decoded, chunks: seq<string>, e: nat, j: nat)
    requires e <= |chunks| && GivesFirst(r, chunks[..e], j)
    ensures GivesFirst(r, chunks, j)
  {
    hide Concat;
    TakeAgain(chunks, e, j);
  }

  lemma GivesUpTo(r: Decoded, chunks: seq<string>, e: nat)
    requires e <= |chunks| && r.Ended? && r.data == Concat(chunks[..e])
    ensures GivesFirst(r, chunks, e)
  {
  }

  // ---------------------------------------------------------------------------
  // The terminator behind the cut
  // ---------------------------------------------------------------------------

  /** How many bytes the size line of a frame has. */
  function LineSize(d: string): nat {
    |Hex(|d|)| + 2
  }

  /** How many bytes of data are missing from a frame cut behind n bytes. */
  function Missing(d: string, n: nat): int
  {
    LineSize(d) + |d| - n
  }

  /** What a reader takes for data of the frame: bytes of the terminator stand in for the
      missing ones when these are three, or one. */
  function Spoiled(d: string, n: nat): string {
    if n < LineSize(d) then ""
    else if Missing(d, n) == 3 && |d| >= 3 then d[..|d| - 3] + "0\r\n"
    else if Missing(d, n) == 1 && |d| >= 1 then d[..|d| - 1] + "0"
    else ""
  }

  /** Three bytes of data are missing, and they are not the first three of the terminator; or
      one is missing, and it is not a zero. */
  predicate ComesOutWrong(d: string, n: nat) {
    n >= LineSize(d)
    && ((Missing(d, n) == 3 && |d| >= 3 && d[|d| - 3..] != "0\r\n")
        || (Missing(d, n) == 1 && |d| >= 1 && d[|d| - 1..] != "0"))
  }

  lemma HeadOfLine(line: string, tail: string)
    requires forall i :: 0 <= i < |line| ==> !CrlfAt(line + CRLF, i)
    ensures var s := line + CRLF + tail; var k := |line|;
            LineEnd(s) == k && k < |s| && s[..k] == line && s[k + 2..] == tail
  {
    var s := line + CRLF + tail;
    var k := |line|;
    assert CrlfAt(s, k);
    forall i | 0 <= i < k ensures !CrlfAt(s, i) {
      assert s[i] == (line + CRLF)[i] && s[i + 1] == (line + CRLF)[i + 1];
      assert !CrlfAt(line + CRLF, i);
    }
  }

  lemma {:induction false} HexLeads(n: nat, k: nat)
    requires n > 0 && 0 < k <= |Hex(n)|
    ensures AllHexDigits(Hex(n)[..k]) && HexValue(Hex(n)[..k]) > 0
  {
    if k == |Hex(n)| {
      assert Hex(n)[..k] == Hex(n);
      HexReadsBack(n);
    } else {
      assert n >= 16;
      HexLeads(n / 16, k);
      assert Hex(n)[..k] == Hex(n / 16)[..k];
    }
  }

  lemma {:induction false} HexRunIs(s: string, k: nat)
    requires k < |s| && AllHexDigits(s[..k]) && !IsHexDigit(s[k])
    ensures HexRun(s) == k
    decreases k
  {
    if k == 0 {
    } else {
      assert s[0] == s[..k][0];
      assert s[1..][..k - 1] == s[..k][1..];
      HexRunIs(s[1..], k - 1);
    }
  }

  lemma CutAtStart(d: string)
    ensures Decode(Frame(d)[..0] + TERMINATOR) == Ended("", "")
  {
    hide Decode, Frame;
    assert Frame(d)[..0] + TERMINATOR == TERMINATOR + "";
    DecodeTerminator("");
  }

  lemma FrameStarts(d: string, n: nat)
    requires n <= |Frame(d)|
    ensures n <= |Hex(|d|)| ==> Frame(d)[..n] == Hex(|d|)[..n]
    ensures n == |Hex(|d|)| + 1 ==> Frame(d)[..n] == Hex(|d|) + "\r"
    ensures n >= LineSize(d) ==> n - LineSize(d) <= |d + CRLF|
                                 && Frame(d)[..n] == Hex(|d|) + CRLF + (d + CRLF)[..n - LineSize(d)]
  {
    hide *;
    var h := Hex(|d|);
    FrameParts(d);
    var line := h + CRLF;
    TakeInside(line, d + CRLF, n);
    TakeInside(h, CRLF, if n < |line| then n else |line|);
    OneOfCrlf();
    TakeInside(h, CRLF, |h|);
    TakeAll(h);
    EmptyInFront(h);
    TakeAll(line);
  }

  lemma FrameParts(d: string)
    ensures Frame(d) == Hex(|d|) + CRLF + (d + CRLF) && LineSize(d) == |Hex(|d|) + CRLF|
  {
    hide Hex;
    Joins(Hex(|d|) + CRLF, d, CRLF);
  }

  lemma OneOfCrlf()
    ensures CRLF[..0] == "" && CRLF[..1] == "\r" && |CRLF| == 2
  {
  }

  lemma {:induction false} ValueBehind(a: string, b: string)
    requires AllHexDigits(a) && AllHexDigits(b) && HexValue(a) > 0
    ensures AllHexDigits(a + b) && HexValue(a + b) > HexValue(b)
    decreases |b|
  {
    if b == "" {
      EmptyInFront(a);
    } else {
      var init := b[..|b| - 1];
      ValueBehind(a, init);
      assert (a + b)[..|a + b| - 1] == a + init;
    }
  }

  lemma LongerSize(digits: string, n: nat)
    requires AllHexDigits(digits) && HexValue(digits) > 0
    ensures var line := digits + Hex(n);
            AllHexDigits(line) && HexValue(line) > n && ChunkSize(line) == Some(HexValue(line))
  {
    var line := digits + Hex(n);
    HexReadsBack(n);
    ValueBehind(digits, Hex(n));
    HexRunAll(line);
    TakeAll(line);
  }

  /** Cut inside the size: the size line behind lengthens it, and the reader waits. */
  lemma CutInSize(d: string, n: nat, e: string)
    requires d != "" && 0 < n <= |Hex(|d|)|
    ensures n <= |Frame(d)|
    ensures var r := Decode(Frame(d)[..n] + Frame(e)); r.Partial? && r.data == ""
  {
    FrameStarts(d, n);
    var digits := Hex(|d|)[..n];
    var line := digits + Hex(|e|);
    HexLeads(|d|, n);
    LongerSize(digits, |e|);
    var s := line + CRLF + (e + CRLF);
    HexLine(line);
    HeadOfLine(line, e + CRLF);
    hide LineEnd, ChunkSize, Hex, HexValue, Decode, Frame;
    FrameParts(e);
    Joins(digits, Hex(|e|) + CRLF, e + CRLF);
    Joins(digits, Hex(|e|), CRLF);
    assert Frame(d)[..n] + Frame(e) == s;
    DecodeUnfolds(s, |line|, HexValue(line));
  }

  lemma HexLine(line: string)
    requires AllHexDigits(line)
    ensures forall i :: 0 <= i < |line| ==> !CrlfAt(line + CRLF, i)
  {
    forall i | 0 <= i < |line| ensures !CrlfAt(line + CRLF, i) {
      assert (line + CRLF)[i] == line[i] && IsHexDigit(line[i]);
    }
  }

  /** Cut inside the end of the size line: the line is no size. */
  lemma CutInLineEnd(d: string, e: string)
    ensures |Hex(|d|)| + 1 <= |Frame(d)|
    ensures Decode(Frame(d)[..|Hex(|d|)| + 1] + Frame(e)) == Malformed("")
  {
    var h, g := Hex(|d|), Hex(|e|);
    FrameStarts(d, |h| + 1);
    var line := h + "\r" + g;
    var s := line + CRLF + (e + CRLF);
    forall i | 0 <= i < |line| ensures !CrlfAt(line + CRLF, i) {
      if i < |h| {
        assert (line + CRLF)[i] == h[i] && IsHexDigit(h[i]);
      } else if i == |h| {
        assert (line + CRLF)[i + 1] == g[0] && IsHexDigit(g[0]);
      } else {
        assert (line + CRLF)[i] == g[i - |h| - 1] && IsHexDigit(g[i - |h| - 1]);
      }
    }
    HeadOfLine(line, e + CRLF);
    NoSize(h, g);
    hide LineEnd, ChunkSize, Hex, Frame;
    FrameParts(e);
    Joins(h + "\r", g + CRLF, e + CRLF);
    Joins(h + "\r", g, CRLF);
    assert Frame(d)[..|h| + 1] + Frame(e) == s;
    assert ChunkSize(s[..|line|]) == None;
  }

  lemma NoSize(digits: string, more: string)
    requires AllHexDigits(digits)
    ensures ChunkSize(digits + "\r" + more) == None
  {
    var line := digits + "\r" + more;
    assert line[..|digits|] == digits;
    HexRunIs(line, |digits|);
  }

  lemma LoneCrlf()
    ensures Decode(CRLF) == Malformed("")
  {
    LineEndAt(CRLF, 0);
    assert CRLF[..0] == "" && HexRun("") == 0;
  }

  /** The frame of d as far as its size line, with any bytes behind. */
  lemma BehindSizeLine(d: string, tail: string)
    requires d != ""
    ensures var s := Hex(|d|) + CRLF + tail;
            Decode(s) == if |tail| < |d| + 2 then Partial("", s)
                         else if !CrlfAt(tail, |d|) then Malformed("")
                         else Prepend(tail[..|d|], Decode(tail[|d| + 2..]))
  {
    hide LineEnd, ChunkSize, Hex, Decode, CrlfAt, Prepend;
    HeadOfFrame(|d|, tail);
    SizeLine(|d|);
    DecodeUnfolds(Hex(|d|) + CRLF + tail, |Hex(|d|)|, |d|);
  }

  lemma Sizes(d: string, n: nat)
    requires LineSize(d) <= n < |Frame(d)|
    ensures n - LineSize(d) < |d| + 2 && Missing(d, n) == |d| - (n - LineSize(d)) && |TERMINATOR| == 5
    ensures |d + CRLF| == |d| + 2
  {
    hide Hex;
    FrameParts(d);
  }

  /** Cut inside the data, or inside the end behind it. */
  lemma CutInData(d: string, n: nat)
    requires d != "" && LineSize(d) <= n < |Frame(d)|
    ensures var r := Decode(Frame(d)[..n] + TERMINATOR);
            && r.data == Spoiled(d, n)
            && (r.Partial? <==> Missing(d, n) >= 3)
            && (r.Malformed? <==> Missing(d, n) < 3)
            && (Missing(d, n) == 3 ==> r.rest == "")
  {
    hide LineSize, Missing, Hex, Frame, Decode, CrlfAt;
    Sizes(d, n);
    var m := n - LineSize(d);
    var part := (d + CRLF)[..m];
    var tail := part + TERMINATOR;
    FrameStarts(d, n);
    Joins(Hex(|d|) + CRLF, part, TERMINATOR);
    BehindSizeLine(d, tail);
    if Missing(d, n) <= 3 {
      DataTail(d, m);
      EmptyStream();
      LoneCrlf();
      EmptyInFront(tail[..|d|]);
      if m <= |d| { TakeMost(d, m); }
    }
  }

  lemma TakeMost(d: string, m: nat)
    requires m <= |d|
    ensures m + 3 == |d| ==> d[..m] == d[..|d| - 3]
    ensures m + 1 == |d| ==> d[..m] == d[..|d| - 1]
  {
  }

  /** Where the data of a frame should end, when at most three bytes of it are missing. */
  lemma DataTail(d: string, m: nat)
    requires |d| <= m + 3 && m < |d| + 2 && d != ""
    ensures var tail := (d + CRLF)[..m] + TERMINATOR;
            && |tail| >= |d| + 2
            && (CrlfAt(tail, |d|) <==> m + 3 == |d| || m + 1 == |d|)
            && (m + 3 == |d| ==> tail[..|d|] == d[..m] + "0\r\n" && tail[|d| + 2..] == "")
            && (m + 1 == |d| ==> tail[..|d|] == d[..m] + "0" && tail[|d| + 2..] == CRLF)
  {
    var tail := (d + CRLF)[..m] + TERMINATOR;
    if m <= |d| {
      assert (d + CRLF)[..m] == d[..m];
      assert forall i :: 0 <= i < 5 ==> tail[m + i] == TERMINATOR[i];
    } else {
      assert (d + CRLF)[..m] == d + "\r";
      assert tail[|d|] == '\r' && tail[|d| + 1] == '0';
    }
  }

  /** A frame cut inside, with the terminator right behind it: what comes out as its data,
      and how the reader is left. Only a frame cut off altogether looks like an end. */
  lemma TerminatorBehindCut(d: string, n: nat)
    requires d != "" && n < |Frame(d)|
    ensures var r := Decode(Frame(d)[..n] + TERMINATOR);
            && r.data == Spoiled(d, n)
            && (r.Ended? <==> n == 0) && (n == 0 ==> r.rest == "")
            && (r.Malformed? <==> n + 1 == LineSize(d) || (n >= LineSize(d) && Missing(d, n) < 3))
            && (n >= LineSize(d) && Missing(d, n) == 3 ==> r.rest == "")
  {
    hide Decode, Frame, Hex;
    if n == 0 {
      CutAtStart(d);
    } else if n + 2 <= LineSize(d) {
      EmptyFrame();
      CutInSize(d, n, "");
    } else if n + 1 == LineSize(d) {
      EmptyFrame();
      CutInLineEnd(d, "");
    } else {
      CutInData(d, n);
    }
  }

  /** So bytes that nobody wrote come out in exactly these cases. */
  lemma SpoiledIsWrong(d: string, n: nat)
    ensures StartsWith(d, Spoiled(d, n)) <==> !ComesOutWrong(d, n)
  {
    hide Hex;
    if n >= LineSize(d) && Missing(d, n) == 3 && |d| >= 3 {
      assert d == d[..|d| - 3] + d[|d| - 3..];
      SameEnd(d[..|d| - 3], d[|d| - 3..], "0\r\n");
      TakeAll(d);
    } else if n >= LineSize(d) && Missing(d, n) == 1 && |d| >= 1 {
      assert d == d[..|d| - 1] + d[|d| - 1..];
      SameEnd(d[..|d| - 1], d[|d| - 1..], "0");
      TakeAll(d);
    }
  }

  lemma SameEnd(a: string, x: string, y: string)
    requires |x| == |y|
    ensures a + x == a + y <==> x == y
  {
    assert (a + x)[|a|..] == x && (a + y)[|a|..] == y;
  }

  // ---------------------------------------------------------------------------
  // Any frame behind the cut
  // ---------------------------------------------------------------------------

  /** The bytes behind the cut fill up the chunk: where its data should end is a line end. */
  predicate FillsUp(d: string, n: nat, more: string) {
    n >= LineSize(d) && Missing(d, n) >= 0 && CrlfAt(more, Missing(d, n))
  }

  lemma CrlfBehind(a: string, more: string, k: nat)
    requires |a| <= k
    ensures CrlfAt(a + more, k) <==> CrlfAt(more, k - |a|)
    ensures k <= |a + more| ==> (a + more)[..k] == a + more[..k - |a|]
    ensures k + 2 <= |a + more| ==> (a + more)[k + 2..] == more[k + 2 - |a|..]
  {
  }

  /** Cut inside the data, and any bytes behind: the reader counts on to the size it was
      told. */
  lemma BytesBehindCut(d: string, n: nat, more: string)
    requires d != "" && LineSize(d) <= n && n + 2 <= |Frame(d)|
    ensures Missing(d, n) >= 0 && n - LineSize(d) <= |d|
    ensures var m, r := Missing(d, n), Decode(Frame(d)[..n] + more);
            r == if |more| < m + 2 then Partial("", Frame(d)[..n] + more)
                 else if !CrlfAt(more, m) then Malformed("")
                 else Prepend(d[..n - LineSize(d)] + more[..m], Decode(more[m + 2..]))
  {
    hide Hex, Frame, Decode, CrlfAt;
    FrameParts(d);
    var part := d[..n - LineSize(d)];
    FrameStarts(d, n);
    TakeInside(d, CRLF, n - LineSize(d));
    TakeAll(d);
    EmptyInFront(d);
    assert CRLF[..0] == "";
    assert (d + CRLF)[..n - LineSize(d)] == part;
    Joins(Hex(|d|) + CRLF, part, more);
    BehindSizeLine(d, part + more);
    CrlfBehind(part, more, |d|);
  }

  /** Cut inside the line end behind the data: a frame does not begin with a line feed. */
  lemma CutInDataEnd(d: string, e: string)
    requires d != ""
    ensures |Frame(d)| > 0 && Decode(Frame(d)[..|Frame(d)| - 1] + Frame(e)) == Malformed("")
  {
    hide Hex, Frame, Decode;
    var n := |Frame(d)| - 1;
    FrameParts(d);
    FrameParts(e);
    FrameStarts(d, n);
    var part := d + "\r";
    assert (d + CRLF)[..n - LineSize(d)] == part;
    Joins(Hex(|d|) + CRLF, part, Frame(e));
    BehindSizeLine(d, part + Frame(e));
    assert (part + Frame(e))[|d| + 1] == Frame(e)[0] == Hex(|e|)[0];
    assert IsHexDigit(Hex(|e|)[0]);
  }

  /** A frame cut anywhere, with the frame of e behind it: cut off altogether it is not missed;
      otherwise the reader accepts a chunk if and only if the bytes behind fill it up. */
  lemma FrameBehindCut(d: string, n: nat, e: string)
    requires d != "" && n < |Frame(d)|
    ensures var m, r := Missing(d, n), Decode(Frame(d)[..n] + Frame(e));
            && (n == 0 ==> r == Decode(Frame(e)))
            && (FillsUp(d, n, Frame(e)) ==>
                r == Prepend(d[..|d| - m] + Frame(e)[..m], Decode(Frame(e)[m + 2..])))
            && (n > 0 && !FillsUp(d, n, Frame(e)) ==>
                && r.data == "" && !r.Ended?
                && (r.Malformed? <==> n + 1 == LineSize(d) || (n >= LineSize(d) && |Frame(e)| >= m + 2)))
  {
    hide Decode, Frame, Hex;
    if n == 0 {
      TakeAll(Frame(d));
      EmptyInFront(Frame(e));
    } else if n + 2 <= LineSize(d) {
      CutInSize(d, n, e);
    } else if n + 1 == LineSize(d) {
      CutInLineEnd(d, e);
    } else {
      FrameParts(d);
      FrameParts(e);
      if n + 1 == |Frame(d)| {
        CutInDataEnd(d, e);
      } else {
        BytesBehindCut(d, n, Frame(e));
      }
    }
  }
}
