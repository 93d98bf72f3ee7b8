/** makeUnifiedDiff of include/utilxx/diff_util.h, and a reader for what it prints. */
module UnifiedDiff {
  import opened Basics
  import opened Digits
  import opened Lines
  import opened EditScripts
  import opened DiffOrder
  import opened LineDiff

  /** The mark in front of a line of the body. */
  function Mark(kind: DiffLineType): char {
    match kind
    case Context => ' '
    case Delete => '-'
    case Add => '+'
  }

  function BodyLine(l: DiffLine): Line {
    [Mark(l.kind)] + l.text
  }

  function Body(diff: seq<DiffLine>): seq<Line> {
    if diff == [] then [] else [BodyLine(diff[0])] + Body(diff[1..])
  }

  function HunkLine(oldCount: nat, newCount: nat): Line {
    "@@ -1," + Decimal(oldCount) + " +1," + Decimal(newCount) + " @@"
  }

  function Header(path: string, oldCount: nat, newCount: nat): seq<Line> {
    ["--- a/" + path, "+++ b/" + path, HunkLine(oldCount, newCount)]
  }

  /** A diff of the texts, printed. */
  ghost predicate IsPrinted(out: string, oldText: string, newText: string, path: string) {
    var a, b := SplitLines(oldText), SplitLines(newText);
    exists diff :: IsDiff(diff, a, b) && out == Unlines(Header(path, |a|, |b|) + Body(diff))
  }

  lemma PrintedIs(out: string, oldText: string, newText: string, path: string, diff: seq<DiffLine>)
    requires var a, b := SplitLines(oldText), SplitLines(newText);
             IsDiff(diff, a, b) && out == Unlines(Header(path, |a|, |b|) + Body(diff))
    ensures IsPrinted(out, oldText, newText, path)
  {
    hide SplitLines, IsDiff, Header, Body, Unlines;
  }

  /** The printer. */
  method MakeUnifiedDiff(oldText: string, newText: string, path: string)
    returns (out: string)
    ensures IsPrinted(out, oldText, newText, path)
  {
    var oldLines := SplitDiffLines(oldText);
    var newLines := SplitDiffLines(newText);
    var oldCount, newCount := |oldLines|, |newLines|;
    var lines := ComputeLineDiff(oldText, newText);
    assert IsDiff(lines, oldLines, newLines);
    hide *;
    out := "";
    out := out + "--- a/" + path + "\n";
    out := out + "+++ b/" + path + "\n";
    out := out + HunkLine(oldCount, newCount) + "\n";
    ghost var header := Header(path, oldCount, newCount);
    HeaderPrints(path, oldCount, newCount);
    BodyStart(header, lines);
    for k := 0 to |lines|
      invariant out == Unlines(header + Body(lines[..k]))
    {
      var l := lines[k];
      BodyPrints(header, lines, k);
      match l.kind {
        case Context => out := out + " " + l.text + "\n";
        case Delete => out := out + "-" + l.text + "\n";
        case Add => out := out + "+" + l.text + "\n";
      }
    }
    assert lines[..|lines|] == lines;
    PrintedIs(out, oldText, newText, path, lines);
  }

  lemma BodyStart(header: seq<Line>, lines: seq<DiffLine>)
    ensures header + Body(lines[..0]) == header
  {
    assert lines[..0] == [];
  }

  lemma HeaderPrints(path: string, oldCount: nat, newCount: nat)
    ensures Unlines(Header(path, oldCount, newCount)) ==
            "" + "--- a/" + path + "\n" + "+++ b/" + path + "\n" + HunkLine(oldCount, newCount) + "\n"
  {
    var h := Header(path, oldCount, newCount);
    assert Unlines(h[1..][1..]) == h[2] + "\n" + "";
    assert Unlines(h[1..]) == h[1] + "\n" + Unlines(h[1..][1..]);
  }

  lemma BodyPrints(header: seq<Line>, lines: seq<DiffLine>, k: nat)
    requires k < |lines|
    ensures Unlines(header + Body(lines[..k + 1])) ==
            Unlines(header + Body(lines[..k])) + [Mark(lines[k].kind)] + lines[k].text + "\n"
    ensures Mark(lines[k].kind) == match lines[k].kind case Context => ' ' case Delete => '-' case Add => '+'
  {
    assert lines[..k + 1] == lines[..k] + [lines[k]];
    BodyMore(lines[..k], lines[k]);
    var ls, x := header + Body(lines[..k]), BodyLine(lines[k]);
    assert header + Body(lines[..k + 1]) == ls + [x];
    UnlinesMore(ls, x);
  }

  lemma {:induction false} BodyMore(ls: seq<DiffLine>, l: DiffLine)
    ensures Body(ls + [l]) == Body(ls) + [BodyLine(l)]
  {
    if ls == [] {
    } else {
      assert (ls + [l])[1..] == ls[1..] + [l];
      BodyMore(ls[1..], l);
    }
  }

  lemma {:induction false} UnlinesMore(ls: seq<Line>, x: Line)
    ensures Unlines(ls + [x]) == Unlines(ls) + x + "\n"
  {
    if ls == [] {
      assert Unlines([x]) == x + "\n" + Unlines([x][1..]);
    } else {
      assert (ls + [x])[1..] == ls[1..] + [x];
      UnlinesMore(ls[1..], x);
    }
  }

  // ---------------------------------------------------------------------------
  // Reading it back
  // ---------------------------------------------------------------------------

  datatype Op = Op(kind: DiffLineType, text: Line)

  datatype Patch = Patch(path: string, oldCount: nat, newCount: nat, ops: seq<Op>)

  function Ops(diff: seq<DiffLine>): seq<Op> {
    if diff == [] then [] else [Op(diff[0].kind, diff[0].text)] + Ops(diff[1..])
  }

  /** A number in front of a given text, and what follows both. */
  function ReadNumber(s: string, after: string): Option<(nat, string)> {
    var k := DigitRun(s);
    if k > 0 && StartsWith(s[k..], after) then Some((Value(s[..k]), s[k + |after|..])) else None
  }

  function ReadHunk(line: Line): Option<(nat, nat)> {
    if !StartsWith(line, "@@ -1,") then None
    else
      match ReadNumber(line[6..], " +1,")
      case None => None
      case Some((oldCount, rest)) =>
        match ReadNumber(rest, " @@")
        case Some((newCount, "")) => Some((oldCount, newCount))
        case _ => None
  }

  function ReadBody(ls: seq<Line>): Option<seq<Op>> {
    if ls == [] then Some([])
    else if ls[0] == "" then None
    else
      match ReadBody(ls[1..])
      case None => None
      case Some(ops) =>
        var text := ls[0][1..];
        match ls[0][0]
        case ' ' => Some([Op(Context, text)] + ops)
        case '-' => Some([Op(Delete, text)] + ops)
        case '+' => Some([Op(Add, text)] + ops)
        case _ => None
  }

  function ReadDiff(s: string): Option<Patch> {
    var ls := SplitLines(s);
    if |ls| < 3 || !StartsWith(ls[0], "--- a/") || !StartsWith(ls[1], "+++ b/") || ls[0][6..] != ls[1][6..] then None
    else
      match (ReadHunk(ls[2]), ReadBody(ls[3..]))
      case (Some((oldCount, newCount)), Some(ops)) => Some(Patch(ls[0][6..], oldCount, newCount, ops))
      case _ => None
  }

  lemma {:induction false} DigitRunIs(d: string, rest: string)
    requires AllDigits(d) && (rest != "" ==> !IsDigit(rest[0]))
    ensures DigitRun(d + rest) == |d|
  {
    if d == "" {
      assert d + rest == rest;
    } else {
      assert (d + rest)[1..] == d[1..] + rest;
      DigitRunIs(d[1..], rest);
    }
  }

  lemma NumberReadsBack(n: nat, after: string, rest: string)
    requires after != "" && !IsDigit(after[0])
    ensures ReadNumber(Decimal(n) + after + rest, after) == Some((n, rest))
  {
    var s := Decimal(n) + after + rest;
    var k := |Decimal(n)|;
    assert s == Decimal(n) + (after + rest);
    DigitRunIs(Decimal(n), after + rest);
    DecimalReadsBack(n);
    assert s[..k] == Decimal(n) && s[k..][..|after|] == after && s[k + |after|..] == rest;
  }

  lemma Behind(prefix: string, s: string)
    ensures StartsWith(prefix + s, prefix) && (prefix + s)[|prefix|..] == s
  {
  }

  lemma HunkReadsBack(oldCount: nat, newCount: nat)
    ensures ReadHunk(HunkLine(oldCount, newCount)) == Some((oldCount, newCount))
  {
    hide ReadNumber, Decimal, StartsWith, AllDigits;
    var old', new' := Decimal(oldCount), Decimal(newCount);
    var rest := new' + " @@";
    JoinsThree("@@ -1,", old', " +1,", rest);
    Joins("@@ -1," + old' + " +1,", new', " @@");
    Behind("@@ -1,", old' + " +1," + rest);
    NumberReadsBack(oldCount, " +1,", rest);
    EmptyInFront(rest);
    NumberReadsBack(newCount, " @@", "");
  }

  lemma {:induction false} BodyReadsBack(diff: seq<DiffLine>)
    ensures ReadBody(Body(diff)) == Some(Ops(diff))
  {
    if diff == [] {
    } else {
      BodyReadsBack(diff[1..]);
      assert Body(diff)[1..] == Body(diff[1..]) && Body(diff)[0][1..] == diff[0].text;
    }
  }

  lemma {:induction false} BodyHasLines(diff: seq<DiffLine>)
    requires forall k :: 0 <= k < |diff| ==> NoNewline(diff[k].text)
    ensures AllLines(Body(diff))
  {
    if diff == [] {
    } else {
      BodyHasLines(diff[1..]);
    }
  }

  lemma {:induction false} DigitsHaveNoNewline(n: nat)
    ensures NoNewline(Decimal(n))
  {
    assert forall i :: 0 <= i < |Decimal(n)| ==> IsDigit(Decimal(n)[i]);
  }

  /** The lines of a script come from the texts, so they hold no newline. */
  lemma {:induction false} ScriptHasLines(script: seq<DiffLine>, a: seq<Line>, b: seq<Line>, i: nat, j: nat)
    requires i <= |a| && j <= |b| && IsScript(script, a, b, i, j) && AllLines(a) && AllLines(b)
    ensures forall k :: 0 <= k < |script| ==> NoNewline(script[k].text)
    decreases |script|
  {
    if script == [] {
    } else {
      match script[0].kind {
        case Context => ScriptHasLines(script[1..], a, b, i + 1, j + 1);
        case Add => ScriptHasLines(script[1..], a, b, i, j + 1);
        case Delete => ScriptHasLines(script[1..], a, b, i + 1, j);
      }
      forall k | 0 <= k < |script| ensures NoNewline(script[k].text) {
        if k > 0 { assert script[k] == script[1..][k - 1]; }
      }
    }
  }

  /** What the printer prints, the reader reads: the path, the counts, and kind and text of
      every line; this is so exactly when the path holds no newline. */
  lemma DiffReadsBack(diff: seq<DiffLine>, a: seq<Line>, b: seq<Line>, path: string)
    requires IsScript(diff, a, b, 0, 0) && AllLines(a) && AllLines(b)
    ensures ReadDiff(Unlines(Header(path, |a|, |b|) + Body(diff))) == Some(Patch(path, |a|, |b|, Ops(diff))) <==>
            NoNewline(path)
  {
    if NoNewline(path) {
      CleanPathReadsBack(diff, a, b, path);
    } else {
      ReadPathIsClean(Unlines(Header(path, |a|, |b|) + Body(diff)));
    }
  }

  lemma ReadPathIsClean(s: string)
    ensures ReadDiff(s).Some? ==> NoNewline(ReadDiff(s).value.path)
  {
    SplitKeepsText(s);
    var ls := SplitLines(s);
    if ReadDiff(s).Some? {
      assert NoNewline(ls[0]) && ReadDiff(s).value.path == ls[0][6..];
    }
  }

  lemma CleanPathReadsBack(diff: seq<DiffLine>, a: seq<Line>, b: seq<Line>, path: string)
    requires IsScript(diff, a, b, 0, 0) && AllLines(a) && AllLines(b) && NoNewline(path)
    ensures ReadDiff(Unlines(Header(path, |a|, |b|) + Body(diff))) == Some(Patch(path, |a|, |b|, Ops(diff)))
  {
    var ls := Header(path, |a|, |b|) + Body(diff);
    ScriptHasLines(diff, a, b, 0, 0);
    BodyHasLines(diff);
    HeaderHasLines(path, |a|, |b|);
    SplitOfUnlines(ls);
    BodyReadsBack(diff);
    hide *;
    PartsReadBack(Unlines(ls), path, |a|, |b|, Body(diff), Ops(diff));
  }

  lemma PartsReadBack(s: string, path: string, oldCount: nat, newCount: nat, body: seq<Line>, ops: seq<Op>)
    requires SplitLines(s) == Header(path, oldCount, newCount) + body && ReadBody(body) == Some(ops)
    ensures ReadDiff(s) == Some(Patch(path, oldCount, newCount, ops))
  {
    hide SplitLines, ReadBody, HunkLine, ReadHunk;
    var ls := SplitLines(s);
    HunkReadsBack(oldCount, newCount);
    assert ls[0] == "--- a/" + path && ls[1] == "+++ b/" + path && ls[2] == HunkLine(oldCount, newCount);
    assert ls[0][..6] == "--- a/" && ls[1][..6] == "+++ b/";
    assert ls[0][6..] == path && ls[1][6..] == path && ls[3..] == body;
  }

  lemma HeaderHasLines(path: string, oldCount: nat, newCount: nat)
    requires NoNewline(path)
    ensures AllLines(Header(path, oldCount, newCount))
  {
    DigitsHaveNoNewline(oldCount);
    DigitsHaveNoNewline(newCount);
  }

  // ---------------------------------------------------------------------------
  // Applying it
  // ---------------------------------------------------------------------------

  function CountKinds(ops: seq<Op>, kinds: set<DiffLineType>): nat {
    if ops == [] then 0 else (if ops[0].kind in kinds then 1 else 0) + CountKinds(ops[1..], kinds)
  }

  /** Applying a patch: lines to keep or delete must be there. */
  function ApplyOps(ops: seq<Op>, lines: seq<Line>): Option<seq<Line>> {
    if ops == [] then (if lines == [] then Some([]) else None)
    else
      match ops[0].kind
      case Add =>
        (match ApplyOps(ops[1..], lines)
         case None => None
         case Some(rest) => Some([ops[0].text] + rest))
      case Delete =>
        if lines == [] || lines[0] != ops[0].text then None else ApplyOps(ops[1..], lines[1..])
      case Context =>
        if lines == [] || lines[0] != ops[0].text then None
        else
          match ApplyOps(ops[1..], lines[1..])
          case None => None
          case Some(rest) => Some([ops[0].text] + rest)
  }

  /** The lines of the body turn the old text into the new one, and are as many of each
      kind as the counts of the hunk say. */
  lemma {:induction false} OpsApply(script: seq<DiffLine>, a: seq<Line>, b: seq<Line>, i: nat, j: nat)
    requires i <= |a| && j <= |b| && IsScript(script, a, b, i, j)
    ensures ApplyOps(Ops(script), a[i..]) == Some(b[j..])
    ensures CountKinds(Ops(script), {Context, Delete}) == |a| - i
    ensures CountKinds(Ops(script), {Context, Add}) == |b| - j
    decreases |script|
  {
    if script == [] {
      assert a[i..] == [] && b[j..] == [];
    } else {
      hide ApplyOps, CountKinds;
      var rest, l := script[1..], script[0];
      assert Ops(script) == [Op(l.kind, l.text)] + Ops(rest);
      match l.kind
      case Context =>
        OpsApply(rest, a, b, i + 1, j + 1);
        ApplyOne(Op(l.kind, l.text), Ops(rest), a[i + 1..], b[j + 1..]);
        SplitAt(a, i);
        SplitAt(b, j);
      case Add =>
        OpsApply(rest, a, b, i, j + 1);
        ApplyOne(Op(l.kind, l.text), Ops(rest), a[i..], b[j + 1..]);
        SplitAt(b, j);
      case Delete =>
        OpsApply(rest, a, b, i + 1, j);
        ApplyOne(Op(l.kind, l.text), Ops(rest), a[i + 1..], b[j..]);
        SplitAt(a, i);
    }
  }

  /** One more line in front of a patch. */
  lemma ApplyOne(op: Op, rest: seq<Op>, lines: seq<Line>, after: seq<Line>)
    requires ApplyOps(rest, lines) == Some(after)
    ensures ApplyOps([op] + rest, if op.kind == Add then lines else [op.text] + lines) ==
            Some(if op.kind == Delete then after else [op.text] + after)
    ensures forall kinds ::
              CountKinds([op] + rest, kinds) == (if op.kind in kinds then 1 else 0) + CountKinds(rest, kinds)
  {
    assert ([op] + rest)[1..] == rest;
    assert ([op.text] + lines)[1..] == lines;
  }

  /** Reading a printed diff and applying it to the old lines gives the new lines; these give
      the new text back if and only if it is empty or ends with a newline. */
  lemma PrintedDiffPatches(out: string, oldText: string, newText: string, path: string)
    requires IsPrinted(out, oldText, newText, path) && NoNewline(path)
    ensures var a, b := SplitLines(oldText), SplitLines(newText);
            var read := ReadDiff(out);
            && read.Some? && read.value.path == path
            && ApplyOps(read.value.ops, a) == Some(b)
            && read.value.oldCount == CountKinds(read.value.ops, {Context, Delete})
            && read.value.newCount == CountKinds(read.value.ops, {Context, Add})
            && (Unlines(b) == newText <==> newText == "" || newText[|newText| - 1] == '\n')
  {
    var a, b := SplitLines(oldText), SplitLines(newText);
    var diff :| IsDiff(diff, a, b) && out == Unlines(Header(path, |a|, |b|) + Body(diff));
    SplitKeepsText(oldText);
    SplitKeepsText(newText);
    DiffReadsBack(diff, a, b, path);
    OpsApply(diff, a, b, 0, 0);
    assert a[0..] == a && b[0..] == b;
  }

  /** Whether the new text ends with a newline does not show. */
  lemma FinalNewlineLost(out: string, oldText: string, newText: string, path: string)
    requires newText != "" && newText[|newText| - 1] != '\n'
    ensures IsPrinted(out, oldText, newText, path) <==> IsPrinted(out, oldText, newText + "\n", path)
  {
    SplitKeepsText(newText);
    SplitKeepsText(newText + "\n");
    SplitOfUnlines(SplitLines(newText));
    assert SplitLines(newText + "\n") == SplitLines(newText);
  }

  /** The texts determine what is printed, and no added line stands directly in front of a
      deleted one. */
  lemma PrintedDetermined(out: string, other: string, oldText: string, newText: string, path: string)
    requires IsPrinted(out, oldText, newText, path) && IsPrinted(other, oldText, newText, path)
    ensures out == other
    ensures exists body ::
              AddsBehind(body) && out == Unlines(Header(path, |SplitLines(oldText)|, |SplitLines(newText)|) + body)
  {
    var a, b := SplitLines(oldText), SplitLines(newText);
    var diff :| IsDiff(diff, a, b) && out == Unlines(Header(path, |a|, |b|) + Body(diff));
    var again :| IsDiff(again, a, b) && other == Unlines(Header(path, |a|, |b|) + Body(again));
    hide IsDiff, SplitLines, Unlines, Header, Body;
    DiffDetermined(diff, again, a, b);
    BodyOrder(diff);
  }

  /** No line that begins with a plus directly in front of one that begins with a minus. */
  ghost predicate AddsBehind(body: seq<Line>) {
    && (forall k :: 0 <= k < |body| ==> body[k] != "")
    && (forall k :: 0 <= k < |body| - 1 ==> !(body[k][0] == '+' && body[k + 1][0] == '-'))
  }

  lemma BodyOrder(diff: seq<DiffLine>)
    requires DeletesFirst(diff)
    ensures AddsBehind(Body(diff))
  {
    BodyAt(diff);
    var body := Body(diff);
    forall k | 0 <= k < |body| - 1 ensures !(body[k][0] == '+' && body[k + 1][0] == '-') {
      assert !(diff[k].kind == Add && diff[k + 1].kind == Delete);
    }
  }

  lemma {:induction false} BodyAt(diff: seq<DiffLine>)
    ensures |Body(diff)| == |diff|
    ensures forall k :: 0 <= k < |diff| ==> Body(diff)[k] == BodyLine(diff[k])
  {
    if diff == [] {
    } else {
      BodyAt(diff[1..]);
    }
  }

  /** For example. */
  lemma OneLineChanged(out: string)
    requires IsPrinted(out, "a", "b", "f")
    ensures out == "--- a/f\n+++ b/f\n@@ -1,1 +1,1 @@\n-a\n+b\n"
  {
    var diff := [DiffLine(Delete, "a", 1, 0), DiffLine(Add, "b", 0, 1)];
    OneLineEach();
    ExampleDiff(diff);
    ExamplePrinted(diff);
    hide *;
    PrintedIs("--- a/f\n+++ b/f\n@@ -1,1 +1,1 @@\n-a\n+b\n", "a", "b", "f", diff);
    PrintedDetermined(out, "--- a/f\n+++ b/f\n@@ -1,1 +1,1 @@\n-a\n+b\n", "a", "b", "f");
  }

  lemma OneLineEach()
    ensures SplitLines("a") == ["a"] && SplitLines("b") == ["b"]
  {
  }

  lemma ExampleDiff(diff: seq<DiffLine>)
    requires diff == [DiffLine(Delete, "a", 1, 0), DiffLine(Add, "b", 0, 1)]
    ensures IsDiff(diff, ["a"], ["b"])
  {
    var a, b: seq<Line> := ["a"], ["b"];
    assert diff[1..] == [DiffLine(Add, "b", 0, 1)] && diff[1..][1..] == [];
    GuardTestsProduct(1, 1);
    assert !TooLarge(1, 1);
    assert Lcs(a, b, 1, 0) == 0 && Lcs(a, b, 0, 1) == 0 && Lcs(a, b, 0, 0) == 0;
    assert Lcs(a, b, 1, 1) == 0;
    assert Kept(diff[1..][1..]) == [] && Kept(diff[1..]) == [] && Kept(diff) == [];
    assert IsScript(diff[1..], a, b, 1, 0) && Settled(diff[1..], a, b, 1, 0);
  }

  lemma UnlinesOne(x: Line, rest: seq<Line>)
    ensures Unlines([x] + rest) == x + "\n" + Unlines(rest)
  {
    assert ([x] + rest)[1..] == rest;
  }

  lemma ExamplePrinted(diff: seq<DiffLine>)
    requires diff == [DiffLine(Delete, "a", 1, 0), DiffLine(Add, "b", 0, 1)]
    ensures Unlines(Header("f", 1, 1) + Body(diff)) == "--- a/f\n+++ b/f\n@@ -1,1 +1,1 @@\n-a\n+b\n"
  {
    hide *;
    var l1, l2, l3 := "--- a/f", "+++ b/f", "@@ -1,1 +1,1 @@";
    ExampleBody(diff);
    ExampleHeader();
    FiveLines(l1, l2, l3, "-a", "+b");
    UnlinesOne(l1, [l2] + ([l3] + (["-a"] + (["+b"] + []))));
    UnlinesOne(l2, [l3] + (["-a"] + (["+b"] + [])));
    UnlinesOne(l3, ["-a"] + (["+b"] + []));
    UnlinesOne("-a", ["+b"] + []);
    UnlinesOne("+b", []);
    NoUnlines();
    assert l1 + "\n" + (l2 + "\n" + (l3 + "\n" + ("-a" + "\n" + ("+b" + "\n" + ""))))
        == "--- a/f\n+++ b/f\n@@ -1,1 +1,1 @@\n-a\n+b\n";
  }

  lemma ExampleBody(diff: seq<DiffLine>)
    requires diff == [DiffLine(Delete, "a", 1, 0), DiffLine(Add, "b", 0, 1)]
    ensures Body(diff) == ["-a", "+b"]
  {
    assert diff[1..] == [DiffLine(Add, "b", 0, 1)] && diff[1..][1..] == [];
    assert BodyLine(diff[0]) == "-a" && BodyLine(diff[1]) == "+b";
    assert Body(diff[1..][1..]) == [] && Body(diff[1..]) == ["+b"];
  }

  lemma ExampleHeader()
    ensures Header("f", 1, 1) == ["--- a/f", "+++ b/f", "@@ -1,1 +1,1 @@"]
  {
    assert Decimal(1) == "1";
    assert "--- a/" + "f" == "--- a/f" && "+++ b/" + "f" == "+++ b/f";
    assert HunkLine(1, 1) == "@@ -1,1 +1,1 @@";
  }

  lemma FiveLines(a: Line, b: Line, c: Line, d: Line, e: Line)
    ensures [a, b, c] + [d, e] == [a] + ([b] + ([c] + ([d] + ([e] + []))))
  {
  }

  lemma NoUnlines()
    ensures Unlines([]) == ""
  {
  }
}
