/** The text of an event as SseWriterImpl of include/utilxx/http_server.h writes it, and a
    reader of event streams after section 9.2.6 of the HTML standard. */
module EventStream {
  import opened Basics

  /** "event: ...", if there is one, and "data: ...", each on a line, and an empty line. */
  function EventText(event: string, data: string): string {
    (if event != "" then "event: " + event + "\n" else "") + "data: " + data + "\n\n"
  }

  // ---------------------------------------------------------------------------
  // Reading
  // ---------------------------------------------------------------------------

  datatype Event = Event(name: string, data: string)

  /** Lines end with a carriage return, a line feed, or both. */
  predicate IsBreak(c: char) {
    c == '\r' || c == '\n'
  }

  predicate NoBreak(s: string) {
    forall i :: 0 <= i < |s| ==> !IsBreak(s[i])
  }

  /** Where the first line ends; the length if it does not. */
  function BreakAt(s: string): (k: nat)
    ensures k <= |s| && NoBreak(s[..k]) && (k < |s| ==> IsBreak(s[k]))
  {
    if s == "" || IsBreak(s[0]) then 0
    else
      var k := 1 + BreakAt(s[1..]);
      assert s[..k] == [s[0]] + s[1..][..k - 1];
      k
  }

  /** Where the line behind that one begins. */
  function NextLine(s: string, k: nat): (n: nat)
    requires k < |s|
    ensures k < n <= |s|
  {
    if s[k] == '\r' && k + 1 < |s| && s[k + 1] == '\n' then k + 2 else k + 1
  }

  function ColonAt(line: string): (k: nat)
    ensures k <= |line| && (k < |line| ==> line[k] == ':') && forall i :: 0 <= i < k ==> line[i] != ':'
  {
    if line == "" || line[0] == ':' then 0 else 1 + ColonAt(line[1..])
  }

  /** The name of a field, and its value without a space in front. */
  function Field(line: string): (string, string) {
    var k := ColonAt(line);
    if k == |line| then (line, "")
    else
      var value := line[k + 1..];
      (line[..k], if StartsWith(value, " ") then value[1..] else value)
  }

  /** The events dispatched from here, with the name and the data collected so far. Every piece
      of data is followed by a line feed, and the last one is dropped. */
  function Dispatched(s: string, name: string, data: string): seq<Event>
    decreases |s|
  {
    var k := BreakAt(s);
    if k == |s| then []
    else
      var line, rest := s[..k], s[NextLine(s, k)..];
      if line == "" then
        (if data == "" then [] else [Event(name, data[..|data| - 1])]) + Dispatched(rest, "", "")
      else
        var (field, value) := Field(line);
        if field == "event" then Dispatched(rest, value, data)
        else if field == "data" then Dispatched(rest, name, data + value + "\n")
        else Dispatched(rest, name, data)
  }

  /** The events of a stream. */
  function ReadEvents(s: string): seq<Event> {
    Dispatched(s, "", "")
  }

  // ---------------------------------------------------------------------------
  // Reading what was written
  // ---------------------------------------------------------------------------

  lemma {:induction false} BreakIs(line: string, rest: string)
    requires NoBreak(line)
    ensures var s := line + ("\n" + rest);
            && BreakAt(s) == |line| && |line| < |s| && NextLine(s, |line|) == |line| + 1
            && s[..|line|] == line && s[|line| + 1..] == rest
  {
    var s := line + ("\n" + rest);
    if line == "" {
    } else {
      assert s[1..] == line[1..] + ("\n" + rest);
      BreakIs(line[1..], rest);
    }
  }

  /** One line of the reader. */
  lemma LineRead(line: string, rest: string, name: string, data: string)
    requires NoBreak(line)
    ensures Dispatched(line + ("\n" + rest), name, data) ==
            if line == "" then
              (if data == "" then [] else [Event(name, data[..|data| - 1])]) + Dispatched(rest, "", "")
            else if Field(line).0 == "event" then Dispatched(rest, Field(line).1, data)
            else if Field(line).0 == "data" then Dispatched(rest, name, data + Field(line).1 + "\n")
            else Dispatched(rest, name, data)
  {
    BreakIs(line, rest);
    hide Field, BreakAt, NextLine;
  }

  lemma {:induction false} ColonIs(name: string, value: string)
    requires ':' !in name
    ensures ColonAt(name + (":" + value)) == |name|
  {
    var line := name + (":" + value);
    if name == "" {
    } else {
      assert line[1..] == name[1..] + (":" + value);
      ColonIs(name[1..], value);
    }
  }

  lemma FieldIs(name: string, value: string)
    requires ':' !in name
    ensures Field(name + (":" + (" " + value))) == (name, value)
  {
    var line := name + (":" + (" " + value));
    ColonIs(name, " " + value);
    assert line[|name| + 1..] == " " + value && line[..|name|] == name;
    assert (" " + value)[1..] == value;
  }

  lemma EventLines(event: string, data: string, rest: string)
    ensures EventText(event, data) + rest ==
            (if event != "" then "event: " + event + ("\n" + ("data: " + data + ("\n" + ("" + ("\n" + rest)))))
             else "data: " + data + ("\n" + ("" + ("\n" + rest))))
  {
  }

  lemma FieldLine(field: string, prefix: string, value: string)
    requires prefix == field + (":" + " ") && ':' !in field && NoBreak(field) && NoBreak(value)
    ensures Field(prefix + value) == (field, value) && NoBreak(prefix + value) && prefix + value != ""
  {
    FieldIs(field, value);
    assert prefix + value == field + (":" + (" " + value));
  }

  /** An event without line breaks is read as it was written, whatever comes behind it. */
  lemma OneEvent(event: string, data: string, rest: string)
    requires NoBreak(event) && NoBreak(data)
    ensures ReadEvents(EventText(event, data) + rest) == [Event(event, data)] + ReadEvents(rest)
  {
    EventLines(event, data, rest);
    assert "event" + (":" + " ") == "event: " && "data" + (":" + " ") == "data: ";
    FieldLine("event", "event: ", event);
    FieldLine("data", "data: ", data);
    hide Dispatched, Field, EventText, NoBreak;
    var tail := "" + ("\n" + rest);
    if event != "" {
      LineRead("event: " + event, "data: " + data + ("\n" + tail), "", "");
    }
    LineRead("data: " + data, tail, event, "");
    assert NoBreak("") by { NothingBreaks(); }
    LineRead("", rest, event, "" + data + "\n");
    assert ("" + data + "\n")[..|data|] == data;
  }

  lemma NothingBreaks()
    ensures NoBreak("")
  {
  }

  // ---------------------------------------------------------------------------
  // Line breaks inside
  // ---------------------------------------------------------------------------

  lemma FieldClean(line: string)
    requires NoBreak(line)
    ensures NoBreak(Field(line).1)
    ensures Field(line).0 == "data" ==> |Field(line).1| + 1 <= |line|
  {
  }

  predicate NoReturn(s: string) {
    forall i :: 0 <= i < |s| ==> s[i] != '\r'
  }

  ghost predicate CleanEvents(es: seq<Event>) {
    forall k :: 0 <= k < |es| ==> NoBreak(es[k].name) && NoReturn(es[k].data)
  }

  lemma MoreClean(e: Event, es: seq<Event>)
    requires CleanEvents(es) && NoBreak(e.name) && NoReturn(e.data)
    ensures CleanEvents([e] + es)
  {
  }

  /** No name that is read holds a line break, and no data a carriage return. */
  lemma {:induction false} ReadsClean(s: string, name: string, data: string)
    requires NoBreak(name) && NoReturn(data)
    ensures CleanEvents(Dispatched(s, name, data))
    decreases |s|
  {
    hide BreakAt, NextLine, Field, NoBreak, NoReturn, CleanEvents;
    var k := BreakAt(s);
    if k == |s| {
      NoEvents();
    } else {
      var line, rest := s[..k], s[NextLine(s, k)..];
      var (field, value) := Field(line);
      FieldClean(line);
      CleanBuffers(data, value);
      if line == "" {
        ReadsClean(rest, "", "");
        if data != "" {
          MoreClean(Event(name, data[..|data| - 1]), Dispatched(rest, "", ""));
        } else {
          EmptyInFront(Dispatched(rest, "", ""));
        }
      } else if field == "event" {
        ReadsClean(rest, value, data);
      } else if field == "data" {
        ReadsClean(rest, name, data + value + "\n");
      } else {
        ReadsClean(rest, name, data);
      }
    }
  }

  lemma NoEvents()
    ensures CleanEvents([])
  {
  }

  lemma CleanBuffers(data: string, value: string)
    requires NoReturn(data) && NoBreak(value)
    ensures NoReturn(data + value + "\n") && NoBreak("") && NoReturn("")
    ensures data != "" ==> NoReturn(data[..|data| - 1])
  {
    var all := data + value + "\n";
    forall i | 0 <= i < |all| ensures all[i] != '\r' {
      if i < |data| {
        assert all[i] == data[i];
      } else if i < |data| + |value| {
        assert all[i] == value[i - |data|] && !IsBreak(value[i - |data|]);
      }
    }
  }

  /** Up to the next empty line no data comes together that is as long as the text. */
  lemma {:induction false} FirstIsShort(t: string, rest: string, name: string, data: string)
    requires NoReturn(t) && data != ""
    ensures var es := Dispatched(t + ("\n" + ("\n" + rest)), name, data);
            es != [] && |es[0].data| < |data| + |t|
    decreases |t|
  {
    var k := BreakAt(t);
    var line := t[..k];
    if k == |t| {
      assert line == t;
      LineRead(t, "\n" + rest, name, data);
      EmptyLine(rest);
      FieldClean(t);
      hide Dispatched, Field, NoBreak, NoReturn, BreakAt;
      if t != "" {
        var (field, value) := Field(t);
        var buffer := if field == "data" then data + value + "\n" else data;
        LineRead("", rest, if field == "event" then value else name, buffer);
        NothingBreaks();
      }
    } else {
      var more := t[k + 1..];
      assert t == line + ("\n" + more);
      assert t + ("\n" + ("\n" + rest)) == line + ("\n" + (more + ("\n" + ("\n" + rest))));
      LineRead(line, more + ("\n" + ("\n" + rest)), name, data);
      FieldClean(line);
      TailReturns(t, k + 1);
      hide Dispatched, Field, NoBreak, NoReturn, BreakAt;
      if line != "" {
        var (field, value) := Field(line);
        var buffer := if field == "data" then data + value + "\n" else data;
        FirstIsShort(more, rest, if field == "event" then value else name, buffer);
      }
    }
  }

  lemma TailReturns(t: string, k: nat)
    requires NoReturn(t) && k <= |t|
    ensures NoReturn(t[k..])
  {
    assert forall i :: 0 <= i < |t[k..]| ==> t[k..][i] == t[k + i];
  }

  lemma EmptyLine(rest: string)
    ensures "" + ("\n" + rest) == "\n" + rest
  {
  }

  lemma SplitAtBreak(data: string)
    requires NoReturn(data) && !NoBreak(data)
    ensures var k := BreakAt(data);
            k < |data| && data == data[..k] + ("\n" + data[k + 1..]) && NoBreak(data[..k]) && NoReturn(data[k + 1..])
  {
    hide *;
    var k := BreakAt(data);
    TakeAll(data);
    if k < |data| {
      TailReturns(data, k + 1);
      SplitAt(data, k);
      TakeBehind(data, k);
      LineFeedIs(data, k);
    }
  }

  lemma TakeBehind<T>(s: seq<T>, k: nat)
    requires k <= |s|
    ensures s == s[..k] + s[k..]
  {
  }

  lemma LineFeedIs(data: string, k: nat)
    requires NoReturn(data) && k < |data| && IsBreak(data[k])
    ensures [data[k]] == "\n"
  {
  }

  /** The data up to its first line break, seen as a line of the stream. */
  lemma DataBroken(front: string, more: string, rest: string)
    ensures "data: " + (front + ("\n" + more)) + "\n\n" + rest ==
            "data: " + front + ("\n" + (more + ("\n" + ("\n" + rest))))
  {
    assert "data: " + (front + ("\n" + more)) + "\n\n" == "data: " + front + "\n" + more + "\n" + "\n";
  }

  lemma EventBroken(event: string, front: string, more: string, rest: string)
    ensures var tail := "data: " + front + ("\n" + (more + ("\n" + ("\n" + rest))));
            EventText(event, front + ("\n" + more)) + rest ==
            if event != "" then "event: " + event + ("\n" + tail) else tail
  {
    DataBroken(front, more, rest);
  }

  lemma Prefixes()
    ensures "event" + (":" + " ") == "event: " && "data" + (":" + " ") == "data: "
    ensures NoBreak("event") && NoBreak("data") && ':' !in "event" && ':' !in "data"
  {
  }

  lemma BrokenData(event: string, data: string, rest: string)
    requires NoBreak(event) && NoReturn(data) && !NoBreak(data)
    ensures var es := ReadEvents(EventText(event, data) + rest); es != [] && |es[0].data| < |data|
  {
    hide *;
    SplitAtBreak(data);
    var k := BreakAt(data);
    var front, more := data[..k], data[k + 1..];
    EventBroken(event, front, more, rest);
    Prefixes();
    FieldLine("data", "data: ", front);
    FieldLine("event", "event: ", event);
    var tail := "data: " + front + ("\n" + (more + ("\n" + ("\n" + rest))));
    ReadsFrom(EventText(event, data) + rest);
    if event != "" { LineRead("event: " + event, tail, "", ""); }
    LineRead("data: " + front, more + ("\n" + ("\n" + rest)), event, "");
    EmptyInFront(front);
    FirstIsShort(more, rest, event, "" + front + "\n");
  }

  lemma ReadsFrom(s: string)
    ensures ReadEvents(s) == Dispatched(s, "", "")
  {
  }

  /** An event with a line break inside is not read as it was written. */
  lemma BrokenEvent(event: string, data: string, rest: string)
    requires !NoBreak(event) || !NoBreak(data)
    ensures var es := ReadEvents(EventText(event, data) + rest); es == [] || es[0] != Event(event, data)
  {
    CleanStart();
    hide Dispatched, EventText, NoBreak, NoReturn;
    ReadsClean(EventText(event, data) + rest, "", "");
    if NoBreak(event) && NoReturn(data) { BrokenData(event, data, rest); }
  }

  lemma CleanStart()
    ensures NoBreak("") && NoReturn("")
  {
  }

  /** With a name and without one. */
  lemma EventsSpelled()
    ensures EventText("a", "b") == "event: a\ndata: b\n\n" && EventText("", "b") == "data: b\n\n"
  {
    assert "event: " + "a" + "\n" + "data: " + "b" + "\n\n" == "event: a\ndata: b\n\n";
    assert "" + "data: " + "b" + "\n\n" == "data: b\n\n";
  }

  /** Data of two lines: the second one is a line of its own, and no field that counts. */
  lemma TwoLines()
    ensures ReadEvents(EventText("", "a\nb")) == [Event("", "a")]
  {
    TwoLinesText();
    FieldLine("data", "data: ", "a");
    hide Dispatched, EventText, Field, BreakAt;
    LineRead("data: a", "b" + ("\n" + ("" + ("\n" + ""))), "", "");
    LineRead("b", "" + ("\n" + ""), "", "a\n");
    LineRead("", "", "", "a\n");
    NothingLeft();
    assert "" + "a" + "\n" == "a\n" && "a\n"[..1] == "a";
  }

  lemma TwoLinesText()
    ensures EventText("", "a\nb") == "data: a" + ("\n" + ("b" + ("\n" + ("" + ("\n" + "")))))
    ensures Field("b").0 == "b" && NoBreak("b") && NoBreak("data") && NoBreak("a") && NoBreak("")
    ensures "data" + (":" + " ") == "data: " && ("data: " + "a") == "data: a"
  {
  }

  lemma NothingLeft()
    ensures Dispatched("", "", "") == []
  {
  }

  // ---------------------------------------------------------------------------
  // A stream of events
  // ---------------------------------------------------------------------------

  /** Events one behind the other. */
  function EventTexts(es: seq<Event>): string {
    if es == [] then "" else EventText(es[0].name, es[0].data) + EventTexts(es[1..])
  }

  ghost predicate NoBreaks(es: seq<Event>) {
    forall k :: 0 <= k < |es| ==> NoBreak(es[k].name) && NoBreak(es[k].data)
  }

  /** A stream of events is read as it was written if and only if no name and no data holds a
      line break. */
  lemma {:induction false} EventsReadBack(es: seq<Event>)
    ensures ReadEvents(EventTexts(es)) == es <==> NoBreaks(es)
    decreases |es|
  {
    if es == [] {
      assert ReadEvents("") == [];
    } else {
      var e, rest := es[0], es[1..];
      assert es == [e] + rest;
      assert forall k :: 0 <= k < |rest| ==> rest[k] == es[k + 1];
      hide ReadEvents, EventText, NoBreak;
      EventsReadBack(rest);
      if NoBreak(e.name) && NoBreak(e.data) {
        OneEvent(e.name, e.data, EventTexts(rest));
        assert NoBreaks(es) <==> NoBreaks(rest) by {
          if NoBreaks(rest) {
            forall k | 0 <= k < |es| ensures NoBreak(es[k].name) && NoBreak(es[k].data) {
              if k > 0 { assert es[k] == rest[k - 1]; }
            }
          }
        }
        assert ([e] + ReadEvents(EventTexts(rest)))[1..] == ReadEvents(EventTexts(rest));
      } else {
        BrokenEvent(e.name, e.data, EventTexts(rest));
      }
    }
  }
}
