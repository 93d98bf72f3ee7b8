/** What a client of SseWriterImpl makes of the events written to it. */
module SseEvents {
  import opened Basics
  import opened ChunkedCoding
  import opened EventStream
  import opened SseWriter

  ghost predicate OnlyEvents(calls: seq<Call>) {
    forall k :: 0 <= k < |calls| ==> calls[k].WriteEvent?
  }

  /** The events written, in the order of the calls. */
  function Written(calls: seq<Call>): seq<Event>
    requires forall k :: 0 <= k < |calls| ==> calls[k].WriteEvent?
  {
    if calls == [] then [] else [Event(calls[0].event, calls[0].data)] + Written(calls[1..])
  }

  lemma {:induction false} TextsAreEvents(calls: seq<Call>)
    requires OnlyEvents(calls)
    ensures Concat(Texts(calls)) == EventTexts(Written(calls))
    decreases |calls|
  {
    hide EventText, Texts;
    if calls == [] {
      assert Texts([]) == [] by { NoTexts(); }
    } else {
      var c, rest := calls[0], calls[1..];
      TextsAreEvents(rest);
      TextsFront(c, rest);
      assert calls == [c] + rest;
      assert ([TextOf(c)] + Texts(rest))[1..] == Texts(rest);
      assert ([Event(c.event, c.data)] + Written(rest))[1..] == Written(rest);
    }
  }

  lemma NoTexts()
    ensures Texts([]) == []
  {
  }

  lemma {:induction false} TextsFront(c: Call, rest: seq<Call>)
    ensures Texts([c] + rest) == [TextOf(c)] + Texts(rest)
    decreases |rest|
  {
    hide TextOf;
    if rest == [] {
      assert [c] + [] == [c] && [c][..0] == [];
      NoTexts();
    } else {
      var n := |rest| - 1;
      assert ([c] + rest)[..n + 1] == [c] + rest[..n];
      TextsFront(c, rest[..n]);
    }
  }

  /** After successful calls of WriteEvent and a close, a client has the whole stream, and the
      events it reads are those that were written, if and only if no name and no data held a
      line break. */
  lemma EventsArrive(calls: seq<Call>)
    requires calls != [] && OnlyEvents(calls) && forall k :: 0 <= k < |calls| ==> Succeeds(calls[k])
    ensures var r := Decode(Payload(Run(FRESH, calls + [Close(Done)]).sent));
            && r.Ended? && r.rest == ""
            && (ReadEvents(r.data) == Written(calls) <==> NoBreaks(Written(calls)))
  {
    NoChunks(calls);
    hide *;
    ClientReads(calls);
    TextsAreEvents(calls);
    EventsReadBack(Written(calls));
  }

  lemma NoChunks(calls: seq<Call>)
    requires OnlyEvents(calls)
    ensures NoEmptyChunk(calls)
  {
  }
}
