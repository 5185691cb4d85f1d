/** One `/event-stream` connection: the server-sent-event frames written to
    the response, the history replay on connect and the watcher callback
    that tails the log file through the `lastSize` cursor. */
module EventStream {
  import opened LineText
  import opened LogTail

  datatype Option<T> = None | Some(value: T)

  /** The greeting written before anything else. */
  const ConnectedFrame: string := "data: connected to server\n\n"

  /** One server-sent event carrying `line` as its data field: the field
      name `data: `, the line, and the blank line that ends the event. */
  function Frame(line: string): (frame: string)
    ensures |frame| == |line| + 8
  {
    "data: " + line + "\n\n"
  }

  /** One frame per line, in the order of the lines. */
  function Frames(lines: seq<string>): (frames: seq<string>)
    ensures |frames| == |lines|
  {
    if lines == [] then [] else [Frame(lines[0])] + Frames(lines[1..])
  }

  /** What a client reads out of one frame: the data of a single-line event,
      or nothing when the text is not such an event. The event-stream format
      ends a field line at a line feed, a carriage return or both, so data
      holding either character does not come back as one line. */
  function FramePayload(frame: string): Option<string> {
    if |frame| >= 8 && frame[..6] == "data: " && frame[|frame| - 2..] == "\n\n" &&
       '\n' !in frame[6..|frame| - 2] && '\r' !in frame[6..|frame| - 2]
    then Some(frame[6..|frame| - 2])
    else None
  }

  /** The frames of a list of lines are one frame per line, each at the
      position of its line. */
  lemma {:induction false} FramesOnePerLine(lines: seq<string>)
    ensures forall i :: 0 <= i < |lines| ==> Frames(lines)[i] == Frame(lines[i])
  {
    if lines != [] {
      FramesOnePerLine(lines[1..]);
    }
  }

  /** A frame carries its line back to the client exactly when the line holds
      no line feed and no carriage return; either one would end the data
      field early. */
  lemma FrameRoundTrip(line: string)
    ensures FramePayload(Frame(line)) == if '\n' in line || '\r' in line then None else Some(line)
  {
    var f := Frame(line);
    assert f[..6] == "data: ";
    assert f[|f| - 2..] == "\n\n";
    assert f[6..|f| - 2] == line;
  }

  /** A frame written for a line of a text reads back as that line exactly
      when the line holds no carriage return: the split on '\n' and the trim
      test leave a '\r' inside a line, and the client cuts the line there. */
  lemma LineFramesReadBack(text: string)
    ensures forall i :: 0 <= i < |Lines(text)| ==>
              (FramePayload(Frame(Lines(text)[i])) == Some(Lines(text)[i]) <==> '\r' !in Lines(text)[i])
  {
    LinesAreNonBlankPieces(text);
    forall i | 0 <= i < |Lines(text)|
      ensures FramePayload(Frame(Lines(text)[i])) == Some(Lines(text)[i]) <==> '\r' !in Lines(text)[i]
    {
      FrameRoundTrip(Lines(text)[i]);
    }
  }

  lemma {:induction false} FramesAppend(a: seq<string>, b: seq<string>)
    ensures Frames(a + b) == Frames(a) + Frames(b)
  {
    if a == [] {
      assert a + b == b;
    } else {
      assert (a + b)[0] == a[0] && (a + b)[1..] == a[1..] + b;
      FramesAppend(a[1..], b);
    }
  }

  /** The lines history replay sends: every non-blank line of the file, or
      nothing when the file is missing (the size probe throws before the
      read, and the error is only logged). */
  function ReplayLines(f: FileState): seq<string> {
    if f.Present? then Lines(f.content) else []
  }

  /** Everything one connection writes: the greeting, the replayed history
      and, when the watcher could be set up, the live lines of each callback.
      The greeting comes first, and then there is one frame per line. */
  function Transcript(atReplay: FileState, atProbe: FileState, atWatch: FileState, events: seq<Event>): (written: seq<string>)
    ensures |written| >= 1 && written[0] == ConnectedFrame
    ensures |written| == 1 + |ReplayLines(atReplay)| +
                         (if atWatch.Present? then |LinesEmitted(ProbeSize(atProbe), events)| else 0)
  {
    [ConnectedFrame] + Frames(ReplayLines(atReplay)) +
    (if atWatch.Present? then Frames(LinesEmitted(ProbeSize(atProbe), events)) else [])
  }

  /** The response of one connection. */
  class Session {
    /** Every frame written to the response, in order. */
    var frames: seq<string>
    /** The byte cursor of the live tail. */
    var lastSize: nat
    /** Whether the file watcher is in place and its callback still runs. */
    var watching: bool

    ghost predicate Valid()
      reads this
    {
      |frames| >= 1 && frames[0] == ConnectedFrame
    }

    /** Connect: greet, replay the file as the history read finds it
        (`atReplay`), start the cursor at the size the probe finds
        (`atProbe`), then watch the file as `fs.watch` finds it (`atWatch`).
        Watching a missing path throws, so a connection whose file is
        missing at that point gets no live tail. */
    constructor Connect(atReplay: FileState, atProbe: FileState, atWatch: FileState)
      ensures Valid()
      ensures frames == [ConnectedFrame] + Frames(ReplayLines(atReplay))
      ensures lastSize == ProbeSize(atProbe)
      ensures watching == atWatch.Present?
    {
      frames := [ConnectedFrame];
      lastSize := 0;
      watching := false;
      new;
      SendExistingLogs(atReplay);
      if atProbe.Present? {
        lastSize := |atProbe.content|;
      }
      watching := atWatch.Present?;
    }

    /** History replay: one frame per non-blank line of the file. */
    method SendExistingLogs(f: FileState)
      requires Valid()
      modifies this`frames
      ensures Valid()
      ensures frames == old(frames) + Frames(ReplayLines(f))
    {
      if f.Present? {
        WriteLines(Lines(f.content));
      }
    }

    /** Writes one frame per line, in order. */
    method WriteLines(lines: seq<string>)
      requires Valid()
      modifies this`frames
      ensures Valid()
      ensures frames == old(frames) + Frames(lines)
    {
      var i := 0;
      while i < |lines|
        invariant 0 <= i <= |lines|
        invariant Valid()
        invariant frames == old(frames) + Frames(lines[..i])
      {
        FramesAppend(lines[..i], [lines[i]]);
        assert lines[..i + 1] == lines[..i] + [lines[i]];
        assert Frames([lines[i]]) == [Frame(lines[i])];
        frames := frames + [Frame(lines[i])];
        i := i + 1;
      }
      assert lines[..i] == lines;
    }

    /** The watcher callback. On a `'change'` event where the file has grown
        past the cursor it reads exactly the new bytes, moves the cursor to
        the new size and writes one frame per non-blank line of what it read,
        a trailing partial line included. Any other event, a missing file or
        a file no larger than the cursor changes nothing. */
    method OnEvent(e: Event)
      requires Valid()
      modifies this`frames, this`lastSize
      ensures Valid()
      ensures watching ==> lastSize == Advance(old(lastSize), e)
      ensures watching ==> frames == old(frames) + Frames(NewLines(old(lastSize), e))
      ensures !watching ==> lastSize == old(lastSize) && frames == old(frames)
      ensures old(lastSize) <= lastSize
    {
      if watching && e.kind == Change && e.file.Present? {
        var currentSize := |e.file.content|;
        if currentSize > lastSize {
          var newContent := e.file.content[lastSize..currentSize];
          assert newContent == NewContent(lastSize, e);
          lastSize := currentSize;
          WriteLines(Lines(newContent));
        } else {
          assert Lines([]) == [] by { NoLinesInEmptyText(); }
        }
      } else if watching {
        assert Lines([]) == [] by { NoLinesInEmptyText(); }
      }
    }

    /** The callbacks of a run, one after the other. */
    method Follow(events: seq<Event>)
      requires Valid()
      modifies this`frames, this`lastSize
      ensures Valid()
      ensures watching ==> lastSize == CursorAfter(old(lastSize), events)
      ensures watching ==> frames == old(frames) + Frames(LinesEmitted(old(lastSize), events))
      ensures !watching ==> lastSize == old(lastSize) && frames == old(frames)
    {
      var i := 0;
      while i < |events|
        invariant 0 <= i <= |events|
        invariant Valid()
        invariant watching ==> CursorAfter(lastSize, events[i..]) == CursorAfter(old(lastSize), events)
        invariant watching ==>
          frames + Frames(LinesEmitted(lastSize, events[i..]))
          == old(frames) + Frames(LinesEmitted(old(lastSize), events))
        invariant !watching ==> lastSize == old(lastSize) && frames == old(frames)
      {
        FirstCallbackOfRun(frames, lastSize, events, i);
        OnEvent(events[i]);
        i := i + 1;
      }
      assert events[i..] == [];
      assert Frames(LinesEmitted(lastSize, events[i..])) == [];
      assert frames + [] == frames;
    }

    /** The client closed the connection: the watcher is closed and the
        response ended, so no callback runs again. */
    method Close()
      modifies this`watching
      ensures !watching
    {
      watching := false;
    }
  }

  /** A run of callbacks is its first callback followed by the rest: the
      frames and the cursor of the run split accordingly. */
  lemma FirstCallbackOfRun(written: seq<string>, cursor: nat, events: seq<Event>, i: nat)
    requires i < |events|
    ensures CursorAfter(cursor, events[i..]) == CursorAfter(Advance(cursor, events[i]), events[i + 1..])
    ensures written + Frames(LinesEmitted(cursor, events[i..]))
         == (written + Frames(NewLines(cursor, events[i])))
            + Frames(LinesEmitted(Advance(cursor, events[i]), events[i + 1..]))
  {
    var rest := events[i..];
    assert rest[0] == events[i] && rest[1..] == events[i + 1..];
    var now := NewLines(cursor, events[i]);
    var later := LinesEmitted(Advance(cursor, events[i]), events[i + 1..]);
    assert LinesEmitted(cursor, rest) == now + later;
    FramesAppend(now, later);
    ConcatAssociates(written, Frames(now), Frames(later));
  }

  /** The lifetime of one connection: connect, then the watcher callbacks in
      the order they fire. What the client receives is the transcript. */
  method Serve(atReplay: FileState, atProbe: FileState, atWatch: FileState, events: seq<Event>)
    returns (written: seq<string>)
    ensures written == Transcript(atReplay, atProbe, atWatch, events)
  {
    var session := new Session.Connect(atReplay, atProbe, atWatch);
    session.Follow(events);
    written := session.frames;
  }

  /** When `fs.watch` finds the file missing, the connection gets the
      greeting and the history and nothing after; when the history read
      found the file missing too, it gets the greeting alone. The "no
      previous logs" notice is never written. */
  lemma MissingFileGetsOnlyGreeting(atReplay: FileState, atProbe: FileState, events: seq<Event>)
    ensures Transcript(atReplay, atProbe, Missing, events) == [ConnectedFrame] + Frames(ReplayLines(atReplay))
    ensures Transcript(Missing, atProbe, Missing, events) == [ConnectedFrame]
  {
    var history := [ConnectedFrame] + Frames(ReplayLines(atReplay));
    assert history + [] == history;
    assert Frames([]) == [];
  }

  /** End to end: when nothing changes between the history read and the size
      probe and the writer appends whole records, the client receives the
      greeting and then one frame per non-blank line of the file up to the
      final cursor, each exactly once and in file order. */
  lemma EachRecordDeliveredOnce(history: string, atWatch: FileState, events: seq<Event>)
    requires WholeRecords(history)
    requires atWatch.Present?
    requires AppendOnly(history, events)
    requires AppendsWholeRecords(events)
    ensures CursorAfter(|history|, events) <= |Latest(history, events)|
    ensures Transcript(Present(history), Present(history), atWatch, events)
         == [ConnectedFrame] + Frames(Lines(Latest(history, events)[..CursorAfter(|history|, events)]))
  {
    WholeRecordsDeliveredOnce(history, events);
    var replayed, live := Lines(history), LinesEmitted(|history|, events);
    assert ProbeSize(Present(history)) == |history|;
    FramesAppend(replayed, live);
    ConcatAssociates([ConnectedFrame], Frames(replayed), Frames(live));
  }
}
