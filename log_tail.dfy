/** The live tail of the log file as a pure state machine over one byte
    cursor (`lastSize`). The file is ASCII text, so its size in bytes is its
    length in characters. */
module LogTail {
  import opened LineText

  /** The log file as the watcher callback finds it: absent (`statSync`
      throws) or present with its whole content. */
  datatype FileState = Missing | Present(content: string)

  /** The event types `fs.watch` reports. */
  datatype EventKind = Change | Rename

  /** One watcher notification, with the file as it stands when the callback runs. */
  datatype Event = Event(kind: EventKind, file: FileState)

  /** The cursor a new connection starts from: the file size, or 0 when the
      size probe throws because the file is missing. */
  function ProbeSize(f: FileState): nat {
    if f.Present? then |f.content| else 0
  }

  /** The callback acts only on a `'change'` event whose file is present and
      larger than the cursor; a `'rename'`, a missing file (the size probe
      throws and the error is only logged) or a file no larger than the
      cursor is ignored. */
  predicate Grew(cursor: nat, e: Event) {
    e.kind == Change && e.file.Present? && |e.file.content| > cursor
  }

  /** The cursor after one callback: the new size after growth, unchanged
      otherwise. It never moves backwards. */
  function Advance(cursor: nat, e: Event): (next: nat)
    ensures cursor <= next
    ensures next == cursor <==> !Grew(cursor, e)
    ensures next != cursor ==> next == |e.file.content|
  {
    if Grew(cursor, e) then |e.file.content| else cursor
  }

  /** The text the read stream delivers: bytes `cursor .. size - 1` on
      growth, nothing otherwise. It covers exactly the distance the cursor moves. */
  function NewContent(cursor: nat, e: Event): (text: string)
    ensures cursor + |text| == Advance(cursor, e)
    ensures text != [] ==> e.file.Present? && text == e.file.content[cursor..Advance(cursor, e)]
  {
    if Grew(cursor, e) then e.file.content[cursor..] else []
  }

  /** The cursor starts at the size the probe saw, so a callback that finds
      the file as the probe saw it reads nothing: bytes present at the probe
      are never read live. */
  lemma ProbedFileReadsNothing(f: FileState, kind: EventKind)
    ensures Advance(ProbeSize(f), Event(kind, f)) == ProbeSize(f)
    ensures NewContent(ProbeSize(f), Event(kind, f)) == []
  {
  }

  /** The lines one callback emits: none unless the file grew, and
      otherwise non-blank pieces of the new bytes, a trailing partial line
      included. */
  function NewLines(cursor: nat, e: Event): (lines: seq<string>)
    ensures !Grew(cursor, e) ==> lines == []
  {
    NoLinesInEmptyText();
    Lines(NewContent(cursor, e))
  }

  /** The cursor after a run of callbacks. */
  function CursorAfter(cursor: nat, events: seq<Event>): nat
    decreases |events|
  {
    if events == [] then cursor else CursorAfter(Advance(cursor, events[0]), events[1..])
  }

  /** Everything the read streams deliver over a run, in order. */
  function ContentRead(cursor: nat, events: seq<Event>): string
    decreases |events|
  {
    if events == [] then []
    else NewContent(cursor, events[0]) + ContentRead(Advance(cursor, events[0]), events[1..])
  }

  /** Every line emitted over a run, in order. */
  function LinesEmitted(cursor: nat, events: seq<Event>): seq<string>
    decreases |events|
  {
    if events == [] then []
    else NewLines(cursor, events[0]) + LinesEmitted(Advance(cursor, events[0]), events[1..])
  }

  /** The cursor never decreases over a run. */
  lemma {:induction false} CursorNeverDecreases(cursor: nat, events: seq<Event>)
    ensures cursor <= CursorAfter(cursor, events)
    decreases |events|
  {
    if events != [] {
      CursorNeverDecreases(Advance(cursor, events[0]), events[1..]);
    }
  }

  /** The total text read over a run is as long as the cursor's total advance. */
  lemma {:induction false} ReadLengthIsAdvance(cursor: nat, events: seq<Event>)
    ensures cursor + |ContentRead(cursor, events)| == CursorAfter(cursor, events)
    decreases |events|
  {
    if events != [] {
      ReadLengthIsAdvance(Advance(cursor, events[0]), events[1..]);
    }
  }

  /** `longer` starts with `shorter`: the file only grew in between. */
  predicate Extends(shorter: string, longer: string) {
    |shorter| <= |longer| && longer[..|shorter|] == shorter
  }

  /** Every callback of the run finds the file present, and each finds it
      extended from the one before, starting from `start`: an append-only log. */
  predicate AppendOnly(start: string, events: seq<Event>)
    decreases |events|
  {
    events == [] ||
    (events[0].file.Present? && Extends(start, events[0].file.content) &&
     AppendOnly(events[0].file.content, events[1..]))
  }

  /** The file content the last callback of the run sees. */
  function Latest(start: string, events: seq<Event>): string
    requires AppendOnly(start, events)
    decreases |events|
  {
    if events == [] then start else Latest(events[0].file.content, events[1..])
  }

  lemma {:induction false} LatestExtends(start: string, events: seq<Event>)
    requires AppendOnly(start, events)
    ensures Extends(start, Latest(start, events))
    decreases |events|
  {
    if events != [] {
      LatestExtends(events[0].file.content, events[1..]);
    }
  }

  /** On an append-only file the ranges read over a run are adjacent and
      disjoint: together they are exactly the bytes between the starting and
      the final cursor, so no byte is read twice and none in between is skipped. */
  lemma {:induction false} ReadsAreContiguous(start: string, cursor: nat, events: seq<Event>)
    requires AppendOnly(start, events)
    requires cursor <= |start|
    ensures cursor <= CursorAfter(cursor, events) <= |Latest(start, events)|
    ensures ContentRead(cursor, events) == Latest(start, events)[cursor..CursorAfter(cursor, events)]
    decreases |events|
  {
    if events != [] {
      var e := events[0];
      var f := e.file.content;
      var next := Advance(cursor, e);
      ReadsAreContiguous(f, next, events[1..]);
      LatestExtends(f, events[1..]);
      var last := Latest(start, events);
      ReadWithinExtension(cursor, e, last);
      SliceSplits(last, cursor, next, CursorAfter(cursor, events));
    }
  }

  /** What one callback reads is the same stretch of any later, extended file. */
  lemma ReadWithinExtension(cursor: nat, e: Event, last: string)
    requires e.file.Present? && cursor <= |e.file.content| && Extends(e.file.content, last)
    ensures NewContent(cursor, e) == last[cursor..Advance(cursor, e)]
  {
    var f := e.file.content;
    assert last[..|f|] == f;
    if Grew(cursor, e) {
      assert f[cursor..] == last[..|f|][cursor..];
    }
  }

  lemma SliceSplits(s: string, i: nat, j: nat, k: nat)
    requires i <= j <= k <= |s|
    ensures s[i..k] == s[i..j] + s[j..k]
  {
  }

  /** History replay followed by the live tail reproduces the file exactly
      once when nothing changed between the history read and the size probe:
      the replayed text followed by everything read live is the start of the
      latest file, up to the cursor. */
  lemma HistoryThenLive(history: string, events: seq<Event>)
    requires AppendOnly(history, events)
    ensures CursorAfter(|history|, events) <= |Latest(history, events)|
    ensures history + ContentRead(ProbeSize(Present(history)), events)
         == Latest(history, events)[..CursorAfter(|history|, events)]
  {
    ReadsAreContiguous(history, |history|, events);
    LatestExtends(history, events);
    PrefixThrough(history, Latest(history, events), CursorAfter(|history|, events));
  }

  /** A prefix of a file that extends `start` is `start` followed by the rest. */
  lemma PrefixThrough(start: string, last: string, final: nat)
    requires Extends(start, last)
    requires |start| <= final <= |last|
    ensures last[..final] == start + last[|start|..final]
  {
    assert last[..final] == last[..|start|] + last[|start|..final];
  }

  /** When the file grows between the history read and the size probe, the
      bytes appended in between are neither replayed nor read live: what the
      connection sees is the history followed by the file from the probed
      size on. */
  lemma GrowthBeforeProbeIsSkipped(history: string, probed: string, events: seq<Event>)
    requires Extends(history, probed)
    requires AppendOnly(probed, events)
    ensures |probed| <= CursorAfter(|probed|, events) <= |Latest(probed, events)|
    ensures ContentRead(ProbeSize(Present(probed)), events)
         == Latest(probed, events)[|probed|..CursorAfter(|probed|, events)]
    ensures Latest(probed, events)[..CursorAfter(|probed|, events)]
         == history + probed[|history|..] + ContentRead(ProbeSize(Present(probed)), events)
  {
    ReadsAreContiguous(probed, |probed|, events);
    LatestExtends(probed, events);
    PrefixThroughGap(history, probed, Latest(probed, events), CursorAfter(|probed|, events));
  }

  /** A prefix of a file that extends `probed`, which extends `history`, is
      the history, then the gap between the two, then the rest. */
  lemma PrefixThroughGap(history: string, probed: string, last: string, final: nat)
    requires Extends(history, probed) && Extends(probed, last)
    requires |probed| <= final <= |last|
    ensures last[..final] == history + probed[|history|..] + last[|probed|..final]
  {
    assert last[..|probed|] == probed;
    assert probed == history + probed[|history|..];
    assert last[..final] == last[..|probed|] + last[|probed|..final];
  }

  /** Every file the run sees ends in a separator (or is empty): the writer
      appends whole records. */
  predicate AppendsWholeRecords(events: seq<Event>) {
    forall i :: 0 <= i < |events| ==> events[i].file.Present? ==> WholeRecords(events[i].file.content)
  }

  /** The cursor sits on a record boundary of `s`. */
  predicate AtRecordBoundary(s: string, cursor: nat) {
    cursor <= |s| && (cursor == 0 || s[cursor - 1] == '\n')
  }

  /** One callback on an append-only file of whole records: the lines up to
      the old cursor followed by the lines emitted are the lines up to the
      new cursor, which again sits on a record boundary. */
  lemma LinesStep(start: string, cursor: nat, e: Event)
    requires e.file.Present? && Extends(start, e.file.content) && WholeRecords(e.file.content)
    requires AtRecordBoundary(start, cursor)
    ensures AtRecordBoundary(e.file.content, Advance(cursor, e))
    ensures Lines(start[..cursor]) + NewLines(cursor, e) == Lines(e.file.content[..Advance(cursor, e)])
  {
    var f := e.file.content;
    assert f[..|start|] == start;
    assert f[..cursor] == start[..cursor];
    if Grew(cursor, e) {
      assert f[..|f|] == f;
      assert f[..cursor] + f[cursor..] == f;
      LinesAfterWholeRecords(f[..cursor], f[cursor..]);
    } else {
      assert cursor == 0 || f[cursor - 1] == start[cursor - 1];
      NoLinesInEmptyText();
    }
  }

  lemma {:induction false} AppendsWholeRecordsTail(events: seq<Event>)
    requires events != [] && AppendsWholeRecords(events)
    ensures AppendsWholeRecords(events[1..])
    ensures events[0].file.Present? ==> WholeRecords(events[0].file.content)
  {
    forall i | 0 <= i < |events[1..]| && events[1..][i].file.Present?
      ensures WholeRecords(events[1..][i].file.content)
    {
      assert events[1..][i] == events[i + 1];
    }
  }

  lemma {:induction false} LinesOverWholeRecords(start: string, cursor: nat, events: seq<Event>)
    requires AppendOnly(start, events)
    requires AppendsWholeRecords(events)
    requires AtRecordBoundary(start, cursor)
    ensures CursorAfter(cursor, events) <= |Latest(start, events)|
    ensures Lines(start[..cursor]) + LinesEmitted(cursor, events)
         == Lines(Latest(start, events)[..CursorAfter(cursor, events)])
    decreases |events|
  {
    if events != [] {
      var e := events[0];
      var f := e.file.content;
      var next := Advance(cursor, e);
      AppendsWholeRecordsTail(events);
      LinesStep(start, cursor, e);
      LinesOverWholeRecords(f, next, events[1..]);
      var before := Lines(start[..cursor]);
      var now := NewLines(cursor, e);
      var later := LinesEmitted(next, events[1..]);
      assert LinesEmitted(cursor, events) == now + later;
      assert Latest(start, events) == Latest(f, events[1..]);
      assert CursorAfter(cursor, events) == CursorAfter(next, events[1..]);
      assert before + now == Lines(f[..next]);
      ConcatAssociates(before, now, later);
    }
  }

  /** When the writer appends whole records, the replayed lines followed by
      the live lines are exactly the lines of the file up to the final
      cursor: each record is delivered once, whole and in order. */
  lemma WholeRecordsDeliveredOnce(history: string, events: seq<Event>)
    requires WholeRecords(history)
    requires AppendOnly(history, events)
    requires AppendsWholeRecords(events)
    ensures CursorAfter(|history|, events) <= |Latest(history, events)|
    ensures Lines(history) + LinesEmitted(ProbeSize(Present(history)), events)
         == Lines(Latest(history, events)[..CursorAfter(|history|, events)])
  {
    assert history[..|history|] == history;
    LinesOverWholeRecords(history, |history|, events);
  }

  /** A single non-blank piece is one line, with or without its separator. */
  lemma OneRecord(s: string)
    requires '\n' !in s && s != [] && !IsJsWhitespace(s[0])
    ensures Lines(s) == [s] && Lines(s + "\n") == [s]
  {
    TrimEmptyIffBlank(s);
    SplitWithoutSeparator(s);
    assert s + "\n" == s + "\n" + [];
    LinesAtSeparator(s, []);
    NoLinesInEmptyText();
  }

  lemma TwoCallbacks(cursor: nat, first: Event, second: Event)
    ensures LinesEmitted(cursor, [first, second])
         == NewLines(cursor, first) + NewLines(Advance(cursor, first), second)
    ensures CursorAfter(cursor, [first, second]) == Advance(Advance(cursor, first), second)
  {
    var events := [first, second];
    var next := Advance(cursor, first);
    assert events[0] == first && events[1..] == [second];
    assert [second][0] == second && [second][1..] == [];
    var a, b := NewLines(cursor, first), NewLines(next, second);
    assert LinesEmitted(next, [second]) == b + [];
    assert b + [] == b;
    assert LinesEmitted(cursor, events) == a + LinesEmitted(next, [second]);
    assert CursorAfter(next, [second]) == CursorAfter(Advance(next, second), []);
    assert CursorAfter(cursor, events) == CursorAfter(next, [second]);
  }

  /** A callback that reads one non-blank piece, with or without its
      separator, emits that piece as one line. */
  lemma EmitsPiece(cursor: nat, e: Event, piece: string)
    requires '\n' !in piece && piece != [] && !IsJsWhitespace(piece[0])
    requires NewContent(cursor, e) == piece || NewContent(cursor, e) == piece + "\n"
    ensures NewLines(cursor, e) == [piece]
  {
    OneRecord(piece);
  }

  lemma SliceWithoutSeparator(s: string, i: nat, j: nat)
    requires '\n' !in s && i <= j <= |s|
    ensures '\n' !in s[i..j]
  {
    assert forall m :: 0 <= m < j - i ==> s[i..j][m] == s[i + m];
  }

  lemma FirstPartOfRecord(record: string, k: nat)
    requires '\n' !in record && 0 < k < |record| && !IsJsWhitespace(record[0])
    ensures Advance(0, Event(Change, Present(record[..k]))) == k
    ensures NewLines(0, Event(Change, Present(record[..k]))) == [record[..k]]
  {
    SliceWithoutSeparator(record, 0, k);
    EmitsPiece(0, Event(Change, Present(record[..k])), record[..k]);
  }

  lemma RestOfRecord(record: string, k: nat)
    requires '\n' !in record && 0 < k < |record| && !IsJsWhitespace(record[k])
    ensures Advance(k, Event(Change, Present(record + "\n"))) == |record| + 1
    ensures NewLines(k, Event(Change, Present(record + "\n"))) == [record[k..]]
  {
    SliceWithoutSeparator(record, k, |record|);
    assert (record + "\n")[k..] == record[k..] + "\n";
    EmitsPiece(k, Event(Change, Present(record + "\n")), record[k..]);
  }

  /** A partial trailing line is not held back: when a record is written in
      two steps, its first `k` characters and then the rest with the
      separator, the tail emits two fragments where the file holds one record. */
  lemma SplitRecordArrivesInFragments(record: string, k: nat)
    requires '\n' !in record
    requires 0 < k < |record|
    requires !IsJsWhitespace(record[0]) && !IsJsWhitespace(record[k])
    ensures var events := [Event(Change, Present(record[..k])), Event(Change, Present(record + "\n"))];
            LinesEmitted(0, events) == [record[..k], record[k..]] &&
            Lines(record + "\n") == [record] &&
            CursorAfter(0, events) == |record| + 1
  {
    var first, second := Event(Change, Present(record[..k])), Event(Change, Present(record + "\n"));
    TwoCallbacks(0, first, second);
    FirstPartOfRecord(record, k);
    RestOfRecord(record, k);
    OneRecord(record);
  }

  /** The cursor is never reset when the file shrinks: as long as no
      callback finds the file larger than the cursor (it was truncated and
      has regrown at most to its old size, or it only shrank), the cursor
      stays where it is and nothing is read or emitted. */
  lemma {:induction false} TruncatedFileIsNotReread(cursor: nat, events: seq<Event>)
    requires forall i :: 0 <= i < |events| ==> !Grew(cursor, events[i])
    ensures CursorAfter(cursor, events) == cursor
    ensures ContentRead(cursor, events) == []
    ensures LinesEmitted(cursor, events) == []
    decreases |events|
  {
    if events != [] {
      assert !Grew(cursor, events[0]);
      assert forall i :: 0 <= i < |events[1..]| ==> events[1..][i] == events[i + 1];
      TruncatedFileIsNotReread(cursor, events[1..]);
    }
  }
}
