/** Line extraction as the log tail performs it on a block of text:
    `text.split('\n').filter(line => line.trim())`, the JavaScript string
    primitives written out over `seq<char>`. */
module LineText {

  /** ECMAScript WhiteSpace and LineTerminator code points: exactly what
      `String.prototype.trim` strips from both ends. */
  predicate IsJsWhitespace(c: char) {
    c == '\t' || c == '\n' || c == '\U{000B}' || c == '\U{000C}' || c == '\r' ||
    c == ' ' || c == '\U{00A0}' || c == '\U{1680}' ||
    ('\U{2000}' <= c <= '\U{200A}') ||
    c == '\U{2028}' || c == '\U{2029}' || c == '\U{202F}' || c == '\U{205F}' ||
    c == '\U{3000}' || c == '\U{FEFF}'
  }

  /** A text made of whitespace only (the empty text included). */
  ghost predicate Blank(s: string) {
    forall i :: 0 <= i < |s| ==> IsJsWhitespace(s[i])
  }

  /** `r` is what is left of `s` once some leading characters are cut off. */
  ghost predicate IsSuffix(r: string, s: string) {
    |r| <= |s| && r == s[|s| - |r|..]
  }

  /** `r` is what is left of `s` once some trailing characters are cut off. */
  ghost predicate IsPrefix(r: string, s: string) {
    |r| <= |s| && r == s[..|r|]
  }

  function TrimStart(s: string): (r: string)
    ensures IsSuffix(r, s)
    ensures r == [] || !IsJsWhitespace(r[0])
  {
    if s != [] && IsJsWhitespace(s[0]) then TrimStart(s[1..]) else s
  }

  function TrimEnd(s: string): (r: string)
    ensures IsPrefix(r, s)
    ensures r == [] || !IsJsWhitespace(r[|r| - 1])
  {
    if s != [] && IsJsWhitespace(s[|s| - 1]) then TrimEnd(s[..|s| - 1]) else s
  }

  /** `s.trim()`: `s` without its leading and trailing whitespace, so that
      what is left neither starts nor ends with whitespace. */
  function Trim(s: string): (r: string)
    ensures |r| <= |s|
    ensures r == [] || (!IsJsWhitespace(r[0]) && !IsJsWhitespace(r[|r| - 1]))
  {
    TrimEnd(TrimStart(s))
  }

  /** What TrimStart cuts off is whitespace. */
  lemma {:induction false} TrimStartCutsBlank(s: string)
    ensures Blank(s[..|s| - |TrimStart(s)|])
  {
    if s != [] && IsJsWhitespace(s[0]) {
      var r := TrimStart(s[1..]);
      var k := |s| - |r|;
      TrimStartCutsBlank(s[1..]);
      assert s[1..][..k - 1] == s[1..k];
      forall j | 0 <= j < k ensures IsJsWhitespace(s[..k][j]) {
        if j > 0 { assert s[..k][j] == s[1..][..k - 1][j - 1]; }
      }
    } else {
      assert s[..0] == [];
    }
  }

  /** What TrimEnd cuts off is whitespace. */
  lemma {:induction false} TrimEndCutsBlank(s: string)
    ensures Blank(s[|TrimEnd(s)|..])
  {
    if s != [] && IsJsWhitespace(s[|s| - 1]) {
      var u := s[..|s| - 1];
      var r := TrimEnd(u);
      TrimEndCutsBlank(u);
      forall j | 0 <= j < |s| - |r| ensures IsJsWhitespace(s[|r|..][j]) {
        if j < |s| - 1 - |r| { assert s[|r|..][j] == u[|r|..][j]; }
      }
    } else {
      assert s[|s|..] == [];
    }
  }

  /** `s.trim()` is `s` with its whitespace ends removed: a stretch of `s`
      with whitespace only before and after it. With Trim's own contract
      (neither end of the result is whitespace) this fixes the result. */
  lemma TrimStripsWhitespaceEnds(s: string)
    ensures exists i :: 0 <= i <= |s| - |Trim(s)| && Trim(s) == s[i..i + |Trim(s)|] &&
                        Blank(s[..i]) && Blank(s[i + |Trim(s)|..])
  {
    var t := TrimStart(s);
    var r := TrimEnd(t);
    TrimStartCutsBlank(s);
    TrimEndCutsBlank(t);
    var i := |s| - |t|;
    assert r == s[i..i + |r|];
    assert s[i + |r|..] == t[|r|..];
  }

  lemma {:induction false} TrimStartEmptyIffBlank(s: string)
    ensures TrimStart(s) == [] <==> Blank(s)
  {
    if s != [] && IsJsWhitespace(s[0]) {
      TrimStartEmptyIffBlank(s[1..]);
      assert Blank(s) <==> Blank(s[1..]) by {
        if Blank(s[1..]) {
          forall i | 0 <= i < |s| ensures IsJsWhitespace(s[i]) {
            if i > 0 { assert s[i] == s[1..][i - 1]; }
          }
        }
        if Blank(s) {
          forall i | 0 <= i < |s[1..]| ensures IsJsWhitespace(s[1..][i]) {
            assert s[1..][i] == s[i + 1];
          }
        }
      }
    } else if s != [] {
      assert !IsJsWhitespace(s[0]);
    }
  }

  lemma {:induction false} TrimEndEmptyIffBlank(s: string)
    ensures TrimEnd(s) == [] <==> Blank(s)
  {
    if s != [] && IsJsWhitespace(s[|s| - 1]) {
      var u := s[..|s| - 1];
      TrimEndEmptyIffBlank(u);
      assert Blank(s) <==> Blank(u) by {
        if Blank(u) {
          forall i | 0 <= i < |s| ensures IsJsWhitespace(s[i]) {
            if i < |s| - 1 { assert s[i] == u[i]; }
          }
        }
      }
    } else if s != [] {
      assert !IsJsWhitespace(s[|s| - 1]);
    }
  }

  /** `line.trim()` is falsy exactly when the line is whitespace only: the
      test the filter applies to every piece. */
  lemma TrimEmptyIffBlank(s: string)
    ensures Trim(s) == [] <==> Blank(s)
  {
    var t := TrimStart(s);
    TrimStartEmptyIffBlank(s);
    TrimEndEmptyIffBlank(t);
    if t != [] {
      assert !IsJsWhitespace(s[|s| - |t|]) by { assert t[0] == s[|s| - |t|]; }
    }
  }

  /** `s.split('\n')`: the pieces between separators, in order. There is
      always at least one piece, and no piece holds a separator. */
  function Split(s: string): (pieces: seq<string>)
    ensures |pieces| >= 1
    ensures forall i :: 0 <= i < |pieces| ==> '\n' !in pieces[i]
  {
    if s == [] then [[]]
    else
      var rest := Split(s[1..]);
      if s[0] == '\n' then [[]] + rest
      else [[s[0]] + rest[0]] + rest[1..]
  }

  /** `pieces.join('\n')`, the inverse of Split. */
  function Join(pieces: seq<string>): string
    requires |pieces| >= 1
  {
    if |pieces| == 1 then pieces[0] else pieces[0] + "\n" + Join(pieces[1..])
  }

  /** Splitting loses nothing: joining the pieces gives back the text. */
  lemma {:induction false} JoinSplit(s: string)
    ensures Join(Split(s)) == s
  {
    if s != [] {
      var rest := Split(s[1..]);
      JoinSplit(s[1..]);
      if s[0] != '\n' {
        var pieces := Split(s);
        assert pieces[0] == [s[0]] + rest[0] && pieces[1..] == rest[1..];
        if |rest| == 1 {
          assert s == [s[0]] + rest[0];
        } else {
          assert Join(rest) == rest[0] + "\n" + Join(rest[1..]);
          assert Join(pieces) == ([s[0]] + rest[0]) + "\n" + Join(rest[1..]);
          assert s == [s[0]] + s[1..];
        }
      } else {
        assert Split(s) == [[]] + rest;
        assert s == "\n" + s[1..];
      }
    }
  }

  lemma {:induction false} SplitWithoutSeparator(s: string)
    requires '\n' !in s
    ensures Split(s) == [s]
  {
    if s != [] {
      assert '\n' !in s[1..];
      SplitWithoutSeparator(s[1..]);
      assert s == [s[0]] + s[1..];
    }
  }

  /** Split, one character at a time. */
  lemma SplitCons(c: char, rest: string)
    ensures Split([c] + rest)
         == if c == '\n' then [[]] + Split(rest) else [[c] + Split(rest)[0]] + Split(rest)[1..]
  {
    var s := [c] + rest;
    assert s[0] == c && s[1..] == rest;
  }

  /** A separator between two texts is the boundary between their pieces. */
  lemma {:induction false} SplitAtSeparator(a: string, b: string)
    ensures Split(a + "\n" + b) == Split(a) + Split(b)
  {
    if a == [] {
      assert a + "\n" + b == ['\n'] + b;
      SplitCons('\n', b);
      assert Split(a) == [[]];
    } else {
      var c := a[0];
      var tail := a[1..] + "\n" + b;
      assert a + "\n" + b == [c] + tail;
      assert a == [c] + a[1..];
      SplitAtSeparator(a[1..], b);
      var left, right := Split(a[1..]), Split(b);
      SplitCons(c, tail);
      SplitCons(c, a[1..]);
      if c == '\n' {
        ConcatAssociates([[]], left, right);
      } else {
        HeadAndRestOfConcat(left, right);
        ConcatAssociates([[c] + left[0]], left[1..], right);
      }
    }
  }

  lemma HeadAndRestOfConcat(x: seq<string>, y: seq<string>)
    requires |x| >= 1
    ensures (x + y)[0] == x[0] && (x + y)[1..] == x[1..] + y
  {
  }

  lemma ConcatAssociates(x: seq<string>, y: seq<string>, z: seq<string>)
    ensures x + (y + z) == (x + y) + z
  {
  }

  /** Splitting undoes joining, for pieces that hold no separator. */
  lemma {:induction false} SplitJoin(pieces: seq<string>)
    requires |pieces| >= 1
    requires forall i :: 0 <= i < |pieces| ==> '\n' !in pieces[i]
    ensures Split(Join(pieces)) == pieces
  {
    SplitWithoutSeparator(pieces[0]);
    if |pieces| > 1 {
      SplitJoin(pieces[1..]);
      SplitAtSeparator(pieces[0], Join(pieces[1..]));
    }
  }

  /** The number of separators in a text. */
  function CountSeparators(s: string): nat {
    if s == [] then 0 else (if s[0] == '\n' then 1 else 0) + CountSeparators(s[1..])
  }

  /** There is one piece more than there are separators. */
  lemma {:induction false} SplitCount(s: string)
    ensures |Split(s)| == CountSeparators(s) + 1
  {
    if s != [] { SplitCount(s[1..]); }
  }

  /** `.filter(line => line.trim())`: keeps, in order, the pieces that are
      not whitespace only. */
  function KeepNonBlank(pieces: seq<string>): (kept: seq<string>)
    ensures |kept| <= |pieces|
    ensures forall i :: 0 <= i < |kept| ==> Trim(kept[i]) != []
  {
    if pieces == [] then []
    else (if Trim(pieces[0]) != [] then [pieces[0]] else []) + KeepNonBlank(pieces[1..])
  }

  /** The filter, one piece at a time. */
  lemma KeepNonBlankCons(p: string, rest: seq<string>)
    ensures KeepNonBlank([p] + rest) == (if Trim(p) != [] then [p] else []) + KeepNonBlank(rest)
  {
    var s := [p] + rest;
    assert s[0] == p && s[1..] == rest;
  }

  lemma {:induction false} KeepNonBlankAppend(a: seq<string>, b: seq<string>)
    ensures KeepNonBlank(a + b) == KeepNonBlank(a) + KeepNonBlank(b)
  {
    if a == [] {
      assert a + b == b;
    } else {
      var p, rest := a[0], a[1..];
      var head := if Trim(p) != [] then [p] else [];
      assert a == [p] + rest;
      ConcatAssociates([p], rest, b);
      KeepNonBlankCons(p, rest + b);
      KeepNonBlankCons(p, rest);
      KeepNonBlankAppend(rest, b);
      ConcatAssociates(head, KeepNonBlank(rest), KeepNonBlank(b));
    }
  }

  /** The filter keeps exactly the non-blank pieces. */
  lemma {:induction false} KeepNonBlankMembers(pieces: seq<string>)
    ensures forall l :: l in KeepNonBlank(pieces) ==> l in pieces && Trim(l) != []
    ensures forall p :: p in pieces && Trim(p) != [] ==> p in KeepNonBlank(pieces)
  {
    if pieces != [] {
      KeepNonBlankMembers(pieces[1..]);
      assert pieces == [pieces[0]] + pieces[1..];
    }
  }

  /** The lines a block of text yields: split on '\n', whitespace-only pieces
      dropped. There is at most one line more than there are separators. */
  function Lines(text: string): (lines: seq<string>)
    ensures |lines| <= CountSeparators(text) + 1
  {
    SplitCount(text);
    KeepNonBlank(Split(text))
  }

  /** Every line is a non-blank piece of the text, free of separators; every
      non-blank piece is a line. */
  lemma LinesAreNonBlankPieces(text: string)
    ensures forall l :: l in Lines(text) ==> '\n' !in l && !Blank(l) && l in Split(text)
    ensures forall p :: p in Split(text) && !Blank(p) ==> p in Lines(text)
  {
    KeepNonBlankMembers(Split(text));
    forall l | l in Lines(text) ensures '\n' !in l && !Blank(l) {
      TrimEmptyIffBlank(l);
    }
    forall p | p in Split(text) && !Blank(p) ensures p in Lines(text) {
      TrimEmptyIffBlank(p);
    }
  }

  /** A text ending in a separator (or empty) is a run of whole records. */
  predicate WholeRecords(s: string) {
    s == [] || s[|s| - 1] == '\n'
  }

  lemma NoLinesInEmptyText()
    ensures Lines([]) == []
  {
    assert Split([]) == [[]];
    assert Trim([]) == [];
  }

  /** A separator between two texts is the boundary between their lines. */
  lemma LinesAtSeparator(a: string, b: string)
    ensures Lines(a + "\n" + b) == Lines(a) + Lines(b)
  {
    SplitAtSeparator(a, b);
    KeepNonBlankAppend(Split(a), Split(b));
  }

  /** A trailing separator adds no line. */
  lemma LinesOfTerminated(front: string)
    ensures Lines(front + "\n") == Lines(front)
  {
    var s := front + "\n";
    var empty: string := [];
    assert s + empty == s;
    LinesAtSeparator(front, empty);
    NoLinesInEmptyText();
    var lines := Lines(front);
    assert lines + [] == lines;
  }

  /** Lines of whole records followed by more text are the lines of each part. */
  lemma LinesAfterWholeRecords(a: string, b: string)
    requires WholeRecords(a)
    ensures Lines(a + b) == Lines(a) + Lines(b)
  {
    if a == [] {
      NoLinesInEmptyText();
      assert a + b == b;
    } else {
      var front := a[..|a| - 1];
      assert a == front + "\n";
      assert a + b == front + "\n" + b;
      LinesOfTerminated(front);
      LinesAtSeparator(front, b);
    }
  }
}
