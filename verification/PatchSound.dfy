/** Everything the patch parser accepts is a printable patch: the parser's results are exactly the good patches. */
module PatchSound {
  import opened Wrappers
  import opened ByteLines
  import opened PatchApply
  import opened PatchParse
  import opened PatchPrint
  import opened PatchUndo

  /** A hunk that still expects this many old and new lines. */
  predicate Partial(h: Hunk, old_: nat, new_: nat) {
    && |OldLines(h.lines)| + old_ == h.oldCount && |NewLines(h.lines)| + new_ == h.newCount
    && forall i :: 0 <= i < |h.lines| ==> NEWLINE !in Body(h.lines[i].content)
  }

  predicate GoodFiles(patches: seq<FilePatch>) {
    forall i :: 0 <= i < |patches| ==> GoodPath(patches[i].path) && GoodHunks(patches[i].hunks)
  }

  /** All hunks are good, except that the open one may be unfinished. */
  predicate GoodState(s: State) {
    s.Valid() &&
    if !s.open then GoodFiles(s.patches)
    else
      var last := |s.patches| - 1;
      var hunks := s.patches[last].hunks;
      GoodFiles(s.patches[..last]) && GoodPath(s.patches[last].path)
      && GoodHunks(hunks[..|hunks| - 1]) && Partial(hunks[|hunks| - 1], s.remainingOld, s.remainingNew)
  }

  lemma {:induction false} OldConcat(a: seq<HunkLine>, b: seq<HunkLine>)
    ensures OldLines(a + b) == OldLines(a) + OldLines(b)
  {
    if a == [] {
      assert a + b == b;
    } else {
      var head, tail := if a[0].kind != Added then [a[0].content] else [], OldLines(a[1..]);
      OldConcat(a[1..], b);
      assert (a + b)[1..] == a[1..] + b;
      assert OldLines(a) == head + tail && OldLines(a + b) == head + (tail + OldLines(b));
      assert head + (tail + OldLines(b)) == head + tail + OldLines(b);
    }
  }

  lemma {:induction false} NewConcat(a: seq<HunkLine>, b: seq<HunkLine>)
    ensures NewLines(a + b) == NewLines(a) + NewLines(b)
  {
    if a == [] {
      assert a + b == b;
    } else {
      var head, tail := if a[0].kind != Removed then [a[0].content] else [], NewLines(a[1..]);
      NewConcat(a[1..], b);
      assert (a + b)[1..] == a[1..] + b;
      assert NewLines(a) == head + tail && NewLines(a + b) == head + (tail + NewLines(b));
      assert head + (tail + NewLines(b)) == head + tail + NewLines(b);
    }
  }

  lemma SidesConcat(a: seq<HunkLine>, b: seq<HunkLine>)
    ensures OldLines(a + b) == OldLines(a) + OldLines(b) && NewLines(a + b) == NewLines(a) + NewLines(b)
  {
    OldConcat(a, b);
    NewConcat(a, b);
  }

  /** Rewriting the open hunk's lines keeps the state good when the hunk stays good. */
  lemma Rewrite(s: State, lines: seq<HunkLine>, old_: nat, new_: nat)
    requires GoodState(s) && s.open && Partial(s.Current().(lines := lines), old_, new_)
    ensures GoodState(s.WithLines(lines).(remainingOld := old_, remainingNew := new_))
  {
    hide GoodFiles, GoodPath, GoodHunks, Partial;
    var last := |s.patches| - 1;
    var hunks := s.patches[last].hunks;
    var t := s.WithLines(lines);
    assert t.patches[..last] == s.patches[..last];
    var h := hunks[|hunks| - 1 := s.Current().(lines := lines)];
    assert h[..|hunks| - 1] == hunks[..|hunks| - 1];
  }

  lemma TrimBody(content: Bytes)
    requires NEWLINE !in Body(content)
    ensures NEWLINE !in Body(TrimNewlines(content))
  {
    if EndsLine(content) {
      var body := content[..|content| - 1];
      assert !EndsLine(body);
    }
  }

  lemma MarkerGood(s: State)
    requires GoodState(s) && s.open && MarkerStep(s).Ok?
    ensures GoodState(MarkerStep(s).value)
  {
    var h := s.Current();
    var n := |h.lines| - 1;
    var last := h.lines[n];
    var trimmed := HunkLine(last.kind, TrimNewlines(last.content));
    assert h.lines == h.lines[..n] + [last];
    assert h.lines[n := trimmed] == h.lines[..n] + [trimmed];
    OpenPartial(s);
    TrimBody(last.content);
    SidesConcat(h.lines[..n], [last]);
    SidesConcat(h.lines[..n], [trimmed]);
    SameSides(last, trimmed);
    hide OldLines, NewLines, GoodState, Body, TrimNewlines;
    assert Partial(h.(lines := h.lines[n := trimmed]), s.remainingOld, s.remainingNew);
    Rewrite(s, h.lines[n := trimmed], s.remainingOld, s.remainingNew);
  }

  lemma OpenPartial(s: State)
    requires GoodState(s) && s.open
    ensures Partial(s.Current(), s.remainingOld, s.remainingNew)
  {
    hide GoodFiles, GoodPath, GoodHunks, Partial;
  }

  lemma ContentGood(s: State, line: Bytes)
    requires GoodState(s) && s.open && NEWLINE !in line && ContentStep(s, line).Ok?
    ensures GoodState(ContentStep(s, line).value)
  {
    OpenPartial(s);
    hide GoodState;
    var h, t := s.Current(), ContentStep(s, line).value;
    var kind := KindOf(if line == [] then SPACE else line[0]).value;
    var content := if line == [] then [NEWLINE] else line[1..] + [NEWLINE];
    NewContent(line, content);
    var added := HunkLine(kind, content);
    SidesConcat(h.lines, [added]);
    assert [added][1..] == [];
    assert t == s.WithLines(h.lines + [added]).(remainingOld := t.remainingOld, remainingNew := t.remainingNew);
    hide Body;
    assert Partial(h.(lines := h.lines + [added]), t.remainingOld, t.remainingNew);
    Rewrite(s, h.lines + [added], t.remainingOld, t.remainingNew);
  }

  lemma NewContent(line: Bytes, content: Bytes)
    requires NEWLINE !in line && content == if line == [] then [NEWLINE] else line[1..] + [NEWLINE]
    ensures NEWLINE !in Body(content)
  {
    if line != [] {
      assert content[..|content| - 1] == line[1..];
    }
  }

  // ----- file names -----

  lemma {:induction false} PieceFree(text: Bytes, separator: Byte, i: nat)
    requires i < |Split(text, separator)|
    ensures separator !in Split(text, separator)[i]
    ensures forall b :: b in Split(text, separator)[i] ==> b in text
  {
    if text != [] {
      var rest := Split(text[1..], separator);
      assert text == [text[0]] + text[1..];
      if text[0] == separator {
        if i > 0 {
          PieceFree(text[1..], separator, i - 1);
        }
      } else {
        PieceFree(text[1..], separator, i);
      }
    }
  }

  lemma {:induction false} StripLeftPart(text: Bytes)
    ensures forall b :: b in StripLeft(text) ==> b in text
  {
    if text != [] && IsSpace(text[0]) {
      StripLeftPart(text[1..]);
    }
  }

  lemma {:induction false} StripRightPart(text: Bytes)
    ensures forall b :: b in StripRight(text) ==> b in text
    ensures var r := StripRight(text); r != [] ==> !IsSpace(r[|r| - 1])
  {
    if text != [] && IsSpace(text[|text| - 1]) {
      StripRightPart(text[..|text| - 1]);
    }
  }

  lemma NameGood(name: Bytes, prefix: Bytes)
    requires NEWLINE !in name
    ensures var path := StripPrefix(name, prefix);
        TAB !in path && NEWLINE !in path && (path != [] ==> !IsSpace(path[|path| - 1]))
  {
    var field := Split(name, TAB)[0];
    PieceFree(name, TAB, 0);
    StripLeftPart(field);
    var left := StripLeft(field);
    StripRightPart(left);
    var text := StripRight(left);
    hide Split, StripLeft, StripRight;
    if StartsWith(text, prefix) {
      var path := text[|prefix|..];
      assert forall b :: b in path ==> b in text;
      assert path != [] ==> path[|path| - 1] == text[|text| - 1];
    }
  }

  lemma FileHeaderGood(first: Bytes, second: Bytes)
    requires |first| >= 4 && |second| >= 4 && NEWLINE !in first && FileHeader(first, second).Ok?
    ensures GoodPath(FileHeader(first, second).value)
  {
    assert NEWLINE !in first[4..];
    NameGood(first[4..], OLD_PREFIX);
    hide StripPrefix, Unsafe, IsSpace;
  }

  // ----- outside hunks -----

  lemma Closed(s: State)
    requires GoodState(s) && (s.open ==> s.remainingOld == 0 && s.remainingNew == 0)
    ensures GoodFiles(s.patches)
  {
    if s.open {
      var last := |s.patches| - 1;
      var hunks := s.patches[last].hunks;
      var n := |hunks| - 1;
      assert GoodHunk(hunks[n]);
      hide GoodHunk, GoodPath;
      assert forall j :: 0 <= j < n ==> hunks[j] == hunks[..n][j];
      assert GoodHunks(hunks);
      assert forall i :: 0 <= i < last ==> s.patches[i] == s.patches[..last][i];
    }
  }

  lemma NewHunk(s: State, h: Hunk)
    requires GoodFiles(s.patches) && s.patches != [] && h.lines == []
    ensures GoodState(s.WithHunk(h))
  {
    hide GoodHunk, GoodPath;
    var t, last := s.WithHunk(h), |s.patches| - 1;
    var hunks := s.patches[last].hunks;
    assert t.patches[..last] == s.patches[..last];
    assert (hunks + [h])[..|hunks|] == hunks;
    assert Partial(h, h.oldCount, h.newCount);
  }

  lemma HeaderNoLines(line: Bytes)
    ensures Header(line).Some? ==> Header(line).value.lines == []
  {
    hide Range;
  }

  lemma HeaderGood(s: State, rest: seq<Bytes>)
    requires GoodState(s) && rest != [] && Free(rest) && HeaderStep(s, rest).Ok?
      && (s.open ==> s.remainingOld == 0 && s.remainingNew == 0)
    ensures GoodState(HeaderStep(s, rest).value.0)
  {
    Closed(s);
    HeaderNoLines(rest[0]);
    hide GoodState, Header, FileHeader, GoodFiles, KindOf;
    if StartsWith(rest[0], OLD_HEADER) && |rest| > 1 && StartsWith(rest[1], NEW_HEADER) {
      FileHeaderGood(rest[0], rest[1]);
      NewFile(s, FileHeader(rest[0], rest[1]).value);
    } else if Header(rest[0]).Some? {
      NewHunk(s, Header(rest[0]).value);
    }
  }

  lemma NewFile(s: State, path: Bytes)
    requires GoodFiles(s.patches) && GoodPath(path)
    ensures GoodState(State(s.patches + [FilePatch(path, [])], false, 0, 0))
  {
    hide GoodHunk, GoodPath;
  }

  // ----- runs -----

  lemma StepGood(s: State, rest: seq<Bytes>)
    requires GoodState(s) && rest != [] && Free(rest) && Step(s, rest).Ok?
    ensures GoodState(Step(s, rest).value.0)
  {
    hide GoodState, MarkerStep, ContentStep, HeaderStep;
    assert s.Valid() by { GoodIsValid(s); }
    if s.open && StartsWith(rest[0], [BACKSLASH]) {
      MarkerGood(s);
    } else if s.open && (s.remainingOld > 0 || s.remainingNew > 0) {
      ContentGood(s, rest[0]);
    } else {
      HeaderGood(s, rest);
    }
  }

  lemma GoodIsValid(s: State)
    requires GoodState(s)
    ensures s.Valid()
  {
    hide GoodFiles, GoodPath, GoodHunks, Partial;
  }

  lemma FinishGood(s: State)
    requires GoodState(s) && Finish(s).Ok?
    ensures Finish(s).value != [] && GoodPatches(Finish(s).value)
  {
    Closed(s);
    hide GoodHunks, GoodPath, GoodState;
  }

  lemma {:induction false} RunGood(s: State, rest: seq<Bytes>)
    requires GoodState(s) && s.Valid() && Free(rest) && Run(s, rest).Ok?
    ensures Run(s, rest).value != [] && GoodPatches(Run(s, rest).value)
    decreases |rest|
  {
    hide GoodState, Step, Finish, GoodPatches, State.Valid;
    if rest == [] {
      FinishGood(s);
    } else {
      StepGood(s, rest);
      var t := Step(s, rest).value;
      assert Free(rest[t.1..]);
      RunGood(t.0, rest[t.1..]);
    }
  }

  lemma TextFree(text: Bytes)
    ensures Free(TextLines(text))
  {
    forall i | 0 <= i < |Split(text, NEWLINE)|
      ensures NEWLINE !in Split(text, NEWLINE)[i]
    {
      PieceFree(text, NEWLINE, i);
    }
    hide Split;
  }

  /**
   Whatever text is parsed, the result is good: paths are relative and without parent steps, every hunk has
   exactly the lines its header declares, and every line is one line.
   */
  lemma ParsedIsGood(text: Bytes)
    requires Parsed(text).Ok?
    ensures Parsed(text).value != [] && GoodPatches(Parsed(text).value)
  {
    TextFree(text);
    ParsedIs(text);
    StartGood();
    hide *;
    RunGood(START, TextLines(text));
  }

  lemma StartGood()
    ensures GoodState(START)
  {}

  /** The parser's results are exactly the non-empty lists of good patches. */
  lemma ParsedIffGood(patches: seq<FilePatch>)
    ensures (exists text :: Parsed(text) == Ok(patches)) <==> patches != [] && GoodPatches(patches)
  {
    hide *;
    if text :| Parsed(text) == Ok(patches) {
      ParsedIsGood(text);
    }
    if patches != [] && GoodPatches(patches) {
      RoundTrip(patches);
    }
  }

  /** A parsed patch never disagrees with its header counts when it is applied. */
  lemma ParsedNeverMiscounts(text: Bytes, k: nat, original: Bytes)
    requires Parsed(text).Ok? && k < |Parsed(text).value|
    ensures Patched(original, Parsed(text).value[k]).Err? ==>
      !Patched(original, Parsed(text).value[k]).error.WrongCounts?
  {
    ParsedIsGood(text);
    hide Parsed, GoodHunks, GoodPath, SplitLines;
    NeverMiscounts(SplitLines(original), 0, Parsed(text).value[k].hunks, 1);
  }

  lemma {:induction false} NeverMiscounts(lines: seq<Bytes>, cursor: nat, hunks: seq<Hunk>, number: nat)
    requires cursor <= |lines| && GoodHunks(hunks)
    ensures ApplyFrom(lines, cursor, hunks, number).Err? ==> !ApplyFrom(lines, cursor, hunks, number).error.WrongCounts?
    decreases |hunks|
  {
    hide OldLines, NewLines, Body;
    if hunks != [] {
      assert GoodHunk(hunks[0]) && GoodHunks(hunks[1..]);
      if Refusal(lines, cursor, hunks[0], number) == None {
        NeverMiscounts(lines, Start(hunks[0]) + |OldLines(hunks[0].lines)|, hunks[1..], number + 1);
      }
    }
  }

  // ----- undoing parsed patches -----

  lemma {:induction false} SideLines(lines: seq<HunkLine>)
    requires forall i :: 0 <= i < |lines| ==> NEWLINE !in PatchPrint.Body(lines[i].content)
    ensures AllLines(OldLines(lines)) && AllLines(NewLines(lines))
  {
    if lines != [] {
      SideLines(lines[1..]);
      assert OneLine(lines[0].content);
    }
  }

  /** A good patch's lines are single lines, or nothing. */
  lemma GoodIsSingle(hunks: seq<Hunk>)
    requires GoodHunks(hunks)
    ensures SingleLines(hunks)
  {
    hide OldLines, NewLines, OneLine, PatchPrint.Body;
    forall k | 0 <= k < |hunks|
      ensures AllLines(OldLines(hunks[k].lines)) && AllLines(NewLines(hunks[k].lines))
    {
      assert GoodHunk(hunks[k]);
      SideLines(hunks[k].lines);
    }
  }

  /**
   For every parsed patch that applies: its inverse restores the file exactly when its hunks keep the file's lines.
   */
  lemma ParsedInverseIff(text: Bytes, k: nat, original: Bytes)
    requires Parsed(text).Ok? && k < |Parsed(text).value| && PatchedLines(original, Parsed(text).value[k]).Ok?
    ensures var patch := Parsed(text).value[k];
      Patched(Patched(original, patch).value, Inverse(patch)) == Ok(original)
      <==> KeepsLines(SplitLines(original), patch.hunks)
  {
    hide Parsed, KeepsLines, SplitLines, ApplyFrom, Inverse, GoodHunks, GoodPath, SingleLines;
    ParsedIsGood(text);
    var patch := Parsed(text).value[k];
    GoodIsSingle(patch.hunks);
    InverseRestoresIffKept(original, patch);
  }

  /** Two lines: a and b. */
  const TWO_LINES: Bytes := [97, NEWLINE, 98, NEWLINE]

  /** Replaces the first line by a c without a newline. */
  const OPENING: Hunk := Hunk(1, 1, 1, 1, [HunkLine(Removed, [97, NEWLINE]), HunkLine(Added, [99])])

  const OPENER: FilePatch := FilePatch([102], [OPENING])

  lemma OpenerIsGood()
    ensures GoodPatches([OPENER])
  {
    OpenerSides();
    assert PatchPrint.Body([97, NEWLINE]) == [97];
    assert GoodHunk(OPENING);
    SplitNone([102], SLASH);
    assert GoodPath([102]);
  }

  /**
   The parser and the applier accept a hunk that leaves a line in the middle open, and its inverse does not undo it.
   */
  lemma OpenLineIsNotUndone()
    ensures Parsed(Print([OPENER])) == Ok([OPENER])
    ensures Patched(TWO_LINES, OPENER) == Ok([99, 98, NEWLINE])
    ensures Patched([99, 98, NEWLINE], Inverse(OPENER)) != Ok(TWO_LINES)
  {
    OpenerIsGood();
    RoundTrip([OPENER]);
    OpenerApplies();
    hide Parsed, Print, Patched, SplitLines, Inverse, KeepsFrom;
    ParsedInverseIff(Print([OPENER]), 0, TWO_LINES);
    OpenerKeepsNot();
  }

  lemma JoinPair(first: Bytes, second: Bytes)
    ensures Join([first, second]) == first + second
  {
    var both, last := [first, second], [second];
    assert both[1..] == last && last[1..] == [];
    assert Join(last) == second + Join(last[1..]) == second;
    assert Join(both) == first + Join(both[1..]);
  }

  lemma ReplacingSides(gone: Bytes, added: Bytes)
    ensures var lines := [HunkLine(Removed, gone), HunkLine(Added, added)];
      OldLines(lines) == [gone] && NewLines(lines) == [added]
  {
    var lines, last := [HunkLine(Removed, gone), HunkLine(Added, added)], [HunkLine(Added, added)];
    assert lines[1..] == last && last[1..] == [];
    assert OldLines(last) == OldLines(last[1..]) == [] && NewLines(last) == [added] + NewLines(last[1..]) == [added];
    assert OldLines(lines) == [gone] + OldLines(lines[1..]) && NewLines(lines) == NewLines(lines[1..]);
  }

  lemma TwoLines()
    ensures SplitLines(TWO_LINES) == [[97, NEWLINE], [98, NEWLINE]]
  {
    var lines: seq<Bytes> := [[97, NEWLINE], [98, NEWLINE]];
    assert FileLines(lines);
    JoinPair(lines[0], lines[1]);
    assert lines[0] + lines[1] == TWO_LINES;
    SplitJoin(lines);
  }

  lemma OpenerSides()
    ensures OldLines(OPENING.lines) == [[97, NEWLINE]] && NewLines(OPENING.lines) == [[99]]
  {
    ReplacingSides([97, NEWLINE], [99]);
  }

  lemma OpenerApplies()
    ensures PatchedLines(TWO_LINES, OPENER) == Ok([[99], [98, NEWLINE]])
    ensures Patched(TWO_LINES, OPENER) == Ok([99, 98, NEWLINE])
  {
    TwoLines();
    OpenerSides();
    hide OldLines, NewLines, SplitLines;
    var lines: seq<Bytes> := [[97, NEWLINE], [98, NEWLINE]];
    assert OPENER.hunks[1..] == [];
    ApplyNone(lines, 1, 2);
    assert Refusal(lines, 0, OPENING, 1) == None;
    assert ApplyFrom(lines, 0, OPENER.hunks, 1) == Ok(lines[0..0] + [[99]] + lines[1..]);
    assert lines[0..0] + [[99]] + lines[1..] == [[99], [98, NEWLINE]];
    JoinPair([99], [98, NEWLINE]);
    assert [99] + [98, NEWLINE] == [99, 98, NEWLINE];
  }

  lemma OpenerKeepsNot()
    ensures !KeepsLines(SplitLines(TWO_LINES), OPENER.hunks)
  {
    TwoLines();
    OpenerSides();
    hide OldLines, NewLines, SplitLines;
    var lines: seq<Bytes> := [[97, NEWLINE], [98, NEWLINE]];
    assert OPENER.hunks[1..] == [];
    assert Behind(lines, OPENER.hunks, 0) == 1;
    assert NewLines(OPENER.hunks[0].lines)[0] == [99];
    assert !NewLinesEnd(lines, OPENER.hunks, 0);
  }
}
