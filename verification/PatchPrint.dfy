/** Printing file patches as a unified diff, and the round trip through the parser. */
module PatchPrint {
  import opened Wrappers
  import opened ByteLines
  import opened PatchApply
  import opened PatchParse

  function KindByte(kind: Kind): Byte {
    match kind case Context => SPACE case Removed => MINUS case Added => PLUS
  }

  /** A line's content without its newline. */
  function Body(content: Bytes): Bytes {
    if EndsLine(content) then content[..|content| - 1] else content
  }

  /** A hunk line, followed by the marker when the line has no newline. */
  function PrintLine(line: HunkLine): seq<Bytes> {
    [[KindByte(line.kind)] + Body(line.content)] + if EndsLine(line.content) then [] else [MARKER]
  }

  function PrintLines(lines: seq<HunkLine>): seq<Bytes> {
    if lines == [] then [] else PrintLine(lines[0]) + PrintLines(lines[1..])
  }

  function PrintHunk(h: Hunk): seq<Bytes> {
    [PrintHeader(h)] + PrintLines(h.lines)
  }

  function PrintHunks(hunks: seq<Hunk>): seq<Bytes> {
    if hunks == [] then [] else PrintHunk(hunks[0]) + PrintHunks(hunks[1..])
  }

  function PrintFile(patch: FilePatch): seq<Bytes> {
    [OLD_HEADER + (OLD_PREFIX + patch.path), NEW_HEADER + (NEW_PREFIX + patch.path)] + PrintHunks(patch.hunks)
  }

  function PrintFiles(patches: seq<FilePatch>): seq<Bytes> {
    if patches == [] then [] else PrintFile(patches[0]) + PrintFiles(patches[1..])
  }

  function Terminated(lines: seq<Bytes>): seq<Bytes> {
    if lines == [] then [] else [lines[0] + [NEWLINE]] + Terminated(lines[1..])
  }

  /** The unified diff of a list of file patches. */
  function Print(patches: seq<FilePatch>): Bytes {
    Join(Terminated(PrintFiles(patches)))
  }

  // ----- what can be printed -----

  /** Relative, without parent steps, tabs, newlines or trailing space. */
  predicate GoodPath(path: Bytes) {
    TAB !in path && NEWLINE !in path && (path != [] ==> !IsSpace(path[|path| - 1])) && !Unsafe(path)
  }

  /** The header's counts match, and every line is one line; any line may lack its newline. */
  predicate GoodHunk(h: Hunk) {
    && |OldLines(h.lines)| == h.oldCount && |NewLines(h.lines)| == h.newCount
    && forall i :: 0 <= i < |h.lines| ==> NEWLINE !in Body(h.lines[i].content)
  }

  predicate GoodHunks(hunks: seq<Hunk>) {
    forall i :: 0 <= i < |hunks| ==> GoodHunk(hunks[i])
  }

  predicate GoodPatches(patches: seq<FilePatch>) {
    forall i :: 0 <= i < |patches| ==>
        GoodPath(patches[i].path) && patches[i].hunks != [] && GoodHunks(patches[i].hunks)
  }

  // ----- lines of the text -----

  lemma {:induction false} SplitNone(text: Bytes, separator: Byte)
    requires separator !in text
    ensures Split(text, separator) == [text]
  {
    if text != [] {
      SplitNone(text[1..], separator);
      assert [text[0]] + text[1..] == text;
    }
  }

  lemma {:induction false} SplitPiece(line: Bytes, rest: Bytes)
    requires NEWLINE !in line
    ensures Split(line + [NEWLINE] + rest, NEWLINE) == [line] + Split(rest, NEWLINE)
  {
    var text := line + [NEWLINE] + rest;
    if line == [] {
      assert text[1..] == rest && text[0] == NEWLINE;
    } else {
      assert text[1..] == line[1..] + [NEWLINE] + rest && text[0] == line[0];
      SplitPiece(line[1..], rest);
      var tail := Split(line[1..] + [NEWLINE] + rest, NEWLINE);
      assert tail[0] == line[1..] && tail[1..] == Split(rest, NEWLINE);
      assert [line[0]] + line[1..] == line;
    }
  }

  ghost predicate Free(lines: seq<Bytes>) {
    forall i :: 0 <= i < |lines| ==> NEWLINE !in lines[i]
  }

  lemma {:induction false} SplitTerminated(lines: seq<Bytes>)
    requires Free(lines)
    ensures Split(Join(Terminated(lines)), NEWLINE) == lines + [[]]
  {
    if lines != [] {
      var rest := lines[1..];
      assert Free(rest);
      SplitTerminated(rest);
      var all := Terminated(lines);
      assert all[1..] == Terminated(rest) && all[0] == lines[0] + [NEWLINE];
      assert Join(all) == lines[0] + [NEWLINE] + Join(Terminated(rest));
      hide Split, Join, Terminated;
      SplitPiece(lines[0], Join(Terminated(rest)));
      assert [lines[0]] + (rest + [[]]) == lines + [[]];
    } else {
      assert Terminated(lines) == [] && Join([]) == [];
    }
  }

  lemma FreeConcat(a: seq<Bytes>, b: seq<Bytes>)
    requires Free(a) && Free(b)
    ensures Free(a + b)
  {}

  lemma {:induction false} LinesFree(lines: seq<HunkLine>)
    requires forall i :: 0 <= i < |lines| ==> NEWLINE !in Body(lines[i].content)
    ensures Free(PrintLines(lines))
  {
    if lines != [] {
      LinesFree(lines[1..]);
      LineFree(lines[0]);
      hide PrintLine, Free;
      FreeConcat(PrintLine(lines[0]), PrintLines(lines[1..]));
    }
  }

  lemma LineFree(line: HunkLine)
    requires NEWLINE !in Body(line.content)
    ensures Free(PrintLine(line))
  {}

  lemma HeaderFree(h: Hunk)
    ensures NEWLINE !in PrintHeader(h)
  {
    DecimalFree(h.oldStart);
    DecimalFree(h.oldCount);
    DecimalFree(h.newStart);
    DecimalFree(h.newCount);
    hide Decimal;
  }

  lemma DecimalFree(n: nat)
    ensures NEWLINE !in Decimal(n)
  {
    assert forall i :: 0 <= i < |Decimal(n)| ==> IsDigit(Decimal(n)[i]);
  }

  lemma {:induction false} HunksFree(hunks: seq<Hunk>)
    requires GoodHunks(hunks)
    ensures Free(PrintHunks(hunks))
  {
    hide PrintLines, PrintHeader, Free, GoodHunk;
    if hunks == [] {
      NoneFree();
    } else {
      assert GoodHunk(hunks[0]) && GoodHunks(hunks[1..]);
      HunksFree(hunks[1..]);
      HunkFree(hunks[0]);
      FreeConcat(PrintHunk(hunks[0]), PrintHunks(hunks[1..]));
    }
  }

  lemma NoneFree()
    ensures Free([])
  {}

  lemma HunkFree(h: Hunk)
    requires GoodHunk(h)
    ensures Free(PrintHunk(h))
  {
    HeaderFree(h);
    LinesFree(h.lines);
    hide PrintHeader, PrintLines;
  }

  lemma {:induction false} FilesFree(patches: seq<FilePatch>)
    requires GoodPatches(patches)
    ensures Free(PrintFiles(patches))
  {
    hide Free, GoodHunks, GoodPath, PrintFile;
    if patches == [] {
      NoneFree();
    } else {
      assert GoodPatches(patches[1..]);
      FilesFree(patches[1..]);
      FileFree(patches[0]);
      FreeConcat(PrintFile(patches[0]), PrintFiles(patches[1..]));
    }
  }

  lemma FileFree(patch: FilePatch)
    requires GoodPath(patch.path) && GoodHunks(patch.hunks)
    ensures Free(PrintFile(patch))
  {
    HunksFree(patch.hunks);
    hide PrintHunks, Unsafe;
  }

  lemma PrintedLines(patches: seq<FilePatch>)
    requires GoodPatches(patches)
    ensures TextLines(Print(patches)) == PrintFiles(patches)
  {
    FilesFree(patches);
    SplitTerminated(PrintFiles(patches));
    hide Split, PrintFiles, Join, Terminated, GoodPatches;
  }

  // ----- parsing one hunk -----

  /** The state after more content lines. */
  function Fed(s: State, lines: seq<HunkLine>): (t: State)
    requires s.Valid() && s.open && |OldLines(lines)| <= s.remainingOld && |NewLines(lines)| <= s.remainingNew
    ensures t.Valid() && t.open
  {
    s.WithLines(s.Current().lines + lines).(remainingOld := s.remainingOld - |OldLines(lines)|,
        remainingNew := s.remainingNew - |NewLines(lines)|)
  }

  lemma ContentPrinted(s: State, line: HunkLine)
    requires s.Valid() && s.open && |OldLines([line])| <= s.remainingOld && |NewLines([line])| <= s.remainingNew
    ensures ContentStep(s, [KindByte(line.kind)] + Body(line.content))
      == Ok(Fed(s, [HunkLine(line.kind, Body(line.content) + [NEWLINE])]))
    ensures s.remainingOld > 0 || s.remainingNew > 0
  {
    hide Body, State.WithLines, State.Current, State.Valid;
    var text := [KindByte(line.kind)] + Body(line.content);
    assert text[1..] == Body(line.content);
    assert [line][1..] == [];
    var fed := HunkLine(line.kind, Body(line.content) + [NEWLINE]);
    assert [fed][1..] == [];
  }

  lemma Rewritten(s: State, a: seq<HunkLine>, b: seq<HunkLine>, old_: nat, new_: nat)
    requires s.Valid() && s.open
    ensures var t := s.WithLines(a).(remainingOld := old_, remainingNew := new_);
        t.Valid() && t.Current() == s.Current().(lines := a)
        && t.WithLines(b) == s.WithLines(b).(remainingOld := old_, remainingNew := new_)
  {
    var last := |s.patches| - 1;
    var patch := s.patches[last];
    var n := |patch.hunks| - 1;
    var h := s.Current();
    assert patch.hunks[n := h.(lines := a)][n := h.(lines := b)] == patch.hunks[n := h.(lines := b)];
    var t := s.WithLines(a);
    assert t.patches[last] == patch.(hunks := patch.hunks[n := h.(lines := a)]);
    assert t.WithLines(b).patches == s.WithLines(b).patches;
  }

  /** The marker takes the added newline away again. */
  lemma MarkerPrinted(s: State, line: HunkLine)
    requires s.Valid() && s.open && |OldLines([line])| <= s.remainingOld && |NewLines([line])| <= s.remainingNew
      && !EndsLine(line.content)
    ensures var added := HunkLine(line.kind, line.content + [NEWLINE]);
        |OldLines([added])| <= s.remainingOld && |NewLines([added])| <= s.remainingNew
        && MarkerStep(Fed(s, [added])) == Ok(Fed(s, [line]))
  {
    var added := HunkLine(line.kind, line.content + [NEWLINE]);
    hide State.WithLines, State.Current, State.Valid, TrimNewlines, OldLines, NewLines;
    SameSides(line, added);
    Trimmed(line.content);
    var old_ := s.Current().lines;
    Rewritten(s, old_ + [added], old_ + [line], s.remainingOld - |OldLines([line])|,
        s.remainingNew - |NewLines([line])|);
    assert (old_ + [added])[|old_| := line] == old_ + [line];
  }

  lemma SameSides(a: HunkLine, b: HunkLine)
    requires a.kind == b.kind
    ensures |OldLines([a])| == |OldLines([b])| && |NewLines([a])| == |NewLines([b])|
  {
    assert [a][1..] == [] && [b][1..] == [];
  }

  lemma Trimmed(content: Bytes)
    requires !EndsLine(content)
    ensures TrimNewlines(content + [NEWLINE]) == content
  {
    var text := content + [NEWLINE];
    assert text[..|text| - 1] == content;
  }

  lemma RunLine(s: State, line: HunkLine, rest: seq<Bytes>)
    requires s.Valid() && s.open && |OldLines([line])| <= s.remainingOld && |NewLines([line])| <= s.remainingNew
    ensures Run(s, PrintLine(line) + rest) == Run(Fed(s, [line]), rest)
  {
    hide State.Valid, State.WithLines, State.Current;
    var text := [KindByte(line.kind)] + Body(line.content);
    ContentPrinted(s, line);
    var printed := PrintLine(line) + rest;
    assert printed[0] == text && text[0] != BACKSLASH;
    NotMarker(text);
    hide ContentStep, MarkerStep, Fed, OldLines, NewLines, Run, State.Valid, StartsWith;
    RunContent(s, printed);
    if EndsLine(line.content) {
      assert Body(line.content) + [NEWLINE] == line.content;
      assert printed[1..] == rest;
    } else {
      MarkerPrinted(s, line);
      var added := HunkLine(line.kind, line.content + [NEWLINE]);
      assert printed[1..] == [MARKER] + rest;
      var more := [MARKER] + rest;
      assert more[0] == MARKER && more[1..] == rest;
      MarkerIsMarker();
      RunMarker(Fed(s, [added]), more);
    }
  }

  lemma MarkerIsMarker()
    ensures StartsWith(MARKER, [BACKSLASH])
  {
    assert MARKER[..1] == [BACKSLASH];
  }

  lemma NotMarker(text: Bytes)
    requires text != [] && text[0] != BACKSLASH
    ensures !StartsWith(text, [BACKSLASH])
  {
    assert text[..1][0] != BACKSLASH;
  }

  lemma FedTwice(s: State, line: HunkLine, more: seq<HunkLine>)
    requires s.Valid() && s.open && |OldLines([line] + more)| <= s.remainingOld
      && |NewLines([line] + more)| <= s.remainingNew
    ensures |OldLines([line])| <= s.remainingOld && |NewLines([line])| <= s.remainingNew
    ensures |OldLines(more)| <= Fed(s, [line]).remainingOld && |NewLines(more)| <= Fed(s, [line]).remainingNew
    ensures Fed(Fed(s, [line]), more) == Fed(s, [line] + more)
  {
    hide State.WithLines, State.Current, State.Valid;
    SidesAdd(line, more);
    hide OldLines, NewLines;
    var old_ := s.Current().lines;
    assert old_ + [line] + more == old_ + ([line] + more);
    Rewritten(s, old_ + [line], old_ + [line] + more, s.remainingOld - |OldLines([line])|,
        s.remainingNew - |NewLines([line])|);
  }

  lemma SidesAdd(line: HunkLine, more: seq<HunkLine>)
    ensures |OldLines([line] + more)| == |OldLines([line])| + |OldLines(more)|
    ensures |NewLines([line] + more)| == |NewLines([line])| + |NewLines(more)|
  {
    assert ([line] + more)[1..] == more && [line][1..] == [];
  }

  lemma {:induction false} RunLines(s: State, lines: seq<HunkLine>, rest: seq<Bytes>)
    requires s.Valid() && s.open && |OldLines(lines)| <= s.remainingOld && |NewLines(lines)| <= s.remainingNew
    ensures Run(s, PrintLines(lines) + rest) == Run(Fed(s, lines), rest)
    decreases |lines|
  {
    hide Run, Fed, PrintLine, State.Valid;
    if lines == [] {
      FedNothing(s, lines);
      assert PrintLines(lines) + rest == rest;
    } else {
      var more := lines[1..];
      assert lines == [lines[0]] + more;
      hide OldLines, NewLines;
      FedTwice(s, lines[0], more);
      RunLine(s, lines[0], PrintLines(more) + rest);
      RunLines(Fed(s, [lines[0]]), more, rest);
      assert PrintLines(lines) + rest == PrintLine(lines[0]) + (PrintLines(more) + rest);
    }
  }

  lemma FedNothing(s: State, lines: seq<HunkLine>)
    requires s.Valid() && s.open && lines == []
    ensures Fed(s, lines) == s
  {
    assert s.Current().lines + [] == s.Current().lines;
    var last := |s.patches| - 1;
    var hunks := s.patches[last].hunks;
    assert hunks[|hunks| - 1 := hunks[|hunks| - 1]] == hunks;
    assert s.patches[last := s.patches[last]] == s.patches;
  }

  /** No hunk is open, or the open one is complete. */
  predicate Idle(s: State) {
    s.Valid() && (s.open ==> s.remainingOld == 0 && s.remainingNew == 0)
  }

  function WithWholeHunk(s: State, h: Hunk): (t: State)
    requires s.patches != []
    ensures Idle(t) && t.patches != []
  {
    s.WithHunk(h).(remainingOld := 0, remainingNew := 0)
  }

  lemma HunkFed(s: State, h: Hunk)
    requires s.patches != [] && GoodHunk(h)
    ensures Fed(s.WithHunk(h.(lines := [])), h.lines) == WithWholeHunk(s, h)
  {
    hide OldLines, NewLines;
    var t := s.WithHunk(h.(lines := []));
    assert t.Current() == h.(lines := []);
    assert [] + h.lines == h.lines;
    var last := |s.patches| - 1;
    var hunks := s.patches[last].hunks;
    assert (hunks + [h.(lines := [])])[|hunks| := h] == hunks + [h];
  }

  lemma RunHunk(s: State, h: Hunk, rest: seq<Bytes>)
    requires Idle(s) && s.patches != [] && GoodHunk(h)
    ensures Run(s, PrintHunk(h) + rest) == Run(WithWholeHunk(s, h), rest)
  {
    hide Run, Header, PrintHeader, Fed, OldLines, NewLines, PrintLines;
    var printed := PrintHunk(h) + rest;
    assert printed[0] == PrintHeader(h) && printed[1..] == PrintLines(h.lines) + rest;
    HeaderStarts(h);
    NotMarker(printed[0]);
    HeaderPrinted(h);
    RunHeader(s, printed);
    HunkFed(s, h);
    RunLines(s.WithHunk(h.(lines := [])), h.lines, rest);
  }

  lemma HeaderStarts(h: Hunk)
    ensures PrintHeader(h) != [] && PrintHeader(h)[0] == AT && !StartsWith(PrintHeader(h), OLD_HEADER)
  {
    hide Decimal;
    var text := PrintHeader(h);
    assert text[0] == AT;
    assert |text| >= 4 ==> text[..4][0] == AT;
  }

  /** The last file takes further hunks. */
  function WithWholeHunks(s: State, hunks: seq<Hunk>): (t: State)
    requires Idle(s) && s.patches != []
    ensures Idle(t) && t.patches != []
    decreases |hunks|
  {
    if hunks == [] then s else WithWholeHunks(WithWholeHunk(s, hunks[0]), hunks[1..])
  }

  lemma {:induction false} RunHunks(s: State, hunks: seq<Hunk>, rest: seq<Bytes>)
    requires Idle(s) && s.patches != [] && GoodHunks(hunks)
    ensures Run(s, PrintHunks(hunks) + rest) == Run(WithWholeHunks(s, hunks), rest)
    decreases |hunks|
  {
    hide Run, GoodHunk, PrintHunk, WithWholeHunk;
    if hunks == [] {
      assert PrintHunks(hunks) + rest == rest;
    } else {
      var more := PrintHunks(hunks[1..]) + rest;
      assert PrintHunks(hunks) + rest == PrintHunk(hunks[0]) + more;
      assert GoodHunks(hunks[1..]);
      RunHunk(s, hunks[0], more);
      RunHunks(WithWholeHunk(s, hunks[0]), hunks[1..], rest);
    }
  }

  lemma {:induction false} HunksCollected(s: State, hunks: seq<Hunk>)
    requires Idle(s) && s.patches != []
    ensures var last := |s.patches| - 1;
        WithWholeHunks(s, hunks).patches == s.patches[last := s.patches[last].(hunks := s.patches[last].hunks + hunks)]
    decreases |hunks|
  {
    var last := |s.patches| - 1;
    if hunks == [] {
      assert s.patches[last].hunks + [] == s.patches[last].hunks;
      assert s.patches[last := s.patches[last]] == s.patches;
    } else {
      var t := WithWholeHunk(s, hunks[0]);
      HunksCollected(t, hunks[1..]);
      assert s.patches[last].hunks + [hunks[0]] + hunks[1..] == s.patches[last].hunks + hunks;
    }
  }

  // ----- parsing files -----

  lemma NameStripped(prefix: Bytes, path: Bytes)
    requires GoodPath(path) && |prefix| == 2 && !IsSpace(prefix[0]) && prefix[1] == SLASH
    ensures StripPrefix(prefix + path, prefix) == path
  {
    hide Unsafe;
    var name := prefix + path;
    assert TAB !in prefix;
    assert TAB !in name;
    SplitNone(name, TAB);
    assert name[0] == prefix[0];
    assert StripLeft(name) == name;
    assert name[|name| - 1] == if path == [] then prefix[1] else path[|path| - 1];
    assert StripRight(name) == name;
    Prefixed(prefix, path);
  }

  lemma FileHeaderPrinted(path: Bytes)
    requires GoodPath(path)
    ensures FileHeader(OLD_HEADER + (OLD_PREFIX + path), NEW_HEADER + (NEW_PREFIX + path)) == Ok(path)
  {
    Prefixed(OLD_HEADER, OLD_PREFIX + path);
    Prefixed(NEW_HEADER, NEW_PREFIX + path);
    NameStripped(OLD_PREFIX, path);
    NameStripped(NEW_PREFIX, path);
    hide StripPrefix;
    assert StartsWith(NO_FILE, [SLASH]);
    hide StartsWith, Split;
  }

  lemma RunFile(s: State, patch: FilePatch, rest: seq<Bytes>)
    requires Idle(s) && GoodPath(patch.path) && GoodHunks(patch.hunks)
    ensures Run(s, PrintFile(patch) + rest)
      == Run(WithWholeHunks(State(s.patches + [FilePatch(patch.path, [])], false, 0, 0), patch.hunks), rest)
  {
    hide Run, FileHeader, PrintHunks, WithWholeHunks, GoodHunks, GoodPath;
    var first, second := OLD_HEADER + (OLD_PREFIX + patch.path), NEW_HEADER + (NEW_PREFIX + patch.path);
    var printed := PrintFile(patch) + rest;
    assert printed[0] == first && printed[1] == second && printed[2..] == PrintHunks(patch.hunks) + rest;
    Prefixed(OLD_HEADER, OLD_PREFIX + patch.path);
    Prefixed(NEW_HEADER, NEW_PREFIX + patch.path);
    assert first[0] == MINUS;
    NotMarker(first);
    FileHeaderPrinted(patch.path);
    RunHeader(s, printed);
    RunHunks(State(s.patches + [FilePatch(patch.path, [])], false, 0, 0), patch.hunks, rest);
  }

  lemma FileCollected(s: State, patch: FilePatch)
    requires Idle(s)
    ensures var t := WithWholeHunks(State(s.patches + [FilePatch(patch.path, [])], false, 0, 0), patch.hunks);
        Idle(t) && t.patches == s.patches + [patch]
  {
    var start := State(s.patches + [FilePatch(patch.path, [])], false, 0, 0);
    HunksCollected(start, patch.hunks);
    assert [] + patch.hunks == patch.hunks;
    assert start.patches[|s.patches| := patch] == s.patches + [patch];
  }

  lemma {:induction false} RunFiles(s: State, patches: seq<FilePatch>)
    requires Idle(s) && GoodPatches(patches) && s.patches + patches != []
    requires forall i :: 0 <= i < |s.patches| ==> s.patches[i].hunks != []
    ensures Run(s, PrintFiles(patches)) == Ok(s.patches + patches)
    decreases |patches|
  {
    hide GoodHunks, GoodPath, PrintFile, WithWholeHunks;
    if patches == [] {
      assert s.patches + [] == s.patches;
      RunEnd(s);
    } else {
      hide Run;
      assert GoodPatches(patches[1..]);
      RunFile(s, patches[0], PrintFiles(patches[1..]));
      FileCollected(s, patches[0]);
      var t := WithWholeHunks(State(s.patches + [FilePatch(patches[0].path, [])], false, 0, 0), patches[0].hunks);
      assert s.patches + [patches[0]] + patches[1..] == s.patches + patches;
      RunFiles(t, patches[1..]);
    }
  }

  /** Parsing the printed diff gives the same patches, whatever their lines look like. */
  lemma RoundTrip(patches: seq<FilePatch>)
    requires patches != [] && GoodPatches(patches)
    ensures Parsed(Print(patches)) == Ok(patches)
  {
    PrintedLines(patches);
    hide *;
    assert START.patches + patches == patches && Idle(START) by {
      StartIdle(patches);
    }
    ParsedIs(Print(patches));
    RunFiles(START, patches);
  }

  lemma StartIdle(patches: seq<FilePatch>)
    ensures START.patches + patches == patches && Idle(START) && START.patches == []
  {
    assert [] + patches == patches;
  }

  lemma ParsedIs(text: Bytes)
    ensures START.Valid() && Parsed(text) == Run(START, TextLines(text)) && START.patches == []
  {}
}
