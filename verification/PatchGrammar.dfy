/**
 The grammar of the texts that parse_patch of scripts/build_sep_wheel.py accepts: blocks of prose, file headers, hunks
 and end-of-file markers. A text is parsed to a list of patches exactly when it is written as blocks that mean the list.
 */
module PatchGrammar {
  import opened Wrappers
  import opened ByteLines
  import opened PatchApply
  import opened PatchParse
  import opened PatchPrint
  import PatchSound
  import opened PatchText

  /** A hunk line as written: an empty context line may be an empty line, and markers may follow any line. */
  datatype LineText = LineText(kind: Kind, body: Bytes, short: bool, marks: seq<Bytes>) {
    predicate Valid() {
      NEWLINE !in body && (short ==> kind == Context && body == []) && AllMarks(marks)
    }

    function Text(): seq<Bytes> {
      [if short then [] else [KindByte(kind)] + body] + marks
    }

    /** A marked line has no newline. */
    function Line(): HunkLine {
      HunkLine(kind, if marks == [] then body + [NEWLINE] else body)
    }
  }

  predicate IsMark(line: Bytes) {
    line != [] && line[0] == BACKSLASH
  }

  predicate AllMarks(lines: seq<Bytes>) {
    forall i :: 0 <= i < |lines| ==> IsMark(lines[i])
  }

  datatype Block =
    | Prose(line: Bytes)
    | FileBlock(path: Bytes, oldName: NameText, newName: NameText)
    | HunkBlock(header: HeaderText, lines: seq<LineText>)
    | LateMark(line: Bytes)

  function LinesText(lines: seq<LineText>): seq<Bytes> {
    if lines == [] then [] else lines[0].Text() + LinesText(lines[1..])
  }

  function BlockText(b: Block): seq<Bytes> {
    match b
    case Prose(line) => [line]
    case FileBlock(path, oldName, newName) =>
      [OLD_HEADER + oldName.Text(path, OLD_PREFIX), NEW_HEADER + newName.Text(path, NEW_PREFIX)]
    case HunkBlock(header, lines) => [header.Text()] + LinesText(lines)
    case LateMark(line) => [line]
  }

  function Text(blocks: seq<Block>): seq<Bytes> {
    if blocks == [] then [] else Text(blocks[..|blocks| - 1]) + BlockText(blocks[|blocks| - 1])
  }

  // ----- what the blocks mean -----

  function Meaning(lines: seq<LineText>): seq<HunkLine> {
    seq(|lines|, i requires 0 <= i < |lines| => lines[i].Line())
  }

  /** The file's last hunk. */
  function HunkOf(header: HeaderText, lines: seq<LineText>): Hunk
    requires header.Valid()
  {
    header.Opens().(lines := Meaning(lines))
  }

  /** The patches with the newline taken off the last line of the last hunk. */
  function Unended(patches: seq<FilePatch>): seq<FilePatch> {
    if patches == [] then patches else
    var last := |patches| - 1;
    var hunks := patches[last].hunks;
    if hunks == [] || hunks[|hunks| - 1].lines == [] then patches else
    var lines := hunks[|hunks| - 1].lines;
    var line := lines[|lines| - 1];
    var unended := lines[|lines| - 1 := HunkLine(line.kind, TrimNewlines(line.content))];
    patches[last := patches[last].(hunks := hunks[|hunks| - 1 := hunks[|hunks| - 1].(lines := unended)])]
  }

  function AddHunk(patches: seq<FilePatch>, h: Hunk): seq<FilePatch> {
    if patches == [] then patches
    else patches[|patches| - 1 := patches[|patches| - 1].(hunks := patches[|patches| - 1].hunks + [h])]
  }

  /** What one more block makes of the patches before it. */
  function With(before: seq<FilePatch>, b: Block): seq<FilePatch> {
    match b
    case Prose(_) => before
    case FileBlock(path, _, _) => before + [FilePatch(path, [])]
    case HunkBlock(header, lines) => if header.Valid() then AddHunk(before, HunkOf(header, lines)) else before
    case LateMark(_) => Unended(before)
  }

  function Patches(blocks: seq<Block>): seq<FilePatch> {
    if blocks == [] then [] else With(Patches(blocks[..|blocks| - 1]), blocks[|blocks| - 1])
  }

  /** The last file has a hunk. */
  predicate HunkOpen(patches: seq<FilePatch>) {
    patches != [] && patches[|patches| - 1].hunks != []
  }

  // ----- which blocks may follow which -----

  /** Behind a hunk, prose must not look like its content. */
  ghost predicate IsProse(line: Bytes, hunkOpen: bool) {
    !IsHeader(line)
    && (hunkOpen && line != [] ==> line[0] != SPACE && line[0] != MINUS && line[0] != PLUS && line[0] != BACKSLASH)
  }

  predicate AllValid(lines: seq<LineText>) {
    forall i :: 0 <= i < |lines| ==> lines[i].Valid()
  }

  ghost predicate Fits(patches: seq<FilePatch>, b: Block) {
    match b
    case Prose(line) => IsProse(line, HunkOpen(patches))
    case FileBlock(path, oldName, newName) =>
      !Unsafe(path) && oldName.Valid(path, OLD_PREFIX) && newName.Valid(path, NEW_PREFIX)
    case HunkBlock(header, lines) =>
      patches != [] && header.Valid() && AllValid(lines)
      && |OldLines(Meaning(lines))| == header.old_.Count() && |NewLines(Meaning(lines))| == header.new_.Count()
    case LateMark(line) =>
      IsMark(line) && HunkOpen(patches)
      && patches[|patches| - 1].hunks[|patches[|patches| - 1].hunks| - 1].lines != []
  }

  /** A prose line like the first of a file header is prose if no second one follows. */
  predicate Follows(blocks: seq<Block>, rest: seq<Bytes>) {
    blocks != [] && rest != [] && blocks[|blocks| - 1].Prose? && StartsWith(blocks[|blocks| - 1].line, OLD_HEADER) ==>
      !StartsWith(rest[0], NEW_HEADER)
  }

  ghost predicate WellFormed(blocks: seq<Block>) {
    blocks != [] ==>
      var front, b := blocks[..|blocks| - 1], blocks[|blocks| - 1];
      WellFormed(front) && Fits(Patches(front), b) && Follows(front, BlockText(b))
  }

  // ----- reading a written hunk -----

  /** A marker leaves the last line without its newline. */
  lemma MarkerOn(s: State, kind: Kind, content: Bytes, body: Bytes)
    requires s.Valid() && s.open && TrimNewlines(content) == body
    requires |OldLines([HunkLine(kind, body)])| <= s.remainingOld
    requires |NewLines([HunkLine(kind, body)])| <= s.remainingNew
    ensures var line := HunkLine(kind, content);
        |OldLines([line])| <= s.remainingOld && |NewLines([line])| <= s.remainingNew
        && MarkerStep(Fed(s, [line])) == Ok(Fed(s, [HunkLine(kind, body)]))
  {
    hide State.WithLines, State.Current, State.Valid, TrimNewlines, OldLines, NewLines;
    var before, after := HunkLine(kind, content), HunkLine(kind, body);
    SameSides(before, after);
    var lines := s.Current().lines;
    Rewritten(s, lines + [before], lines + [after], s.remainingOld - |OldLines([after])|,
        s.remainingNew - |NewLines([after])|);
    assert (lines + [before])[|lines| := after] == lines + [after];
  }

  lemma MarkStarts(mark: Bytes)
    requires IsMark(mark)
    ensures StartsWith(mark, [BACKSLASH])
  {
    assert mark[..1] == [BACKSLASH];
  }

  lemma {:induction false} ReadMarks(s: State, kind: Kind, content: Bytes, body: Bytes, marks: seq<Bytes>,
                                     rest: seq<Bytes>)
    requires s.Valid() && s.open && TrimNewlines(content) == body && !EndsLine(body) && AllMarks(marks)
    requires |OldLines([HunkLine(kind, body)])| <= s.remainingOld
    requires |NewLines([HunkLine(kind, body)])| <= s.remainingNew
    ensures |OldLines([HunkLine(kind, content)])| <= s.remainingOld
    ensures |NewLines([HunkLine(kind, content)])| <= s.remainingNew
    ensures Run(Fed(s, [HunkLine(kind, content)]), marks + rest)
      == Run(Fed(s, [HunkLine(kind, if marks == [] then content else body)]), rest)
    decreases |marks|
  {
    hide Run, Fed, MarkerStep, OldLines, NewLines, State.Valid, IsMark;
    MarkerOn(s, kind, content, body);
    if marks == [] {
      assert marks + rest == rest;
    } else {
      var more := marks[1..] + rest;
      assert marks + rest == [marks[0]] + more;
      assert ([marks[0]] + more)[1..] == more;
      MarkStarts(marks[0]);
      RunMarker(Fed(s, [HunkLine(kind, content)]), [marks[0]] + more);
      ReadMarks(s, kind, body, body, marks[1..], rest);
    }
  }

  lemma ReadFirst(s: State, l: LineText)
    requires l.Valid() && s.Valid() && s.open
    requires |OldLines([l.Line()])| <= s.remainingOld && |NewLines([l.Line()])| <= s.remainingNew
    ensures var line, full := l.Text()[0], HunkLine(l.kind, l.body + [NEWLINE]);
        !StartsWith(line, [BACKSLASH]) && (s.remainingOld > 0 || s.remainingNew > 0)
        && |OldLines([full])| <= s.remainingOld && |NewLines([full])| <= s.remainingNew
        && ContentStep(s, line) == Ok(Fed(s, [full]))
  {
    hide State.Valid, State.WithLines, State.Current;
    var full := HunkLine(l.kind, l.body + [NEWLINE]);
    assert Body(full.content) == l.body;
    SameSides(l.Line(), full);
    ContentPrinted(s, full);
    if l.short {
      assert ContentStep(s, []) == ContentStep(s, [SPACE]) by { EmptyContext(s); }
    } else {
      NotMarker([KindByte(l.kind)] + l.body);
    }
  }

  /** An empty line is an empty context line. */
  lemma EmptyContext(s: State)
    requires s.Valid() && s.open
    ensures ContentStep(s, []) == ContentStep(s, [SPACE])
  {
    hide State.Valid, State.WithLines, State.Current;
    assert [SPACE][1..] + [NEWLINE] == [NEWLINE];
  }

  lemma ReadLine(s: State, l: LineText, rest: seq<Bytes>)
    requires l.Valid() && s.Valid() && s.open
    requires |OldLines([l.Line()])| <= s.remainingOld && |NewLines([l.Line()])| <= s.remainingNew
    ensures Run(s, l.Text() + rest) == Run(Fed(s, [l.Line()]), rest)
  {
    hide *;
    LineParts(l, rest);
    ReadFirst(s, l);
    RunContent(s, [l.Text()[0]] + (l.marks + rest));
    SameSides(l.Line(), HunkLine(l.kind, l.body));
    ReadMarks(s, l.kind, l.body + [NEWLINE], l.body, l.marks, rest);
  }

  lemma LineParts(l: LineText, rest: seq<Bytes>)
    requires l.Valid()
    ensures |l.Text()| > 0 && l.Text() + rest == [l.Text()[0]] + (l.marks + rest)
    ensures ([l.Text()[0]] + (l.marks + rest))[1..] == l.marks + rest
    ensures l.Line() == HunkLine(l.kind, if l.marks == [] then l.body + [NEWLINE] else l.body)
    ensures TrimNewlines(l.body + [NEWLINE]) == l.body && !EndsLine(l.body) && AllMarks(l.marks)
  {
    hide TrimNewlines, KindByte, IsMark;
    Trimmed(l.body);
  }

  lemma {:induction false} ReadLines(s: State, lines: seq<LineText>, rest: seq<Bytes>)
    requires AllValid(lines) && s.Valid() && s.open
    requires |OldLines(Meaning(lines))| <= s.remainingOld && |NewLines(Meaning(lines))| <= s.remainingNew
    ensures Run(s, LinesText(lines) + rest) == Run(Fed(s, Meaning(lines)), rest)
    decreases |lines|
  {
    hide Run, Fed, State.Valid, LineText.Valid, LineText.Text, LineText.Line, OldLines, NewLines;
    if lines == [] {
      FedNothing(s, Meaning(lines));
      assert LinesText(lines) + rest == rest;
    } else {
      var first, more := lines[0], lines[1..];
      assert Meaning(lines) == [first.Line()] + Meaning(more);
      FedTwice(s, first.Line(), Meaning(more));
      assert LinesText(lines) + rest == first.Text() + (LinesText(more) + rest);
      ReadLine(s, first, LinesText(more) + rest);
      ReadLines(Fed(s, [first.Line()]), more, rest);
    }
  }

  // ----- reading a block -----

  /** The state between two blocks. */
  function After(patches: seq<FilePatch>): (s: State)
    ensures s.Valid() && Idle(s)
  {
    State(patches, HunkOpen(patches), 0, 0)
  }

  lemma HeaderLine(header: HeaderText)
    requires header.Valid()
    ensures var text := header.Text();
        text != [] && text[0] == AT && !StartsWith(text, OLD_HEADER) && !StartsWith(text, NEW_HEADER)
        && !StartsWith(text, [BACKSLASH]) && Header(text) == Some(header.Opens())
  {
    hide RangeText.Text, RangeText.Valid, Header;
    HeaderRead(header);
    var text := header.Text();
    assert text[0] == AT;
    assert |text| >= 4 ==> text[..4][0] == AT;
    assert text[..1][0] == AT;
  }

  lemma GoodMeaning(header: HeaderText, lines: seq<LineText>)
    requires header.Valid() && AllValid(lines)
    requires |OldLines(Meaning(lines))| == header.old_.Count() && |NewLines(Meaning(lines))| == header.new_.Count()
    ensures GoodHunk(HunkOf(header, lines))
  {
    hide OldLines, NewLines, RangeText.Count, RangeText.Start, HeaderText.Valid;
    forall i | 0 <= i < |lines|
      ensures NEWLINE !in Body(Meaning(lines)[i].content)
    {
      var l := lines[i];
      assert l.Valid() && Meaning(lines)[i] == l.Line();
      assert (l.body + [NEWLINE])[..|l.body|] == l.body;
    }
  }

  lemma ReadHunk(patches: seq<FilePatch>, header: HeaderText, lines: seq<LineText>, rest: seq<Bytes>)
    requires patches != [] && header.Valid() && AllValid(lines)
    requires |OldLines(Meaning(lines))| == header.old_.Count() && |NewLines(Meaning(lines))| == header.new_.Count()
    ensures Run(After(patches), [header.Text()] + LinesText(lines) + rest)
      == Run(After(AddHunk(patches, HunkOf(header, lines))), rest)
  {
    hide Run, Header, Fed, OldLines, NewLines, HeaderText.Text, HeaderText.Valid, LinesText, AllValid, Meaning,
      RangeText.Count, RangeText.Start;
    var s, h := After(patches), HunkOf(header, lines);
    var all := [header.Text()] + LinesText(lines) + rest;
    assert all[0] == header.Text() && all[1..] == LinesText(lines) + rest;
    HeaderLine(header);
    RunHeader(s, all);
    GoodMeaning(header, lines);
    HunkFed(s, h);
    assert h.(lines := []) == header.Opens();
    ReadLines(s.WithHunk(header.Opens()), lines, rest);
    assert WithWholeHunk(s, h) == After(AddHunk(patches, h));
  }

  lemma ReadProse(patches: seq<FilePatch>, line: Bytes, rest: seq<Bytes>)
    requires IsProse(line, HunkOpen(patches))
    requires rest != [] && StartsWith(line, OLD_HEADER) ==> !StartsWith(rest[0], NEW_HEADER)
    ensures Run(After(patches), [line] + rest) == Run(After(patches), rest)
  {
    hide Run, Header, IsHeader;
    HeaderIff(line);
    var all := [line] + rest;
    assert all[0] == line && all[1..] == rest && (rest != [] ==> all[1] == rest[0]);
    ProseStarts(line, HunkOpen(patches));
    RunHeader(After(patches), all);
  }

  lemma ProseStarts(line: Bytes, hunkOpen: bool)
    requires IsProse(line, hunkOpen)
    ensures hunkOpen ==> !StartsWith(line, OLD_HEADER) && !StartsWith(line, [BACKSLASH])
    ensures hunkOpen && line != [] ==> KindOf(line[0]).None?
  {
    hide IsHeader;
    assert |line| >= 4 ==> line[..4][0] == line[0];
    assert |line| >= 1 ==> line[..1][0] == line[0];
  }

  lemma ReadFile(patches: seq<FilePatch>, path: Bytes, oldName: NameText, newName: NameText, rest: seq<Bytes>)
    requires !Unsafe(path) && oldName.Valid(path, OLD_PREFIX) && newName.Valid(path, NEW_PREFIX)
    ensures Run(After(patches), BlockText(FileBlock(path, oldName, newName)) + rest)
      == Run(After(patches + [FilePatch(path, [])]), rest)
  {
    hide Run, FileHeader, NameText.Text, NameText.Valid, Unsafe;
    var first, second := OLD_HEADER + oldName.Text(path, OLD_PREFIX), NEW_HEADER + newName.Text(path, NEW_PREFIX);
    var all := [first, second] + rest;
    assert all[0] == first && all[1] == second && all[2..] == rest;
    Prefixed(OLD_HEADER, oldName.Text(path, OLD_PREFIX));
    Prefixed(NEW_HEADER, newName.Text(path, NEW_PREFIX));
    NotMarker(first);
    FileNames(path, oldName, newName);
    RunHeader(After(patches), all);
  }

  lemma FileNames(path: Bytes, oldName: NameText, newName: NameText)
    requires !Unsafe(path) && oldName.Valid(path, OLD_PREFIX) && newName.Valid(path, NEW_PREFIX)
    ensures FileHeader(OLD_HEADER + oldName.Text(path, OLD_PREFIX), NEW_HEADER + newName.Text(path, NEW_PREFIX))
      == Ok(path)
  {
    hide StripPrefix, NameText.Valid, NameText.Text;
    Prefixed(OLD_HEADER, oldName.Text(path, OLD_PREFIX));
    Prefixed(NEW_HEADER, newName.Text(path, NEW_PREFIX));
    NameRead(oldName, path, OLD_PREFIX);
    NameRead(newName, path, NEW_PREFIX);
    assert StartsWith(NO_FILE, [SLASH]);
    hide StartsWith, Split;
  }

  lemma ReadLate(patches: seq<FilePatch>, line: Bytes, rest: seq<Bytes>)
    requires Fits(patches, LateMark(line))
    ensures Run(After(patches), [line] + rest) == Run(After(Unended(patches)), rest)
  {
    hide Run, TrimNewlines;
    MarkStarts(line);
    var all := [line] + rest;
    assert all[0] == line && all[1..] == rest;
    RunMarker(After(patches), all);
  }

  // ----- every written text is read -----

  lemma ReadBlock(patches: seq<FilePatch>, b: Block, rest: seq<Bytes>)
    requires Fits(patches, b) && Follows([b], rest)
    ensures Run(After(patches), BlockText(b) + rest) == Run(After(With(patches, b)), rest)
  {
    hide Run, Unended, AddHunk, HunkOf, HeaderText.Text, HeaderText.Valid, LinesText, AllValid, Meaning, After,
      IsHeader,
      IsProse, Unsafe, NameText.Valid, NameText.Text, HunkOpen, OldLines, NewLines, RangeText.Count, IsMark;
    match b
    case Prose(line) => ReadProse(patches, line, rest);
    case FileBlock(path, oldName, newName) => ReadFile(patches, path, oldName, newName, rest);
    case HunkBlock(header, lines) => ReadHunk(patches, header, lines, rest);
    case LateMark(line) => ReadLate(patches, line, rest);
  }

  lemma FollowsMore(blocks: seq<Block>, first: seq<Bytes>, rest: seq<Bytes>)
    requires first != [] && Follows(blocks, first)
    ensures Follows(blocks, first + rest)
  {}

  /** Reading the blocks leads to the state between two blocks. */
  lemma {:induction false} ReadBlocks(blocks: seq<Block>, rest: seq<Bytes>)
    requires WellFormed(blocks) && Follows(blocks, rest)
    ensures Run(After([]), Text(blocks) + rest) == Run(After(Patches(blocks)), rest)
    decreases |blocks|
  {
    hide Run, After, With, BlockText, Fits;
    if blocks == [] {
      assert Text(blocks) + rest == rest;
    } else {
      var n := |blocks| - 1;
      var front, b := blocks[..n], blocks[n];
      assert BlockText(b) != [] by { SomeText(b); }
      FollowsMore(front, BlockText(b), rest);
      ReadBlocks(front, BlockText(b) + rest);
      assert Text(blocks) + rest == Text(front) + (BlockText(b) + rest);
      ReadBlock(Patches(front), b, rest);
    }
  }

  lemma SomeText(b: Block)
    ensures BlockText(b) != []
  {
    hide LinesText, HeaderText.Text, NameText.Text;
  }

  ghost predicate AllHunks(patches: seq<FilePatch>) {
    patches != [] && forall i :: 0 <= i < |patches| ==> patches[i].hunks != []
  }

  /** The text is written as these blocks, and every file in it has a hunk. */
  ghost predicate Writes(blocks: seq<Block>, text: Bytes) {
    WellFormed(blocks) && AllHunks(Patches(blocks)) && TextLines(text) == Text(blocks)
  }

  /** A written text is parsed to what its blocks mean. */
  lemma WrittenIsRead(blocks: seq<Block>, text: Bytes)
    requires Writes(blocks, text)
    ensures Parsed(text) == Ok(Patches(blocks))
  {
    hide Run, WellFormed, Text, TextLines, Patches;
    ReadBlocks(blocks, []);
    assert Text(blocks) + [] == Text(blocks);
    RunEnd(After(Patches(blocks)));
    ParsedLines(text);
  }

  // ----- every text that is read is written -----

  lemma Append(blocks: seq<Block>, b: Block)
    requires WellFormed(blocks) && Fits(Patches(blocks), b) && Follows(blocks, BlockText(b))
    ensures var more := blocks + [b];
        WellFormed(more) && Text(more) == Text(blocks) + BlockText(b) && Patches(more) == With(Patches(blocks), b)
  {
    hide Fits, Follows, With, BlockText;
    assert (blocks + [b])[..|blocks|] == blocks;
  }

  lemma LastLine(lines: seq<LineText>, l: LineText)
    ensures LinesText(lines + [l]) == LinesText(lines) + l.Text() && Meaning(lines + [l]) == Meaning(lines) + [l.Line()]
    decreases |lines|
  {
    hide LineText.Text, LineText.Line;
    if lines == [] {
      assert (lines + [l])[1..] == [];
      assert LinesText([l]) == l.Text() + LinesText([]);
    } else {
      assert (lines + [l])[1..] == lines[1..] + [l];
      LastLine(lines[1..], l);
    }
  }

  /** The open hunk after some of its lines. */
  ghost predicate Begun(patches: seq<FilePatch>, header: HeaderText, lines: seq<LineText>) {
    && patches != [] && header.Valid() && AllValid(lines)
    && |OldLines(Meaning(lines))| <= header.old_.Count() && |NewLines(Meaning(lines))| <= header.new_.Count()
  }

  function Middle(patches: seq<FilePatch>, header: HeaderText, lines: seq<LineText>): (s: State)
    requires Begun(patches, header, lines)
    ensures s.Valid() && s.open
  {
    Fed(After(patches).WithHunk(header.Opens()), Meaning(lines))
  }

  lemma MiddleIs(patches: seq<FilePatch>, header: HeaderText, lines: seq<LineText>)
    requires Begun(patches, header, lines)
    ensures var s := Middle(patches, header, lines);
        s.remainingOld == header.old_.Count() - |OldLines(Meaning(lines))|
        && s.remainingNew == header.new_.Count() - |NewLines(Meaning(lines))|
        && s.Current().lines == Meaning(lines)
  {
    hide OldLines, NewLines, Meaning, AllValid, RangeText.Valid, RangeText.Start, RangeText.Count;
    assert [] + Meaning(lines) == Meaning(lines);
  }

  lemma ReadMiddle(patches: seq<FilePatch>, header: HeaderText, lines: seq<LineText>, rest: seq<Bytes>)
    requires Begun(patches, header, lines)
    ensures Run(After(patches).WithHunk(header.Opens()), LinesText(lines) + rest)
      == Run(Middle(patches, header, lines), rest)
  {
    hide Run, Fed, OldLines, NewLines, Meaning, LinesText, AllValid, RangeText.Valid, RangeText.Start,
      RangeText.Count;
    ReadLines(After(patches).WithHunk(header.Opens()), lines, rest);
  }

  /** The hunk line that a content line of the text is. */
  function LineOf(line: Bytes): LineText
    requires line == [] || KindOf(line[0]).Some?
  {
    if line == [] then LineText(Context, [], true, []) else LineText(KindOf(line[0]).value, line[1..], false, [])
  }

  lemma LineOfText(line: Bytes)
    requires NEWLINE !in line && (line == [] || KindOf(line[0]).Some?)
    ensures LineOf(line).Valid() && LineOf(line).Text() == [line]
  {
    if line != [] {
      assert line == [line[0]] + line[1..];
    }
  }

  lemma ContentFits(s: State, line: Bytes)
    requires s.Valid() && s.open && NEWLINE !in line && ContentStep(s, line).Ok?
    ensures line == [] || KindOf(line[0]).Some?
    ensures var kind := LineOf(line).kind;
        (kind != Added ==> s.remainingOld > 0) && (kind != Removed ==> s.remainingNew > 0)
  {
    hide State.WithLines, State.Current;
  }

  lemma OneSided(line: HunkLine)
    ensures |OldLines([line])| == (if line.kind == Added then 0 else 1)
    ensures |NewLines([line])| == (if line.kind == Removed then 0 else 1)
  {
    assert [line][1..] == [];
  }

  /** One more line of a hunk that expects it. */
  lemma WriteContent(patches: seq<FilePatch>, header: HeaderText, lines: seq<LineText>, line: Bytes)
    requires Begun(patches, header, lines) && NEWLINE !in line
    requires ContentStep(Middle(patches, header, lines), line).Ok?
    ensures line == [] || KindOf(line[0]).Some?
    ensures Begun(patches, header, lines + [LineOf(line)])
    ensures LinesText(lines + [LineOf(line)]) == LinesText(lines) + [line]
  {
    hide Middle, Meaning, LinesText, HeaderText.Valid, RangeText.Count, ContentStep, KindOf, OldLines, NewLines, LineOf,
      State.Current, LineText.Valid, LineText.Text;
    MiddleIs(patches, header, lines);
    ContentFits(Middle(patches, header, lines), line);
    LineOfText(line);
    var l := LineOf(line);
    LastLine(lines, l);
    PatchSound.SidesConcat(Meaning(lines), [l.Line()]);
    OneSided(l.Line());
  }

  /** A marker behind a line of the open hunk. */
  lemma WriteMark(patches: seq<FilePatch>, header: HeaderText, lines: seq<LineText>, line: Bytes)
    returns (more: seq<LineText>)
    requires Begun(patches, header, lines) && IsMark(line) && lines != []
    ensures Begun(patches, header, more) && LinesText(more) == LinesText(lines) + [line]
  {
    hide HeaderText.Valid, RangeText.Count, OldLines, NewLines, LinesText, Meaning, IsMark;
    var n := |lines| - 1;
    var front, last := lines[..n], lines[n];
    assert lines == front + [last] && last.Valid();
    var marked := last.(marks := last.marks + [line]);
    more := front + [marked];
    LastLine(front, last);
    LastLine(front, marked);
    SameSides(last.Line(), marked.Line());
    PatchSound.SidesConcat(Meaning(front), [last.Line()]);
    PatchSound.SidesConcat(Meaning(front), [marked.Line()]);
    assert marked.Text() == last.Text() + [line];
  }

  predicate TakesFile(rest: seq<Bytes>) {
    |rest| > 1 && StartsWith(rest[0], OLD_HEADER) && StartsWith(rest[1], NEW_HEADER)
  }

  predicate TakesMark(patches: seq<FilePatch>, rest: seq<Bytes>) {
    rest != [] && HunkOpen(patches) && StartsWith(rest[0], [BACKSLASH])
  }

  lemma MarkOf(line: Bytes)
    requires StartsWith(line, [BACKSLASH])
    ensures IsMark(line)
  {
    assert line[..1][0] == line[0];
  }

  lemma WriteLate(patches: seq<FilePatch>, rest: seq<Bytes>)
    requires TakesMark(patches, rest) && Run(After(patches), rest).Ok?
    ensures Fits(patches, LateMark(rest[0])) && BlockText(LateMark(rest[0])) == rest[..1]
    ensures Follows([LateMark(rest[0])], rest[1..])
  {
    hide Run, TrimNewlines, State.WithLines;
    MarkOf(rest[0]);
    RunMarker(After(patches), rest);
  }

  lemma WriteFile(patches: seq<FilePatch>, rest: seq<Bytes>) returns (b: Block)
    requires TakesFile(rest) && !TakesMark(patches, rest) && Run(After(patches), rest).Ok?
    ensures |rest| >= 2 && Fits(patches, b) && BlockText(b) == rest[..2] && Follows([b], rest[2..])
  {
    hide Run, FileHeader, NameText.Text, NameText.Valid, Unsafe;
    RunHeader(After(patches), rest);
    var path := FileHeader(rest[0], rest[1]).value;
    FileNamesWritten(rest[0], rest[1]);
    Cut(rest[0], OLD_HEADER);
    Cut(rest[1], NEW_HEADER);
    var oldName := NameWritten(rest[0][4..], OLD_PREFIX);
    var newName := NameWritten(rest[1][4..], NEW_PREFIX);
    b := FileBlock(path, oldName, newName);
  }

  lemma FileNamesWritten(first: Bytes, second: Bytes)
    requires |first| >= 4 && |second| >= 4 && FileHeader(first, second).Ok?
    ensures var path := FileHeader(first, second).value;
        !Unsafe(path) && StripPrefix(first[4..], OLD_PREFIX) == path && StripPrefix(second[4..], NEW_PREFIX) == path
  {
    hide Unsafe, StripPrefix;
  }

  lemma WriteProse(patches: seq<FilePatch>, rest: seq<Bytes>)
    requires rest != [] && !TakesFile(rest) && !TakesMark(patches, rest) && Header(rest[0]).None?
    requires Run(After(patches), rest).Ok?
    ensures Fits(patches, Prose(rest[0])) && BlockText(Prose(rest[0])) == rest[..1]
    ensures Follows([Prose(rest[0])], rest[1..])
  {
    hide Run, Header, IsHeader;
    HeaderIff(rest[0]);
    RunHeader(After(patches), rest);
    NotBackslash(rest[0]);
  }

  lemma NotBackslash(line: Bytes)
    ensures line != [] && line[0] == BACKSLASH ==> StartsWith(line, [BACKSLASH])
  {
    if line != [] {
      assert line[..1] == [line[0]];
    }
  }

  lemma OpenHunk(patches: seq<FilePatch>, rest: seq<Bytes>) returns (header: HeaderText)
    requires rest != [] && !TakesFile(rest) && !TakesMark(patches, rest) && Header(rest[0]).Some?
    requires Run(After(patches), rest).Ok?
    ensures Begun(patches, header, []) && header.Text() == rest[0]
    ensures Run(After(patches), rest) == Run(Middle(patches, header, []), rest[1..])
  {
    hide Run, Header, HeaderText.Text, HeaderText.Valid, RangeText.Count, RangeText.Start, RangeText.Valid;
    header := HeaderWritten(rest[0]);
    HeaderLine(header);
    RunHeader(After(patches), rest);
    ReadMiddle(patches, header, [], rest[1..]);
    assert LinesText([]) + rest[1..] == rest[1..];
  }

  lemma Finished(patches: seq<FilePatch>)
    requires Run(After(patches), []).Ok?
    ensures AllHunks(patches) && Run(After(patches), []) == Ok(patches)
  {
    hide Run;
    RunEnd(After(patches));
  }

  lemma WholeHunk(patches: seq<FilePatch>, header: HeaderText, lines: seq<LineText>)
    requires Begun(patches, header, lines)
    requires |OldLines(Meaning(lines))| == header.old_.Count() && |NewLines(Meaning(lines))| == header.new_.Count()
    ensures Fits(patches, HunkBlock(header, lines))
    ensures Middle(patches, header, lines) == After(With(patches, HunkBlock(header, lines)))
  {
    hide Fed, OldLines, NewLines, Meaning, AllValid, HeaderText.Valid, RangeText.Start, RangeText.Count;
    GoodMeaning(header, lines);
    HunkFed(After(patches), HunkOf(header, lines));
    assert HunkOf(header, lines).(lines := []) == header.Opens();
  }

  lemma Unfinished(patches: seq<FilePatch>, header: HeaderText, lines: seq<LineText>, rest: seq<Bytes>)
    requires Begun(patches, header, lines) && Run(Middle(patches, header, lines), rest).Ok?
    requires |OldLines(Meaning(lines))| < header.old_.Count() || |NewLines(Meaning(lines))| < header.new_.Count()
    ensures rest != []
    ensures StartsWith(rest[0], [BACKSLASH]) ==> IsMark(rest[0]) && lines != []
    ensures !StartsWith(rest[0], [BACKSLASH]) ==> ContentStep(Middle(patches, header, lines), rest[0]).Ok?
  {
    hide Run, Middle, ContentStep, Begun, OldLines, NewLines, TrimNewlines, State.WithLines, RangeText.Count,
      StartsWith, State.Current, IsMark;
    var s := Middle(patches, header, lines);
    MiddleIs(patches, header, lines);
    if rest == [] {
      RunEnd(s);
    } else if StartsWith(rest[0], [BACKSLASH]) {
      MarkOf(rest[0]);
      RunMarker(s, rest);
    } else {
      RunContent(s, rest);
    }
  }

  /** The lines of the open hunk with one more line of the text. */
  lemma WriteLine(patches: seq<FilePatch>, header: HeaderText, lines: seq<LineText>, rest: seq<Bytes>)
    returns (more: seq<LineText>)
    requires Begun(patches, header, lines) && Free(rest) && Run(Middle(patches, header, lines), rest).Ok?
    requires |OldLines(Meaning(lines))| < header.old_.Count() || |NewLines(Meaning(lines))| < header.new_.Count()
    ensures rest != [] && Begun(patches, header, more) && LinesText(more) == LinesText(lines) + [rest[0]]
    ensures Run(Middle(patches, header, more), rest[1..]) == Run(Middle(patches, header, lines), rest)
  {
    hide *;
    Unfinished(patches, header, lines, rest);
    FreeTail(rest, 1);
    if StartsWith(rest[0], [BACKSLASH]) {
      more := WriteMark(patches, header, lines, rest[0]);
    } else {
      WriteContent(patches, header, lines, rest[0]);
      more := lines + [LineOf(rest[0])];
    }
    ReadMiddle(patches, header, lines, rest);
    ReadMiddle(patches, header, more, rest[1..]);
    OneFurther(LinesText(lines), rest);
  }

  lemma FreeTail(rest: seq<Bytes>, n: nat)
    requires Free(rest) && n <= |rest|
    ensures Free(rest[n..]) && (rest != [] ==> NEWLINE !in rest[0])
  {}

  lemma OneFurther(before: seq<Bytes>, rest: seq<Bytes>)
    requires rest != []
    ensures before + [rest[0]] + rest[1..] == before + rest
  {}

  lemma Further(before: seq<Bytes>, text: seq<Bytes>, rest: seq<Bytes>)
    ensures before + text + rest == before + (text + rest)
  {}

  lemma {:induction false} WriteHunk(blocks: seq<Block>, header: HeaderText, lines: seq<LineText>, rest: seq<Bytes>)
    returns (whole: seq<Block>)
    requires WellFormed(blocks) && Begun(Patches(blocks), header, lines) && Free(rest)
    requires Follows(blocks, [header.Text()]) && Run(Middle(Patches(blocks), header, lines), rest).Ok?
    ensures WellFormed(whole) && AllHunks(Patches(whole))
    ensures Text(whole) == Text(blocks) + ([header.Text()] + (LinesText(lines) + rest))
    ensures Run(Middle(Patches(blocks), header, lines), rest) == Ok(Patches(whole))
    decreases |rest|, 3
  {
    hide *;
    var patches := Patches(blocks);
    BegunCounts(patches, header, lines);
    if |OldLines(Meaning(lines))| == header.old_.Count() && |NewLines(Meaning(lines))| == header.new_.Count() {
      var b := HunkBlock(header, lines);
      WholeHunk(patches, header, lines);
      HunkText(blocks, header, lines, rest);
      Append(blocks, b);
      whole := WriteBlocks(blocks + [b], rest);
      Further(Text(blocks), BlockText(b), rest);
    } else {
      var more := WriteLine(patches, header, lines, rest);
      FreeTail(rest, 1);
      OneFurther(LinesText(lines), rest);
      whole := WriteHunk(blocks, header, more, rest[1..]);
    }
  }

  lemma BegunCounts(patches: seq<FilePatch>, header: HeaderText, lines: seq<LineText>)
    requires Begun(patches, header, lines)
    ensures header.Valid() && header.old_.Valid() && header.new_.Valid()
    ensures |OldLines(Meaning(lines))| <= header.old_.Count() && |NewLines(Meaning(lines))| <= header.new_.Count()
  {
    hide OldLines, NewLines, Meaning, AllValid, RangeText.Valid, RangeText.Count;
  }

  lemma HunkText(blocks: seq<Block>, header: HeaderText, lines: seq<LineText>, rest: seq<Bytes>)
    requires Follows(blocks, [header.Text()])
    ensures var b := HunkBlock(header, lines);
        BlockText(b) + rest == [header.Text()] + (LinesText(lines) + rest)
        && Follows(blocks, BlockText(b)) && Follows(blocks + [b], rest)
  {
    hide HeaderText.Text, LinesText, StartsWith;
  }

  lemma HeaderFirst(header: HeaderText, rest: seq<Bytes>)
    requires rest != [] && header.Text() == rest[0]
    ensures [header.Text()] + (LinesText([]) + rest[1..]) == rest
  {
    assert LinesText([]) + rest[1..] == rest[1..];
  }

  /** One more block, and the blocks of what is left. */
  lemma {:induction false} WriteMore(blocks: seq<Block>, b: Block, rest: seq<Bytes>, n: nat) returns (whole: seq<Block>)
    requires WellFormed(blocks) && Fits(Patches(blocks), b) && 0 < n <= |rest| && BlockText(b) == rest[..n]
    requires Follows(blocks, rest[..n]) && Follows([b], rest[n..]) && Free(rest)
    requires Run(After(Patches(blocks)), rest).Ok?
    ensures WellFormed(whole) && AllHunks(Patches(whole)) && Text(whole) == Text(blocks) + rest
    ensures Run(After(Patches(blocks)), rest) == Ok(Patches(whole))
    decreases |rest|, 1
  {
    hide *;
    FreeTail(rest, n);
    LastFollows(blocks, b, rest[n..]);
    Further(Text(blocks), rest[..n], rest[n..]);
    assert rest[..n] + rest[n..] == rest;
    ReadBlock(Patches(blocks), b, rest[n..]);
    Append(blocks, b);
    whole := WriteBlocks(blocks + [b], rest[n..]);
  }

  lemma LastFollows(blocks: seq<Block>, b: Block, rest: seq<Bytes>)
    requires Follows([b], rest)
    ensures Follows(blocks + [b], rest)
  {}

  lemma FirstFollows(blocks: seq<Block>, rest: seq<Bytes>, n: nat)
    requires Follows(blocks, rest) && 0 < n <= |rest|
    ensures Follows(blocks, rest[..n]) && Follows(blocks, [rest[0]])
  {}

  /** Every accepted rest of the text is written as blocks. */
  lemma {:induction false} WriteBlocks(blocks: seq<Block>, rest: seq<Bytes>) returns (whole: seq<Block>)
    requires WellFormed(blocks) && Follows(blocks, rest) && Free(rest) && Run(After(Patches(blocks)), rest).Ok?
    ensures WellFormed(whole) && AllHunks(Patches(whole)) && Text(whole) == Text(blocks) + rest
    ensures Run(After(Patches(blocks)), rest) == Ok(Patches(whole))
    decreases |rest|, 2
  {
    hide *;
    var patches := Patches(blocks);
    if rest == [] {
      whole := blocks;
      assert Text(blocks) + [] == Text(blocks);
      Finished(patches);
      return;
    }
    FirstFollows(blocks, rest, 1);
    FreeTail(rest, 1);
    if TakesMark(patches, rest) {
      WriteLate(patches, rest);
      whole := WriteMore(blocks, LateMark(rest[0]), rest, 1);
    } else if TakesFile(rest) {
      var b := WriteFile(patches, rest);
      FirstFollows(blocks, rest, 2);
      whole := WriteMore(blocks, b, rest, 2);
    } else if Header(rest[0]).Some? {
      var header := OpenHunk(patches, rest);
      whole := WriteHunk(blocks, header, [], rest[1..]);
      HeaderFirst(header, rest);
    } else {
      WriteProse(patches, rest);
      whole := WriteMore(blocks, Prose(rest[0]), rest, 1);
    }
  }

  lemma ReadIsWritten(text: Bytes) returns (blocks: seq<Block>)
    requires Parsed(text).Ok?
    ensures Writes(blocks, text) && Parsed(text) == Ok(Patches(blocks))
  {
    hide Run, After, TextLines, AllHunks;
    PatchSound.TextFree(text);
    ParsedLines(text);
    Nothing();
    blocks := WriteBlocks([], TextLines(text));
    assert [] + TextLines(text) == TextLines(text);
  }

  lemma Nothing()
    ensures WellFormed([]) && Patches([]) == [] && Text([]) == [] && After([]) == State([], false, 0, 0)
  {}

  lemma {:induction false} SplitOpen(lines: seq<Bytes>, last: Bytes)
    requires Free(lines) && NEWLINE !in last
    ensures Split(Join(Terminated(lines)) + last, NEWLINE) == lines + [last]
  {
    hide Split;
    var all := Terminated(lines);
    if lines == [] {
      assert Join([]) + last == last;
      SplitNone(last, NEWLINE);
    } else {
      FreeTail(lines, 1);
      SplitOpen(lines[1..], last);
      assert all[1..] == Terminated(lines[1..]) && all[0] == lines[0] + [NEWLINE];
      var rest := Join(all[1..]) + last;
      assert Join(all) + last == lines[0] + [NEWLINE] + rest;
      SplitPiece(lines[0], rest);
      assert [lines[0]] + (lines[1..] + [last]) == lines + [last];
    }
  }

  /** The final newline of a text may be missing. */
  lemma TextOfLines(front: seq<Bytes>, last: Bytes)
    requires Free(front) && NEWLINE !in last
    ensures TextLines(Join(Terminated(front + [last]))) == front + [last]
    ensures last != [] ==> TextLines(Join(Terminated(front)) + last) == front + [last]
  {
    hide Split, Join, Terminated;
    SplitTerminated(front + [last]);
    SplitOpen(front, last);
  }

  /** A text is parsed to a list of patches exactly when it is written as blocks that mean the list. */
  lemma ParsedIffWritten(text: Bytes, patches: seq<FilePatch>)
    ensures Parsed(text) == Ok(patches) <==> exists blocks :: Writes(blocks, text) && Patches(blocks) == patches
  {
    hide *;
    if Parsed(text) == Ok(patches) {
      var blocks := ReadIsWritten(text);
    }
    if blocks :| Writes(blocks, text) && Patches(blocks) == patches {
      WrittenIsRead(blocks, text);
    }
  }
}
