/** The strict unified-diff applier of scripts/build_sep_wheel.py: exact context, no fuzz, no offsets. */
module PatchApply {
  import opened Wrappers
  import opened ByteLines

  datatype Kind = Context | Removed | Added

  datatype HunkLine = HunkLine(kind: Kind, content: Bytes)

  datatype Hunk = Hunk(oldStart: nat, oldCount: nat, newStart: nat, newCount: nat, lines: seq<HunkLine>)

  datatype FilePatch = FilePatch(path: Bytes, hunks: seq<Hunk>)

  /** Why the numbered hunk does not apply. */
  datatype ApplyError =
    | WrongCounts(number: nat) | Overlaps(number: nat) | PastEnd(number: nat)
    | AlreadyApplied(number: nat) | Mismatch(number: nat)

  function OldLines(lines: seq<HunkLine>): seq<Bytes> {
    if lines == [] then [] else (if lines[0].kind != Added then [lines[0].content] else []) + OldLines(lines[1..])
  }

  function NewLines(lines: seq<HunkLine>): seq<Bytes> {
    if lines == [] then [] else (if lines[0].kind != Removed then [lines[0].content] else []) + NewLines(lines[1..])
  }

  /** Where the hunk's old lines start; line numbers count from one, but name the line before an empty range. */
  function Start(h: Hunk): int {
    if h.oldCount != 0 then h.oldStart - 1 else h.oldStart
  }

  /** The n lines from start on, as far as there are any. */
  function Slice(lines: seq<Bytes>, start: nat, n: nat): seq<Bytes>
    requires start <= |lines|
  {
    lines[start..if start + n <= |lines| then start + n else |lines|]
  }

  /** The first objection to a hunk. */
  function Refusal(lines: seq<Bytes>, cursor: nat, h: Hunk, number: nat): Option<ApplyError> {
    var old_, new_, start := OldLines(h.lines), NewLines(h.lines), Start(h);
    if |old_| != h.oldCount || |new_| != h.newCount then Some(WrongCounts(number))
    else if start < cursor then Some(Overlaps(number))
    else if start + |old_| > |lines| then Some(PastEnd(number))
    else if Slice(lines, start, |old_|) == old_ then None
    else if Slice(lines, start, |new_|) == new_ then Some(AlreadyApplied(number))
    else Some(Mismatch(number))
  }

  /** The lines from the cursor on with the hunks applied. */
  function ApplyFrom(lines: seq<Bytes>, cursor: nat, hunks: seq<Hunk>, number: nat): (r: Result<seq<Bytes>, ApplyError>)
    requires cursor <= |lines|
    decreases |hunks|
  {
    if hunks == [] then Ok(lines[cursor..]) else
    var h := hunks[0];
    match Refusal(lines, cursor, h, number)
    case Some(error) => Err(error)
    case None =>
      var start: nat := Start(h);
      match ApplyFrom(lines, start + |OldLines(h.lines)|, hunks[1..], number + 1)
      case Err(error) => Err(error)
      case Ok(rest) => Ok(lines[cursor..start] + NewLines(h.lines) + rest)
  }

  /** The lines of the patched file. */
  function PatchedLines(original: Bytes, patch: FilePatch): Result<seq<Bytes>, ApplyError> {
    ApplyFrom(SplitLines(original), 0, patch.hunks, 1)
  }

  function Patched(original: Bytes, patch: FilePatch): Result<Bytes, ApplyError> {
    match PatchedLines(original, patch)
    case Ok(lines) => Ok(Join(lines))
    case Err(error) => Err(error)
  }

  // ----- the loop -----

  function Then(done: seq<Bytes>, rest: Result<seq<Bytes>, ApplyError>): Result<seq<Bytes>, ApplyError> {
    match rest case Ok(lines) => Ok(done + lines) case Err(error) => Err(error)
  }

  lemma ApplyStep(lines: seq<Bytes>, cursor: nat, hunks: seq<Hunk>, number: nat, done: seq<Bytes>)
    requires cursor <= |lines| && hunks != []
    ensures var h := hunks[0];
        match Refusal(lines, cursor, h, number)
        case Some(error) => ApplyFrom(lines, cursor, hunks, number) == Err(error)
        case None =>
          0 <= Start(h) && cursor <= Start(h) && Start(h) + |OldLines(h.lines)| <= |lines|
          && Then(done, ApplyFrom(lines, cursor, hunks, number))
             == Then(done + lines[cursor..Start(h)] + NewLines(h.lines),
                 ApplyFrom(lines, Start(h) + |OldLines(h.lines)|, hunks[1..], number + 1))
  {
    var h := hunks[0];
    if Refusal(lines, cursor, h, number) == None {
      var start: nat := Start(h);
      var rest := ApplyFrom(lines, start + |OldLines(h.lines)|, hunks[1..], number + 1);
      if rest.Ok? {
        assert done + (lines[cursor..start] + NewLines(h.lines) + rest.value)
          == done + lines[cursor..start] + NewLines(h.lines) + rest.value;
      }
    }
  }

  /** apply_file_patch. */
  method ApplyFilePatch(original: Bytes, patch: FilePatch) returns (r: Result<Bytes, ApplyError>)
    ensures r == Patched(original, patch)
  {
    hide ApplyFrom, SplitLines, Refusal;
    var lines := SplitLines(original);
    var result: seq<Bytes> := [];
    var cursor: nat := 0;
    assert patch.hunks[0..] == patch.hunks;
    assert Then([], ApplyFrom(lines, 0, patch.hunks, 1)) == ApplyFrom(lines, 0, patch.hunks, 1) by {
      EmptyFront(ApplyFrom(lines, 0, patch.hunks, 1));
    }
    for i := 0 to |patch.hunks|
      invariant cursor <= |lines|
      invariant Then(result, ApplyFrom(lines, cursor, patch.hunks[i..], i + 1)) == ApplyFrom(lines, 0, patch.hunks, 1)
    {
      var h := patch.hunks[i];
      var rest := patch.hunks[i..];
      assert rest[0] == h && rest[1..] == patch.hunks[i + 1..];
      ApplyStep(lines, cursor, rest, i + 1, result);
      var refusal := Refusal(lines, cursor, h, i + 1);
      if refusal.Some? {
        return Err(refusal.value);
      }
      var start := Start(h);
      result := result + lines[cursor..start];
      result := result + NewLines(h.lines);
      cursor := start + |OldLines(h.lines)|;
    }
    result := result + lines[cursor..];
    assert patch.hunks[|patch.hunks|..] == [];
    ApplyNone(lines, cursor, |patch.hunks| + 1);
    return Ok(Join(result));
  }

  lemma EmptyFront(r: Result<seq<Bytes>, ApplyError>)
    ensures Then([], r) == r
  {
    if r.Ok? {
      assert [] + r.value == r.value;
    }
  }

  lemma ApplyNone(lines: seq<Bytes>, cursor: nat, number: nat)
    requires cursor <= |lines|
    ensures ApplyFrom(lines, cursor, [], number) == Ok(lines[cursor..])
  {}

  // ----- what an application changes -----

  function Delta(hunks: seq<Hunk>): int {
    if hunks == [] then 0 else hunks[0].newCount - hunks[0].oldCount + Delta(hunks[1..])
  }

  /** The line count changes by the sum of the hunks' differences. */
  lemma {:induction false} LineCount(lines: seq<Bytes>, cursor: nat, hunks: seq<Hunk>, number: nat)
    requires cursor <= |lines| && ApplyFrom(lines, cursor, hunks, number).Ok?
    ensures |ApplyFrom(lines, cursor, hunks, number).value| == |lines| - cursor + Delta(hunks)
    decreases |hunks|
  {
    hide OldLines, NewLines;
    if hunks != [] {
      LineCount(lines, Start(hunks[0]) + |OldLines(hunks[0].lines)|, hunks[1..], number + 1);
    }
  }

  /** Line i lies in the old range of some hunk. */
  predicate Inside(hunks: seq<Hunk>, i: nat) {
    hunks != [] && (Start(hunks[0]) <= i < Start(hunks[0]) + hunks[0].oldCount || Inside(hunks[1..], i))
  }

  /** How far line i moves: the differences of the hunks before it. */
  function Shift(hunks: seq<Hunk>, i: nat): int {
    if hunks == [] then 0
    else
      var h := hunks[0];
      (if Start(h) + h.oldCount <= i then h.newCount - h.oldCount else 0) + Shift(hunks[1..], i)
  }

  /** Hunks that apply from line e on do not move earlier lines. */
  lemma {:induction false} LaterHunks(lines: seq<Bytes>, cursor: nat, hunks: seq<Hunk>, number: nat, i: nat)
    requires cursor <= |lines| && ApplyFrom(lines, cursor, hunks, number).Ok? && i < cursor
    ensures !Inside(hunks, i) && Shift(hunks, i) == 0
    decreases |hunks|
  {
    hide OldLines, NewLines;
    if hunks != [] {
      LaterHunks(lines, Start(hunks[0]) + |OldLines(hunks[0].lines)|, hunks[1..], number + 1, i);
    }
  }

  /** A line before the next hunk is not moved by the hunks still to come. */
  lemma {:induction false} BeforeNext(lines: seq<Bytes>, cursor: nat, hunks: seq<Hunk>, number: nat, i: nat)
    requires cursor <= |lines| && ApplyFrom(lines, cursor, hunks, number).Ok? && hunks != []
      && cursor <= i < Start(hunks[0])
    ensures Shift(hunks, i) == 0
  {
    hide OldLines, NewLines;
    LaterHunks(lines, Start(hunks[0]) + |OldLines(hunks[0].lines)|, hunks[1..], number + 1, i);
  }

  /** Lines outside all hunks survive, in order, at their shifted positions. */
  lemma {:induction false} OutsideSurvives(lines: seq<Bytes>, cursor: nat, hunks: seq<Hunk>, number: nat, i: nat)
    requires cursor <= i < |lines| && ApplyFrom(lines, cursor, hunks, number).Ok? && !Inside(hunks, i)
    ensures var out := ApplyFrom(lines, cursor, hunks, number).value;
        0 <= i - cursor + Shift(hunks, i) < |out| && out[i - cursor + Shift(hunks, i)] == lines[i]
    decreases |hunks|
  {
    hide OldLines, NewLines;
    if hunks != [] {
      var h := hunks[0];
      if i < Start(h) {
        BeforeNext(lines, cursor, hunks, number, i);
      } else {
        OutsideSurvives(lines, Start(h) + |OldLines(h.lines)|, hunks[1..], number + 1, i);
      }
    }
  }

  /** Lines outside the hunks keep their order. */
  lemma {:induction false} OutsideKeepsOrder(
      lines: seq<Bytes>, cursor: nat, hunks: seq<Hunk>, number: nat, i: nat, j: nat)
    requires cursor <= i < j < |lines| && ApplyFrom(lines, cursor, hunks, number).Ok?
    requires !Inside(hunks, i) && !Inside(hunks, j)
    ensures i + Shift(hunks, i) < j + Shift(hunks, j)
    decreases |hunks|
  {
    hide OldLines, NewLines;
    if hunks != [] {
      var h := hunks[0];
      var end := Start(h) + |OldLines(h.lines)|;
      if end <= i {
        OutsideKeepsOrder(lines, end, hunks[1..], number + 1, i, j);
      } else {
        BeforeNext(lines, cursor, hunks, number, i);
        if j < Start(h) {
          BeforeNext(lines, cursor, hunks, number, j);
        } else {
          OutsideSurvives(lines, end, hunks[1..], number + 1, j);
        }
      }
    }
  }

  // ----- the inverse patch -----

  function Flip(line: HunkLine): HunkLine {
    match line.kind
    case Context => line
    case Removed => HunkLine(Added, line.content)
    case Added => HunkLine(Removed, line.content)
  }

  function FlipAll(lines: seq<HunkLine>): (flipped: seq<HunkLine>)
    ensures OldLines(flipped) == NewLines(lines) && NewLines(flipped) == OldLines(lines)
  {
    if lines == [] then [] else
    var rest := FlipAll(lines[1..]);
    assert ([Flip(lines[0])] + rest)[1..] == rest;
    [Flip(lines[0])] + rest
  }

  /** The hunks with their sides swapped; `delta` is the running difference of the hunks before. */
  function InverseHunks(hunks: seq<Hunk>, delta: int): seq<Hunk> {
    if hunks == [] then [] else
    var h := hunks[0];
    var start := Start(h) + delta + if h.newCount != 0 then 1 else 0;
    [Hunk(if start < 0 then 0 else start, h.newCount, h.oldStart, h.oldCount, FlipAll(h.lines))]
      + InverseHunks(hunks[1..], delta + h.newCount - h.oldCount)
  }

  function Inverse(patch: FilePatch): FilePatch {
    FilePatch(patch.path, InverseHunks(patch.hunks, 0))
  }

  /** When the headers' new starts agree with the running difference, the inverse is the plain swap of the sides. */
  ghost predicate Consistent(hunks: seq<Hunk>, delta: int) {
    hunks != [] ==>
      && hunks[0].newStart == Start(hunks[0]) + delta + (if hunks[0].newCount != 0 then 1 else 0)
      && Consistent(hunks[1..], delta + hunks[0].newCount - hunks[0].oldCount)
  }

  lemma {:induction false} InverseIsSwap(hunks: seq<Hunk>, delta: int, k: nat)
    requires Consistent(hunks, delta) && k < |hunks|
    ensures |InverseHunks(hunks, delta)| == |hunks|
    ensures var h := hunks[k];
        InverseHunks(hunks, delta)[k] == Hunk(h.newStart, h.newCount, h.oldStart, h.oldCount, FlipAll(h.lines))
  {
    if k > 0 {
      InverseIsSwap(hunks[1..], delta + hunks[0].newCount - hunks[0].oldCount, k - 1);
    } else if |hunks| > 1 {
      InverseIsSwap(hunks[1..], delta + hunks[0].newCount - hunks[0].oldCount, 0);
    }
  }

  /** One hunk is undone where it left its lines. */
  lemma UndoHunk(lines: seq<Bytes>, cursor: nat, h: Hunk, number: nat, delta: int, done: seq<Bytes>, rest: seq<Bytes>,
                 inverse: Hunk)
    requires cursor <= |lines| && Refusal(lines, cursor, h, number) == None && |done| == cursor + delta
    requires inverse ==
      Hunk(Start(h) + delta + (if h.newCount != 0 then 1 else 0), h.newCount, h.oldStart, h.oldCount, FlipAll(h.lines))
    ensures var full := done + (lines[cursor..Start(h)] + NewLines(h.lines) + rest);
        Start(inverse) == Start(h) + delta && Refusal(full, cursor + delta, inverse, number) == None
        && full[cursor + delta..Start(inverse)] == lines[cursor..Start(h)]
  {
    hide OldLines, NewLines;
    var start: nat := Start(h);
    var full := done + (lines[cursor..start] + NewLines(h.lines) + rest);
    assert full == done + lines[cursor..start] + NewLines(h.lines) + rest;
    var at := |done| + (start - cursor);
    assert full[at..at + |NewLines(h.lines)|] == NewLines(h.lines);
  }

  lemma ApplyParts(lines: seq<Bytes>, cursor: nat, hunks: seq<Hunk>, number: nat)
    requires cursor <= |lines| && hunks != []
    ensures var h := hunks[0];
        ApplyFrom(lines, cursor, hunks, number).Ok? <==>
          Refusal(lines, cursor, h, number) == None
              && ApplyFrom(lines, Start(h) + |OldLines(h.lines)|, hunks[1..], number + 1).Ok?
    ensures var h := hunks[0];
        ApplyFrom(lines, cursor, hunks, number).Ok? ==>
          cursor <= Start(h) && ApplyFrom(lines, cursor, hunks, number).value
            == lines[cursor..Start(h)] + NewLines(h.lines)
                + ApplyFrom(lines, Start(h) + |OldLines(h.lines)|, hunks[1..], number + 1).value
  {}

  lemma OldPart(lines: seq<Bytes>, cursor: nat, h: Hunk, number: nat)
    requires cursor <= |lines| && Refusal(lines, cursor, h, number) == None
    ensures cursor <= Start(h) && Start(h) + h.oldCount <= |lines| && |OldLines(h.lines)| == h.oldCount
      && |NewLines(h.lines)| == h.newCount
    ensures lines[cursor..] == lines[cursor..Start(h)] + OldLines(h.lines) + lines[Start(h) + h.oldCount..]
  {
    hide OldLines, NewLines;
    var start: nat := Start(h);
    assert lines[start..start + h.oldCount] == OldLines(h.lines);
    assert lines[cursor..start] + lines[start..start + h.oldCount] + lines[start + h.oldCount..] == lines[cursor..];
  }

  lemma InverseHead(hunks: seq<Hunk>, delta: int)
    requires hunks != []
    ensures var h := hunks[0]; var inverse := InverseHunks(hunks, delta);
        && inverse != [] && inverse[1..] == InverseHunks(hunks[1..], delta + h.newCount - h.oldCount)
        && (Start(h) + delta >= 0 ==>
          var start := Start(h) + delta + if h.newCount != 0 then 1 else 0;
          inverse[0] == Hunk(start, h.newCount, h.oldStart, h.oldCount, FlipAll(h.lines)))
  {}

  /** Undoing all hunks on the patched lines gives the original lines back. */
  lemma {:induction false} Undo(lines: seq<Bytes>, cursor: nat, hunks: seq<Hunk>, number: nat, delta: int,
                                done: seq<Bytes>)
    requires cursor <= |lines| && ApplyFrom(lines, cursor, hunks, number).Ok? && |done| == cursor + delta
    ensures ApplyFrom(done + ApplyFrom(lines, cursor, hunks, number).value, cursor + delta, InverseHunks(hunks, delta),
      number) == Ok(lines[cursor..])
    decreases |hunks|
  {
    hide *;
    var tail := ApplyFrom(lines, cursor, hunks, number).value;
    var inverse := InverseHunks(hunks, delta);
    if hunks == [] {
      UndoNothing(lines, cursor, hunks, number, delta, done);
    } else {
      var h := hunks[0];
      ApplyParts(lines, cursor, hunks, number);
      OldPart(lines, cursor, h, number);
      var past := Start(h) + |OldLines(h.lines)|;
      var rest := ApplyFrom(lines, past, hunks[1..], number + 1).value;
      var done' := done + lines[cursor..Start(h)] + NewLines(h.lines);
      var full := done + (lines[cursor..Start(h)] + NewLines(h.lines) + rest);
      assert done' + rest == full;
      InverseHead(hunks, delta);
      UndoHunk(lines, cursor, h, number, delta, done, rest, inverse[0]);
      OldPart(full, cursor + delta, inverse[0], number);
      Undo(lines, past, hunks[1..], number + 1, delta + h.newCount - h.oldCount, done');
      ApplyParts(full, cursor + delta, inverse, number);
    }
  }

  lemma UndoNothing(lines: seq<Bytes>, cursor: nat, hunks: seq<Hunk>, number: nat, delta: int, done: seq<Bytes>)
    requires cursor <= |lines| && |done| == cursor + delta && hunks == []
    ensures ApplyFrom(done + ApplyFrom(lines, cursor, hunks, number).value, cursor + delta, InverseHunks(hunks, delta),
      number) == Ok(lines[cursor..])
  {
    assert (done + lines[cursor..])[cursor + delta..] == lines[cursor..];
  }

  // ----- bytes -----

  lemma {:induction false} SplitOpenLine(line: Bytes, rest: Bytes)
    requires NEWLINE !in line && rest != []
    ensures |SplitLines(line + rest)| == |SplitLines(rest)|
  {
    hide SplitLines;
    if line == [] {
      assert line + rest == rest;
    } else {
      SplitOpenLine(line[1..], rest);
      SplitByte(line[0], line[1..] + rest);
      assert line + rest == [line[0]] + (line[1..] + rest);
    }
  }

  /** A newline at most at the end. */
  predicate OneLine(line: Bytes) {
    line == [] || IsLine(line)
  }

  ghost predicate AllLines(lines: seq<Bytes>) {
    forall i :: 0 <= i < |lines| ==> OneLine(lines[i])
  }

  /** Joining single lines loses a cut wherever a line is empty, or one before the last lacks its newline. */
  lemma {:induction false} Cuts(lines: seq<Bytes>)
    requires AllLines(lines)
    ensures |SplitLines(Join(lines))| <= |lines|
    ensures |SplitLines(Join(lines))| == |lines| <==> FileLines(lines)
  {
    hide SplitLines, IsLine;
    if lines == [] {
      SplitJoin(lines);
    } else {
      var line, rest := lines[0], lines[1..];
      Cuts(rest);
      assert lines == [line] + rest;
      if line == [] {
        assert Join(lines) == line + Join(rest) == Join(rest);
        EmptyIsNoLine(lines);
      } else if EndsLine(line) {
        SplitOneLine(line, Join(rest));
        MoreLines(line, rest);
      } else {
        OpenLine(line);
        OpenFirst(line, rest);
        if Join(rest) == [] {
          SplitLastLine(line);
          assert Join(lines) == line;
        } else {
          SplitOpenLine(line, Join(rest));
          assert Join(lines) == line + Join(rest);
        }
      }
    }
  }

  lemma OpenFirst(line: Bytes, rest: seq<Bytes>)
    requires IsLine(line) && !EndsLine(line)
    ensures FileLines([line] + rest) <==> rest == []
  {
    assert ([line] + rest)[0] == line;
  }

  lemma EmptyIsNoLine(lines: seq<Bytes>)
    requires lines != [] && lines[0] == []
    ensures !FileLines(lines)
  {
    assert !IsLine(lines[0]);
  }

  lemma OpenLine(line: Bytes)
    requires IsLine(line) && !EndsLine(line)
    ensures NEWLINE !in line
  {
    assert line == line[..|line| - 1] + [line[|line| - 1]];
  }

  lemma MoreLines(line: Bytes, rest: seq<Bytes>)
    requires IsLine(line) && EndsLine(line)
    ensures FileLines([line] + rest) <==> FileLines(rest)
  {
    hide IsLine, EndsLine;
    var all := [line] + rest;
    assert forall i :: 0 <= i < |rest| ==> all[i + 1] == rest[i];
    if FileLines(rest) {
      assert forall i :: 0 < i < |all| ==> all[i] == rest[i - 1];
    }
  }

  /** Every line of every hunk is one line, or nothing. */
  ghost predicate SingleLines(hunks: seq<Hunk>) {
    forall k :: 0 <= k < |hunks| ==> AllLines(OldLines(hunks[k].lines)) && AllLines(NewLines(hunks[k].lines))
  }

  lemma {:induction false} AppliedLines(lines: seq<Bytes>, cursor: nat, hunks: seq<Hunk>, number: nat)
    requires cursor <= |lines| && AllLines(lines) && SingleLines(hunks) && ApplyFrom(lines, cursor, hunks, number).Ok?
    ensures AllLines(ApplyFrom(lines, cursor, hunks, number).value)
    decreases |hunks|
  {
    hide OldLines, NewLines, IsLine;
    if hunks != [] {
      var h := hunks[0];
      assert AllLines(NewLines(h.lines));
      assert SingleLines(hunks[1..]);
      AppliedLines(lines, Start(h) + |OldLines(h.lines)|, hunks[1..], number + 1);
    }
  }

  lemma {:induction false} InverseSingleLines(hunks: seq<Hunk>, delta: int)
    requires SingleLines(hunks)
    ensures SingleLines(InverseHunks(hunks, delta))
  {
    hide OldLines, NewLines, IsLine, AllLines;
    if hunks != [] {
      assert SingleLines(hunks[1..]);
      InverseSingleLines(hunks[1..], delta + hunks[0].newCount - hunks[0].oldCount);
      var inverse := InverseHunks(hunks, delta);
      assert forall k :: 0 < k < |inverse| ==>
        inverse[k] == InverseHunks(hunks[1..], delta + hunks[0].newCount - hunks[0].oldCount)[k - 1];
    }
  }

  lemma {:induction false} InverseDelta(hunks: seq<Hunk>, delta: int)
    ensures Delta(InverseHunks(hunks, delta)) == -Delta(hunks)
  {
    if hunks != [] {
      InverseDelta(hunks[1..], delta + hunks[0].newCount - hunks[0].oldCount);
      var inverse := InverseHunks(hunks, delta);
      assert inverse[1..] == InverseHunks(hunks[1..], delta + hunks[0].newCount - hunks[0].oldCount);
    }
  }

  /** If only the last line of the patched file lacks a newline, if any, the inverse patch restores the bytes. */
  lemma InverseRestores(original: Bytes, patch: FilePatch)
    requires PatchedLines(original, patch).Ok? && FileLines(PatchedLines(original, patch).value)
    ensures Patched(Patched(original, patch).value, Inverse(patch)) == Ok(original)
  {
    hide ApplyFrom, SplitLines, FileLines;
    var lines := SplitLines(original);
    var result := PatchedLines(original, patch).value;
    SplitJoin(result);
    JoinSplit(original);
    Undo(lines, 0, patch.hunks, 1, 0, []);
    assert [] + result == result && lines[0..] == lines;
  }

  /** And only then: an inverse application that restores the bytes needs every earlier line's newline. */
  lemma InverseRestoresOnlyIf(original: Bytes, patch: FilePatch)
    requires SingleLines(patch.hunks) && PatchedLines(original, patch).Ok?
    requires Patched(Patched(original, patch).value, Inverse(patch)) == Ok(original)
    ensures FileLines(PatchedLines(original, patch).value)
  {
    hide ApplyFrom, SplitLines, FileLines, OldLines, NewLines;
    var lines, result := SplitLines(original), PatchedLines(original, patch).value;
    var again := SplitLines(Join(result));
    var inverse := InverseHunks(patch.hunks, 0);
    var back := ApplyFrom(again, 0, inverse, 1).value;
    JoinSplit(original);
    JoinSplit(Join(result));
    FileLinesAreLines(lines);
    FileLinesAreLines(again);
    InverseSingleLines(patch.hunks, 0);
    AppliedLines(lines, 0, patch.hunks, 1);
    AppliedLines(again, 0, inverse, 1);
    LineCount(lines, 0, patch.hunks, 1);
    LineCount(again, 0, inverse, 1);
    InverseDelta(patch.hunks, 0);
    Cuts(back);
    Cuts(result);
  }

  lemma FileLinesAreLines(lines: seq<Bytes>)
    requires FileLines(lines)
    ensures AllLines(lines)
  {}

  /** The inverse patch restores the original bytes exactly when no line before the last lacks its newline. */
  lemma InverseRestoresIff(original: Bytes, patch: FilePatch)
    requires SingleLines(patch.hunks) && PatchedLines(original, patch).Ok?
    ensures Patched(Patched(original, patch).value, Inverse(patch)) == Ok(original)
      <==> FileLines(PatchedLines(original, patch).value)
  {
    hide *;
    if FileLines(PatchedLines(original, patch).value) {
      InverseRestores(original, patch);
    } else if Patched(PatchedBytes(original, patch), Inverse(patch)) == Ok(original) {
      PatchedIsJoined(original, patch);
      InverseRestoresOnlyIf(original, patch);
    }
    PatchedIsJoined(original, patch);
  }

  function PatchedBytes(original: Bytes, patch: FilePatch): Bytes
    requires PatchedLines(original, patch).Ok?
  {
    Join(PatchedLines(original, patch).value)
  }

  lemma PatchedIsJoined(original: Bytes, patch: FilePatch)
    requires PatchedLines(original, patch).Ok?
    ensures Patched(original, patch) == Ok(PatchedBytes(original, patch))
  {}
}
