/**
 Where the hunks of a patch stand (scripts/build_sep_wheel.py): exactly which hunks apply to a file, in the line numbers
 of the file itself, where their new lines are in the result, and what a second application is refused for.
 */
module PatchPlaces {
  import opened Wrappers
  import opened ByteLines
  import opened PatchApply

  // ----- which hunks apply -----

  /** The header's counts are those of the lines. */
  predicate Counted(h: Hunk) {
    |OldLines(h.lines)| == h.oldCount && |NewLines(h.lines)| == h.newCount
  }

  /** The old lines are the file's lines from number oldStart on; an empty range stands behind line oldStart. */
  predicate Stands(lines: seq<Bytes>, h: Hunk)
    requires Counted(h)
  {
    if h.oldCount == 0 then h.oldStart <= |lines|
    else
      1 <= h.oldStart && h.oldStart + h.oldCount <= |lines| + 1
      && forall m :: 0 <= m < h.oldCount ==> lines[h.oldStart + m - 1] == OldLines(h.lines)[m]
  }

  /** How many lines of the file lie before the hunk, and up to its end. */
  function LinesBefore(h: Hunk): int {
    if h.oldCount == 0 then h.oldStart else h.oldStart - 1
  }

  function LinesUpTo(h: Hunk): int {
    if h.oldCount == 0 then h.oldStart else h.oldStart + h.oldCount - 1
  }

  /** All hunks stand in the file, each behind the one before it. */
  ghost predicate Placed(lines: seq<Bytes>, cursor: nat, hunks: seq<Hunk>) {
    && (forall k :: 0 <= k < |hunks| ==> Counted(hunks[k]) && Stands(lines, hunks[k]))
    && (forall k :: 0 < k < |hunks| ==> LinesUpTo(hunks[k - 1]) <= LinesBefore(hunks[k]))
    && (hunks != [] ==> cursor <= LinesBefore(hunks[0]))
  }

  lemma AcceptedIff(lines: seq<Bytes>, cursor: nat, h: Hunk, number: nat)
    requires cursor <= |lines|
    ensures Refusal(lines, cursor, h, number) == None
      <==> Counted(h) && Stands(lines, h) && cursor <= LinesBefore(h)
    ensures Counted(h) ==> Start(h) == LinesBefore(h) && Start(h) + |OldLines(h.lines)| == LinesUpTo(h)
  {
    hide OldLines, NewLines;
    var old_, start := OldLines(h.lines), Start(h);
    if Counted(h) && 0 <= start && start + |old_| <= |lines| {
      var slice := lines[start..start + |old_|];
      assert slice == old_ <==> forall m :: 0 <= m < |old_| ==> slice[m] == old_[m];
      assert forall m :: 0 <= m < |old_| ==> slice[m] == lines[start + m];
    }
  }

  lemma {:induction false} PlacedIff(lines: seq<Bytes>, cursor: nat, hunks: seq<Hunk>, number: nat)
    requires cursor <= |lines|
    ensures ApplyFrom(lines, cursor, hunks, number).Ok? <==> Placed(lines, cursor, hunks)
    decreases |hunks|
  {
    hide Refusal, Counted, Stands, LinesBefore, LinesUpTo, OldLines, NewLines, Start;
    if hunks != [] {
      var h, rest := hunks[0], hunks[1..];
      AcceptedIff(lines, cursor, h, number);
      if Refusal(lines, cursor, h, number) == None {
        ApplyParts(lines, cursor, hunks, number);
        OldPart(lines, cursor, h, number);
        PlacedIff(lines, LinesUpTo(h), rest, number + 1);
        PlacedParts(lines, cursor, hunks);
      } else {
        Refused(lines, cursor, hunks, number);
      }
    }
  }

  lemma Refused(lines: seq<Bytes>, cursor: nat, hunks: seq<Hunk>, number: nat)
    requires cursor <= |lines| && hunks != [] && Refusal(lines, cursor, hunks[0], number).Some?
    ensures ApplyFrom(lines, cursor, hunks, number) == Err(Refusal(lines, cursor, hunks[0], number).value)
  {
    hide Refusal;
  }

  lemma PlacedParts(lines: seq<Bytes>, cursor: nat, hunks: seq<Hunk>)
    requires hunks != [] && Counted(hunks[0]) && Stands(lines, hunks[0]) && cursor <= LinesBefore(hunks[0])
    ensures 0 <= LinesUpTo(hunks[0])
    ensures Placed(lines, cursor, hunks) <==> Placed(lines, LinesUpTo(hunks[0]), hunks[1..])
  {
    var rest := hunks[1..];
    hide Counted, Stands;
    if Placed(lines, LinesUpTo(hunks[0]), rest) {
      forall k | 0 < k < |hunks|
        ensures Counted(hunks[k]) && Stands(lines, hunks[k]) && LinesUpTo(hunks[k - 1]) <= LinesBefore(hunks[k])
      {
        assert rest[k - 1] == hunks[k];
      }
    }
    if Placed(lines, cursor, hunks) {
      forall k | 0 <= k < |rest|
        ensures Counted(rest[k]) && Stands(lines, rest[k]) && (k > 0 ==> LinesUpTo(rest[k - 1]) <= LinesBefore(rest[k]))
      {
        assert rest[k] == hunks[k + 1];
      }
    }
  }

  /** A patch applies exactly when its hunks stand in the file, in order and without overlap. */
  lemma AppliesIff(original: Bytes, patch: FilePatch)
    ensures Patched(original, patch).Ok? <==> Placed(SplitLines(original), 0, patch.hunks)
  {
    hide ApplyFrom, SplitLines, Placed;
    PlacedIff(SplitLines(original), 0, patch.hunks, 1);
  }

  // ----- where the new lines are -----

  /** The new lines of hunk k stand where the hunk stood, moved by the hunks before it. */
  lemma {:induction false} HunkStands(lines: seq<Bytes>, cursor: nat, hunks: seq<Hunk>, number: nat, k: nat)
    requires cursor <= |lines| && ApplyFrom(lines, cursor, hunks, number).Ok? && k < |hunks|
    ensures var out := ApplyFrom(lines, cursor, hunks, number).value;
        var at := LinesBefore(hunks[k]) - cursor + Delta(hunks[..k]);
        0 <= at && at + hunks[k].newCount <= |out|
        && out[at..at + hunks[k].newCount] == NewLines(hunks[k].lines)
    decreases |hunks|
  {
    hide *;
    var h, rest := hunks[0], hunks[1..];
    FirstHunk(lines, cursor, hunks, number);
    var past := LinesUpTo(h);
    var tail := ApplyFrom(lines, past, rest, number + 1).value;
    var front, new_ := lines[cursor..LinesBefore(h)], NewLines(h.lines);
    if k == 0 {
      NoDelta(hunks[..0]);
      Between(front, new_, tail);
    } else {
      HunkStands(lines, past, rest, number + 1, k - 1);
      FirstDelta(hunks, k);
      var from := LinesBefore(hunks[k]) - past + Delta(rest[..k - 1]);
      InTail(front + new_, tail, from, from + hunks[k].newCount);
    }
  }

  lemma FirstHunk(lines: seq<Bytes>, cursor: nat, hunks: seq<Hunk>, number: nat)
    requires cursor <= |lines| && hunks != [] && ApplyFrom(lines, cursor, hunks, number).Ok?
    ensures var h := hunks[0];
        cursor <= LinesBefore(h) && 0 <= LinesUpTo(h) <= |lines| && LinesBefore(h) <= |lines|
        && |NewLines(h.lines)| == h.newCount
        && ApplyFrom(lines, LinesUpTo(h), hunks[1..], number + 1).Ok?
        && ApplyFrom(lines, cursor, hunks, number).value == lines[cursor..LinesBefore(h)] + NewLines(h.lines)
          + ApplyFrom(lines, LinesUpTo(h), hunks[1..], number + 1).value
  {
    hide OldLines, NewLines, Refusal, Start, LinesBefore, LinesUpTo;
    ApplyParts(lines, cursor, hunks, number);
    OldPart(lines, cursor, hunks[0], number);
    AcceptedIff(lines, cursor, hunks[0], number);
  }

  lemma Between(front: seq<Bytes>, new_: seq<Bytes>, tail: seq<Bytes>)
    ensures (front + new_ + tail)[|front|..|front| + |new_|] == new_
  {}

  lemma NoDelta(hunks: seq<Hunk>)
    requires hunks == []
    ensures Delta(hunks) == 0
  {}

  lemma FirstDelta(hunks: seq<Hunk>, k: nat)
    requires 0 < k <= |hunks|
    ensures Delta(hunks[..k]) == hunks[0].newCount - hunks[0].oldCount + Delta(hunks[1..][..k - 1])
    ensures LinesUpTo(hunks[0]) == LinesBefore(hunks[0]) + hunks[0].oldCount
  {
    assert hunks[..k][1..] == hunks[1..][..k - 1];
  }

  lemma InTail(front: seq<Bytes>, tail: seq<Bytes>, from: nat, to: nat)
    requires from <= to <= |tail|
    ensures (front + tail)[|front| + from..|front| + to] == tail[from..to]
  {}

  // ----- refusals -----

  /** What each objection says, in the order in which they are raised. */
  lemma RefusalIff(lines: seq<Bytes>, cursor: nat, h: Hunk, number: nat)
    requires cursor <= |lines|
    ensures Refusal(lines, cursor, h, number) == Some(WrongCounts(number)) <==> !Counted(h)
    ensures Refusal(lines, cursor, h, number) == Some(Overlaps(number)) <==> Counted(h) && LinesBefore(h) < cursor
    ensures Refusal(lines, cursor, h, number) == Some(PastEnd(number))
      <==> Counted(h) && LinesBefore(h) >= cursor && LinesUpTo(h) > |lines|
  {
    hide OldLines, NewLines, Slice;
  }

  /**
   A hunk met again where its new lines already stand, with room for its old ones, either happens to match still or is
   called already applied.
   */
  lemma AgainIsAlreadyApplied(lines: seq<Bytes>, cursor: nat, h: Hunk, number: nat)
    requires cursor <= LinesBefore(h) && Counted(h) && LinesUpTo(h) <= |lines|
    requires LinesBefore(h) + h.newCount <= |lines|
    requires lines[LinesBefore(h)..LinesBefore(h) + h.newCount] == NewLines(h.lines)
    ensures Refusal(lines, cursor, h, number) == if Stands(lines, h) then None else Some(AlreadyApplied(number))
  {
    AcceptedIff(lines, cursor, h, number);
    RefusalIff(lines, cursor, h, number);
    hide OldLines, NewLines, Stands;
  }

  /** A one-hunk patch on its own result is refused as already applied, unless its old lines stand there too. */
  lemma TwiceIsRefused(lines: seq<Bytes>, h: Hunk)
    requires ApplyFrom(lines, 0, [h], 1).Ok? && h.oldCount <= h.newCount
    ensures Counted(h)
    ensures var out := ApplyFrom(lines, 0, [h], 1).value;
        if Stands(out, h) then ApplyFrom(out, 0, [h], 1).Ok? else ApplyFrom(out, 0, [h], 1) == Err(AlreadyApplied(1))
  {
    hide OldLines, NewLines, Refusal, Stands, LinesBefore, LinesUpTo, ApplyFrom;
    var out := ApplyFrom(lines, 0, [h], 1).value;
    PlacedIff(lines, 0, [h], 1);
    assert [h][0] == h && Counted(h);
    HunkStands(lines, 0, [h], 1, 0);
    NoDelta([h][..0]);
    UpToIs(h);
    AgainIsAlreadyApplied(out, 0, h, 1);
    PlacedIff(out, 0, [h], 1);
    if !Stands(out, h) {
      Refused(out, 0, [h], 1);
    }
  }

  lemma UpToIs(h: Hunk)
    ensures LinesUpTo(h) == LinesBefore(h) + h.oldCount
  {}
}
