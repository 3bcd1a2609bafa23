/**
 What a patch must look like, next to the file it is applied to, for its inverse to restore the file
 (apply_file_patch of scripts/build_sep_wheel.py).
 */
module PatchUndo {
  import opened Wrappers
  import opened ByteLines
  import opened PatchApply

  /** How many lines of the patched file come behind the new lines of hunk k. */
  function Behind(lines: seq<Bytes>, hunks: seq<Hunk>, k: nat): int
    requires k < |hunks|
  {
    |lines| - (Start(hunks[k]) + hunks[k].oldCount) + Delta(hunks[k + 1..])
  }

  /** The new lines of hunk k end in a newline, except for one that ends the file; none is empty. */
  ghost predicate NewLinesEnd(lines: seq<Bytes>, hunks: seq<Hunk>, k: nat)
    requires k < |hunks|
  {
    var new_ := NewLines(hunks[k].lines);
    forall i :: 0 <= i < |new_| ==>
      new_[i] != [] && (EndsLine(new_[i]) || (i == |new_| - 1 && Behind(lines, hunks, k) == 0))
  }

  /** The file's last line has no newline and no hunk takes it away. */
  predicate OpenEndStays(lines: seq<Bytes>, cursor: nat, hunks: seq<Hunk>) {
    cursor < |lines| && !EndsLine(lines[|lines| - 1]) && !Inside(hunks, |lines| - 1)
  }

  ghost predicate NothingAppended(lines: seq<Bytes>, hunks: seq<Hunk>) {
    forall k :: 0 <= k < |hunks| && Start(hunks[k]) == |lines| ==> hunks[k].newCount == 0
  }

  /**
   Seen from the file and the hunks alone: new lines end in a newline unless they end the file, and nothing
   is appended behind a last line that lacks its newline.
   */
  ghost predicate KeepsLines(lines: seq<Bytes>, hunks: seq<Hunk>) {
    KeepsFrom(lines, 0, hunks)
  }

  /** The same for the hunks that apply from the cursor on. */
  ghost predicate KeepsFrom(lines: seq<Bytes>, cursor: nat, hunks: seq<Hunk>) {
    && (forall k :: 0 <= k < |hunks| ==> NewLinesEnd(lines, hunks, k))
    && (OpenEndStays(lines, cursor, hunks) ==> NothingAppended(lines, hunks))
  }

  lemma FileConcat(a: seq<Bytes>, b: seq<Bytes>)
    ensures FileLines(a + b)
      <==> FileLines(a) && FileLines(b) && (a != [] && b != [] ==> EndsLine(a[|a| - 1]))
  {
    hide IsLine, EndsLine;
    var all := a + b;
    assert forall i :: 0 <= i < |b| ==> all[|a| + i] == b[i];
    assert forall i :: 0 <= i < |a| ==> all[i] == a[i];
    if FileLines(a) && FileLines(b) && (a != [] && b != [] ==> EndsLine(a[|a| - 1])) {
      forall i | 0 <= i < |all|
        ensures IsLine(all[i]) && (i < |all| - 1 ==> EndsLine(all[i]))
      {
        if i >= |a| {
          assert all[i] == b[i - |a|];
        }
      }
    }
  }

  lemma FilePart(lines: seq<Bytes>, from: nat, to: nat)
    requires FileLines(lines) && from <= to <= |lines|
    ensures FileLines(lines[from..to])
  {
    hide IsLine, EndsLine;
  }

  /** Every new line is one line, or nothing. */
  ghost predicate OneLiners(hunks: seq<Hunk>) {
    forall k :: 0 <= k < |hunks| ==> AllLines(NewLines(hunks[k].lines))
  }

  /** The new lines of the first hunk end as they should exactly when they may stand before the rest. */
  lemma FirstEnds(lines: seq<Bytes>, hunks: seq<Hunk>, rest: seq<Bytes>)
    requires hunks != [] && AllLines(NewLines(hunks[0].lines)) && |rest| == Behind(lines, hunks, 0)
    ensures var new_ := NewLines(hunks[0].lines);
      NewLinesEnd(lines, hunks, 0) <==> FileLines(new_) && (new_ != [] && rest != [] ==> EndsLine(new_[|new_| - 1]))
  {
    hide NewLines, EndsLine, Behind;
    assert !IsLine([]);
  }

  lemma LaterEnds(lines: seq<Bytes>, hunks: seq<Hunk>)
    requires hunks != []
    ensures (forall k :: 0 <= k < |hunks| ==> NewLinesEnd(lines, hunks, k))
      <==> NewLinesEnd(lines, hunks, 0) && forall k :: 0 <= k < |hunks[1..]| ==> NewLinesEnd(lines, hunks[1..], k)
  {
    hide NewLines, EndsLine;
    forall k | 0 < k < |hunks|
      ensures NewLinesEnd(lines, hunks, k) == NewLinesEnd(lines, hunks[1..], k - 1)
    {
      assert hunks[1..][k..] == hunks[k + 1..];
    }
    if forall k :: 0 <= k < |hunks| ==> NewLinesEnd(lines, hunks, k) {
      forall k | 0 <= k < |hunks[1..]|
        ensures NewLinesEnd(lines, hunks[1..], k)
      {
        assert NewLinesEnd(lines, hunks, k + 1);
      }
    }
  }

  /** Behind a line that no later hunk takes away, the later hunks start at the end or do not matter. */
  lemma {:induction false} StartsLater(lines: seq<Bytes>, cursor: nat, hunks: seq<Hunk>, number: nat)
    requires cursor <= |lines| && ApplyFrom(lines, cursor, hunks, number).Ok?
    ensures forall k :: 0 <= k < |hunks| ==>
      cursor <= Start(hunks[k]) && Start(hunks[k]) + hunks[k].oldCount <= |lines|
    decreases |hunks|
  {
    hide OldLines, NewLines;
    if hunks != [] {
      StartsLater(lines, Start(hunks[0]) + hunks[0].oldCount, hunks[1..], number + 1);
      assert forall k :: 0 < k < |hunks| ==> hunks[k] == hunks[1..][k - 1];
    }
  }

  /** Hunks at the end of the file add nothing exactly when none of them has a new line. */
  lemma {:induction false} AddsNothing(lines: seq<Bytes>, hunks: seq<Hunk>)
    requires forall k :: 0 <= k < |hunks| ==> Start(hunks[k]) == |lines| && hunks[k].oldCount == 0
    ensures Delta(hunks) >= 0 && (Delta(hunks) == 0 <==> NothingAppended(lines, hunks))
  {
    hide Start;
    if hunks != [] {
      AddsNothing(lines, hunks[1..]);
      assert forall k :: 0 < k < |hunks| ==> hunks[k] == hunks[1..][k - 1];
      if NothingAppended(lines, hunks[1..]) && hunks[0].newCount == 0 {
        assert NothingAppended(lines, hunks);
      }
      if NothingAppended(lines, hunks) {
        forall k | 0 <= k < |hunks[1..]|
          ensures hunks[1..][k].newCount == 0
        {
          assert hunks[k + 1].newCount == 0;
        }
      }
    }
  }

  /** The first hunk does not decide whether an open last line behind it stays. */
  lemma StaysBehind(lines: seq<Bytes>, cursor: nat, hunks: seq<Hunk>, number: nat)
    requires cursor <= |lines| && ApplyFrom(lines, cursor, hunks, number).Ok? && hunks != []
      && Start(hunks[0]) < |lines|
    ensures var end := Start(hunks[0]) + hunks[0].oldCount;
      (OpenEndStays(lines, cursor, hunks) ==> NothingAppended(lines, hunks))
      <==> (OpenEndStays(lines, end, hunks[1..]) ==> NothingAppended(lines, hunks[1..]))
  {
    hide OldLines, NewLines, EndsLine;
    StartsLater(lines, cursor, hunks, number);
    var end := Start(hunks[0]) + hunks[0].oldCount;
    if end == |lines| {
      assert Inside(hunks, |lines| - 1);
    } else {
      assert Inside(hunks, |lines| - 1) == Inside(hunks[1..], |lines| - 1);
      assert forall k :: 0 < k < |hunks| ==> hunks[k] == hunks[1..][k - 1];
      if NothingAppended(lines, hunks) {
        forall k | 0 <= k < |hunks[1..]| && Start(hunks[1..][k]) == |lines|
          ensures hunks[1..][k].newCount == 0
        {
          assert hunks[k + 1] == hunks[1..][k];
        }
      }
    }
  }

  /** Where the first hunk starts at the end of the file, all do, and an open last line before it stays. */
  lemma StaysBefore(lines: seq<Bytes>, cursor: nat, hunks: seq<Hunk>, number: nat)
    requires cursor <= |lines| && ApplyFrom(lines, cursor, hunks, number).Ok? && hunks != []
      && Start(hunks[0]) == |lines|
    ensures hunks[0].oldCount == 0 && !OpenEndStays(lines, |lines|, hunks[1..])
    ensures OpenEndStays(lines, cursor, hunks) <==> cursor < |lines| && !EndsLine(lines[|lines| - 1])
    ensures NothingAppended(lines, hunks) <==> Delta(hunks) == 0
  {
    hide OldLines, NewLines, EndsLine;
    StartsLater(lines, cursor, hunks, number);
    assert hunks[0].oldCount == 0;
    StartsLater(lines, |lines|, hunks[1..], number + 1);
    assert forall k :: 0 < k < |hunks| ==> hunks[k] == hunks[1..][k - 1];
    AddsNothing(lines, hunks);
    if cursor < |lines| {
      LaterHunks(lines, |lines|, hunks[1..], number + 1, |lines| - 1);
    }
  }

  /** What is in front of the first hunk's new lines is not left open. */
  ghost predicate SegmentClosed(lines: seq<Bytes>, cursor: nat, start: nat, added: nat) {
    start == |lines| && cursor < |lines| && !EndsLine(lines[|lines| - 1]) ==> added == 0
  }

  lemma KeepsStep(lines: seq<Bytes>, cursor: nat, hunks: seq<Hunk>, number: nat, start: nat, end: nat, added: nat)
    requires cursor <= |lines| && ApplyFrom(lines, cursor, hunks, number).Ok? && hunks != []
    requires start == Start(hunks[0]) && end == start + hunks[0].oldCount
    requires start == |lines| ==> added == Delta(hunks)
    ensures KeepsFrom(lines, cursor, hunks)
      <==> NewLinesEnd(lines, hunks, 0) && KeepsFrom(lines, end, hunks[1..])
           && SegmentClosed(lines, cursor, start, added)
  {
    hide EndsLine, NewLinesEnd, OpenEndStays, NothingAppended, ApplyFrom;
    ApplyParts(lines, cursor, hunks, number);
    OldPart(lines, cursor, hunks[0], number);
    LaterEnds(lines, hunks);
    if start < |lines| {
      StaysBehind(lines, cursor, hunks, number);
    } else {
      StaysBefore(lines, cursor, hunks, number);
    }
  }

  lemma FileStep(lines: seq<Bytes>, cursor: nat, hunks: seq<Hunk>, start: nat, rest: seq<Bytes>)
    requires FileLines(lines) && cursor <= start <= |lines| && hunks != []
    requires AllLines(NewLines(hunks[0].lines)) && |rest| == Behind(lines, hunks, 0)
    ensures var new_ := NewLines(hunks[0].lines);
      FileLines(lines[cursor..start] + new_ + rest)
      <==> NewLinesEnd(lines, hunks, 0) && FileLines(rest) && SegmentClosed(lines, cursor, start, |new_| + |rest|)
  {
    hide NewLines, EndsLine, FileLines, NewLinesEnd, Behind, AllLines;
    var seg, new_ := lines[cursor..start], NewLines(hunks[0].lines);
    FilePart(lines, cursor, start);
    FirstEnds(lines, hunks, rest);
    FileConcat(new_, rest);
    FileConcat(seg, new_ + rest);
    assert seg + new_ + rest == seg + (new_ + rest);
    SegmentEnds(lines, cursor, start);
  }

  /** The patched lines are lines of a file exactly when the hunks keep the lines. */
  lemma {:induction false} KeepsIff(lines: seq<Bytes>, cursor: nat, hunks: seq<Hunk>, number: nat)
    requires cursor <= |lines| && FileLines(lines) && OneLiners(hunks) && ApplyFrom(lines, cursor, hunks, number).Ok?
    ensures FileLines(ApplyFrom(lines, cursor, hunks, number).value) <==> KeepsFrom(lines, cursor, hunks)
    decreases |hunks|
  {
    hide OldLines, NewLines, FileLines, NewLinesEnd, KeepsFrom, SegmentClosed, Behind, AllLines, ApplyFrom;
    if hunks == [] {
      FilePart(lines, cursor, |lines|);
      NoHunks(lines, cursor);
      ApplyNone(lines, cursor, number);
      assert lines[cursor..|lines|] == lines[cursor..];
    } else {
      var h, later := hunks[0], hunks[1..];
      ApplyParts(lines, cursor, hunks, number);
      OldPart(lines, cursor, h, number);
      var start, end := Start(h), Start(h) + h.oldCount;
      var rest := ApplyFrom(lines, end, later, number + 1).value;
      assert OneLiners(later);
      KeepsIff(lines, end, later, number + 1);
      LineCount(lines, end, later, number + 1);
      BehindIs(lines, hunks);
      FileStep(lines, cursor, hunks, start, rest);
      KeepsStep(lines, cursor, hunks, number, start, end, |NewLines(h.lines)| + |rest|);
    }
  }

  lemma BehindIs(lines: seq<Bytes>, hunks: seq<Hunk>)
    requires hunks != []
    ensures Behind(lines, hunks, 0) == |lines| - (Start(hunks[0]) + hunks[0].oldCount) + Delta(hunks[1..])
    ensures Delta(hunks) == hunks[0].newCount - hunks[0].oldCount + Delta(hunks[1..])
  {}

  lemma NoHunks(lines: seq<Bytes>, cursor: nat)
    ensures KeepsFrom(lines, cursor, [])
  {}

  /** A kept segment ends in a newline unless it ends the file. */
  lemma SegmentEnds(lines: seq<Bytes>, cursor: nat, start: nat)
    requires FileLines(lines) && cursor <= start <= |lines|
    ensures var seg := lines[cursor..start];
      seg != [] ==> seg[|seg| - 1] == lines[start - 1] && (start < |lines| ==> EndsLine(lines[start - 1]))
  {
    hide EndsLine;
  }

  /**
   The inverse patch restores the bytes exactly when the hunks keep the lines of the original, which can be
   told from the original and the patch before anything is applied.
   */
  lemma InverseRestoresIffKept(original: Bytes, patch: FilePatch)
    requires SingleLines(patch.hunks) && PatchedLines(original, patch).Ok?
    ensures Patched(Patched(original, patch).value, Inverse(patch)) == Ok(original)
      <==> KeepsLines(SplitLines(original), patch.hunks)
  {
    hide SplitLines, KeepsFrom, Patched, Inverse, FileLines, ApplyFrom, OldLines, NewLines, AllLines;
    JoinSplit(original);
    InverseRestoresIff(original, patch);
    KeepsIff(SplitLines(original), 0, patch.hunks, 1);
  }
}
