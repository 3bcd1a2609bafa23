/**
 parse_patch of scripts/build_sep_wheel.py: the line-by-line state machine that reads a unified diff, and the
 printer it inverts (the format of "Diff -u or -U Output Format" in the diff utility of IEEE Std 1003.1).
 */
module PatchParse {
  import opened Wrappers
  import opened ByteLines
  import opened PatchApply

  datatype ParseError =
    | MisplacedMarker | UnexpectedLine | TooManyLines | CreatesOrDeletes | Renames | UnsafePath
    | HunkBeforeFile | Truncated | NoHunks

  const TAB: Byte := 9
  const SPACE: Byte := 32
  const PLUS: Byte := 43
  const COMMA: Byte := 44
  const MINUS: Byte := 45
  const DOT: Byte := 46
  const SLASH: Byte := 47
  const ZERO: Byte := 48
  const AT: Byte := 64
  const LETTER_A: Byte := 97
  const LETTER_B: Byte := 98
  const BACKSLASH: Byte := 92

  const OLD_HEADER: Bytes := [MINUS, MINUS, MINUS, SPACE]
  const NEW_HEADER: Bytes := [PLUS, PLUS, PLUS, SPACE]
  const OLD_PREFIX: Bytes := [LETTER_A, SLASH]
  const NEW_PREFIX: Bytes := [LETTER_B, SLASH]
  /** /dev/null */
  const NO_FILE: Bytes := [SLASH, 100, 101, 118, SLASH, 110, 117, 108, 108]
  /** \ No newline at end of file */
  const MARKER: Bytes := [BACKSLASH, SPACE, 78, 111, SPACE, 110, 101, 119, 108, 105, 110, 101, SPACE, 97, 116, SPACE,
      101, 110, 100, SPACE, 111, 102, SPACE, 102, 105, 108, 101]

  // ----- decimal numbers -----

  predicate IsDigit(b: Byte) { ZERO <= b <= 57 }

  /** The length of the leading digit run. */
  function Digits(text: Bytes): (n: nat)
    ensures n <= |text| && (forall i :: 0 <= i < n ==> IsDigit(text[i])) && (n < |text| ==> !IsDigit(text[n]))
  {
    if text == [] || !IsDigit(text[0]) then 0 else 1 + Digits(text[1..])
  }

  function DigitOf(b: Byte): nat
    requires IsDigit(b)
  {
    b as int - ZERO as int
  }

  function Value(digits: Bytes): nat
    requires forall i :: 0 <= i < |digits| ==> IsDigit(digits[i])
  {
    if digits == [] then 0 else Value(digits[..|digits| - 1]) * 10 + DigitOf(digits[|digits| - 1])
  }

  function Decimal(n: nat): (digits: Bytes)
    ensures digits != [] && (forall i :: 0 <= i < |digits| ==> IsDigit(digits[i])) && Value(digits) == n
  {
    var last := [ZERO + (n % 10) as Byte];
    if n < 10 then
      assert last[..0] == [];
      last
    else
      var front := Decimal(n / 10);
      assert (front + last)[..|front|] == front;
      front + last
  }

  lemma DigitsThen(digits: Bytes, rest: Bytes)
    requires forall i :: 0 <= i < |digits| ==> IsDigit(digits[i])
    requires rest == [] || !IsDigit(rest[0])
    ensures Digits(digits + rest) == |digits|
  {
    hide IsDigit;
    var text := digits + rest;
    assert forall i :: 0 <= i < |digits| ==> text[i] == digits[i];
    assert rest != [] ==> text[|digits|] == rest[0];
  }

  /** A number and what follows it. */
  function Number(text: Bytes): Option<(nat, Bytes)> {
    var n := Digits(text);
    if n == 0 then None else Some((Value(text[..n]), text[n..]))
  }

  lemma NumberThen(n: nat, rest: Bytes)
    requires rest == [] || !IsDigit(rest[0])
    ensures Number(Decimal(n) + rest) == Some((n, rest))
  {
    var d := Decimal(n);
    DigitsThen(d, rest);
    assert (d + rest)[..|d|] == d && (d + rest)[|d|..] == rest;
  }

  // ----- hunk headers -----

  /** start[,count]: the count is one when it is left out. */
  function Range(text: Bytes): Option<(nat, nat, Bytes)> {
    match Number(text)
    case None => None
    case Some((start, rest)) =>
      if rest != [] && rest[0] == COMMA && Number(rest[1..]).Some? then
        var (count, more) := Number(rest[1..]).value;
        Some((start, count, more))
      else Some((start, 1, rest))
  }

  predicate StartsWith(text: Bytes, prefix: Bytes) {
    |text| >= |prefix| && text[..|prefix|] == prefix
  }

  const HUNK_OPEN: Bytes := [AT, AT, SPACE, MINUS]
  const HUNK_MIDDLE: Bytes := [SPACE, PLUS]
  const HUNK_CLOSE: Bytes := [SPACE, AT, AT]

  /** @@ -start[,count] +start[,count] @@ and anything behind it. */
  function Header(line: Bytes): Option<Hunk> {
    if !StartsWith(line, HUNK_OPEN) then None else
    match Range(line[4..])
    case None => None
    case Some((oldStart, oldCount, middle)) =>
      if !StartsWith(middle, HUNK_MIDDLE) then None else
      match Range(middle[2..])
      case None => None
      case Some((newStart, newCount, end)) =>
        if StartsWith(end, HUNK_CLOSE) then Some(Hunk(oldStart, oldCount, newStart, newCount, [])) else None
  }

  function PrintHeader(h: Hunk): Bytes {
    HUNK_OPEN + (Decimal(h.oldStart) + ([COMMA] + (Decimal(h.oldCount) + (HUNK_MIDDLE +
      (Decimal(h.newStart) + ([COMMA] + (Decimal(h.newCount) + HUNK_CLOSE)))))))
  }

  lemma RangeThen(start: nat, count: nat, rest: Bytes)
    requires rest != [] && !IsDigit(rest[0])
    ensures Range(Decimal(start) + ([COMMA] + (Decimal(count) + rest))) == Some((start, count, rest))
  {
    var tail := Decimal(count) + rest;
    NumberThen(start, [COMMA] + tail);
    assert ([COMMA] + tail)[1..] == tail;
    NumberThen(count, rest);
  }

  lemma Prefixed(prefix: Bytes, rest: Bytes)
    ensures StartsWith(prefix + rest, prefix) && (prefix + rest)[|prefix|..] == rest
  {}

  lemma HeaderPrinted(h: Hunk)
    ensures Header(PrintHeader(h)) == Some(h.(lines := []))
  {
    var newRange := Decimal(h.newStart) + ([COMMA] + (Decimal(h.newCount) + HUNK_CLOSE));
    var middle := HUNK_MIDDLE + newRange;
    var oldRange := Decimal(h.oldStart) + ([COMMA] + (Decimal(h.oldCount) + middle));
    hide Decimal, Range;
    Prefixed(HUNK_OPEN, oldRange);
    RangeThen(h.oldStart, h.oldCount, middle);
    Prefixed(HUNK_MIDDLE, newRange);
    RangeThen(h.newStart, h.newCount, HUNK_CLOSE);
    assert HUNK_CLOSE == HUNK_CLOSE + [];
    Prefixed(HUNK_CLOSE, []);
  }

  // ----- file headers -----

  predicate IsSpace(b: Byte) { 9 <= b <= 13 || b == SPACE }

  function StripLeft(text: Bytes): Bytes {
    if text != [] && IsSpace(text[0]) then StripLeft(text[1..]) else text
  }

  function StripRight(text: Bytes): Bytes {
    if text != [] && IsSpace(text[|text| - 1]) then StripRight(text[..|text| - 1]) else text
  }

  /** _strip_prefix: the name up to the first tab, without surrounding space and without the prefix. */
  function StripPrefix(name: Bytes, prefix: Bytes): Bytes {
    var text := StripRight(StripLeft(Split(name, TAB)[0]));
    if StartsWith(text, prefix) then text[|prefix|..] else text
  }

  /** Absolute, or with a parent step among its components. */
  predicate Unsafe(path: Bytes) {
    StartsWith(path, [SLASH]) || [DOT, DOT] in Split(path, SLASH)
  }

  function FileHeader(old_: Bytes, new_: Bytes): Result<Bytes, ParseError>
    requires |old_| >= 4 && |new_| >= 4
  {
    var oldName, newName := StripPrefix(old_[4..], OLD_PREFIX), StripPrefix(new_[4..], NEW_PREFIX);
    if oldName == NO_FILE || newName == NO_FILE then Err(CreatesOrDeletes)
    else if oldName != newName then Err(Renames)
    else if Unsafe(oldName) then Err(UnsafePath)
    else Ok(oldName)
  }

  // ----- the state machine -----

  /** The files so far, whether a hunk is open, and the old and new lines it still expects. */
  datatype State = State(patches: seq<FilePatch>, open: bool, remainingOld: nat, remainingNew: nat) {

    predicate Valid() {
      open ==> patches != [] && patches[|patches| - 1].hunks != []
    }

    /** The open hunk: the last one of the last file. */
    function Current(): Hunk
      requires Valid() && open
    {
      var hunks := patches[|patches| - 1].hunks;
      hunks[|hunks| - 1]
    }

    function WithLines(lines: seq<HunkLine>): (s: State)
      requires Valid() && open
      ensures s.Valid() && s.open
    {
      var last := |patches| - 1;
      var hunks := patches[last].hunks;
      this.(patches := patches[last := patches[last].(hunks := hunks[|hunks| - 1 := Current().(lines := lines)])])
    }

    function WithHunk(h: Hunk): (s: State)
      requires patches != []
      ensures s.Valid() && s.open
    {
      var last := |patches| - 1;
      State(patches[last := patches[last].(hunks := patches[last].hunks + [h])], true, h.oldCount, h.newCount)
    }
  }

  function TrimNewlines(text: Bytes): Bytes {
    if EndsLine(text) then TrimNewlines(text[..|text| - 1]) else text
  }

  /** An end-of-file marker takes the newline off the hunk's last line. */
  function MarkerStep(s: State): (r: Result<State, ParseError>)
    requires s.Valid() && s.open
    ensures r.Ok? ==> r.value.Valid()
  {
    var lines := s.Current().lines;
    if lines == [] then Err(MisplacedMarker) else
    var last := lines[|lines| - 1];
    Ok(s.WithLines(lines[|lines| - 1 := HunkLine(last.kind, TrimNewlines(last.content))]))
  }

  function KindOf(b: Byte): Option<Kind> {
    if b == SPACE then Some(Context) else if b == MINUS then Some(Removed) else if b == PLUS then Some(Added) else None
  }

  /** A line inside an unfinished hunk; an empty one is an empty context line. */
  function ContentStep(s: State, line: Bytes): (r: Result<State, ParseError>)
    requires s.Valid() && s.open
    ensures r.Ok? ==> r.value.Valid()
  {
    match KindOf(if line == [] then SPACE else line[0])
    case None => Err(UnexpectedLine)
    case Some(kind) =>
      var old_ := if kind == Added then s.remainingOld else s.remainingOld - 1;
      var new_ := if kind == Removed then s.remainingNew else s.remainingNew - 1;
      if old_ < 0 || new_ < 0 then Err(TooManyLines) else
      var content := if line == [] then [NEWLINE] else line[1..] + [NEWLINE];
      var t := s.WithLines(s.Current().lines + [HunkLine(kind, content)]);
      Ok(t.(remainingOld := old_, remainingNew := new_))
  }

  /** Outside hunk content: a file header takes two lines, anything that is neither header nor content is prose. */
  function HeaderStep(s: State, rest: seq<Bytes>): (r: Result<(State, nat), ParseError>)
    requires s.Valid() && rest != []
    ensures r.Ok? ==> r.value.0.Valid() && 1 <= r.value.1 <= |rest|
  {
    var line := rest[0];
    if StartsWith(line, OLD_HEADER) && |rest| > 1 && StartsWith(rest[1], NEW_HEADER) then
      match FileHeader(line, rest[1])
      case Err(error) => Err(error)
      case Ok(path) => Ok((State(s.patches + [FilePatch(path, [])], false, 0, 0), 2))
    else if Header(line).Some? then
      if s.patches == [] then Err(HunkBeforeFile) else Ok((s.WithHunk(Header(line).value), 1))
    else if s.open && line != [] && KindOf(line[0]).Some? then Err(TooManyLines)
    else Ok((s, 1))
  }

  /** One round of the loop on the lines still to read. */
  function Step(s: State, rest: seq<Bytes>): (r: Result<(State, nat), ParseError>)
    requires s.Valid() && rest != []
    ensures r.Ok? ==> r.value.0.Valid() && 1 <= r.value.1 <= |rest|
  {
    if s.open && StartsWith(rest[0], [BACKSLASH]) then
      match MarkerStep(s) case Ok(t) => Ok((t, 1)) case Err(error) => Err(error)
    else if s.open && (s.remainingOld > 0 || s.remainingNew > 0) then
      match ContentStep(s, rest[0]) case Ok(t) => Ok((t, 1)) case Err(error) => Err(error)
    else HeaderStep(s, rest)
  }

  /** The checks after the last line. */
  function Finish(s: State): Result<seq<FilePatch>, ParseError> {
    if s.open && (s.remainingOld > 0 || s.remainingNew > 0) then Err(Truncated)
    else if s.patches == [] || (exists i :: 0 <= i < |s.patches| && s.patches[i].hunks == []) then Err(NoHunks)
    else Ok(s.patches)
  }

  function Run(s: State, rest: seq<Bytes>): Result<seq<FilePatch>, ParseError>
    requires s.Valid()
    decreases |rest|
  {
    if rest == [] then Finish(s) else
    match Step(s, rest)
    case Err(error) => Err(error)
    case Ok((t, n)) => Run(t, rest[n..])
  }

  const START := State([], false, 0, 0)

  /** The lines of the patch text; a final newline does not start another one. */
  function TextLines(text: Bytes): seq<Bytes> {
    var pieces := Split(text, NEWLINE);
    if pieces[|pieces| - 1] == [] then pieces[..|pieces| - 1] else pieces
  }

  function Parsed(text: Bytes): Result<seq<FilePatch>, ParseError> {
    Run(START, TextLines(text))
  }

  lemma RunEnd(s: State)
    requires s.Valid()
    ensures Run(s, []) == Finish(s)
  {}

  lemma RunStep(s: State, rest: seq<Bytes>)
    requires s.Valid() && rest != []
    ensures Run(s, rest) == if Step(s, rest).Err? then Err(Step(s, rest).error)
      else Run(Step(s, rest).value.0, rest[Step(s, rest).value.1..])
  {
    hide MarkerStep, ContentStep, HeaderStep;
  }

  lemma RunMarker(s: State, rest: seq<Bytes>)
    requires s.Valid() && rest != [] && s.open && StartsWith(rest[0], [BACKSLASH])
    ensures Run(s, rest) == if MarkerStep(s).Err? then Err(MarkerStep(s).error) else Run(MarkerStep(s).value, rest[1..])
  {
    RunStep(s, rest);
    hide Run, MarkerStep;
  }

  lemma RunContent(s: State, rest: seq<Bytes>)
    requires s.Valid() && rest != [] && s.open && !StartsWith(rest[0], [BACKSLASH])
      && (s.remainingOld > 0 || s.remainingNew > 0)
    ensures Run(s, rest) == if ContentStep(s, rest[0]).Err? then Err(ContentStep(s, rest[0]).error)
      else Run(ContentStep(s, rest[0]).value, rest[1..])
  {
    RunStep(s, rest);
    hide Run, ContentStep;
  }

  lemma RunHeader(s: State, rest: seq<Bytes>)
    requires s.Valid() && rest != []
      && (!s.open || (!StartsWith(rest[0], [BACKSLASH]) && s.remainingOld == 0 && s.remainingNew == 0))
    ensures Run(s, rest) == if HeaderStep(s, rest).Err? then Err(HeaderStep(s, rest).error)
      else Run(HeaderStep(s, rest).value.0, rest[HeaderStep(s, rest).value.1..])
  {
    RunStep(s, rest);
    hide Run, HeaderStep;
  }

  /** Marker and content lines leave the hunk open; a marker leaves the remaining lines alone. */
  lemma HunkStaysOpen(s: State, line: Bytes)
    requires s.Valid() && s.open
    ensures MarkerStep(s).Ok? ==> MarkerStep(s).value == s.(patches := MarkerStep(s).value.patches)
    ensures ContentStep(s, line).Ok? ==> ContentStep(s, line).value.open
  {
    hide TrimNewlines, State.Current;
  }

  /** One round of the loop at line `index`: the lines after it are left, or all lines after a file header. */
  lemma RunLine(s: State, lines: seq<Bytes>, index: nat)
    requires s.Valid() && index < |lines|
    ensures Run(s, lines[index..]) == match Step(s, lines[index..])
      case Err(error) => Err(error)
      case Ok((t, n)) => Run(t, lines[index + n..])
  {
    var rest := lines[index..];
    RunStep(s, rest);
    hide Run, Step;
    if Step(s, rest).Ok? {
      var n := Step(s, rest).value.1;
      assert rest[n..] == lines[index + n..];
    }
  }

  lemma StepOfLine(s: State, lines: seq<Bytes>, index: nat)
    requires s.Valid() && index < |lines|
    ensures s.open && StartsWith(lines[index], [BACKSLASH]) ==>
      Step(s, lines[index..]) == match MarkerStep(s) case Ok(t) => Ok((t, 1)) case Err(error) => Err(error)
    ensures s.open && !StartsWith(lines[index], [BACKSLASH]) && (s.remainingOld > 0 || s.remainingNew > 0) ==>
      Step(s, lines[index..]) ==
      match ContentStep(s, lines[index]) case Ok(t) => Ok((t, 1)) case Err(error) => Err(error)
    ensures !s.open || (!StartsWith(lines[index], [BACKSLASH]) && s.remainingOld == 0 && s.remainingNew == 0) ==>
      Step(s, lines[index..]) == HeaderStep(s, lines[index..])
  {
    hide MarkerStep, ContentStep, HeaderStep, StartsWith;
  }

  lemma ParsedLines(text: Bytes)
    ensures State([], false, 0, 0).Valid() && Parsed(text) == Run(State([], false, 0, 0), TextLines(text))
  {
    hide Run, TextLines;
  }

  /** parse_patch. */
  method ParsePatch(text: Bytes) returns (r: Result<seq<FilePatch>, ParseError>)
    ensures r == Parsed(text)
  {
    hide *;
    var lines := TextLines(text);
    var patches: seq<FilePatch> := [];
    var open, remainingOld: nat, remainingNew: nat := false, 0, 0;
    var index := 0;
    ParsedLines(text);
    assert lines[0..] == lines;
    while index < |lines|
      invariant 0 <= index <= |lines|
      invariant State(patches, open, remainingOld, remainingNew).Valid()
      invariant Run(State(patches, open, remainingOld, remainingNew), lines[index..]) == Parsed(text)
    {
      var s := State(patches, open, remainingOld, remainingNew);
      var line := lines[index];
      RunLine(s, lines, index);
      StepOfLine(s, lines, index);
      if open && StartsWith(line, [BACKSLASH]) {
        HunkStaysOpen(s, line);
        var t := MarkerStep(s);
        if t.Err? { return Err(t.error); }
        patches := t.value.patches;
        index := index + 1;
      } else if open && (remainingOld > 0 || remainingNew > 0) {
        HunkStaysOpen(s, line);
        var t := ContentStep(s, line);
        if t.Err? { return Err(t.error); }
        patches, remainingOld, remainingNew := t.value.patches, t.value.remainingOld, t.value.remainingNew;
        index := index + 1;
      } else {
        var t := HeaderStep(s, lines[index..]);
        if t.Err? { return Err(t.error); }
        patches, open := t.value.0.patches, t.value.0.open;
        remainingOld, remainingNew := t.value.0.remainingOld, t.value.0.remainingNew;
        index := index + t.value.1;
      }
    }
    assert lines[index..] == [];
    RunEnd(State(patches, open, remainingOld, remainingNew));
    return Finish(State(patches, open, remainingOld, remainingNew));
  }
}
