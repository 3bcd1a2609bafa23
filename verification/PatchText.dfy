/**
 The texts that scripts/build_sep_wheel.py accepts as patches, whatever wrote them: prose between the blocks, file
 names with or without prefix, space and date, header counts written or left out, lines with or without a newline.
 */
module PatchText {
  import opened Wrappers
  import opened ByteLines
  import opened PatchApply
  import opened PatchParse

  /** A literal of the format as bytes. */
  function Ascii(text: string): Bytes
    requires forall i :: 0 <= i < |text| ==> text[i] < 128 as char
  {
    seq(|text|, i requires 0 <= i < |text| => text[i] as Byte)
  }

  /** The fixed parts of a patch, letter by letter. */
  lemma Spelled()
    ensures OLD_HEADER == Ascii("--- ") && NEW_HEADER == Ascii("+++ ")
    ensures OLD_PREFIX == Ascii("a/") && NEW_PREFIX == Ascii("b/") && NO_FILE == Ascii("/dev/null")
    ensures HUNK_OPEN == Ascii("@@ -") && HUNK_MIDDLE == Ascii(" +") && HUNK_CLOSE == Ascii(" @@")
    ensures [SPACE, MINUS, PLUS, BACKSLASH, TAB, COMMA] == Ascii(" -+\\\t,") && [NEWLINE] == Ascii("\n")
  {}

  // ----- hunk headers -----

  predicate IsNumber(digits: Bytes) {
    digits != [] && forall i :: 0 <= i < |digits| ==> IsDigit(digits[i])
  }

  /** A start line, and a line count unless it is one line. */
  datatype RangeText = RangeText(start: Bytes, count: Option<Bytes>) {
    predicate Valid() {
      IsNumber(start) && (count.Some? ==> IsNumber(count.value))
    }

    function Text(): Bytes {
      start + if count.Some? then [COMMA] + count.value else []
    }

    function Start(): nat
      requires Valid()
    {
      Value(start)
    }

    function Count(): nat
      requires Valid()
    {
      if count.Some? then Value(count.value) else 1
    }
  }

  /** Two ranges and, behind the second @@, anything. */
  datatype HeaderText = HeaderText(old_: RangeText, new_: RangeText, heading: Bytes) {
    predicate Valid() {
      old_.Valid() && new_.Valid()
    }

    function Text(): Bytes {
      HUNK_OPEN + (old_.Text() + (HUNK_MIDDLE + (new_.Text() + (HUNK_CLOSE + heading))))
    }

    function Opens(): Hunk
      requires Valid()
    {
      Hunk(old_.Start(), old_.Count(), new_.Start(), new_.Count(), [])
    }
  }

  lemma NumberRead(digits: Bytes, rest: Bytes)
    requires IsNumber(digits) && (rest == [] || !IsDigit(rest[0]))
    ensures Number(digits + rest) == Some((Value(digits), rest))
  {
    DigitsThen(digits, rest);
    assert (digits + rest)[..|digits|] == digits && (digits + rest)[|digits|..] == rest;
    hide Value;
  }

  lemma NumberWritten(text: Bytes) returns (digits: Bytes)
    requires Number(text).Some?
    ensures IsNumber(digits) && text == digits + Number(text).value.1 && Number(text).value.0 == Value(digits)
  {
    digits := text[..Digits(text)];
    hide Value;
  }

  lemma RangeRead(r: RangeText, rest: Bytes)
    requires r.Valid() && rest != [] && !IsDigit(rest[0]) && rest[0] != COMMA
    ensures Range(r.Text() + rest) == Some((r.Start(), r.Count(), rest))
  {
    hide Number, Value, IsDigit, IsNumber;
    CommaIsNoDigit();
    if r.count.Some? {
      var tail := r.count.value + rest;
      assert r.Text() + rest == r.start + ([COMMA] + tail);
      NumberRead(r.start, [COMMA] + tail);
      assert ([COMMA] + tail)[1..] == tail;
      NumberRead(r.count.value, rest);
    } else {
      assert r.Text() + rest == r.start + rest;
      NumberRead(r.start, rest);
    }
  }

  lemma CommaIsNoDigit()
    ensures !IsDigit(COMMA) && !IsDigit(SPACE)
  {}

  lemma RangeWritten(text: Bytes) returns (r: RangeText)
    requires Range(text).Some?
    ensures r.Valid() && text == r.Text() + Range(text).value.2
    ensures Range(text).value.0 == r.Start() && Range(text).value.1 == r.Count()
  {
    hide Number, Value, IsNumber;
    var start := NumberWritten(text);
    var rest := Number(text).value.1;
    if rest != [] && rest[0] == COMMA && Number(rest[1..]).Some? {
      var count := NumberWritten(rest[1..]);
      assert rest == [COMMA] + rest[1..];
      r := RangeText(start, Some(count));
    } else {
      r := RangeText(start, None);
    }
  }

  /** A header line is read as its ranges say; a count that is left out is one. */
  lemma HeaderRead(form: HeaderText)
    requires form.Valid()
    ensures Header(form.Text()) == Some(form.Opens())
  {
    hide Range, RangeText.Text, RangeText.Valid, RangeText.Start, RangeText.Count;
    var end := HUNK_CLOSE + form.heading;
    var middle := HUNK_MIDDLE + (form.new_.Text() + end);
    CommaIsNoDigit();
    Prefixed(HUNK_OPEN, form.old_.Text() + middle);
    RangeRead(form.old_, middle);
    Prefixed(HUNK_MIDDLE, form.new_.Text() + end);
    RangeRead(form.new_, end);
    Prefixed(HUNK_CLOSE, form.heading);
  }

  lemma Cut(text: Bytes, prefix: Bytes)
    requires StartsWith(text, prefix)
    ensures text == prefix + text[|prefix|..]
  {}

  /** Only such lines are headers. */
  lemma HeaderWritten(line: Bytes) returns (form: HeaderText)
    requires Header(line).Some?
    ensures form.Valid() && line == form.Text()
  {
    hide Range, RangeText.Text, RangeText.Valid, RangeText.Start, RangeText.Count;
    var old_ := RangeWritten(line[4..]);
    var middle := Range(line[4..]).value.2;
    var new_ := RangeWritten(middle[2..]);
    var end := Range(middle[2..]).value.2;
    Cut(line, HUNK_OPEN);
    Cut(middle, HUNK_MIDDLE);
    Cut(end, HUNK_CLOSE);
    form := HeaderText(old_, new_, end[3..]);
  }

  ghost predicate IsHeader(line: Bytes) {
    exists form: HeaderText :: form.Valid() && line == form.Text()
  }

  lemma HeaderIff(line: Bytes)
    ensures Header(line).Some? <==> IsHeader(line)
  {
    hide Header, HeaderText.Valid, HeaderText.Text, HeaderText.Opens;
    if Header(line).Some? {
      var form := HeaderWritten(line);
    }
    if form: HeaderText :| form.Valid() && line == form.Text() {
      HeaderRead(form);
    }
  }

  // ----- file names -----

  predicate AllSpace(text: Bytes) {
    forall i :: 0 <= i < |text| ==> IsSpace(text[i]) && text[i] != TAB
  }

  predicate Bare(core: Bytes) {
    TAB !in core && (core != [] ==> !IsSpace(core[0]) && !IsSpace(core[|core| - 1]))
  }

  /** How a path is written: with space around it, with or without its prefix, and with a note behind a tab. */
  datatype NameText = NameText(lead: Bytes, prefixed: bool, trail: Bytes, note: Option<Bytes>) {
    function Core(path: Bytes, prefix: Bytes): Bytes {
      if prefixed then prefix + path else path
    }

    predicate Valid(path: Bytes, prefix: Bytes) {
      && AllSpace(lead) && AllSpace(trail) && Bare(Core(path, prefix))
      && (prefixed || !StartsWith(path, prefix))
    }

    function Text(path: Bytes, prefix: Bytes): Bytes {
      lead + Core(path, prefix) + trail + if note.Some? then [TAB] + note.value else []
    }
  }

  lemma {:induction false} FirstField(field: Bytes, rest: Bytes)
    requires TAB !in field && (rest == [] || rest[0] == TAB)
    ensures Split(field + rest, TAB)[0] == field
  {
    if field == [] {
      assert field + rest == rest;
    } else {
      assert (field + rest)[1..] == field[1..] + rest;
      FirstField(field[1..], rest);
      assert [field[0]] + field[1..] == field;
    }
  }

  lemma {:induction false} FieldOf(text: Bytes) returns (rest: Bytes)
    ensures TAB !in Split(text, TAB)[0] && text == Split(text, TAB)[0] + rest && (rest == [] || rest[0] == TAB)
  {
    if text == [] || text[0] == TAB {
      rest := text;
    } else {
      rest := FieldOf(text[1..]);
      assert text == [text[0]] + text[1..];
    }
  }

  lemma {:induction false} LeftStripped(lead: Bytes, text: Bytes)
    requires AllSpace(lead) && (text == [] || !IsSpace(text[0]))
    ensures StripLeft(lead + text) == text
  {
    if lead == [] {
      assert lead + text == text;
    } else {
      assert (lead + text)[1..] == lead[1..] + text;
      LeftStripped(lead[1..], text);
    }
  }

  lemma {:induction false} RightStripped(text: Bytes, trail: Bytes)
    requires AllSpace(trail) && (text == [] || !IsSpace(text[|text| - 1]))
    ensures StripRight(text + trail) == text
  {
    if trail == [] {
      assert text + trail == text;
    } else {
      var n := |trail| - 1;
      assert (text + trail)[..|text + trail| - 1] == text + trail[..n];
      RightStripped(text, trail[..n]);
    }
  }

  lemma {:induction false} LeadOf(text: Bytes) returns (lead: Bytes)
    requires TAB !in text
    ensures AllSpace(lead) && text == lead + StripLeft(text)
    ensures StripLeft(text) == [] || !IsSpace(StripLeft(text)[0])
  {
    if text != [] && IsSpace(text[0]) {
      lead := LeadOf(text[1..]);
      lead := [text[0]] + lead;
    } else {
      lead := [];
    }
  }

  lemma {:induction false} TrailOf(text: Bytes) returns (trail: Bytes)
    requires TAB !in text
    ensures AllSpace(trail) && text == StripRight(text) + trail
    ensures var r := StripRight(text); r == [] || (!IsSpace(r[|r| - 1]) && r[0] == text[0])
  {
    if text != [] && IsSpace(text[|text| - 1]) {
      var n := |text| - 1;
      trail := TrailOf(text[..n]);
      assert text == text[..n] + [text[n]];
      trail := trail + [text[n]];
    } else {
      trail := [];
    }
  }

  /** A written name is read as its path. */
  lemma NameRead(form: NameText, path: Bytes, prefix: Bytes)
    requires form.Valid(path, prefix)
    ensures StripPrefix(form.Text(path, prefix), prefix) == path
  {
    hide Split, IsSpace, StripLeft, StripRight;
    var core := form.Core(path, prefix);
    var field := form.lead + core + form.trail;
    FirstField(field, if form.note.Some? then [TAB] + form.note.value else []);
    if core == [] {
      assert field == form.lead + form.trail + [];
      LeftStripped(form.lead + form.trail, []);
      RightStripped([], []);
      assert [] + [] == core;
    } else {
      assert field == form.lead + (core + form.trail);
      LeftStripped(form.lead, core + form.trail);
      RightStripped(core, form.trail);
    }
    Prefixed(prefix, path);
  }

  /** Every name is written in one of these ways. */
  lemma NameWritten(name: Bytes, prefix: Bytes) returns (form: NameText)
    ensures form.Valid(StripPrefix(name, prefix), prefix) && form.Text(StripPrefix(name, prefix), prefix) == name
  {
    hide Split, IsSpace, StripLeft, StripRight;
    var field := Split(name, TAB)[0];
    var rest := FieldOf(name);
    var lead := LeadOf(field);
    var left := StripLeft(field);
    assert forall b :: b in left ==> b in field;
    var trail := TrailOf(left);
    var core := StripRight(left);
    assert forall b :: b in core ==> b in left;
    var note := if rest == [] then None else Some(rest[1..]);
    form := NameText(lead, StartsWith(core, prefix), trail, note);
    if StartsWith(core, prefix) {
      Cut(core, prefix);
    }
    assert rest != [] ==> rest == [TAB] + rest[1..];
    assert field == lead + core + trail;
  }
}
