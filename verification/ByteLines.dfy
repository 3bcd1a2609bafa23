/** Byte strings and their lines, as scripts/build_sep_wheel.py cuts them. */
module ByteLines {

  newtype Byte = x: int | 0 <= x < 256

  type Bytes = seq<Byte>

  const NEWLINE: Byte := 10

  /** bytes.split(separator): the pieces between separators, always at least one. */
  function Split(data: Bytes, separator: Byte): (pieces: seq<Bytes>)
    ensures |pieces| > 0
  {
    if data == [] then [[]]
    else
      var rest := Split(data[1..], separator);
      if data[0] == separator then [[]] + rest else [[data[0]] + rest[0]] + rest[1..]
  }

  /** Pieces as lines: every piece takes its newline back, except a last one; that is dropped if it is empty. */
  function Lines(pieces: seq<Bytes>): seq<Bytes>
    requires |pieces| > 0
  {
    if |pieces| > 1 then [pieces[0] + [NEWLINE]] + Lines(pieces[1..])
    else if pieces[0] == [] then []
    else pieces
  }

  /** _split_lines: lines keep their newline; the last may lack one. */
  function SplitLines(data: Bytes): seq<Bytes> {
    Lines(Split(data, NEWLINE))
  }

  function Join(lines: seq<Bytes>): Bytes {
    if lines == [] then [] else lines[0] + Join(lines[1..])
  }

  /** One line: not empty, and a newline at most at the end. */
  predicate IsLine(line: Bytes) {
    line != [] && NEWLINE !in line[..|line| - 1]
  }

  predicate EndsLine(line: Bytes) {
    line != [] && line[|line| - 1] == NEWLINE
  }

  /** Lines of a file: only the last may lack its newline. */
  ghost predicate FileLines(lines: seq<Bytes>) {
    (forall i :: 0 <= i < |lines| ==> IsLine(lines[i])) && (forall i :: 0 <= i < |lines| - 1 ==> EndsLine(lines[i]))
  }

  lemma {:induction false} JoinConcat(a: seq<Bytes>, b: seq<Bytes>)
    ensures Join(a + b) == Join(a) + Join(b)
  {
    hide Join;
    if a == [] {
      JoinNone();
      assert a + b == b && [] + Join(b) == Join(b);
    } else {
      var first, rest := a[0], a[1..];
      JoinConcat(rest, b);
      assert a == [first] + rest && a + b == [first] + (rest + b);
      JoinFirst(first, rest);
      JoinFirst(first, rest + b);
      assert first + (Join(rest) + Join(b)) == first + Join(rest) + Join(b);
    }
  }

  lemma JoinNone()
    ensures Join([]) == []
  {}

  lemma JoinFirst(first: Bytes, rest: seq<Bytes>)
    ensures Join([first] + rest) == first + Join(rest)
  {
    assert ([first] + rest)[1..] == rest;
  }

  lemma SplitEmpty()
    ensures SplitLines([]) == []
  {}

  lemma SplitNewline(data: Bytes)
    ensures SplitLines([NEWLINE] + data) == [[NEWLINE]] + SplitLines(data)
  {
    assert ([NEWLINE] + data)[1..] == data;
    var rest := Split(data, NEWLINE);
    assert ([[]] + rest)[1..] == rest;
    assert [] + [NEWLINE] == [NEWLINE];
  }

  /** Another byte joins the first line. */
  lemma SplitByte(b: Byte, data: Bytes)
    requires b != NEWLINE
    ensures data == [] ==> SplitLines([b] + data) == [[b]]
    ensures data != [] ==>
      |SplitLines(data)| > 0 && SplitLines([b] + data) == [[b] + SplitLines(data)[0]] + SplitLines(data)[1..]
  {
    assert ([b] + data)[1..] == data;
    var rest := Split(data, NEWLINE);
    var all := [[b] + rest[0]] + rest[1..];
    assert all[1..] == rest[1..];
    if |rest| > 1 {
      assert [b] + rest[0] + [NEWLINE] == [b] + (rest[0] + [NEWLINE]);
    } else if data == [] {
      assert rest == [[]];
      assert [b] + rest[0] == [b];
      assert all == [[b]];
    }
  }

  lemma LongerLine(b: Byte, line: Bytes)
    requires b != NEWLINE && IsLine(line)
    ensures IsLine([b] + line) && (EndsLine(line) ==> EndsLine([b] + line))
  {
    var first := [b] + line;
    assert first[..|first| - 1] == [b] + line[..|line| - 1];
  }

  /** The lines are the data, cut. */
  lemma {:induction false} JoinSplit(data: Bytes)
    ensures Join(SplitLines(data)) == data && FileLines(SplitLines(data))
  {
    hide SplitLines;
    if data == [] {
      SplitEmpty();
    } else {
      var b, rest := data[0], data[1..];
      assert data == [b] + rest;
      JoinSplit(rest);
      var lines := SplitLines(rest);
      if b == NEWLINE {
        SplitNewline(rest);
        assert ([[NEWLINE]] + lines)[1..] == lines;
        CutFirst([NEWLINE], lines);
      } else {
        SplitByte(b, rest);
        if rest == [] {
          SplitEmpty();
          CutFirst([b], lines);
        } else {
          LongerLine(b, lines[0]);
          var longer := [[b] + lines[0]] + lines[1..];
          assert longer[1..] == lines[1..];
          assert [b] + lines[0] + Join(lines[1..]) == [b] + (lines[0] + Join(lines[1..]));
        }
      }
    }
  }

  lemma CutFirst(line: Bytes, lines: seq<Bytes>)
    requires IsLine(line) && FileLines(lines) && (lines != [] ==> EndsLine(line))
    ensures FileLines([line] + lines) && Join([line] + lines) == line + Join(lines)
  {
    assert ([line] + lines)[1..] == lines;
  }

  lemma {:induction false} SplitOneLine(line: Bytes, rest: Bytes)
    requires IsLine(line) && EndsLine(line)
    ensures SplitLines(line + rest) == [line] + SplitLines(rest)
  {
    hide SplitLines;
    var b := line[0];
    assert line + rest == [b] + (line[1..] + rest);
    if |line| > 1 {
      TailLine(line);
      SplitOneLine(line[1..], rest);
      SplitByte(b, line[1..] + rest);
      var lines := SplitLines(line[1..] + rest);
      assert lines[1..] == SplitLines(rest);
      assert [b] + line[1..] == line;
    } else {
      assert line == [b] && line[1..] + rest == rest;
      SplitNewline(rest);
    }
  }

  lemma TailLine(line: Bytes)
    requires IsLine(line) && |line| > 1
    ensures line[0] != NEWLINE && IsLine(line[1..]) && (EndsLine(line) ==> EndsLine(line[1..]))
  {
    assert line[0] in line[..|line| - 1];
    assert line[1..][..|line| - 2] == line[1..|line| - 1];
  }

  lemma {:induction false} SplitLastLine(line: Bytes)
    requires IsLine(line)
    ensures SplitLines(line) == [line]
  {
    hide SplitLines;
    var b := line[0];
    assert line == [b] + line[1..];
    assert |line| > 0 && (|line| == 1 ==> line == [b]);
    if |line| > 1 {
      TailLine(line);
      SplitLastLine(line[1..]);
      SplitByte(b, line[1..]);
    } else if b == NEWLINE {
      SplitNewline([]);
      SplitEmpty();
      assert [NEWLINE] + [] == [NEWLINE] == line;
      assert [[NEWLINE]] + [] == [line];
    } else {
      SplitByte(b, []);
      assert [b] + [] == [b] == line;
    }
  }

  /** Lines of a file are found again in the joined bytes. */
  lemma {:induction false} SplitJoin(lines: seq<Bytes>)
    requires FileLines(lines)
    ensures SplitLines(Join(lines)) == lines
  {
    hide SplitLines, IsLine, EndsLine;
    if lines == [] {
      SplitEmpty();
    } else if |lines| == 1 {
      assert Join(lines) == lines[0] + Join([]) == lines[0];
      SplitLastLine(lines[0]);
    } else {
      assert FileLines(lines[1..]);
      SplitJoin(lines[1..]);
      SplitOneLine(lines[0], Join(lines[1..]));
    }
  }
}
