/**
 apply_patch of scripts/build_sep_wheel.py: nothing is written unless every file of the patch applies. Two
 spellings of one path, such as a/b and ./a//b, name the same file.
 */
module PatchTree {
  import opened Wrappers
  import opened ByteLines
  import opened PatchApply
  import opened PatchParse
  import PatchPrint
  import PatchSound

  /** Where a file is below the source root: the names on the way to it. */
  type Location = seq<Bytes>

  /** The pieces between slashes that lead somewhere. */
  function Components(pieces: seq<Bytes>): Location {
    if pieces == [] then [] else Lead(pieces[0]) + Components(pieces[1..])
  }

  /** An empty piece and a dot lead nowhere. */
  function Lead(piece: Bytes): Location {
    if piece == [] || piece == [DOT] then [] else [piece]
  }

  /** The file that a path names. */
  function Target(path: Bytes): Location {
    Components(Split(path, SLASH))
  }

  datatype TreeError = Unparsable(parse: ParseError) | Missing(path: Bytes) | Unappliable(path: Bytes,
      apply: ApplyError)

  /** The new contents of all patched files, computed from the contents before; later entries win. */
  function PatchAll(files: map<Location, Bytes>, patches: seq<FilePatch>): Result<seq<(Location, Bytes)>, TreeError> {
    if patches == [] then Ok([]) else
    var patch, target := patches[0], Target(patches[0].path);
    if target !in files then Err(Missing(patch.path)) else
    match Patched(files[target], patch)
    case Err(error) => Err(Unappliable(patch.path, error))
    case Ok(content) =>
      match PatchAll(files, patches[1..])
      case Err(error) => Err(error)
      case Ok(rest) => Ok([(target, content)] + rest)
  }

  function WriteAll(files: map<Location, Bytes>, contents: seq<(Location, Bytes)>): map<Location, Bytes>
    decreases |contents|
  {
    if contents == [] then files else WriteAll(files[contents[0].0 := contents[0].1], contents[1..])
  }

  function AndThen(done: seq<(Location, Bytes)>, rest: Result<seq<(Location, Bytes)>, TreeError>): Result<seq<(Location,
                   Bytes)>, TreeError> {
    match rest case Ok(more) => Ok(done + more) case Err(error) => Err(error)
  }

  /** The regular files below the source root. */
  class SourceTree {
    var files: map<Location, Bytes>

    constructor (files: map<Location, Bytes>)
      ensures this.files == files
    {
      this.files := files;
    }

    /** An error leaves the tree as it was; otherwise exactly the patched files change. */
    method ApplyPatch(text: Bytes) returns (r: Result<(), TreeError>)
      modifies this
      ensures r.Err? ==> files == old(files)
      ensures Parsed(text).Err? ==> r == Err(Unparsable(Parsed(text).error))
      ensures Parsed(text).Ok? ==>
        match PatchAll(old(files), Parsed(text).value)
        case Err(error) => r == Err(error)
        case Ok(contents) => r == Ok(()) && files == WriteAll(old(files), contents)
    {
      var parsed := ParsePatch(text);
      if parsed.Err? { return Err(Unparsable(parsed.error)); }
      var patches := parsed.value;
      var patched: seq<(Location, Bytes)> := [];
      assert patches[0..] == patches;
      EmptyDone(PatchAll(files, patches));
      for i := 0 to |patches|
        invariant files == old(files)
        invariant AndThen(patched, PatchAll(files, patches[i..])) == PatchAll(files, patches)
      {
        var patch, target := patches[i], Target(patches[i].path);
        NextFile(files, patches[i..], patched);
        assert patches[i..][0] == patch && patches[i..][1..] == patches[i + 1..];
        if target !in files { return Err(Missing(patch.path)); }
        var content := ApplyFilePatch(files[target], patch);
        if content.Err? { return Err(Unappliable(patch.path, content.error)); }
        patched := patched + [(target, content.value)];
      }
      assert patches[|patches|..] == [];
      assert patched + [] == patched;
      assert patched[0..] == patched;
      for i := 0 to |patched|
        invariant WriteAll(files, patched[i..]) == WriteAll(old(files), patched)
      {
        assert patched[i..][0] == patched[i] && patched[i..][1..] == patched[i + 1..];
        files := files[patched[i].0 := patched[i].1];
      }
      assert patched[|patched|..] == [];
      return Ok(());
    }
  }

  lemma EmptyDone(r: Result<seq<(Location, Bytes)>, TreeError>)
    ensures AndThen([], r) == r
  {
    if r.Ok? {
      assert [] + r.value == r.value;
    }
  }

  lemma NextFile(files: map<Location, Bytes>, patches: seq<FilePatch>, done: seq<(Location, Bytes)>)
    requires patches != []
    ensures var patch, target := patches[0], Target(patches[0].path);
      if target !in files then PatchAll(files, patches) == Err(Missing(patch.path))
      else match Patched(files[target], patch)
        case Err(error) => PatchAll(files, patches) == Err(Unappliable(patch.path, error))
        case Ok(content) =>
          AndThen(done, PatchAll(files, patches)) == AndThen(done + [(target, content)], PatchAll(files, patches[1..]))
  {
    hide Patched, Target;
    var patch, target, rest := patches[0], Target(patches[0].path), PatchAll(files, patches[1..]);
    if target in files && Patched(files[target], patch).Ok? && rest.Ok? {
      var entry := (target, Patched(files[target], patch).value);
      assert done + ([entry] + rest.value) == done + [entry] + rest.value;
    }
  }

  /** The files a patch names, however it spells them. */
  predicate Names(patches: seq<FilePatch>, target: Location) {
    exists k :: 0 <= k < |patches| && Target(patches[k].path) == target
  }

  /**
   Files the patch does not name keep their bytes; a named file becomes what its last file patch makes of the bytes
   before.
   */
  lemma {:induction false} FilesAfter(
      before: map<Location, Bytes>, files: map<Location, Bytes>, patches: seq<FilePatch>, target: Location)
    requires PatchAll(before, patches).Ok?
    ensures var after := WriteAll(files, PatchAll(before, patches).value);
      && (!Names(patches, target) ==>
            (target in after <==> target in files) && (target in files ==> after[target] == files[target]))
      && (forall k :: 0 <= k < |patches| && Target(patches[k].path) == target && !Names(patches[k + 1..], target) ==>
            target in before && target in after && Patched(before[target], patches[k]) == Ok(after[target]))
    decreases |patches|
  {
    hide Patched, Target;
    if patches != [] {
      var contents, rest := PatchAll(before, patches).value, patches[1..];
      var next := files[contents[0].0 := contents[0].1];
      assert contents[1..] == PatchAll(before, rest).value;
      FilesAfter(before, next, rest, target);
      NamesRest(patches, target);
      var after := WriteAll(files, contents);
      forall k | 0 <= k < |patches| && Target(patches[k].path) == target && !Names(patches[k + 1..], target)
        ensures target in before && target in after && Patched(before[target], patches[k]) == Ok(after[target])
      {
        if k > 0 {
          assert rest[k - 1] == patches[k] && rest[k..] == patches[k + 1..];
        } else {
          assert patches[1..] == rest;
        }
      }
    }
  }

  lemma NamesRest(patches: seq<FilePatch>, target: Location)
    requires patches != []
    ensures Names(patches, target) <==> Target(patches[0].path) == target || Names(patches[1..], target)
  {
    hide Target;
    if Names(patches, target) && Target(patches[0].path) != target {
      var k :| 0 <= k < |patches| && Target(patches[k].path) == target;
      assert patches[1..][k - 1] == patches[k];
    } else if Names(patches[1..], target) {
      var k :| 0 <= k < |patches[1..]| && Target(patches[1..][k].path) == target;
      assert patches[k + 1] == patches[1..][k];
    }
  }

  /** The files of a tree do not come and go. */
  lemma {:induction false} SameFiles(before: map<Location, Bytes>, files: map<Location, Bytes>, patches: seq<FilePatch>)
    requires PatchAll(before, patches).Ok? && before.Keys == files.Keys
    ensures WriteAll(files, PatchAll(before, patches).value).Keys == files.Keys
    decreases |patches|
  {
    hide Patched, Target;
    if patches != [] {
      var contents := PatchAll(before, patches).value;
      var next := files[contents[0].0 := contents[0].1];
      assert contents[1..] == PatchAll(before, patches[1..]).value;
      assert next.Keys == files.Keys;
      SameFiles(before, next, patches[1..]);
    }
  }

  // ----- spellings -----

  lemma SplitSlash(rest: Bytes)
    ensures Split([SLASH] + rest, SLASH) == [[]] + Split(rest, SLASH)
  {
    assert ([SLASH] + rest)[1..] == rest;
  }

  lemma SplitOther(b: Byte, rest: Bytes)
    requires b != SLASH
    ensures Split([b] + rest, SLASH) == [[b] + Split(rest, SLASH)[0]] + Split(rest, SLASH)[1..]
  {
    assert ([b] + rest)[1..] == rest;
  }

  /** One more byte in front. */
  lemma SplitStep(first: Byte, rest: Bytes, all: Bytes, back: seq<Bytes>)
    requires Split(all, SLASH) == Split(rest, SLASH) + back
    ensures Split([first] + all, SLASH) == Split([first] + rest, SLASH) + back
  {
    hide Split;
    var front := Split(rest, SLASH);
    if first == SLASH {
      SplitSlash(rest);
      SplitSlash(all);
      assert [[]] + (front + back) == [[]] + front + back;
    } else {
      SplitOther(first, rest);
      SplitOther(first, all);
      assert (front + back)[1..] == front[1..] + back;
    }
  }

  lemma {:induction false} SplitConcat(a: Bytes, b: Bytes)
    ensures Split(a + [SLASH] + b, SLASH) == Split(a, SLASH) + Split(b, SLASH)
  {
    hide Split;
    if a == [] {
      SplitSlash(b);
      SplitNothing();
      assert a + [SLASH] + b == [SLASH] + b;
    } else {
      var first, rest := a[0], a[1..];
      SplitConcat(rest, b);
      SplitStep(first, rest, rest + [SLASH] + b, Split(b, SLASH));
      assert a + [SLASH] + b == [first] + (rest + [SLASH] + b) && a == [first] + rest;
    }
  }

  lemma SplitNothing()
    ensures Split([], SLASH) == [[]]
  {}

  lemma {:induction false} ComponentsConcat(a: seq<Bytes>, b: seq<Bytes>)
    ensures Components(a + b) == Components(a) + Components(b)
  {
    hide Lead, Components;
    if a == [] {
      NoComponents();
      assert a + b == b && [] + Components(b) == Components(b);
    } else {
      var first, rest := a[0], a[1..];
      ComponentsConcat(rest, b);
      assert a == [first] + rest && a + b == [first] + (rest + b);
      FirstComponent(first, rest);
      FirstComponent(first, rest + b);
      assert Lead(first) + (Components(rest) + Components(b)) == Lead(first) + Components(rest) + Components(b);
    }
  }

  lemma NoComponents()
    ensures Components([]) == []
  {}

  lemma FirstComponent(first: Bytes, rest: seq<Bytes>)
    ensures Components([first] + rest) == Lead(first) + Components(rest)
  {
    assert ([first] + rest)[1..] == rest;
  }

  lemma StayingPieces()
    ensures Target([]) == [] && Target([DOT]) == []
  {
    var none: seq<Bytes> := [[]];
    var dot: seq<Bytes> := [[DOT]];
    assert Split([], SLASH) == none;
    SplitOther(DOT, []);
    assert [DOT] + [] == [DOT];
    assert Split([DOT], SLASH) == dot;
    assert none[1..] == [] && dot[1..] == [];
    assert Components(none) == Components(none[1..]) && Components(dot) == Components(dot[1..]);
  }

  /** A path leads through its parts. */
  lemma TargetConcat(a: Bytes, b: Bytes)
    ensures Target(a + [SLASH] + b) == Target(a) + Target(b)
  {
    SplitConcat(a, b);
    hide Split, Components;
    ComponentsConcat(Split(a, SLASH), Split(b, SLASH));
  }

  /** One slash more, or a step to the same directory, does not change the file. */
  lemma SameTarget(a: Bytes, b: Bytes)
    ensures Target(a + [SLASH] + ([SLASH] + b)) == Target(a + [SLASH] + b)
    ensures Target([DOT] + [SLASH] + b) == Target(b)
  {
    hide Target;
    StayingPieces();
    TargetConcat(a, b);
    TargetConcat([DOT], b);
    assert [] + [SLASH] + b == [SLASH] + b;
    TargetConcat([], b);
    TargetConcat(a, [SLASH] + b);
    assert [] + Target(b) == Target(b);
  }

  lemma {:induction false} ComponentsIn(pieces: seq<Bytes>, part: Bytes)
    ensures part in Components(pieces) <==> part in pieces && part != [] && part != [DOT]
  {
    if pieces != [] {
      ComponentsIn(pieces[1..], part);
      assert pieces == [pieces[0]] + pieces[1..];
    }
  }

  /** No file of a parsed patch is reached by a step to a parent directory. */
  lemma TargetsStayBelow(text: Bytes, k: nat)
    requires Parsed(text).Ok? && k < |Parsed(text).value|
    ensures [DOT, DOT] !in Target(Parsed(text).value[k].path)
  {
    hide Parsed, Split, Components, PatchPrint.GoodHunk;
    PatchSound.ParsedIsGood(text);
    var path := Parsed(text).value[k].path;
    assert PatchPrint.GoodPath(path);
    ComponentsIn(Split(path, SLASH), [DOT, DOT]);
  }
}
