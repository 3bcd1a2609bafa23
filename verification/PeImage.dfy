/**
 The import tables of a PE image (scripts/pe_imports.py; "PE Format" specification, sections "Optional Header
 Data Directories (Image Only)", "The .idata Section" and "Delay-Load Import Tables (Image Only)"). Every read
 is inside the data, or the parser fails with one of its own errors.
 */
module PeImage {
  import opened Wrappers
  import opened ByteLines

  datatype PeError =
    | NoDosHeader | BadPeOffset | NoPeSignature | TooManySections | UnknownMagic | TruncatedOptionalHeader
    | TooManyDirectories | DirectoriesOverflow | TruncatedSectionTable | SectionOutsideFile
    | OutsideFile | InvalidAddress | Uninitialised | Unbacked
    | Unterminated | EmptyName | NotAscii | InvalidCharacter | NoTerminator | NoName | BelowImageBase

  const MAXIMUM_SECTIONS: nat := 96
  const MAXIMUM_DESCRIPTORS: nat := 4096
  const MAXIMUM_NAME_LENGTH: nat := 260
  const SECTION_HEADER_SIZE: nat := 40
  const IMPORT_DESCRIPTOR_SIZE: nat := 20
  const DELAY_DESCRIPTOR_SIZE: nat := 32
  const DIRECTORY_IMPORT: nat := 1
  const DIRECTORY_DELAY_IMPORT: nat := 13
  const MAGIC_PE32: nat := 0x10B
  const MAGIC_PE32_PLUS: nat := 0x20B

  // ----- little-endian fields -----

  /** The little-endian number in these bytes. */
  function Number(bytes: Bytes): nat {
    if bytes == [] then 0 else bytes[0] as nat + 256 * Number(bytes[1..])
  }

  /** _u16, _u32 and _u64. */
  function Field(data: Bytes, offset: int, size: nat): (r: Result<nat, PeError>)
    ensures r.Ok? <==> 0 <= offset && offset + size <= |data|
  {
    if offset < 0 || offset + size > |data| then Err(OutsideFile) else Ok(Number(data[offset..offset + size]))
  }

  // ----- the image -----

  datatype Section = Section(virtualAddress: nat, virtualSize: nat, rawPointer: nat, rawSize: nat)

  datatype Directory = Directory(rva: nat, size: nat)

  datatype Image = Image(
    data: Bytes, machine: nat, characteristics: nat, subsystem: nat, imageBase: nat, headersSize: nat,
    directories: seq<Directory>, sections: seq<Section>) {

    /** Initialised section data lies inside the file. */
    predicate Valid() {
      forall i :: 0 <= i < |sections| ==>
          sections[i].rawSize == 0 || sections[i].rawPointer + sections[i].rawSize <= |data|
    }

    /** The first section that covers an address. */
    function Covering(rva: int, n: nat): (i: nat)
      requires n <= |sections|
      ensures n <= i <= |sections| && (i < |sections| ==> Covers(sections[i], rva))
      ensures forall j :: n <= j < i ==> !Covers(sections[j], rva)
      decreases |sections| - n
    {
      if n == |sections| || Covers(sections[n], rva) then n else Covering(rva, n + 1)
    }

    /** file_offset: where `length` bytes at an address lie in the file. */
    function FileOffset(rva: int, length: int): (r: Result<nat, PeError>)
      requires Valid()
      ensures r.Ok? ==> length > 0 && r.value + length <= |data|
    {
      if rva < 0 || length <= 0 then Err(InvalidAddress) else
      var i := Covering(rva, 0);
      if i < |sections| then
        var offset := rva - sections[i].virtualAddress;
        if offset + length > sections[i].rawSize then Err(Uninitialised) else Ok(sections[i].rawPointer + offset)
      else if rva + length <= headersSize && rva + length <= |data| then Ok(rva)
      else Err(Unbacked)
    }

    /** c_string: the name at an address, terminated within the longest name allowed. */
    function CString(rva: int): (r: Result<Bytes, PeError>)
      requires Valid()
      ensures r.Ok? ==> GoodName(r.value)
    {
      var start :- FileOffset(rva, 1);
      var end := FindNul(data, start, start + MAXIMUM_NAME_LENGTH + 1);
      if end < 0 then Err(Unterminated) else
      var whole :- FileOffset(rva, end - start + 1);
      var name := data[start..end];
      if name == [] then Err(EmptyName)
      else if exists i :: 0 <= i < |name| && name[i] >= 128 then Err(NotAscii)
      else if exists i :: 0 <= i < |name| && Forbidden(name[i]) then Err(InvalidCharacter)
      else Ok(name)
    }

    function DirectoryAt(index: nat): Option<Directory> {
      if index >= |directories| || directories[index].rva == 0 then None else Some(directories[index])
    }

    /** The name that descriptor `index` of a table refers to; None for the terminating one. */
    function DescriptorName(delay: bool, table: nat, index: nat): (r: Result<Option<Bytes>, PeError>)
      requires Valid()
    {
      var size := if delay then DELAY_DESCRIPTOR_SIZE else IMPORT_DESCRIPTOR_SIZE;
      var offset :- FileOffset(table + index * size, size);
      var descriptor := data[offset..offset + size];
      if AllZero(descriptor) then Ok(None) else
      var address := Number(if delay then descriptor[4..8] else descriptor[12..16]);
      if address == 0 then Err(NoName)
      else if delay && descriptor[0] % 2 == 0 && address < imageBase then Err(BelowImageBase)
      else
        var name :- CString(if delay && descriptor[0] % 2 == 0 then address - imageBase else address);
        Ok(Some(name))
    }

    /** The names from descriptor `index` on, up to the terminating descriptor. */
    function NamesFrom(delay: bool, table: nat, index: nat): (r: Result<seq<Bytes>, PeError>)
      requires Valid() && index <= MAXIMUM_DESCRIPTORS
      decreases MAXIMUM_DESCRIPTORS - index
    {
      if index == MAXIMUM_DESCRIPTORS then Err(NoTerminator) else
      var name :- DescriptorName(delay, table, index);
      if name == None then Ok([]) else
      var rest :- NamesFrom(delay, table, index + 1);
      Ok([name.value] + rest)
    }

    /** _import_names and _delay_import_names. */
    function Names(delay: bool): Result<seq<Bytes>, PeError>
      requires Valid()
    {
      match DirectoryAt(if delay then DIRECTORY_DELAY_IMPORT else DIRECTORY_IMPORT)
      case None => Ok([])
      case Some(directory) => NamesFrom(delay, directory.rva, 0)
    }
  }

  predicate Covers(s: Section, rva: int) {
    s.virtualAddress <= rva < s.virtualAddress + if s.virtualSize < s.rawSize then s.rawSize else s.virtualSize
  }

  predicate AllZero(bytes: Bytes) { forall i :: 0 <= i < |bytes| ==> bytes[i] == 0 }

  /** Control characters and  \ / : * ? " < > |  */
  predicate Forbidden(b: Byte) { b < 0x20 || b in {92, 47, 58, 42, 63, 34, 60, 62, 124} }

  predicate GoodName(name: Bytes) {
    name != [] && |name| <= MAXIMUM_NAME_LENGTH && forall i :: 0 <= i < |name| ==> name[i] < 128 && !Forbidden(name[i])
  }

  /** bytes.find(b"\0", start, stop): the first NUL in the range, or -1. */
  function FindNul(data: Bytes, start: nat, stop: nat): (i: int)
    requires start <= |data|
    ensures i >= 0 ==> start <= i < stop && i < |data| && data[i] == 0
    ensures i >= 0 ==> forall j :: start <= j < i ==> data[j] != 0
    ensures i < 0 ==> forall j :: start <= j < stop && j < |data| ==> data[j] != 0
    decreases |data| - start
  {
    if start >= stop || start == |data| then -1
    else if data[start] == 0 then start
    else FindNul(data, start + 1, stop)
  }

  // ----- parsing -----

  function Directories(data: Bytes, offset: nat, n: nat): (r: Result<seq<Directory>, PeError>)
    ensures r.Ok? ==> |r.value| == n
  {
    if n == 0 then Ok([]) else
    var front :- Directories(data, offset, n - 1);
    var rva :- Field(data, offset + (n - 1) * 8, 4);
    var size :- Field(data, offset + (n - 1) * 8 + 4, 4);
    Ok(front + [Directory(rva, size)])
  }

  function SectionAt(data: Bytes, header: nat): (r: Result<Section, PeError>)
    ensures r.Ok? ==> r.value.rawSize == 0 || r.value.rawPointer + r.value.rawSize <= |data|
  {
    if header + SECTION_HEADER_SIZE > |data| then Err(TruncatedSectionTable) else
    var virtualSize := Field(data, header + 8, 4).value;
    var virtualAddress := Field(data, header + 12, 4).value;
    var rawSize := Field(data, header + 16, 4).value;
    var rawPointer := Field(data, header + 20, 4).value;
    if rawSize != 0 && rawPointer + rawSize > |data| then Err(SectionOutsideFile)
    else Ok(Section(virtualAddress, virtualSize, rawPointer, rawSize))
  }

  function Sections(data: Bytes, offset: nat, n: nat): (r: Result<seq<Section>, PeError>)
    ensures r.Ok? ==> |r.value| == n && forall i :: 0 <= i < n ==>
      r.value[i].rawSize == 0 || r.value[i].rawPointer + r.value[i].rawSize <= |data|
  {
    if n == 0 then Ok([]) else
    var front :- Sections(data, offset, n - 1);
    var section :- SectionAt(data, offset + (n - 1) * SECTION_HEADER_SIZE);
    Ok(front + [section])
  }

  /** _Image: on every byte string, an image whose section data lies inside the file, or an error. */
  function ParseImage(data: Bytes): (r: Result<Image, PeError>)
    ensures r.Ok? ==> r.value.Valid() && r.value.data == data
  {
    if |data| < 64 || data[..2] != [77, 90] then Err(NoDosHeader) else
    var pe := Field(data, 0x3C, 4).value;
    if pe < 64 || pe + 4 + 20 > |data| then Err(BadPeOffset)
    else if data[pe..pe + 4] != [80, 69, 0, 0] then Err(NoPeSignature) else
    var coff := pe + 4;
    var machine := Field(data, coff, 2).value;
    var sectionCount := Field(data, coff + 2, 2).value;
    var optionalSize := Field(data, coff + 16, 2).value;
    var characteristics := Field(data, coff + 18, 2).value;
    if sectionCount > MAXIMUM_SECTIONS then Err(TooManySections) else
    var optional := coff + 20;
    var magic :- Field(data, optional, 2);
    if magic != MAGIC_PE32 && magic != MAGIC_PE32_PLUS then Err(UnknownMagic) else
    var plus := magic == MAGIC_PE32_PLUS;
    var minimum := if plus then 112 else 96;
    if optionalSize < minimum || optional + optionalSize > |data| then Err(TruncatedOptionalHeader) else
    var imageBase := if plus then Field(data, optional + 24, 8).value else Field(data, optional + 28, 4).value;
    var subsystem := Field(data, optional + 68, 2).value;
    var headersSize := Field(data, optional + 60, 4).value;
    var count := Field(data, optional + minimum - 4, 4).value;
    if count > 16 then Err(TooManyDirectories)
    else if minimum + count * 8 > optionalSize then Err(DirectoriesOverflow) else
    var directories :- Directories(data, optional + minimum, count);
    var sections :- Sections(data, optional + optionalSize, sectionCount);
    Ok(Image(data, machine, characteristics, subsystem, imageBase, headersSize, directories, sections))
  }

  datatype PeImports = PeImports(image: Image, imports: set<Bytes>, delayImports: set<Bytes>)

  /** parse_pe_imports; the sorted tuples of distinct names are sets here. */
  function ParsePeImports(data: Bytes): Result<PeImports, PeError> {
    var image :- ParseImage(data);
    var imports :- image.Names(false);
    var delayImports :- image.Names(true);
    Ok(PeImports(image, set n | n in imports, set n | n in delayImports))
  }

  // ----- what a successful parse promises -----

  /** Every reported name is a valid DLL name. */
  lemma {:induction false} NamesAreGood(image: Image, delay: bool, table: nat, index: nat, name: Bytes)
    requires image.Valid() && index <= MAXIMUM_DESCRIPTORS && image.NamesFrom(delay, table, index).Ok?
      && name in image.NamesFrom(delay, table, index).value
    ensures GoodName(name)
    decreases MAXIMUM_DESCRIPTORS - index
  {
    hide Image.CString, Image.FileOffset, Image.Valid, GoodName, AllZero;
    var first := image.DescriptorName(delay, table, index).value;
    if first.Some? && name == first.value {
      DescriptorIsGood(image, delay, table, index);
    } else {
      NamesAreGood(image, delay, table, index + 1, name);
    }
  }

  lemma DescriptorIsGood(image: Image, delay: bool, table: nat, index: nat)
    requires image.Valid()
    ensures var r := image.DescriptorName(delay, table, index); r.Ok? && r.value.Some? ==> GoodName(r.value.value)
  {
    hide Image.CString, Image.FileOffset, Image.Valid, GoodName, AllZero;
  }

  /** So does the whole parser. */
  lemma ParsedNamesAreGood(data: Bytes)
    requires ParsePeImports(data).Ok?
    ensures forall n :: n in ParsePeImports(data).value.imports || n in ParsePeImports(data).value.delayImports ==>
      GoodName(n)
  {
    hide ParseImage, GoodName, Image.NamesFrom;
    var image := ParseImage(data).value;
    forall n | n in ParsePeImports(data).value.imports
      ensures GoodName(n)
    {
      NamesAreGood(image, false, image.DirectoryAt(DIRECTORY_IMPORT).value.rva, 0, n);
    }
    forall n | n in ParsePeImports(data).value.delayImports
      ensures GoodName(n)
    {
      NamesAreGood(image, true, image.DirectoryAt(DIRECTORY_DELAY_IMPORT).value.rva, 0, n);
    }
  }

  /** The descriptor loop of either table. */
  method ReadNames(image: Image, delay: bool) returns (r: Result<seq<Bytes>, PeError>)
    requires image.Valid()
    ensures r == image.Names(delay)
  {
    hide Image.DescriptorName, Image.Valid;
    var directory := image.DirectoryAt(if delay then DIRECTORY_DELAY_IMPORT else DIRECTORY_IMPORT);
    if directory == None { return Ok([]); }
    var names: seq<Bytes> := [];
    var index := 0;
    MoreOfNothing(image.NamesFrom(delay, directory.value.rva, 0));
    while index < MAXIMUM_DESCRIPTORS
      invariant 0 <= index <= MAXIMUM_DESCRIPTORS
      invariant image.Names(delay) == Behind(names, image.NamesFrom(delay, directory.value.rva, index))
    {
      var name := image.DescriptorName(delay, directory.value.rva, index);
      if name.Err? { return Err(name.error); }
      if name.value == None {
        assert names + [] == names;
        return Ok(names);
      }
      MoreNames(names, name.value.value, image.NamesFrom(delay, directory.value.rva, index + 1));
      names := names + [name.value.value];
      index := index + 1;
    }
    return Err(NoTerminator);
  }

  function Behind(names: seq<Bytes>, rest: Result<seq<Bytes>, PeError>): Result<seq<Bytes>, PeError> {
    if rest.Err? then rest else Ok(names + rest.value)
  }

  lemma MoreOfNothing(rest: Result<seq<Bytes>, PeError>)
    ensures Behind([], rest) == rest
  {
    if rest.Ok? {
      assert [] + rest.value == rest.value;
    }
  }

  lemma MoreNames(names: seq<Bytes>, name: Bytes, rest: Result<seq<Bytes>, PeError>)
    ensures rest.Ok? ==> names + ([name] + rest.value) == names + [name] + rest.value
  {}
}
