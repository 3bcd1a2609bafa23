/**
 Which bytes scripts/pe_imports.py accepts as a PE image, and what it reads from them: an exact condition on the bytes
 for every number of sections, with the tables and the names in any of them or in the headers.
 */
module PeTables {
  import opened Wrappers
  import opened ByteLines
  import opened PeImage

  // ----- fields -----

  /** The little-endian number of `size` bytes at an offset is v. */
  predicate At(data: Bytes, offset: int, size: nat, v: nat) {
    0 <= offset && offset + size <= |data| && Number(data[offset..offset + size]) == v
  }

  lemma FieldIff(data: Bytes, offset: int, size: nat, v: nat)
    ensures Field(data, offset, size) == Ok(v) <==> At(data, offset, size, v)
  {
    hide Number;
  }

  // ----- the section table and the directories -----

  /** The forty bytes at `header` are a section's: its four fields, and raw data inside the file if there is any. */
  predicate IsSection(data: Bytes, header: int, s: Section) {
    && 0 <= header && header + 40 <= |data|
    && At(data, header + 8, 4, s.virtualSize) && At(data, header + 12, 4, s.virtualAddress)
    && At(data, header + 16, 4, s.rawSize) && At(data, header + 20, 4, s.rawPointer)
    && (s.rawSize == 0 || s.rawPointer + s.rawSize <= |data|)
  }

  ghost predicate IsSectionTable(data: Bytes, offset: nat, sections: seq<Section>) {
    forall i :: 0 <= i < |sections| ==> IsSection(data, offset + 40 * i, sections[i])
  }

  predicate IsDirectory(data: Bytes, offset: int, d: Directory) {
    At(data, offset, 4, d.rva) && At(data, offset + 4, 4, d.size)
  }

  ghost predicate IsDirectoryTable(data: Bytes, offset: nat, directories: seq<Directory>) {
    forall i :: 0 <= i < |directories| ==> IsDirectory(data, offset + 8 * i, directories[i])
  }

  lemma SectionIff(data: Bytes, header: nat, s: Section)
    ensures SectionAt(data, header) == Ok(s) <==> IsSection(data, header, s)
  {
    hide Number;
  }

  /** Entry i of an accepted table is what stands 40 i bytes behind its start. */
  lemma {:induction false} SectionsIff(data: Bytes, offset: nat, sections: seq<Section>)
    ensures Sections(data, offset, |sections|) == Ok(sections) <==> IsSectionTable(data, offset, sections)
    decreases |sections|
  {
    hide SectionAt, IsSection;
    if sections != [] {
      var n := |sections| - 1;
      var front := sections[..n];
      SectionsIff(data, offset, front);
      SectionIff(data, offset + n * SECTION_HEADER_SIZE, sections[n]);
      assert sections == front + [sections[n]];
      assert forall i :: 0 <= i < n ==> sections[i] == front[i];
    }
  }

  lemma {:induction false} DirectoriesIff(data: Bytes, offset: nat, directories: seq<Directory>)
    ensures Directories(data, offset, |directories|) == Ok(directories)
      <==> IsDirectoryTable(data, offset, directories)
    decreases |directories|
  {
    hide Field, IsDirectory;
    if directories != [] {
      var n := |directories| - 1;
      var front := directories[..n];
      DirectoriesIff(data, offset, front);
      FieldIff(data, offset + n * 8, 4, directories[n].rva);
      FieldIff(data, offset + n * 8 + 4, 4, directories[n].size);
      DirectoryParts(data, offset + 8 * n, directories[n]);
      assert directories == front + [directories[n]];
      assert forall i :: 0 <= i < n ==> directories[i] == front[i];
    }
  }

  lemma DirectoryParts(data: Bytes, offset: int, d: Directory)
    ensures IsDirectory(data, offset, d) <==> At(data, offset, 4, d.rva) && At(data, offset + 4, 4, d.size)
  {}

  // ----- addresses -----

  /** The section's memory holds the address, by its virtual or by its raw size. */
  predicate Holds(s: Section, rva: int) {
    s.virtualAddress <= rva && (rva - s.virtualAddress < s.virtualSize || rva - s.virtualAddress < s.rawSize)
  }

  /** `length` bytes at an address are the raw data of the first section that holds it. */
  predicate InSection(image: Image, i: nat, rva: int, length: int, offset: int) {
    && i < |image.sections| && Holds(image.sections[i], rva)
    && (forall j :: 0 <= j < i ==> !Holds(image.sections[j], rva))
    && rva - image.sections[i].virtualAddress + length <= image.sections[i].rawSize
    && offset == image.sections[i].rawPointer + (rva - image.sections[i].virtualAddress)
  }

  /** Or they are part of the headers, and no section holds the address. */
  predicate InHeaders(image: Image, rva: int, length: int, offset: int) {
    && (forall j :: 0 <= j < |image.sections| ==> !Holds(image.sections[j], rva))
    && rva + length <= image.headersSize && rva + length <= |image.data| && offset == rva
  }

  ghost predicate LiesAt(image: Image, rva: int, length: int, offset: int) {
    0 <= rva && length > 0
    && (InHeaders(image, rva, length, offset) || exists i: nat :: InSection(image, i, rva, length, offset))
  }

  lemma OffsetIff(image: Image, rva: int, length: int, offset: nat)
    requires image.Valid()
    ensures image.FileOffset(rva, length) == Ok(offset) <==> LiesAt(image, rva, length, offset)
  {
    hide Image.Valid;
    var i := image.Covering(rva, 0);
    assert forall j :: 0 <= j < |image.sections| ==>
        (Covers(image.sections[j], rva) <==> Holds(image.sections[j], rva));
    hide Covers, Holds;
    if i < |image.sections| {
      assert InSection(image, i, rva, length, offset) <==>
          rva - image.sections[i].virtualAddress + length <= image.sections[i].rawSize
          && offset == image.sections[i].rawPointer + (rva - image.sections[i].virtualAddress);
    }
  }

  // ----- names -----

  const FORBIDDEN := "\\/:*?\"<>|"

  /** At most 260 printable ASCII characters, none of which is forbidden in a file name, and one at least. */
  predicate IsName(name: Bytes) {
    0 < |name| <= 260
    && forall i :: 0 <= i < |name| ==> 0x20 <= name[i] < 0x80 && (name[i] as char) !in FORBIDDEN
  }

  lemma ForbiddenIs(b: Byte)
    requires 0x20 <= b < 0x80
    ensures Forbidden(b) <==> (b as char) in FORBIDDEN
  {
    var f := FORBIDDEN;
    assert f[0] == 92 as char && f[1] == 47 as char && f[2] == 58 as char && f[3] == 42 as char && f[4] == 63 as char;
    assert f[5] == 34 as char && f[6] == 60 as char && f[7] == 62 as char && f[8] == 124 as char && |f| == 9;
  }

  lemma NameIff(name: Bytes)
    ensures GoodName(name) <==> IsName(name)
  {
    forall i | 0 <= i < |name| && 0x20 <= name[i] < 0x80
      ensures Forbidden(name[i]) <==> (name[i] as char) in FORBIDDEN
    {
      ForbiddenIs(name[i]);
    }
    forall i | 0 <= i < |name| && name[i] < 0x20
      ensures Forbidden(name[i])
    {}
    hide Forbidden;
  }

  /** The name and a NUL behind it lie at the address. */
  ghost predicate IsString(image: Image, rva: int, name: Bytes) {
    IsName(name) && exists offset: nat :: LiesAt(image, rva, |name| + 1, offset) && Spells(image.data, offset, name)
  }

  predicate Spells(data: Bytes, offset: nat, name: Bytes) {
    offset + |name| < |data| && data[offset..offset + |name|] == name && data[offset + |name|] == 0
  }

  lemma Inside(image: Image, rva: int, length: int, offset: nat)
    requires image.Valid() && LiesAt(image, rva, length, offset)
    ensures offset + length <= |image.data|
    ensures forall shorter :: 0 < shorter <= length ==> LiesAt(image, rva, shorter, offset)
  {
    OffsetIff(image, rva, length, offset);
    hide Image.FileOffset, Image.Valid, Holds;
    forall shorter | 0 < shorter <= length
      ensures LiesAt(image, rva, shorter, offset)
    {
      if i: nat :| InSection(image, i, rva, length, offset) {
        assert InSection(image, i, rva, shorter, offset);
      }
    }
  }

  lemma StringRead(image: Image, rva: int, name: Bytes, offset: nat)
    requires image.Valid() && IsName(name) && LiesAt(image, rva, |name| + 1, offset)
    requires Spells(image.data, offset, name)
    ensures image.CString(rva) == Ok(name)
  {
    hide LiesAt, GoodName, Image.Valid, Image.FileOffset, FindNul;
    NameIff(name);
    Inside(image, rva, |name| + 1, offset);
    OffsetIff(image, rva, 1, offset);
    OffsetIff(image, rva, |name| + 1, offset);
    NulAfter(image.data, offset, name);
    GoodParts(name);
  }

  lemma GoodParts(name: Bytes)
    requires GoodName(name)
    ensures name != []
    ensures forall i :: 0 <= i < |name| ==> name[i] < 128 && !Forbidden(name[i])
  {}

  lemma NulAfter(data: Bytes, start: nat, name: Bytes)
    requires Spells(data, start, name) && IsName(name)
    ensures FindNul(data, start, start + MAXIMUM_NAME_LENGTH + 1) == start + |name|
  {
    forall j | start <= j < start + |name|
      ensures data[j] != 0
    {
      assert data[j] == name[j - start];
    }
  }

  lemma StringWritten(image: Image, rva: int)
    requires image.Valid() && image.CString(rva).Ok?
    ensures IsString(image, rva, image.CString(rva).value)
  {
    hide LiesAt, Image.Valid, Image.FileOffset, FindNul, IsName;
    var name := image.CString(rva).value;
    NameIff(name);
    var start := image.FileOffset(rva, 1).value;
    var end := FindNul(image.data, start, start + MAXIMUM_NAME_LENGTH + 1);
    var whole := image.FileOffset(rva, end - start + 1).value;
    OffsetIff(image, rva, 1, start);
    OffsetIff(image, rva, end - start + 1, whole);
    Inside(image, rva, end - start + 1, whole);
    OffsetIff(image, rva, 1, whole);
    assert Spells(image.data, start, name);
  }

  /** A name is read at an address exactly when it stands there, terminated. */
  lemma StringIff(image: Image, rva: int, name: Bytes)
    requires image.Valid()
    ensures image.CString(rva) == Ok(name) <==> IsString(image, rva, name)
  {
    hide Image.CString, Image.Valid, LiesAt, IsName, Spells;
    if image.CString(rva) == Ok(name) {
      StringWritten(image, rva);
    }
    if IsString(image, rva, name) {
      var offset: nat :| LiesAt(image, rva, |name| + 1, offset) && Spells(image.data, offset, name);
      StringRead(image, rva, name, offset);
    }
  }

  // ----- tables -----

  function EntrySize(delay: bool): nat { if delay then 32 else 20 }

  /** A descriptor leads to a name: by an address, or in old delay tables by the address behind the image base. */
  ghost predicate LeadsTo(image: Image, delay: bool, d: Bytes, name: Bytes)
    requires |d| == EntrySize(delay)
  {
    var address := Number(if delay then d[4..8] else d[12..16]);
    (exists k :: 0 <= k < |d| && d[k] != 0) && address != 0
    && if delay && d[0] % 2 == 0 then address >= image.imageBase && IsString(image, address - image.imageBase, name)
      else IsString(image, address, name)
  }

  function EntryAddress(delay: bool, table: nat, i: nat): nat { table + i * EntrySize(delay) }

  /** The bytes of entry i of a table stand at an offset of the file. */
  ghost predicate EntryAt(image: Image, delay: bool, table: nat, i: nat, offset: nat) {
    LiesAt(image, EntryAddress(delay, table, i), EntrySize(delay), offset)
    && offset + EntrySize(delay) <= |image.data|
  }

  /** Entry i of a table leads to a name. */
  ghost predicate IsEntry(image: Image, delay: bool, table: nat, i: nat, name: Bytes) {
    exists offset: nat :: EntryAt(image, delay, table, i, offset)
      && LeadsTo(image, delay, image.data[offset..offset + EntrySize(delay)], name)
  }

  /** Entry i of a table is all zero. */
  ghost predicate IsEnd(image: Image, delay: bool, table: nat, i: nat) {
    exists offset: nat :: EntryAt(image, delay, table, i, offset)
      && forall k :: offset <= k < offset + EntrySize(delay) ==> image.data[k] == 0
  }

  lemma SameOffset(image: Image, rva: int, length: int, a: nat, b: nat)
    requires image.Valid() && LiesAt(image, rva, length, a) && LiesAt(image, rva, length, b)
    ensures a == b
  {
    hide LiesAt, Image.FileOffset, Image.Valid;
    OffsetIff(image, rva, length, a);
    OffsetIff(image, rva, length, b);
  }

  lemma SliceZero(data: Bytes, from: nat, to: nat)
    requires from <= to <= |data|
    ensures AllZero(data[from..to]) <==> forall k :: from <= k < to ==> data[k] == 0
  {
    if AllZero(data[from..to]) {
      forall k | from <= k < to
        ensures data[k] == 0
      {
        assert data[k] == data[from..to][k - from];
      }
    }
  }

  lemma DescriptorIff(image: Image, delay: bool, table: nat, i: nat, offset: nat, name: Bytes)
    requires image.Valid() && image.FileOffset(EntryAddress(delay, table, i), EntrySize(delay)) == Ok(offset)
    ensures offset + EntrySize(delay) <= |image.data|
    ensures var d := image.data[offset..offset + EntrySize(delay)];
        && (image.DescriptorName(delay, table, i) == Ok(Some(name)) <==> LeadsTo(image, delay, d, name))
        && (image.DescriptorName(delay, table, i) == Ok(None) <==> AllZero(d))
  {
    hide Image.Valid, Image.FileOffset, Image.CString, IsString, Number;
    var d := image.data[offset..offset + EntrySize(delay)];
    var address := Number(if delay then d[4..8] else d[12..16]);
    var rva := if delay && d[0] % 2 == 0 then address - image.imageBase else address;
    StringIff(image, rva, name);
  }

  lemma EntryIff(image: Image, delay: bool, table: nat, i: nat, name: Bytes)
    requires image.Valid()
    ensures image.DescriptorName(delay, table, i) == Ok(Some(name)) <==> IsEntry(image, delay, table, i, name)
    ensures image.DescriptorName(delay, table, i) == Ok(None) <==> IsEnd(image, delay, table, i)
  {
    hide Image.Valid, LiesAt, LeadsTo, AllZero, Image.FileOffset, Image.DescriptorName;
    var rva, size := EntryAddress(delay, table, i), EntrySize(delay);
    if image.FileOffset(rva, size).Ok? {
      var offset := image.FileOffset(rva, size).value;
      OffsetIff(image, rva, size, offset);
      assert EntryAt(image, delay, table, i, offset);
      DescriptorIff(image, delay, table, i, offset, name);
      SliceZero(image.data, offset, offset + size);
      forall other: nat | EntryAt(image, delay, table, i, other)
        ensures other == offset
      {
        SameOffset(image, rva, size, offset, other);
      }
    } else {
      NoDescriptor(image, delay, table, i);
      forall other: nat
        ensures !EntryAt(image, delay, table, i, other)
      {
        OffsetIff(image, rva, size, other);
      }
    }
  }

  lemma NoDescriptor(image: Image, delay: bool, table: nat, i: nat)
    requires image.Valid() && image.FileOffset(EntryAddress(delay, table, i), EntrySize(delay)).Err?
    ensures image.DescriptorName(delay, table, i).Err?
  {
    hide Image.Valid, Image.FileOffset, Image.CString, Number, AllZero;
  }

  /** The entries from `index` on lead to the names, and the entry behind them ends the table. */
  ghost predicate IsTable(image: Image, delay: bool, table: nat, index: nat, names: seq<Bytes>) {
    && index + |names| < 4096
    && (forall k :: 0 <= k < |names| ==> IsEntry(image, delay, table, index + k, names[k]))
    && IsEnd(image, delay, table, index + |names|)
  }

  lemma FirstEntry(image: Image, delay: bool, table: nat, index: nat, names: seq<Bytes>)
    requires names != []
    ensures IsTable(image, delay, table, index, names)
      <==> IsEntry(image, delay, table, index, names[0]) && IsTable(image, delay, table, index + 1, names[1..])
  {
    hide IsEntry, IsEnd;
    var rest := names[1..];
    if IsEntry(image, delay, table, index, names[0]) && IsTable(image, delay, table, index + 1, rest) {
      forall k | 0 <= k < |names|
        ensures IsEntry(image, delay, table, index + k, names[k])
      {
        if k > 0 {
          assert IsEntry(image, delay, table, index + 1 + (k - 1), rest[k - 1]);
        }
      }
    }
    if IsTable(image, delay, table, index, names) {
      forall k | 0 <= k < |rest|
        ensures IsEntry(image, delay, table, index + 1 + k, rest[k])
      {
        assert IsEntry(image, delay, table, index + (k + 1), names[k + 1]);
      }
    }
  }

  lemma FirstName(image: Image, delay: bool, table: nat, index: nat, names: seq<Bytes>)
    requires image.Valid() && index < MAXIMUM_DESCRIPTORS
    ensures image.NamesFrom(delay, table, index) == Ok([]) <==> image.DescriptorName(delay, table, index) == Ok(None)
    ensures names != [] ==>
      (image.NamesFrom(delay, table, index) == Ok(names) <==>
        image.DescriptorName(delay, table, index) == Ok(Some(names[0]))
        && image.NamesFrom(delay, table, index + 1) == Ok(names[1..]))
  {
    hide Image.Valid, Image.DescriptorName;
    if names != [] {
      assert names == [names[0]] + names[1..];
    }
    var first, rest := image.DescriptorName(delay, table, index), image.NamesFrom(delay, table, index + 1);
    if first.Ok? && first.value.Some? && rest.Ok? {
      assert ([first.value.value] + rest.value)[1..] == rest.value;
    }
  }

  lemma NoMoreNames(image: Image, delay: bool, table: nat)
    requires image.Valid()
    ensures image.NamesFrom(delay, table, MAXIMUM_DESCRIPTORS) == Err(NoTerminator)
  {}

  lemma NoEntry(image: Image, delay: bool, table: nat, index: nat, names: seq<Bytes>)
    requires index < MAXIMUM_DESCRIPTORS && names == []
    ensures IsTable(image, delay, table, index, names) <==> IsEnd(image, delay, table, index)
  {
    hide IsEntry, IsEnd;
  }

  /** A table is read as a list of names exactly when its entries lead to them. */
  lemma {:induction false} TableIff(image: Image, delay: bool, table: nat, index: nat, names: seq<Bytes>)
    requires image.Valid() && index <= MAXIMUM_DESCRIPTORS
    ensures image.NamesFrom(delay, table, index) == Ok(names) <==> IsTable(image, delay, table, index, names)
    decreases MAXIMUM_DESCRIPTORS - index
  {
    hide Image.Valid, Image.DescriptorName, Image.NamesFrom, IsEntry, IsEnd;
    if index == MAXIMUM_DESCRIPTORS {
      NoMoreNames(image, delay, table);
    } else {
      hide *;
      FirstName(image, delay, table, index, names);
      if names == [] {
        EntryIff(image, delay, table, index, []);
        NoEntry(image, delay, table, index, names);
      } else {
        EntryIff(image, delay, table, index, names[0]);
        TableIff(image, delay, table, index + 1, names[1..]);
        FirstEntry(image, delay, table, index, names);
      }
    }
  }

  /** A directory of the image, unless it is left out or its address is zero. */
  predicate HasDirectory(image: Image, index: nat) {
    index < |image.directories| && image.directories[index].rva != 0
  }

  /** The names of one of the two tables; no directory means no names. */
  ghost predicate Lists(image: Image, delay: bool, names: seq<Bytes>) {
    var index := if delay then 13 else 1;
    if HasDirectory(image, index) then IsTable(image, delay, image.directories[index].rva, 0, names) else names == []
  }

  lemma NamesIff(image: Image, delay: bool, names: seq<Bytes>)
    requires image.Valid()
    ensures image.Names(delay) == Ok(names) <==> Lists(image, delay, names)
  {
    hide Image.Valid, Image.NamesFrom, IsTable;
    var index := if delay then 13 else 1;
    if HasDirectory(image, index) {
      TableIff(image, delay, image.directories[index].rva, 0, names);
    }
  }

  // ----- headers -----

  /** The MZ header, the PE signature and the COFF header, at the offsets of the format. */
  predicate IsCoff(data: Bytes, pe: nat, optionalSize: nat, image: Image) {
    && |data| >= 64 && data[0] as char == 'M' && data[1] as char == 'Z' && At(data, 60, 4, pe)
    && 64 <= pe && pe + 24 <= |data|
    && data[pe] as char == 'P' && data[pe + 1] as char == 'E' && data[pe + 2] == 0 && data[pe + 3] == 0
    && At(data, pe + 4, 2, image.machine) && At(data, pe + 6, 2, |image.sections|) && |image.sections| <= 96
    && At(data, pe + 20, 2, optionalSize) && At(data, pe + 22, 2, image.characteristics)
  }

  /** The optional header of PE32 or PE32+, long enough for its directories. */
  predicate IsOptional(data: Bytes, at: int, plus: bool, optionalSize: nat, image: Image) {
    && At(data, at, 2, if plus then 0x20B else 0x10B) && at + optionalSize <= |data|
    && (if plus then At(data, at + 24, 8, image.imageBase) else At(data, at + 28, 4, image.imageBase))
    && At(data, at + 60, 4, image.headersSize) && At(data, at + 68, 2, image.subsystem)
    && At(data, at + if plus then 108 else 92, 4, |image.directories|) && |image.directories| <= 16
    && (if plus then 112 else 96) + 8 * |image.directories| <= optionalSize
  }

  /** The bytes are a PE image with these headers, directories and sections. */
  ghost predicate IsImage(data: Bytes, image: Image) {
    image.data == data
    && exists pe: nat, plus: bool, optionalSize: nat :: IsImageAt(data, pe, plus, optionalSize, image)
  }

  ghost predicate IsImageAt(data: Bytes, pe: nat, plus: bool, optionalSize: nat, image: Image) {
    && IsCoff(data, pe, optionalSize, image) && IsOptional(data, pe + 24, plus, optionalSize, image)
    && IsDirectoryTable(data, pe + 24 + if plus then 112 else 96, image.directories)
    && IsSectionTable(data, pe + 24 + optionalSize, image.sections)
  }

  lemma Signatures(data: Bytes, pe: nat)
    requires |data| >= 64 && pe + 4 <= |data|
    ensures data[..2] == [77, 90] <==> data[0] as char == 'M' && data[1] as char == 'Z'
    ensures data[pe..pe + 4] == [80, 69, 0, 0]
      <==> data[pe] as char == 'P' && data[pe + 1] as char == 'E' && data[pe + 2] == 0 && data[pe + 3] == 0
  {
    assert 'M' == 77 as char && 'Z' == 90 as char && 'P' == 80 as char && 'E' == 69 as char;
    assert data[..2] == [77, 90] <==> data[0] == 77 && data[1] == 90;
    var s := data[pe..pe + 4];
    assert s[0] == data[pe] && s[1] == data[pe + 1] && s[2] == data[pe + 2] && s[3] == data[pe + 3];
    assert s == [80, 69, 0, 0] <==> s[0] == 80 && s[1] == 69 && s[2] == 0 && s[3] == 0;
  }

  lemma ImageRead(data: Bytes, pe: nat, plus: bool, optionalSize: nat, image: Image)
    requires image.data == data && IsImageAt(data, pe, plus, optionalSize, image)
    ensures ParseImage(data) == Ok(image)
  {
    hide Number, Directories, Sections, IsDirectoryTable, IsSectionTable, Field, At, IsCoff, IsOptional;
    CoffFields(data, pe, optionalSize, image);
    OptionalFields(data, pe + 24, plus, optionalSize, image);
    DirectoriesIff(data, pe + 24 + if plus then 112 else 96, image.directories);
    SectionsIff(data, pe + 24 + optionalSize, image.sections);
  }

  lemma CoffFields(data: Bytes, pe: nat, optionalSize: nat, image: Image)
    requires IsCoff(data, pe, optionalSize, image)
    ensures |data| >= 64 && data[..2] == [77, 90] && Field(data, 0x3C, 4) == Ok(pe)
    ensures 64 <= pe && pe + 24 <= |data| && data[pe..pe + 4] == [80, 69, 0, 0] && |image.sections| <= 96
    ensures Field(data, pe + 4, 2) == Ok(image.machine) && Field(data, pe + 6, 2) == Ok(|image.sections|)
    ensures Field(data, pe + 20, 2) == Ok(optionalSize) && Field(data, pe + 22, 2) == Ok(image.characteristics)
  {
    hide Number;
    Signatures(data, pe);
  }

  lemma OptionalFields(data: Bytes, at: nat, plus: bool, optionalSize: nat, image: Image)
    requires IsOptional(data, at, plus, optionalSize, image)
    ensures Field(data, at, 2) == Ok(if plus then 0x20B else 0x10B) && at + optionalSize <= |data|
    ensures if plus then Field(data, at + 24, 8) == Ok(image.imageBase)
      else Field(data, at + 28, 4) == Ok(image.imageBase)
    ensures Field(data, at + 60, 4) == Ok(image.headersSize) && Field(data, at + 68, 2) == Ok(image.subsystem)
    ensures Field(data, at + if plus then 108 else 92, 4) == Ok(|image.directories|) && |image.directories| <= 16
    ensures (if plus then 112 else 96) + 8 * |image.directories| <= optionalSize
  {
    hide Number;
  }

  lemma ImageWritten(data: Bytes)
    requires ParseImage(data).Ok?
    ensures IsImage(data, ParseImage(data).value)
  {
    hide Number, Directories, Sections, IsDirectoryTable, IsSectionTable;
    var image := ParseImage(data).value;
    var pe := Field(data, 0x3C, 4).value;
    var optionalSize := Field(data, pe + 20, 2).value;
    var plus := Field(data, pe + 24, 2).value == MAGIC_PE32_PLUS;
    Signatures(data, pe);
    DirectoriesIff(data, pe + 24 + if plus then 112 else 96, image.directories);
    SectionsIff(data, pe + 24 + optionalSize, image.sections);
    assert IsImageAt(data, pe, plus, optionalSize, image);
  }

  /** Exactly the bytes with such headers are read as an image. */
  lemma ImageIff(data: Bytes, image: Image)
    ensures ParseImage(data) == Ok(image) <==> IsImage(data, image)
  {
    hide ParseImage, IsImageAt;
    if ParseImage(data) == Ok(image) {
      ImageWritten(data);
    }
    if IsImage(data, image) {
      var pe: nat, plus: bool, optionalSize: nat :| IsImageAt(data, pe, plus, optionalSize, image);
      ImageRead(data, pe, plus, optionalSize, image);
    }
  }

  /** The bytes are read exactly when they are an image, and both tables list the reported names. */
  ghost predicate IsReport(data: Bytes, report: PeImports) {
    IsImage(data, report.image) && exists imports, delayed ::
      Lists(report.image, false, imports) && Lists(report.image, true, delayed)
      && report.imports == (set n | n in imports) && report.delayImports == (set n | n in delayed)
  }

  lemma ReportIff(data: Bytes, report: PeImports)
    ensures ParsePeImports(data) == Ok(report) <==> IsReport(data, report)
  {
    hide ParseImage, IsImage, Image.Names, Lists, Image.Valid;
    ImageIff(data, report.image);
    if ParsePeImports(data) == Ok(report) {
      var image := report.image;
      var imports, delayed := image.Names(false).value, image.Names(true).value;
      NamesIff(image, false, imports);
      NamesIff(image, true, delayed);
    }
    if IsReport(data, report) {
      var imports, delayed :| Lists(report.image, false, imports) && Lists(report.image, true, delayed)
        && report.imports == (set n | n in imports) && report.delayImports == (set n | n in delayed);
      NamesIff(report.image, false, imports);
      NamesIff(report.image, true, delayed);
    }
  }
}
