/**
 PE32 and PE32+ images written from lists of imported and delay-loaded DLL names, and the proof that the import parser
 returns exactly these lists. The image has one section at address 4096: the import descriptors and the terminating
 one, the delay-load descriptors and the terminating one, the imported names, the delay-loaded names.
 */
module PeRoundTrip {
  import opened Wrappers
  import opened ByteLines
  import opened PeImage

  const HEADER_SIZE: nat := 352
  const SECTION_ADDRESS: nat := 4096
  const IMAGE_BASE: nat := 0x400000
  const DIRECTORY_COUNT: nat := 14

  /** Byte k of a 32-bit number. */
  function Byte32(v: nat, k: nat): Byte
    requires k < 4
  {
    (if k == 0 then v % 256
     else if k == 1 then v / 256 % 256
     else if k == 2 then v / 65536 % 256
     else v / 16777216 % 256) as Byte
  }

  predicate In(i: nat, field: nat) { field <= i < field + 4 }

  /** The optional header of PE32+ is 16 bytes longer in front of the directories. */
  function Extra(plus: bool): nat { if plus then 16 else 0 }

  /** The headers of an image with `size` bytes of section data and a delay-load table at an address. */
  function HeaderByte(plus: bool, i: nat, size: nat, delayTable: nat): Byte {
    if i == 0 then 77 else if i == 1 then 90                                // MZ
    else if In(i, 60) then Byte32(64, i - 60)                               // e_lfanew
    else if i == 64 then 80 else if i == 65 then 69                         // PE
    else if i == 68 then (if plus then 0x64 else 0x4C)                      // machine AMD64 or i386
    else if i == 69 then (if plus then 0x86 else 0x01)
    else if i == 70 then 1                                                  // one section
    else if i == 84 then (if plus then 224 else 208)                        // optional header size
    else if i == 88 then 0x0B else if i == 89 then (if plus then 0x02 else 0x01)
    else if In(i, if plus then 112 else 116) then Byte32(IMAGE_BASE, i - if plus then 112 else 116)
    else if In(i, 148) then Byte32(HEADER_SIZE, i - 148)
    else if i == 156 then 3                                                 // console subsystem
    else if i < 180 + Extra(plus) then 0
    else TableByte(i - 180 - Extra(plus), size, delayTable)
  }

  /** From the number of directories on: the directories and the section header. */
  function TableByte(i: nat, size: nat, delayTable: nat): Byte {
    if i == 0 then 14
    else if In(i, 12) then Byte32(SECTION_ADDRESS, i - 12) else if In(i, 16) then Byte32(size, i - 16)
    else if In(i, 108) then Byte32(delayTable, i - 108) else if In(i, 112) then Byte32(size, i - 112)
    else if In(i, 124) then Byte32(size, i - 124)                           // virtual size, address,
    else if In(i, 128) then Byte32(SECTION_ADDRESS, i - 128)
    else if In(i, 132) then Byte32(size, i - 132)                           // raw size and pointer
    else if In(i, 136) then Byte32(HEADER_SIZE, i - 136)
    else 0
  }

  function Zeros(n: nat): (z: Bytes)
    ensures |z| == n && forall i :: 0 <= i < n ==> z[i] == 0
  {
    seq(n, i => 0 as Byte)
  }

  /** Imported or delay-loaded names; the latter by addresses in the image or, as in older images, in memory. */
  datatype Style = Import | Delay(relative: bool) {

    function Size(): nat { if Import? then IMPORT_DESCRIPTOR_SIZE else DELAY_DESCRIPTOR_SIZE }

    /** Where descriptor i of a table starts. */
    function Start(i: nat): nat { if Import? then IMPORT_DESCRIPTOR_SIZE * i else DELAY_DESCRIPTOR_SIZE * i }

    function NameAddress(address: nat): nat { if Delay? && !relative then address + IMAGE_BASE else address }

    function Descriptor(address: nat): (d: Bytes)
      ensures |d| == Size()
    {
      if Import? then Zeros(12) + Word(address) + Zeros(4)
      else [if relative then 1 else 0] + Zeros(3) + Word(NameAddress(address)) + Zeros(24)
    }
  }

  function Word(v: nat): (w: Bytes)
    ensures |w| == 4
  {
    [Byte32(v, 0), Byte32(v, 1), Byte32(v, 2), Byte32(v, 3)]
  }

  function Descriptors(style: Style, names: seq<Bytes>, address: nat): (d: Bytes)
    ensures |d| == style.Start(|names|)
  {
    if names == [] then []
    else style.Descriptor(address) + Descriptors(style, names[1..], address + |names[0]| + 1)
  }

  /** The names, each with its NUL. */
  function Strings(names: seq<Bytes>): Bytes {
    if names == [] then [] else names[0] + [0] + Strings(names[1..])
  }

  /** The descriptors and the terminating one. */
  function Table(style: Style, names: seq<Bytes>, address: nat): (t: Bytes)
    ensures |t| == TableSize(style, names)
  {
    Descriptors(style, names, address) + Zeros(style.Size())
  }

  function TableSize(style: Style, names: seq<Bytes>): nat { style.Start(|names| + 1) }

  /** What is to be written. */
  datatype Source = Source(plus: bool, style: Style, imports: seq<Bytes>, delayed: seq<Bytes>) {

    /** Where the delay-load table, the imported names and the delay-loaded names start in the section. */
    function DelayTable(): nat { TableSize(Import, imports) }

    function ImportNames(): nat { DelayTable() + TableSize(style, delayed) }

    function DelayNames(): nat { ImportNames() + |Strings(imports)| }

    function Body(): Bytes {
      Table(Import, imports, SECTION_ADDRESS + ImportNames()) + Table(style, delayed, SECTION_ADDRESS + DelayNames())
        + Strings(imports) + Strings(delayed)
    }

    function Written(): Bytes {
      var size := |Body()|;
      seq(HEADER_SIZE, i requires 0 <= i < HEADER_SIZE => HeaderByte(plus, i, size, SECTION_ADDRESS + DelayTable()))
        + Body()
    }

    /** Valid DLL names, fewer than the parser's limit, in an image whose addresses fit 32 bits. */
    ghost predicate Writable() {
      && style.Delay? && |imports| < MAXIMUM_DESCRIPTORS && |delayed| < MAXIMUM_DESCRIPTORS
      && (forall i :: 0 <= i < |imports| ==> GoodName(imports[i]))
      && (forall i :: 0 <= i < |delayed| ==> GoodName(delayed[i]))
      && IMAGE_BASE + SECTION_ADDRESS + |Body()| < 0x1_0000_0000
    }

    /** The directories: all empty but the two tables. */
    function Directories(n: nat): seq<Directory> {
      seq(n, i => if i == DIRECTORY_IMPORT then Directory(SECTION_ADDRESS, |Body()|)
                  else if i == DIRECTORY_DELAY_IMPORT then Directory(SECTION_ADDRESS + DelayTable(), |Body()|)
                  else Directory(0, 0))
    }

    /** The image that the parser reads back. */
    function Expected(): Image {
      Image(Written(), if plus then 0x8664 else 0x14C, 0, 3, IMAGE_BASE, HEADER_SIZE, Directories(DIRECTORY_COUNT),
            [Section(SECTION_ADDRESS, |Body()|, HEADER_SIZE, |Body()|)])
    }
  }

  // ----- numbers -----

  lemma Number1(b: Bytes)
    requires |b| == 1
    ensures Number(b) == b[0] as nat
  {
    assert b[1..] == [];
  }

  lemma Number2(b: Bytes)
    requires |b| == 2
    ensures Number(b) == b[0] as nat + 256 * b[1] as nat
  {
    Number1(b[1..]);
  }

  lemma Number4(b: Bytes)
    requires |b| == 4
    ensures Number(b) == b[0] as nat + 256 * b[1] as nat + 65536 * b[2] as nat + 16777216 * b[3] as nat
  {
    Number2(b[2..]);
    assert b[1..][1..] == b[2..];
    assert Number(b[1..]) == b[1] as nat + 256 * Number(b[2..]);
  }

  lemma Assemble(v: nat)
    requires v < 0x1_0000_0000
    ensures Byte32(v, 0) as nat + 256 * Byte32(v, 1) as nat + 65536 * Byte32(v, 2) as nat
      + 16777216 * Byte32(v, 3) as nat == v
  {
    var a, b, c := v / 256, v / 65536, v / 16777216;
    Digit(v, a, b, c);
    assert Byte32(v, 0) as nat == v % 256 && Byte32(v, 1) as nat == a % 256;
    assert Byte32(v, 2) as nat == b % 256 && Byte32(v, 3) as nat == c % 256;
  }

  lemma Digit(v: nat, a: nat, b: nat, c: nat)
    requires v < 0x1_0000_0000 && a == v / 256 && b == v / 65536 && c == v / 16777216
    ensures v % 256 + 256 * (a % 256) + 65536 * (b % 256) + 16777216 * (c % 256) == v
  {
    TwoDigits(v, a, b, 256);
    TwoDigits(v, b, c, 65536);
    assert v == 256 * a + v % 256 && a == 256 * b + a % 256 && b == 256 * c + b % 256;
  }

  /** Dividing by 256 once more. */
  lemma TwoDigits(v: nat, a: nat, b: nat, unit: nat)
    requires (unit == 256 || unit == 65536) && a == v / unit && b == v / (256 * unit)
    ensures b == a / 256
  {}

  /** A field written little-endian is read back. */
  lemma FieldIs(data: Bytes, offset: nat, v: nat)
    requires offset + 4 <= |data| && v < 0x1_0000_0000
    requires data[offset] == Byte32(v, 0) && data[offset + 1] == Byte32(v, 1) && data[offset + 2] == Byte32(v, 2)
      && data[offset + 3] == Byte32(v, 3)
    ensures Field(data, offset, 4) == Ok(v)
  {
    var b := data[offset..offset + 4];
    assert b[0] == data[offset] && b[1] == data[offset + 1] && b[2] == data[offset + 2] && b[3] == data[offset + 3];
    hide Byte32;
    Number4(b);
    Assemble(v);
  }

  lemma ShortFieldIs(data: Bytes, offset: nat)
    requires offset + 2 <= |data|
    ensures Field(data, offset, 2) == Ok(data[offset] as nat + 256 * data[offset + 1] as nat)
  {
    Number2(data[offset..offset + 2]);
  }

  /** Only the low half of a 64-bit field is set. */
  lemma LongFieldIs(data: Bytes, offset: nat, v: nat)
    requires offset + 8 <= |data| && Field(data, offset, 4) == Ok(v)
    requires data[offset + 4] == data[offset + 5] == data[offset + 6] == data[offset + 7] == 0
    ensures Field(data, offset, 8) == Ok(v)
  {
    var b := data[offset..offset + 8];
    var low := data[offset..offset + 4];
    assert low == b[..4];
    HighZeros(b, 4);
  }

  lemma {:induction false} AllZeroNumber(b: Bytes)
    requires forall i :: 0 <= i < |b| ==> b[i] == 0
    ensures Number(b) == 0
  {
    if b != [] {
      AllZeroNumber(b[1..]);
    }
  }

  lemma {:induction false} HighZeros(b: Bytes, n: nat)
    requires n <= |b| && forall i :: n <= i < |b| ==> b[i] == 0
    ensures Number(b) == Number(b[..n])
  {
    if n == 0 {
      AllZeroNumber(b);
    } else {
      HighZeros(b[1..], n - 1);
      assert b[..n][1..] == b[1..][..n - 1];
    }
  }

  // ----- the headers -----

  lemma HeaderBytes(s: Source, i: nat)
    requires i < HEADER_SIZE
    ensures |s.Written()| == HEADER_SIZE + |s.Body()|
      && s.Written()[i] == HeaderByte(s.plus, i, |s.Body()|, SECTION_ADDRESS + s.DelayTable())
  {
    hide Source.Body, HeaderByte;
  }

  /** The four header bytes from an offset on are those of v. */
  predicate HeaderWord(plus: bool, offset: nat, v: nat, size: nat, delayTable: nat) {
    && HeaderByte(plus, offset, size, delayTable) == Byte32(v, 0)
    && HeaderByte(plus, offset + 1, size, delayTable) == Byte32(v, 1)
    && HeaderByte(plus, offset + 2, size, delayTable) == Byte32(v, 2)
    && HeaderByte(plus, offset + 3, size, delayTable) == Byte32(v, 3)
  }

  lemma HeaderField(s: Source, offset: nat, v: nat, size: nat, delayTable: nat)
    requires offset + 4 <= HEADER_SIZE && v < 0x1_0000_0000
    requires size == |s.Body()| && delayTable == SECTION_ADDRESS + s.DelayTable()
    requires HeaderWord(s.plus, offset, v, size, delayTable)
    ensures Field(s.Written(), offset, 4) == Ok(v)
  {
    hide HeaderByte, Byte32, Source.Written, Source.Body, Source.DelayTable, Field;
    HeaderBytes(s, offset);
    HeaderBytes(s, offset + 1);
    HeaderBytes(s, offset + 2);
    HeaderBytes(s, offset + 3);
    FieldIs(s.Written(), offset, v);
  }

  predicate HeaderPair(plus: bool, offset: nat, low: Byte, high: Byte, size: nat, delayTable: nat) {
    HeaderByte(plus, offset, size, delayTable) == low && HeaderByte(plus, offset + 1, size, delayTable) == high
  }

  lemma HeaderShort(s: Source, offset: nat, low: Byte, high: Byte, size: nat, delayTable: nat)
    requires offset + 2 <= HEADER_SIZE && size == |s.Body()| && delayTable == SECTION_ADDRESS + s.DelayTable()
    requires HeaderPair(s.plus, offset, low, high, size, delayTable)
    ensures Field(s.Written(), offset, 2) == Ok(low as nat + 256 * high as nat)
  {
    hide HeaderByte, Byte32, Source.Written, Source.Body, Source.DelayTable, Field;
    HeaderBytes(s, offset);
    HeaderBytes(s, offset + 1);
    ShortFieldIs(s.Written(), offset);
  }

  lemma CoffFields(s: Source, size: nat, delayTable: nat)
    requires size == |s.Body()| && delayTable == SECTION_ADDRESS + s.DelayTable()
    ensures var d := s.Written();
      && Field(d, 60, 4) == Ok(64) && Field(d, 68, 2) == Ok(if s.plus then 0x8664 else 0x14C)
      && Field(d, 70, 2) == Ok(1) && Field(d, 84, 2) == Ok(if s.plus then 224 else 208) && Field(d, 86, 2) == Ok(0)
  {
    CoffBytes(s.plus, size, delayTable);
    hide HeaderByte, HeaderWord, HeaderPair, TableByte, TableWord, Byte32, Source.Written, Source.Body,
         Source.DelayTable, Field, Number;
    HeaderField(s, 60, 64, size, delayTable);
    HeaderShort(s, 68, if s.plus then 0x64 else 0x4C, if s.plus then 0x86 else 0x01, size, delayTable);
    HeaderShort(s, 70, 1, 0, size, delayTable);
    HeaderShort(s, 84, if s.plus then 224 else 208, 0, size, delayTable);
    HeaderShort(s, 86, 0, 0, size, delayTable);
  }

  lemma CoffBytes(plus: bool, size: nat, delayTable: nat)
    ensures HeaderWord(plus, 60, 64, size, delayTable) && HeaderPair(plus, 70, 1, 0, size, delayTable)
    ensures HeaderPair(plus, 68, if plus then 0x64 else 0x4C, if plus then 0x86 else 0x01, size, delayTable)
    ensures HeaderPair(plus, 84, if plus then 224 else 208, 0, size, delayTable)
      && HeaderPair(plus, 86, 0, 0, size, delayTable)
  {
    hide Byte32, TableByte;
  }

  lemma BaseField(s: Source, size: nat, delayTable: nat)
    requires size == |s.Body()| && delayTable == SECTION_ADDRESS + s.DelayTable()
    ensures Field(s.Written(), if s.plus then 112 else 116, if s.plus then 8 else 4) == Ok(IMAGE_BASE)
  {
    BaseBytes(s.plus, size, delayTable);
    hide HeaderByte, HeaderWord, HeaderPair, TableByte, TableWord, Byte32, Source.Written, Source.Body,
         Source.DelayTable, Field, Number;
    if s.plus {
      HeaderField(s, 112, IMAGE_BASE, size, delayTable);
      HeaderBytes(s, 116);
      HeaderBytes(s, 117);
      HeaderBytes(s, 118);
      HeaderBytes(s, 119);
      ZeroBytes(size, delayTable);
      LongFieldIs(s.Written(), 112, IMAGE_BASE);
    } else {
      HeaderField(s, 116, IMAGE_BASE, size, delayTable);
    }
  }

  lemma BaseBytes(plus: bool, size: nat, delayTable: nat)
    ensures HeaderWord(plus, if plus then 112 else 116, IMAGE_BASE, size, delayTable)
  {
    hide Byte32, TableByte;
  }

  lemma ZeroBytes(size: nat, delayTable: nat)
    ensures HeaderByte(true, 116, size, delayTable) == HeaderByte(true, 117, size, delayTable) == 0
    ensures HeaderByte(true, 118, size, delayTable) == HeaderByte(true, 119, size, delayTable) == 0
  {}

  lemma OptionalFields(s: Source, size: nat, delayTable: nat)
    requires size == |s.Body()| && delayTable == SECTION_ADDRESS + s.DelayTable()
    ensures var d := s.Written();
      && Field(d, 88, 2) == Ok(if s.plus then MAGIC_PE32_PLUS else MAGIC_PE32) && Field(d, 156, 2) == Ok(3)
      && Field(d, 148, 4) == Ok(HEADER_SIZE) && Field(d, 180 + Extra(s.plus), 4) == Ok(DIRECTORY_COUNT)
  {
    OptionalBytes(s.plus, size, delayTable);
    hide HeaderByte, HeaderWord, HeaderPair, TableByte, TableWord, Byte32, Source.Written, Source.Body,
         Source.DelayTable, Field, Number;
    HeaderShort(s, 88, 0x0B, if s.plus then 0x02 else 0x01, size, delayTable);
    HeaderShort(s, 156, 3, 0, size, delayTable);
    HeaderField(s, 148, HEADER_SIZE, size, delayTable);
    ExtraIs(s.plus);
    HeaderField(s, 180 + Extra(s.plus), DIRECTORY_COUNT, size, delayTable);
  }

  lemma OptionalBytes(plus: bool, size: nat, delayTable: nat)
    ensures HeaderPair(plus, 88, 0x0B, if plus then 0x02 else 0x01, size, delayTable)
      && HeaderPair(plus, 156, 3, 0, size, delayTable)
    ensures HeaderWord(plus, 148, HEADER_SIZE, size, delayTable)
      && HeaderWord(plus, 180 + Extra(plus), DIRECTORY_COUNT, size, delayTable)
  {
    CountBytes();
    hide Byte32;
  }

  lemma CountBytes()
    ensures Byte32(DIRECTORY_COUNT, 0) == 14 && Byte32(DIRECTORY_COUNT, 1) == 0 && Byte32(DIRECTORY_COUNT, 2) == 0
      && Byte32(DIRECTORY_COUNT, 3) == 0
  {}

  predicate TableWord(o: nat, v: nat, size: nat, delayTable: nat) {
    && TableByte(o, size, delayTable) == Byte32(v, 0) && TableByte(o + 1, size, delayTable) == Byte32(v, 1)
    && TableByte(o + 2, size, delayTable) == Byte32(v, 2) && TableByte(o + 3, size, delayTable) == Byte32(v, 3)
  }

  /** A field behind the number of directories. */
  lemma TableField(s: Source, o: nat, v: nat, size: nat, delayTable: nat)
    requires o + 196 + 4 <= HEADER_SIZE && v < 0x1_0000_0000 && TableWord(o, v, size, delayTable)
    requires size == |s.Body()| && delayTable == SECTION_ADDRESS + s.DelayTable()
    ensures Field(s.Written(), 180 + Extra(s.plus) + o, 4) == Ok(v)
  {
    hide HeaderByte, TableByte, Byte32, Source.Body, Source.Written, Source.DelayTable, Field;
    TableByteIs(s.plus, o, size, delayTable);
    TableByteIs(s.plus, o + 1, size, delayTable);
    TableByteIs(s.plus, o + 2, size, delayTable);
    TableByteIs(s.plus, o + 3, size, delayTable);
    HeaderField(s, 180 + Extra(s.plus) + o, v, size, delayTable);
  }

  lemma TableByteIs(plus: bool, o: nat, size: nat, delayTable: nat)
    ensures HeaderByte(plus, 180 + Extra(plus) + o, size, delayTable) == TableByte(o, size, delayTable)
  {
    hide TableByte, Byte32;
  }

  /** Both fields of directory i. */
  lemma DirectoryFields(s: Source, i: nat, size: nat, delayTable: nat)
    requires i < DIRECTORY_COUNT && size == |s.Body()| && delayTable == SECTION_ADDRESS + s.DelayTable()
    requires size < 0x1_0000_0000 && delayTable < 0x1_0000_0000
    ensures var d, o := s.Written(), 184 + Extra(s.plus) + 8 * i;
      && Field(d, o, 4) == Ok(if i == 1 then SECTION_ADDRESS else if i == 13 then delayTable else 0)
      && Field(d, o + 4, 4) == Ok(if i == 1 || i == 13 then size else 0)
  {
    DirectoryBytes(i, size, delayTable);
    hide HeaderByte, HeaderWord, HeaderPair, TableByte, TableWord, Byte32, Source.Written, Source.Body,
         Source.DelayTable, Field, Number;
    TableField(s, 4 + 8 * i, if i == 1 then SECTION_ADDRESS else if i == 13 then delayTable else 0, size, delayTable);
    TableField(s, 8 + 8 * i, if i == 1 || i == 13 then size else 0, size, delayTable);
  }

  lemma DirectoryBytes(i: nat, size: nat, delayTable: nat)
    requires i < DIRECTORY_COUNT
    ensures TableWord(4 + 8 * i, if i == 1 then SECTION_ADDRESS else if i == 13 then delayTable else 0, size,
                      delayTable)
    ensures TableWord(8 + 8 * i, if i == 1 || i == 13 then size else 0, size, delayTable)
  {
    NoBytes();
    hide Byte32;
  }

  lemma NoBytes()
    ensures Byte32(0, 0) == Byte32(0, 1) == Byte32(0, 2) == Byte32(0, 3) == 0
  {}

  lemma {:induction false} ReadsDirectories(s: Source, n: nat, size: nat, delayTable: nat)
    requires n <= DIRECTORY_COUNT && size == |s.Body()| && delayTable == SECTION_ADDRESS + s.DelayTable()
    requires size < 0x1_0000_0000 && delayTable < 0x1_0000_0000
    ensures Directories(s.Written(), 184 + Extra(s.plus), n) == Ok(s.Directories(n))
  {
    hide *;
    if n > 0 {
      ReadsDirectories(s, n - 1, size, delayTable);
      DirectoryFields(s, n - 1, size, delayTable);
      var rva := if n == 2 then SECTION_ADDRESS else if n == 14 then delayTable else 0;
      DirectoryStep(s.Written(), 184 + Extra(s.plus), n, s.Directories(n - 1), rva,
                    if n == 2 || n == 14 then size else 0);
      NextDirectory(s, n, rva, if n == 2 || n == 14 then size else 0);
    } else {
      NoDirectories(s, s.Written(), 184 + Extra(s.plus));
    }
  }

  lemma NoDirectories(s: Source, d: Bytes, offset: nat)
    ensures Directories(d, offset, 0) == Ok(s.Directories(0))
  {
    hide Source.Body, Source.DelayTable;
    assert s.Directories(0) == [];
  }

  lemma NextDirectory(s: Source, n: nat, rva: nat, size: nat)
    requires n > 0 && size == (if n == 2 || n == 14 then |s.Body()| else 0)
    requires rva == if n == 2 then SECTION_ADDRESS else if n == 14 then SECTION_ADDRESS + s.DelayTable() else 0
    ensures s.Directories(n) == s.Directories(n - 1) + [Directory(rva, size)]
  {
    hide Source.Body, Source.DelayTable;
  }

  lemma DirectoryStep(data: Bytes, offset: nat, n: nat, front: seq<Directory>, rva: nat, size: nat)
    requires n > 0 && Directories(data, offset, n - 1) == Ok(front)
    requires Field(data, offset + 8 * (n - 1), 4) == Ok(rva) && Field(data, offset + 8 * (n - 1) + 4, 4) == Ok(size)
    ensures Directories(data, offset, n) == Ok(front + [Directory(rva, size)])
  {
    hide Field;
  }

  lemma SectionFields(s: Source, size: nat, delayTable: nat)
    requires size == |s.Body()| && delayTable == SECTION_ADDRESS + s.DelayTable() && size < 0x1_0000_0000
    ensures var d, o := s.Written(), 296 + Extra(s.plus);
      && Field(d, o + 8, 4) == Ok(size) && Field(d, o + 12, 4) == Ok(SECTION_ADDRESS) && Field(d, o + 16, 4) == Ok(size)
      && Field(d, o + 20, 4) == Ok(HEADER_SIZE)
  {
    SectionBytes(size, delayTable);
    hide HeaderByte, HeaderWord, HeaderPair, TableByte, TableWord, Byte32, Source.Written, Source.Body,
         Source.DelayTable, Field, Number;
    TableField(s, 124, size, size, delayTable);
    TableField(s, 128, SECTION_ADDRESS, size, delayTable);
    TableField(s, 132, size, size, delayTable);
    TableField(s, 136, HEADER_SIZE, size, delayTable);
  }

  lemma SectionBytes(size: nat, delayTable: nat)
    ensures TableWord(124, size, size, delayTable) && TableWord(128, SECTION_ADDRESS, size, delayTable)
    ensures TableWord(132, size, size, delayTable) && TableWord(136, HEADER_SIZE, size, delayTable)
  {
    hide Byte32;
  }

  lemma ReadsSections(s: Source, size: nat)
    requires size == |s.Body()| && size < 0x1_0000_0000
    ensures Sections(s.Written(), 296 + Extra(s.plus), 1) == Ok([Section(SECTION_ADDRESS, size, HEADER_SIZE, size)])
  {
    hide HeaderByte, HeaderWord, HeaderPair, TableByte, TableWord, Byte32, Source.Written, Source.Body,
         Source.DelayTable, Field, Number;
    SectionFields(s, size, SECTION_ADDRESS + s.DelayTable());
    HeaderBytes(s, 0);
    ExtraIs(s.plus);
    SectionIs(s.Written(), 296 + Extra(s.plus), size);
    OneSection(s.Written(), 296 + Extra(s.plus), Section(SECTION_ADDRESS, size, HEADER_SIZE, size));
  }

  lemma ExtraIs(plus: bool)
    ensures Extra(plus) == if plus then 16 else 0
  {}

  lemma OneSection(d: Bytes, offset: nat, section: Section)
    requires SectionAt(d, offset) == Ok(section)
    ensures Sections(d, offset, 1) == Ok([section])
  {
    hide SectionAt;
    assert Sections(d, offset, 0) == Ok([]);
    assert [] + [section] == [section];
  }

  lemma SectionIs(d: Bytes, header: nat, size: nat)
    requires header + SECTION_HEADER_SIZE <= |d| && HEADER_SIZE + size == |d|
    requires Field(d, header + 8, 4) == Ok(size) && Field(d, header + 12, 4) == Ok(SECTION_ADDRESS)
    requires Field(d, header + 16, 4) == Ok(size) && Field(d, header + 20, 4) == Ok(HEADER_SIZE)
    ensures SectionAt(d, header) == Ok(Section(SECTION_ADDRESS, size, HEADER_SIZE, size))
  {
    hide Field;
  }

  lemma Addresses(s: Source)
    requires s.Writable()
    ensures |s.Body()| < 0x1_0000_0000 && SECTION_ADDRESS + s.DelayTable() < 0x1_0000_0000
    ensures |s.imports| < MAXIMUM_DESCRIPTORS && |s.delayed| < MAXIMUM_DESCRIPTORS && s.style.Delay?
  {
    hide Strings;
  }

  /** The headers are read back field by field. */
  lemma ReadsHeaders(s: Source)
    requires s.Writable()
    ensures ParseImage(s.Written()) == Ok(s.Expected())
  {
    hide *;
    Addresses(s);
    var size, delayTable := |s.Body()|, SECTION_ADDRESS + s.DelayTable();
    CoffFields(s, size, delayTable);
    BaseField(s, size, delayTable);
    OptionalFields(s, size, delayTable);
    ReadsDirectories(s, DIRECTORY_COUNT, size, delayTable);
    ReadsSections(s, size);
    Signatures(s);
    HeaderRead(s, s.Written(), size);
  }

  lemma HeaderRead(s: Source, d: Bytes, size: nat)
    requires d == s.Written() && size == |s.Body()| && |d| >= HEADER_SIZE
    requires d[..2] == [77, 90] && d[64..68] == [80, 69, 0, 0]
    requires Field(d, 60, 4) == Ok(64) && Field(d, 68, 2) == Ok(if s.plus then 0x8664 else 0x14C)
      && Field(d, 70, 2) == Ok(1) && Field(d, 84, 2) == Ok(if s.plus then 224 else 208) && Field(d, 86, 2) == Ok(0)
    requires Field(d, if s.plus then 112 else 116, if s.plus then 8 else 4) == Ok(IMAGE_BASE)
    requires Field(d, 88, 2) == Ok(if s.plus then MAGIC_PE32_PLUS else MAGIC_PE32) && Field(d, 156, 2) == Ok(3)
      && Field(d, 148, 4) == Ok(HEADER_SIZE) && Field(d, 180 + Extra(s.plus), 4) == Ok(DIRECTORY_COUNT)
    requires Directories(d, 184 + Extra(s.plus), DIRECTORY_COUNT) == Ok(s.Directories(DIRECTORY_COUNT))
    requires Sections(d, 296 + Extra(s.plus), 1) == Ok([Section(SECTION_ADDRESS, size, HEADER_SIZE, size)])
    ensures ParseImage(d) == Ok(s.Expected())
  {
    hide Field, Source.Written, Source.Body, Source.Directories, Directories, Sections;
  }

  lemma Signatures(s: Source)
    ensures var d := s.Written(); |d| >= HEADER_SIZE && d[..2] == [77, 90] && d[64..68] == [80, 69, 0, 0]
  {
    hide Source.Written, Source.Body, Source.DelayTable, Byte32, TableByte;
    HeaderBytes(s, 0);
    HeaderBytes(s, 1);
    HeaderBytes(s, 64);
    HeaderBytes(s, 65);
    HeaderBytes(s, 66);
    HeaderBytes(s, 67);
  }

  // ----- the tables in the section -----

  /** The section holds at offset t a table of these names, and at offset n their strings. */
  predicate Lies(body: Bytes, style: Style, names: seq<Bytes>, t: nat, n: nat) {
    && t + TableSize(style, names) <= |body| && n + |Strings(names)| <= |body|
    && body[t..t + TableSize(style, names)] == Table(style, names, SECTION_ADDRESS + n)
    && body[n..n + |Strings(names)|] == Strings(names)
  }

  lemma FourParts(a: Bytes, b: Bytes, c: Bytes, d: Bytes, all: Bytes)
    requires all == a + b + c + d
    ensures |all| == |a| + |b| + |c| + |d| && all[0..|a|] == a && all[|a|..|a| + |b|] == b
      && all[|a| + |b|..|a| + |b| + |c|] == c
      && all[|a| + |b| + |c|..|a| + |b| + |c| + |d|] == d
  {}

  lemma LiesThere(body: Bytes, style: Style, names: seq<Bytes>, t: nat, n: nat, table: Bytes, strings: Bytes)
    requires table == Table(style, names, SECTION_ADDRESS + n) && strings == Strings(names)
    requires t + |table| <= |body| && n + |strings| <= |body|
    requires body[t..t + |table|] == table && body[n..n + |strings|] == strings
    ensures Lies(body, style, names, t, n)
  {
    hide Strings, Descriptors, Zeros;
  }

  lemma BothLie(s: Source)
    ensures Lies(s.Body(), Import, s.imports, 0, s.ImportNames())
    ensures Lies(s.Body(), s.style, s.delayed, s.DelayTable(), s.DelayNames())
  {
    hide Table, Strings, TableSize, Lies;
    var a, b := Table(Import, s.imports, SECTION_ADDRESS + s.ImportNames()),
        Table(s.style, s.delayed, SECTION_ADDRESS + s.DelayNames());
    var c, d := Strings(s.imports), Strings(s.delayed);
    FourParts(a, b, c, d, s.Body());
    LiesThere(s.Body(), Import, s.imports, 0, s.ImportNames(), a, c);
    LiesThere(s.Body(), s.style, s.delayed, s.DelayTable(), s.DelayNames(), b, d);
  }

  /** A table of an image that can be written. */
  ghost predicate Ready(s: Source, style: Style, names: seq<Bytes>, t: nat, n: nat) {
    && s.Writable() && Lies(s.Body(), style, names, t, n) && |names| < MAXIMUM_DESCRIPTORS
    && forall i :: 0 <= i < |names| ==> GoodName(names[i])
  }

  lemma BothReady(s: Source)
    requires s.Writable()
    ensures Ready(s, Import, s.imports, 0, s.ImportNames())
    ensures Ready(s, s.style, s.delayed, s.DelayTable(), s.DelayNames())
  {
    BothLie(s);
    hide Lies, Source.Body, Source.ImportNames, Source.DelayNames, Source.DelayTable, GoodName;
  }

  /** Where the string of name i starts behind the first. */
  function Offset(names: seq<Bytes>, i: nat): nat
    requires i <= |names|
  {
    if i == 0 then 0 else |names[0]| + 1 + Offset(names[1..], i - 1)
  }

  lemma {:induction false} DescriptorAt(style: Style, names: seq<Bytes>, address: nat, i: nat)
    requires i < |names|
    ensures style.Start(i + 1) <= |Descriptors(style, names, address)|
    ensures Descriptors(style, names, address)[style.Start(i)..style.Start(i + 1)]
         == style.Descriptor(address + Offset(names, i))
  {
    hide Style.Descriptor, Style.Start, Style.Size;
    StartIs(style, i);
    StartIs(style, 0);
    StartOrder(style, i + 1, |names|);
    var all, one := Descriptors(style, names, address), style.Descriptor(address);
    var rest := Descriptors(style, names[1..], address + |names[0]| + 1);
    assert all == one + rest;
    if i == 0 {
      assert (one + rest)[0..|one|] == one;
    } else {
      DescriptorAt(style, names[1..], address + |names[0]| + 1, i - 1);
      StartIs(style, i - 1);
      Behind(one, rest, style.Start(i - 1), style.Start(i));
    }
  }

  lemma Behind(a: Bytes, b: Bytes, from: nat, to: nat)
    requires from <= to <= |b|
    ensures (a + b)[|a| + from..|a| + to] == b[from..to]
  {}

  lemma {:induction false} StringAt(names: seq<Bytes>, i: nat)
    requires i < |names|
    ensures Offset(names, i) + |names[i]| < |Strings(names)|
    ensures Strings(names)[Offset(names, i)..Offset(names, i) + |names[i]|] == names[i]
    ensures Strings(names)[Offset(names, i) + |names[i]|] == 0
  {
    var all, rest := Strings(names), Strings(names[1..]);
    var skip := |names[0]| + 1;
    assert all == (names[0] + [0]) + rest;
    if i > 0 {
      StringAt(names[1..], i - 1);
      assert all[skip..] == rest;
      var o := Offset(names[1..], i - 1);
      assert all[skip + o..skip + o + |names[i]|] == rest[o..o + |names[i]|];
    }
  }

  /** Section data at address 4096 + o lies at file offset 352 + o. */
  lemma OffsetIs(s: Source, o: nat, length: nat)
    requires length > 0 && o + length <= |s.Body()|
    ensures s.Expected().Valid() && s.Expected().FileOffset(SECTION_ADDRESS + o, length) == Ok(HEADER_SIZE + o)
  {
    HeaderBytes(s, 0);
    hide Source.Written, Source.Body, Source.Directories;
    var image := s.Expected();
    assert Covers(image.sections[0], SECTION_ADDRESS + o);
    assert image.Covering(SECTION_ADDRESS + o, 0) == 0;
  }

  /** The bytes of the section in the file. */
  lemma BodyAt(s: Source, from: nat, to: nat)
    requires from <= to <= |s.Body()|
    ensures |s.Written()| == HEADER_SIZE + |s.Body()|
      && s.Written()[HEADER_SIZE + from..HEADER_SIZE + to] == s.Body()[from..to]
  {
    hide Source.Body, HeaderByte;
  }

  lemma ExpectedData(s: Source)
    ensures s.Expected().data == s.Written() && s.Expected().imageBase == IMAGE_BASE
  {
    hide Source.Body, Source.Written, Source.Directories;
  }

  /** Name i and its NUL in the section, at offset o. */
  lemma NameInBody(body: Bytes, style: Style, names: seq<Bytes>, t: nat, n: nat, i: nat, o: nat, length: nat)
    requires Lies(body, style, names, t, n) && i < |names| && o == n + Offset(names, i) && length == |names[i]|
    ensures o + length + 1 <= |body| && body[o..o + length] == names[i] && body[o + length] == 0
  {
    hide *;
    StringAt(names, i);
    StringsLie(body, style, names, t, n);
    InSlice(body, n, Strings(names), Offset(names, i), length, names[i]);
    var all, f := Strings(names), Offset(names, i) + length;
    assert all[f..f + 1] == [0];
    InSlice(body, n, all, f, 1, [0]);
    assert body[n + f] == body[n + f..n + f + 1][0];
  }

  lemma StringsLie(body: Bytes, style: Style, names: seq<Bytes>, t: nat, n: nat)
    requires Lies(body, style, names, t, n)
    ensures n + |Strings(names)| <= |body| && body[n..n + |Strings(names)|] == Strings(names)
  {
    hide Table, TableSize, Strings;
  }

  lemma TableLies(body: Bytes, style: Style, names: seq<Bytes>, t: nat, n: nat)
    requires Lies(body, style, names, t, n)
    ensures var table := Table(style, names, SECTION_ADDRESS + n);
      t + |table| <= |body| && body[t..t + |table|] == table
  {
    hide Strings, Descriptors, Zeros;
  }

  /** A slice of a slice. */
  lemma InSlice(body: Bytes, n: nat, part: Bytes, f: nat, length: nat, name: Bytes)
    requires n + |part| <= |body| && body[n..n + |part|] == part && f + length <= |part|
      && part[f..f + length] == name
    ensures body[n + f..n + f + length] == name
  {
    forall k | 0 <= k < length
      ensures body[n + f..n + f + length][k] == name[k]
    {
      assert body[n..n + |part|][f + k] == body[n + f + k] && part[f..f + length][k] == part[f + k];
    }
  }

  lemma ReadyParts(s: Source, style: Style, names: seq<Bytes>, t: nat, n: nat)
    requires Ready(s, style, names, t, n)
    ensures Lies(s.Body(), style, names, t, n) && |names| < MAXIMUM_DESCRIPTORS
  {
    hide Lies, Source.Body, Source.Writable, GoodName;
  }

  lemma GoodAt(s: Source, style: Style, names: seq<Bytes>, t: nat, n: nat, i: nat)
    requires Ready(s, style, names, t, n) && i < |names|
    ensures GoodName(names[i]) && |names[i]| > 0 && Lies(s.Body(), style, names, t, n)
  {
    hide Lies, Source.Writable, Source.Body;
  }

  lemma NulAt(data: Bytes, start: nat, name: Bytes)
    requires start + |name| < |data| && data[start..start + |name|] == name && data[start + |name|] == 0
      && GoodName(name)
    ensures FindNul(data, start, start + MAXIMUM_NAME_LENGTH + 1) == start + |name|
  {
    forall j | start <= j < start + |name|
      ensures data[j] != 0
    {
      assert data[j] == name[j - start];
    }
  }

  lemma NameRead(image: Image, rva: int, start: nat, name: Bytes)
    requires image.Valid() && image.FileOffset(rva, 1) == Ok(start) && image.FileOffset(rva, |name| + 1) == Ok(start)
    requires start + |name| < |image.data| && image.data[start..start + |name|] == name && GoodName(name)
    requires FindNul(image.data, start, start + MAXIMUM_NAME_LENGTH + 1) == start + |name|
    ensures image.CString(rva) == Ok(name)
  {
    hide Image.FileOffset, Image.Valid, FindNul;
  }

  /** Every written name is read back at its address. */
  lemma ReadsName(s: Source, style: Style, names: seq<Bytes>, t: nat, n: nat, i: nat)
    requires Ready(s, style, names, t, n) && i < |names|
    ensures s.Expected().Valid() && s.Expected().CString(SECTION_ADDRESS + n + Offset(names, i)) == Ok(names[i])
  {
    hide Ready, Lies, Source.Body, Source.Written, Source.Expected, Offset, GoodName, Image.Valid, Image.FileOffset,
         Image.CString, FindNul;
    var o, length := n + Offset(names, i), |names[i]|;
    GoodAt(s, style, names, t, n, i);
    NameInBody(s.Body(), style, names, t, n, i, o, length);
    OffsetIs(s, o, 1);
    OffsetIs(s, o, length + 1);
    BodyAt(s, o, o + length);
    BodyAt(s, o + length, o + length + 1);
    var data, start := s.Written(), HEADER_SIZE + o;
    ByteOf(data, start + length, s.Body(), o + length);
    NulAt(data, start, names[i]);
    ExpectedData(s);
    NameRead(s.Expected(), SECTION_ADDRESS + n + Offset(names, i), start, names[i]);
  }

  lemma ByteOf(a: Bytes, i: nat, b: Bytes, j: nat)
    requires i + 1 <= |a| && j + 1 <= |b| && a[i..i + 1] == b[j..j + 1]
    ensures a[i] == b[j]
  {
    assert a[i] == a[i..i + 1][0] && b[j] == b[j..j + 1][0];
  }

  lemma WordIs(v: nat)
    requires v < 0x1_0000_0000
    ensures Number(Word(v)) == v
  {
    hide Byte32;
    Number4(Word(v));
    Assemble(v);
  }

  /** The name field of a descriptor, which is not a terminating one. */
  lemma AddressOf(style: Style, address: nat)
    requires 0 < address && address + IMAGE_BASE < 0x1_0000_0000
    ensures var d := style.Descriptor(address);
      && |d| == style.Size() && !AllZero(d)
      && (style.Import? ==> Number(d[12..16]) == address)
      && (style.Delay? ==> Number(d[4..8]) == style.NameAddress(address) && (d[0] % 2 == 0 <==> !style.relative))
  {
    var d, a := style.Descriptor(address), style.NameAddress(address);
    WordIs(a);
    hide Number;
    NonZeroWord(a);
    hide Word;
    if style.Import? {
      assert d[12..16] == Word(a);
    } else {
      assert d[4..8] == Word(a);
    }
  }

  lemma NonZeroWord(v: nat)
    requires 0 < v < 0x1_0000_0000
    ensures exists k :: 0 <= k < 4 && Word(v)[k] != 0
  {
    hide Byte32;
    Assemble(v);
    var w := Word(v);
    if w[0] == 0 && w[1] == 0 && w[2] == 0 && w[3] == 0 {
      assert false;
    } else {
      assert w[0] != 0 || w[1] != 0 || w[2] != 0 || w[3] != 0;
    }
  }

  lemma AddressInRange(s: Source, style: Style, names: seq<Bytes>, t: nat, n: nat, i: nat)
    requires Ready(s, style, names, t, n) && i < |names|
    ensures var address := SECTION_ADDRESS + n + Offset(names, i);
      0 < address && address + IMAGE_BASE < 0x1_0000_0000
  {
    StringAt(names, i);
    hide Strings, Offset, Table, TableSize, Source.Body;
  }

  lemma DescriptorInTable(style: Style, names: seq<Bytes>, address: nat, i: nat)
    requires i <= |names|
    ensures var table := Table(style, names, address);
      style.Start(i) + style.Size() <= |table| && table[style.Start(i)..style.Start(i) + style.Size()]
        == if i == |names| then Zeros(style.Size()) else style.Descriptor(address + Offset(names, i))
  {
    hide Descriptors, Zeros, Offset, Style.Descriptor, Style.Start, Style.Size;
    var d, z := Descriptors(style, names, address), Zeros(style.Size());
    StartIs(style, i);
    StartIs(style, |names|);
    if i < |names| {
      DescriptorAt(style, names, address, i);
      StartOrder(style, i + 1, |names|);
      assert (d + z)[style.Start(i)..style.Start(i + 1)] == d[style.Start(i)..style.Start(i + 1)];
    } else {
      assert (d + z)[|d|..|d| + |z|] == z;
    }
  }

  lemma StartOrder(style: Style, i: nat, j: nat)
    requires i <= j
    ensures style.Start(i) <= style.Start(j)
  {}

  /** Descriptor i of a table in the section, the terminating one behind the last name. */
  lemma DescriptorInBody(body: Bytes, style: Style, names: seq<Bytes>, t: nat, n: nat, i: nat)
    requires Lies(body, style, names, t, n) && i <= |names|
    ensures t + style.Start(i + 1) <= |body|
    ensures body[t + style.Start(i)..t + style.Start(i + 1)] == if i == |names| then Zeros(style.Size())
      else style.Descriptor(SECTION_ADDRESS + n + Offset(names, i))
  {
    hide *;
    TableLies(body, style, names, t, n);
    DescriptorInTable(style, names, SECTION_ADDRESS + n, i);
    StartIs(style, i);
    InSlice(body, t, Table(style, names, SECTION_ADDRESS + n), style.Start(i), style.Size(),
            if i == |names| then Zeros(style.Size()) else style.Descriptor(SECTION_ADDRESS + n + Offset(names, i)));
  }

  lemma DescriptorRead(image: Image, style: Style, table: nat, i: nat, offset: nat, address: nat, name: Bytes)
    requires image.Valid() && image.imageBase == IMAGE_BASE && 0 < address && address + IMAGE_BASE < 0x1_0000_0000
    requires image.FileOffset(table + i * style.Size(), style.Size()) == Ok(offset)
      && offset + style.Size() <= |image.data| && image.CString(address) == Ok(name)
    requires image.data[offset..offset + style.Size()] == style.Descriptor(address)
    ensures image.DescriptorName(style.Delay?, table, i) == Ok(Some(name))
  {
    hide Image.Valid, Image.FileOffset, Image.CString, Style.Descriptor, Number, AllZero;
    AddressOf(style, address);
    if style.Import? {
      assert style.Size() == IMPORT_DESCRIPTOR_SIZE;
    } else {
      assert style.Size() == DELAY_DESCRIPTOR_SIZE;
    }
  }

  lemma LastRead(image: Image, style: Style, table: nat, i: nat, offset: nat)
    requires image.Valid() && image.FileOffset(table + i * style.Size(), style.Size()) == Ok(offset)
    requires offset + style.Size() <= |image.data|
      && image.data[offset..offset + style.Size()] == Zeros(style.Size())
    ensures image.DescriptorName(style.Delay?, table, i) == Ok(None)
  {
    hide Image.Valid, Image.FileOffset, Image.CString, Number;
  }

  lemma StartIs(style: Style, i: nat)
    ensures style.Start(i) == i * style.Size() && style.Start(i + 1) == style.Start(i) + style.Size()
    ensures style.Size() > 0 && style.Start(0) == 0
  {}

  /** Every descriptor leads to its name, and the one behind them ends the table. */
  lemma ReadsDescriptor(s: Source, style: Style, names: seq<Bytes>, t: nat, n: nat, i: nat)
    requires Ready(s, style, names, t, n) && i <= |names|
    ensures s.Expected().Valid()
      && s.Expected().DescriptorName(style.Delay?, SECTION_ADDRESS + t, i)
         == Ok(if i == |names| then None else Some(names[i]))
  {
    hide *;
    ReadyParts(s, style, names, t, n);
    var o, size := style.Start(i), style.Size();
    var image := s.Expected();
    StartIs(style, i);
    DescriptorInBody(s.Body(), style, names, t, n, i);
    OffsetIs(s, t + o, size);
    BodyAt(s, t + o, t + o + size);
    ExpectedData(s);
    if i < |names| {
      AddressInRange(s, style, names, t, n, i);
      ReadsName(s, style, names, t, n, i);
      DescriptorRead(image, style, SECTION_ADDRESS + t, i, HEADER_SIZE + t + o, SECTION_ADDRESS + n + Offset(names, i),
                     names[i]);
    } else {
      LastRead(image, style, SECTION_ADDRESS + t, i, HEADER_SIZE + t + o);
    }
  }

  lemma NamesStep(image: Image, delay: bool, table: nat, i: nat)
    requires image.Valid() && i < MAXIMUM_DESCRIPTORS && image.DescriptorName(delay, table, i).Ok?
    ensures var name := image.DescriptorName(delay, table, i).value;
        && (name == None ==> image.NamesFrom(delay, table, i) == Ok([]))
        && (name.Some? && image.NamesFrom(delay, table, i + 1).Ok? ==>
              image.NamesFrom(delay, table, i) == Ok([name.value] + image.NamesFrom(delay, table, i + 1).value))
  {
    hide Image.Valid, Image.DescriptorName;
  }

  /** A table is read back from any descriptor on. */
  lemma {:induction false} ReadsNames(s: Source, style: Style, names: seq<Bytes>, t: nat, n: nat, i: nat)
    requires Ready(s, style, names, t, n) && i <= |names|
    ensures s.Expected().Valid() && |names| < MAXIMUM_DESCRIPTORS
      && s.Expected().NamesFrom(style.Delay?, SECTION_ADDRESS + t, i) == Ok(names[i..])
    decreases |names| - i
  {
    hide *;
    ReadyParts(s, style, names, t, n);
    ReadsDescriptor(s, style, names, t, n, i);
    NamesStep(s.Expected(), style.Delay?, SECTION_ADDRESS + t, i);
    if i < |names| {
      ReadsNames(s, style, names, t, n, i + 1);
      assert [names[i]] + names[i + 1..] == names[i..];
    } else {
      assert names[i..] == [];
    }
  }

  /** What the names of a table are when its directory is set. */
  lemma NamesOf(image: Image, delay: bool, table: nat, names: seq<Bytes>)
    requires image.Valid() && table > 0 && image.NamesFrom(delay, table, 0) == Ok(names)
    requires var k := if delay then DIRECTORY_DELAY_IMPORT else DIRECTORY_IMPORT;
      k < |image.directories| && image.directories[k].rva == table
    ensures image.Names(delay) == Ok(names)
  {
    hide Image.Valid, Image.NamesFrom;
  }

  lemma ExpectedTables(s: Source)
    ensures var d := s.Expected().directories;
      |d| == DIRECTORY_COUNT && d[DIRECTORY_IMPORT].rva == SECTION_ADDRESS
      && d[DIRECTORY_DELAY_IMPORT].rva == SECTION_ADDRESS + s.DelayTable()
  {
    hide Source.Body, Source.Written, Source.DelayTable;
  }

  /** The parser returns exactly the names that were written to either table, in either format. */
  lemma RoundTrip(s: Source)
    requires s.Writable()
    ensures ParseImage(s.Written()).Ok?
    ensures ParseImage(s.Written()).value.Names(false) == Ok(s.imports)
    ensures ParseImage(s.Written()).value.Names(true) == Ok(s.delayed)
    ensures ParsePeImports(s.Written()).Ok?
    ensures ParsePeImports(s.Written()).value.imports == (set n | n in s.imports)
    ensures ParsePeImports(s.Written()).value.delayImports == (set n | n in s.delayed)
  {
    hide Ready, Source.Written, Source.Expected, Source.Writable, Source.DelayTable, Source.ImportNames,
         Source.DelayNames, ParseImage, Image.NamesFrom, Image.Valid, Image.Names;
    Addresses(s);
    ReadsHeaders(s);
    BothReady(s);
    ReadsNames(s, Import, s.imports, 0, s.ImportNames(), 0);
    ReadsNames(s, s.style, s.delayed, s.DelayTable(), s.DelayNames(), 0);
    assert s.imports[0..] == s.imports && s.delayed[0..] == s.delayed;
    ExpectedTables(s);
    NamesOf(s.Expected(), false, SECTION_ADDRESS, s.imports);
    NamesOf(s.Expected(), true, SECTION_ADDRESS + s.DelayTable(), s.delayed);
  }
}
