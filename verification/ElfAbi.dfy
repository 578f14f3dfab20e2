/**
 The file layout the ELF parser reads, written the other way round: an encoder for the ELF64
 header, a program header and a dynamic entry with their fields in gABI order (System V gABI,
 chapters 4 and 5). What the parser reads back from encoded bytes is what was encoded.
 */
module ElfAbi {
  import opened Objects
  import opened Elf

  /** `width` bytes, least significant first. */
  function Little(value: nat, width: nat): Bytes {
    if width == 0 then [] else [value % 256] + Little(value / 256, width - 1)
  }

  lemma {:induction false} LittleLength(value: nat, width: nat)
    ensures |Little(value, width)| == width
  {
    if width > 0 {
      LittleLength(value / 256, width - 1);
    }
  }

  predicate Stored(payload: Bytes, offset: nat, bytes: Bytes) {
    offset + |bytes| <= |payload| && payload[offset..offset + |bytes|] == bytes
  }

  /** A concatenation is stored part by part. */
  lemma StoredParts(payload: Bytes, offset: nat, a: Bytes, b: Bytes)
    requires Stored(payload, offset, a + b)
    ensures Stored(payload, offset, a) && Stored(payload, offset + |a|, b)
  {
    var whole := payload[offset..offset + |a + b|];
    assert payload[offset..offset + |a|] == whole[..|a|];
    assert payload[offset + |a|..offset + |a| + |b|] == whole[|a|..];
  }

  lemma HalfReadsBack(payload: Bytes, offset: nat, value: nat)
    requires Stored(payload, offset, Little(value, 2)) && value < 0x1_0000
    ensures offset + 2 <= |payload| && Half(payload, offset) == value
  {
    LittleLength(value, 2);
    var bytes := payload[offset..offset + 2];
    assert Little(value, 2) == [value % 256] + Little(value / 256, 1);
    assert Little(value / 256, 1) == [value / 256 % 256] + Little(value / 256 / 256, 0);
    assert bytes[0] == payload[offset] && bytes[1] == payload[offset + 1];
  }

  /** The low half of a wider field comes first. */
  lemma LittleSplits(value: nat, rest: nat)
    ensures Little(value, 2 + rest) == Little(value % 0x1_0000, 2) + Little(value / 0x1_0000, rest)
  {
    var low, high := value % 0x1_0000, value / 0x1_0000;
    assert Little(value, 2 + rest) == [value % 256] + Little(value / 256, 1 + rest);
    assert Little(value / 256, 1 + rest) == [value / 256 % 256] + Little(value / 256 / 256, rest);
    assert value / 256 / 256 == high;
    assert Little(low, 2) == [low % 256] + Little(low / 256, 1);
    assert Little(low / 256, 1) == [low / 256 % 256] + Little(low / 256 / 256, 0);
    assert low % 256 == value % 256 && low / 256 % 256 == value / 256 % 256;
  }

  /** A field is read a half at a time. */
  lemma LowHalfReadsBack(payload: Bytes, offset: nat, value: nat, rest: nat)
    requires Stored(payload, offset, Little(value, 2 + rest))
    ensures offset + 2 <= |payload| && Half(payload, offset) == value % 0x1_0000
    ensures Stored(payload, offset + 2, Little(value / 0x1_0000, rest))
  {
    LittleSplits(value, rest);
    LittleLength(value % 0x1_0000, 2);
    StoredParts(payload, offset, Little(value % 0x1_0000, 2), Little(value / 0x1_0000, rest));
    HalfReadsBack(payload, offset, value % 0x1_0000);
  }

  lemma WordReadsBack(payload: Bytes, offset: nat, value: nat)
    requires Stored(payload, offset, Little(value, 4)) && value < 0x1_0000_0000
    ensures offset + 4 <= |payload| && Word(payload, offset) == value
  {
    LowHalfReadsBack(payload, offset, value, 2);
    LowHalfReadsBack(payload, offset + 2, value / 0x1_0000, 0);
  }

  lemma LongReadsBack(payload: Bytes, offset: nat, value: nat)
    requires Stored(payload, offset, Little(value, 8)) && value < 0x1_0000_0000_0000_0000
    ensures offset + 8 <= |payload| && Long(payload, offset) == value
  {
    LowHalfReadsBack(payload, offset, value, 6);
    var a := value / 0x1_0000;
    LowHalfReadsBack(payload, offset + 2, a, 4);
    var b := a / 0x1_0000;
    LowHalfReadsBack(payload, offset + 4, b, 2);
    LowHalfReadsBack(payload, offset + 6, b / 0x1_0000, 0);
  }

  /* ---------- records ---------- */

  datatype Field = Field(value: nat, width: nat)

  function Encode(fields: seq<Field>): Bytes {
    if fields == [] then [] else Little(fields[0].value, fields[0].width) + Encode(fields[1..])
  }

  /** Where field `k` of a record starts. */
  function Start(fields: seq<Field>, k: nat): nat
    requires k <= |fields|
  {
    if k == 0 then 0 else Start(fields, k - 1) + fields[k - 1].width
  }

  /** After `k` fields come the remaining ones. */
  lemma {:induction false} TailIsStored(payload: Bytes, offset: nat, fields: seq<Field>, k: nat)
    requires Stored(payload, offset, Encode(fields)) && k <= |fields|
    ensures Stored(payload, offset + Start(fields, k), Encode(fields[k..]))
  {
    if k == 0 {
      assert fields[0..] == fields;
    } else {
      TailIsStored(payload, offset, fields, k - 1);
      var rest := fields[k - 1..];
      assert rest[1..] == fields[k..];
      LittleLength(rest[0].value, rest[0].width);
      StoredParts(payload, offset + Start(fields, k - 1), Little(rest[0].value, rest[0].width), Encode(rest[1..]));
    }
  }

  lemma FieldIsStored(payload: Bytes, offset: nat, fields: seq<Field>, k: nat)
    requires Stored(payload, offset, Encode(fields)) && k < |fields|
    ensures Stored(payload, offset + Start(fields, k), Little(fields[k].value, fields[k].width))
  {
    TailIsStored(payload, offset, fields, k);
    var rest := fields[k..];
    LittleLength(rest[0].value, rest[0].width);
    StoredParts(payload, offset + Start(fields, k), Little(rest[0].value, rest[0].width), Encode(rest[1..]));
  }

  const WORD: nat := 0x1_0000_0000
  const LONG: nat := 0x1_0000_0000_0000_0000

  /** The ELF64 file header after its sixteen identification bytes. */
  datatype FileHeader = FileHeader(
    kind: nat,
    machine: nat,
    version: nat,
    entry: nat,
    programOffset: nat,
    sectionOffset: nat,
    flags: nat,
    headerSize: nat,
    programEntrySize: nat,
    programCount: nat,
    sectionEntrySize: nat,
    sectionCount: nat,
    sectionNames: nat)

  function HeaderFields(h: FileHeader): seq<Field> {
    [Field(h.kind, 2), Field(h.machine, 2), Field(h.version, 4), Field(h.entry, 8),
     Field(h.programOffset, 8), Field(h.sectionOffset, 8), Field(h.flags, 4), Field(h.headerSize, 2),
     Field(h.programEntrySize, 2), Field(h.programCount, 2),
     Field(h.sectionEntrySize, 2), Field(h.sectionCount, 2), Field(h.sectionNames, 2)]
  }

  /** An ELF64 program header. */
  datatype ProgramHeader = ProgramHeader(
    kind: nat,
    flags: nat,
    offset: nat,
    virtualAddress: nat,
    physicalAddress: nat,
    fileSize: nat,
    memorySize: nat,
    alignment: nat)

  function ProgramFields(p: ProgramHeader): seq<Field> {
    [Field(p.kind, 4), Field(p.flags, 4), Field(p.offset, 8), Field(p.virtualAddress, 8),
     Field(p.physicalAddress, 8), Field(p.fileSize, 8), Field(p.memorySize, 8), Field(p.alignment, 8)]
  }

  /** The parser finds the program table where the header puts it. */
  lemma HeaderReadsBack(payload: Bytes, h: FileHeader)
    requires |payload| >= 64 && Stored(payload, 16, Encode(HeaderFields(h)))
    requires h.programOffset < LONG && h.programEntrySize < 0x1_0000 && h.programCount < 0x1_0000
    ensures ReadHeader(payload) == Header(h.programOffset, h.programEntrySize, h.programCount)
  {
    var fields := HeaderFields(h);
    assert Start(fields, 3) == Start(fields, 2) + 4 == Start(fields, 1) + 6 == 8;
    assert Start(fields, 4) == 16;
    assert Start(fields, 6) == Start(fields, 5) + 8 == 32;
    assert Start(fields, 8) == Start(fields, 7) + 2 == 38;
    assert Start(fields, 9) == 40;
    FieldIsStored(payload, 16, fields, 4);
    LongReadsBack(payload, 32, h.programOffset);
    FieldIsStored(payload, 16, fields, 8);
    HalfReadsBack(payload, 54, h.programEntrySize);
    FieldIsStored(payload, 16, fields, 9);
    HalfReadsBack(payload, 56, h.programCount);
  }

  predicate Encodable(p: ProgramHeader) {
    p.kind < WORD && p.offset < LONG && p.virtualAddress < LONG && p.fileSize < LONG
  }

  /** Of the eight fields the parser uses the type, the offset, the virtual address and the size
      in the file. */
  lemma ProgramReadsBack(payload: Bytes, header: Header, index: nat, p: ProgramHeader)
    requires TableFits(payload, header) && index < header.count && Encodable(p)
    requires Stored(payload, header.offset + header.entrySize * index, Encode(ProgramFields(p)))
    ensures EntryType(payload, header, index) == p.kind
    ensures EntrySegment(payload, header, index) == Segment(p.offset, p.virtualAddress, p.fileSize)
  {
    var offset, fields := EntryOffset(payload, header, index), ProgramFields(p);
    assert Start(fields, 0) == 0;
    assert Start(fields, 2) == Start(fields, 1) + 4 == 8;
    assert Start(fields, 3) == 16;
    assert Start(fields, 5) == Start(fields, 4) + 8 == 32;
    FieldIsStored(payload, offset, fields, 0);
    WordReadsBack(payload, offset, p.kind);
    FieldIsStored(payload, offset, fields, 2);
    LongReadsBack(payload, offset + 8, p.offset);
    FieldIsStored(payload, offset, fields, 3);
    LongReadsBack(payload, offset + 16, p.virtualAddress);
    FieldIsStored(payload, offset, fields, 5);
    LongReadsBack(payload, offset + 32, p.fileSize);
  }

  predicate PairAt(payload: Bytes, offset: nat, pair: Dynamic) {
    && pair.tag < LONG && pair.value < LONG
    && Stored(payload, offset, Encode([Field(pair.tag, 8), Field(pair.value, 8)]))
  }

  lemma PairReadsBack(payload: Bytes, offset: nat, pair: Dynamic)
    requires PairAt(payload, offset, pair)
    ensures offset + 16 <= |payload| && EntryAt(payload, offset) == pair
  {
    var fields := [Field(pair.tag, 8), Field(pair.value, 8)];
    assert Start(fields, 1) == 8;
    FieldIsStored(payload, offset, fields, 0);
    LongReadsBack(payload, offset, pair.tag);
    FieldIsStored(payload, offset, fields, 1);
    LongReadsBack(payload, offset + 8, pair.value);
  }

  /* ---------- the tables ---------- */

  /** The header and the program table of a file. */
  predicate LaidOut(payload: Bytes, h: FileHeader, programs: seq<ProgramHeader>) {
    && |payload| >= 64
    && Stored(payload, 16, Encode(HeaderFields(h)))
    && h.programOffset < LONG && h.programEntrySize < 0x1_0000 && h.programCount < 0x1_0000
    && |programs| == h.programCount
    && (forall i :: 0 <= i < |programs| ==> Encodable(programs[i]))
    && (forall i :: 0 <= i < |programs| ==>
          Stored(payload, h.programOffset + h.programEntrySize * i, Encode(ProgramFields(programs[i]))))
  }

  /** The program table lies in the file, and so does every segment; at most one is dynamic, and
      that one is made of whole entries. */
  predicate InBounds(total: nat, h: FileHeader, programs: seq<ProgramHeader>) {
    && h.programEntrySize >= 56
    && |programs| >= 1
    && h.programOffset + h.programEntrySize * |programs| <= total
    && (forall i :: 0 <= i < |programs| ==> programs[i].offset + programs[i].fileSize <= total)
    && (forall i, j :: 0 <= i < j < |programs| ==> programs[i].kind != 2 || programs[j].kind != 2)
    && (forall i :: 0 <= i < |programs| && programs[i].kind == 2 ==> programs[i].fileSize % 16 == 0)
  }

  function InMemory(p: ProgramHeader): Segment { Segment(p.offset, p.virtualAddress, p.fileSize) }

  /** The segments of one type are the program headers of that type, in order. */
  function OfKind(programs: seq<ProgramHeader>, kind: nat): seq<Segment> {
    if programs == [] then []
    else
      var last := programs[|programs| - 1];
      OfKind(programs[..|programs| - 1], kind) + if last.kind == kind then [InMemory(last)] else []
  }

  lemma {:induction false} SegmentsReadBack(
    payload: Bytes, h: FileHeader, programs: seq<ProgramHeader>, header: Header, kind: nat, count: nat)
    requires LaidOut(payload, h, programs) && TableFits(payload, header) && count <= |programs|
    requires header == Header(h.programOffset, h.programEntrySize, |programs|)
    ensures SegmentsOf(payload, header, kind, count) == OfKind(programs[..count], kind)
  {
    if count > 0 {
      SegmentsReadBack(payload, h, programs, header, kind, count - 1);
      ProgramReadsBack(payload, header, count - 1, programs[count - 1]);
      assert programs[..count][..count - 1] == programs[..count - 1];
    }
  }

  lemma {:induction false} OfKindByIndex(programs: seq<ProgramHeader>, kind: nat)
    ensures forall i :: 0 <= i < |programs| && programs[i].kind == kind ==> InMemory(programs[i]) in OfKind(programs, kind)
    ensures forall s :: s in OfKind(programs, kind) ==>
              exists i :: 0 <= i < |programs| && programs[i].kind == kind && InMemory(programs[i]) == s
  {
    if programs != [] {
      var most := programs[..|programs| - 1];
      OfKindByIndex(most, kind);
      forall s | s in OfKind(most, kind)
        ensures exists i :: 0 <= i < |programs| && programs[i].kind == kind && InMemory(programs[i]) == s
      {
        var i :| 0 <= i < |most| && most[i].kind == kind && InMemory(most[i]) == s;
        assert programs[i] == most[i];
      }
    }
  }

  lemma {:induction false} NoneOfKind(programs: seq<ProgramHeader>, kind: nat)
    requires forall i :: 0 <= i < |programs| ==> programs[i].kind != kind
    ensures OfKind(programs, kind) == []
  {
    if programs != [] {
      NoneOfKind(programs[..|programs| - 1], kind);
    }
  }

  lemma {:induction false} AtMostOneIff(programs: seq<ProgramHeader>, kind: nat)
    ensures |OfKind(programs, kind)| <= 1
            <==> forall i, j :: 0 <= i < j < |programs| ==> programs[i].kind != kind || programs[j].kind != kind
  {
    if programs != [] {
      var last := |programs| - 1;
      var most := programs[..last];
      AtMostOneIff(most, kind);
      OfKindByIndex(most, kind);
      assert forall i :: 0 <= i < last ==> programs[i] == most[i];
      if OfKind(most, kind) != [] {
        assert OfKind(most, kind)[0] in OfKind(most, kind);
      }
    }
  }

  lemma OneDynamicIff(programs: seq<ProgramHeader>)
    ensures var dynamics := OfKind(programs, 2);
            (|dynamics| == 0 || (|dynamics| == 1 && dynamics[0].fileSize % 16 == 0)) <==>
              && (forall i, j :: 0 <= i < j < |programs| ==> programs[i].kind != 2 || programs[j].kind != 2)
              && (forall i :: 0 <= i < |programs| && programs[i].kind == 2 ==> programs[i].fileSize % 16 == 0)
  {
    AtMostOneIff(programs, 2);
    OfKindByIndex(programs, 2);
    var dynamics := OfKind(programs, 2);
    if |dynamics| == 1 {
      assert dynamics[0] in dynamics;
    }
  }

  lemma SegmentsAreInFile(programs: seq<ProgramHeader>, total: nat)
    requires forall i :: 0 <= i < |programs| ==> programs[i].offset + programs[i].fileSize <= total
    ensures forall s :: s in OfKind(programs, 2) ==> s.fileOffset + s.fileSize <= total
  {
    OfKindByIndex(programs, 2);
  }

  /** The parser's bounds are the encoder's. */
  lemma BoundsAgree(payload: Bytes, h: FileHeader, header: Header, programs: seq<ProgramHeader>)
    requires SupportedClass(payload) && header == ReadHeader(payload) && TableFits(payload, header)
    requires header == Header(h.programOffset, h.programEntrySize, |programs|)
    requires forall i :: 0 <= i < |programs| ==> EntrySegment(payload, header, i) == InMemory(programs[i])
    requires SegmentsOf(payload, header, 2, |programs|) == OfKind(programs, 2)
    ensures WellLaid(payload) <==> InBounds(|payload|, h, programs)
  {
    OneDynamicIff(programs);
    var inFile := forall i :: 0 <= i < |programs| ==> programs[i].offset + programs[i].fileSize <= |payload|;
    assert inFile <==> forall i :: 0 <= i < header.count ==> InFile(payload, EntrySegment(payload, header, i));
    if inFile {
      SegmentsAreInFile(programs, |payload|);
    }
  }

  lemma WellLaidIff(payload: Bytes, h: FileHeader, programs: seq<ProgramHeader>)
    requires LaidOut(payload, h, programs)
    ensures WellLaid(payload) <==> payload[4] == 2 && payload[5] == 1 && InBounds(|payload|, h, programs)
  {
    HeaderReadsBack(payload, h);
    var header := ReadHeader(payload);
    if SupportedClass(payload) && TableFits(payload, header) {
      SegmentsReadBack(payload, h, programs, header, 2, |programs|);
      assert programs[..|programs|] == programs;
      forall i | 0 <= i < |programs|
        ensures EntrySegment(payload, header, i) == InMemory(programs[i])
      {
        ProgramReadsBack(payload, header, i, programs[i]);
      }
      BoundsAgree(payload, h, header, programs);
    }
  }

  lemma LoadsReadBack(payload: Bytes, h: FileHeader, programs: seq<ProgramHeader>)
    requires LaidOut(payload, h, programs) && WellLaid(payload)
    ensures forall s :: s in LoadSegments(payload)
                        <==> exists i :: 0 <= i < |programs| && programs[i].kind == 1 && InMemory(programs[i]) == s
  {
    HeaderReadsBack(payload, h);
    SegmentsReadBack(payload, h, programs, ReadHeader(payload), 1, |programs|);
    assert programs[..|programs|] == programs;
    OfKindByIndex(programs, 1);
  }

  /** The dynamic entries end with the first null tag, or with the segment. */
  predicate ListedAt(payload: Bytes, offset: nat, count: nat, pairs: seq<Dynamic>)
    decreases pairs
  {
    if pairs == [] then count == 0 || Stored(payload, offset, Little(0, 8))
    else
      && count > 0
      && PairAt(payload, offset, pairs[0]) && pairs[0].tag != 0
      && ListedAt(payload, offset + 16, count - 1, pairs[1..])
  }

  lemma {:induction false} EntriesReadBack(payload: Bytes, offset: nat, count: nat, pairs: seq<Dynamic>)
    requires offset + 16 * count <= |payload| && ListedAt(payload, offset, count, pairs)
    ensures Entries(payload, offset, count) == pairs
    decreases count
  {
    if count > 0 && pairs == [] {
      LongReadsBack(payload, offset, 0);
    } else if count > 0 {
      PairReadsBack(payload, offset, pairs[0]);
      EntriesReadBack(payload, offset + 16, count - 1, pairs[1..]);
      assert pairs == [pairs[0]] + pairs[1..];
    }
  }

  lemma {:induction false} ValuesIff(entries: seq<Dynamic>, tag: nat, value: nat)
    ensures value in Values(entries, tag) <==> Dynamic(tag, value) in entries
  {
    if entries != [] {
      var last := |entries| - 1;
      ValuesIff(entries[..last], tag, value);
      assert entries == entries[..last] + [entries[last]];
    }
  }

  /** The last entry of a tag; a later one wins. */
  predicate IsLast(entries: seq<Dynamic>, tag: nat, at: int) {
    && 0 <= at < |entries|
    && entries[at].tag == tag
    && forall j :: at < j < |entries| ==> entries[j].tag != tag
  }

  lemma {:induction false} LastValueIff(entries: seq<Dynamic>, tag: nat, value: nat)
    ensures LastValue(entries, tag) == Some(value)
            <==> exists i :: IsLast(entries, tag, i) && entries[i].value == value
  {
    if entries != [] {
      var last := |entries| - 1;
      var most := entries[..last];
      LastValueIff(most, tag, value);
      if entries[last].tag == tag {
        assert IsLast(entries, tag, last);
      } else {
        forall i
          ensures IsLast(entries, tag, i) <==> IsLast(most, tag, i)
        {
          assert forall j :: 0 <= j < last ==> entries[j] == most[j];
        }
      }
    }
  }

  /* ---------- names ---------- */

  function Ascii(text: string): Bytes
    requires forall i :: 0 <= i < |text| ==> text[i] < 128 as char
  {
    seq(|text|, i requires 0 <= i < |text| => text[i] as int)
  }

  lemma OriginIsSpelled()
    ensures |ORIGIN| == 15 && ORIGIN == Ascii("$ORIGIN/../lib/")
  {
  }

  lemma DescriptorsAreSpelled()
    ensures |DESCRIPTORS| == 14 && DESCRIPTORS == Ascii("/proc/self/fd/")
  {
  }

  lemma IsElfIff(payload: Bytes)
    ensures IsElf(payload) <==> |payload| >= 4 && payload[..4] == [127] + Ascii("ELF")
  {
    assert MAGIC == [127] + Ascii("ELF");
  }

  predicate Plain(c: char) {
    'a' <= c <= 'z' || 'A' <= c <= 'Z' || '0' <= c <= '9' || c in "._+-"
  }

  lemma PlainCharacters(c: byte)
    ensures SafeCharacter(c) <==> Plain(c as char)
  {
  }

  predicate PlainName(name: Bytes) {
    name != [] && forall i :: 0 <= i < |name| ==> Plain(name[i] as char)
  }

  lemma SafeNameIff(name: Bytes)
    ensures SafeName(name) <==> PlainName(name)
  {
    forall i | 0 <= i < |name|
      ensures SafeCharacter(name[i]) <==> Plain(name[i] as char)
    {
      PlainCharacters(name[i]);
    }
  }

  /** An origin dependency in the string table: the prefix, a plain name and a NUL. */
  predicate Origin(payload: Bytes, table: nat, end: nat, r: Relocation) {
    && table <= r.start && r.start + r.size < end <= |payload|
    && payload[r.start..r.start + r.size] == Ascii("$ORIGIN/../lib/") + r.name
    && payload[r.start + r.size] == 0
    && PlainName(r.name)
  }

  lemma ProperIff(payload: Bytes, table: nat, end: nat, r: Relocation)
    ensures Proper(payload, table, end, r) <==> Origin(payload, table, end, r)
  {
    OriginIsSpelled();
    SafeNameIff(r.name);
    if Origin(payload, table, end, r) {
      OriginHasNoNul(r.name);
      TextHasNoNul(payload, r.start, r.start + r.size);
    }
  }

  lemma OriginHasNoNul(name: Bytes)
    requires SafeName(name)
    ensures 0 !in ORIGIN + name
  {
    assert 0 !in ORIGIN;
  }

  lemma TextHasNoNul(payload: Bytes, start: nat, stop: nat)
    requires start <= stop <= |payload|
    ensures 0 !in payload[start..stop] <==> forall k :: start <= k < stop ==> payload[k] != 0
  {
    var text := payload[start..stop];
    assert forall k :: start <= k < stop ==> payload[k] == text[k - start];
  }

  /** A needed string: terminated inside the table, and a plain name wherever it is an origin
      dependency. */
  ghost predicate Dependency(payload: Bytes, table: nat, end: nat, needed: nat) {
    var start := table + needed;
    && start < end <= |payload|
    && exists stop: nat :: DependencyTo(payload, start, stop, end)
  }

  predicate DependencyTo(payload: Bytes, start: nat, stop: nat, end: nat)
    requires end <= |payload|
  {
    && start <= stop < end
    && payload[stop] == 0
    && 0 !in payload[start..stop]
    && var text := payload[start..stop];
       |text| >= 15 && text[..15] == Ascii("$ORIGIN/../lib/") ==> PlainName(text[15..])
  }

  lemma UsableIff(payload: Bytes, table: nat, end: nat, needed: nat)
    ensures Usable(payload, table, end, needed) <==> Dependency(payload, table, end, needed)
  {
    OriginIsSpelled();
    var start := table + needed;
    if start < end <= |payload| {
      forall stop: nat
        ensures UsableTo(payload, table, needed, stop, end) <==> DependencyTo(payload, start, stop, end)
      {
        if start <= stop < end {
          UsableToIff(payload, table, needed, stop, end);
        }
      }
    }
  }

  lemma UsableToIff(payload: Bytes, table: nat, needed: nat, stop: nat, end: nat)
    requires table + needed <= stop < end <= |payload|
    ensures UsableTo(payload, table, needed, stop, end) <==> DependencyTo(payload, table + needed, stop, end)
  {
    OriginIsSpelled();
    var start := table + needed;
    var text := payload[start..stop];
    TextHasNoNul(payload, start, stop);
    if |text| >= 15 {
      SafeNameIff(text[15..]);
    }
  }

  /* ---------- the whole file ---------- */

  /** The string table by the last entries under tags 5 and 10: every load segment that holds
      its address puts it at the same offset, and it ends in the file. */
  ghost predicate StringTable(programs: seq<ProgramHeader>, pairs: seq<Dynamic>, total: nat, table: nat, end: nat) {
    exists a, z :: IsLast(pairs, 5, a) && IsLast(pairs, 10, z)
                   && Maps(programs, pairs[a].value, pairs[z].value, total, table, end)
  }

  predicate Maps(programs: seq<ProgramHeader>, address: nat, size: nat, total: nat, table: nat, end: nat) {
    && size >= 1 && end == table + size <= total
    && (exists i :: 0 <= i < |programs| && Loads(programs[i], address))
    && (forall i :: 0 <= i < |programs| && Loads(programs[i], address) ==>
          programs[i].offset + address - programs[i].virtualAddress == table)
  }

  predicate Loads(p: ProgramHeader, address: nat) {
    p.kind == 1 && p.virtualAddress <= address < p.virtualAddress + p.fileSize
  }

  lemma TableOfIff(
    programs: seq<ProgramHeader>, pairs: seq<Dynamic>, loads: seq<Segment>, total: nat, table: nat, end: nat)
    requires forall s :: s in loads <==> exists i :: 0 <= i < |programs| && programs[i].kind == 1 && InMemory(programs[i]) == s
    ensures TableOf(loads, LastValue(pairs, 5), LastValue(pairs, 10), total, table, end)
            <==> StringTable(programs, pairs, total, table, end)
  {
    var address, length := LastValue(pairs, 5), LastValue(pairs, 10);
    if address.Some? && length.Some? {
      LastValueIff(pairs, 5, address.value);
      LastValueIff(pairs, 10, length.value);
      SegmentsHold(programs, loads, address.value, table);
    }
    if StringTable(programs, pairs, total, table, end) {
      var a, z :| IsLast(pairs, 5, a) && IsLast(pairs, 10, z)
                  && Maps(programs, pairs[a].value, pairs[z].value, total, table, end);
      LastValueIff(pairs, 5, pairs[a].value);
      LastValueIff(pairs, 10, pairs[z].value);
    }
  }

  lemma SegmentsHold(programs: seq<ProgramHeader>, loads: seq<Segment>, address: nat, table: nat)
    requires forall s :: s in loads <==> exists i :: 0 <= i < |programs| && programs[i].kind == 1 && InMemory(programs[i]) == s
    ensures (exists s :: s in loads && Elf.Holds(s, address))
            <==> exists i :: 0 <= i < |programs| && Loads(programs[i], address)
    ensures (forall s :: s in loads && Elf.Holds(s, address) ==> FileOffset(s, address) == table)
            <==> forall i :: 0 <= i < |programs| && Loads(programs[i], address) ==>
                   programs[i].offset + address - programs[i].virtualAddress == table
  {
    forall i | 0 <= i < |programs| && programs[i].kind == 1
      ensures InMemory(programs[i]) in loads
      ensures Loads(programs[i], address) <==> Elf.Holds(InMemory(programs[i]), address)
    {
    }
  }

  /** The dynamic segment of a file and its entries. */
  predicate Describes(payload: Bytes, h: FileHeader, programs: seq<ProgramHeader>, d: nat, pairs: seq<Dynamic>) {
    && LaidOut(payload, h, programs)
    && d < |programs| && programs[d].kind == 2
    && ListedAt(payload, programs[d].offset, programs[d].fileSize / 16, pairs)
  }

  lemma DynamicIsLocated(payload: Bytes, h: FileHeader, programs: seq<ProgramHeader>, d: nat)
    requires LaidOut(payload, h, programs) && WellLaid(payload)
    requires d < |programs| && programs[d].kind == 2
    ensures SegmentsOf(payload, ReadHeader(payload), 2, ReadHeader(payload).count) == [InMemory(programs[d])]
  {
    HeaderReadsBack(payload, h);
    SegmentsReadBack(payload, h, programs, ReadHeader(payload), 2, |programs|);
    assert programs[..|programs|] == programs;
    OfKindByIndex(programs, 2);
    assert InMemory(programs[d]) in OfKind(programs, 2);
  }

  lemma DynamicReadsBack(payload: Bytes, h: FileHeader, programs: seq<ProgramHeader>, d: nat, pairs: seq<Dynamic>)
    requires Describes(payload, h, programs, d, pairs) && WellLaid(payload)
    ensures DynamicEntries(payload) == pairs
  {
    DynamicIsLocated(payload, h, programs, d);
    EntriesReadBack(payload, programs[d].offset, programs[d].fileSize / 16, pairs);
  }

  /** What resolution uses of a file, over its encoded tables. */
  lemma TablesReadBack(payload: Bytes, h: FileHeader, programs: seq<ProgramHeader>, d: nat, pairs: seq<Dynamic>)
    requires Describes(payload, h, programs, d, pairs) && WellLaid(payload)
    ensures forall n: nat :: n in Needed(payload) <==> Dynamic(1, n) in pairs
    ensures forall table, end :: TableAt(payload, table, end) <==> StringTable(programs, pairs, |payload|, table, end)
  {
    DynamicReadsBack(payload, h, programs, d, pairs);
    LoadsReadBack(payload, h, programs);
    forall n: nat
      ensures n in Needed(payload) <==> Dynamic(1, n) in pairs
    {
      ValuesIff(pairs, 1, n);
    }
    forall table, end
      ensures TableAt(payload, table, end) <==> StringTable(programs, pairs, |payload|, table, end)
    {
      TableOfIff(programs, pairs, LoadSegments(payload), |payload|, table, end);
    }
  }

  /** The files the parser accepts, over the encoded header, program table and dynamic section. */
  lemma EncodedFileIsAcceptedIff(
    payload: Bytes, h: FileHeader, programs: seq<ProgramHeader>, d: nat, pairs: seq<Dynamic>)
    requires Describes(payload, h, programs, d, pairs)
    ensures Accepted(payload) <==>
              && payload[4] == 2 && payload[5] == 1 && InBounds(|payload|, h, programs)
              && ((forall n: nat :: Dynamic(1, n) !in pairs)
                  || exists table, end :: StringTable(programs, pairs, |payload|, table, end)
                       && forall n: nat :: Dynamic(1, n) in pairs ==> Dependency(payload, table, end, n))
  {
    WellLaidIff(payload, h, programs);
    if WellLaid(payload) {
      TablesReadBack(payload, h, programs, d, pairs);
      forall table, end, n
        ensures Usable(payload, table, end, n) <==> Dependency(payload, table, end, n)
      {
        UsableIff(payload, table, end, n);
      }
      assert Needed(payload) == [] <==> forall n: nat :: Dynamic(1, n) !in pairs by {
        if Needed(payload) != [] {
          assert Dynamic(1, Needed(payload)[0]) in pairs;
        }
      }
    }
  }

  /** A file without a dynamic segment has nothing to relocate. */
  lemma StaticFileIsAcceptedIff(payload: Bytes, h: FileHeader, programs: seq<ProgramHeader>)
    requires LaidOut(payload, h, programs) && forall i :: 0 <= i < |programs| ==> programs[i].kind != 2
    ensures Accepted(payload) <==> payload[4] == 2 && payload[5] == 1 && InBounds(|payload|, h, programs)
    ensures WellLaid(payload) ==> forall rs, table, end :: Relocates(payload, rs, table, end) <==> rs == []
  {
    WellLaidIff(payload, h, programs);
    if WellLaid(payload) {
      HeaderReadsBack(payload, h);
      SegmentsReadBack(payload, h, programs, ReadHeader(payload), 2, |programs|);
      assert programs[..|programs|] == programs;
      NoneOfKind(programs, 2);
      assert DynamicEntries(payload) == [];
    }
  }

  /** What the parser relocates in such a file. */
  lemma EncodedFileRelocatesIff(
    payload: Bytes, h: FileHeader, programs: seq<ProgramHeader>, d: nat, pairs: seq<Dynamic>,
    rs: seq<Relocation>, table: nat, end: nat)
    requires Describes(payload, h, programs, d, pairs) && WellLaid(payload)
    ensures (forall n: nat :: Dynamic(1, n) !in pairs) ==> (Relocates(payload, rs, table, end) <==> rs == [])
    ensures (exists n: nat :: Dynamic(1, n) in pairs) ==>
              (Relocates(payload, rs, table, end) <==>
                && StringTable(programs, pairs, |payload|, table, end)
                && forall r :: r in rs <==> Origin(payload, table, end, r) && Dynamic(1, r.start - table) in pairs)
  {
    TablesReadBack(payload, h, programs, d, pairs);
    forall r
      ensures Proper(payload, table, end, r) <==> Origin(payload, table, end, r)
    {
      ProperIff(payload, table, end, r);
    }
    if Needed(payload) != [] {
      assert Dynamic(1, Needed(payload)[0]) in pairs;
    }
  }

  /* ---------- the patch ---------- */

  /** The number a digit string stands for, most significant digit first. */
  function Number(digits: Bytes): int {
    if digits == [] then 0
    else 10 * Number(digits[..|digits| - 1]) + (digits[|digits| - 1] - '0' as int)
  }

  /** A number as it is written: digits only, and no leading zero but in "0" itself. */
  predicate Written(digits: Bytes) {
    && digits != []
    && (forall i :: 0 <= i < |digits| ==> '0' as int <= digits[i] <= '9' as int)
    && (digits[0] == '0' as int ==> |digits| == 1)
  }

  /** The decimal form is the one way a number is written. */
  lemma {:induction false} DecimalIff(n: nat, digits: Bytes)
    ensures digits == Decimal(n) <==> Written(digits) && Number(digits) == n
    decreases n
  {
    DecimalIsWritten(n);
    if Written(digits) && Number(digits) == n {
      var most := digits[..|digits| - 1];
      if |digits| == 1 {
        assert most == [];
      } else {
        NumberIsPositive(most);
        assert n / 10 == Number(most) && n % 10 == digits[|digits| - 1] - 48;
        DecimalIff(n / 10, most);
        assert digits == most + [digits[|digits| - 1]];
      }
    }
  }

  lemma {:induction false} NumberIsPositive(digits: Bytes)
    requires digits != [] && digits[0] != '0' as int
    requires forall i :: 0 <= i < |digits| ==> '0' as int <= digits[i] <= '9' as int
    ensures Number(digits) >= 1
  {
    if |digits| > 1 {
      NumberIsPositive(digits[..|digits| - 1]);
    } else {
      assert digits[..0] == [];
    }
  }

  lemma {:induction false} DecimalIsWritten(n: nat)
    ensures Written(Decimal(n)) && Number(Decimal(n)) == n
    ensures n > 0 ==> Decimal(n)[0] != '0' as int
  {
    if n >= 10 {
      DecimalIsWritten(n / 10);
      assert Decimal(n)[..|Decimal(n)| - 1] == Decimal(n / 10);
    } else {
      assert Decimal(n)[..0] == [];
    }
  }

  lemma FilledByByte(r: Relocation, descriptor: nat, digits: Bytes)
    requires |Replacement(descriptor)| <= r.size && Written(digits) && Number(digits) == descriptor
    ensures 14 + |digits| <= r.size == |Filled(r, descriptor)|
    ensures forall k :: 0 <= k < r.size ==> Filled(r, descriptor)[k] == PatchedByte(digits, k)
  {
    DecimalIff(descriptor, digits);
    DescriptorsAreSpelled();
    assert DESCRIPTORS + digits == Replacement(descriptor);
  }

  /** The descriptor's path, then NULs. */
  function PatchedByte(digits: Bytes, k: nat): int {
    if k < 14 then "/proc/self/fd/"[k] as int else if k < 14 + |digits| then digits[k - 14] else 0
  }

  /** A patched range byte for byte: the descriptor's path, then NULs. */
  lemma PatchIsSpelled(
    before: Bytes, after: Bytes, rs: seq<Relocation>, descriptors: map<Bytes, nat>, r: Relocation, digits: Bytes)
    requires Fits(rs, descriptors) && Patched(before, after, rs, descriptors) && r in rs
    requires Written(digits) && Number(digits) == descriptors[r.name]
    ensures 14 + |digits| <= r.size && r.start + r.size <= |after| == |before|
    ensures forall k: nat :: k < r.size ==> after[r.start + k] == PatchedByte(digits, k)
  {
    RangeIsSpelled(after, r, descriptors[r.name], digits);
  }

  lemma RangeIsSpelled(after: Bytes, r: Relocation, descriptor: nat, digits: Bytes)
    requires |Replacement(descriptor)| <= r.size && Written(digits) && Number(digits) == descriptor
    requires r.start + r.size <= |after| && after[r.start..r.start + r.size] == Filled(r, descriptor)
    ensures 14 + |digits| <= r.size
    ensures forall k: nat :: k < r.size ==> after[r.start + k] == PatchedByte(digits, k)
  {
    FilledByByte(r, descriptor, digits);
    var filled := Filled(r, descriptor);
    forall k: nat | k < r.size
      ensures after[r.start + k] == filled[k]
    {
      assert after[r.start..r.start + r.size][k] == filled[k];
    }
  }

  /** Outside the ranges the patch changes nothing. */
  lemma RestIsUntouched(before: Bytes, after: Bytes, rs: seq<Relocation>, descriptors: map<Bytes, nat>, i: nat)
    requires Fits(rs, descriptors) && Patched(before, after, rs, descriptors) && i < |before|
    requires forall q :: q in rs ==> i < q.start || q.start + q.size <= i
    ensures |after| == |before| && after[i] == before[i]
  {
    assert forall q :: q in rs ==> !Covered(q, i);
  }

  /** The descriptor path fits by its written length. */
  lemma FitsIff(rs: seq<Relocation>, descriptors: map<Bytes, nat>)
    ensures Fits(rs, descriptors) <==>
              forall r :: r in rs ==>
                r.name in descriptors
                && exists digits :: Written(digits) && Number(digits) == descriptors[r.name] && 14 + |digits| <= r.size
  {
    forall r | r in rs && r.name in descriptors
      ensures |Replacement(descriptors[r.name])| <= r.size
              <==> exists digits :: Written(digits) && Number(digits) == descriptors[r.name] && 14 + |digits| <= r.size
    {
      var n := descriptors[r.name];
      DecimalIff(n, Decimal(n));
      forall digits | Written(digits) && Number(digits) == n
        ensures digits == Decimal(n)
      {
        DecimalIff(n, digits);
      }
    }
  }
}
