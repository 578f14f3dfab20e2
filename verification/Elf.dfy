/**
 Relocation of the `$ORIGIN` dependencies of an ELF64 provider: a bounds-checked walk over
 the program table, the dynamic section and the string table (System V gABI, chapter 5),
 then an in-place patch that replaces each dependency by a descriptor path.
 */
module Elf {
  import opened Objects

  type byte = x: int | 0 <= x < 256
  type Bytes = seq<byte>

  const MAGIC: Bytes := [0x7f, 0x45, 0x4c, 0x46]
  const ORIGIN: Bytes := [36, 79, 82, 73, 71, 73, 78, 47, 46, 46, 47, 108, 105, 98, 47]  // $ORIGIN/../lib/
  const DESCRIPTORS: Bytes := [47, 112, 114, 111, 99, 47, 115, 101, 108, 102, 47, 102, 100, 47]  // /proc/self/fd/
  const DOLLAR: byte := 36

  datatype Segment = Segment(fileOffset: nat, address: nat, fileSize: nat)

  datatype Dynamic = Dynamic(tag: nat, value: nat)

  datatype Relocation = Relocation(start: nat, size: nat, name: Bytes)

  /** Little-endian fields; every read of the parser goes through them. */
  function Half(payload: Bytes, offset: nat): nat
    requires offset + 2 <= |payload|
  {
    payload[offset] as int + 256 * (payload[offset + 1] as int)
  }

  function Word(payload: Bytes, offset: nat): nat
    requires offset + 4 <= |payload|
  {
    Half(payload, offset) + 0x1_0000 * Half(payload, offset + 2)
  }

  function Long(payload: Bytes, offset: nat): nat
    requires offset + 8 <= |payload|
  {
    Word(payload, offset) + 0x1_0000_0000 * Word(payload, offset + 4)
  }

  /* ---------- the program table ---------- */

  const PT_LOAD: nat := 1
  const PT_DYNAMIC: nat := 2

  datatype Header = Header(offset: nat, entrySize: nat, count: nat)

  function ReadHeader(payload: Bytes): Header
    requires |payload| >= 64
  {
    Header(Long(payload, 32), Half(payload, 54), Half(payload, 56))
  }

  /** The program table lies in the file and its entries are long enough. */
  predicate TableFits(payload: Bytes, header: Header) {
    && header.entrySize >= 56
    && header.count >= 1
    && header.offset + header.entrySize * header.count <= |payload|
  }

  function EntryOffset(payload: Bytes, header: Header, index: nat): (offset: nat)
    requires TableFits(payload, header) && index < header.count
    ensures offset + 56 <= |payload|
  {
    MultipleGrows(header.entrySize, index + 1, header.count);
    assert header.entrySize * (index + 1) == header.entrySize * index + header.entrySize;
    header.offset + header.entrySize * index
  }

  lemma {:induction false} MultipleGrows(size: nat, a: nat, b: nat)
    requires a <= b
    ensures size * a <= size * b
  {
    if a < b {
      MultipleGrows(size, a, b - 1);
      assert size * b == size * (b - 1) + size;
    }
  }

  function EntryType(payload: Bytes, header: Header, index: nat): nat
    requires TableFits(payload, header) && index < header.count
  {
    Word(payload, EntryOffset(payload, header, index))
  }

  function EntrySegment(payload: Bytes, header: Header, index: nat): Segment
    requires TableFits(payload, header) && index < header.count
  {
    var offset := EntryOffset(payload, header, index);
    Segment(Long(payload, offset + 8), Long(payload, offset + 16), Long(payload, offset + 32))
  }

  predicate InFile(payload: Bytes, segment: Segment) { segment.fileOffset + segment.fileSize <= |payload| }

  /** The segments of one type among the first `count` entries, in order. */
  function SegmentsOf(payload: Bytes, header: Header, kind: nat, count: nat): seq<Segment>
    requires TableFits(payload, header) && count <= header.count
  {
    if count == 0 then []
    else SegmentsOf(payload, header, kind, count - 1)
         + (if EntryType(payload, header, count - 1) == kind then [EntrySegment(payload, header, count - 1)] else [])
  }

  /** Accepted exactly when every segment lies in the file and at most one is dynamic. */
  method ReadProgramTable(payload: Bytes, header: Header)
    returns (ok: bool, loads: seq<Segment>, dynamic: Option<Segment>)
    requires TableFits(payload, header)
    ensures ok <==>
              && (forall i :: 0 <= i < header.count ==> InFile(payload, EntrySegment(payload, header, i)))
              && |SegmentsOf(payload, header, PT_DYNAMIC, header.count)| <= 1
    ensures ok ==> loads == SegmentsOf(payload, header, PT_LOAD, header.count)
    ensures ok ==> SegmentsOf(payload, header, PT_DYNAMIC, header.count)
                   == if dynamic.Some? then [dynamic.value] else []
    ensures ok && dynamic.Some? ==> InFile(payload, dynamic.value)
  {
    loads, dynamic := [], None;
    for i := 0 to header.count
      invariant forall k :: 0 <= k < i ==> InFile(payload, EntrySegment(payload, header, k))
      invariant loads == SegmentsOf(payload, header, PT_LOAD, i)
      invariant SegmentsOf(payload, header, PT_DYNAMIC, i) == if dynamic.Some? then [dynamic.value] else []
      invariant dynamic.Some? ==> InFile(payload, dynamic.value)
    {
      var segment, kind := EntrySegment(payload, header, i), EntryType(payload, header, i);
      if !InFile(payload, segment) {
        return false, loads, dynamic;
      }
      if kind == PT_LOAD {
        loads := loads + [segment];
      } else if kind == PT_DYNAMIC {
        if dynamic.Some? {
          SegmentsOnlyGrow(payload, header, PT_DYNAMIC, i + 1, header.count);
          return false, loads, dynamic;
        }
        dynamic := Some(segment);
      }
    }
    ok := true;
  }

  lemma {:induction false} SegmentsOnlyGrow(payload: Bytes, header: Header, kind: nat, a: nat, b: nat)
    requires TableFits(payload, header) && a <= b <= header.count
    ensures |SegmentsOf(payload, header, kind, a)| <= |SegmentsOf(payload, header, kind, b)|
  {
    if a < b {
      SegmentsOnlyGrow(payload, header, kind, a, b - 1);
    }
  }

  /* ---------- the dynamic section ---------- */

  const DT_NULL: nat := 0
  const DT_NEEDED: nat := 1
  const DT_STRTAB: nat := 5
  const DT_STRSZ: nat := 10

  function EntryAt(payload: Bytes, offset: nat): Dynamic
    requires offset + 16 <= |payload|
  {
    Dynamic(Long(payload, offset), Long(payload, offset + 8))
  }

  /** The dynamic entries up to the first null tag, among `count` entries at `offset`. */
  function Entries(payload: Bytes, offset: nat, count: nat): seq<Dynamic>
    requires offset + 16 * count <= |payload|
    decreases count
  {
    if count == 0 then []
    else
      var entry := EntryAt(payload, offset);
      if entry.tag == DT_NULL then [] else [entry] + Entries(payload, offset + 16, count - 1)
  }

  function Values(entries: seq<Dynamic>, tag: nat): seq<nat> {
    if entries == [] then []
    else
      var last := |entries| - 1;
      Values(entries[..last], tag) + if entries[last].tag == tag then [entries[last].value] else []
  }

  function LastValue(entries: seq<Dynamic>, tag: nat): Option<nat> {
    var values := Values(entries, tag);
    if values == [] then None else Some(values[|values| - 1])
  }

  lemma ValuesOfOneMore(entries: seq<Dynamic>, entry: Dynamic, tag: nat)
    ensures Values(entries + [entry], tag) == Values(entries, tag) + if entry.tag == tag then [entry.value] else []
  {
    assert (entries + [entry])[..|entries|] == entries;
  }

  /** The entries at an offset continue what was seen before it. */
  lemma EntriesContinue(payload: Bytes, offset: nat, count: nat, seen: seq<Dynamic>, whole: seq<Dynamic>)
    requires offset + 16 * count <= |payload| && count > 0
    requires seen + Entries(payload, offset, count) == whole
    ensures EntryAt(payload, offset).tag == DT_NULL ==> seen == whole
    ensures EntryAt(payload, offset).tag != DT_NULL ==>
              seen + [EntryAt(payload, offset)] + Entries(payload, offset + 16, count - 1) == whole
  {
    var entry := EntryAt(payload, offset);
    if entry.tag != DT_NULL {
      assert seen + ([entry] + Entries(payload, offset + 16, count - 1)) == whole;
    }
  }

  predicate Scanned(seen: seq<Dynamic>, address: Option<nat>, length: Option<nat>, needed: seq<nat>) {
    && needed == Values(seen, DT_NEEDED)
    && address == LastValue(seen, DT_STRTAB)
    && length == LastValue(seen, DT_STRSZ)
  }

  lemma ScannedOneMore(
    seen: seq<Dynamic>, entry: Dynamic, address: Option<nat>, length: Option<nat>, needed: seq<nat>)
    requires Scanned(seen, address, length, needed)
    ensures Scanned(seen + [entry],
                    if entry.tag == DT_STRTAB then Some(entry.value) else address,
                    if entry.tag == DT_STRSZ then Some(entry.value) else length,
                    if entry.tag == DT_NEEDED then needed + [entry.value] else needed)
  {
    ValuesOfOneMore(seen, entry, DT_NEEDED);
    ValuesOfOneMore(seen, entry, DT_STRTAB);
    ValuesOfOneMore(seen, entry, DT_STRSZ);
  }

  method ScanDynamic(payload: Bytes, offset: nat, count: nat)
    returns (address: Option<nat>, length: Option<nat>, needed: seq<nat>)
    requires offset + 16 * count <= |payload|
    ensures Scanned(Entries(payload, offset, count), address, length, needed)
  {
    address, length, needed := None, None, [];
    ghost var seen, whole := [], Entries(payload, offset, count);
    var at := offset;
    for i := 0 to count
      invariant at == offset + 16 * i
      invariant seen + Entries(payload, at, count - i) == whole
      invariant Scanned(seen, address, length, needed)
    {
      var entry := EntryAt(payload, at);
      EntriesContinue(payload, at, count - i, seen, whole);
      if entry.tag == DT_NULL {
        return;
      }
      ScannedOneMore(seen, entry, address, length, needed);
      if entry.tag == DT_NEEDED {
        needed := needed + [entry.value];
      } else if entry.tag == DT_STRTAB {
        address := Some(entry.value);
      } else if entry.tag == DT_STRSZ {
        length := Some(entry.value);
      }
      seen := seen + [entry];
      at := at + 16;
    }
    assert seen == whole;
  }

  /* ---------- the string table ---------- */

  predicate Holds(segment: Segment, address: nat) {
    segment.address <= address < segment.address + segment.fileSize
  }

  function FileOffset(segment: Segment, address: nat): nat
    requires Holds(segment, address)
  {
    segment.fileOffset + (address - segment.address)
  }

  /** The table starts at the one file offset that every segment holding its address agrees
      on, and ends in the file. */
  predicate TableOf(
    loads: seq<Segment>, address: Option<nat>, length: Option<nat>, total: nat, table: nat, end: nat)
  {
    && address.Some? && length.Some?
    && table < end <= total && end == table + length.value
    && (exists s :: s in loads && Holds(s, address.value))
    && (forall s :: s in loads && Holds(s, address.value) ==> FileOffset(s, address.value) == table)
  }

  method ResolveTable(loads: seq<Segment>, address: Option<nat>, length: Option<nat>, total: nat)
    returns (start: Option<nat>)
    ensures start.Some? ==> length.Some? && TableOf(loads, address, length, total, start.value, start.value + length.value)
    ensures start.None? ==> forall table, end :: !TableOf(loads, address, length, total, table, end)
  {
    if address.None? || length.None? || length.value < 1 {
      return None;
    }
    start := LocateTable(loads, address.value);
    if start.Some? && start.value + length.value > total {
      return None;
    }
  }

  method LocateTable(loads: seq<Segment>, address: nat) returns (start: Option<nat>)
    ensures start.Some? ==>
              && (exists s :: s in loads && Holds(s, address))
              && (forall s :: s in loads && Holds(s, address) ==> FileOffset(s, address) == start.value)
    ensures start.None? ==>
              || (forall s :: s in loads ==> !Holds(s, address))
              || (exists s, t :: s in loads && t in loads && Holds(s, address) && Holds(t, address)
                                 && FileOffset(s, address) != FileOffset(t, address))
  {
    start := None;
    ghost var holder: Segment := Segment(0, 0, 0);
    for i := 0 to |loads|
      invariant start.None? ==> forall k :: 0 <= k < i ==> !Holds(loads[k], address)
      invariant start.Some? ==> holder in loads && Holds(holder, address) && FileOffset(holder, address) == start.value
      invariant start.Some? ==>
                  forall k :: 0 <= k < i && Holds(loads[k], address) ==> FileOffset(loads[k], address) == start.value
    {
      if Holds(loads[i], address) {
        var offset := FileOffset(loads[i], address);
        assert loads[i] in loads;
        if start.Some? && start.value != offset {
          return None;
        }
        start := Some(offset);
        holder := loads[i];
      }
    }
  }

  /* ---------- the dependency strings ---------- */

  predicate SafeCharacter(c: byte) {
    97 <= c <= 122 || 65 <= c <= 90 || 48 <= c <= 57 || c == 46 || c == 95 || c == 43 || c == 45
  }

  predicate SafeName(name: Bytes) {
    name != [] && forall i :: 0 <= i < |name| ==> SafeCharacter(name[i])
  }

  /** The string at `start` ends with the first NUL at `end`. */
  predicate Terminated(payload: Bytes, start: nat, end: nat) {
    && start <= end < |payload|
    && payload[end] == 0
    && forall k :: start <= k < end ==> payload[k] != 0
  }

  predicate StartsWithOrigin(text: Bytes) { |text| >= |ORIGIN| && text[..|ORIGIN|] == ORIGIN }

  /** What a relocation is: an origin dependency of the payload, inside the string table with
      its terminating NUL, naming a plain library. */
  predicate Proper(payload: Bytes, table: nat, end: nat, r: Relocation) {
    && end <= |payload|
    && table <= r.start && r.start + r.size < end
    && Terminated(payload, r.start, r.start + r.size)
    && payload[r.start..r.start + r.size] == ORIGIN + r.name
    && SafeName(r.name)
  }

  method FindNul(payload: Bytes, start: nat, end: nat) returns (at: Option<nat>)
    requires start <= end <= |payload|
    ensures at.Some? ==> at.value < end && Terminated(payload, start, at.value)
    ensures at.None? ==> forall k :: start <= k < end ==> payload[k] != 0
  {
    for i := start to end
      invariant forall k :: start <= k < i ==> payload[k] != 0
    {
      if payload[i] == 0 {
        return Some(i);
      }
    }
    return None;
  }

  /** A needed offset the parser can use: it names a terminated string of the table, and if
      that is an origin dependency, it names a plain library. */
  ghost predicate Usable(payload: Bytes, table: nat, end: nat, needed: nat) {
    table + needed < end <= |payload| && exists stop: nat :: UsableTo(payload, table, needed, stop, end)
  }

  predicate UsableTo(payload: Bytes, table: nat, needed: nat, stop: nat, end: nat) {
    var start := table + needed;
    && stop < end && Terminated(payload, start, stop)
    && (StartsWithOrigin(payload[start..stop]) ==> SafeName(payload[start..stop][|ORIGIN|..]))
  }

  lemma TerminatedIsUnique(payload: Bytes, start: nat, a: nat, b: nat)
    requires Terminated(payload, start, a) && Terminated(payload, start, b)
    ensures a == b
  {
  }

  /** The relocation of one needed offset, if it is an origin dependency. */
  method RelocationAt(payload: Bytes, table: nat, end: nat, needed: nat) returns (ok: bool, r: Option<Relocation>)
    requires table <= end <= |payload|
    ensures ok <==> Usable(payload, table, end, needed)
    ensures ok && r.Some? ==> Proper(payload, table, end, r.value) && r.value.start == table + needed
    ensures ok ==> forall other :: Proper(payload, table, end, other) && other.start == table + needed ==> r == Some(other)
  {
    var start := table + needed;
    r := None;
    if start >= end {
      return false, None;
    }
    var stop := FindNul(payload, start, end);
    if stop.None? {
      return false, None;
    }
    var dependency := payload[start..stop.value];
    if !StartsWithOrigin(dependency) {
      NoRelocationAt(payload, table, end, start, stop.value);
      assert UsableTo(payload, table, needed, stop.value, end);
      return true, None;
    }
    var name := dependency[|ORIGIN|..];
    if !SafeName(name) {
      UnsafeIsUnusable(payload, table, end, needed, stop.value);
      return false, None;
    }
    assert UsableTo(payload, table, needed, stop.value, end);
    r := Some(Relocation(start, |dependency|, name));
    assert dependency == ORIGIN + name;
    OneRelocationAt(payload, table, end, r.value);
    ok := true;
  }

  /** Accepted exactly when every needed offset is usable; every relocation is proper, comes
      from a needed offset, and every needed origin dependency has its relocation. */
  method CollectRelocations(payload: Bytes, table: nat, end: nat, needed: seq<nat>)
    returns (ok: bool, relocations: seq<Relocation>)
    requires table <= end <= |payload|
    ensures ok <==> forall n :: n in needed ==> Usable(payload, table, end, n)
    ensures ok ==> forall r :: r in relocations ==> Proper(payload, table, end, r) && (r.start - table) in needed
    ensures ok ==> forall r :: Proper(payload, table, end, r) && (r.start - table) in needed ==> r in relocations
  {
    relocations := [];
    for i := 0 to |needed|
      invariant forall k :: 0 <= k < i ==> Usable(payload, table, end, needed[k])
      invariant forall r :: r in relocations ==> Proper(payload, table, end, r) && (r.start - table) in needed
      invariant forall r, k :: 0 <= k < i && Proper(payload, table, end, r) && r.start == table + needed[k] ==> r in relocations
    {
      var usable, r := RelocationAt(payload, table, end, needed[i]);
      assert needed[i] in needed;
      if !usable {
        return false, relocations;
      }
      if r.Some? {
        assert r.value.start - table == needed[i];
        relocations := relocations + [r.value];
      }
    }
    ok := true;
  }

  lemma UnsafeIsUnusable(payload: Bytes, table: nat, end: nat, needed: nat, stop: nat)
    requires table + needed < end <= |payload| && stop < end && Terminated(payload, table + needed, stop)
    requires var text := payload[table + needed..stop]; StartsWithOrigin(text) && !SafeName(text[|ORIGIN|..])
    ensures !Usable(payload, table, end, needed)
  {
    forall other: nat
      ensures !UsableTo(payload, table, needed, other, end)
    {
      if other < end && Terminated(payload, table + needed, other) {
        TerminatedIsUnique(payload, table + needed, other, stop);
      }
    }
  }

  lemma NoRelocationAt(payload: Bytes, table: nat, end: nat, start: nat, stop: nat)
    requires Terminated(payload, start, stop) && !StartsWithOrigin(payload[start..stop])
    ensures forall r :: Proper(payload, table, end, r) ==> r.start != start
  {
    forall r: Relocation | r.start == start && Terminated(payload, start, start + r.size)
      ensures payload[start..start + r.size] != ORIGIN + r.name
    {
      TerminatedIsUnique(payload, start, start + r.size, stop);
      assert (ORIGIN + r.name)[..|ORIGIN|] == ORIGIN;
    }
  }

  /** A string offset determines its relocation. */
  lemma OneRelocationAt(payload: Bytes, table: nat, end: nat, r: Relocation)
    requires Proper(payload, table, end, r)
    ensures forall other :: Proper(payload, table, end, other) && other.start == r.start ==> other == r
  {
    forall other | Proper(payload, table, end, other) && other.start == r.start
      ensures other == r
    {
      TerminatedIsUnique(payload, r.start, r.start + r.size, other.start + other.size);
      assert r.name == (ORIGIN + r.name)[|ORIGIN|..];
      assert other.name == (ORIGIN + other.name)[|ORIGIN|..];
    }
  }

  /* ---------- the whole parser ---------- */

  predicate IsElf(payload: Bytes) { |payload| >= 4 && payload[..4] == MAGIC }

  predicate SupportedClass(payload: Bytes) { |payload| >= 64 && payload[4] == 2 && payload[5] == 1 }

  /** A little-endian ELF64 file whose segments lie in it, with at most one dynamic segment,
      made of whole entries. */
  predicate WellLaid(payload: Bytes) {
    && SupportedClass(payload)
    && var header := ReadHeader(payload);
       && TableFits(payload, header)
       && (forall i :: 0 <= i < header.count ==> InFile(payload, EntrySegment(payload, header, i)))
       && var dynamics := SegmentsOf(payload, header, PT_DYNAMIC, header.count);
          |dynamics| == 0
          || (|dynamics| == 1 && InFile(payload, dynamics[0]) && dynamics[0].fileSize % 16 == 0)
  }

  function LoadSegments(payload: Bytes): seq<Segment>
    requires WellLaid(payload)
  {
    SegmentsOf(payload, ReadHeader(payload), PT_LOAD, ReadHeader(payload).count)
  }

  function DynamicEntries(payload: Bytes): seq<Dynamic>
    requires WellLaid(payload)
  {
    var header := ReadHeader(payload);
    var dynamics := SegmentsOf(payload, header, PT_DYNAMIC, header.count);
    if dynamics == [] then [] else Entries(payload, dynamics[0].fileOffset, dynamics[0].fileSize / 16)
  }

  /** The dependencies of the file, as offsets into its string table. */
  function Needed(payload: Bytes): seq<nat>
    requires WellLaid(payload)
  {
    Values(DynamicEntries(payload), DT_NEEDED)
  }

  /** The string table, at the one place its load segments put it. */
  predicate TableAt(payload: Bytes, table: nat, end: nat)
    requires WellLaid(payload)
  {
    var entries := DynamicEntries(payload);
    TableOf(LoadSegments(payload), LastValue(entries, DT_STRTAB), LastValue(entries, DT_STRSZ), |payload|, table, end)
  }

  /** The files the parser accepts. */
  ghost predicate Accepted(payload: Bytes) {
    && WellLaid(payload)
    && (Needed(payload) == []
        || exists table, end :: TableAt(payload, table, end)
             && forall n :: n in Needed(payload) ==> Usable(payload, table, end, n))
  }

  /** The relocations of an accepted file are exactly its needed origin dependencies, each of
      them inside the string table with its terminating NUL. */
  ghost predicate Relocates(payload: Bytes, relocations: seq<Relocation>, table: nat, end: nat)
    requires WellLaid(payload)
  {
    if Needed(payload) == [] then relocations == []
    else
      && TableAt(payload, table, end)
      && forall r :: r in relocations <==> Proper(payload, table, end, r) && (r.start - table) in Needed(payload)
  }

  /** The whole parser, on any byte sequence whatsoever: it reports nothing for what is not ELF,
      and accepts exactly the files above. */
  method OriginDependencyRelocations(payload: Bytes)
    returns (result: Option<seq<Relocation>>, ghost table: nat, ghost end: nat)
    ensures !IsElf(payload) ==> result == Some([])
    ensures IsElf(payload) ==> (result.Some? <==> Accepted(payload))
    ensures IsElf(payload) && result.Some? ==> Relocates(payload, result.value, table, end)
    ensures result.Some? ==> forall r :: r in result.value ==> Proper(payload, table, end, r)
  {
    table, end := 0, 0;
    if !IsElf(payload) {
      return Some([]), 0, 0;
    }
    var ok, loads, address, length, needed := ReadLayout(payload);
    if !ok {
      return None, 0, 0;
    }
    result, table, end := ResolveDependencies(payload, loads, address, length, needed);
    Concluded(payload, loads, address, length, needed, result, table, end);
  }

  /** What resolution says of the scanned entries is what the specification says of the file. */
  lemma Concluded(
    payload: Bytes, loads: seq<Segment>, address: Option<nat>, length: Option<nat>, needed: seq<nat>,
    result: Option<seq<Relocation>>, table: nat, end: nat)
    requires WellLaid(payload) && loads == LoadSegments(payload)
    requires Scanned(DynamicEntries(payload), address, length, needed)
    requires Resolves(payload, loads, address, length, needed, result, table, end)
    ensures result.Some? <==> Accepted(payload)
    ensures result.Some? ==> Relocates(payload, result.value, table, end)
  {
    TablesAgree(payload, loads, address, length, needed);
    AcceptedIff(payload, needed, result.Some?, table, end);
  }

  /** The string table of the file is the one its scanned entries name. */
  lemma TablesAgree(
    payload: Bytes, loads: seq<Segment>, address: Option<nat>, length: Option<nat>, needed: seq<nat>)
    requires WellLaid(payload) && loads == LoadSegments(payload)
    requires Scanned(DynamicEntries(payload), address, length, needed)
    ensures needed == Needed(payload)
    ensures forall t, e :: TableAt(payload, t, e) <==> TableOf(loads, address, length, |payload|, t, e)
  {
  }

  /** The program table and the dynamic section. */
  method ReadLayout(payload: Bytes)
    returns (ok: bool, loads: seq<Segment>, address: Option<nat>, length: Option<nat>, needed: seq<nat>)
    ensures ok <==> WellLaid(payload)
    ensures ok ==> loads == LoadSegments(payload) && Scanned(DynamicEntries(payload), address, length, needed)
  {
    ok, loads, address, length, needed := false, [], None, None, [];
    if !SupportedClass(payload) {
      return;
    }
    var header := ReadHeader(payload);
    if !TableFits(payload, header) {
      return;
    }
    var dynamic;
    ok, loads, dynamic := ReadProgramTable(payload, header);
    if !ok || dynamic.None? {
      return;
    }
    if dynamic.value.fileSize % 16 != 0 {
      ok := false;
      return;
    }
    address, length, needed := ScanDynamic(payload, dynamic.value.fileOffset, dynamic.value.fileSize / 16);
    LaidOut(payload, header, loads, dynamic.value, address, length, needed);
  }

  /** What the loops read is what the specification names. */
  lemma LaidOut(
    payload: Bytes, header: Header, loads: seq<Segment>, dynamic: Segment,
    address: Option<nat>, length: Option<nat>, needed: seq<nat>)
    requires SupportedClass(payload) && header == ReadHeader(payload) && TableFits(payload, header)
    requires forall i :: 0 <= i < header.count ==> InFile(payload, EntrySegment(payload, header, i))
    requires SegmentsOf(payload, header, PT_DYNAMIC, header.count) == [dynamic]
    requires loads == SegmentsOf(payload, header, PT_LOAD, header.count)
    requires InFile(payload, dynamic) && dynamic.fileSize % 16 == 0
    requires Scanned(Entries(payload, dynamic.fileOffset, dynamic.fileSize / 16), address, length, needed)
    ensures WellLaid(payload) && loads == LoadSegments(payload)
    ensures Scanned(DynamicEntries(payload), address, length, needed)
  {
  }

  lemma AcceptedIff(payload: Bytes, needed: seq<nat>, accepted: bool, table: nat, end: nat)
    requires WellLaid(payload) && needed == Needed(payload)
    requires accepted && needed != [] ==>
               TableAt(payload, table, end) && forall n :: n in needed ==> Usable(payload, table, end, n)
    requires !accepted ==>
               && needed != []
               && forall t, e :: TableAt(payload, t, e) ==> exists n :: n in needed && !Usable(payload, t, e, n)
    ensures accepted <==> Accepted(payload)
  {
  }

  ghost predicate Resolves(
    payload: Bytes, loads: seq<Segment>, address: Option<nat>, length: Option<nat>, needed: seq<nat>,
    result: Option<seq<Relocation>>, table: nat, end: nat)
  {
    if needed == [] then result == Some([])
    else if result.Some? then
      && TableOf(loads, address, length, |payload|, table, end)
      && (forall n :: n in needed ==> Usable(payload, table, end, n))
      && (forall r :: r in result.value <==> Proper(payload, table, end, r) && (r.start - table) in needed)
    else
      forall t, e :: TableOf(loads, address, length, |payload|, t, e) ==> exists n :: n in needed && !Usable(payload, t, e, n)
  }

  /** Locate the string table and collect the origin dependencies. */
  method ResolveDependencies(
    payload: Bytes, loads: seq<Segment>, address: Option<nat>, length: Option<nat>, needed: seq<nat>)
    returns (result: Option<seq<Relocation>>, ghost table: nat, ghost end: nat)
    ensures Resolves(payload, loads, address, length, needed, result, table, end)
    ensures result.Some? ==> forall r :: r in result.value ==> Proper(payload, table, end, r)
  {
    table, end := 0, 0;
    if needed == [] {
      return Some([]), 0, 0;
    }
    var start := ResolveTable(loads, address, length, |payload|);
    if start.None? {
      return None, 0, 0;
    }
    table, end := start.value, start.value + length.value;
    var collected, relocations := CollectRelocations(payload, start.value, start.value + length.value, needed);
    if !collected {
      return None, table, end;
    }
    result := Some(relocations);
  }

  /* ---------- ranges ---------- */

  /** Identical, or disjoint with the terminating NULs counted in. */
  predicate Apart(a: Relocation, b: Relocation) {
    a == b || a.start + a.size < b.start || b.start + b.size < a.start
  }

  /** A dollar sign only ever opens an origin dependency. */
  lemma DollarOpens(payload: Bytes, table: nat, end: nat, r: Relocation, at: nat)
    requires Proper(payload, table, end, r) && r.start <= at <= r.start + r.size
    ensures payload[at] == DOLLAR <==> at == r.start
  {
    var text := ORIGIN + r.name;
    assert payload[r.start] == text[0] by {
      assert payload[r.start..r.start + r.size][0] == payload[r.start];
    }
    if at < r.start + r.size {
      var k := at - r.start;
      assert payload[r.start..r.start + r.size][k] == payload[at] == text[k];
      if k >= |ORIGIN| {
        assert text[k] == r.name[k - |ORIGIN|];
      }
    }
  }

  lemma ProperAreApart(payload: Bytes, table: nat, end: nat, a: Relocation, b: Relocation)
    requires Proper(payload, table, end, a) && Proper(payload, table, end, b)
    ensures Apart(a, b)
  {
    DollarOpens(payload, table, end, a, a.start);
    DollarOpens(payload, table, end, b, b.start);
    if a.start <= b.start <= a.start + a.size {
      DollarOpens(payload, table, end, a, b.start);
      OneRelocationAt(payload, table, end, a);
    } else if b.start <= a.start <= b.start + b.size {
      DollarOpens(payload, table, end, b, a.start);
      OneRelocationAt(payload, table, end, b);
    }
  }

  /* ---------- the patch ---------- */

  function Decimal(n: nat): Bytes
  {
    if n < 10 then [48 + n] else Decimal(n / 10) + [48 + n % 10]
  }

  function Replacement(descriptor: nat): Bytes { DESCRIPTORS + Decimal(descriptor) }

  lemma {:induction false} DecimalHasNoNul(n: nat)
    ensures forall i :: 0 <= i < |Decimal(n)| ==> Decimal(n)[i] != 0
  {
    if n >= 10 {
      DecimalHasNoNul(n / 10);
    }
  }

  /** What the patch writes over one dependency: the descriptor path, padded with NULs. */
  function Filled(r: Relocation, descriptor: nat): Bytes
    requires |Replacement(descriptor)| <= r.size
  {
    Replacement(descriptor) + seq(r.size - |Replacement(descriptor)|, _ => 0)
  }

  predicate Covered(r: Relocation, i: nat) { r.start <= i < r.start + r.size }

  predicate Fits(rs: seq<Relocation>, descriptors: map<Bytes, nat>) {
    forall r :: r in rs ==> r.name in descriptors && |Replacement(descriptors[r.name])| <= r.size
  }

  /** The file after the patch: same length, every relocated range filled, nothing else moved. */
  ghost predicate Patched(before: Bytes, after: Bytes, rs: seq<Relocation>, descriptors: map<Bytes, nat>)
    requires Fits(rs, descriptors)
  {
    && |after| == |before|
    && (forall r :: r in rs ==> r.start + r.size <= |after|
                                && after[r.start..r.start + r.size] == Filled(r, descriptors[r.name]))
    && (forall i :: 0 <= i < |before| && (forall r :: r in rs ==> !Covered(r, i)) ==> after[i] == before[i])
  }

  lemma PatchedOneMore(
    before: Bytes, mid: Bytes, after: Bytes, done: seq<Relocation>, r: Relocation, descriptors: map<Bytes, nat>)
    requires Fits(done + [r], descriptors) && Fits(done, descriptors) && Patched(before, mid, done, descriptors)
    requires r.start + r.size <= |mid| == |after|
    requires forall d :: d in done ==> Apart(d, r)
    requires after[r.start..r.start + r.size] == Filled(r, descriptors[r.name])
    requires forall i :: 0 <= i < |mid| && !Covered(r, i) ==> after[i] == mid[i]
    ensures Patched(before, after, done + [r], descriptors)
  {
    forall d | d in done
      ensures after[d.start..d.start + d.size] == Filled(d, descriptors[d.name])
    {
      if d != r {
        assert after[d.start..d.start + d.size] == mid[d.start..d.start + d.size];
      }
    }
    forall i | 0 <= i < |before| && forall d :: d in done + [r] ==> !Covered(d, i)
      ensures after[i] == before[i]
    {
      assert r in done + [r];
      assert forall d :: d in done ==> d in done + [r];
    }
  }

  /** Overwrite each relocated range; a path that does not fit stops the patch. */
  method Patch(image: array<byte>, relocations: seq<Relocation>, descriptors: map<Bytes, nat>) returns (ok: bool)
    requires forall r :: r in relocations ==> r.start + r.size <= image.Length && r.name in descriptors
    requires forall a, b :: a in relocations && b in relocations ==> Apart(a, b)
    modifies image
    ensures ok <==> Fits(relocations, descriptors)
    ensures ok ==> Patched(old(image[..]), image[..], relocations, descriptors)
  {
    ghost var before := image[..];
    for i := 0 to |relocations|
      invariant Fits(relocations[..i], descriptors)
      invariant Patched(before, image[..], relocations[..i], descriptors)
    {
      var r := relocations[i];
      assert r in relocations;
      if |Replacement(descriptors[r.name])| > r.size {
        return false;
      }
      ghost var mid := image[..];
      var filled := Filled(r, descriptors[r.name]);
      forall k | 0 <= k < r.size {
        image[r.start + k] := filled[k];
      }
      assert image[..][r.start..r.start + r.size] == filled;
      assert relocations[..i + 1] == relocations[..i] + [r];
      PatchedOneMore(before, mid, image[..], relocations[..i], r, descriptors);
    }
    assert relocations[..|relocations|] == relocations;
    ok := true;
  }

  /** The result does not depend on the order of the relocations, or on repetitions. */
  lemma PatchIsOrderIndependent(
    before: Bytes, a: Bytes, b: Bytes, rs: seq<Relocation>, others: seq<Relocation>, descriptors: map<Bytes, nat>)
    requires Fits(rs, descriptors) && Fits(others, descriptors)
    requires forall r :: r in rs <==> r in others
    requires Patched(before, a, rs, descriptors) && Patched(before, b, others, descriptors)
    ensures a == b
  {
    forall i | 0 <= i < |a|
      ensures a[i] == b[i]
    {
      if r :| r in rs && Covered(r, i) {
        PatchedByte(before, a, rs, descriptors, r, i);
        PatchedByte(before, b, others, descriptors, r, i);
      }
    }
  }

  lemma PatchedByte(
    before: Bytes, after: Bytes, rs: seq<Relocation>, descriptors: map<Bytes, nat>, r: Relocation, i: nat)
    requires Fits(rs, descriptors) && Patched(before, after, rs, descriptors) && r in rs && Covered(r, i)
    ensures i < |after| && after[i] == Filled(r, descriptors[r.name])[i - r.start]
  {
    assert after[r.start..r.start + r.size][i - r.start] == after[i];
  }

  /** After the patch, the string at each relocated offset is exactly its descriptor path. */
  lemma PatchedStrings(
    before: Bytes, after: Bytes, table: nat, end: nat, rs: seq<Relocation>, descriptors: map<Bytes, nat>, r: Relocation)
    requires Fits(rs, descriptors) && Patched(before, after, rs, descriptors)
    requires forall q :: q in rs ==> Proper(before, table, end, q)
    requires r in rs
    ensures var path := Replacement(descriptors[r.name]);
            && Terminated(after, r.start, r.start + |path|)
            && after[r.start..r.start + |path|] == path
  {
    var stop := r.start + r.size;
    forall q | q in rs
      ensures !Covered(q, stop)
    {
      ProperAreApart(before, table, end, q, r);
    }
    assert Proper(before, table, end, r);
    assert after[stop] == 0;
    FilledReadsBack(after, r, descriptors[r.name]);
  }

  lemma FilledReadsBack(after: Bytes, r: Relocation, descriptor: nat)
    requires |Replacement(descriptor)| <= r.size && r.start + r.size < |after|
    requires after[r.start..r.start + r.size] == Filled(r, descriptor) && after[r.start + r.size] == 0
    ensures var path := Replacement(descriptor);
            Terminated(after, r.start, r.start + |path|) && after[r.start..r.start + |path|] == path
  {
    var path, filled := Replacement(descriptor), Filled(r, descriptor);
    DecimalHasNoNul(descriptor);
    assert forall k :: 0 <= k < |path| ==> path[k] != 0;
    forall k | 0 <= k < r.size
      ensures after[r.start + k] == filled[k]
    {
      assert after[r.start..r.start + r.size][k] == filled[k];
    }
    assert after[r.start..r.start + |path|] == filled[..|path|] == path;
    forall k | r.start <= k < r.start + |path|
      ensures after[k] != 0
    {
      assert after[k] == path[k - r.start];
    }
  }

  /** The relocations the parser reports for a payload. */
  ghost predicate Reports(payload: Bytes, relocations: seq<Relocation>, table: nat, end: nat) {
    if !IsElf(payload) then relocations == []
    else Accepted(payload) && Relocates(payload, relocations, table, end)
  }

  /** Parse, then patch: what the executed image is, for every payload. It succeeds exactly when
      the payload is accepted and every descriptor path fits; the relocations are exactly the
      needed origin dependencies, and the image is patched there and nowhere else. */
  method RelocateProvider(image: array<byte>, descriptors: map<Bytes, nat>)
    returns (ok: bool, relocations: seq<Relocation>, ghost table: nat, ghost end: nat)
    modifies image
    ensures ok <==> (IsElf(old(image[..])) ==> Accepted(old(image[..]))) && Fits(relocations, descriptors)
    ensures (IsElf(old(image[..])) ==> Accepted(old(image[..]))) ==> Reports(old(image[..]), relocations, table, end)
    ensures ok ==> Patched(old(image[..]), image[..], relocations, descriptors)
    ensures ok ==> forall r :: r in relocations ==>
              && Proper(old(image[..]), table, end, r)
              && var path := Replacement(descriptors[r.name]);
                 Terminated(image[..], r.start, r.start + |path|) && image[..][r.start..r.start + |path|] == path
  {
    var payload := image[..];
    var parsed;
    parsed, table, end := OriginDependencyRelocations(payload);
    if parsed.None? {
      return false, [], table, end;
    }
    relocations := parsed.value;
    forall a, b | a in relocations && b in relocations
      ensures Apart(a, b)
    {
      ProperAreApart(payload, table, end, a, b);
    }
    if exists r :: r in relocations && r.name !in descriptors {
      return false, relocations, table, end;
    }
    ok := Patch(image, relocations, descriptors);
    if ok {
      forall r | r in relocations
        ensures var path := Replacement(descriptors[r.name]);
                && Terminated(image[..], r.start, r.start + |path|)
                && image[..][r.start..r.start + |path|] == path
      {
        PatchedStrings(payload, image[..], table, end, relocations, descriptors, r);
      }
    }
  }
}
