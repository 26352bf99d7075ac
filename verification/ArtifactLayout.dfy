/** The section directory of a compiled artifact.

A header of 128 bytes is followed by eight directory entries of 32 bytes and by
the sections: each starts at a multiple of eight, they follow one another, and
what lies between them is zero.
 */
module ArtifactLayout {
  import opened Collections
  import opened CompiledState
  import opened LittleEndian

  const SECTION_COUNT := 8
  const HEADER_SIZE := 128
  const ENTRY_SIZE := 32
  const DATA_OFFSET := 384
  const MAX64: nat := 0xFFFF_FFFF_FFFF_FFFF
  const LIMIT32: nat := 0x1_0000_0000

  datatype Section = Section(kind: nat, recordSize: nat, offset: nat, bytes: nat, count: nat)

  /** strings, string bytes, identities, entities, types, enum values, members, canonical types */
  function RecordSize(i: nat): (r: nat)
    ensures 0 < r <= 16
  {
    match i
    case 0 => 8
    case 1 => 1
    case 2 => 4
    case 6 => 8
    case _ => 16
  }

  // ----- Arithmetic that reports overflow -----

  function CheckedAdd(left: U64, right: U64): (r: Option<U64>)
    ensures r.Some? <==> left + right <= MAX64
    ensures r.Some? ==> r.value == left + right
  {
    if left > MAX64 - right then None else Some(left + right)
  }

  lemma ProductFits(left: nat, right: nat)
    requires 0 < left
    ensures right > MAX64 / left <==> left * right > MAX64
  {
    var q := MAX64 / left;
    assert left * q <= MAX64 < left * (q + 1);
    if right > q {
      Grows(left, q + 1, right);
    } else {
      Grows(left, right, q);
    }
  }

  lemma Grows(k: nat, a: nat, b: nat)
    requires a <= b
    ensures k * a <= k * b
  {
  }

  function CheckedMultiply(left: U64, right: U64): (r: Option<U64>)
    ensures r.Some? <==> left * right <= MAX64
    ensures r.Some? ==> r.value == left * right
  {
    if left != 0 && right > MAX64 / left then
      ProductFits(left, right);
      None
    else
      assert left * right <= MAX64 by {
        if left != 0 {
          ProductFits(left, right);
        }
      }
      Some(left * right)
  }

  function Aligned(value: nat): (r: nat)
    ensures value <= r <= value + 7 && r % 8 == 0
  {
    (value + 7) / 8 * 8
  }

  /** align8 */
  function Align8(value: U64): (r: Option<U64>)
    ensures r.Some? <==> value + 7 <= MAX64
    ensures r.Some? ==> r.value == Aligned(value)
  {
    var adjusted := CheckedAdd(value, 7);
    if adjusted.None? then None else Some(adjusted.value / 8 * 8)
  }

  // ----- The layout that the writer chooses -----

  /** Where section `i` of the plan may start. */
  function PlanEnd(counts: seq<nat>, i: nat): nat
    requires |counts| == SECTION_COUNT && i <= SECTION_COUNT
  {
    if i == 0 then DATA_OFFSET else Aligned(PlanEnd(counts, i - 1)) + counts[i - 1] * RecordSize(i - 1)
  }

  function Planned(counts: seq<nat>, i: nat): Section
    requires |counts| == SECTION_COUNT && i < SECTION_COUNT
  {
    Section(i + 1, RecordSize(i), Aligned(PlanEnd(counts, i)), counts[i] * RecordSize(i), counts[i])
  }

  function Plan(counts: seq<nat>): (r: seq<Section>)
    requires |counts| == SECTION_COUNT
    ensures |r| == SECTION_COUNT && forall i: nat :: i < SECTION_COUNT ==> r[i] == Planned(counts, i)
  {
    seq(SECTION_COUNT, i requires 0 <= i < SECTION_COUNT => Planned(counts, i))
  }

  ghost predicate Fit32(counts: seq<nat>) {
    forall c <- counts :: c < LIMIT32
  }

  lemma {:induction false} PlanBounded(counts: seq<nat>, i: nat)
    requires |counts| == SECTION_COUNT && i <= SECTION_COUNT && Fit32(counts)
    ensures PlanEnd(counts, i) <= DATA_OFFSET + i * 0x10_0000_0010
    decreases i
  {
    if i > 0 {
      PlanBounded(counts, i - 1);
      var size, count := RecordSize(i - 1), counts[i - 1];
      assert count in counts;
      assert count * size <= 16 * count;
    }
  }

  /** build_sections: no record count may need more than 32 bits; nothing else can overflow. */
  method BuildSections(counts: seq<nat>) returns (r: Option<(seq<Section>, U64)>)
    requires |counts| == SECTION_COUNT
    ensures r.Some? <==> Fit32(counts)
    ensures r.Some? ==> r.value == (Plan(counts), PlanEnd(counts, SECTION_COUNT))
  {
    for i := 0 to SECTION_COUNT
      invariant forall j: nat :: j < i ==> counts[j] < LIMIT32
    {
      if counts[i] >= LIMIT32 {
        assert counts[i] in counts;
        return None;
      }
    }
    var sections: seq<Section> := [];
    var next: U64 := DATA_OFFSET;
    for i := 0 to SECTION_COUNT
      invariant |sections| == i && next == PlanEnd(counts, i)
      invariant forall j: nat :: j < i ==> sections[j] == Planned(counts, j)
    {
      PlanBounded(counts, i);
      PlanBounded(counts, i + 1);
      var offset := Align8(next);
      if offset.None? {
        return None;
      }
      var bytes := CheckedMultiply(counts[i], RecordSize(i));
      if bytes.None? {
        return None;
      }
      var sum := CheckedAdd(offset.value, bytes.value);
      if sum.None? {
        return None;
      }
      sections := sections + [Section(i + 1, RecordSize(i), offset.value, bytes.value, counts[i])];
      next := sum.value;
    }
    assert sections == Plan(counts);
    r := Some((sections, next));
  }

  // ----- Directory entries -----

  function Unsigned(bytes: Bytes, at: nat, n: nat): (v: nat)
    requires at + n <= |bytes|
    ensures v < Radix(n)
  {
    Value(bytes[at..at + n])
  }

  function EntryOffset(i: nat): nat {
    HEADER_SIZE + i * ENTRY_SIZE
  }

  function Entry(bytes: Bytes, i: nat): Section
    requires |bytes| >= DATA_OFFSET && i < SECTION_COUNT
  {
    var at := EntryOffset(i);
    Section(Unsigned(bytes, at, 4), Unsigned(bytes, at + 28, 4), Unsigned(bytes, at + 8, 8),
            Unsigned(bytes, at + 16, 8), Unsigned(bytes, at + 24, 4))
  }

  function Flags(bytes: Bytes, i: nat): nat
    requires |bytes| >= DATA_OFFSET && i < SECTION_COUNT
  {
    Unsigned(bytes, EntryOffset(i) + 4, 4)
  }

  /** Where the section before `i` ends. */
  function EndBefore(bytes: Bytes, i: nat): nat
    requires |bytes| >= DATA_OFFSET && i <= SECTION_COUNT
  {
    if i == 0 then DATA_OFFSET else Entry(bytes, i - 1).offset + Entry(bytes, i - 1).bytes
  }

  ghost predicate ZeroBetween(bytes: Bytes, begin: nat, end: nat)
    requires end <= |bytes|
  {
    forall p :: begin <= p < end ==> bytes[p] == 0
  }

  ghost predicate EntryValid(bytes: Bytes, i: nat)
    requires |bytes| >= DATA_OFFSET && i < SECTION_COUNT
  {
    var s := Entry(bytes, i);
    && s.kind == i + 1 && Flags(bytes, i) == 0 && s.recordSize == RecordSize(i)
    && s.bytes == s.count * s.recordSize
    && s.offset % 8 == 0 && EndBefore(bytes, i) <= s.offset
    && s.offset + s.bytes <= |bytes|
    && ZeroBetween(bytes, EndBefore(bytes, i), s.offset)
  }

  ghost predicate DirectoryValid(bytes: Bytes) {
    && |bytes| >= DATA_OFFSET
    && (forall i: nat :: i < SECTION_COUNT ==> EntryValid(bytes, i))
    && EndBefore(bytes, SECTION_COUNT) == |bytes|
  }

  /** Sections follow one another and do not overlap. */
  lemma {:induction false} SectionsInOrder(bytes: Bytes, i: nat, j: nat)
    requires DirectoryValid(bytes) && i < j < SECTION_COUNT
    ensures Entry(bytes, i).offset + Entry(bytes, i).bytes <= Entry(bytes, j).offset
    decreases j
  {
    hide Entry, Flags, ZeroBetween, EntryOffset;
    assert EntryValid(bytes, j);
    if i + 1 < j {
      SectionsInOrder(bytes, i, j - 1);
      assert EntryValid(bytes, j - 1);
    }
  }

  ghost predicate InSection(bytes: Bytes, i: nat, p: nat)
    requires |bytes| >= DATA_OFFSET && i < SECTION_COUNT
  {
    Entry(bytes, i).offset <= p < Entry(bytes, i).offset + Entry(bytes, i).bytes
  }

  /** Sections and zero gaps together cover the file: no byte is left unchecked. */
  lemma {:induction false} EveryByteAccounted(bytes: Bytes, n: nat, p: nat)
    requires DirectoryValid(bytes) && n <= SECTION_COUNT && DATA_OFFSET <= p < EndBefore(bytes, n) <= |bytes|
    ensures bytes[p] == 0 || exists i: nat :: i < SECTION_COUNT && InSection(bytes, i, p)
    decreases n
  {
    hide Entry, Flags, EntryOffset;
    assert n > 0 && EntryValid(bytes, n - 1);
    if p < EndBefore(bytes, n - 1) {
      EveryByteAccounted(bytes, n - 1, p);
    } else if p >= Entry(bytes, n - 1).offset {
      assert InSection(bytes, n - 1, p);
    }
  }

  /** validate_directory */
  method ValidateDirectory(bytes: Bytes) returns (r: Option<seq<Section>>)
    requires |bytes| >= DATA_OFFSET
    ensures r.Some? <==> DirectoryValid(bytes)
    ensures r.Some? ==> |r.value| == SECTION_COUNT && forall i: nat :: i < SECTION_COUNT ==> r.value[i] == Entry(bytes, i)
  {
    hide EntryValid, ZeroBetween;
    var sections: seq<Section> := [];
    var previousEnd := DATA_OFFSET;
    for i := 0 to SECTION_COUNT
      invariant |sections| == i && previousEnd == EndBefore(bytes, i)
      invariant forall j: nat :: j < i ==> EntryValid(bytes, j) && sections[j] == Entry(bytes, j)
    {
      var section := CheckEntry(bytes, i, previousEnd);
      if section.None? {
        assert !EntryValid(bytes, i);
        return None;
      }
      sections := sections + [section.value];
      previousEnd := section.value.offset + section.value.bytes;
    }
    r := if previousEnd == |bytes| then Some(sections) else None;
  }

  method ReadEntry(bytes: Bytes, i: nat) returns (s: Section, flags: nat)
    requires |bytes| >= DATA_OFFSET && i < SECTION_COUNT
    ensures s == Entry(bytes, i) && flags == Flags(bytes, i)
    ensures s.count < LIMIT32 && s.recordSize < LIMIT32
  {
    hide Value, Radix;
    RadixValues();
    var at := EntryOffset(i);
    var kind := Read(bytes, at, 4);
    flags := Read(bytes, at + 4, 4);
    var offset := Read(bytes, at + 8, 8);
    var byteCount := Read(bytes, at + 16, 8);
    var count := Read(bytes, at + 24, 4);
    var recordSize := Read(bytes, at + 28, 4);
    s := Section(kind, recordSize, offset, byteCount, count);
  }

  /** One entry, and the gap before its section. */
  method CheckEntry(bytes: Bytes, i: nat, previousEnd: nat) returns (r: Option<Section>)
    requires |bytes| >= DATA_OFFSET && i < SECTION_COUNT && previousEnd == EndBefore(bytes, i)
    ensures r.Some? <==> EntryValid(bytes, i)
    ensures r.Some? ==> r.value == Entry(bytes, i)
  {
    hide EndBefore, Entry, Flags, ZeroBetween, RecordSize;
    var s, flags := ReadEntry(bytes, i);
    var exact := CheckedMultiply(s.count, s.recordSize);
    hide CheckedMultiply;
    SmallProduct(s.count, s.recordSize);
    if s.kind != i + 1 || flags != 0 || s.recordSize != RecordSize(i) || exact != Some(s.bytes)
       || s.offset % 8 != 0 || s.offset < previousEnd || s.offset > |bytes| || s.bytes > |bytes| - s.offset
    {
      return None;
    }
    var clear := GapClear(bytes, previousEnd, s.offset);
    r := if clear then Some(s) else None;
  }

  lemma SmallProduct(x: nat, y: nat)
    requires x < LIMIT32 && y < LIMIT32
    ensures x * y <= MAX64
  {
    Grows(x, y, LIMIT32);
  }

  method GapClear(bytes: Bytes, begin: nat, end: nat) returns (clear: bool)
    requires begin <= end <= |bytes|
    ensures clear <==> ZeroBetween(bytes, begin, end)
  {
    for p := begin to end
      invariant ZeroBetween(bytes, begin, p)
    {
      if bytes[p] != 0 {
        return false;
      }
    }
    return true;
  }

  // ----- Writing the directory -----

  predicate Storable(s: Section) {
    s.kind < LIMIT32 && s.recordSize < LIMIT32 && s.count < LIMIT32 && s.offset <= MAX64 && s.bytes <= MAX64
  }

  function EntryBytes(s: Section): (r: Bytes)
    ensures |r| == ENTRY_SIZE
  {
    Le(s.kind, 4) + Le(0, 4) + Le(s.offset, 8) + Le(s.bytes, 8) + Le(s.count, 4) + Le(s.recordSize, 4)
  }

  function Directory(sections: seq<Section>): (r: Bytes)
    ensures |r| == |sections| * ENTRY_SIZE
  {
    if sections == [] then [] else Directory(sections[..|sections| - 1]) + EntryBytes(sections[|sections| - 1])
  }

  lemma {:induction false} DirectoryAt(sections: seq<Section>, i: nat)
    requires i < |sections|
    ensures Stands(Directory(sections), i * ENTRY_SIZE, EntryBytes(sections[i]))
  {
    hide EntryBytes;
    var last := |sections| - 1;
    var front := Directory(sections[..last]);
    if i < last {
      DirectoryAt(sections[..last], i);
      StandsInFront(front, EntryBytes(sections[last]), i * ENTRY_SIZE, EntryBytes(sections[i]));
    }
  }

  lemma StandsInFront(front: Bytes, rest: Bytes, at: nat, data: Bytes)
    requires Stands(front, at, data)
    ensures Stands(front + rest, at, data)
  {
    assert (front + rest)[at..at + |data|] == front[at..at + |data|];
  }

  method WriteDirectory(a: array<Byte>, sections: seq<Section>)
    requires |sections| == SECTION_COUNT && a.Length >= DATA_OFFSET
    modifies a
    ensures a[..] == Patched(old(a[..]), HEADER_SIZE, Directory(sections))
  {
    hide EntryBytes, Directory;
    ghost var before := a[..];
    PatchedNothing(before, HEADER_SIZE);
    DirectoryEmpty();
    assert sections[..0] == [];
    for i := 0 to SECTION_COUNT
      invariant a[..] == Patched(before, HEADER_SIZE, Directory(sections[..i]))
    {
      hide Patched;
      Put(a, EntryOffset(i), EntryBytes(sections[i]));
      DirectoryNext(sections, i);
      PatchedJoin(before, HEADER_SIZE, Directory(sections[..i]), EntryBytes(sections[i]));
    }
    assert sections[..SECTION_COUNT] == sections;
  }

  lemma DirectoryEmpty()
    ensures Directory([]) == []
  {
  }

  lemma {:induction false} DirectoryNext(sections: seq<Section>, i: nat)
    requires i < |sections|
    ensures Directory(sections[..i + 1]) == Directory(sections[..i]) + EntryBytes(sections[i])
  {
    assert sections[..i + 1][..i] == sections[..i];
  }

  /** Reading an entry gives back what was written. */
  lemma EntryRead(bytes: Bytes, i: nat, s: Section)
    requires |bytes| >= DATA_OFFSET && i < SECTION_COUNT && Storable(s)
    requires Stands(bytes, EntryOffset(i), EntryBytes(s))
    ensures Entry(bytes, i) == s && Flags(bytes, i) == 0
  {
    hide Le, Value, Radix;
    RadixValues();
    var at := EntryOffset(i);
    var e := EntryBytes(s);
    assert e[0..4] == Le(s.kind, 4) && e[4..8] == Le(0, 4) && e[8..16] == Le(s.offset, 8);
    assert e[16..24] == Le(s.bytes, 8) && e[24..28] == Le(s.count, 4) && e[28..32] == Le(s.recordSize, 4);
    PartOf(bytes, at, e, 0, 4);
    PartOf(bytes, at, e, 4, 8);
    PartOf(bytes, at, e, 8, 16);
    PartOf(bytes, at, e, 16, 24);
    PartOf(bytes, at, e, 24, 28);
    PartOf(bytes, at, e, 28, 32);
    LeRoundTrip(s.kind, 4);
    LeRoundTrip(0, 4);
    LeRoundTrip(s.offset, 8);
    LeRoundTrip(s.bytes, 8);
    LeRoundTrip(s.count, 4);
    LeRoundTrip(s.recordSize, 4);
  }

  lemma PartOf(bytes: Bytes, at: nat, data: Bytes, from: nat, end: nat)
    requires Stands(bytes, at, data) && from <= end <= |data|
    ensures bytes[at + from..at + end] == data[from..end]
  {
    SliceOfSlice(bytes, at, at + |data|, from, end);
  }

  lemma SliceOfSlice(b: Bytes, lo: nat, hi: nat, x: nat, y: nat)
    requires lo <= hi <= |b| && x <= y <= hi - lo
    ensures b[lo..hi][x..y] == b[lo + x..lo + y]
  {
    forall k | 0 <= k < y - x
      ensures b[lo..hi][x..y][k] == b[lo + x..lo + y][k]
    {
      assert b[lo..hi][x + k] == b[lo + x + k];
    }
  }

  /** The planned layout passes validation. */
  lemma {:induction false} PlanValid(bytes: Bytes, counts: seq<nat>)
    requires |counts| == SECTION_COUNT && Fit32(counts)
    requires |bytes| == PlanEnd(counts, SECTION_COUNT) && |bytes| >= DATA_OFFSET
    requires forall i: nat :: i < SECTION_COUNT ==> Stands(bytes, EntryOffset(i), EntryBytes(Planned(counts, i)))
    requires forall i: nat :: i < SECTION_COUNT ==>
               Planned(counts, i).offset <= |bytes| && ZeroBetween(bytes, PlanEnd(counts, i), Planned(counts, i).offset)
    ensures DirectoryValid(bytes)
    ensures forall i: nat :: i < SECTION_COUNT ==> Entry(bytes, i) == Planned(counts, i)
  {
    hide EntryBytes, Entry, Flags, Stands, ZeroBetween;
    forall i: nat | i < SECTION_COUNT
      ensures Entry(bytes, i) == Planned(counts, i) && Flags(bytes, i) == 0
    {
      PlannedStorable(counts, i);
      EntryRead(bytes, i, Planned(counts, i));
    }
    forall i: nat | i < SECTION_COUNT
      ensures EntryValid(bytes, i)
    {
      if i > 0 {
        assert Entry(bytes, i - 1) == Planned(counts, i - 1);
      }
      PlanMonotone(counts, i + 1, SECTION_COUNT);
    }
    assert Entry(bytes, SECTION_COUNT - 1) == Planned(counts, SECTION_COUNT - 1);
  }

  lemma {:induction false} PlanMonotone(counts: seq<nat>, i: nat, j: nat)
    requires |counts| == SECTION_COUNT && i <= j <= SECTION_COUNT
    ensures PlanEnd(counts, i) <= PlanEnd(counts, j)
    decreases j
  {
    if i < j {
      PlanMonotone(counts, i, j - 1);
      assert counts[j - 1] * RecordSize(j - 1) >= 0;
    }
  }

  lemma {:induction false} PlannedStorable(counts: seq<nat>, i: nat)
    requires |counts| == SECTION_COUNT && Fit32(counts) && i < SECTION_COUNT
    ensures Storable(Planned(counts, i))
  {
    PlanBounded(counts, i);
    PlanBounded(counts, i + 1);
    assert counts[i] in counts;
  }
}
