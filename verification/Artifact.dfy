/** The compiled artifact: encoder, seal and decoder.

`IsArtifact` relates a file to the state it carries. The decoder decides it; what
the encoder writes for a state is related to that state exactly when the state
is persistable.
 */
module Artifact {
  import opened Collections
  import opened CompiledState
  import opened LittleEndian
  import opened ArtifactLayout
  import opened ArtifactRecords

  /** SHA-256 and CRC-32C, of which nothing but the sizes is used. */
  datatype Seal = Seal(sha: Bytes -> Bytes, crc: Bytes -> U32)

  ghost predicate SealValid(seal: Seal) {
    forall b: Bytes :: |seal.sha(b)| == 32
  }

  // ----- What a state occupies -----

  function Storage(strings: seq<Option<Bytes>>): Bytes {
    if strings == [] then []
    else
      var last := strings[|strings| - 1];
      Storage(strings[..|strings| - 1]) + (if last.Some? then last.value else [])
  }

  /** Where the characters of string `i` start. */
  function StringOffset(strings: seq<Option<Bytes>>, i: nat): nat
    requires i <= |strings|
  {
    |Storage(strings[..i])|
  }

  function Counts(state: ProjectState): (r: seq<nat>)
    ensures |r| == SECTION_COUNT
  {
    var g := state.graph;
    [|state.strings|, |Storage(state.strings)|, |g.identities|, |g.entities|, |g.types|, |g.enumValues|, |g.members|,
     |g.canonicalTypes|]
  }

  lemma {:induction false} StorageSplit(strings: seq<Option<Bytes>>, i: nat)
    requires i < |strings|
    ensures Storage(strings[..i + 1]) == Storage(strings[..i]) + (if strings[i].Some? then strings[i].value else [])
  {
    assert strings[..i + 1][..i] == strings[..i];
  }

  lemma {:induction false} StoragePrefix(strings: seq<Option<Bytes>>, i: nat)
    requires i <= |strings|
    ensures Storage(strings[..i]) <= Storage(strings)
    decreases |strings|
  {
    if i == |strings| {
      assert strings[..i] == strings;
    } else {
      var front := strings[..|strings| - 1];
      StoragePrefix(front, i);
      assert front[..i] == strings[..i];
    }
  }

  /** Every string stands in the storage at its offset. */
  lemma {:induction false} StringStands(strings: seq<Option<Bytes>>, i: nat)
    requires i < |strings| && strings[i].Some?
    ensures Stands(Storage(strings), StringOffset(strings, i), strings[i].value)
  {
    StorageSplit(strings, i);
    StoragePrefix(strings, i + 1);
    var part := Storage(strings[..i + 1]);
    assert Storage(strings)[..|part|] == part;
    assert part[StringOffset(strings, i)..] == strings[i].value;
    PrefixSlice(Storage(strings), part, StringOffset(strings, i));
  }

  lemma PrefixSlice(all: Bytes, part: Bytes, from: nat)
    requires part <= all && from <= |part|
    ensures all[from..|part|] == part[from..]
  {
  }

  // ----- String records -----

  ghost predicate StringsFit(strings: seq<Option<Bytes>>) {
    |Storage(strings)| < LIMIT32
  }

  function RecordOf(strings: seq<Option<Bytes>>, i: nat): StringRecord
    requires i < |strings| && StringsFit(strings)
  {
    if strings[i].None? then StringRecord(TOMBSTONE, 0)
    else
      StringStands(strings, i);
      StringRecord(StringOffset(strings, i), |strings[i].value|)
  }

  function RecordsOf(strings: seq<Option<Bytes>>): (r: seq<StringRecord>)
    requires StringsFit(strings)
    ensures |r| == |strings| && forall i: nat :: i < |r| ==> r[i] == RecordOf(strings, i)
  {
    seq(|strings|, i requires 0 <= i < |strings| => RecordOf(strings, i))
  }

  function StringRecordEncoder(): StringRecord -> Bytes {
    r => StringRecordBytes(r)
  }

  /** A live string whose record would be taken for a free slot: an empty one
  behind four gibibytes less one of characters. */
  ghost predicate Lost(strings: seq<Option<Bytes>>, i: nat)
    requires i < |strings|
  {
    strings[i].Some? && StringOffset(strings, i) == TOMBSTONE
  }

  /** What decode_strings makes of a written record. */
  lemma {:induction false} WrittenString(strings: seq<Option<Bytes>>, i: nat)
    requires StringsFit(strings) && i < |strings|
    ensures ParseString(Storage(strings), StringRecordBytes(RecordOf(strings, i))) == Some(if Lost(strings, i) then None else strings[i])
  {
    hide Word, StringRecordBytes, Storage;
    var r := RecordOf(strings, i);
    StringRecordRead(r);
    if strings[i].Some? {
      StringStands(strings, i);
      assert r.offset == TOMBSTONE ==> r.length == 0;
    }
  }

  // ----- The images of the eight sections -----

  ghost function Images(state: ProjectState): (r: seq<Bytes>)
    requires StringsFit(state.strings)
    ensures |r| == SECTION_COUNT
  {
    var g := state.graph;
    [Concat(RecordsOf(state.strings), StringRecordEncoder()), Storage(state.strings),
     Concat(g.identities, IdentityBytes), Concat(g.entities, EntityBytes), Concat(g.types, TypeBytes),
     Concat(g.enumValues, EnumValueBytes), Concat(g.members, MemberBytes), Concat(g.canonicalTypes, CanonicalBytes)]
  }

  lemma {:induction false} EncodersSized()
    ensures Sized(StringRecordEncoder(), 8) && Sized(IdentityBytes, 4) && Sized(EntityBytes, 16) && Sized(TypeBytes, 16)
    ensures Sized(EnumValueBytes, 16) && Sized(MemberBytes, 8) && Sized(CanonicalBytes, 16)
  {
  }

  lemma {:induction false} ImageLengths(state: ProjectState, i: nat)
    requires StringsFit(state.strings) && i < SECTION_COUNT
    ensures |Images(state)[i]| == Counts(state)[i] * RecordSize(i)
  {
    hide Concat, Storage;
    EncodersSized();
    var g := state.graph;
    ConcatLength(RecordsOf(state.strings), StringRecordEncoder(), 8);
    ConcatLength(g.identities, IdentityBytes, 4);
    ConcatLength(g.entities, EntityBytes, 16);
    ConcatLength(g.types, TypeBytes, 16);
    ConcatLength(g.enumValues, EnumValueBytes, 16);
    ConcatLength(g.members, MemberBytes, 8);
    ConcatLength(g.canonicalTypes, CanonicalBytes, 16);
  }

  // ----- Placing the images -----

  ghost predicate Fitting(counts: seq<nat>, images: seq<Bytes>) {
    && |counts| == SECTION_COUNT && |images| == SECTION_COUNT
    && forall i: nat :: i < SECTION_COUNT ==> |images[i]| == counts[i] * RecordSize(i)
  }

  lemma {:induction false} PlacedInside(counts: seq<nat>, images: seq<Bytes>, i: nat)
    requires Fitting(counts, images) && i < SECTION_COUNT
    ensures PlanEnd(counts, i) <= Planned(counts, i).offset
    ensures Planned(counts, i).offset + |images[i]| == PlanEnd(counts, i + 1) <= PlanEnd(counts, SECTION_COUNT)
  {
    PlanMonotone(counts, i + 1, SECTION_COUNT);
  }

  ghost function Placed(b: Bytes, counts: seq<nat>, images: seq<Bytes>, n: nat): (r: Bytes)
    requires Fitting(counts, images) && |b| == PlanEnd(counts, SECTION_COUNT) && n <= SECTION_COUNT
    ensures |r| == |b|
  {
    if n == 0 then b
    else
      PlacedInside(counts, images, n - 1);
      Patched(Placed(b, counts, images, n - 1), Planned(counts, n - 1).offset, images[n - 1])
  }

  /** Every image stands at its place, and nothing before the sections or between them was touched. */
  lemma {:induction false} PlacedStands(b: Bytes, counts: seq<nat>, images: seq<Bytes>, n: nat, i: nat)
    requires Fitting(counts, images) && |b| == PlanEnd(counts, SECTION_COUNT) && i < n <= SECTION_COUNT
    ensures Stands(Placed(b, counts, images, n), Planned(counts, i).offset, images[i])
    decreases n
  {
    hide Stands, Patched, PlanEnd, Planned;
    PlacedInside(counts, images, n - 1);
    var before := Placed(b, counts, images, n - 1);
    if i == n - 1 {
      PatchedAt(before, Planned(counts, i).offset, images[i]);
    } else {
      PlacedStands(b, counts, images, n - 1, i);
      PlacedInside(counts, images, i);
      PlanMonotone(counts, i + 1, n - 1);
      PatchedElsewhere(before, Planned(counts, n - 1).offset, images[n - 1], Planned(counts, i).offset, images[i]);
    }
  }

  lemma {:induction false} PlacedKeeps(b: Bytes, counts: seq<nat>, images: seq<Bytes>, n: nat, at: nat, data: Bytes)
    requires Fitting(counts, images) && |b| == PlanEnd(counts, SECTION_COUNT) && n <= SECTION_COUNT
    requires Stands(b, at, data)
    requires forall i: nat :: i < n ==> at + |data| <= Planned(counts, i).offset || PlanEnd(counts, i + 1) <= at
    ensures Stands(Placed(b, counts, images, n), at, data)
    decreases n
  {
    hide Stands, Patched, PlanEnd, Planned;
    if n > 0 {
      PlacedKeeps(b, counts, images, n - 1, at, data);
      PlacedInside(counts, images, n - 1);
      PatchedElsewhere(Placed(b, counts, images, n - 1), Planned(counts, n - 1).offset, images[n - 1], at, data);
    }
  }

  /** A gap lies outside all sections. */
  lemma {:induction false} GapOutside(counts: seq<nat>, gap: nat, i: nat)
    requires |counts| == SECTION_COUNT && gap < SECTION_COUNT && i < SECTION_COUNT
    ensures Planned(counts, gap).offset <= Planned(counts, i).offset || PlanEnd(counts, i + 1) <= PlanEnd(counts, gap)
    ensures Planned(counts, gap).offset <= PlanEnd(counts, gap + 1)
  {
    assert counts[gap] * RecordSize(gap) >= 0;
    if gap < i {
      PlanMonotone(counts, gap + 1, i);
    } else if i < gap {
      PlanMonotone(counts, i + 1, gap);
    }
  }

  // ----- Header -----

  /** "CWCOMPI1" */
  function Magic(): Bytes {
    [67, 87, 67, 79, 77, 80, 73, 49]
  }

  const ENDIAN_MARKER: nat := 0x0102_0304
  const HASH_OFFSET := 72
  const CRC_OFFSET := 104

  function Preamble(): (r: Bytes)
    ensures |r| == 24
  {
    Magic() + Le(1, 2) + Le(6, 2) + Le(HEADER_SIZE, 4) + Le(ENDIAN_MARKER, 4) + Zeros(4)
  }

  function Sizes(size: nat, abi: Abi): (r: Bytes)
    ensures |r| == 24
  {
    Le(size, 8) + Le(HEADER_SIZE, 4) + Le(SECTION_COUNT, 4) + Le(abi.target, 4) + Le(abi.pack, 4)
  }

  function Header(size: nat, abi: Abi): (r: Bytes)
    ensures |r| == HASH_OFFSET
  {
    Preamble() + Sizes(size, abi) + Zeros(24)
  }

  ghost predicate FieldsValid(bytes: Bytes) {
    && |bytes| >= DATA_OFFSET
    && bytes[..8] == Magic()
    && Half(bytes, 8) == 1 && Half(bytes, 10) == 6 && Word(bytes, 12) == HEADER_SIZE && Word(bytes, 16) == ENDIAN_MARKER
    && Long(bytes, 24) == |bytes| && Word(bytes, 32) == HEADER_SIZE && Word(bytes, 36) == SECTION_COUNT
  }

  /** Checksum over the header with its own field cleared, and hash over all the rest. */
  ghost predicate Sealed(seal: Seal, bytes: Bytes)
    requires |bytes| >= DATA_OFFSET
  {
    && seal.crc(Patched(bytes[..HEADER_SIZE], CRC_OFFSET, Le(0, 4))) == Word(bytes, CRC_OFFSET)
    && seal.sha(bytes[HEADER_SIZE..]) == bytes[HASH_OFFSET..CRC_OFFSET]
  }

  ghost predicate HeaderValid(seal: Seal, bytes: Bytes) {
    FieldsValid(bytes) && Sealed(seal, bytes)
  }

  // ----- The relation between files and states -----

  predicate StringLive(state: ProjectState, id: nat) {
    0 < id <= |state.strings| && state.strings[id - 1].Some?
  }

  /** validate_cross_references */
  ghost predicate CrossReferenced(state: ProjectState) {
    var g := state.graph;
    && |g.identities| <= |state.strings| + 1
    && (forall name: nat :: 0 < name < |g.identities| ==> g.identities[name] != 0 ==> StringLive(state, name))
    && (forall e <- g.entities :: e.Live() ==> StringLive(state, e.name))
    && (forall v <- g.enumValues :: StringLive(state, v.name))
    && (forall m <- g.members :: StringLive(state, m.name) && 0 < m.typeRef < |g.canonicalTypes|)
  }

  function StorageIn(bytes: Bytes): Bytes
    requires |bytes| >= DATA_OFFSET && Entry(bytes, 1).offset + Entry(bytes, 1).bytes <= |bytes|
  {
    bytes[Entry(bytes, 1).offset..Entry(bytes, 1).offset + Entry(bytes, 1).bytes]
  }

  ghost predicate GraphIs(bytes: Bytes, g: GraphState)
    requires |bytes| >= DATA_OFFSET
  {
    && RecordsAre(bytes, Entry(bytes, 2), ParseIdentity, g.identities)
    && RecordsAre(bytes, Entry(bytes, 3), ParseEntity, g.entities)
    && RecordsAre(bytes, Entry(bytes, 4), TypeParser(Entry(bytes, 6).count, Entry(bytes, 5).count), g.types)
    && RecordsAre(bytes, Entry(bytes, 5), ParseEnumValue, g.enumValues)
    && RecordsAre(bytes, Entry(bytes, 6), ParseMember, g.members)
    && RecordsAre(bytes, Entry(bytes, 7), ParseCanonical, g.canonicalTypes)
  }

  ghost predicate AbiIs(bytes: Bytes, abi: Abi)
    requires |bytes| >= DATA_OFFSET
  {
    abi.target == Word(bytes, 40) % 256 && abi.pack == Word(bytes, 44) && Supported(abi)
  }

  ghost predicate IsArtifact(seal: Seal, bytes: Bytes, state: ProjectState) {
    && HeaderValid(seal, bytes) && DirectoryValid(bytes)
    && EntryValid(bytes, 1)
    && AbiIs(bytes, state.graph.abi)
    && RecordsAre(bytes, Entry(bytes, 0), StringParser(StorageIn(bytes)), state.strings)
    && GraphIs(bytes, state.graph)
    && CrossReferenced(state)
  }

  // ----- Persistable states -----

  ghost predicate RecordsValid(g: GraphState) {
    && (forall e <- g.entities :: EntityValid(e))
    && (forall t <- g.types :: TypeValid(t, |g.members|, |g.enumValues|))
    && (forall v <- g.enumValues :: EnumValueValid(v))
    && (forall m <- g.members :: MemberValid(m))
  }

  ghost predicate NothingLost(strings: seq<Option<Bytes>>) {
    forall i: nat :: i < |strings| ==> !Lost(strings, i)
  }

  ghost predicate Persistable(state: ProjectState) {
    Supported(state.graph.abi) && RecordsValid(state.graph) && NothingLost(state.strings) && CrossReferenced(state)
  }

  // ----- Encoding -----

  method WriteStrings(a: array<Byte>, strings: seq<Option<Bytes>>, records: nat, storage: nat)
    requires StringsFit(strings) && records + 8 * |strings| <= storage && storage + |Storage(strings)| <= a.Length
    modifies a
    ensures |Concat(RecordsOf(strings), StringRecordEncoder())| == 8 * |strings|
    ensures a[..] == Patched(Patched(old(a[..]), records, Concat(RecordsOf(strings), StringRecordEncoder())), storage, Storage(strings))
  {
    hide Patched, Concat, Storage, StringRecordBytes;
    ghost var before, list, encode := a[..], RecordsOf(strings), StringRecordEncoder();
    EncodersSized();
    ConcatLength(list, encode, 8);
    var offset := 0;
    StartOfStrings(before, list, strings, records, storage);
    for i := 0 to |strings|
      invariant offset == |Storage(strings[..i])| && |Concat(list[..i], encode)| == 8 * i
      invariant storage + offset <= a.Length
      invariant a[..] == Patched(Patched(before, records, Concat(list[..i], encode)), storage, Storage(strings[..i]))
    {
      ConcatNext(list, encode, i);
      StorageSplit(strings, i);
      StoragePrefix(strings, i + 1);
      ghost var record := StringRecordBytes(RecordOf(strings, i));
      if strings[i].None? {
        Put(a, records + 8 * i, StringRecordBytes(StringRecord(TOMBSTONE, 0)));
        RecordWritten(before, records, storage, Concat(list[..i], encode), Storage(strings[..i]), record);
      } else {
        StringStands(strings, i);
        Put(a, records + 8 * i, StringRecordBytes(StringRecord(offset, |strings[i].value|)));
        RecordWritten(before, records, storage, Concat(list[..i], encode), Storage(strings[..i]), record);
        Put(a, storage + offset, strings[i].value);
        PatchedJoin(Patched(before, records, Concat(list[..i + 1], encode)), storage, Storage(strings[..i]), strings[i].value);
        offset := offset + |strings[i].value|;
      }
    }
    assert list[..|strings|] == list && strings[..|strings|] == strings;
  }

  lemma {:induction false} StartOfStrings(before: Bytes, list: seq<StringRecord>, strings: seq<Option<Bytes>>,
                                          records: nat, storage: nat)
    requires records <= storage <= |before|
    ensures |Storage(strings[..0])| == 0 && |Concat(list[..0], StringRecordEncoder())| == 0
    ensures before == Patched(Patched(before, records, Concat(list[..0], StringRecordEncoder())), storage, Storage(strings[..0]))
  {
  }

  /** One more record, while the characters so far stand behind it. */
  lemma RecordWritten(before: Bytes, records: nat, storage: nat, list: Bytes, characters: Bytes, record: Bytes)
    requires records + |list| + |record| <= storage && storage + |characters| <= |before|
    ensures
      Patched(Patched(Patched(before, records, list), storage, characters), records + |list|, record)
      == Patched(Patched(before, records, list + record), storage, characters)
  {
    hide Patched;
    PatchedSwap(Patched(before, records, list), records + |list|, record, storage, characters);
    PatchedJoin(before, records, list, record);
  }

  /** write_strings and write_graph_sections */
  method WriteSections(a: array<Byte>, state: ProjectState, sections: seq<Section>)
    requires Fit32(Counts(state)) && sections == Plan(Counts(state)) && a.Length == PlanEnd(Counts(state), SECTION_COUNT)
    modifies a
    ensures StringsFit(state.strings) && Fitting(Counts(state), Images(state))
    ensures a[..] == Placed(old(a[..]), Counts(state), Images(state), SECTION_COUNT)
  {
    StringsFitWhen32(state);
    ImagesFit(state);
    EncodersSized();
    hide Patched, Concat, Storage, PlanEnd, Fit32, Sized, Planned;
    var g := state.graph;
    ghost var before, counts, images := a[..], Counts(state), Images(state);
    forall i: nat | i < SECTION_COUNT
      ensures Planned(counts, i).offset + counts[i] * RecordSize(i) <= PlanEnd(counts, SECTION_COUNT)
      ensures i + 1 < SECTION_COUNT ==>
                Planned(counts, i).offset + counts[i] * RecordSize(i) <= Planned(counts, i + 1).offset
    {
      Room(counts, i);
    }
    WriteStrings(a, state.strings, sections[0].offset, sections[1].offset);
    PlacedTwice(before, counts, images);
    WriteRecords(a, sections[2].offset, 4, g.identities, IdentityBytes);
    PlacedOnce(before, counts, images, 2);
    WriteRecords(a, sections[3].offset, 16, g.entities, EntityBytes);
    PlacedOnce(before, counts, images, 3);
    WriteRecords(a, sections[4].offset, 16, g.types, TypeBytes);
    PlacedOnce(before, counts, images, 4);
    WriteRecords(a, sections[5].offset, 16, g.enumValues, EnumValueBytes);
    PlacedOnce(before, counts, images, 5);
    WriteRecords(a, sections[6].offset, 8, g.members, MemberBytes);
    PlacedOnce(before, counts, images, 6);
    WriteRecords(a, sections[7].offset, 16, g.canonicalTypes, CanonicalBytes);
    PlacedOnce(before, counts, images, 7);
  }

  lemma StringsFitWhen32(state: ProjectState)
    requires Fit32(Counts(state))
    ensures StringsFit(state.strings)
  {
    assert Counts(state)[1] in Counts(state);
  }

  lemma {:induction false} ImagesFit(state: ProjectState)
    requires StringsFit(state.strings)
    ensures Fitting(Counts(state), Images(state))
  {
    forall i: nat | i < SECTION_COUNT
      ensures |Images(state)[i]| == Counts(state)[i] * RecordSize(i)
    {
      ImageLengths(state, i);
    }
  }

  /** There is room for every section. */
  lemma {:induction false} Room(counts: seq<nat>, i: nat)
    requires |counts| == SECTION_COUNT && i < SECTION_COUNT
    ensures Planned(counts, i).offset + counts[i] * RecordSize(i) <= PlanEnd(counts, SECTION_COUNT)
    ensures i + 1 < SECTION_COUNT ==>
              Planned(counts, i).offset + counts[i] * RecordSize(i) <= Planned(counts, i + 1).offset
  {
    PlanMonotone(counts, i + 1, SECTION_COUNT);
  }

  lemma PlacedOnce(b: Bytes, counts: seq<nat>, images: seq<Bytes>, n: nat)
    requires Fitting(counts, images) && |b| == PlanEnd(counts, SECTION_COUNT) && n < SECTION_COUNT
    ensures Planned(counts, n).offset + |images[n]| <= |b|
    ensures
      Placed(b, counts, images, n + 1) == Patched(Placed(b, counts, images, n), Planned(counts, n).offset, images[n])
  {
    hide PlanEnd, Planned, Patched;
    PlacedInside(counts, images, n);
  }

  lemma PlacedTwice(b: Bytes, counts: seq<nat>, images: seq<Bytes>)
    requires Fitting(counts, images) && |b| == PlanEnd(counts, SECTION_COUNT)
    ensures Planned(counts, 0).offset + |images[0]| <= |b| && Planned(counts, 1).offset + |images[1]| <= |b|
    ensures
      Placed(b, counts, images, 2)
      == Patched(Patched(b, Planned(counts, 0).offset, images[0]), Planned(counts, 1).offset, images[1])
  {
    hide PlanEnd, Planned, Patched;
    PlacedOnce(b, counts, images, 0);
    PlacedOnce(b, counts, images, 1);
  }

  /** seal_artifact */
  method SealArtifact(a: array<Byte>, seal: Seal)
    requires SealValid(seal) && a.Length >= DATA_OFFSET
    modifies a
    ensures Sealed(seal, a[..])
    ensures a[..HASH_OFFSET] == old(a[..HASH_OFFSET]) && a[HEADER_SIZE..] == old(a[HEADER_SIZE..])
  {
    hide Le, Value;
    ghost var before := a[..];
    var digest := seal.sha(a[HEADER_SIZE..]);
    assert |digest| == 32;
    Put(a, HASH_OFFSET, digest);
    ghost var hashed := a[..];
    Write(a, CRC_OFFSET, 0, 4);
    ghost var cleared := a[..];
    var crc := seal.crc(a[..HEADER_SIZE]);
    Write(a, CRC_OFFSET, crc, 4);
    PatchedAt(cleared, CRC_OFFSET, Le(crc, 4));
    WordRead(a[..], CRC_OFFSET, crc);
    assert a[..][HEADER_SIZE..] == before[HEADER_SIZE..];
    assert a[..][HASH_OFFSET..CRC_OFFSET] == digest;
    assert Patched(a[..][..HEADER_SIZE], CRC_OFFSET, Le(0, 4)) == cleared[..HEADER_SIZE];
  }

  /** Entry and image of section `i` stand where they belong, and the gap before it is zero. */
  ghost predicate Part(bytes: Bytes, counts: seq<nat>, images: seq<Bytes>, i: nat)
    requires |counts| == SECTION_COUNT && |images| == SECTION_COUNT && i < SECTION_COUNT
  {
    && Stands(bytes, EntryOffset(i), EntryBytes(Planned(counts, i)))
    && Stands(bytes, Planned(counts, i).offset, images[i])
    && Planned(counts, i).offset <= |bytes|
    && ZeroBetween(bytes, PlanEnd(counts, i), Planned(counts, i).offset)
  }

  /** What the encoder leaves in the file. */
  ghost predicate Written(seal: Seal, bytes: Bytes, state: ProjectState) {
    && Fit32(Counts(state)) && StringsFit(state.strings)
    && |bytes| == PlanEnd(Counts(state), SECTION_COUNT) && |bytes| >= DATA_OFFSET && Sealed(seal, bytes)
    && Stands(bytes, 0, Header(|bytes|, state.graph.abi))
    && (forall i: nat :: i < SECTION_COUNT ==> Part(bytes, Counts(state), Images(state), i))
  }

  method StorageSize(strings: seq<Option<Bytes>>) returns (size: nat)
    ensures size == |Storage(strings)|
  {
    size := 0;
    for i := 0 to |strings|
      invariant size == |Storage(strings[..i])|
    {
      StorageSplit(strings, i);
      if strings[i].Some? {
        size := size + |strings[i].value|;
      }
    }
    assert strings[..|strings|] == strings;
  }

  /** Encoding succeeds if and only if every record count fits 32 bits. */
  method Encode(seal: Seal, state: ProjectState) returns (r: Option<Bytes>)
    requires SealValid(seal)
    ensures r.Some? <==> Fit32(Counts(state))
    ensures r.Some? ==> Written(seal, r.value, state)
  {
    hide Storage, Fit32, Sealed, SealValid, PlanEnd;
    var size := StorageSize(state.strings);
    var g := state.graph;
    var counts := [|state.strings|, size, |g.identities|, |g.entities|, |g.types|, |g.enumValues|, |g.members|, |g.canonicalTypes|];
    assert counts == Counts(state);
    var layout := BuildSections(counts);
    if layout.None? {
      return None;
    }
    var (sections, total) := layout.value;
    PlanMonotone(counts, 0, SECTION_COUNT);
    DataStart(counts);
    var a := new Byte[total](_ => 0);
    Put(a, 0, Header(total, g.abi));
    WriteDirectory(a, sections);
    ghost var base := a[..];
    BaseReady(base, counts, Header(total, g.abi));
    WriteSections(a, state, sections);
    ghost var filled := a[..];
    FilledReady(base, filled, Counts(state), Images(state), Header(total, g.abi));
    SealArtifact(a, seal);
    SealedReady(seal, filled, a[..], state);
    r := Some(a[..]);
  }

  lemma DataStart(counts: seq<nat>)
    requires |counts| == SECTION_COUNT
    ensures PlanEnd(counts, 0) == DATA_OFFSET
  {
  }

  /** Header and directory are written and everything behind them is zero. */
  ghost predicate Ready(base: Bytes, counts: seq<nat>, header: Bytes)
    requires |counts| == SECTION_COUNT
  {
    && |base| == PlanEnd(counts, SECTION_COUNT) && |base| >= DATA_OFFSET
    && |header| == HASH_OFFSET && Stands(base, 0, header)
    && (forall i: nat :: i < SECTION_COUNT ==> Stands(base, EntryOffset(i), EntryBytes(Planned(counts, i))))
    && ZeroBetween(base, DATA_OFFSET, |base|)
  }

  lemma {:induction false} BaseReady(base: Bytes, counts: seq<nat>, header: Bytes)
    requires |counts| == SECTION_COUNT && PlanEnd(counts, SECTION_COUNT) >= DATA_OFFSET && |header| == HASH_OFFSET
    requires
      var zero := Zeros(PlanEnd(counts, SECTION_COUNT));
      base == Patched(Patched(zero, 0, header), HEADER_SIZE, Directory(Plan(counts)))
    ensures Ready(base, counts, header)
  {
    hide PlanEnd, Directory, EntryBytes;
    var zero := Zeros(PlanEnd(counts, SECTION_COUNT));
    var directory := Directory(Plan(counts));
    PatchedAt(zero, 0, header);
    PatchedElsewhere(Patched(zero, 0, header), HEADER_SIZE, directory, 0, header);
    PatchedAt(Patched(zero, 0, header), HEADER_SIZE, directory);
    forall i: nat | i < SECTION_COUNT
      ensures Stands(base, EntryOffset(i), EntryBytes(Planned(counts, i)))
    {
      DirectoryAt(Plan(counts), i);
      StandsInside(base, HEADER_SIZE, directory, i * ENTRY_SIZE, EntryBytes(Planned(counts, i)));
    }
  }

  lemma {:induction false} PartFilled(base: Bytes, filled: Bytes, counts: seq<nat>, images: seq<Bytes>, header: Bytes,
                                      i: nat)
    requires Fitting(counts, images) && Ready(base, counts, header) && i < SECTION_COUNT
    requires filled == Placed(base, counts, images, SECTION_COUNT)
    ensures Part(filled, counts, images, i)
  {
    hide PlanEnd, EntryBytes, Stands, Placed, ZeroBetween, Planned;
    SectionsBehind(counts, images);
    PlacedKeeps(base, counts, images, SECTION_COUNT, EntryOffset(i), EntryBytes(Planned(counts, i)));
    PlacedStands(base, counts, images, SECTION_COUNT, i);
    GapStaysZero(base, counts, images, i);
  }

  lemma {:induction false} SectionsBehind(counts: seq<nat>, images: seq<Bytes>)
    requires Fitting(counts, images)
    ensures forall i: nat :: i < SECTION_COUNT ==> DATA_OFFSET <= Planned(counts, i).offset
  {
    forall i: nat | i < SECTION_COUNT
      ensures DATA_OFFSET <= Planned(counts, i).offset
    {
      PlanMonotone(counts, 0, i);
    }
  }

  lemma {:induction false} FilledReady(base: Bytes, filled: Bytes, counts: seq<nat>, images: seq<Bytes>, header: Bytes)
    requires Fitting(counts, images) && Ready(base, counts, header)
    requires filled == Placed(base, counts, images, SECTION_COUNT)
    ensures Stands(filled, 0, header) && forall i: nat :: i < SECTION_COUNT ==> Part(filled, counts, images, i)
  {
    hide PlanEnd, EntryBytes, Stands, Placed, ZeroBetween, Planned, Part;
    SectionsBehind(counts, images);
    PlacedKeeps(base, counts, images, SECTION_COUNT, 0, header);
    forall i: nat | i < SECTION_COUNT
      ensures Part(filled, counts, images, i)
    {
      PartFilled(base, filled, counts, images, header, i);
    }
  }

  lemma {:induction false} GapStaysZero(base: Bytes, counts: seq<nat>, images: seq<Bytes>, gap: nat)
    requires Fitting(counts, images) && |base| == PlanEnd(counts, SECTION_COUNT) && gap < SECTION_COUNT
    requires |base| >= DATA_OFFSET && ZeroBetween(base, DATA_OFFSET, |base|)
    ensures Planned(counts, gap).offset <= |base|
    ensures
      ZeroBetween(Placed(base, counts, images, SECTION_COUNT), PlanEnd(counts, gap), Planned(counts, gap).offset)
  {
    hide Placed, Planned, PlanEnd;
    DataStart(counts);
    PlanMonotone(counts, 0, gap);
    PlacedInside(counts, images, gap);
    var begin, end := PlanEnd(counts, gap), Planned(counts, gap).offset;
    assert base[begin..end] == Zeros(end - begin);
    forall i: nat | i < SECTION_COUNT
      ensures end <= Planned(counts, i).offset || PlanEnd(counts, i + 1) <= begin
    {
      GapOutside(counts, gap, i);
    }
    PlacedKeeps(base, counts, images, SECTION_COUNT, begin, Zeros(end - begin));
    var after := Placed(base, counts, images, SECTION_COUNT);
    forall p | begin <= p < end
      ensures after[p] == 0
    {
      assert after[p] == after[begin..end][p - begin];
    }
  }

  lemma StandsKept(before: Bytes, after: Bytes, at: nat, data: Bytes)
    requires |after| == |before| && |before| >= DATA_OFFSET && Stands(before, at, data)
    requires after[..HASH_OFFSET] == before[..HASH_OFFSET] && after[HEADER_SIZE..] == before[HEADER_SIZE..]
    requires at + |data| <= HASH_OFFSET || HEADER_SIZE <= at
    ensures Stands(after, at, data)
  {
    forall k | at <= k < at + |data|
      ensures after[k] == before[k]
    {
      if k < HASH_OFFSET {
        assert after[..HASH_OFFSET][k] == before[..HASH_OFFSET][k];
      } else {
        assert after[HEADER_SIZE..][k - HEADER_SIZE] == before[HEADER_SIZE..][k - HEADER_SIZE];
      }
    }
    assert after[at..at + |data|] == before[at..at + |data|];
  }

  lemma {:induction false} PartKept(before: Bytes, after: Bytes, counts: seq<nat>, images: seq<Bytes>, i: nat)
    requires Fitting(counts, images) && i < SECTION_COUNT && Part(before, counts, images, i)
    requires |after| == |before| && |before| >= DATA_OFFSET
    requires after[..HASH_OFFSET] == before[..HASH_OFFSET] && after[HEADER_SIZE..] == before[HEADER_SIZE..]
    ensures Part(after, counts, images, i)
  {
    hide PlanEnd, EntryBytes, Stands, Planned;
    DataStart(counts);
    PlanMonotone(counts, 0, i);
    PlacedInside(counts, images, i);
    StandsKept(before, after, EntryOffset(i), EntryBytes(Planned(counts, i)));
    StandsKept(before, after, Planned(counts, i).offset, images[i]);
    forall p | PlanEnd(counts, i) <= p < Planned(counts, i).offset
      ensures after[p] == 0
    {
      assert after[HEADER_SIZE..][p - HEADER_SIZE] == before[HEADER_SIZE..][p - HEADER_SIZE];
    }
  }

  lemma {:induction false} SealedReady(seal: Seal, filled: Bytes, bytes: Bytes, state: ProjectState)
    requires Fit32(Counts(state)) && StringsFit(state.strings) && Fitting(Counts(state), Images(state))
    requires |filled| == PlanEnd(Counts(state), SECTION_COUNT) && |filled| >= DATA_OFFSET && |bytes| == |filled|
    requires Stands(filled, 0, Header(|filled|, state.graph.abi))
    requires forall i: nat :: i < SECTION_COUNT ==> Part(filled, Counts(state), Images(state), i)
    requires Sealed(seal, bytes)
    requires bytes[..HASH_OFFSET] == filled[..HASH_OFFSET] && bytes[HEADER_SIZE..] == filled[HEADER_SIZE..]
    ensures Written(seal, bytes, state)
  {
    var counts, images := Counts(state), Images(state);
    hide PlanEnd, Header, Stands, Counts, Images, Planned, Sealed, Fit32, StringsFit, Part;
    StandsKept(filled, bytes, 0, Header(|filled|, state.graph.abi));
    forall i: nat | i < SECTION_COUNT
      ensures Part(bytes, counts, images, i)
    {
      PartKept(filled, bytes, counts, images, i);
    }
  }

  // ----- Decoding -----

  /** validate_header */
  method ValidateHeader(seal: Seal, bytes: Bytes) returns (ok: bool)
    ensures ok <==> HeaderValid(seal, bytes)
  {
    if |bytes| < DATA_OFFSET || bytes[..8] != Magic() || Half(bytes, 8) != 1 || Half(bytes, 10) != 6
       || Word(bytes, 12) != HEADER_SIZE || Word(bytes, 16) != ENDIAN_MARKER || Long(bytes, 24) != |bytes|
       || Word(bytes, 32) != HEADER_SIZE || Word(bytes, 36) != SECTION_COUNT
    {
      return false;
    }
    hide Word, Half, Long;
    var header := new Byte[HEADER_SIZE](i requires 0 <= i < |bytes| => bytes[i]);
    assert header[..] == bytes[..HEADER_SIZE];
    Write(header, CRC_OFFSET, 0, 4);
    if seal.crc(header[..]) != Word(bytes, CRC_OFFSET) {
      return false;
    }
    return seal.sha(bytes[HEADER_SIZE..]) == bytes[HASH_OFFSET..CRC_OFFSET];
  }

  method ValidateCrossReferences(state: ProjectState) returns (ok: bool)
    ensures ok <==> CrossReferenced(state)
  {
    hide StringLive;
    var g := state.graph;
    if |g.identities| > |state.strings| + 1 {
      return false;
    }
    var name := 1;
    while name < |g.identities|
      invariant 1 <= name
      invariant forall n: nat :: 0 < n < name && n < |g.identities| ==> g.identities[n] != 0 ==> StringLive(state, n)
    {
      if g.identities[name] != 0 && !StringLive(state, name) {
        return false;
      }
      name := name + 1;
    }
    for i := 0 to |g.entities|
      invariant forall e <- g.entities[..i] :: e.Live() ==> StringLive(state, e.name)
    {
      TakeNext(g.entities, i);
      assert g.entities[i] in g.entities;
      if g.entities[i].Live() && !StringLive(state, g.entities[i].name) {
        return false;
      }
    }
    TakeAll(g.entities);
    for i := 0 to |g.enumValues|
      invariant forall v <- g.enumValues[..i] :: StringLive(state, v.name)
    {
      TakeNext(g.enumValues, i);
      assert g.enumValues[i] in g.enumValues;
      if !StringLive(state, g.enumValues[i].name) {
        return false;
      }
    }
    TakeAll(g.enumValues);
    for i := 0 to |g.members|
      invariant forall m <- g.members[..i] :: StringLive(state, m.name) && 0 < m.typeRef < |g.canonicalTypes|
    {
      TakeNext(g.members, i);
      var m := g.members[i];
      assert m in g.members;
      if !StringLive(state, m.name) || m.typeRef == 0 || m.typeRef >= |g.canonicalTypes| {
        return false;
      }
    }
    TakeAll(g.members);
    return true;
  }

  lemma SectionFits(bytes: Bytes, i: nat)
    requires DirectoryValid(bytes) && i < SECTION_COUNT
    ensures Entry(bytes, i).bytes == Entry(bytes, i).count * Entry(bytes, i).recordSize
    ensures Entry(bytes, i).offset + Entry(bytes, i).count * Entry(bytes, i).recordSize <= |bytes|
    ensures EntryValid(bytes, i)
  {
    hide Entry, Flags;
    assert EntryValid(bytes, i);
  }

  /** decode_graph_sections */
  method DecodeGraph(bytes: Bytes, sections: seq<Section>, abi: Abi) returns (r: Option<GraphState>)
    requires DirectoryValid(bytes)
    requires |sections| == SECTION_COUNT && forall i: nat :: i < SECTION_COUNT ==> sections[i] == Entry(bytes, i)
    ensures r.Some? ==> GraphIs(bytes, r.value) && r.value.abi == abi
    ensures r.None? ==> forall g :: !GraphIs(bytes, g)
  {
    forall i: nat | i < SECTION_COUNT
      ensures Entry(bytes, i).offset + Entry(bytes, i).count * Entry(bytes, i).recordSize <= |bytes|
    {
      SectionFits(bytes, i);
    }
    hide RecordsAre, Entry, DirectoryValid, ParseEntity, ParseMember, ParseEnumValue, ParseCanonical, ParseIdentity, TypeParser;
    var identities := DecodeRecords(bytes, sections[2], ParseIdentity);
    if identities.None? {
      return None;
    }
    var entities := DecodeRecords(bytes, sections[3], ParseEntity);
    if entities.None? {
      return None;
    }
    var enumValues := DecodeRecords(bytes, sections[5], ParseEnumValue);
    if enumValues.None? {
      return None;
    }
    var members := DecodeRecords(bytes, sections[6], ParseMember);
    if members.None? {
      return None;
    }
    var types := DecodeRecords(bytes, sections[4], TypeParser(sections[6].count, sections[5].count));
    if types.None? {
      return None;
    }
    var canonicalTypes := DecodeRecords(bytes, sections[7], ParseCanonical);
    if canonicalTypes.None? {
      return None;
    }
    r := Some(GraphState(abi, identities.value, entities.value, types.value, enumValues.value, members.value, canonicalTypes.value));
  }

  /** decode_artifact: accepts a file if and only if it is the artifact of a
  state, and answers that state. Every read stays inside the file. */
  method Decode(seal: Seal, bytes: Bytes) returns (r: Option<ProjectState>)
    ensures r.Some? ==> IsArtifact(seal, bytes, r.value)
    ensures r.None? ==> forall state :: !IsArtifact(seal, bytes, state)
  {
    var ok := ValidateHeader(seal, bytes);
    if !ok {
      return None;
    }
    var directory := ValidateDirectory(bytes);
    if directory.None? {
      return None;
    }
    var sections := directory.value;
    SectionFits(bytes, 0);
    SectionFits(bytes, 1);
    hide Sealed, RecordsAre, GraphIs, CrossReferenced, Entry, Word, DirectoryValid, EntryValid;
    var target: nat := Word(bytes, 40);
    var abi := Abi(target % 256, Word(bytes, 44));
    if !Supported(abi) {
      return None;
    }
    var strings := DecodeRecords(bytes, sections[0], StringParser(StorageIn(bytes)));
    if strings.None? {
      return None;
    }
    var graph := DecodeGraph(bytes, sections, abi);
    if graph.None? {
      return None;
    }
    var state := ProjectState(strings.value, graph.value);
    ok := ValidateCrossReferences(state);
    if !ok {
      NoOther(seal, bytes, state);
      return None;
    }
    return Some(state);
  }

  /** When the only reading of the records fails the cross references, there is none. */
  lemma NoOther(seal: Seal, bytes: Bytes, state: ProjectState)
    requires DirectoryValid(bytes) && EntryValid(bytes, 1)
    requires AbiIs(bytes, state.graph.abi) && GraphIs(bytes, state.graph)
    requires RecordsAre(bytes, Entry(bytes, 0), StringParser(StorageIn(bytes)), state.strings)
    requires !CrossReferenced(state)
    ensures forall other :: !IsArtifact(seal, bytes, other)
  {
    hide RecordsAre, HeaderValid, CrossReferenced, Entry;
    forall other | IsArtifact(seal, bytes, other)
      ensures other == state
    {
      SameRecords(bytes, other, state);
    }
  }

  lemma SameRecords(bytes: Bytes, a: ProjectState, b: ProjectState)
    requires DirectoryValid(bytes) && EntryValid(bytes, 1)
    requires AbiIs(bytes, a.graph.abi) && GraphIs(bytes, a.graph) && AbiIs(bytes, b.graph.abi) && GraphIs(bytes, b.graph)
    requires RecordsAre(bytes, Entry(bytes, 0), StringParser(StorageIn(bytes)), a.strings)
    requires RecordsAre(bytes, Entry(bytes, 0), StringParser(StorageIn(bytes)), b.strings)
    ensures a == b
  {
    hide RecordsAre, Entry;
    OneList(bytes, Entry(bytes, 0), StringParser(StorageIn(bytes)), a.strings, b.strings);
    OneList(bytes, Entry(bytes, 2), ParseIdentity, a.graph.identities, b.graph.identities);
    OneList(bytes, Entry(bytes, 3), ParseEntity, a.graph.entities, b.graph.entities);
    OneList(bytes, Entry(bytes, 4), TypeParser(Entry(bytes, 6).count, Entry(bytes, 5).count), a.graph.types, b.graph.types);
    OneList(bytes, Entry(bytes, 5), ParseEnumValue, a.graph.enumValues, b.graph.enumValues);
    OneList(bytes, Entry(bytes, 6), ParseMember, a.graph.members, b.graph.members);
    OneList(bytes, Entry(bytes, 7), ParseCanonical, a.graph.canonicalTypes, b.graph.canonicalTypes);
  }

  /** A file carries at most one state. */
  lemma OneReading(seal: Seal, bytes: Bytes, a: ProjectState, b: ProjectState)
    requires IsArtifact(seal, bytes, a) && IsArtifact(seal, bytes, b)
    ensures a == b
  {
    hide RecordsAre, HeaderValid, CrossReferenced, Entry, GraphIs, AbiIs;
    SameRecords(bytes, a, b);
  }

  // ----- Round trip -----

  lemma StandsWithin(bytes: Bytes, at: nat, data: Bytes, from: nat, piece: Bytes)
    requires Stands(bytes, at, data) && Stands(data, from, piece)
    ensures Stands(bytes, at + from, piece)
  {
    StandsInside(bytes, at, data, from, piece);
  }

  lemma {:induction false} PreambleFields()
    ensures Stands(Preamble(), 0, Magic()) && Stands(Preamble(), 8, Le(1, 2)) && Stands(Preamble(), 10, Le(6, 2))
    ensures Stands(Preamble(), 12, Le(HEADER_SIZE, 4)) && Stands(Preamble(), 16, Le(ENDIAN_MARKER, 4))
  {
    hide Le, Zeros;
    var p := Preamble();
    assert p[..8] == Magic() && p[8..10] == Le(1, 2) && p[10..12] == Le(6, 2);
    assert p[12..16] == Le(HEADER_SIZE, 4) && p[16..20] == Le(ENDIAN_MARKER, 4);
  }

  lemma {:induction false} SizesFields(size: nat, abi: Abi)
    ensures
      var s := Sizes(size, abi);
      && Stands(s, 0, Le(size, 8)) && Stands(s, 8, Le(HEADER_SIZE, 4)) && Stands(s, 12, Le(SECTION_COUNT, 4))
      && Stands(s, 16, Le(abi.target, 4)) && Stands(s, 20, Le(abi.pack, 4))
  {
    hide Le;
    var s := Sizes(size, abi);
    assert s[..8] == Le(size, 8) && s[8..12] == Le(HEADER_SIZE, 4) && s[12..16] == Le(SECTION_COUNT, 4);
    assert s[16..20] == Le(abi.target, 4) && s[20..24] == Le(abi.pack, 4);
  }

  lemma {:induction false} HalfRead(bytes: Bytes, at: nat, value: nat)
    requires value < 0x1_0000 && Stands(bytes, at, Le(value, 2))
    ensures at + 2 <= |bytes| && Half(bytes, at) == value
  {
    RadixValues();
    FieldRead(bytes, at, value, 2);
  }

  /** The header that was written is read back. */
  lemma {:induction false} HeaderRead(bytes: Bytes, abi: Abi)
    requires DATA_OFFSET <= |bytes| <= MAX64 && Stands(bytes, 0, Header(|bytes|, abi))
    ensures FieldsValid(bytes) && Word(bytes, 40) == abi.target && Word(bytes, 44) == abi.pack
  {
    var size := |bytes|;
    var first, second, third := Preamble(), Sizes(size, abi), Zeros(24);
    assert Header(size, abi) == first + second + third;
    Fields3(first, second, third);
    assert |first| == 24;
    hide Preamble, Sizes, Zeros, Le, Word, Half, Long, Magic, Stands, Header;
    StandsWithin(bytes, 0, first + second + third, 0, first);
    StandsWithin(bytes, 0, first + second + third, 24, second);
    PreambleRead(bytes);
    SizesRead(bytes, size, abi);
  }

  lemma {:induction false} PreambleRead(bytes: Bytes)
    requires |bytes| >= DATA_OFFSET && Stands(bytes, 0, Preamble())
    ensures bytes[..8] == Magic()
    ensures Half(bytes, 8) == 1 && Half(bytes, 10) == 6 && Word(bytes, 12) == HEADER_SIZE && Word(bytes, 16) == ENDIAN_MARKER
  {
    PreambleFields();
    hide Le, Stands, Preamble, Word, Half, Magic;
    StandsWithin(bytes, 0, Preamble(), 0, Magic());
    StandsWithin(bytes, 0, Preamble(), 8, Le(1, 2));
    StandsWithin(bytes, 0, Preamble(), 10, Le(6, 2));
    StandsWithin(bytes, 0, Preamble(), 12, Le(HEADER_SIZE, 4));
    StandsWithin(bytes, 0, Preamble(), 16, Le(ENDIAN_MARKER, 4));
    MagicRead(bytes);
    HalfRead(bytes, 8, 1);
    HalfRead(bytes, 10, 6);
    WordRead(bytes, 12, HEADER_SIZE);
    WordRead(bytes, 16, ENDIAN_MARKER);
  }

  lemma {:induction false} SizesRead(bytes: Bytes, size: U64, abi: Abi)
    requires |bytes| >= DATA_OFFSET && Stands(bytes, 24, Sizes(size, abi))
    ensures Long(bytes, 24) == size && Word(bytes, 32) == HEADER_SIZE && Word(bytes, 36) == SECTION_COUNT
    ensures Word(bytes, 40) == abi.target && Word(bytes, 44) == abi.pack
  {
    SizesFields(size, abi);
    hide Le, Stands, Sizes, Word, Long;
    StandsWithin(bytes, 24, Sizes(size, abi), 0, Le(size, 8));
    StandsWithin(bytes, 24, Sizes(size, abi), 8, Le(HEADER_SIZE, 4));
    StandsWithin(bytes, 24, Sizes(size, abi), 12, Le(SECTION_COUNT, 4));
    StandsWithin(bytes, 24, Sizes(size, abi), 16, Le(abi.target, 4));
    StandsWithin(bytes, 24, Sizes(size, abi), 20, Le(abi.pack, 4));
    LongRead(bytes, 24, size);
    WordRead(bytes, 32, HEADER_SIZE);
    WordRead(bytes, 36, SECTION_COUNT);
    WordRead(bytes, 40, abi.target);
    WordRead(bytes, 44, abi.pack);
  }

  lemma MagicRead(bytes: Bytes)
    requires |bytes| >= 8 && Stands(bytes, 0, Magic())
    ensures bytes[..8] == Magic()
  {
  }

  /** A section reads as `list` if and only if every record of the image does. */
  lemma {:induction false} SectionReads<S(!new), T>(bytes: Bytes, s: Section, records: seq<S>, encode: S -> Bytes,
                                                    parse: Bytes -> Option<T>, list: seq<T>)
    requires Sized(encode, s.recordSize) && Stands(bytes, s.offset, Concat(records, encode))
    requires |records| == s.count == |list|
    ensures RecordsAre(bytes, s, parse, list) <==> forall i: nat :: i < |list| ==> parse(encode(records[i])) == Some(list[i])
  {
    hide Window, Sized, Stands, Concat;
    ConcatLength(records, encode, s.recordSize);
    StandsBounded(bytes, s.offset, Concat(records, encode));
    forall i: nat | i < |list|
      ensures Window(bytes, s, i) == encode(records[i])
    {
      WindowOf(bytes, s, records, encode, i);
    }
  }

  lemma StandsBounded(bytes: Bytes, at: nat, data: Bytes)
    requires Stands(bytes, at, data)
    ensures at + |data| <= |bytes|
  {
  }

  lemma PartHolds(bytes: Bytes, counts: seq<nat>, images: seq<Bytes>, i: nat)
    requires |counts| == SECTION_COUNT && |images| == SECTION_COUNT && i < SECTION_COUNT && Part(bytes, counts, images, i)
    ensures Stands(bytes, EntryOffset(i), EntryBytes(Planned(counts, i))) && Stands(bytes, Planned(counts, i).offset, images[i])
    ensures Planned(counts, i).offset <= |bytes| && ZeroBetween(bytes, PlanEnd(counts, i), Planned(counts, i).offset)
  {
  }

  lemma {:induction false} WrittenLayout(seal: Seal, bytes: Bytes, state: ProjectState)
    requires Written(seal, bytes, state)
    ensures |bytes| <= MAX64 && DirectoryValid(bytes)
    ensures forall i: nat :: i < SECTION_COUNT ==> Entry(bytes, i) == Planned(Counts(state), i)
    ensures forall i: nat :: i < SECTION_COUNT ==> Stands(bytes, Planned(Counts(state), i).offset, Images(state)[i])
  {
    hide Header, Sealed, EntryBytes, Entry, Stands, DirectoryValid, ZeroBetween, Planned, PlanEnd, Counts, Images, StringsFit, Part;
    var counts := Counts(state);
    forall i: nat | i < SECTION_COUNT
      ensures Stands(bytes, EntryOffset(i), EntryBytes(Planned(counts, i)))
      ensures Stands(bytes, Planned(counts, i).offset, Images(state)[i])
      ensures Planned(counts, i).offset <= |bytes| && ZeroBetween(bytes, PlanEnd(counts, i), Planned(counts, i).offset)
    {
      PartHolds(bytes, counts, Images(state), i);
    }
    PlanBounded(counts, SECTION_COUNT);
    PlanValid(bytes, counts);
  }

  lemma {:induction false} StringsRead(bytes: Bytes, state: ProjectState)
    requires StringsFit(state.strings) && |bytes| >= DATA_OFFSET
    requires Entry(bytes, 0) == Planned(Counts(state), 0) && Entry(bytes, 1) == Planned(Counts(state), 1)
    requires Stands(bytes, Entry(bytes, 0).offset, Images(state)[0]) && Stands(bytes, Entry(bytes, 1).offset, Images(state)[1])
    ensures Entry(bytes, 1).offset + Entry(bytes, 1).bytes <= |bytes|
    ensures RecordsAre(bytes, Entry(bytes, 0), StringParser(StorageIn(bytes)), state.strings) <==> NothingLost(state.strings)
  {
    hide Entry, PlanEnd, Storage, Concat, ParseString, StringRecordBytes, Sized, Lost, RecordsAre;
    EncodersSized();
    var strings := state.strings;
    assert StorageIn(bytes) == Storage(strings);
    var parse := StringParser(Storage(strings));
    SectionReads(bytes, Entry(bytes, 0), RecordsOf(strings), StringRecordEncoder(), parse, strings);
    forall i: nat | i < |strings|
      ensures parse(StringRecordBytes(RecordOf(strings, i))) == Some(strings[i]) <==> !Lost(strings, i)
    {
      WrittenString(strings, i);
      LostIsLive(strings, i);
    }
  }

  lemma LostIsLive(strings: seq<Option<Bytes>>, i: nat)
    requires i < |strings|
    ensures Lost(strings, i) ==> strings[i].Some?
  {
  }

  ghost predicate EveryRecordRead(g: GraphState) {
    && (forall i: nat :: i < |g.identities| ==> ParseIdentity(IdentityBytes(g.identities[i])) == Some(g.identities[i]))
    && (forall i: nat :: i < |g.entities| ==> ParseEntity(EntityBytes(g.entities[i])) == Some(g.entities[i]))
    && (forall i: nat :: i < |g.types| ==>
          TypeParser(|g.members|, |g.enumValues|)(TypeBytes(g.types[i])) == Some(g.types[i]))
    && (forall i: nat :: i < |g.enumValues| ==> ParseEnumValue(EnumValueBytes(g.enumValues[i])) == Some(g.enumValues[i]))
    && (forall i: nat :: i < |g.members| ==> ParseMember(MemberBytes(g.members[i])) == Some(g.members[i]))
    && (forall i: nat :: i < |g.canonicalTypes| ==>
          ParseCanonical(CanonicalBytes(g.canonicalTypes[i])) == Some(g.canonicalTypes[i]))
  }

  lemma {:induction false} GraphReads(bytes: Bytes, state: ProjectState)
    requires StringsFit(state.strings) && |bytes| >= DATA_OFFSET
    requires forall i: nat :: i < SECTION_COUNT ==> Entry(bytes, i) == Planned(Counts(state), i)
    requires forall i: nat :: i < SECTION_COUNT ==> Stands(bytes, Planned(Counts(state), i).offset, Images(state)[i])
    ensures GraphIs(bytes, state.graph) <==> EveryRecordRead(state.graph)
  {
    hide Entry, PlanEnd, Storage, Concat, Sized, Stands, RecordsAre, TypeParser;
    hide IdentityBytes, EntityBytes, TypeBytes, EnumValueBytes, MemberBytes, CanonicalBytes;
    hide ParseIdentity, ParseEntity, ParseEnumValue, ParseMember, ParseCanonical;
    EncodersSized();
    var g := state.graph;
    SectionReads(bytes, Entry(bytes, 2), g.identities, IdentityBytes, ParseIdentity, g.identities);
    SectionReads(bytes, Entry(bytes, 3), g.entities, EntityBytes, ParseEntity, g.entities);
    SectionReads(bytes, Entry(bytes, 4), g.types, TypeBytes, TypeParser(|g.members|, |g.enumValues|), g.types);
    SectionReads(bytes, Entry(bytes, 5), g.enumValues, EnumValueBytes, ParseEnumValue, g.enumValues);
    SectionReads(bytes, Entry(bytes, 6), g.members, MemberBytes, ParseMember, g.members);
    SectionReads(bytes, Entry(bytes, 7), g.canonicalTypes, CanonicalBytes, ParseCanonical, g.canonicalTypes);
  }

  lemma {:induction false} RecordsRead(g: GraphState)
    ensures EveryRecordRead(g) <==> RecordsValid(g)
  {
    hide IdentityBytes, EntityBytes, TypeBytes, EnumValueBytes, MemberBytes, CanonicalBytes;
    hide ParseIdentity, ParseEntity, ParseEnumValue, ParseMember, ParseCanonical, ParseType;
    hide EntityValid, TypeValid, EnumValueValid, MemberValid;
    forall x: U32
      ensures ParseIdentity(IdentityBytes(x)) == Some(x)
    {
      IdentityRoundTrip(x);
    }
    forall x: EntitySlot
      ensures ParseEntity(EntityBytes(x)) == Some(x) <==> EntityValid(x)
    {
      EntityRoundTrip(x);
    }
    forall x: TypeSlot
      ensures ParseType(TypeBytes(x), |g.members|, |g.enumValues|) == Some(x) <==> TypeValid(x, |g.members|, |g.enumValues|)
    {
      TypeRoundTrip(x, |g.members|, |g.enumValues|);
    }
    forall x: EnumValue
      ensures ParseEnumValue(EnumValueBytes(x)) == Some(x) <==> EnumValueValid(x)
    {
      EnumValueRoundTrip(x);
    }
    forall x: Member
      ensures ParseMember(MemberBytes(x)) == Some(x) <==> MemberValid(x)
    {
      MemberRoundTrip(x);
    }
    forall x: CanonicalType
      ensures ParseCanonical(CanonicalBytes(x)) == Some(x)
    {
      CanonicalRoundTrip(x);
    }
  }

  lemma {:induction false} WrittenHeader(seal: Seal, bytes: Bytes, state: ProjectState)
    requires Written(seal, bytes, state) && |bytes| <= MAX64
    ensures HeaderValid(seal, bytes) && Word(bytes, 40) == state.graph.abi.target && Word(bytes, 44) == state.graph.abi.pack
  {
    hide Word, FieldsValid, Stands, Header, Sealed, Part, PlanEnd, Counts, Images, Fit32, StringsFit;
    HeaderRead(bytes, state.graph.abi);
  }

  lemma {:induction false} WrittenRecords(bytes: Bytes, state: ProjectState)
    requires DirectoryValid(bytes) && StringsFit(state.strings)
    requires forall i: nat :: i < SECTION_COUNT ==> Entry(bytes, i) == Planned(Counts(state), i)
    requires forall i: nat :: i < SECTION_COUNT ==> Stands(bytes, Planned(Counts(state), i).offset, Images(state)[i])
    ensures EntryValid(bytes, 1)
    ensures RecordsAre(bytes, Entry(bytes, 0), StringParser(StorageIn(bytes)), state.strings) <==> NothingLost(state.strings)
    ensures GraphIs(bytes, state.graph) <==> RecordsValid(state.graph)
  {
    hide EntryValid, GraphIs, RecordsAre, NothingLost, RecordsValid, EveryRecordRead, Entry, Stands, Images, Planned, Counts, StringsFit;
    SectionFits(bytes, 1);
    assert Entry(bytes, 0) == Planned(Counts(state), 0) && Entry(bytes, 1) == Planned(Counts(state), 1);
    StringsRead(bytes, state);
    GraphReads(bytes, state);
    RecordsRead(state.graph);
  }

  /** The encoder's file is the artifact of its state if and only if the state is persistable. */
  lemma {:induction false} WrittenIsArtifact(seal: Seal, bytes: Bytes, state: ProjectState)
    requires Written(seal, bytes, state)
    ensures IsArtifact(seal, bytes, state) <==> Persistable(state)
  {
    hide GraphIs, RecordsAre, NothingLost, RecordsValid, CrossReferenced, HeaderValid, Entry, EntryValid, Word, Supported;
    hide DirectoryValid, Stands, Images, Planned, Counts, Fit32, StringsFit, Sealed, Part, PlanEnd, Header, StorageIn, StringParser;
    WrittenLayout(seal, bytes, state);
    WrittenHeader(seal, bytes, state);
    WrittenRecords(bytes, state);
    assert AbiIs(bytes, state.graph.abi) <==> Supported(state.graph.abi);
  }

  /** Saving a state and loading the file gives the state back if and only if it is persistable. */
  method SaveAndLoad(seal: Seal, state: ProjectState) returns (file: Option<Bytes>, loaded: Option<ProjectState>)
    requires SealValid(seal)
    ensures file.Some? <==> Fit32(Counts(state))
    ensures file.Some? ==> (loaded == Some(state) <==> Persistable(state))
  {
    hide Written, IsArtifact, Persistable, Fit32;
    file := Encode(seal, state);
    if file.None? {
      return None, None;
    }
    WrittenIsArtifact(seal, file.value, state);
    loaded := Decode(seal, file.value);
    if loaded.Some? && IsArtifact(seal, file.value, state) {
      OneReading(seal, file.value, loaded.value, state);
    }
  }

  /** Whatever the decoder accepts is persistable again, unless a string is in the lost position. */
  lemma {:induction false} LoadedIsPersistable(seal: Seal, bytes: Bytes, state: ProjectState)
    requires IsArtifact(seal, bytes, state)
    ensures RecordsValid(state.graph) && Supported(state.graph.abi) && CrossReferenced(state)
    ensures Persistable(state) <==> NothingLost(state.strings)
  {
    hide Entry, Window, StringParser, HeaderValid, CrossReferenced, StorageIn, NothingLost, Supported;
    var g := state.graph;
    var typeParser := TypeParser(Entry(bytes, 6).count, Entry(bytes, 5).count);
    forall e <- g.entities
      ensures EntityValid(e)
    {
      var i: nat :| i < |g.entities| && g.entities[i] == e;
      ParsedEntity(Window(bytes, Entry(bytes, 3), i));
    }
    forall t <- g.types
      ensures TypeValid(t, |g.members|, |g.enumValues|)
    {
      var i: nat :| i < |g.types| && g.types[i] == t;
      assert typeParser(Window(bytes, Entry(bytes, 4), i)) == Some(t);
      ParsedType(Window(bytes, Entry(bytes, 4), i), |g.members|, |g.enumValues|);
    }
  }

  /** The whole failing family in one concrete member: an empty string behind the last addressable character. */
  lemma {:induction false} EmptyStringLost(abi: Abi)
    requires Supported(abi)
    ensures
      var strings := [Some(Zeros(TOMBSTONE)), Some([])];
      var state := ProjectState(strings, GraphState(abi, [], [], [], [], [], []));
      Fit32(Counts(state)) && !Persistable(state) && CrossReferenced(state) && RecordsValid(state.graph)
  {
    var strings := [Some(Zeros(TOMBSTONE)), Some([])];
    StorageSplit(strings, 0);
    StorageSplit(strings, 1);
    assert strings[..0] == [] && strings[..2] == strings && Storage([]) == [];
    assert Lost(strings, 1);
  }
}
