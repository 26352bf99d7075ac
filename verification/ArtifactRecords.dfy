/** The fixed-size records of a compiled artifact: how each is written, which
byte strings the decoder takes for one, and what it makes of them. */
module ArtifactRecords {
  import opened Collections
  import opened CompiledState
  import opened LittleEndian
  import opened ArtifactLayout

  function Half(w: Bytes, at: nat): nat
    requires at + 2 <= |w|
  {
    Unsigned(w, at, 2)
  }

  function Word(w: Bytes, at: nat): U32
    requires at + 4 <= |w|
  {
    RadixValues();
    Unsigned(w, at, 4)
  }

  function Long(w: Bytes, at: nat): U64
    requires at + 8 <= |w|
  {
    RadixValues();
    Unsigned(w, at, 8)
  }

  /** Reading a field back from where it was written. */
  lemma FieldRead(w: Bytes, at: nat, value: nat, n: nat)
    requires Stands(w, at, Le(value, n)) && value < Radix(n)
    ensures at + n <= |w| && Unsigned(w, at, n) == value
  {
    LeRoundTrip(value, n);
  }

  lemma WordRead(w: Bytes, at: nat, value: U32)
    requires Stands(w, at, Le(value, 4))
    ensures at + 4 <= |w| && Word(w, at) == value
  {
    RadixValues();
    FieldRead(w, at, value, 4);
  }

  lemma LongRead(w: Bytes, at: nat, value: U64)
    requires Stands(w, at, Le(value, 8))
    ensures at + 8 <= |w| && Long(w, at) == value
  {
    RadixValues();
    FieldRead(w, at, value, 8);
  }

  lemma {:induction false} Fields3(a: Bytes, b: Bytes, c: Bytes)
    ensures Stands(a + b + c, 0, a) && Stands(a + b + c, |a|, b) && Stands(a + b + c, |a| + |b|, c)
  {
  }

  lemma {:induction false} Fields4(a: Bytes, b: Bytes, c: Bytes, d: Bytes)
    ensures Stands(a + b + c + d, 0, a) && Stands(a + b + c + d, |a|, b)
    ensures Stands(a + b + c + d, |a| + |b|, c) && Stands(a + b + c + d, |a| + |b| + |c|, d)
  {
    Fields3(a, b, c);
    var s := a + b + c;
    assert (s + d)[..|s|] == s;
    assert (s + d)[|a|..|a| + |b|] == s[|a|..|a| + |b|];
    assert (s + d)[|a| + |b|..|s|] == s[|a| + |b|..|s|];
  }

  // ----- String records -----

  /** An offset of all ones marks a free slot. */
  const TOMBSTONE: nat := 0xFFFF_FFFF

  datatype StringRecord = StringRecord(offset: U32, length: U32)

  function StringRecordBytes(r: StringRecord): (w: Bytes)
    ensures |w| == 8
  {
    Le(r.offset, 4) + Le(r.length, 4)
  }

  /** One iteration of decode_strings. */
  function ParseString(storage: Bytes, w: Bytes): Option<Option<Bytes>> {
    if |w| != 8 then None
    else
      var offset, length := Word(w, 0), Word(w, 4);
      if offset == TOMBSTONE then
        if length != 0 then None else Some(None)
      else if offset > |storage| || length > |storage| - offset then None
      else Some(Some(storage[offset..offset + length]))
  }

  function StringParser(storage: Bytes): Bytes -> Option<Option<Bytes>> {
    w => ParseString(storage, w)
  }

  lemma StringRecordRead(r: StringRecord)
    ensures Word(StringRecordBytes(r), 0) == r.offset && Word(StringRecordBytes(r), 4) == r.length
  {
    hide Le, Value, Word;
    var w := StringRecordBytes(r);
    assert Stands(w, 0, Le(r.offset, 4)) && Stands(w, 4, Le(r.length, 4));
    WordRead(w, 0, r.offset);
    WordRead(w, 4, r.length);
  }

  // ----- Identities -----

  function IdentityBytes(id: U32): (w: Bytes)
    ensures |w| == 4
  {
    Le(id, 4)
  }

  function ParseIdentity(w: Bytes): Option<U32> {
    if |w| != 4 then None else Some(Word(w, 0))
  }

  lemma IdentityRoundTrip(id: U32)
    ensures ParseIdentity(IdentityBytes(id)) == Some(id)
  {
    RadixValues();
    assert IdentityBytes(id)[0..4] == Le(id, 4);
    FieldRead(IdentityBytes(id), 0, id, 4);
  }

  // ----- Entities -----

  predicate EntityValid(e: EntitySlot) {
    e.Live() || e.slot == 0
  }

  function EntityBytes(e: EntitySlot): (w: Bytes)
    ensures |w| == 16
  {
    [if e.kind.AggregateType? then 0 else 1, 0, 0, 0] + Le(e.name, 4) + Le(e.slot, 4) + Le(0, 4)
  }

  function ParseEntity(w: Bytes): Option<EntitySlot> {
    if |w| != 16 || w[0] > 1 || w[1] != 0 || Half(w, 2) != 0 || Word(w, 12) != 0 then None
    else
      var e := EntitySlot(if w[0] == 0 then AggregateType else EnumType, Word(w, 4), Word(w, 8));
      if !e.Live() && e.slot != 0 then None else Some(e)
  }

  lemma EntityFields(e: EntitySlot)
    ensures
      var w := EntityBytes(e);
      && w[0] == (if e.kind.AggregateType? then 0 else 1) && w[1] == 0 && Half(w, 2) == 0
      && Word(w, 4) == e.name && Word(w, 8) == e.slot && Word(w, 12) == 0
  {
    var w := EntityBytes(e);
    var first: Bytes := [if e.kind.AggregateType? then 0 else 1, 0, 0, 0];
    assert w == first + Le(e.name, 4) + Le(e.slot, 4) + Le(0, 4);
    assert w[0] == first[0] && w[1] == first[1] && w[2] == 0 && w[3] == 0;
    hide *;
    Fields4(first, Le(e.name, 4), Le(e.slot, 4), Le(0, 4));
    WordRead(w, 4, e.name);
    WordRead(w, 8, e.slot);
    WordRead(w, 12, 0);
    HalfZero(w, 2);
  }

  lemma EntityRoundTrip(e: EntitySlot)
    ensures ParseEntity(EntityBytes(e)) == if EntityValid(e) then Some(e) else None
  {
    EntityFields(e);
    hide Word, Half, Le;
  }

  lemma HalfZero(w: Bytes, at: nat)
    requires at + 2 <= |w| && w[at] == 0 && w[at + 1] == 0
    ensures Half(w, at) == 0
  {
    assert w[at..at + 2] == [0, 0];
    assert Value([0, 0][1..]) == 0 by {
      assert [0, 0][1..] == [0];
      assert Value([0]) == 0 + 256 * Value([0][1..]);
    }
  }

  lemma ParsedEntity(w: Bytes)
    ensures ParseEntity(w).Some? ==> EntityValid(ParseEntity(w).value)
  {
  }

  // ----- Enum values -----

  predicate EnumValueValid(v: EnumValue) {
    v.name != 0
  }

  function EnumValueBytes(v: EnumValue): (w: Bytes)
    ensures |w| == 16
  {
    Le(v.name, 4) + Le(0, 4) + Le(v.bits, 8)
  }

  function ParseEnumValue(w: Bytes): Option<EnumValue> {
    if |w| != 16 || Word(w, 4) != 0 || Word(w, 0) == 0 then None
    else Some(EnumValue(Word(w, 0), Long(w, 8)))
  }

  lemma EnumValueRoundTrip(v: EnumValue)
    ensures ParseEnumValue(EnumValueBytes(v)) == if EnumValueValid(v) then Some(v) else None
  {
    hide Le, Value, Word, Long, Stands;
    var w := EnumValueBytes(v);
    Fields3(Le(v.name, 4), Le(0, 4), Le(v.bits, 8));
    WordRead(w, 0, v.name);
    WordRead(w, 4, 0);
    LongRead(w, 8, v.bits);
  }

  // ----- Members -----

  predicate MemberValid(m: Member) {
    m.name != 0 && m.typeRef != 0
  }

  function MemberBytes(m: Member): (w: Bytes)
    ensures |w| == 8
  {
    Le(m.name, 4) + Le(m.typeRef, 4)
  }

  function ParseMember(w: Bytes): Option<Member> {
    if |w| != 8 || Word(w, 0) == 0 || Word(w, 4) == 0 then None
    else Some(Member(Word(w, 0), Word(w, 4)))
  }

  lemma MemberRoundTrip(m: Member)
    ensures ParseMember(MemberBytes(m)) == if MemberValid(m) then Some(m) else None
  {
    hide Le, Value, Word;
    var w := MemberBytes(m);
    assert Stands(w, 0, Le(m.name, 4)) && Stands(w, 4, Le(m.typeRef, 4));
    WordRead(w, 0, m.name);
    WordRead(w, 4, m.typeRef);
  }

  // ----- Types -----

  /** What survives: a free slot carries nothing, an aggregate no enum fields,
  and a definition lies inside the arena of its kind. */
  predicate TypeValid(t: TypeSlot, members: nat, enumValues: nat) {
    if !t.live then t.record == DefaultEntry()
    else
      && (t.record.kind.Aggregate? ==> t.record.enumeration == DefaultEnum())
      && (t.record.kind.Enumeration? ==> t.record.enumeration.underlying <= LAST_UNDERLYING)
      && RangeValid(t.record.definition, if t.record.kind.Aggregate? then members else enumValues)
  }

  function Flag(b: bool): Byte {
    if b then 1 else 0
  }

  function TypeBytes(t: TypeSlot): (w: Bytes)
    ensures |w| == 16
  {
    if !t.live then Zeros(8) + Le(0, 4) + Le(0, 4)
    else
      (if t.record.kind.Enumeration? then
         [1, 1, Flag(t.record.enumeration.scoped), Flag(t.record.enumeration.fixedUnderlying),
          t.record.enumeration.underlying, 0, 0, 0]
       else [1, 0, 0, 0, 0, 0, 0, 0])
      + Le(t.record.definition.begin, 4) + Le(t.record.definition.count, 4)
  }

  function ParseType(w: Bytes, members: nat, enumValues: nat): Option<TypeSlot> {
    if |w| != 16 || w[0] > 1 || w[1] > 1 || w[2] > 1 || w[3] > 1 || w[4] > LAST_UNDERLYING || w[5] != 0 || Half(w, 6) != 0 then
      None
    else if w[0] == 0 then
      if w[2] != 0 || w[3] != 0 || w[4] != 0 || Word(w, 8) != 0 || Word(w, 12) != 0 then None
      else Some(TypeSlot(false, DefaultEntry()))
    else if w[1] == 0 && (w[2] != 0 || w[3] != 0 || w[4] != 0) then None
    else
      var definition := DefinitionRange(Word(w, 8), Word(w, 12));
      var entry :=
        if w[1] == 0 then TypeEntry(Aggregate, DefaultEnum(), definition)
        else TypeEntry(Enumeration, EnumEntry(w[2] == 1, w[3] == 1, w[4]), definition);
      if RangeValid(definition, if w[1] == 0 then members else enumValues) then Some(TypeSlot(true, entry)) else None
  }

  function TypeParser(members: nat, enumValues: nat): Bytes -> Option<TypeSlot> {
    w => ParseType(w, members, enumValues)
  }

  lemma TypeFields(t: TypeSlot)
    ensures
      var w := TypeBytes(t);
      && Word(w, 8) == (if t.live then t.record.definition.begin else 0)
      && Word(w, 12) == (if t.live then t.record.definition.count else 0)
      && w[5] == 0 && Half(w, 6) == 0
  {
    hide Le, Value, Word, Half;
    var w := TypeBytes(t);
    var begin, count := if t.live then t.record.definition.begin else 0, if t.live then t.record.definition.count else 0;
    assert Stands(w, 8, Le(begin, 4)) && Stands(w, 12, Le(count, 4));
    WordRead(w, 8, begin);
    WordRead(w, 12, count);
    HalfZero(w, 6);
  }

  /** A slot comes back as it was written if and only if it is valid. */
  lemma TypeRoundTrip(t: TypeSlot, members: nat, enumValues: nat)
    ensures ParseType(TypeBytes(t), members, enumValues) == Some(t) <==> TypeValid(t, members, enumValues)
  {
    TypeFields(t);
    hide Word, Half, Le;
  }

  lemma ParsedType(w: Bytes, members: nat, enumValues: nat)
    ensures ParseType(w, members, enumValues).Some? ==> TypeValid(ParseType(w, members, enumValues).value, members, enumValues)
  {
    hide Word, Half;
  }

  // ----- Canonical types -----

  function CanonicalBytes(c: CanonicalType): (w: Bytes)
    ensures |w| == 16
  {
    [c.kind, c.subtype, 0, 0] + Le(c.argument, 4) + Le(c.payload, 8)
  }

  function ParseCanonical(w: Bytes): Option<CanonicalType> {
    if |w| != 16 || Half(w, 2) != 0 then None
    else Some(CanonicalType(w[0], w[1], Word(w, 4), Long(w, 8)))
  }

  lemma CanonicalRoundTrip(c: CanonicalType)
    ensures ParseCanonical(CanonicalBytes(c)) == Some(c)
  {
    hide Le, Value, Word, Long, Half, Stands;
    var w := CanonicalBytes(c);
    var first: Bytes := [c.kind, c.subtype, 0, 0];
    Fields3(first, Le(c.argument, 4), Le(c.payload, 8));
    WordRead(w, 4, c.argument);
    LongRead(w, 8, c.payload);
    HalfZero(w, 2);
  }

  // ----- A section of records -----

  function Concat<T>(list: seq<T>, encode: T -> Bytes): Bytes {
    if list == [] then [] else Concat(list[..|list| - 1], encode) + encode(list[|list| - 1])
  }

  ghost predicate Sized<T(!new)>(encode: T -> Bytes, size: nat) {
    forall x: T :: |encode(x)| == size
  }

  lemma {:induction false} ConcatLength<T(!new)>(list: seq<T>, encode: T -> Bytes, size: nat)
    requires Sized(encode, size)
    ensures |Concat(list, encode)| == |list| * size
  {
    if list != [] {
      ConcatLength(list[..|list| - 1], encode, size);
      Next(|list| - 1, size);
    }
  }

  lemma Next(i: nat, size: nat)
    ensures (i + 1) * size == i * size + size
  {
  }

  lemma {:induction false} ConcatNext<T>(list: seq<T>, encode: T -> Bytes, i: nat)
    requires i < |list|
    ensures Concat(list[..i + 1], encode) == Concat(list[..i], encode) + encode(list[i])
  {
    assert list[..i + 1][..i] == list[..i];
  }

  lemma {:induction false} ConcatAt<T(!new)>(list: seq<T>, encode: T -> Bytes, size: nat, i: nat)
    requires Sized(encode, size) && i < |list|
    ensures i * size + size <= |Concat(list, encode)|
    ensures Stands(Concat(list, encode), i * size, encode(list[i]))
  {
    var last := |list| - 1;
    var front := Concat(list[..last], encode);
    assert Concat(list, encode) == front + encode(list[last]);
    assert |encode(list[i])| == size;
    ConcatLength(list[..last], encode, size);
    if i < last {
      ConcatAt(list[..last], encode, size, i);
      hide Sized, Concat, Stands;
      StandsInFront(front, encode(list[last]), i * size, encode(list[i]));
    } else {
      hide Sized, Concat, Stands;
      StandsBehind(front, encode(list[last]));
    }
  }

  lemma StandsBehind(front: Bytes, data: Bytes)
    ensures Stands(front + data, |front|, data)
  {
  }

  method WriteRecords<T(!new)>(a: array<Byte>, at: nat, size: nat, list: seq<T>, encode: T -> Bytes)
    requires Sized(encode, size) && at + |list| * size <= a.Length
    modifies a
    ensures at + |Concat(list, encode)| <= a.Length
    ensures a[..] == Patched(old(a[..]), at, Concat(list, encode))
  {
    hide Patched;
    ghost var before := a[..];
    PatchedNothing(before, at);
    assert list[..0] == [];
    ConcatLength(list, encode, size);
    for i := 0 to |list|
      invariant at + |Concat(list[..i], encode)| <= a.Length
      invariant a[..] == Patched(before, at, Concat(list[..i], encode))
    {
      ConcatNext(list, encode, i);
      ConcatAt(list, encode, size, i);
      ConcatLength(list[..i], encode, size);
      Put(a, at + i * size, encode(list[i]));
      PatchedJoin(before, at, Concat(list[..i], encode), encode(list[i]));
    }
    assert list[..|list|] == list;
  }

  lemma WindowInside(s: Section, i: nat)
    requires i < s.count
    ensures i * s.recordSize + s.recordSize <= s.count * s.recordSize
  {
    Next(i, s.recordSize);
    Grows(s.recordSize, i + 1, s.count);
  }

  /** The bytes of one record. */
  function Window(bytes: Bytes, s: Section, i: nat): (w: Bytes)
    requires i < s.count && s.offset + s.count * s.recordSize <= |bytes|
    ensures |w| == s.recordSize
  {
    WindowInside(s, i);
    bytes[s.offset + i * s.recordSize..s.offset + i * s.recordSize + s.recordSize]
  }

  /** Decoding the section record by record gives `list`. */
  ghost predicate RecordsAre<T>(bytes: Bytes, s: Section, parse: Bytes -> Option<T>, list: seq<T>) {
    && s.offset + s.count * s.recordSize <= |bytes| && |list| == s.count
    && forall i: nat :: i < s.count ==> parse(Window(bytes, s, i)) == Some(list[i])
  }

  method DecodeRecords<T>(bytes: Bytes, s: Section, parse: Bytes -> Option<T>) returns (r: Option<seq<T>>)
    requires s.offset + s.count * s.recordSize <= |bytes|
    ensures r.Some? ==> RecordsAre(bytes, s, parse, r.value)
    ensures r.None? ==> forall list :: !RecordsAre(bytes, s, parse, list)
  {
    hide Window;
    var list: seq<T> := [];
    for i := 0 to s.count
      invariant |list| == i
      invariant forall j: nat :: j < i ==> parse(Window(bytes, s, j)) == Some(list[j])
    {
      var record := parse(Window(bytes, s, i));
      if record.None? {
        return None;
      }
      list := list + [record.value];
    }
    r := Some(list);
  }

  lemma OneList<T>(bytes: Bytes, s: Section, parse: Bytes -> Option<T>, a: seq<T>, b: seq<T>)
    requires RecordsAre(bytes, s, parse, a) && RecordsAre(bytes, s, parse, b)
    ensures a == b
  {
    hide Window;
    forall i: nat | i < |a|
      ensures a[i] == b[i]
    {
      assert parse(Window(bytes, s, i)) == Some(a[i]);
    }
  }

  /** A written record is read from its own window. */
  lemma WindowOf<T(!new)>(bytes: Bytes, s: Section, list: seq<T>, encode: T -> Bytes, i: nat)
    requires Sized(encode, s.recordSize) && Stands(bytes, s.offset, Concat(list, encode)) && |list| == s.count && i < s.count
    ensures s.offset + s.count * s.recordSize <= |bytes| && Window(bytes, s, i) == encode(list[i])
  {
    hide Stands, Concat;
    var size := s.recordSize;
    assert |encode(list[i])| == size;
    ConcatLength(list, encode, size);
    ConcatAt(list, encode, size, i);
    hide Sized;
    StandsInside(bytes, s.offset, Concat(list, encode), i * size, encode(list[i]));
  }

  lemma StandsInside(bytes: Bytes, at: nat, data: Bytes, from: nat, piece: Bytes)
    requires Stands(bytes, at, data) && Stands(data, from, piece)
    ensures at + |data| <= |bytes| && from + |piece| <= |data| && bytes[at + from..at + from + |piece|] == piece
  {
    PartOf(bytes, at, data, from, from + |piece|);
  }
}
