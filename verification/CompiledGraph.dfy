/** Import and export of the canonical Graph.

Import validates a detached state and builds every lookup index from it; export
is the projection that a checkpoint stores. What import accepts satisfies the
reference invariants of the Graph, and its dependency rebuild cannot fail.
 */
module CompiledGraph {
  import opened Collections
  import opened DependencyIndex
  import opened TypeGraph
  import opened TypeTable
  import C = CompiledState

  /** What a Graph owner holds. */
  datatype Image = Image(
    abi: C.Abi, store: Store, entities: seq<C.EntitySlot>, identity: seq<C.U32>, free: seq<nat>,
    entityCount: nat, typeCount: nat, nextStableId: nat, generation: nat)

  const DEAD := C.EntitySlot(C.AggregateType, 0, 0)

  // ----- From records to the values of the Graph -----

  function EntryOf(e: C.TypeEntry): TypeEntry {
    TypeEntry(
      if e.kind.Aggregate? then Aggregate else Enumeration,
      EnumEntry(e.enumeration.scoped, e.enumeration.fixedUnderlying, e.enumeration.underlying),
      Definition(e.definition.begin, e.definition.count))
  }

  function SlotOf(s: C.TypeSlot): Option<TypeEntry> {
    if s.live then Some(EntryOf(s.record)) else None
  }

  function MemberOf(m: C.Member): Member {
    Member(m.name, m.typeRef)
  }

  function ValueOf(v: C.EnumValue): EnumValue {
    EnumValue(v.name, v.bits)
  }

  function EntityOf(e: C.EntitySlot): C.EntitySlot {
    if e.Live() then e else DEAD
  }

  const ARRAY: C.Byte := 1

  function ModifierOf(subtype: C.Byte): DerivedKind {
    if subtype == 0 then Pointer
    else if subtype == ARRAY then Array
    else if subtype == 2 then LvalueReference
    else RvalueReference
  }

  function RecordOf(c: C.CanonicalType): Record {
    if c.kind == 0 then Builtin(c.subtype)
    else if c.kind == 1 then Named(c.argument)
    else Derived(DerivedKey(ModifierOf(c.subtype), c.argument, c.payload))
  }

  function Mapped<S, T>(list: seq<S>, f: S -> T): (r: seq<T>)
    ensures |r| == |list| && forall i: nat :: i < |list| ==> r[i] == f(list[i])
  {
    seq(|list|, i requires 0 <= i < |list| => f(list[i]))
  }

  method Collect<S, T>(list: seq<S>, f: S -> T) returns (r: seq<T>)
    ensures r == Mapped(list, f)
  {
    r := [];
    for i := 0 to |list|
      invariant |r| == i && forall j: nat :: j < i ==> r[j] == f(list[j])
    {
      r := r + [f(list[i])];
    }
  }

  // ----- The canonical table -----

  /** What one position of the table may hold. */
  predicate EntryAccepted(c: C.CanonicalType, i: nat, typeCount: nat) {
    if i == 0 then c == C.CanonicalType(0, 19, 0, 0)
    else if i < PREFIX_SIZE then c == C.CanonicalType(0, (i - 1) % 256, 0, 0)
    else if c.kind == 1 then c.subtype == 0 && 0 < c.argument <= typeCount && c.payload == 0
    else c.kind == 2 && c.subtype <= 3 && 0 < c.argument < i && (c.subtype == ARRAY <==> c.payload != 0)
  }

  /** The fixed prefix, then valid entries of which no two are equal. */
  ghost predicate TableAccepted(list: seq<C.CanonicalType>, typeCount: nat) {
    && |list| >= PREFIX_SIZE
    && (forall i: nat :: i < |list| ==> EntryAccepted(list[i], i, typeCount))
    && (forall i: nat, j: nat :: PREFIX_SIZE <= i < j < |list| ==> list[i] != list[j])
  }

  /** The state after `i` entries. */
  ghost predicate TableSoFar(list: seq<C.CanonicalType>, typeCount: nat, i: nat, named: seq<nat>,
                             derived: map<DerivedKey, nat>)
    requires i <= |list|
  {
    && |named| == typeCount + 1 && EntriesSoFar(list, typeCount, i)
    && Indexed(Mapped(list[..i], RecordOf), PREFIX_SIZE, NamedMap(named), derived)
  }

  ghost predicate EntriesSoFar(list: seq<C.CanonicalType>, typeCount: nat, i: nat)
    requires i <= |list|
  {
    && (forall k: nat :: k < i ==> EntryAccepted(list[k], k, typeCount))
    && (forall k: nat, j: nat :: PREFIX_SIZE <= k < j < i ==> list[k] != list[j])
  }

  lemma {:induction false} OneMoreEntry(list: seq<C.CanonicalType>, typeCount: nat, i: nat)
    requires i < |list| && EntriesSoFar(list, typeCount, i) && EntryAccepted(list[i], i, typeCount)
    requires forall k: nat :: PREFIX_SIZE <= k < i ==> list[k] != list[i]
    ensures EntriesSoFar(list, typeCount, i + 1)
  {
    hide EntryAccepted;
  }

  lemma {:induction false} AcceptedRecord(c: C.CanonicalType, i: nat, typeCount: nat)
    requires EntryAccepted(c, i, typeCount)
    ensures i == 0 ==> RecordOf(c) == Builtin(BUILTIN_COUNT - 1)
    ensures 1 <= i < PREFIX_SIZE ==> RecordOf(c) == Builtin(i - 1)
    ensures i >= PREFIX_SIZE ==> RecordFits(RecordOf(c), i)
    ensures RecordOf(c).Named? ==> RecordOf(c).handle <= typeCount
  {
  }

  /** Accepted entries behind the prefix are equal exactly when their records are. */
  lemma RecordInjective(a: C.CanonicalType, i: nat, b: C.CanonicalType, j: nat, typeCount: nat)
    requires EntryAccepted(a, i, typeCount) && EntryAccepted(b, j, typeCount) && PREFIX_SIZE <= i && PREFIX_SIZE <= j
    ensures RecordOf(a) == RecordOf(b) <==> a == b
  {
  }

  lemma {:induction false} TableStep(list: seq<C.CanonicalType>, typeCount: nat, i: nat, named: seq<nat>,
                                     derived: map<DerivedKey, nat>,
                                     named': seq<nat>, derived': map<DerivedKey, nat>)
    requires i < |list| && TableSoFar(list, typeCount, i, named, derived) && EntryAccepted(list[i], i, typeCount)
    requires
      match RecordOf(list[i])
      case Builtin(_) => named' == named && derived' == derived
      case Named(h) => h < |named| && named[h] == 0 && named' == named[h := i] && derived' == derived
      case Derived(key) => key !in derived && named' == named && derived' == derived[key := i]
    ensures TableSoFar(list, typeCount, i + 1, named', derived')
  {
    var table, table' := Mapped(list[..i], RecordOf), Mapped(list[..i + 1], RecordOf);
    var record := RecordOf(list[i]);
    AcceptedRecord(list[i], i, typeCount);
    assert i < PREFIX_SIZE ==> record.Builtin? by {
      assert i == 0 ==> RecordOf(list[0]) == Builtin(19);
    }
    hide EntryAccepted, RecordOf, RecordFits, EntriesSoFar, Indexed;
    assert table' == table + [record];
    IndexedPush(table, record, NamedMap(named), derived, NamedMap(named'), derived');
    if i >= PREFIX_SIZE {
      FreshRecord(list, typeCount, i, named, derived);
    }
    OneMoreEntry(list, typeCount, i);
  }

  lemma {:induction false} IndexedPush(table: seq<Record>, record: Record, named: map<nat, nat>,
                                       derived: map<DerivedKey, nat>,
                                       named': map<nat, nat>, derived': map<DerivedKey, nat>)
    requires Indexed(table, PREFIX_SIZE, named, derived)
    requires |table| < PREFIX_SIZE ==> record.Builtin?
    requires
      match record
      case Builtin(_) => named' == named && derived' == derived
      case Named(h) => h !in named && named' == named[h := |table|] && derived' == derived
      case Derived(key) => key !in derived && named' == named && derived' == derived[key := |table|]
    ensures Indexed(table + [record], PREFIX_SIZE, named', derived')
  {
    var table' := table + [record];
    assert forall r :: 0 <= r < |table| ==> table'[r] == table[r];
    match record {
      case Builtin(_) =>
      case Named(h) => NamedPushed(table, table', named, h);
      case Derived(key) => DerivedPushed(table, table', derived, key);
    }
  }

  lemma {:induction false} NamedPushed(table: seq<Record>, table': seq<Record>, named: map<nat, nat>, h: nat)
    requires |table| >= PREFIX_SIZE && |table'| == |table| + 1 && table'[|table|] == Named(h) && h !in named
    requires forall r :: 0 <= r < |table| ==> table'[r] == table[r]
    requires forall n <- named :: PREFIX_SIZE <= named[n] < |table| && table[named[n]] == Named(n)
    requires forall r :: PREFIX_SIZE <= r < |table| && table[r].Named? ==> table[r].handle in named && named[table[r].handle] == r
    ensures
      var named' := named[h := |table|];
      && (forall n <- named' :: PREFIX_SIZE <= named'[n] < |table'| && table'[named'[n]] == Named(n))
      && (forall r :: PREFIX_SIZE <= r < |table'| && table'[r].Named? ==>
            table'[r].handle in named' && named'[table'[r].handle] == r)
  {
  }

  lemma {:induction false} DerivedPushed(table: seq<Record>, table': seq<Record>, derived: map<DerivedKey, nat>,
                                         key: DerivedKey)
    requires |table| >= PREFIX_SIZE && |table'| == |table| + 1 && table'[|table|] == Derived(key) && key !in derived
    requires forall r :: 0 <= r < |table| ==> table'[r] == table[r]
    requires forall k <- derived :: PREFIX_SIZE <= derived[k] < |table| && table[derived[k]] == Derived(k)
    requires forall r :: PREFIX_SIZE <= r < |table| && table[r].Derived? ==> table[r].key in derived && derived[table[r].key] == r
    ensures
      var derived' := derived[key := |table|];
      && (forall k <- derived' :: PREFIX_SIZE <= derived'[k] < |table'| && table'[derived'[k]] == Derived(k))
      && (forall r :: PREFIX_SIZE <= r < |table'| && table'[r].Derived? ==>
            table'[r].key in derived' && derived'[table'[r].key] == r)
  {
  }

  /** An entry that is in no index yet differs from all before it. */
  lemma {:induction false} FreshRecord(list: seq<C.CanonicalType>, typeCount: nat, i: nat, named: seq<nat>,
                                       derived: map<DerivedKey, nat>)
    requires PREFIX_SIZE <= i < |list| && TableSoFar(list, typeCount, i, named, derived) && EntryAccepted(list[i], i, typeCount)
    requires RecordOf(list[i]).Named? ==> RecordOf(list[i]).handle !in NamedMap(named)
    requires RecordOf(list[i]).Derived? ==> RecordOf(list[i]).key !in derived
    ensures forall k: nat :: PREFIX_SIZE <= k < i ==> list[k] != list[i]
  {
    var table := Mapped(list[..i], RecordOf);
    forall k: nat | PREFIX_SIZE <= k < i
      ensures list[k] != list[i]
    {
      assert table[k] == RecordOf(list[k]);
    }
  }

  /** A refused entry repeats an earlier one. */
  lemma {:induction false} RepeatedRecord(list: seq<C.CanonicalType>, typeCount: nat, i: nat, named: seq<nat>,
                                          derived: map<DerivedKey, nat>)
    requires i < |list| && TableSoFar(list, typeCount, i, named, derived) && EntryAccepted(list[i], i, typeCount)
    requires
      match RecordOf(list[i])
      case Builtin(_) => false
      case Named(h) => h in NamedMap(named)
      case Derived(key) => key in derived
    ensures !TableAccepted(list, typeCount)
  {
    var table := Mapped(list[..i], RecordOf);
    var k: nat := match RecordOf(list[i]) case Named(h) => NamedMap(named)[h] case Derived(key) => derived[key];
    assert table[k] == RecordOf(list[k]) == RecordOf(list[i]);
    AcceptedRecord(list[i], i, typeCount);
    RecordInjective(list[k], k, list[i], i, typeCount);
  }

  method ImportTable(list: seq<C.CanonicalType>, typeCount: nat)
    returns (r: Option<(seq<Record>, seq<nat>, map<DerivedKey, nat>)>)
    ensures r.Some? <==> TableAccepted(list, typeCount)
    ensures r.Some? ==>
              && r.value.0 == Mapped(list, RecordOf) && |r.value.1| == typeCount + 1
              && |list| > 0 && r.value.0[0] == Builtin(19)
              && WellFormed(r.value.0) && HandlesBounded(r.value.0, typeCount)
              && Indexed(r.value.0, PREFIX_SIZE, NamedMap(r.value.1), r.value.2)
  {
    if |list| < PREFIX_SIZE {
      return None;
    }
    var table: seq<Record> := [];
    var named: seq<nat> := seq(typeCount + 1, _ => 0);
    var derived: map<DerivedKey, nat> := map[];
    hide EntryAccepted, RecordOf, TableAccepted, Indexed;
    TableEmpty(list, typeCount, named);
    hide TableSoFar;
    for i := 0 to |list|
      invariant table == Mapped(list[..i], RecordOf)
      invariant TableSoFar(list, typeCount, i, named, derived)
    {
      if !EntryAccepted(list[i], i, typeCount) {
        NotAccepted(list, typeCount, i);
        return None;
      }
      SoFarSizes(list, typeCount, i, named, derived);
      AcceptedRecord(list[i], i, typeCount);
      var record := RecordOf(list[i]);
      match record {
        case Builtin(_) =>
          TableStep(list, typeCount, i, named, derived, named, derived);
        case Named(h) =>
          if named[h] != 0 {
            RepeatedRecord(list, typeCount, i, named, derived);
            return None;
          }
          TableStep(list, typeCount, i, named, derived, named[h := i], derived);
          named := named[h := i];
        case Derived(key) =>
          if key in derived {
            RepeatedRecord(list, typeCount, i, named, derived);
            return None;
          }
          TableStep(list, typeCount, i, named, derived, named, derived[key := i]);
          derived := derived[key := i];
      }
      assert list[..i + 1] == list[..i] + [list[i]];
      table := table + [record];
      assert table == Mapped(list[..i + 1], RecordOf);
    }
    assert list[..|list|] == list;
    TableDone(list, typeCount, named, derived);
    r := Some((table, named, derived));
  }

  lemma {:induction false} TableEmpty(list: seq<C.CanonicalType>, typeCount: nat, named: seq<nat>)
    requires |named| == typeCount + 1 && forall h: nat :: h < |named| ==> named[h] == 0
    ensures TableSoFar(list, typeCount, 0, named, map[])
  {
  }

  lemma {:induction false} SoFarSizes(list: seq<C.CanonicalType>, typeCount: nat, i: nat, named: seq<nat>,
                                      derived: map<DerivedKey, nat>)
    requires i <= |list| && TableSoFar(list, typeCount, i, named, derived)
    ensures |named| == typeCount + 1
  {
  }

  lemma {:induction false} NotAccepted(list: seq<C.CanonicalType>, typeCount: nat, i: nat)
    requires i < |list| && !EntryAccepted(list[i], i, typeCount)
    ensures !TableAccepted(list, typeCount)
  {
  }

  lemma {:induction false} TableDone(list: seq<C.CanonicalType>, typeCount: nat, named: seq<nat>,
                                     derived: map<DerivedKey, nat>)
    requires |list| >= PREFIX_SIZE && TableSoFar(list, typeCount, |list|, named, derived)
    ensures TableAccepted(list, typeCount) && |named| == typeCount + 1 && RecordOf(list[0]) == Builtin(19)
    ensures
      var table := Mapped(list, RecordOf);
      WellFormed(table) && HandlesBounded(table, typeCount) && Indexed(table, PREFIX_SIZE, NamedMap(named), derived)
  {
    assert list[..|list|] == list;
    assert EntryAccepted(list[0], 0, typeCount);
    AcceptedTable(list, typeCount);
  }

  /** An accepted table is well formed, and its named entries are slots that exist. */
  lemma {:induction false} AcceptedTable(list: seq<C.CanonicalType>, typeCount: nat)
    requires TableAccepted(list, typeCount)
    ensures WellFormed(Mapped(list, RecordOf)) && HandlesBounded(Mapped(list, RecordOf), typeCount)
  {
    hide EntryAccepted, RecordOf, RecordFits;
    forall i: nat | i < |list|
      ensures i == 0 ==> RecordOf(list[i]) == Builtin(BUILTIN_COUNT - 1)
      ensures 1 <= i < PREFIX_SIZE ==> RecordOf(list[i]) == Builtin(i - 1)
      ensures i >= PREFIX_SIZE ==> RecordFits(RecordOf(list[i]), i)
      ensures RecordOf(list[i]).Named? ==> RecordOf(list[i]).handle <= typeCount
    {
      AcceptedRecord(list[i], i, typeCount);
    }
  }

  // ----- Type slots -----

  predicate TypeAccepted(s: C.TypeSlot, members: nat, values: nat) {
    s.live ==>
      && C.RangeValid(s.record.definition, if s.record.kind.Aggregate? then members else values)
      && (s.record.kind.Enumeration? ==> s.record.enumeration.underlying <= C.LAST_UNDERLYING)
  }

  function LiveCount(types: Types): nat {
    if types == [] then 0
    else LiveCount(types[..|types| - 1]) + (if types[|types| - 1].Some? then 1 else 0)
  }

  /** Exactly the empty slots, each once. */
  ghost predicate FreeExact(types: Types, free: seq<nat>) {
    NoDuplicates(free) && forall h: nat :: h in free <==> 0 < h <= |types| && !LiveSlot(types, h)
  }

  method ImportTypes(types: seq<C.TypeSlot>, members: nat, values: nat) returns (ok: bool, slots: Types,
                     free: seq<nat>, count: nat)
    ensures ok <==> forall s <- types :: TypeAccepted(s, members, values)
    ensures ok ==> slots == Mapped(types, SlotOf) && FreeExact(slots, free) && count == LiveCount(slots)
  {
    slots, free, count := [], [], 0;
    for i := 0 to |types|
      invariant forall s <- types[..i] :: TypeAccepted(s, members, values)
      invariant slots == Mapped(types[..i], SlotOf) && FreeExact(slots, free) && count == LiveCount(slots)
    {
      hide EntryOf;
      TakeNext(types, i);
      if !TypeAccepted(types[i], members, values) {
        assert types[i] in types;
        ok := false;
        return;
      }
      hide TypeAccepted;
      SlotPushed(slots, free, SlotOf(types[i]));
      assert Mapped(types[..i + 1], SlotOf) == slots + [SlotOf(types[i])];
      if types[i].live {
        count := count + 1;
      } else {
        free := free + [i + 1];
      }
      slots := slots + [SlotOf(types[i])];
    }
    TakeAll(types);
    ok := true;
  }

  lemma {:induction false} SlotPushed(slots: Types, free: seq<nat>, slot: Option<TypeEntry>)
    requires FreeExact(slots, free)
    ensures FreeExact(slots + [slot], if slot.Some? then free else free + [|slots| + 1])
    ensures LiveCount(slots + [slot]) == LiveCount(slots) + (if slot.Some? then 1 else 0)
  {
    assert (slots + [slot])[..|slots|] == slots;
    assert forall h: nat :: h != |slots| + 1 ==> (LiveSlot(slots + [slot], h) <==> LiveSlot(slots, h));
    if slot.None? {
      assert |slots| + 1 !in free;
    }
  }

  // ----- Entities -----

  /** A live entity refers to a live type slot of its kind. */
  predicate EntityAccepted(e: C.EntitySlot, types: Types) {
    e.Live() ==>
      LiveSlot(types, e.slot) && (e.kind.AggregateType? <==> types[e.slot - 1].value.kind.Aggregate?)
  }

  ghost predicate EntitiesAccepted(entities: seq<C.EntitySlot>, types: Types) {
    && entities != [] && !entities[0].Live() && entities[0].slot == 0
    && forall e <- entities :: EntityAccepted(e, types)
  }

  function LiveEntities(entities: seq<C.EntitySlot>): nat {
    if entities == [] then 0
    else LiveEntities(entities[..|entities| - 1]) + (if entities[|entities| - 1].Live() then 1 else 0)
  }

  method ImportEntities(entities: seq<C.EntitySlot>, types: Types) returns (ok: bool, records: seq<C.EntitySlot>,
                        count: nat)
    requires entities != []
    ensures ok <==> EntitiesAccepted(entities, types)
    ensures ok ==> records == Mapped(entities, EntityOf) && count == LiveEntities(records)
  {
    if entities[0].Live() || entities[0].slot != 0 {
      return false, [], 0;
    }
    records, count := [DEAD], 0;
    assert entities[..1] == [entities[0]] && records[..0] == [];
    for i := 1 to |entities|
      invariant forall e <- entities[..i] :: EntityAccepted(e, types)
      invariant records == Mapped(entities[..i], EntityOf) && count == LiveEntities(records)
    {
      TakeNext(entities, i);
      if !EntityAccepted(entities[i], types) {
        assert entities[i] in entities;
        return false, [], 0;
      }
      assert Mapped(entities[..i + 1], EntityOf) == records + [EntityOf(entities[i])];
      assert (records + [EntityOf(entities[i])])[..i] == records;
      if entities[i].Live() {
        count := count + 1;
      }
      records := records + [EntityOf(entities[i])];
    }
    TakeAll(entities);
    ok := true;
  }

  // ----- Identities -----

  /** Every identity exists, belongs to one name, and a live entity knows its name. */
  ghost predicate IdentitiesAccepted(identity: seq<C.U32>, entities: seq<C.EntitySlot>) {
    && (forall n: nat :: n < |identity| ==> identity[n] < |entities|)
    && (forall n: nat :: n < |identity| && identity[n] != 0 && entities[identity[n]].Live() ==> entities[identity[n]].name == n)
    && (forall n: nat, m: nat :: 0 < n < m < |identity| && identity[n] != 0 ==> identity[m] != identity[n])
  }

  /** The owner recorded for an identity is the one name above zero that has it. */
  ghost predicate OwnersExact(identity: seq<C.U32>, i: nat, owners: seq<nat>)
    requires i <= |identity|
  {
    && (forall n: nat :: 0 < n < i && 0 < identity[n] < |owners| ==> owners[identity[n]] == n)
    && (forall id: nat :: 0 < id < |owners| && owners[id] != 0 ==> owners[id] < i && identity[owners[id]] == id)
  }

  lemma {:induction false} OwnerRecorded(identity: seq<C.U32>, i: nat, owners: seq<nat>)
    requires i < |identity| && 0 < identity[i] < |owners| && OwnersExact(identity, i, owners)
    requires owners[identity[i]] == 0 || owners[identity[i]] == i
    ensures OwnersExact(identity, i + 1, owners[identity[i] := i])
    ensures forall n: nat :: 0 < n < i ==> identity[n] != identity[i]
  {
  }

  method ImportIdentities(identity: seq<C.U32>, entities: seq<C.EntitySlot>) returns (ok: bool)
    ensures ok <==> IdentitiesAccepted(identity, entities)
  {
    var owners: seq<nat> := seq(|entities|, _ => 0);
    hide OwnersExact;
    assert OwnersExact(identity, 0, owners) by {
      OwnersStart(identity, owners);
    }
    for i := 0 to |identity|
      invariant |owners| == |entities| && OwnersExact(identity, i, owners)
      invariant IdentitiesAccepted(identity[..i], entities)
    {
      var id := identity[i];
      TakeNext(identity, i);
      if id >= |entities| {
        return false;
      }
      if id != 0 {
        if owners[id] != 0 && owners[id] != i {
          OwnerClash(identity, i, owners);
          return false;
        }
        OwnerRecorded(identity, i, owners);
        owners := owners[id := i];
        if entities[id].Live() && entities[id].name != i {
          return false;
        }
      } else {
        OwnerSkipped(identity, i, owners);
      }
      OneMoreIdentity(identity[..i], id, entities);
    }
    TakeAll(identity);
    ok := true;
  }

  lemma {:induction false} OwnersStart(identity: seq<C.U32>, owners: seq<nat>)
    requires forall id: nat :: id < |owners| ==> owners[id] == 0
    ensures OwnersExact(identity, 0, owners)
  {
  }

  lemma {:induction false} OwnerSkipped(identity: seq<C.U32>, i: nat, owners: seq<nat>)
    requires i < |identity| && identity[i] == 0 && OwnersExact(identity, i, owners)
    ensures OwnersExact(identity, i + 1, owners)
  {
  }

  lemma {:induction false} OwnerClash(identity: seq<C.U32>, i: nat, owners: seq<nat>)
    requires i < |identity| && 0 < identity[i] < |owners| && OwnersExact(identity, i, owners)
    requires owners[identity[i]] != 0
    ensures exists n: nat :: 0 < n < i && identity[n] == identity[i]
  {
    assert 0 < owners[identity[i]] < i;
  }

  lemma {:induction false} OneMoreIdentity(before: seq<C.U32>, id: C.U32, entities: seq<C.EntitySlot>)
    requires IdentitiesAccepted(before, entities) && id < |entities|
    requires id != 0 && entities[id].Live() ==> entities[id].name == |before|
    requires id != 0 ==> forall n: nat :: 0 < n < |before| ==> before[n] != id
    ensures IdentitiesAccepted(before + [id], entities)
  {
  }

  // ----- Liveness of references -----

  /** The canonical_live table: an entry is live when its chain ends in a builtin or a live slot. */
  method MarkLive(table: seq<Record>, types: Types) returns (live: seq<bool>)
    requires WellFormed(table)
    ensures |live| == |table| && !live[0]
    ensures forall r: nat :: 0 < r < |table| ==> live[r] == (Base(table, r) == 0 || LiveSlot(types, Base(table, r)))
  {
    live := [false];
    for i := 1 to |table|
      invariant |live| == i && !live[0]
      invariant forall r: nat :: 0 < r < i ==> live[r] == (Base(table, r) == 0 || LiveSlot(types, Base(table, r)))
    {
      match table[i] {
        case Builtin(_) => live := live + [true];
        case Named(h) => live := live + [LiveSlot(types, h)];
        case Derived(key) => live := live + [live[key.child]];
      }
    }
  }

  ghost predicate AggregatesInArena(types: Types, members: seq<Member>) {
    forall h :: LiveSlot(types, h) && types[h - 1].value.kind.Aggregate? ==> InArena(types[h - 1].value.definition, members)
  }

  method MembersLive(types: Types, members: seq<Member>, live: seq<bool>) returns (ok: bool)
    requires AggregatesInArena(types, members)
    ensures ok <==> forall h :: OwnLive(types, members, live, h)
  {
    for h := 1 to |types| + 1
      invariant forall k :: 1 <= k < h ==> OwnLive(types, members, live, k)
    {
      if types[h - 1].Some? && types[h - 1].value.kind.Aggregate? {
        assert LiveSlot(types, h);
        var own := Slice(types[h - 1].value.definition, members);
        for i := 0 to |own|
          invariant forall m <- own[..i] :: 0 < m.ref < |live| && live[m.ref]
        {
          TakeNext(own, i);
          if own[i].ref == 0 || own[i].ref >= |live| || !live[own[i].ref] {
            assert own[i] in own;
            assert !OwnLive(types, members, live, h);
            return false;
          }
        }
        TakeAll(own);
      }
      assert OwnLive(types, members, live, h);
    }
    ok := true;
  }

  ghost predicate OwnLive(types: Types, members: seq<Member>, live: seq<bool>, h: int) {
    h >= 0 && LiveSlot(types, h) && types[h - 1].value.kind.Aggregate? && InArena(types[h - 1].value.definition, members) ==>
      forall m <- Slice(types[h - 1].value.definition, members) :: 0 < m.ref < |live| && live[m.ref]
  }

  // ----- What import accepts, and what it leaves -----

  ghost predicate ResolvesIn(types: Types, table: seq<Record>, ref: nat)
    requires WellFormed(table)
  {
    IsRef(table, ref) && (Base(table, ref) == 0 || LiveSlot(types, Base(table, ref)))
  }

  /** The members of every live aggregate resolve. */
  ghost predicate OwnResolve(types: Types, members: seq<Member>, table: seq<Record>)
    requires WellFormed(table)
  {
    forall h, m :: m in OwnMembers(types, members, h) ==> ResolvesIn(types, table, m.ref)
  }

  ghost predicate NamedPresent(entities: seq<C.EntitySlot>, table: seq<Record>) {
    forall e: C.EntitySlot | e in entities :: e.Live() ==> Named(e.slot) in table
  }

  ghost predicate ArenasNamed(g: C.GraphState) {
    && (forall v <- g.enumValues :: v.name != 0)
    && (forall m <- g.members :: m.name != 0 && 0 < m.typeRef < |g.canonicalTypes|)
  }

  ghost predicate TypesAccepted(g: C.GraphState) {
    forall s <- g.types :: TypeAccepted(s, |g.members|, |g.enumValues|)
  }

  ghost predicate Acceptable(g: C.GraphState) {
    && C.Supported(g.abi)
    && TableAccepted(g.canonicalTypes, |g.types|) && WellFormed(Mapped(g.canonicalTypes, RecordOf))
    && ArenasNamed(g) && TypesAccepted(g)
    && EntitiesAccepted(g.entities, Mapped(g.types, SlotOf))
    && IdentitiesAccepted(g.identities, Mapped(g.entities, EntityOf))
    && NamedPresent(Mapped(g.entities, EntityOf), Mapped(g.canonicalTypes, RecordOf))
    && OwnResolve(Mapped(g.types, SlotOf), Mapped(g.members, MemberOf), Mapped(g.canonicalTypes, RecordOf))
  }

  ghost predicate Restores(g: C.GraphState, image: Image) {
    && image.abi == g.abi && image.identity == g.identities && image.entities == Mapped(g.entities, EntityOf)
    && image.store.types == Mapped(g.types, SlotOf) && image.store.members == Mapped(g.members, MemberOf)
    && image.store.values == Mapped(g.enumValues, ValueOf) && image.store.table == Mapped(g.canonicalTypes, RecordOf)
    && FreeExact(image.store.types, image.free)
    && image.entityCount == LiveEntities(image.entities) && image.typeCount == LiveCount(image.store.types)
    && image.nextStableId == |image.entities| && image.generation == 0
  }

  lemma {:induction false} TypesInArenas(g: C.GraphState)
    requires TypesAccepted(g)
    ensures AllInArenas(Mapped(g.types, SlotOf), Mapped(g.members, MemberOf), Mapped(g.enumValues, ValueOf))
    ensures AggregatesInArena(Mapped(g.types, SlotOf), Mapped(g.members, MemberOf))
  {
    var types := Mapped(g.types, SlotOf);
    forall h | LiveSlot(types, h)
      ensures EntryInArenas(types[h - 1].value, Mapped(g.members, MemberOf), Mapped(g.enumValues, ValueOf))
    {
      assert g.types[h - 1] in g.types;
      assert TypeAccepted(g.types[h - 1], |g.members|, |g.enumValues|);
    }
  }

  /** With a live table at hand, the member check is the resolution of every reference. */
  lemma {:induction false} LiveIsResolving(types: Types, members: seq<Member>, table: seq<Record>, live: seq<bool>)
    requires WellFormed(table) && AggregatesInArena(types, members) && |live| == |table|
    requires forall r: nat :: 0 < r < |table| ==> live[r] == (Base(table, r) == 0 || LiveSlot(types, Base(table, r)))
    ensures (forall h :: OwnLive(types, members, live, h)) <==> OwnResolve(types, members, table)
  {
    hide Slice;
    forall h: nat, m | (forall k :: OwnLive(types, members, live, k)) && m in OwnMembers(types, members, h)
      ensures ResolvesIn(types, table, m.ref)
    {
      assert OwnLive(types, members, live, h);
    }
    forall h | OwnResolve(types, members, table)
      ensures OwnLive(types, members, live, h)
    {
      if h >= 0 && LiveSlot(types, h) && types[h - 1].value.kind.Aggregate? && InArena(types[h - 1].value.definition, members) {
        forall m <- Slice(types[h - 1].value.definition, members)
          ensures 0 < m.ref < |live| && live[m.ref]
        {
          assert m in OwnMembers(types, members, h);
          assert ResolvesIn(types, table, m.ref);
        }
      }
    }
  }

  /** What was validated is enough for the dependency rebuild: it never reports corruption. */
  lemma {:induction false} IndexNeverCorrupt(types: Types, members: seq<Member>, table: seq<Record>)
    requires WellFormed(table) && HandlesBounded(table, |types|)
    requires AggregatesInArena(types, members) && OwnResolve(types, members, table)
    ensures forall h :: SlotIndexable(types, members, table, h)
  {
    hide Slice;
    forall h: nat | LiveSlot(types, h) && types[h - 1].value.kind.Aggregate?
      ensures SlotIndexable(types, members, table, h)
    {
      var own := Slice(types[h - 1].value.definition, members);
      forall m <- own
        ensures IsRef(table, m.ref) && Base(table, m.ref) <= |types|
      {
        assert m in OwnMembers(types, members, h);
        assert ResolvesIn(types, table, m.ref);
        BaseBounded(table, |types|, m.ref);
      }
    }
  }

  lemma {:induction false} StoreValid(s: Store)
    requires AllInArenas(s.types, s.members, s.values) && s.TableValid() && OwnResolve(s.types, s.members, s.table)
    requires IndexedAll(s.types, s.members, s.table, s.forward, s.reverse)
    ensures s.Valid()
  {
    hide Slice;
    assert forall h: nat :: s.MembersOf(h) == OwnMembers(s.types, s.members, h) by {
      forall h: nat
        ensures s.MembersOf(h) == OwnMembers(s.types, s.members, h)
      {
        assert LiveSlot(s.types, h) ==> EntryInArenas(s.types[h - 1].value, s.members, s.values);
      }
    }
    forall h: nat, m | m in s.MembersOf(h)
      ensures s.Resolves(m.ref)
    {
      assert m in OwnMembers(s.types, s.members, h);
      assert ResolvesIn(s.types, s.table, m.ref);
    }
    forall h: nat
      ensures RefsValid(s.table, s.MembersOf(h))
      ensures SetOf(At(s.forward, h)) == Dependencies(s.table, s.MembersOf(h))
    {
      if h == 0 || h > |s.types| {
        assert At(s.forward, h) == [] && s.MembersOf(h) == [];
      }
    }
  }

  /** Everything import checks before it touches the owner. */
  method Validate(g: C.GraphState) returns (r: Option<Image>)
    ensures r.Some? <==> Acceptable(g)
    ensures r.Some? ==> Restores(g, r.value) && r.value.store.TableValid()
  {
    hide TableAccepted, ArenasNamed, EntitiesAccepted, IdentitiesAccepted, NamedPresent, OwnResolve, WellFormed, Indexed;
    hide HandlesBounded, FreeExact, TypeAccepted, RecordOf, SlotOf, EntityOf;
    if !C.Supported(g.abi) || g.entities == [] {
      assert !EntitiesAccepted([], Mapped(g.types, SlotOf)) by {
        NoEntities(Mapped(g.types, SlotOf));
      }
      return None;
    }
    var arenas := CheckArenas(g);
    if !arenas {
      return None;
    }
    var ok, types, free, typeCount := ImportTypes(g.types, |g.members|, |g.enumValues|);
    if !ok {
      return None;
    }
    TypesInArenas(g);
    var members := Collect(g.members, MemberOf);
    var values := Collect(g.enumValues, ValueOf);
    var entities, entityCount;
    ok, entities, entityCount := ImportEntities(g.entities, types);
    if !ok {
      return None;
    }
    ok := ImportIdentities(g.identities, entities);
    if !ok {
      return None;
    }
    var table := ImportTable(g.canonicalTypes, |types|);
    if table.None? {
      return None;
    }
    ok := CheckNamed(entities, table.value.0, table.value.1, table.value.2);
    if !ok {
      return None;
    }
    var live := MarkLive(table.value.0, types);
    ok := MembersLive(types, members, live);
    LiveIsResolving(types, members, table.value.0, live);
    if !ok {
      return None;
    }
    var store := Store(types, members, values, table.value.0, table.value.1, table.value.2, [], []);
    r := Some(Image(g.abi, store, entities, g.identities, free, entityCount, typeCount, |entities|, 0));
  }

  lemma NoEntities(types: Types)
    ensures !EntitiesAccepted([], types)
  {
  }

  method CheckArenas(g: C.GraphState) returns (ok: bool)
    ensures ok <==> ArenasNamed(g)
  {
    for i := 0 to |g.enumValues|
      invariant forall v <- g.enumValues[..i] :: v.name != 0
    {
      TakeNext(g.enumValues, i);
      if g.enumValues[i].name == 0 {
        assert g.enumValues[i] in g.enumValues;
        return false;
      }
    }
    TakeAll(g.enumValues);
    for i := 0 to |g.members|
      invariant forall m <- g.members[..i] :: m.name != 0 && 0 < m.typeRef < |g.canonicalTypes|
    {
      TakeNext(g.members, i);
      var m := g.members[i];
      if m.name == 0 || m.typeRef == 0 || m.typeRef >= |g.canonicalTypes| {
        assert m in g.members;
        return false;
      }
    }
    TakeAll(g.members);
    ok := true;
  }

  method CheckNamed(entities: seq<C.EntitySlot>, table: seq<Record>, named: seq<nat>,
                    ghost derived: map<DerivedKey, nat>) returns (ok: bool)
    requires WellFormed(table) && Indexed(table, PREFIX_SIZE, NamedMap(named), derived)
    ensures ok <==> NamedPresent(entities, table)
  {
    forall h: nat
      ensures h in NamedMap(named) <==> Named(h) in table
    {
      NamedInTable(table, NamedMap(named), derived, h);
    }
    hide WellFormed, Indexed;
    for i := 0 to |entities|
      invariant NamedPresent(entities[..i], table)
    {
      TakeNext(entities, i);
      var e := entities[i];
      if e.Live() && (e.slot >= |named| || named[e.slot] == 0) {
        assert e in entities && e.slot !in NamedMap(named);
        return false;
      }
      assert e.Live() ==> e.slot in NamedMap(named);
    }
    TakeAll(entities);
    ok := true;
  }

  lemma NamedInTable(table: seq<Record>, named: map<nat, nat>, derived: map<DerivedKey, nat>, h: nat)
    requires WellFormed(table) && Indexed(table, PREFIX_SIZE, named, derived)
    ensures h in named <==> Named(h) in table
  {
    if Named(h) in table {
      var r: nat :| r < |table| && table[r] == Named(h);
      assert r >= PREFIX_SIZE;
    }
  }

  // ----- The reference invariants of a Graph -----

  const LIMIT32: nat := 0x1_0000_0000
  const LIMIT64: nat := 0x1_0000_0000_0000_0000

  /** What numbers the records of a checkpoint can hold. */
  ghost predicate Representable(s: Store) {
    && (forall r <- s.table :: r.Named? ==> r.handle < LIMIT32)
    && (forall r <- s.table :: r.Derived? ==> r.key.child < LIMIT32 && r.key.payload < LIMIT64)
    && (forall m <- s.members :: m.name < LIMIT32 && m.ref < LIMIT32)
    && (forall v <- s.values :: v.name < LIMIT32 && v.bits < LIMIT64)
    && (forall t <- s.types :: t.Some? ==> EntryRepresentable(t.value))
  }

  predicate EntryRepresentable(e: TypeEntry) {
    e.enumeration.underlying < 256 && e.definition.begin < LIMIT32 && e.definition.count < LIMIT32
  }

  predicate EntrySound(e: TypeEntry) {
    (e.definition.begin == 0 ==> e.definition.count == 0) && (e.kind.Enumeration? ==> e.enumeration.underlying <= C.LAST_UNDERLYING)
  }

  /** Arena records are named and stay inside the table, also those no slot uses any more. */
  ghost predicate ArenasSound(s: Store) {
    && (forall v <- s.values :: v.name != 0)
    && (forall m <- s.members :: m.name != 0 && IsRef(s.table, m.ref))
    && (forall t <- s.types :: t.Some? ==> EntrySound(t.value))
  }

  /** What every committed Graph satisfies: types, names and identities are in order. Whether
  each entity still finds a type of its kind in its slot is another question. */
  ghost predicate ImageSound(image: Image) {
    var s := image.store;
    && C.Supported(image.abi) && s.Valid() && Representable(s) && ArenasSound(s)
    && (image.entities != [] ==> image.entities[0] == DEAD)
    && (forall e <- image.entities :: e.Live() || e == DEAD)
    && NamedPresent(image.entities, s.table)
    && IdentitiesHoused(image.identity, image.entities)
  }

  /** The names that have an identity have one of their own, and find their entity under it. */
  ghost predicate IdentitiesHoused(identity: seq<C.U32>, entities: seq<C.EntitySlot>) {
    if entities == [] then forall n: nat :: n < |identity| ==> identity[n] == 0 else IdentitiesAccepted(identity, entities)
  }

  /** Every live entity finds a live type of its kind in its slot. */
  ghost predicate EntitiesHoused(image: Image) {
    forall e <- image.entities :: EntityAccepted(e, image.store.types)
  }

  /** The free list and the counters are right. */
  ghost predicate BooksExact(image: Image) {
    && FreeExact(image.store.types, image.free)
    && image.entityCount == LiveEntities(image.entities) && image.typeCount == LiveCount(image.store.types)
  }

  ghost predicate ImageValid(image: Image) {
    ImageSound(image) && EntitiesHoused(image) && BooksExact(image)
  }

  lemma {:induction false} RestoredRepresentable(g: C.GraphState, s: Store)
    requires TableAccepted(g.canonicalTypes, |g.types|) && ArenasNamed(g) && TypesAccepted(g)
    requires s.types == Mapped(g.types, SlotOf) && s.members == Mapped(g.members, MemberOf)
    requires s.values == Mapped(g.enumValues, ValueOf) && s.table == Mapped(g.canonicalTypes, RecordOf)
    ensures Representable(s) && ArenasSound(s)
  {
    assert EntryAccepted(g.canonicalTypes[0], 0, |g.types|);
    hide EntryAccepted;
    forall t <- s.types | t.Some?
      ensures EntryRepresentable(t.value) && EntrySound(t.value)
    {
      var i: nat :| i < |s.types| && s.types[i] == t;
      assert TypeAccepted(g.types[i], |g.members|, |g.enumValues|) by {
        assert g.types[i] in g.types;
      }
    }
    forall m <- s.members
      ensures m.name != 0 && IsRef(s.table, m.ref) && m.name < LIMIT32 && m.ref < LIMIT32
    {
      var i: nat :| i < |s.members| && s.members[i] == m;
      assert g.members[i] in g.members;
    }
    forall v <- s.values
      ensures v.name != 0 && v.name < LIMIT32 && v.bits < LIMIT64
    {
      var i: nat :| i < |s.values| && s.values[i] == v;
      assert g.enumValues[i] in g.enumValues;
    }
  }

  lemma {:induction false} RestoredEntities(g: C.GraphState, types: Types)
    requires EntitiesAccepted(g.entities, types)
    ensures
      var entities := Mapped(g.entities, EntityOf);
      && entities != [] && entities[0] == DEAD
      && (forall e <- entities :: e.Live() || e == DEAD)
      && (forall e <- entities :: EntityAccepted(e, types))
  {
    var entities := Mapped(g.entities, EntityOf);
    forall e <- entities
      ensures (e.Live() || e == DEAD) && EntityAccepted(e, types)
    {
      var i: nat :| i < |entities| && entities[i] == e;
      assert g.entities[i] in g.entities;
    }
  }

  /** The Graph that receives an import. */
  class GraphOwner {
    var image: Image

    constructor (initial: Image)
      ensures image == initial
    {
      image := initial;
    }

    /** import_compiled: all or nothing. What is accepted is decided by the checks
    alone, and satisfies the reference invariants of the Graph. */
    method ImportCompiled(input: C.GraphState) returns (ok: bool)
      modifies this
      ensures ok <==> Acceptable(input)
      ensures ok ==> Restores(input, image) && ImageValid(image)
      ensures !ok ==> image == old(image)
    {
      hide Acceptable, Restores, ImageValid, Store.TableValid;
      var candidate := Validate(input);
      if candidate.None? {
        return false;
      }
      var s := candidate.value.store;
      ReadyToIndex(input, candidate.value);
      image := candidate.value;
      var valid, forward, reverse := BuildDependencyIndex(s.types, s.members, s.table);
      image := image.(store := s.(forward := forward, reverse := reverse));
      ImportedValid(input, candidate.value, forward, reverse);
      ok := valid;
    }

    method ExportCompiled() returns (g: C.GraphState)
      ensures g == Exported(image)
    {
      var types := Collect(image.store.types, ExportType);
      var values := Collect(image.store.values, ExportValue);
      var members := Collect(image.store.members, ExportMember);
      var canonicalTypes := Collect(image.store.table, ExportRecord);
      g := C.GraphState(image.abi, image.identity, image.entities, types, values, members, canonicalTypes);
    }
  }

  lemma {:induction false} ReadyToIndex(g: C.GraphState, image: Image)
    requires Acceptable(g) && Restores(g, image) && image.store.TableValid()
    ensures WellFormed(image.store.table)
    ensures forall h :: SlotIndexable(image.store.types, image.store.members, image.store.table, h)
  {
    TypesInArenas(g);
    hide TableAccepted, WellFormed, Indexed, ArenasNamed, TypesAccepted, EntitiesAccepted, IdentitiesAccepted, NamedPresent, OwnResolve;
    hide HandlesBounded, FreeExact, AggregatesInArena, SlotIndexable;
    IndexNeverCorrupt(image.store.types, image.store.members, image.store.table);
  }

  lemma {:induction false} ImportedValid(g: C.GraphState, image: Image, forward: seq<seq<nat>>, reverse: seq<seq<nat>>)
    requires Acceptable(g) && Restores(g, image) && image.store.TableValid()
    requires IndexedAll(image.store.types, image.store.members, image.store.table, forward, reverse)
    ensures
      var s := image.store.(forward := forward, reverse := reverse);
      Restores(g, image.(store := s)) && ImageValid(image.(store := s))
  {
    var s := image.store.(forward := forward, reverse := reverse);
    TypesInArenas(g);
    hide TableAccepted, WellFormed, Indexed, ArenasNamed, TypesAccepted, EntitiesAccepted, IdentitiesAccepted, NamedPresent, OwnResolve;
    hide HandlesBounded, FreeExact, AggregatesInArena, AllInArenas, IndexedAll, Representable, ArenasSound, EntityAccepted, EntityOf;
    assert s.TableValid();
    hide Store.TableValid;
    StoreValid(s);
    hide Store.Valid;
    RestoredRepresentable(g, s);
    RestoredEntities(g, s.types);
  }

  // ----- Export -----

  function Word(x: nat): C.U32 {
    x % 0x1_0000_0000
  }

  function Long(x: nat): C.U64 {
    x % 0x1_0000_0000_0000_0000
  }

  function Small(x: nat): C.Byte {
    x % 256
  }

  function ExportType(t: Option<TypeEntry>): C.TypeSlot {
    if t.None? then C.TypeSlot(false, C.DefaultEntry())
    else
      C.TypeSlot(true, C.TypeEntry(
        if t.value.kind.Aggregate? then C.Aggregate else C.Enumeration,
        C.EnumEntry(t.value.enumeration.scoped, t.value.enumeration.fixed, Small(t.value.enumeration.underlying)),
        C.DefinitionRange(Word(t.value.definition.begin), Word(t.value.definition.count))))
  }

  function ExportValue(v: EnumValue): C.EnumValue {
    C.EnumValue(Word(v.name), Long(v.bits))
  }

  function ExportMember(m: Member): C.Member {
    C.Member(Word(m.name), Word(m.ref))
  }

  function SubtypeOf(kind: DerivedKind): C.Byte {
    match kind
    case Pointer => 0
    case Array => ARRAY
    case LvalueReference => 2
    case RvalueReference => 3
  }

  function ExportRecord(r: Record): C.CanonicalType {
    match r
    case Builtin(code) => C.CanonicalType(0, Small(code), 0, 0)
    case Named(h) => C.CanonicalType(1, 0, Word(h), 0)
    case Derived(key) => C.CanonicalType(2, SubtypeOf(key.kind), Word(key.child), Long(key.payload))
  }

  function Exported(image: Image): C.GraphState {
    C.GraphState(image.abi, image.identity, image.entities, Mapped(image.store.types, ExportType),
                 Mapped(image.store.values, ExportValue), Mapped(image.store.members, ExportMember),
                 Mapped(image.store.table, ExportRecord))
  }

  // ----- Import of an export -----

  lemma RecordBack(r: Record, i: nat)
    requires if i == 0 then r == Builtin(19) else if i < PREFIX_SIZE then r == Builtin(i - 1) else RecordFits(r, i)
    requires r.Named? ==> r.handle < LIMIT32
    requires r.Derived? ==> r.key.child < LIMIT32 && r.key.payload < LIMIT64
    ensures RecordOf(ExportRecord(r)) == r
    ensures forall typeCount: nat :: (r.Named? ==> r.handle <= typeCount) ==> EntryAccepted(ExportRecord(r), i, typeCount)
  {
    assert r.Derived? ==> ModifierOf(SubtypeOf(r.key.kind)) == r.key.kind;
  }

  lemma TypeBack(t: Option<TypeEntry>)
    requires t.Some? ==> EntryRepresentable(t.value)
    ensures SlotOf(ExportType(t)) == t
  {
  }

  lemma {:induction false} TableBack(s: Store)
    requires WellFormed(s.table) && Representable(s) && HandlesBounded(s.table, |s.types|)
    ensures
      var list := Mapped(s.table, ExportRecord);
      && Mapped(list, RecordOf) == s.table
      && forall i: nat :: i < |list| ==> EntryAccepted(list[i], i, |s.types|)
  {
    hide EntryAccepted, RecordOf, ExportRecord, RecordFits;
    var list := Mapped(s.table, ExportRecord);
    forall i: nat | i < |list|
      ensures RecordOf(list[i]) == s.table[i] && EntryAccepted(list[i], i, |s.types|)
    {
      assert s.table[i] in s.table;
      RecordBack(s.table[i], i);
    }
    assert Mapped(list, RecordOf) == s.table;
  }

  lemma {:induction false} RecordsDiffer(table: seq<Record>, named: map<nat, nat>, derived: map<DerivedKey, nat>,
                                         i: nat, j: nat)
    requires WellFormed(table) && Indexed(table, PREFIX_SIZE, named, derived) && PREFIX_SIZE <= i < j < |table|
    ensures table[i] != table[j]
  {
    assert RecordFits(table[i], i) && RecordFits(table[j], j);
  }

  lemma {:induction false} ExportedTable(s: Store)
    requires s.TableValid() && Representable(s)
    ensures TableAccepted(Mapped(s.table, ExportRecord), |s.types|) && Mapped(Mapped(s.table, ExportRecord), RecordOf) == s.table
  {
    TableBack(s);
    hide EntryAccepted, RecordOf, ExportRecord, RecordFits, Representable, Indexed;
    var list := Mapped(s.table, ExportRecord);
    forall i: nat, j: nat | PREFIX_SIZE <= i < j < |list|
      ensures list[i] != list[j]
    {
      RecordsDiffer(s.table, NamedMap(s.namedRefs), s.derivedIndex, i, j);
      assert Mapped(list, RecordOf)[i] == RecordOf(list[i]) && Mapped(list, RecordOf)[j] == RecordOf(list[j]);
    }
  }

  lemma {:induction false} ArenasBack(s: Store)
    requires Representable(s)
    ensures Mapped(Mapped(s.types, ExportType), SlotOf) == s.types
    ensures Mapped(Mapped(s.members, ExportMember), MemberOf) == s.members
    ensures Mapped(Mapped(s.values, ExportValue), ValueOf) == s.values
  {
    hide SlotOf, ExportType, EntryRepresentable;
    forall i: nat | i < |s.types|
      ensures SlotOf(ExportType(s.types[i])) == s.types[i]
    {
      assert s.types[i] in s.types;
      TypeBack(s.types[i]);
    }
    forall i: nat | i < |s.members|
      ensures MemberOf(ExportMember(s.members[i])) == s.members[i]
    {
      assert s.members[i] in s.members;
    }
    forall i: nat | i < |s.values|
      ensures ValueOf(ExportValue(s.values[i])) == s.values[i]
    {
      assert s.values[i] in s.values;
    }
    assert Mapped(Mapped(s.types, ExportType), SlotOf) == s.types;
    assert Mapped(Mapped(s.members, ExportMember), MemberOf) == s.members;
    assert Mapped(Mapped(s.values, ExportValue), ValueOf) == s.values;
  }

  lemma {:induction false} ExportedNames(s: Store)
    requires ArenasSound(s) && Representable(s)
    ensures forall v <- Mapped(s.values, ExportValue) :: v.name != 0
    ensures forall m <- Mapped(s.members, ExportMember) :: m.name != 0 && 0 < m.typeRef < |s.table|
  {
    var values, members := Mapped(s.values, ExportValue), Mapped(s.members, ExportMember);
    forall v <- values
      ensures v.name != 0
    {
      var i: nat :| i < |values| && values[i] == v;
      assert s.values[i] in s.values;
    }
    forall m <- members
      ensures m.name != 0 && 0 < m.typeRef < |s.table|
    {
      var i: nat :| i < |members| && members[i] == m;
      assert s.members[i] in s.members;
    }
  }

  lemma TypeSent(t: Option<TypeEntry>, members: seq<Member>, values: seq<EnumValue>)
    requires t.Some? ==> EntryRepresentable(t.value) && EntrySound(t.value) && EntryInArenas(t.value, members, values)
    ensures TypeAccepted(ExportType(t), |members|, |values|)
  {
  }

  lemma {:induction false} ExportedTypes(s: Store)
    requires ArenasSound(s) && Representable(s) && s.InArenas()
    ensures forall t <- Mapped(s.types, ExportType) :: TypeAccepted(t, |s.members|, |s.values|)
  {
    hide EntryRepresentable, EntrySound, EntryInArenas, TypeAccepted, ExportType;
    var types := Mapped(s.types, ExportType);
    forall t <- types
      ensures TypeAccepted(t, |s.members|, |s.values|)
    {
      var i: nat :| i < |types| && types[i] == t;
      assert s.types[i] in s.types;
      assert LiveSlot(s.types, i + 1) ==> EntryInArenas(s.types[i].value, s.members, s.values);
      TypeSent(s.types[i], s.members, s.values);
    }
  }

  lemma {:induction false} EntitiesBack(entities: seq<C.EntitySlot>, types: Types)
    requires forall e <- entities :: e.Live() || e == DEAD
    requires entities != [] ==> entities[0] == DEAD
    ensures Mapped(entities, EntityOf) == entities
    ensures EntitiesAccepted(entities, types) <==> entities != [] && forall e <- entities :: EntityAccepted(e, types)
  {
    forall i: nat | i < |entities|
      ensures EntityOf(entities[i]) == entities[i]
    {
      assert entities[i] in entities;
    }
  }

  lemma {:induction false} OwnResolved(s: Store)
    requires s.InArenas() && WellFormed(s.table) && s.MembersResolve()
    ensures OwnResolve(s.types, s.members, s.table)
  {
    forall h: nat, m | m in OwnMembers(s.types, s.members, h)
      ensures ResolvesIn(s.types, s.table, m.ref)
    {
      assert m in s.MembersOf(h);
      assert s.Resolves(m.ref);
    }
  }

  /** An export is accepted again exactly when there is an entity table and every live
  entity finds a live type of its kind in its slot. */
  lemma {:induction false} ExportAcceptable(image: Image)
    requires ImageSound(image)
    ensures Acceptable(Exported(image)) <==> image.entities != [] && EntitiesHoused(image)
  {
    ExportedTable(image.store);
    ArenasBack(image.store);
    ExportedNames(image.store);
    ExportedTypes(image.store);
    assert ArenasNamed(Exported(image)) && TypesAccepted(Exported(image)) by {
      hide TableAccepted, EntitiesAccepted, IdentitiesAccepted, NamedPresent, OwnResolve, ImageSound, TypeAccepted;
    }
    EntitiesBack(image.entities, image.store.types);
    OwnResolved(image.store);
    hide TableAccepted, ArenasNamed, TypesAccepted, EntitiesAccepted, IdentitiesAccepted, NamedPresent, OwnResolve, Indexed, Mapped;
    hide HandlesBounded, FreeExact, Representable, ArenasSound, EntityAccepted, Store.MembersResolve, Store.IndexExact, AllInArenas;
  }

  /** Two Graphs that no reader can tell apart. */
  ghost predicate SameContent(a: Image, b: Image) {
    && a.abi == b.abi && a.entities == b.entities && a.identity == b.identity
    && a.store.types == b.store.types && a.store.members == b.store.members && a.store.values == b.store.values
    && a.store.table == b.store.table && NamedMap(a.store.namedRefs) == NamedMap(b.store.namedRefs)
    && a.store.derivedIndex == b.store.derivedIndex
    && (forall h: nat :: SetOf(At(a.store.forward, h)) == SetOf(At(b.store.forward, h)))
    && (forall h: nat :: SetOf(At(a.store.reverse, h)) == SetOf(At(b.store.reverse, h)))
  }

  /** They will also be updated alike; free slots compare as a set. */
  ghost predicate Same(a: Image, b: Image) {
    && SameContent(a, b)
    && SetOf(a.free) == SetOf(b.free) && a.entityCount == b.entityCount && a.typeCount == b.typeCount
  }

  /** The lookup indexes are determined by the table. */
  lemma {:induction false} IndexUnique(table: seq<Record>, n1: map<nat, nat>, d1: map<DerivedKey, nat>,
                                       n2: map<nat, nat>, d2: map<DerivedKey, nat>)
    requires Indexed(table, PREFIX_SIZE, n1, d1) && Indexed(table, PREFIX_SIZE, n2, d2)
    ensures n1 == n2 && d1 == d2
  {
  }

  /** The dependency lists are determined, as sets, by types, members and table. */
  lemma {:induction false} EdgesUnique(a: Store, b: Store)
    requires a.Valid() && b.Valid() && a.types == b.types && a.members == b.members && a.table == b.table && a.values == b.values
    ensures forall h: nat :: SetOf(At(a.forward, h)) == SetOf(At(b.forward, h)) && SetOf(At(a.reverse, h)) == SetOf(At(b.reverse, h))
  {
    hide Store.TableValid, Store.MembersResolve, WellFormed, AllInArenas, MembersAt;
    forall h: nat
      ensures SetOf(At(a.forward, h)) == SetOf(At(b.forward, h))
    {
      assert a.MembersOf(h) == b.MembersOf(h);
    }
    forall d: nat, h: nat
      ensures h in At(a.reverse, d) <==> h in At(b.reverse, d)
    {
      assert d in SetOf(At(a.forward, h)) <==> d in SetOf(At(b.forward, h));
    }
    forall d: nat
      ensures SetOf(At(a.reverse, d)) == SetOf(At(b.reverse, d))
    {
      assert forall h: nat :: h in SetOf(At(a.reverse, d)) <==> h in SetOf(At(b.reverse, d));
    }
  }

  lemma {:induction false} ImportOfExport(image: Image, back: Image)
    requires ImageSound(image) && ImageValid(back) && Restores(Exported(image), back)
    ensures SameContent(image, back)
    ensures BooksExact(image) ==> Same(image, back)
  {
    ExportedTable(image.store);
    ArenasBack(image.store);
    EntitiesBack(image.entities, image.store.types);
    hide TableAccepted, EntitiesAccepted, IdentitiesAccepted, NamedPresent, Mapped, Indexed, WellFormed, HandlesBounded;
    hide Representable, ArenasSound, EntityAccepted, Store.MembersResolve, Store.IndexExact, AllInArenas, LiveCount, LiveEntities;
    IndexUnique(image.store.table, NamedMap(image.store.namedRefs), image.store.derivedIndex,
                NamedMap(back.store.namedRefs), back.store.derivedIndex);
    hide Store.TableValid;
    EdgesUnique(image.store, back.store);
    if BooksExact(image) {
      FreeUnique(image.store.types, image.free, back.free);
    }
  }

  lemma {:induction false} FreeUnique(types: Types, a: seq<nat>, b: seq<nat>)
    requires FreeExact(types, a) && FreeExact(types, b)
    ensures SetOf(a) == SetOf(b)
  {
    assert forall h: nat :: h in SetOf(a) <==> h in SetOf(b);
  }

  /** A checkpoint round trip restores the Graph, with exact books whatever they were
  before. The identity counter comes back as the size of the entity table. */
  method ExportThenImport(image: Image) returns (ok: bool, back: Image)
    requires ImageSound(image)
    ensures ok <==> image.entities != [] && EntitiesHoused(image)
    ensures ok ==> SameContent(image, back) && ImageValid(back) && (BooksExact(image) ==> Same(image, back))
    ensures ok ==> (back.nextStableId == image.nextStableId <==> |image.entities| == image.nextStableId)
  {
    hide ImageSound, ImageValid, EntitiesHoused, BooksExact, Acceptable, SameContent;
    var source := new GraphOwner(image);
    var g := source.ExportCompiled();
    ExportAcceptable(image);
    var detached := new GraphOwner(Image(image.abi, EmptyStore(), [], [], [], 0, 0, 1, 0));
    ok := detached.ImportCompiled(g);
    back := detached.image;
    if ok {
      ImportOfExport(image, back);
      EntitiesKept(image, back);
    }
  }

  lemma {:induction false} EntitiesKept(image: Image, back: Image)
    requires Restores(Exported(image), back)
    ensures back.nextStableId == |image.entities|
  {
  }

  // ----- What import does not check -----

  function BuiltinPrefix(): (r: seq<C.CanonicalType>)
    ensures |r| == PREFIX_SIZE && forall i: nat :: i < PREFIX_SIZE ==> EntryAccepted(r[i], i, 1)
  {
    [C.CanonicalType(0, 19, 0, 0)] + seq(BUILTIN_COUNT, i requires 0 <= i < BUILTIN_COUNT => C.CanonicalType(0, i, 0, 0))
  }

  /** Two named enums over one type slot, and no name that leads to either. */
  function SharedSlot(): C.GraphState {
    C.GraphState(
      C.Abi(0, 8), [], [DEAD, C.EntitySlot(C.EnumType, 1, 1), C.EntitySlot(C.EnumType, 2, 1)],
      [C.TypeSlot(true, C.DefaultEntry())], [], [], BuiltinPrefix() + [C.CanonicalType(1, 0, 1, 0)])
  }

  /** Import accepts a state in which a slot has two owners and live entities have
  no identity: exclusive ownership holds for what updates commit, not for what
  import accepts. */
  lemma {:induction false} OwnershipUnchecked()
    ensures Acceptable(SharedSlot())
    ensures
      var g := SharedSlot();
      && g.entities[1].Live() && g.entities[2].Live() && g.entities[1].slot == g.entities[2].slot
      && forall n <- g.identities :: n != 1 && n != 2
  {
    var g := SharedSlot();
    SharedTable();
    AcceptedTable(g.canonicalTypes, 1);
    var types := Mapped(g.types, SlotOf);
    assert forall h: nat :: OwnMembers(types, [], h) == [];
    assert Mapped(g.members, MemberOf) == [];
    assert Mapped(g.entities, EntityOf) == g.entities;
    var table := Mapped(g.canonicalTypes, RecordOf);
    assert table[PREFIX_SIZE] == Named(1);
    hide TableAccepted, WellFormed, EntryAccepted, BuiltinPrefix;
  }

  lemma {:induction false} SharedTable()
    ensures TableAccepted(SharedSlot().canonicalTypes, 1)
  {
    var list := SharedSlot().canonicalTypes;
    forall i: nat | i < |list|
      ensures EntryAccepted(list[i], i, 1)
    {
      assert i < PREFIX_SIZE ==> list[i] == BuiltinPrefix()[i];
    }
  }
}
