/** The type half of the committed Graph: type slots, the member and enum value
arenas, the canonical TypeRef table with its indexes, and the forward and
reverse dependency lists. `Store` is the value of those fields at one moment;
the classes in `GraphUpdates` hold the fields themselves.
 */
module TypeGraph {
  import opened Collections
  import opened TypeTable

  datatype UserTypeKind = Aggregate | Enumeration

  datatype EnumEntry = EnumEntry(scoped: bool, fixed: bool, underlying: nat)

  /** What the record of an aggregate holds in the place of enum attributes. */
  const PLAIN := EnumEntry(false, false, 6)

  datatype Member = Member(name: nat, ref: nat)

  datatype EnumValue = EnumValue(name: nat, bits: nat)

  /** One-based range; begin zero is the only "no definition" state. */
  datatype Definition = Definition(begin: nat, count: nat)

  const NO_DEFINITION := Definition(0, 0)

  datatype TypeEntry = TypeEntry(kind: UserTypeKind, enumeration: EnumEntry, definition: Definition)

  /** What a reader of the Graph can observe about one live type slot. */
  datatype TypeView =
    | AggregateView(defined: bool, members: seq<Member>)
    | EnumView(enumeration: EnumEntry, defined: bool, values: seq<EnumValue>)

  predicate InArena<T>(definition: Definition, arena: seq<T>) {
    definition.begin != 0 ==> definition.begin - 1 + definition.count <= |arena|
  }

  function Slice<T>(definition: Definition, arena: seq<T>): seq<T>
    requires InArena(definition, arena)
  {
    if definition.begin == 0 then []
    else arena[definition.begin - 1..definition.begin - 1 + definition.count]
  }

  predicate EntryInArenas(entry: TypeEntry, members: seq<Member>, values: seq<EnumValue>) {
    match entry.kind
    case Aggregate => InArena(entry.definition, members)
    case Enumeration => InArena(entry.definition, values)
  }

  function ViewOf(entry: TypeEntry, members: seq<Member>, values: seq<EnumValue>): TypeView
    requires EntryInArenas(entry, members, values)
  {
    match entry.kind
    case Aggregate => AggregateView(entry.definition.begin != 0, Slice(entry.definition, members))
    case Enumeration => EnumView(entry.enumeration, entry.definition.begin != 0, Slice(entry.definition, values))
  }

  /** Definition arenas are append-only within a generation chain, so a slot keeps its view. */
  lemma ViewStable(entry: TypeEntry, members: seq<Member>, values: seq<EnumValue>,
                   members': seq<Member>, values': seq<EnumValue>)
    requires EntryInArenas(entry, members, values)
    requires members <= members' && values <= values'
    ensures EntryInArenas(entry, members', values')
    ensures ViewOf(entry, members', values') == ViewOf(entry, members, values)
  {
    if entry.definition.begin != 0 {
      if entry.kind.Aggregate? {
        assert Slice(entry.definition, members') == Slice(entry.definition, members);
      } else {
        assert Slice(entry.definition, values') == Slice(entry.definition, values);
      }
    }
  }

  type Types = seq<Option<TypeEntry>>

  predicate LiveSlot(types: Types, handle: nat) {
    0 < handle <= |types| && types[handle - 1].Some?
  }

  ghost predicate AllInArenas(types: Types, members: seq<Member>, values: seq<EnumValue>) {
    forall h :: LiveSlot(types, h) ==> EntryInArenas(types[h - 1].value, members, values)
  }

  /** The members of a slot: empty unless it holds a defined aggregate. */
  function MembersAt(types: Types, members: seq<Member>, values: seq<EnumValue>, handle: nat): seq<Member>
    requires AllInArenas(types, members, values)
  {
    if LiveSlot(types, handle) && types[handle - 1].value.kind.Aggregate?
    then Slice(types[handle - 1].value.definition, members)
    else []
  }

  ghost predicate RefsValid(table: seq<Record>, members: seq<Member>) {
    forall m <- members :: IsRef(table, m.ref)
  }

  /** The named types that a member list mentions. */
  ghost function Dependencies(table: seq<Record>, members: seq<Member>): (d: set<nat>)
    requires WellFormed(table) && RefsValid(table, members)
  {
    set m | m in members && Base(table, m.ref) != 0 :: Base(table, m.ref)
  }

  /** The same types in order of first mention. */
  ghost function Bases(table: seq<Record>, members: seq<Member>): (r: seq<nat>)
    requires WellFormed(table) && RefsValid(table, members)
    ensures NoDuplicates(r) && SetOf(r) == Dependencies(table, members)
  {
    if members == [] then []
    else
      var n := |members| - 1;
      assert members == members[..n] + [members[n]];
      var before := Bases(table, members[..n]);
      if Base(table, members[n].ref) == 0 then before else PushNew(before, Base(table, members[n].ref))
  }

  /** Two dependency vectors are exact inverses, without duplicates, over slots 1..count. */
  ghost predicate Inverse(count: nat, forward: seq<seq<nat>>, reverse: seq<seq<nat>>) {
    && (forall h: nat :: NoDuplicates(At(forward, h)) && NoDuplicates(At(reverse, h)))
    && (forall d, h :: h in At(reverse, d) <==> d in At(forward, h))
    && (forall d: nat, h: nat :: d in At(forward, h) ==> 1 <= h <= count && 1 <= d <= count)
  }

  datatype Store = Store(
    types: Types, members: seq<Member>, values: seq<EnumValue>,
    table: seq<Record>, namedRefs: seq<nat>, derivedIndex: map<DerivedKey, nat>,
    forward: seq<seq<nat>>, reverse: seq<seq<nat>>)
  {
    predicate IsLive(handle: nat) {
      LiveSlot(types, handle)
    }

    ghost predicate InArenas() {
      AllInArenas(types, members, values)
    }

    function View(handle: nat): Option<TypeView>
      requires InArenas()
    {
      if IsLive(handle) then Some(ViewOf(types[handle - 1].value, members, values)) else None
    }

    function MembersOf(handle: nat): seq<Member>
      requires InArenas()
    {
      MembersAt(types, members, values, handle)
    }

    /** The table is well formed, hash-consed, and mentions existing slots only. */
    ghost predicate TableValid() {
      && WellFormed(table)
      && Indexed(table, PREFIX_SIZE, NamedMap(namedRefs), derivedIndex)
      && HandlesBounded(table, |types|)
    }

    /** A TypeRef chain that ends in a builtin or in a live type slot. */
    predicate Resolves(ref: nat)
      requires WellFormed(table)
    {
      IsRef(table, ref) && (Base(table, ref) == 0 || IsLive(Base(table, ref)))
    }

    ghost predicate MembersResolve()
      requires InArenas() && WellFormed(table)
    {
      forall h, m :: m in MembersOf(h) ==> Resolves(m.ref)
    }

    /** The dependency lists are those of the current members. */
    ghost predicate IndexExact()
      requires InArenas() && WellFormed(table)
    {
      && |forward| == |reverse|
      && (|forward| == |types| + 1 || |forward| == |types| == 0)
      && Inverse(|types|, forward, reverse)
      && (forall h :: RefsValid(table, MembersOf(h)))
      && (forall h :: SetOf(At(forward, h)) == Dependencies(table, MembersOf(h)))
    }

    ghost predicate Valid() {
      && InArenas()
      && TableValid()
      && MembersResolve()
      && IndexExact()
    }
  }

  ghost predicate HandlesBounded(table: seq<Record>, count: nat) {
    forall r :: 0 <= r < |table| && table[r].Named? ==> table[r].handle <= count
  }

  lemma {:induction false} BaseBounded(table: seq<Record>, count: nat, ref: nat)
    requires WellFormed(table) && HandlesBounded(table, count) && IsRef(table, ref)
    ensures Base(table, ref) <= count
    decreases ref
  {
    if table[ref].Derived? {
      BaseBounded(table, count, table[ref].key.child);
    }
  }

  function EmptyStore(): (s: Store)
    ensures s.Valid()
  {
    Store([], [], [], InitialTable(), [], map[], [], [])
  }

  /** A freed slot is mentioned by no live member, so reusing it redirects nothing. */
  lemma FreedSlotUnreferenced(s: Store, freed: nat, h: nat, m: Member)
    requires s.Valid() && m in s.MembersOf(h)
    requires 0 < freed && !s.IsLive(freed)
    ensures IsRef(s.table, m.ref) && Base(s.table, m.ref) != freed
    ensures At(s.reverse, freed) == []
  {
    assert s.Resolves(m.ref);
    forall d: nat
      ensures d !in At(s.reverse, freed)
    {
      assert freed in At(s.forward, d) ==> freed in SetOf(At(s.forward, d));
    }
    EmptyWhenNoElement(At(s.reverse, freed));
  }
}
