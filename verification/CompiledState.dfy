/** The records that a compiled checkpoint carries: the String Registry slots and
the canonical Graph state, detached from their owners. */
module CompiledState {
  import opened Collections
  import Utf8

  type Byte = Utf8.Byte

  type Bytes = seq<Byte>

  type U32 = x: nat | x < 0x1_0000_0000

  type U64 = x: nat | x < 0x1_0000_0000_0000_0000

  datatype EntityKind = AggregateType | EnumType

  /** One slot of the Entity table; a name of zero marks a free one. */
  datatype EntitySlot = EntitySlot(kind: EntityKind, name: U32, slot: U32) {
    predicate Live() {
      name != 0
    }
  }

  datatype EnumValue = EnumValue(name: U32, bits: U64)

  datatype Member = Member(name: U32, typeRef: U32)

  /** `underlying` is the number of a builtin type. */
  datatype EnumEntry = EnumEntry(scoped: bool, fixedUnderlying: bool, underlying: Byte)

  /** A one-based range of an arena; a begin of zero means no definition. */
  datatype DefinitionRange = DefinitionRange(begin: U32, count: U32)

  datatype TypeKind = Aggregate | Enumeration

  datatype TypeEntry = TypeEntry(kind: TypeKind, enumeration: EnumEntry, definition: DefinitionRange)

  datatype TypeSlot = TypeSlot(live: bool, record: TypeEntry)

  datatype CanonicalType = CanonicalType(kind: Byte, subtype: Byte, argument: U32, payload: U64)

  datatype Abi = Abi(target: Byte, pack: U32)

  datatype GraphState = GraphState(
    abi: Abi,
    identities: seq<U32>,
    entities: seq<EntitySlot>,
    types: seq<TypeSlot>,
    enumValues: seq<EnumValue>,
    members: seq<Member>,
    canonicalTypes: seq<CanonicalType>)

  datatype ProjectState = ProjectState(strings: seq<Option<Bytes>>, graph: GraphState)

  function DefaultEnum(): EnumEntry {
    EnumEntry(false, false, 6)
  }

  function DefaultEntry(): TypeEntry {
    TypeEntry(Enumeration, DefaultEnum(), DefinitionRange(0, 0))
  }

  /** is_supported_abi_configuration */
  predicate Supported(abi: Abi) {
    abi.target <= 1 && abi.pack in [1, 2, 4, 8, 16]
  }

  /** Builtin types up to long double can underlie an enum. */
  const LAST_UNDERLYING: nat := 18

  predicate RangeValid(d: DefinitionRange, arena: nat) {
    if d.begin == 0 then d.count == 0 else d.begin - 1 + d.count <= arena
  }
}
