/** Enumerator constants from their spelling to the stored bits.

The parser computes each enumerator as a 64-bit constant, the graph selects an
underlying type for an unscoped enum from all of them, and stores each value
converted to it. The integer is the same at every stage.
 */
module Enumerators {
  import opened Collections
  import opened BuiltinTypes

  // ----- Selecting the underlying type -----

  /** The signed and the unsigned 64-bit candidate of a target. */
  function Signed64(target: Target): Type {
    if target.WindowsX64? then LongLong else Long
  }

  function UnsignedOf64(target: Target): Type {
    if target.WindowsX64? then UnsignedLongLong else UnsignedLong
  }

  ghost predicate HoldsAll(t: Type, target: Target, values: seq<Constant>)
    requires Sized(t, target) && forall c <- values :: Sized(c.kind, target)
  {
    forall c <- values :: Holds(t, target, ValueOf(c, target))
  }

  /** How the running minimum and maximum describe a list of values. */
  ghost predicate Bounds(values: seq<int>, minimum: int, maximum: int, hasNegative: bool) {
    && -TWO63 <= minimum <= 0 <= maximum < TWO64
    && (hasNegative <==> minimum < 0)
    && (forall v <- values :: minimum <= v <= maximum)
    && (minimum == 0 || minimum in values)
    && (maximum == 0 || maximum in values)
  }

  ghost function IntegersOf(values: seq<Constant>, target: Target): (r: seq<int>)
    requires forall c <- values :: Sized(c.kind, target)
    ensures |r| == |values| && forall i :: 0 <= i < |r| ==> r[i] == ValueOf(values[i], target)
  {
    if values == [] then [] else IntegersOf(values[..|values| - 1], target) + [ValueOf(values[|values| - 1], target)]
  }

  lemma ValueRange(c: Constant, target: Target)
    requires Sized(c.kind, target)
    ensures -TWO63 <= ValueOf(c, target) < TWO64
    ensures ValueOf(c, target) >= 0 && IsSigned(c.kind, target) ==> ValueOf(c, target) < TWO63
  {
    SizedWidths(c.kind, target);
  }

  /** The first candidate that holds all values, told from their minimum and maximum. */
  function Chosen(target: Target, minimum: int, maximum: int, hasNegative: bool): Option<Type> {
    if minimum >= -0x8000_0000 && maximum <= 0x7FFF_FFFF then Some(Int)
    else if !hasNegative && maximum <= 0xFFFF_FFFF then Some(UnsignedInt)
    else if maximum <= TWO63 - 1 then Some(Signed64(target))
    else if !hasNegative then Some(UnsignedOf64(target))
    else None
  }

  /** The first candidate whose range holds every value, if any does. */
  ghost function FirstHolding(target: Target, values: seq<Constant>): Option<Type>
    requires !target.Unsupported? && forall c <- values :: Sized(c.kind, target)
  {
    if HoldsAll(Int, target, values) then Some(Int)
    else if HoldsAll(UnsignedInt, target, values) then Some(UnsignedInt)
    else if HoldsAll(Signed64(target), target, values) then Some(Signed64(target))
    else if HoldsAll(UnsignedOf64(target), target, values) then Some(UnsignedOf64(target))
    else None
  }

  /** What is selected holds every value. */
  lemma FirstHoldingHolds(target: Target, values: seq<Constant>)
    requires !target.Unsupported? && forall c <- values :: Sized(c.kind, target)
    ensures FirstHolding(target, values).Some? ==>
              Sized(FirstHolding(target, values).value, target) && HoldsAll(FirstHolding(target, values).value, target, values)
  {
  }

  lemma CandidateRanges(target: Target, v: int)
    requires !target.Unsupported?
    ensures Sized(Signed64(target), target) && Sized(UnsignedOf64(target), target)
    ensures Holds(Int, target, v) <==> -0x8000_0000 <= v <= 0x7FFF_FFFF
    ensures Holds(UnsignedInt, target, v) <==> 0 <= v <= 0xFFFF_FFFF
    ensures Holds(Signed64(target), target, v) <==> -TWO63 <= v <= TWO63 - 1
    ensures Holds(UnsignedOf64(target), target, v) <==> 0 <= v < TWO64
  {
  }

  lemma {:induction false} ChosenIsFirst(target: Target, values: seq<Constant>, minimum: int, maximum: int,
                                         hasNegative: bool)
    requires !target.Unsupported? && forall c <- values :: Sized(c.kind, target)
    requires Bounds(IntegersOf(values, target), minimum, maximum, hasNegative)
    ensures Chosen(target, minimum, maximum, hasNegative) == FirstHolding(target, values)
  {
    CandidateRanges(target, minimum);
    CandidateRanges(target, maximum);
    BoundsSigns(IntegersOf(values, target), minimum, maximum, hasNegative);
    HoldsIffBounds(Int, target, values, minimum, maximum, hasNegative);
    HoldsIffBounds(UnsignedInt, target, values, minimum, maximum, hasNegative);
    HoldsIffBounds(Signed64(target), target, values, minimum, maximum, hasNegative);
    HoldsIffBounds(UnsignedOf64(target), target, values, minimum, maximum, hasNegative);
    hide HoldsAll, IntegersOf, Holds, Sized, Signed64, UnsignedOf64, ValueOf, Bounds;
  }

  /** Ranges are intervals around zero. */
  lemma {:induction false} RangeIsInterval(t: Type, target: Target, low: int, v: int, high: int)
    requires Sized(t, target)
    ensures Holds(t, target, 0)
    ensures Holds(t, target, low) && Holds(t, target, high) && low <= v <= high ==> Holds(t, target, v)
  {
    hide Width, IsSigned, IsIntegral, Power, Half;
  }

  lemma HoldsIffBounds(t: Type, target: Target, values: seq<Constant>, minimum: int, maximum: int, hasNegative: bool)
    requires Sized(t, target) && forall c <- values :: Sized(c.kind, target)
    requires Bounds(IntegersOf(values, target), minimum, maximum, hasNegative)
    ensures HoldsAll(t, target, values) <==> Holds(t, target, minimum) && Holds(t, target, maximum)
  {
    hide ValueOf, Sized, Holds, IntegersOf;
    var ints := IntegersOf(values, target);
    RangeIsInterval(t, target, 0, 0, 0);
    if HoldsAll(t, target, values) {
      forall v <- ints
        ensures Holds(t, target, v)
      {
        var i :| 0 <= i < |ints| && ints[i] == v;
        assert values[i] in values;
      }
    }
    if Holds(t, target, minimum) && Holds(t, target, maximum) {
      forall c <- values
        ensures Holds(t, target, ValueOf(c, target))
      {
        var i :| 0 <= i < |values| && values[i] == c;
        assert ints[i] in ints;
        RangeIsInterval(t, target, minimum, ints[i], maximum);
      }
    }
  }

  /** One more value widens the bounds as the loop does. */
  lemma BoundsWiden(values: seq<int>, minimum: int, maximum: int, hasNegative: bool, v: int)
    requires Bounds(values, minimum, maximum, hasNegative) && -TWO63 <= v < TWO64
    ensures Bounds(values + [v], if v < minimum then v else minimum, if v > maximum then v else maximum, hasNegative || v < 0)
  {
  }

  /** select_unscoped_enum_underlying: one pass over the values. */
  method SelectUnderlying(values: seq<Constant>, target: Target) returns (selected: Option<Type>)
    ensures target.Unsupported? || (exists c <- values :: !Sized(c.kind, target)) ==> selected == None
    ensures !target.Unsupported? && (forall c <- values :: Sized(c.kind, target)) ==>
              selected == FirstHolding(target, values)
  {
    hide HoldsAll, Chosen, Width, IsIntegral, IsSigned, Bounds, FirstHolding, SignExtended, Power, IntegersOf;
    if target.Unsupported? {
      return None;
    }
    var minimum, maximum := 0, 0;
    var hasNegative := false;
    NoBounds();
    assert values[..0] == [];
    NoIntegers(target);
    for i := 0 to |values|
      invariant forall c <- values[..i] :: Sized(c.kind, target)
      invariant Bounds(IntegersOf(values[..i], target), minimum, maximum, hasNegative)
    {
      var c := values[i];
      TakeNext(values, i);
      assert c in values;
      var width := Width(c.kind, target);
      if !IsIntegral(c.kind) || width == 0 || width > 64 {
        WidthAtMost64(c.kind, target);
        return None;
      }
      ValueRange(c, target);
      ghost var v := ValueOf(c, target);
      OneMoreInteger(values, i, target);
      BoundsWiden(IntegersOf(values[..i], target), minimum, maximum, hasNegative, v);
      BoundsSigns(IntegersOf(values[..i], target), minimum, maximum, hasNegative);
      SizedWidths(c.kind, target);
      if IsSigned(c.kind, target) {
        var value := SignExtended(c.bits, width);
        if value < 0 {
          hasNegative := true;
          if value < minimum {
            minimum := value;
          }
        } else if value > maximum {
          maximum := value;
        }
      } else if c.bits > maximum {
        maximum := c.bits;
      }
    }
    TakeAll(values);
    ChosenIsFirst(target, values, minimum, maximum, hasNegative);
    selected := ChooseByBounds(target, minimum, maximum, hasNegative);
  }

  lemma NoBounds()
    ensures Bounds([], 0, 0, false)
  {
  }

  lemma NoIntegers(target: Target)
    ensures IntegersOf([], target) == []
  {
  }

  lemma BoundsSigns(values: seq<int>, minimum: int, maximum: int, hasNegative: bool)
    requires Bounds(values, minimum, maximum, hasNegative)
    ensures -TWO63 <= minimum <= 0 <= maximum < TWO64 && (hasNegative <==> minimum < 0)
  {
  }

  lemma OneMoreInteger(values: seq<Constant>, i: nat, target: Target)
    requires i < |values| && (forall c <- values[..i] :: Sized(c.kind, target)) && Sized(values[i].kind, target)
    ensures forall c <- values[..i + 1] :: Sized(c.kind, target)
    ensures IntegersOf(values[..i + 1], target) == IntegersOf(values[..i], target) + [ValueOf(values[i], target)]
  {
    hide ValueOf, Sized;
    TakeNext(values, i);
    assert values[..i + 1][..i] == values[..i];
  }

  lemma WidthAtMost64(t: Type, target: Target)
    ensures IsIntegral(t) ==> Width(t, target) <= 64
  {
  }

  method ChooseByBounds(target: Target, minimum: int, maximum: int, hasNegative: bool) returns (selected: Option<Type>)
    requires !target.Unsupported?
    ensures selected == Chosen(target, minimum, maximum, hasNegative)
  {
    if minimum >= -0x8000_0000 && maximum <= 0x7FFF_FFFF {
      return Some(Int);
    }
    if !hasNegative && maximum <= 0xFFFF_FFFF {
      return Some(UnsignedInt);
    }
    match target
    case WindowsX64 =>
      if maximum <= TWO63 - 1 {
        return Some(LongLong);
      }
      if !hasNegative {
        return Some(UnsignedLongLong);
      }
      return None;
    case PosixX64 =>
      if maximum <= TWO63 - 1 {
        return Some(Long);
      }
      if !hasNegative {
        return Some(UnsignedLong);
      }
      return None;
  }

  /** Every selected type stores every value exactly, under both targets. */
  lemma SelectionStoresExactly(values: seq<Constant>, target: Target, t: Type, c: Constant)
    requires Sized(t, target) && forall x <- values :: Sized(x.kind, target)
    requires HoldsAll(t, target, values) && c in values
    ensures FitsIntegral(c, t, target)
    ensures ConvertIntegral(c, t, target) < Power(Width(t, target))
    ensures ValueOf(Constant(t, ConvertIntegral(c, t, target)), target) == ValueOf(c, target)
  {
    ConversionKeepsValue(c, t, target);
  }

  // ----- The contribution of one enum declaration -----

  datatype EnumeratorBuild = EnumeratorBuild(name: nat, value: Constant)

  datatype EnumBuild = EnumBuild(defined: bool, scoped: bool, explicit: Option<Type>, enumerators: seq<EnumeratorBuild>)

  datatype StoredValue = StoredValue(name: nat, bits: Bits)

  datatype EnumContribution = EnumContribution(
    defined: bool, scoped: bool, fixed: bool, underlying: Type, values: seq<StoredValue>)

  /** A named constant whose bits lie within the width of its type. */
  predicate CleanEnumerator(e: EnumeratorBuild, target: Target) {
    e.name != 0 && Sized(e.value.kind, target) && e.value.bits < Power(Width(e.value.kind, target))
  }

  function Constants(enumerators: seq<EnumeratorBuild>): (r: seq<Constant>)
    ensures |r| == |enumerators| && forall i: nat :: i < |r| ==> r[i] == enumerators[i].value
  {
    seq(|enumerators|, i requires 0 <= i < |enumerators| => enumerators[i].value)
  }

  /** The underlying type: the given one, int for a scoped enum, else the first that holds all values. */
  ghost function UnderlyingOf(data: EnumBuild, target: Target): Option<Type> {
    if data.explicit.Some? then if IsIntegral(data.explicit.value) then data.explicit else None
    else if data.scoped then Some(Int)
    else if !data.defined || target.Unsupported? then None
    else if forall c <- Constants(data.enumerators) :: Sized(c.kind, target) then FirstHolding(target, Constants(data.enumerators))
    else None
  }

  /** What makes a declaration acceptable: every value fits the underlying type. */
  ghost predicate EnumAccepted(data: EnumBuild, target: Target) {
    && (data.defined || data.enumerators == [])
    && UnderlyingOf(data, target).Some?
    && forall e <- data.enumerators ::
         && CleanEnumerator(e, target)
         && Sized(UnderlyingOf(data, target).value, target)
         && Holds(UnderlyingOf(data, target).value, target, ValueOf(e.value, target))
  }

  /** Every value is stored, in order, as bits of the underlying type that stand for the same integer. */
  ghost predicate StoredExactly(data: EnumBuild, target: Target, built: EnumContribution) {
    && UnderlyingOf(data, target) == Some(built.underlying)
    && built.defined == data.defined && built.scoped == data.scoped
    && (built.fixed <==> data.explicit.Some? || data.scoped)
    && |built.values| == |data.enumerators|
    && forall i: nat :: i < |built.values| ==>
         && Sized(built.underlying, target) && Sized(data.enumerators[i].value.kind, target)
         && built.values[i].name == data.enumerators[i].name
         && built.values[i].bits < Power(Width(built.underlying, target))
         && ValueOf(Constant(built.underlying, built.values[i].bits), target) == ValueOf(data.enumerators[i].value, target)
  }

  /** build_contribution: accepted exactly when every value fits the underlying type,
  however that was chosen; then every value is stored exactly. */
  method BuildContribution(data: EnumBuild, target: Target) returns (r: Option<EnumContribution>)
    ensures r.Some? <==> EnumAccepted(data, target)
    ensures r.Some? ==> StoredExactly(data, target, r.value)
    ensures r.Some? ==> (r.value.defined || r.value.fixed) && (r.value.scoped ==> r.value.fixed)
    ensures r.Some? ==> forall v <- r.value.values :: v.name != 0
  {
    hide FirstHolding, Sized, Holds, ValueOf, ConvertIntegral, Width, Power, IsIntegral;
    if !data.defined && data.enumerators != [] {
      return None;
    }
    var underlying := ChooseUnderlying(data, target);
    if underlying.None? {
      return None;
    }
    var stored: seq<StoredValue> := [];
    for i := 0 to |data.enumerators|
      invariant |stored| == i
      invariant forall j: nat :: j < i ==> EnumeratorStored(data.enumerators[j], target, underlying.value, stored[j])
    {
      var e := data.enumerators[i];
      var width := Width(e.value.kind, target);
      if e.name == 0 || !IsIntegral(e.value.kind) || width == 0 || width > 64 || e.value.bits >= Power(width)
         || !FitsIntegral(e.value, underlying.value, target) {
        Unclean(e, target);
        assert e in data.enumerators;
        return None;
      }
      Unclean(e, target);
      ConversionKeepsValue(e.value, underlying.value, target);
      stored := stored + [StoredValue(e.name, ConvertIntegral(e.value, underlying.value, target))];
    }
    r := Some(EnumContribution(data.defined, data.scoped, data.explicit.Some? || data.scoped, underlying.value, stored));
    AllStored(data, target, r.value);
  }

  lemma AllStored(data: EnumBuild, target: Target, built: EnumContribution)
    requires UnderlyingOf(data, target) == Some(built.underlying) && (data.defined || data.enumerators == [])
    requires built.defined == data.defined && built.scoped == data.scoped
    requires built.fixed <==> data.explicit.Some? || data.scoped
    requires |built.values| == |data.enumerators|
    requires forall i: nat :: i < |built.values| ==>
               EnumeratorStored(data.enumerators[i], target, built.underlying, built.values[i])
    ensures EnumAccepted(data, target) && StoredExactly(data, target, built)
    ensures forall v <- built.values :: v.name != 0
    ensures built.defined || built.fixed
  {
    hide FirstHolding, Sized, Holds, ValueOf, ConvertIntegral, Width, Power;
    forall e <- data.enumerators
      ensures CleanEnumerator(e, target) && Sized(built.underlying, target) && Holds(built.underlying, target, ValueOf(e.value, target))
    {
      var i: nat :| i < |data.enumerators| && data.enumerators[i] == e;
      assert EnumeratorStored(data.enumerators[i], target, built.underlying, built.values[i]);
    }
    forall v <- built.values
      ensures v.name != 0
    {
      var i: nat :| i < |built.values| && built.values[i] == v;
      assert EnumeratorStored(data.enumerators[i], target, built.underlying, built.values[i]);
    }
  }

  ghost predicate EnumeratorStored(e: EnumeratorBuild, target: Target, t: Type, stored: StoredValue) {
    && CleanEnumerator(e, target) && Sized(t, target) && Holds(t, target, ValueOf(e.value, target))
    && stored.name == e.name && stored.bits < Power(Width(t, target))
    && ValueOf(Constant(t, stored.bits), target) == ValueOf(e.value, target)
  }

  lemma Unclean(e: EnumeratorBuild, target: Target)
    ensures var width := Width(e.value.kind, target);
            CleanEnumerator(e, target) <==>
              e.name != 0 && IsIntegral(e.value.kind) && width != 0 && width <= 64 && e.value.bits < Power(width)
  {
  }

  method ChooseUnderlying(data: EnumBuild, target: Target) returns (r: Option<Type>)
    ensures r == UnderlyingOf(data, target)
  {
    hide FirstHolding, Sized, IsIntegral;
    if data.explicit.Some? {
      if !IsIntegral(data.explicit.value) {
        return None;
      }
      return data.explicit;
    }
    if data.scoped {
      return Some(Int);
    }
    if !data.defined {
      return None;
    }
    r := SelectUnderlying(Constants(data.enumerators), target);
  }

  // ----- Constants in the parser -----

  /** The constants that the parser makes: a signed 64-bit one, or an unsigned
  one that a signed one could not hold. */
  predicate Canonical(c: Constant) {
    c.kind.LongLong? || (c.kind.UnsignedLongLong? && c.bits >= TWO63)
  }

  /** The integer of a parser constant; both kinds have 64 bits under every target. */
  function Exact(c: Constant): int
    requires Canonical(c)
  {
    var bits: int := c.bits;
    if c.kind.LongLong? && bits >= TWO63 then bits - TWO64 else bits
  }

  lemma ExactIsValue(c: Constant, target: Target)
    requires Canonical(c)
    ensures Sized(c.kind, target) && ValueOf(c, target) == Exact(c)
  {
  }

  /** parse_number: a literal of any size, and an optional minus. */
  function Number(negative: bool, magnitude: nat): (r: Option<Constant>)
    ensures r.Some? <==> if negative then magnitude <= TWO63 else magnitude < TWO64
    ensures r.Some? ==> Canonical(r.value) && var m: int := magnitude; Exact(r.value) == if negative then -m else m
  {
    if magnitude >= TWO64 then None
    else if negative then
      if magnitude > TWO63 then None else Some(Constant(LongLong, (TWO64 - magnitude) % TWO64))
    else Some(Constant(if magnitude <= TWO63 - 1 then LongLong else UnsignedLongLong, magnitude))
  }

  /** One addition of parse_expression. */
  function Sum(a: Constant, b: Constant): Option<Constant> {
    if a.kind.UnsignedLongLong? || b.kind.UnsignedLongLong? then
      if TWO64 - 1 - a.bits < b.bits then None else Some(Constant(UnsignedLongLong, a.bits + b.bits))
    else
      var left := SignExtended(a.bits, 64);
      var right := SignExtended(b.bits, 64);
      if (right > 0 && left > TWO63 - 1 - right) || (right < 0 && left < -TWO63 - right) then None
      else Some(Constant(LongLong, Unsigned64(left + right)))
  }

  lemma SignedReading(c: Constant)
    requires c.kind.LongLong?
    ensures SignExtended(c.bits, 64) == Exact(c) && -TWO63 <= Exact(c) < TWO63
  {
  }

  lemma UnsignedReading(c: Constant)
    requires Canonical(c)
    ensures Exact(c) == if c.kind.LongLong? && c.bits >= TWO63 then c.bits as int - TWO64 else c.bits as int
    ensures c.kind.UnsignedLongLong? ==> c.bits >= TWO63
  {
  }

  lemma SignedWriting(value: int)
    requires -TWO63 <= value < TWO63
    ensures Exact(Constant(LongLong, Unsigned64(value))) == value
  {
  }

  /** An accepted sum is exact. It is accepted exactly when it stays in the
  signed range, or, if one side is unsigned, when the other is not negative and
  it stays in the unsigned range: mixing an unsigned and a negative operand is
  always refused, also where the exact sum could be represented. */
  lemma SumExact(a: Constant, b: Constant)
    requires Canonical(a) && Canonical(b)
    ensures Sum(a, b).Some? ==> Canonical(Sum(a, b).value) && Exact(Sum(a, b).value) == Exact(a) + Exact(b)
    ensures Sum(a, b).Some? <==>
            if a.kind.UnsignedLongLong? || b.kind.UnsignedLongLong?
            then Exact(a) >= 0 && Exact(b) >= 0 && Exact(a) + Exact(b) < TWO64
            else -TWO63 <= Exact(a) + Exact(b) < TWO63
  {
    UnsignedReading(a);
    UnsignedReading(b);
    if a.kind.LongLong? && b.kind.LongLong? {
      SignedReading(a);
      SignedReading(b);
      var sum := Exact(a) + Exact(b);
      hide SignExtended, Exact;
      if -TWO63 <= sum < TWO63 {
        SignedWriting(sum);
      }
    } else {
      if Sum(a, b).Some? {
        UnsignedReading(Sum(a, b).value);
      }
      hide SignExtended, Exact;
    }
  }

  /** The integers that parse_expression adds: signed ones inside the signed
  range, unsigned ones only without a negative operand. */
  predicate SumHolds(x: int, y: int) {
    if x >= TWO63 || y >= TWO63 then x >= 0 && y >= 0 && x + y < TWO64 else -TWO63 <= x + y < TWO63
  }

  /** Which type a constant has is told by its integer, so acceptance depends on the integers alone. */
  lemma SumIffHolds(a: Constant, b: Constant)
    requires Canonical(a) && Canonical(b)
    ensures Sum(a, b).Some? <==> SumHolds(Exact(a), Exact(b))
  {
    SumExact(a, b);
    UnsignedReading(a);
    UnsignedReading(b);
    SignedKind(a);
    SignedKind(b);
    hide Sum, Exact, Canonical;
  }

  lemma SignedKind(c: Constant)
    requires Canonical(c)
    ensures c.kind.UnsignedLongLong? <==> Exact(c) >= TWO63
  {
    if c.kind.LongLong? {
      SignedReading(c);
    }
  }

  /** An exact sum that is refused although a constant could hold it. */
  lemma MixedSumRefused()
    ensures Sum(Number(false, TWO63).value, Number(true, 1).value) == None
    ensures Exact(Number(false, TWO63).value) + Exact(Number(true, 1).value) == Exact(Number(false, TWO63 - 1).value)
  {
  }

  /** increment_constant */
  function Incremented(c: Constant): Option<Constant> {
    if c.kind.UnsignedLongLong? then
      if c.bits == TWO64 - 1 then None else Some(Constant(c.kind, (c.bits + 1) % TWO64))
    else if c.bits == TWO63 - 1 then None
    else Some(Constant(c.kind, (c.bits + 1) % TWO64))
  }

  lemma IncrementExact(c: Constant)
    requires Canonical(c)
    ensures Incremented(c).Some? ==> Canonical(Incremented(c).value) && Exact(Incremented(c).value) == Exact(c) + 1
    ensures Incremented(c) == None <==> Exact(c) == TWO64 - 1 || Exact(c) == TWO63 - 1
  {
  }

  // ----- Enumerator lists -----

  datatype Term = Literal(negative: bool, magnitude: nat) | Named(name: string)

  /** `terms` is empty when the enumerator has no initializer. */
  datatype Enumerator = Enumerator(name: string, terms: seq<Term>)

  type Scope = map<string, Constant>

  ghost predicate CanonicalScope(scope: Scope) {
    forall n <- scope :: Canonical(scope[n])
  }

  /** parse_primary: names of this enum hide names of enclosing scopes. */
  function Primary(term: Term, local: Scope, outer: Scope): (r: Option<Constant>)
    requires CanonicalScope(local) && CanonicalScope(outer)
    ensures r.Some? ==> Canonical(r.value)
  {
    match term
    case Literal(negative, magnitude) => Number(negative, magnitude)
    case Named(name) => if name in local then Some(local[name]) else if name in outer then Some(outer[name]) else None
  }

  /** The integer that a list of terms spells. */
  function ExactSum(terms: seq<Term>, local: Scope, outer: Scope): (r: Option<int>)
    requires CanonicalScope(local) && CanonicalScope(outer)
  {
    if terms == [] then Some(0)
    else
      var before := ExactSum(terms[..|terms| - 1], local, outer);
      var last := Primary(terms[|terms| - 1], local, outer);
      if before.Some? && last.Some? then Some(before.value + Exact(last.value)) else None
  }

  lemma SumExtends(terms: seq<Term>, i: nat, local: Scope, outer: Scope)
    requires CanonicalScope(local) && CanonicalScope(outer) && i < |terms|
    requires ExactSum(terms[..i], local, outer).Some? && Primary(terms[i], local, outer).Some?
    ensures ExactSum(terms[..i + 1], local, outer)
         == Some(ExactSum(terms[..i], local, outer).value + Exact(Primary(terms[i], local, outer).value))
  {
    assert terms[..i + 1][..i] == terms[..i];
  }

  /** Every term has a value, and every addition from left to right is accepted. */
  ghost predicate SumsHold(terms: seq<Term>, local: Scope, outer: Scope)
    requires CanonicalScope(local) && CanonicalScope(outer)
  {
    terms != [] &&
      var n := |terms| - 1;
      var last := Primary(terms[n], local, outer);
      && last.Some?
      && (n > 0 ==>
            && SumsHold(terms[..n], local, outer)
            && ExactSum(terms[..n], local, outer).Some?
            && SumHolds(ExactSum(terms[..n], local, outer).value, Exact(last.value)))
  }

  lemma {:induction false} SumsHoldNext(terms: seq<Term>, i: nat, local: Scope, outer: Scope)
    requires CanonicalScope(local) && CanonicalScope(outer) && i < |terms|
    ensures SumsHold(terms[..i + 1], local, outer) <==>
            && Primary(terms[i], local, outer).Some?
            && (i > 0 ==>
                  && SumsHold(terms[..i], local, outer)
                  && ExactSum(terms[..i], local, outer).Some?
                  && SumHolds(ExactSum(terms[..i], local, outer).value, Exact(Primary(terms[i], local, outer).value)))
  {
    assert terms[..i + 1][..i] == terms[..i];
  }

  /** A refused prefix is never made good. */
  lemma {:induction false} SumsHoldPrefix(terms: seq<Term>, i: nat, local: Scope, outer: Scope)
    requires CanonicalScope(local) && CanonicalScope(outer) && 0 < i <= |terms| && SumsHold(terms, local, outer)
    ensures SumsHold(terms[..i], local, outer)
    decreases |terms|
  {
    if i == |terms| {
      TakeAll(terms);
    } else {
      var n := |terms| - 1;
      SumsHoldPrefix(terms[..n], i, local, outer);
      assert terms[..n][..i] == terms[..i];
    }
  }

  /** parse_expression: accepted exactly when every addition is, and then the sum is exact. */
  method Expression(terms: seq<Term>, local: Scope, outer: Scope) returns (r: Option<Constant>)
    requires terms != [] && CanonicalScope(local) && CanonicalScope(outer)
    ensures r.Some? <==> SumsHold(terms, local, outer)
    ensures r.Some? ==> Canonical(r.value) && ExactSum(terms, local, outer) == Some(Exact(r.value))
  {
    hide ExactSum, Primary, Sum, Exact, SumsHold, SumHolds;
    r := Primary(terms[0], local, outer);
    EmptySum(terms, local, outer);
    SumsHoldNext(terms, 0, local, outer);
    if r.None? {
      Refused(terms, 1, local, outer);
      return;
    }
    SumExtends(terms, 0, local, outer);
    for i := 1 to |terms|
      invariant r.Some? && Canonical(r.value) && ExactSum(terms[..i], local, outer) == Some(Exact(r.value))
      invariant SumsHold(terms[..i], local, outer)
    {
      var right := Primary(terms[i], local, outer);
      SumsHoldNext(terms, i, local, outer);
      if right.None? {
        Refused(terms, i + 1, local, outer);
        return None;
      }
      SumExact(r.value, right.value);
      SumIffHolds(r.value, right.value);
      SumExtends(terms, i, local, outer);
      r := Sum(r.value, right.value);
      if r.None? {
        Refused(terms, i + 1, local, outer);
        return;
      }
    }
    TakeAll(terms);
  }

  lemma {:induction false} Refused(terms: seq<Term>, i: nat, local: Scope, outer: Scope)
    requires CanonicalScope(local) && CanonicalScope(outer) && 0 < i <= |terms| && !SumsHold(terms[..i], local, outer)
    ensures !SumsHold(terms, local, outer)
  {
    if SumsHold(terms, local, outer) {
      SumsHoldPrefix(terms, i, local, outer);
    }
  }

  lemma EmptySum(terms: seq<Term>, local: Scope, outer: Scope)
    requires CanonicalScope(local) && CanonicalScope(outer)
    ensures ExactSum(terms[..0], local, outer) == Some(0)
  {
  }

  /** The constants visible before enumerator `i`. */
  function ScopeBefore(list: seq<Enumerator>, values: seq<Constant>, i: nat): (scope: Scope)
    requires i <= |list| && i <= |values|
    requires forall c <- values :: Canonical(c)
    ensures CanonicalScope(scope)
    ensures forall k: nat :: k < i ==> list[k].name in scope
  {
    if i == 0 then map[] else ScopeBefore(list, values, i - 1)[list[i - 1].name := values[i - 1]]
  }

  /** What value `i` has to be: the exact sum of the initializer, or one more than the value before. */
  ghost predicate ExactAt(list: seq<Enumerator>, outer: Scope, values: seq<Constant>, i: nat)
    requires CanonicalScope(outer) && i < |values| <= |list| && forall c <- values :: Canonical(c)
  {
    if list[i].terms != [] then
      && SumsHold(list[i].terms, ScopeBefore(list, values, i), outer)
      && ExactSum(list[i].terms, ScopeBefore(list, values, i), outer) == Some(Exact(values[i]))
    else Exact(values[i]) == if i == 0 then 0 else Exact(values[i - 1]) + 1
  }

  ghost predicate DistinctNames(list: seq<Enumerator>, count: nat)
    requires count <= |list|
  {
    forall i: nat, j: nat :: i < j < count ==> list[i].name != list[j].name
  }

  /** The values of the first enumerators of a list. */
  ghost predicate ExactValues(list: seq<Enumerator>, outer: Scope, values: seq<Constant>)
    requires CanonicalScope(outer)
  {
    && |values| <= |list|
    && (forall c <- values :: Canonical(c))
    && DistinctNames(list, |values|)
    && forall i: nat :: i < |values| ==> ExactAt(list, outer, values, i)
  }

  lemma {:induction false} ScopeGrows(list: seq<Enumerator>, values: seq<Constant>, c: Constant, i: nat)
    requires i <= |list| && i <= |values| && Canonical(c) && forall x <- values :: Canonical(x)
    ensures forall x <- values + [c] :: Canonical(x)
    ensures ScopeBefore(list, values + [c], i) == ScopeBefore(list, values, i)
  {
    if i > 0 {
      ScopeGrows(list, values, c, i - 1);
      assert (values + [c])[i - 1] == values[i - 1];
    }
  }

  lemma {:induction false} ScopeNames(list: seq<Enumerator>, values: seq<Constant>, i: nat, name: string)
    requires i <= |list| && i <= |values| && forall x <- values :: Canonical(x)
    ensures name in ScopeBefore(list, values, i) <==> exists k: nat :: k < i && list[k].name == name
  {
    if i > 0 {
      ScopeNames(list, values, i - 1, name);
    }
  }

  /** No enumerator but the last has a value that cannot be incremented. */
  ghost predicate Incrementable(list: seq<Enumerator>, values: seq<Constant>)
    requires |values| <= |list|
  {
    forall k: nat :: k + 1 < |list| && k < |values| ==> Incremented(values[k]).Some?
  }

  /** After these values the list is refused: a name comes twice, an initializer
  has no accepted sum, or the last value has no successor although another
  enumerator follows. */
  ghost predicate StopsAfter(list: seq<Enumerator>, outer: Scope, values: seq<Constant>)
    requires CanonicalScope(outer)
  {
    var n := |values|;
    && n <= |list| && ExactValues(list, outer, values)
    && n < |list|
    && (|| (exists k: nat :: k < n && list[k].name == list[n].name)
        || (list[n].terms != [] && !SumsHold(list[n].terms, ScopeBefore(list, values, n), outer))
        || (n > 0 && Incremented(values[n - 1]).None?))
  }

  lemma {:induction false} SameExact(a: Constant, b: Constant)
    requires Canonical(a) && Canonical(b) && Exact(a) == Exact(b)
    ensures a == b
  {
    UnsignedReading(a);
    UnsignedReading(b);
    SignedKind(a);
    SignedKind(b);
  }

  /** There is one way to read a list: values agree as far as both go. */
  lemma {:induction false} OneReading(list: seq<Enumerator>, outer: Scope, a: seq<Constant>, b: seq<Constant>, n: nat)
    requires CanonicalScope(outer) && ExactValues(list, outer, a) && ExactValues(list, outer, b) && n <= |a| && n <= |b|
    ensures a[..n] == b[..n]
    ensures ScopeBefore(list, a, n) == ScopeBefore(list, b, n)
  {
    hide ExactSum, SumsHold, Exact, Canonical, DistinctNames;
    if n > 0 {
      var i := n - 1;
      OneReading(list, outer, a, b, i);
      assert ExactAt(list, outer, a, i) && ExactAt(list, outer, b, i);
      assert a[i] in a && b[i] in b;
      assert i > 0 ==> a[..i][i - 1] == b[..i][i - 1];
      SameExact(a[i], b[i]);
      TakeNext(a, i);
      TakeNext(b, i);
    }
  }

  lemma {:induction false} NothingStops(list: seq<Enumerator>, outer: Scope, values: seq<Constant>, w: seq<Constant>)
    requires CanonicalScope(outer) && |values| == |list| && ExactValues(list, outer, values) && Incrementable(list, values)
    requires ExactValues(list, outer, w) && |w| < |list|
    ensures forall k: nat :: k < |w| ==> list[k].name != list[|w|].name
    ensures list[|w|].terms != [] ==> SumsHold(list[|w|].terms, ScopeBefore(list, w, |w|), outer)
    ensures |w| > 0 ==> Incremented(w[|w| - 1]).Some?
  {
    hide ExactSum, SumsHold, Exact, Canonical, Incremented, ScopeBefore;
    var n := |w|;
    OneReading(list, outer, values, w, n);
    assert ExactAt(list, outer, values, n);
    assert n > 0 ==> w[..n][n - 1] == values[..n][n - 1];
  }

  /** A list is never both accepted and refused. */
  lemma {:induction false} AcceptedNeverStops(list: seq<Enumerator>, outer: Scope, values: seq<Constant>,
                                              w: seq<Constant>)
    requires CanonicalScope(outer) && |values| == |list| && ExactValues(list, outer, values) && Incrementable(list, values)
    ensures !StopsAfter(list, outer, w)
  {
    if ExactValues(list, outer, w) && |w| < |list| {
      NothingStops(list, outer, values, w);
    }
  }

  /** The enumerator loop of parse_enum. The values it accepts are exact
  integers. Every value but the last must have a successor, even where the next
  enumerator has an initializer of its own. */
  method EnumeratorValues(list: seq<Enumerator>, outer: Scope) returns (r: Option<seq<Constant>>)
    requires CanonicalScope(outer)
    ensures r.Some? ==> |r.value| == |list| && ExactValues(list, outer, r.value) && Incrementable(list, r.value)
    ensures r.None? ==> exists values :: StopsAfter(list, outer, values)
  {
    hide ScopeBefore, ExactSum, SumsHold, ExactAt, DistinctNames, Exact, Canonical, Incremented;
    var local: Scope := map[];
    var values: seq<Constant> := [];
    var next := Constant(LongLong, 0);
    Begins(list, outer);
    for i := 0 to |list|
      invariant |values| == i && ExactValues(list, outer, values) && Incrementable(list, values)
      invariant local == ScopeBefore(list, values, i)
      invariant i < |list| ==> Canonical(next) && Exact(next) == if i == 0 then 0 else Exact(values[i - 1]) + 1
    {
      var name := list[i].name;
      ScopeNames(list, values, i, name);
      if name in local {
        assert StopsAfter(list, outer, values);
        return None;
      }
      var value := next;
      if list[i].terms != [] {
        var sum := Expression(list[i].terms, local, outer);
        if sum.None? {
          assert StopsAfter(list, outer, values);
          return None;
        }
        value := sum.value;
      }
      ValuesPushed(list, outer, values, value);
      ScopePushed(list, values, value);
      local := local[name := value];
      values := values + [value];
      if i + 1 < |list| {
        IncrementExact(value);
        var more := Incremented(value);
        if more.None? {
          assert StopsAfter(list, outer, values);
          return None;
        }
        next := more.value;
      }
    }
    return Some(values);
  }

  lemma Begins(list: seq<Enumerator>, outer: Scope)
    requires CanonicalScope(outer)
    ensures ExactValues(list, outer, []) && ScopeBefore(list, [], 0) == map[]
    ensures Canonical(Constant(LongLong, 0)) && Exact(Constant(LongLong, 0)) == 0
  {
  }

  lemma ScopePushed(list: seq<Enumerator>, values: seq<Constant>, value: Constant)
    requires |values| < |list| && Canonical(value) && forall c <- values :: Canonical(c)
    ensures forall c <- values + [value] :: Canonical(c)
    ensures ScopeBefore(list, values + [value], |values| + 1)
         == ScopeBefore(list, values, |values|)[list[|values|].name := value]
  {
    ScopeGrows(list, values, value, |values|);
  }

  lemma {:induction false} ExactAtKept(list: seq<Enumerator>, outer: Scope, values: seq<Constant>, value: Constant,
                                       i: nat)
    requires CanonicalScope(outer) && |values| < |list| && Canonical(value) && forall c <- values :: Canonical(c)
    requires i < |values| && ExactAt(list, outer, values, i)
    ensures forall c <- values + [value] :: Canonical(c)
    ensures ExactAt(list, outer, values + [value], i)
  {
    hide ScopeBefore, ExactSum, SumsHold, Exact, Canonical;
    ScopeGrows(list, values, value, i);
    var more := values + [value];
    assert more[i] == values[i] && (i > 0 ==> more[i - 1] == values[i - 1]);
  }

  lemma {:induction false} ExactAtLast(list: seq<Enumerator>, outer: Scope, values: seq<Constant>, value: Constant)
    requires CanonicalScope(outer) && |values| < |list| && Canonical(value) && forall c <- values :: Canonical(c)
    requires if list[|values|].terms != []
             then
               && SumsHold(list[|values|].terms, ScopeBefore(list, values, |values|), outer)
               && ExactSum(list[|values|].terms, ScopeBefore(list, values, |values|), outer) == Some(Exact(value))
             else Exact(value) == if values == [] then 0 else Exact(values[|values| - 1]) + 1
    ensures forall c <- values + [value] :: Canonical(c)
    ensures ExactAt(list, outer, values + [value], |values|)
  {
    hide ScopeBefore, ExactSum, SumsHold, Exact, Canonical;
    ScopeGrows(list, values, value, |values|);
    var more, n := values + [value], |values|;
    assert more[n] == value && (n > 0 ==> more[n - 1] == values[n - 1]);
  }

  lemma {:induction false} ValuesPushed(list: seq<Enumerator>, outer: Scope, values: seq<Constant>, value: Constant)
    requires CanonicalScope(outer) && ExactValues(list, outer, values) && |values| < |list| && Canonical(value)
    requires forall k: nat :: k < |values| ==> list[k].name != list[|values|].name
    requires if list[|values|].terms != []
             then
               && SumsHold(list[|values|].terms, ScopeBefore(list, values, |values|), outer)
               && ExactSum(list[|values|].terms, ScopeBefore(list, values, |values|), outer) == Some(Exact(value))
             else Exact(value) == if values == [] then 0 else Exact(values[|values| - 1]) + 1
    ensures ExactValues(list, outer, values + [value])
  {
    ExactAtLast(list, outer, values, value);
    hide ScopeBefore, ExactSum, SumsHold, ExactAt, Exact, Canonical;
    var more := values + [value];
    forall i: nat | i < |more|
      ensures ExactAt(list, outer, more, i)
    {
      if i < |values| {
        ExactAtKept(list, outer, values, value, i);
      }
    }
  }

  /** A list that is refused although all its initializers are accepted and its
  names differ: the first value has no successor, and none is needed. */
  lemma {:induction false} SuccessorNeeded()
    ensures
      var list := [Enumerator("a", [Literal(false, TWO63 - 1)]), Enumerator("b", [Literal(false, 0)])];
      var values := [Constant(LongLong, TWO63 - 1), Constant(LongLong, 0)];
      ExactValues(list, map[], values) && StopsAfter(list, map[], values[..1])
  {
    var list := [Enumerator("a", [Literal(false, TWO63 - 1)]), Enumerator("b", [Literal(false, 0)])];
    var first, second := Constant(LongLong, TWO63 - 1), Constant(LongLong, 0);
    Begins(list, map[]);
    LiteralSum(TWO63 - 1, map[]);
    ValuesPushed(list, map[], [], first);
    LiteralSum(0, ScopeBefore(list, [first], 1));
    ValuesPushed(list, map[], [first], second);
    assert [] + [first] == [first] && [first] + [second] == [first, second];
    assert [first, second][..1] == [first];
  }

  lemma {:induction false} LiteralSum(magnitude: nat, local: Scope)
    requires magnitude < TWO63 && CanonicalScope(local)
    ensures SumsHold([Literal(false, magnitude)], local, map[])
    ensures ExactSum([Literal(false, magnitude)], local, map[]) == Some(magnitude)
    ensures Canonical(Constant(LongLong, magnitude)) && Exact(Constant(LongLong, magnitude)) == magnitude
  {
    assert [Literal(false, magnitude)][..0] == [];
  }

  /** End to end: an enumerator accepted by the parser, in an enum of any kind that the
  graph accepts, is stored with bits that stand for the integer that its source spells. */
  lemma EnumeratorSurvives(list: seq<Enumerator>, outer: Scope, data: EnumBuild, target: Target, built: EnumContribution,
                           i: nat)
    requires CanonicalScope(outer) && ExactValues(list, outer, Constants(data.enumerators))
    requires StoredExactly(data, target, built) && i < |built.values|
    ensures var values := Constants(data.enumerators);
            && i < |list| && |values| == |built.values| && Sized(built.underlying, target) && Canonical(values[i])
            && var integer := ValueOf(Constant(built.underlying, built.values[i].bits), target);
               if list[i].terms != []
               then ExactSum(list[i].terms, ScopeBefore(list, values, i), outer) == Some(integer)
               else integer == if i == 0 then 0 else Exact(values[i - 1]) + 1
  {
    var values := Constants(data.enumerators);
    assert values[i] in values && (i > 0 ==> values[i - 1] in values);
    assert ExactAt(list, outer, values, i);
    hide ScopeBefore, ExactSum, ValueOf, Sized, FirstHolding, DistinctNames, Canonical, Exact;
    ExactIsValue(values[i], target);
  }

  /** Without an explicit type an unscoped enum never fails for a value that does not
  fit: its type was selected to hold them all. */
  lemma SelectedAccepts(data: EnumBuild, target: Target)
    requires data.defined && !data.scoped && data.explicit.None? && UnderlyingOf(data, target).Some?
    ensures EnumAccepted(data, target) <==> forall e <- data.enumerators :: CleanEnumerator(e, target)
  {
    var values := Constants(data.enumerators);
    FirstHoldingHolds(target, values);
    hide FirstHolding, Sized, Holds, ValueOf;
    forall e <- data.enumerators
      ensures Sized(e.value.kind, target) && Holds(UnderlyingOf(data, target).value, target, ValueOf(e.value, target))
    {
      var i: nat :| i < |data.enumerators| && data.enumerators[i] == e;
      assert values[i] in values;
    }
  }
}
