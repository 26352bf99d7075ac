/** Builtin integral types under a target ABI, and the integer that a constant
stands for.

A constant is a type and 64 raw bits. Its value is what the type reads in the
bits: two's complement of the type's width for a signed type, the bits as they
are for an unsigned one.
 */
module BuiltinTypes {
  import opened Collections

  datatype Type =
    | Bool | Char | SignedChar | UnsignedChar | Short | UnsignedShort | Int | UnsignedInt | Long | UnsignedLong
    | LongLong | UnsignedLongLong | WideChar | Char8 | Char16 | Char32 | Float | Double | LongDouble | Void

  /** The two supported targets, and any other value of the configuration field. */
  datatype Target = WindowsX64 | PosixX64 | Unsupported

  const TWO64 := 0x1_0000_0000_0000_0000
  const TWO63 := 0x8000_0000_0000_0000

  type Bits = b: nat | b < 0x1_0000_0000_0000_0000

  datatype Constant = Constant(kind: Type, bits: Bits)

  predicate IsIntegral(t: Type) {
    !t.Float? && !t.Double? && !t.LongDouble? && !t.Void?
  }

  /** builtin_bit_width */
  function Width(t: Type, target: Target): nat {
    match t
    case Bool | Char | SignedChar | UnsignedChar | Char8 => 8
    case Short | UnsignedShort | Char16 => 16
    case Int | UnsignedInt | Char32 | Float => 32
    case LongLong | UnsignedLongLong | Double => 64
    case Long | UnsignedLong => if target.WindowsX64? then 32 else if target.PosixX64? then 64 else 0
    case WideChar => if target.WindowsX64? then 16 else if target.PosixX64? then 32 else 0
    case LongDouble => if target.WindowsX64? then 64 else if target.PosixX64? then 128 else 0
    case Void => 0
  }

  /** builtin_is_signed */
  predicate IsSigned(t: Type, target: Target) {
    match t
    case Char => !target.Unsupported?
    case WideChar => target.PosixX64?
    case SignedChar | Short | Int | Long | LongLong => true
    case _ => false
  }

  /** A type whose width is between 1 and 64 bits under the target. */
  predicate Sized(t: Type, target: Target) {
    IsIntegral(t) && Width(t, target) != 0
  }

  function Power(width: nat): (p: int)
    ensures p > 0
  {
    if width == 8 then 0x100
    else if width == 16 then 0x1_0000
    else if width == 32 then 0x1_0000_0000
    else if width == 64 then TWO64
    else 1
  }

  /** The weight of the sign bit. */
  function Half(width: nat): (h: int)
    ensures h > 0
    ensures width == 8 || width == 16 || width == 32 || width == 64 ==> Power(width) == 2 * h
  {
    if width == 8 then 0x80
    else if width == 16 then 0x8000
    else if width == 32 then 0x8000_0000
    else if width == 64 then TWO63
    else 1
  }

  /** Shifting up and arithmetically back down: the low `width` bits as two's complement. */
  function SignExtended(bits: Bits, width: nat): int
    requires width == 8 || width == 16 || width == 32 || width == 64
  {
    var low := bits % Power(width);
    if low < Half(width) then low else low - Power(width)
  }

  lemma SizedWidths(t: Type, target: Target)
    requires Sized(t, target)
    ensures var w := Width(t, target);
            w == 8 || w == 16 || w == 32 || w == 64
  {
  }

  /** The integer that a constant stands for. */
  function ValueOf(c: Constant, target: Target): int
    requires Sized(c.kind, target)
  {
    SizedWidths(c.kind, target);
    if IsSigned(c.kind, target) then SignExtended(c.bits, Width(c.kind, target)) else c.bits
  }

  /** The range of a type. */
  predicate Holds(t: Type, target: Target, value: int)
    requires Sized(t, target)
  {
    var width := Width(t, target);
    if IsSigned(t, target) then -Half(width) <= value < Half(width) else 0 <= value < Power(width)
  }

  function BitMask(width: nat): Bits {
    if width == 8 || width == 16 || width == 32 || width == 64 then Power(width) - 1 else 0
  }

  /** A cast of a 64-bit integer to unsigned. */
  function Unsigned64(value: int): Bits
    requires -TWO63 <= value < TWO64
  {
    if value < 0 then value + TWO64 else value
  }

  /** `bits & mask` for the masks that occur, which are all ones. */
  function Masked(bits: Bits, width: nat): Bits {
    if width == 8 || width == 16 || width == 32 || width == 64 then bits % Power(width) else 0
  }

  /** fits_integral: the value is in the range of the target type. */
  function FitsIntegral(c: Constant, t: Type, target: Target): (fits: bool)
    ensures fits <==> Sized(c.kind, target) && Sized(t, target) && Holds(t, target, ValueOf(c, target))
  {
    var from, to := Width(c.kind, target), Width(t, target);
    if !IsIntegral(c.kind) || !IsIntegral(t) || from == 0 || from > 64 || to == 0 || to > 64 then false
    else if IsSigned(c.kind, target) then
      var value := SignExtended(c.bits, from);
      if IsSigned(t, target) then
        to == 64 || -Half(to) <= value <= Half(to) - 1
      else value >= 0 && value <= BitMask(to)
    else if IsSigned(t, target) then
      if to == 64 then c.bits <= TWO63 - 1 else c.bits < Half(to)
    else c.bits <= BitMask(to)
  }

  /** convert_integral: the bits of the value in the target type. */
  function ConvertIntegral(c: Constant, t: Type, target: Target): Bits
    requires Sized(c.kind, target)
  {
    SizedWidths(c.kind, target);
    var converted := if IsSigned(c.kind, target) then Unsigned64(SignExtended(c.bits, Width(c.kind, target))) else c.bits;
    Masked(converted, Width(t, target))
  }

  /** Masking a sign-extended negative value gives its two's complement in the narrower width. */
  lemma MaskedNegative(value: int, width: nat)
    requires width == 8 || width == 16 || width == 32 || width == 64
    requires -Half(width) <= value < 0
    ensures Masked(Unsigned64(value), width) == value + Power(width)
    ensures SignExtended(Masked(Unsigned64(value), width), width) == value
  {
    if width == 8 {
      assert (value + TWO64) % 0x100 == value + 0x100;
    } else if width == 16 {
      assert (value + TWO64) % 0x1_0000 == value + 0x1_0000;
    } else if width == 32 {
      assert (value + TWO64) % 0x1_0000_0000 == value + 0x1_0000_0000;
    }
  }

  lemma MaskedSmall(value: Bits, width: nat)
    requires width == 8 || width == 16 || width == 32 || width == 64
    requires value < Power(width)
    ensures Masked(value, width) == value
    ensures value < Half(width) ==> SignExtended(value, width) == value
  {
  }

  /** A value that fits survives the conversion: the converted bits, read in the
  target type, stand for the same integer. */
  lemma ConversionKeepsValue(c: Constant, t: Type, target: Target)
    requires FitsIntegral(c, t, target)
    ensures ConvertIntegral(c, t, target) < Power(Width(t, target))
    ensures ValueOf(Constant(t, ConvertIntegral(c, t, target)), target) == ValueOf(c, target)
  {
    SizedWidths(c.kind, target);
    SizedWidths(t, target);
    var value, width := ValueOf(c, target), Width(t, target);
    hide Width, IsSigned, IsIntegral, SignExtended, Masked;
    if value < 0 {
      MaskedNegative(value, width);
    } else {
      MaskedSmall(value, width);
    }
  }
}
