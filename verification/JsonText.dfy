/** JSON documents as text and as events (sections 2 and 7 of RFC 8259).

`Print` is the text that the writer produces for a document, and `Events` are
the events that describe it. The parser is given here as functions from the
bytes that are left to a result and the bytes that are left afterwards.
 */
module JsonText {
  import opened Collections
  import opened Utf8

  const QUOTE: Byte := 34
  const BACKSLASH: Byte := 92
  const SLASH: Byte := 47
  const COMMA: Byte := 44
  const COLON: Byte := 58
  const MINUS: Byte := 45
  const ZERO: Byte := 48
  const OPEN_OBJECT: Byte := 123
  const CLOSE_OBJECT: Byte := 125
  const OPEN_ARRAY: Byte := 91
  const CLOSE_ARRAY: Byte := 93

  const MIN_INT64 := -0x8000_0000_0000_0000
  const MAX_INT64 := 0x7FFF_FFFF_FFFF_FFFF

  type Int64 = i: int | -0x8000_0000_0000_0000 <= i <= 0x7FFF_FFFF_FFFF_FFFF

  /** `Float` carries the source text of a number with a fraction or an exponent. */
  datatype Event =
    | ObjectBegin | ObjectEnd | ArrayBegin | ArrayEnd
    | Key(name: Bytes) | Text(value: Bytes) | Integer(number: Int64) | Float(text: Bytes) | Boolean(flag: bool) | Null

  datatype ErrorCode =
    | UnexpectedEnd | UnexpectedToken | ExpectedObjectKey | ExpectedColon | ExpectedCommaOrEnd
    | InvalidUnicode | InvalidString | InvalidEscape | InvalidNumber | TrailingCharacters

  /** `left` is how many bytes remain at the offset of the error. */
  datatype Parsed<T> = Ok(value: T, rest: Bytes) | Bad(code: ErrorCode, left: nat)

  // ----- Strings -----

  function HexDigit(n: nat): Byte
    requires n < 16
  {
    if n < 10 then 48 + n else 87 + n
  }

  /** One byte as json_append_escaped writes it. */
  function EscapedByte(b: Byte): (r: Bytes)
    ensures |r| >= 1
  {
    if b == QUOTE then [BACKSLASH, QUOTE]
    else if b == BACKSLASH then [BACKSLASH, BACKSLASH]
    else if b == 8 then [BACKSLASH, 98]
    else if b == 12 then [BACKSLASH, 102]
    else if b == 10 then [BACKSLASH, 110]
    else if b == 13 then [BACKSLASH, 114]
    else if b == 9 then [BACKSLASH, 116]
    else if b < 0x20 then [BACKSLASH, 117, 48, 48, HexDigit(b / 16), HexDigit(b % 16)]
    else [b]
  }

  function Escaped(s: Bytes): Bytes {
    if s == [] then [] else EscapedByte(s[0]) + Escaped(s[1..])
  }

  function Quoted(s: Bytes): Bytes {
    [QUOTE] + Escaped(s) + [QUOTE]
  }

  function HexValue(b: Byte): (r: Option<nat>)
    ensures r.Some? ==> r.value < 16
  {
    if 48 <= b <= 57 then Some(b - 48)
    else if 97 <= b <= 102 then Some(b - 87)
    else if 65 <= b <= 70 then Some(b - 55)
    else None
  }

  /** Four hexadecimal digits; an invalid one is the offset of the error. */
  function Hex4(s: Bytes, digits: nat, code: nat): (r: Parsed<nat>)
    requires digits <= |s|
    ensures r.Ok? ==> |r.rest| == |s| - digits
    decreases digits
  {
    if digits == 0 then Ok(code, s)
    else if HexValue(s[0]).None? then Bad(InvalidUnicode, |s|)
    else Hex4(s[1..], digits - 1, code * 16 + HexValue(s[0]).value)
  }

  /** The second half of a surrogate pair, which must follow at once. */
  function LowSurrogate(high: nat, t: Bytes, offset: nat): (r: Parsed<Bytes>)
    requires 0xD800 <= high <= 0xDBFF
    ensures r.Ok? ==> |r.rest| < |t|
  {
    if |t| < 6 || t[0] != BACKSLASH || t[1] != 117 then Bad(InvalidUnicode, offset)
    else
      match Hex4(t[2..], 4, 0)
      case Bad(code, left) => Bad(code, left)
      case Ok(low, u) =>
        if low < 0xDC00 || low > 0xDFFF then Bad(InvalidUnicode, offset)
        else Appended(0x10000 + (high - 0xD800) * 1024 + (low - 0xDC00), u, offset)
  }

  /** After `\\u`; `offset` is what remained at the backslash. */
  function UnicodeEscape(s: Bytes, offset: nat): (r: Parsed<Bytes>)
    ensures r.Ok? ==> |r.rest| < |s|
  {
    if |s| < 4 then Bad(InvalidUnicode, offset)
    else
      match Hex4(s, 4, 0)
      case Bad(code, left) => Bad(code, left)
      case Ok(high, t) =>
        if 0xD800 <= high <= 0xDBFF then LowSurrogate(high, t, offset)
        else if 0xDC00 <= high <= 0xDFFF then Bad(InvalidUnicode, offset)
        else Appended(high, t, offset)
  }

  function Appended(code: nat, rest: Bytes, offset: nat): Parsed<Bytes> {
    if Encoded(code).None? then Bad(InvalidUnicode, offset) else Ok(Encoded(code).value, rest)
  }

  /** After a backslash: the bytes that the escape stands for. */
  function Escape(s: Bytes): (r: Parsed<Bytes>)
    ensures r.Ok? ==> |r.rest| < |s|
  {
    if s == [] then Bad(UnexpectedEnd, 0)
    else if s[0] == QUOTE || s[0] == BACKSLASH || s[0] == SLASH then Ok([s[0]], s[1..])
    else if s[0] == 98 then Ok([8], s[1..])
    else if s[0] == 102 then Ok([12], s[1..])
    else if s[0] == 110 then Ok([10], s[1..])
    else if s[0] == 114 then Ok([13], s[1..])
    else if s[0] == 116 then Ok([9], s[1..])
    else if s[0] == 117 then UnicodeEscape(s[1..], |s| + 1)
    else Bad(InvalidEscape, |s|)
  }

  /** The loop of parse_string: `raw` is the unescaped segment read so far and
  `out` what was decoded before it; `start` is what remained at the opening quote. */
  function StringTail(s: Bytes, raw: Bytes, out: Bytes, start: nat): (r: Parsed<Bytes>)
    ensures r.Ok? ==> |r.rest| < |s|
    decreases |s|
  {
    if s == [] then Bad(UnexpectedEnd, start)
    else if s[0] == QUOTE then
      if !ValidUtf8(raw) then Bad(InvalidUnicode, |s| + |raw|) else Ok(out + raw, s[1..])
    else if s[0] < 0x20 then Bad(InvalidString, |s|)
    else if s[0] != BACKSLASH then StringTail(s[1..], raw + [s[0]], out, start)
    else if !ValidUtf8(raw) then Bad(InvalidUnicode, |s| + |raw|)
    else
      match Escape(s[1..])
      case Bad(code, left) => Bad(code, left)
      case Ok(bytes, rest) => StringTail(rest, [], out + raw + bytes, start)
  }

  /** parse_string, standing at the opening quote. */
  function ParseString(s: Bytes): (r: Parsed<Bytes>)
    requires s != []
    ensures r.Ok? ==> |r.rest| < |s| - 1
  {
    StringTail(s[1..], [], [], |s|)
  }

  lemma EscapeUndone(b: Byte, rest: Bytes)
    requires |EscapedByte(b)| > 1
    ensures b < 0x80 && EscapedByte(b)[0] == BACKSLASH
    ensures Escape(EscapedByte(b)[1..] + rest) == Ok([b], rest)
  {
    var e := EscapedByte(b);
    var s := e[1..] + rest;
    if |e| == 2 {
      assert s == [e[1]] + rest;
    } else {
      assert s[1..] == [48, 48, HexDigit(b / 16), HexDigit(b % 16)] + rest;
      HexUndone(b, rest);
      assert Encoded(b) == Some([b]);
    }
  }

  lemma HexUndone(b: Byte, rest: Bytes)
    requires b < 0x20
    ensures Hex4([48, 48, HexDigit(b / 16), HexDigit(b % 16)] + rest, 4, 0) == Ok(b, rest)
  {
    var s0 := [48, 48, HexDigit(b / 16), HexDigit(b % 16)] + rest;
    var s1 := [48, HexDigit(b / 16), HexDigit(b % 16)] + rest;
    var s2 := [HexDigit(b / 16), HexDigit(b % 16)] + rest;
    var s3 := [HexDigit(b % 16)] + rest;
    assert s0[1..] == s1 && s1[1..] == s2 && s2[1..] == s3 && s3[1..] == rest;
    assert HexValue(HexDigit(b / 16)) == Some(b / 16) && HexValue(HexDigit(b % 16)) == Some(b % 16);
    assert Hex4(s3, 1, b / 16) == Ok(b / 16 * 16 + b % 16, rest);
    assert Hex4(s2, 2, 0) == Hex4(s3, 1, b / 16);
    assert Hex4(s1, 3, 0) == Hex4(s2, 2, 0);
  }

  lemma PlainByte(b: Byte)
    requires |EscapedByte(b)| == 1
    ensures EscapedByte(b) == [b] && b != QUOTE && b != BACKSLASH && b >= 0x20
  {
  }

  lemma {:induction false} ScanEnd(rest: Bytes, raw: Bytes, out: Bytes, start: nat)
    requires ValidUtf8(raw)
    ensures StringTail([QUOTE] + rest, raw, out, start) == Ok(out + raw, rest)
  {
    hide ValidUtf8;
    assert ([QUOTE] + rest)[1..] == rest;
  }

  lemma {:induction false} ScanPlain(b: Byte, s: Bytes, raw: Bytes, out: Bytes, start: nat)
    requires b != QUOTE && b != BACKSLASH && b >= 0x20
    ensures StringTail([b] + s, raw, out, start) == StringTail(s, raw + [b], out, start)
  {
    hide ValidUtf8, Escape;
    assert ([b] + s)[1..] == s;
  }

  lemma {:induction false} ScanEscape(b: Byte, s: Bytes, raw: Bytes, out: Bytes, start: nat)
    requires |EscapedByte(b)| > 1 && ValidUtf8(raw)
    ensures StringTail(EscapedByte(b) + s, raw, out, start) == StringTail(s, [], out + raw + [b], start)
  {
    EscapeUndone(b, s);
    var all := EscapedByte(b) + s;
    assert all[0] == BACKSLASH && all[1..] == EscapedByte(b)[1..] + s;
    hide ValidUtf8, Escape, EscapedByte;
  }

  /** Scanning the escaped form of `t` gives `t` back, whatever was read before it. */
  lemma {:induction false} ScanUndoesEscape(t: Bytes, rest: Bytes, raw: Bytes, out: Bytes, start: nat)
    requires ValidUtf8(raw + t)
    ensures StringTail(Escaped(t) + [QUOTE] + rest, raw, out, start) == Ok(out + raw + t, rest)
    decreases |t|
  {
    hide ValidUtf8, StringTail, EscapedByte;
    var s := Escaped(t) + [QUOTE] + rest;
    if t == [] {
      assert raw + t == raw && s == [QUOTE] + rest && out + raw + t == out + raw;
      ScanEnd(rest, raw, out, start);
    } else {
      var b := t[0];
      var s' := Escaped(t[1..]) + [QUOTE] + rest;
      assert s == EscapedByte(b) + s';
      assert raw + t == raw + [b] + t[1..];
      if |EscapedByte(b)| == 1 {
        PlainByte(b);
        ScanPlain(b, s', raw, out, start);
        ScanUndoesEscape(t[1..], rest, raw + [b], out, start);
        assert out + (raw + [b]) + t[1..] == out + raw + t;
      } else {
        EscapeUndone(b, []);
        CutAtAscii(raw, b, t[1..]);
        ScanEscape(b, s', raw, out, start);
        assert [] + t[1..] == t[1..];
        ScanUndoesEscape(t[1..], rest, [], out + raw + [b], start);
        assert (out + raw + [b]) + [] + t[1..] == out + raw + t;
      }
    }
  }

  /** parse_string inverts quoted on every valid UTF-8 string. */
  lemma StringRoundTrip(t: Bytes, rest: Bytes)
    requires ValidUtf8(t)
    ensures ParseString(Quoted(t) + rest) == Ok(t, rest)
  {
    hide ValidUtf8, StringTail, Escaped;
    var s := Quoted(t) + rest;
    assert s[1..] == Escaped(t) + [QUOTE] + rest;
    EmptyBefore(t);
    ScanUndoesEscape(t, rest, [], [], |s|);
  }

  lemma EmptyBefore(t: Bytes)
    ensures [] + t == t && [] + [] + t == t
  {
  }

  /** Whatever the input, a string that the parser accepts is valid UTF-8. */
  lemma {:induction false} ScannedIsValid(s: Bytes, raw: Bytes, out: Bytes, start: nat)
    requires ValidUtf8(out) && StringTail(s, raw, out, start).Ok?
    ensures ValidUtf8(StringTail(s, raw, out, start).value)
    decreases |s|
  {
    if s[0] == QUOTE {
      ValidConcat(out, raw);
    } else if s[0] != BACKSLASH {
      ScannedIsValid(s[1..], raw + [s[0]], out, start);
    } else {
      var bytes := Escape(s[1..]).value;
      EscapeIsValid(s[1..]);
      ValidConcat(out, raw);
      ValidConcat(out + raw, bytes);
      ScannedIsValid(Escape(s[1..]).rest, [], out + raw + bytes, start);
    }
  }

  lemma EscapeIsValid(s: Bytes)
    requires Escape(s).Ok?
    ensures ValidUtf8(Escape(s).value)
  {
    var bytes := Escape(s).value;
    if s[0] == 117 {
      var code :| Scalar(code) && Encoded(code) == Some(bytes);
      CharacterValid(code);
    } else {
      assert bytes == Encoded(bytes[0]).value;
      CharacterValid(bytes[0]);
    }
  }

  lemma CharacterValid(code: nat)
    requires Scalar(code)
    ensures ValidUtf8(Encoded(code).value)
  {
    EncodeThenDecode(code, []);
    assert Encoded(code).value + [] == Encoded(code).value;
    assert Encoded(code).value[|Encoded(code).value|..] == [];
  }

  lemma {:induction false} ValidConcat(a: Bytes, b: Bytes)
    requires ValidUtf8(a) && ValidUtf8(b)
    ensures ValidUtf8(a + b)
    decreases |a|
  {
    hide First, Encoded;
    if a == [] {
      assert a + b == b;
    } else {
      var n := First(a).value.1;
      ValidConcat(a[n..], b);
      DecodeThenEncode(a);
      EncodeThenDecode(First(a).value.0, a[n..] + b);
      assert a + b == a[..n] + (a[n..] + b);
      assert (a + b)[n..] == a[n..] + b;
    }
  }

  // ----- Numbers -----

  predicate IsDigit(b: Byte) {
    48 <= b <= 57
  }

  /** The number of digits at the front. */
  function DigitRun(s: Bytes): (n: nat)
    ensures n <= |s|
    ensures forall i :: 0 <= i < n ==> IsDigit(s[i])
    ensures n < |s| ==> !IsDigit(s[n])
  {
    if s == [] || !IsDigit(s[0]) then 0 else 1 + DigitRun(s[1..])
  }

  function DigitOf(b: Byte): nat
    requires IsDigit(b)
  {
    b - 48
  }

  function DecimalValue(s: Bytes): nat
    requires forall i :: 0 <= i < |s| ==> IsDigit(s[i])
  {
    if s == [] then 0 else DecimalValue(s[..|s| - 1]) * 10 + DigitOf(s[|s| - 1])
  }

  function Decimal(n: nat): (s: Bytes)
    ensures s != [] && forall i :: 0 <= i < |s| ==> IsDigit(s[i])
    ensures n > 0 ==> s[0] != ZERO
    ensures n == 0 ==> s == [ZERO]
  {
    if n < 10 then [48 + n] else Decimal(n / 10) + [48 + n % 10]
  }

  function IntegerText(v: int): Bytes {
    if v < 0 then [MINUS] + Decimal(-v) else Decimal(v)
  }

  lemma {:induction false} DecimalUndone(n: nat)
    ensures DecimalValue(Decimal(n)) == n
  {
    var s := Decimal(n);
    if n < 10 {
      assert s[..0] == [];
    } else {
      DecimalUndone(n / 10);
      assert s[..|s| - 1] == Decimal(n / 10);
    }
  }

  /** The integer part of the grammar: no leading zero. */
  function IntegerPart(s: Bytes, start: nat): (r: Parsed<nat>)
    ensures r.Ok? ==> 0 < r.value <= |s| && r.rest == s[r.value..]
    ensures r.Ok? ==> forall i :: 0 <= i < r.value ==> IsDigit(s[i])
  {
    if s == [] then Bad(InvalidNumber, start)
    else if s[0] == ZERO then
      if |s| > 1 && IsDigit(s[1]) then Bad(InvalidNumber, |s| - 1) else Ok(1, s[1..])
    else if !IsDigit(s[0]) then Bad(InvalidNumber, |s|)
    else Ok(DigitRun(s), s[DigitRun(s)..])
  }

  /** An optional fraction; the value tells whether there was one. */
  function Fraction(s: Bytes): (r: Parsed<bool>)
    ensures r.Ok? ==> |r.rest| <= |s| && (!r.value ==> r.rest == s)
  {
    if s == [] || s[0] != 46 then Ok(false, s)
    else if DigitRun(s[1..]) == 0 then Bad(InvalidNumber, |s| - 1)
    else Ok(true, s[1..][DigitRun(s[1..])..])
  }

  function Exponent(s: Bytes): (r: Parsed<bool>)
    ensures r.Ok? ==> |r.rest| <= |s| && (!r.value ==> r.rest == s)
  {
    if s == [] || (s[0] != 101 && s[0] != 69) then Ok(false, s)
    else
      var t := if |s| > 1 && (s[1] == 43 || s[1] == MINUS) then s[2..] else s[1..];
      if DigitRun(t) == 0 then Bad(InvalidNumber, |t|) else Ok(true, t[DigitRun(t)..])
  }

  function Power(base: nat, n: nat): nat {
    if n == 0 then 1 else base * Power(base, n - 1)
  }

  /** What from_chars stores in a double: zero, or what is neither rounded to an infinity
  (halfway between the largest double and the next power of two, or beyond) nor to zero
  (half the smallest subnormal double, or below). The number is `significand` times ten
  to the `scale`. */
  predicate InDoubleRange(significand: nat, scale: int) {
    InRange(significand, scale, Power(2, 1024) - Power(2, 970), Power(2, 1075))
  }

  /** Below `limit`, and zero or above the reciprocal of `least`. */
  predicate InRange(significand: nat, scale: int, limit: int, least: nat) {
    if scale >= 0 then significand * Power(10, scale) < limit
    else
      && significand < limit * Power(10, -scale)
      && (significand == 0 || significand * least > Power(10, -scale))
  }

  lemma NextPower(n: nat)
    ensures Power(10, n + 1) == 10 * Power(10, n)
  {
  }

  lemma {:induction false} PowerOfTwo(n: nat)
    ensures Power(2, n) >= 1 && (n > 0 ==> Power(2, n) > 1)
  {
    if n > 0 {
      PowerOfTwo(n - 1);
    }
  }

  lemma Tenfold(a: int, b: int)
    ensures a * (10 * b) == 10 * (a * b) && (a * 10) * b == 10 * (a * b)
  {
  }

  lemma ProductAboveOne(a: nat, b: nat)
    requires a > 0 && b > 1
    ensures a * b > 1
  {
    assert a * b == b + (a - 1) * b;
  }

  lemma {:induction false} ShiftInRange(significand: nat, scale: int, limit: int, least: nat)
    requires least > 1
    ensures InRange(significand * 10, scale, limit, least) <==> InRange(significand, scale + 1, limit, least)
  {
    if scale >= 0 {
      NextPower(scale);
      Tenfold(significand, Power(10, scale));
    } else {
      NextPower(-scale - 1);
      Tenfold(limit, Power(10, -scale - 1));
      Tenfold(significand, least);
      if significand > 0 {
        ProductAboveOne(significand, least);
      }
      assert Power(10, 0) == 1;
    }
    hide Power;
  }

  /** Whether a number fits depends on its value, not on where the decimal point is written. */
  lemma {:induction false} ShiftFits(significand: nat, scale: int)
    ensures InDoubleRange(significand * 10, scale) <==> InDoubleRange(significand, scale + 1)
  {
    hide Power, InRange;
    PowerOfTwo(1075);
    ShiftInRange(significand, scale, Power(2, 1024) - Power(2, 970), Power(2, 1075));
  }

  /** The written exponent, with its sign. */
  function ExponentOf(s: Bytes): int {
    if s == [] then 0
    else
      var t := if |s| > 1 && (s[1] == 43 || s[1] == MINUS) then s[2..] else s[1..];
      var magnitude: int := DecimalValue(t[..DigitRun(t)]);
      if |s| > 1 && s[1] == MINUS then -magnitude else magnitude
  }

  /** Whether the number that the text spells fits a double. */
  predicate FitsDouble(text: Bytes) {
    var t := if text != [] && text[0] == MINUS then text[1..] else text;
    var whole, u := t[..DigitRun(t)], t[DigitRun(t)..];
    if u != [] && u[0] == 46 then
      var n := DigitRun(u[1..]);
      InDoubleRange(DecimalValue(whole + u[1..][..n]), ExponentOf(u[1..][n..]) - n)
    else InDoubleRange(DecimalValue(whole), ExponentOf(u))
  }

  /** parse_number: the grammar first, then the value of the exact text. */
  function ParseNumber(s: Bytes): (r: Parsed<Event>)
    requires s != [] && (s[0] == MINUS || IsDigit(s[0]))
    ensures r.Ok? ==> |r.rest| < |s|
  {
    var negative := s[0] == MINUS;
    var t := if negative then s[1..] else s;
    match IntegerPart(t, |s|)
    case Bad(code, left) => Bad(code, left)
    case Ok(digits, u) =>
      match Fraction(u)
      case Bad(code, left) => Bad(code, left)
      case Ok(fraction, v) =>
        match Exponent(v)
        case Bad(code, left) => Bad(code, left)
        case Ok(exponent, w) =>
          if fraction || exponent then
            if FitsDouble(s[..|s| - |w|]) then Ok(Float(s[..|s| - |w|]), w) else Bad(InvalidNumber, |s|)
          else
            var magnitude: int := DecimalValue(t[..digits]);
            var value := if negative then -magnitude else magnitude;
            if MIN_INT64 <= value <= MAX_INT64 then Ok(Integer(value), w) else Bad(InvalidNumber, |s|)
  }

  /** What may follow a number so that it ends there. */
  predicate EndsNumber(rest: Bytes) {
    rest == [] || rest[0] == COMMA || rest[0] == CLOSE_ARRAY || rest[0] == CLOSE_OBJECT
  }

  lemma {:induction false} RunOfDigits(d: Bytes, rest: Bytes)
    requires (forall i :: 0 <= i < |d| ==> IsDigit(d[i])) && (rest == [] || !IsDigit(rest[0]))
    ensures DigitRun(d + rest) == |d|
  {
    if d == [] {
      assert d + rest == rest;
    } else {
      RunOfDigits(d[1..], rest);
      assert (d + rest)[1..] == d[1..] + rest;
    }
  }

  lemma IntegerPartOf(magnitude: nat, rest: Bytes, start: nat)
    requires EndsNumber(rest)
    ensures var d := Decimal(magnitude);
            && IntegerPart(d + rest, start) == Ok(|d|, rest)
            && (d + rest)[..|d|] == d && IsDigit((d + rest)[0])
  {
    var d := Decimal(magnitude);
    RunOfDigits(d, rest);
    assert (d + rest)[|d|..] == rest;
  }

  lemma NoFraction(rest: Bytes)
    requires EndsNumber(rest)
    ensures Fraction(rest) == Ok(false, rest) && Exponent(rest) == Ok(false, rest)
  {
  }

  lemma PlainInteger(s: Bytes, t: Bytes, digits: nat, u: Bytes)
    requires s != [] && (s[0] == MINUS || IsDigit(s[0]))
    requires t == if s[0] == MINUS then s[1..] else s
    requires IntegerPart(t, |s|) == Ok(digits, u) && Fraction(u) == Ok(false, u) && Exponent(u) == Ok(false, u)
    ensures digits <= |t| && forall i :: 0 <= i < digits ==> IsDigit(t[i])
    ensures var magnitude: int := DecimalValue(t[..digits]);
            var value := if s[0] == MINUS then -magnitude else magnitude;
            MIN_INT64 <= value <= MAX_INT64 ==> ParseNumber(s) == Ok(Integer(value), u)
  {
    hide DecimalValue, Fraction, Exponent, DigitRun;
  }

  lemma DecimalShape(n: nat)
    ensures Decimal(n) != [] && IsDigit(Decimal(n)[0]) && Decimal(n)[0] != MINUS
  {
  }

  lemma IntegerTextIs(v: Int64, magnitude: nat, rest: Bytes)
    requires magnitude == var i: int := v; if i < 0 then -i else i
    ensures var s := IntegerText(v) + rest;
            var t := Decimal(magnitude) + rest;
            s != [] && if v < 0 then s[0] == MINUS && s[1..] == t else s == t
  {
    hide Decimal;
    var i: int := v;
    if i < 0 {
      assert IntegerText(v) + rest == [MINUS] + (Decimal(magnitude) + rest);
    }
  }

  lemma NumberRoundTrip(v: Int64, rest: Bytes)
    requires EndsNumber(rest)
    ensures var s := IntegerText(v) + rest;
            && (s[0] == MINUS || IsDigit(s[0]))
            && ParseNumber(s) == Ok(Integer(v), rest)
  {
    hide Decimal, DecimalValue, IntegerPart, Fraction, Exponent, DigitRun, ParseNumber, IntegerText;
    var i: int := v;
    var magnitude: nat := if i < 0 then -i else i;
    var d := Decimal(magnitude);
    var s := IntegerText(v) + rest;
    var t := d + rest;
    DecimalShape(magnitude);
    DecimalUndone(magnitude);
    IntegerTextIs(v, magnitude, rest);
    IntegerPartOf(magnitude, rest, |s|);
    NoFraction(rest);
    assert t[0] == d[0];
    PlainInteger(s, t, |d|, rest);
  }
}
