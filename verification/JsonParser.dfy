/** The JSON parser as it runs: one position that moves through the input, a
reusable loop per construct, and events given to the handler on the way. Every
method is proved against the parsing function of the same construct.
 */
module JsonParser {
  import opened Collections
  import opened Utf8
  import opened JsonText
  import opened JsonDocument

  lemma BeforeTwice(a: seq<Event>, b: seq<Event>, r: Parsed<seq<Event>>)
    ensures Before(a, Before(b, r)) == Before(a + b, r)
  {
    if r.Ok? {
      assert a + (b + r.value) == (a + b) + r.value;
    }
  }

  lemma BeforeNothing(r: Parsed<seq<Event>>)
    ensures Before([], r) == r
  {
    if r.Ok? {
      assert [] + r.value == r.value;
    }
  }

  datatype Failure = Failure(code: ErrorCode, offset: int)

  class Parser {
    const input: Bytes
    var position: nat
    var events: seq<Event>
    var error: Option<Failure>

    ghost predicate Valid()
      reads `position
    {
      position <= |input|
    }

    /** The bytes that have not been read. */
    function Left(): Bytes
      requires position <= |input|
      reads `position
    {
      input[position..]
    }

    /** The error record says what the parsing function says. */
    ghost predicate Reports(code: ErrorCode, left: nat)
      reads `error
    {
      error == Some(Failure(code, |input| - left))
    }

    constructor (text: Bytes)
      ensures Valid() && input == text && position == 0 && events == [] && error == None
    {
      input, position, events, error := text, 0, [], None;
    }

    method Fail(code: ErrorCode, offset: int) returns (ok: bool)
      modifies `error
      ensures !ok && error == Some(Failure(code, offset))
    {
      error := Some(Failure(code, offset));
      return false;
    }

    method Whitespace()
      requires Valid()
      modifies `position
      ensures Valid() && Left() == Skip(old(Left())) && old(position) <= position
    {
      ghost var start := Left();
      while position < |input| && IsSpace(input[position])
        invariant Valid() && old(position) <= position && Skip(start) == Skip(Left())
      {
        assert Left()[1..] == input[position + 1..];
        position := position + 1;
      }
    }

    /** Four hexadecimal digits. */
    method HexDigits() returns (ok: bool, code: nat)
      requires Valid() && position + 4 <= |input|
      modifies `position, `error
      ensures Valid()
      ensures match Hex4(old(Left()), 4, 0)
              case Ok(value, rest) => ok && code == value && Left() == rest && position == old(position) + 4
              case Bad(c, left) => !ok && Reports(c, left)
    {
      ghost var start := Left();
      code := 0;
      for digit := 0 to 4
        invariant Valid() && position == old(position) + digit
        invariant Hex4(start, 4, 0) == Hex4(Left(), 4 - digit, code)
      {
        var value := HexValue(input[position]);
        assert Left()[1..] == input[position + 1..] && Left()[0] == input[position];
        position := position + 1;
        if value.None? {
          ok := Fail(InvalidUnicode, position - 1);
          return;
        }
        code := code * 16 + value.value;
      }
      ok := true;
    }

    /** The second half of a surrogate pair; `offset` is that of the first backslash. */
    method ReadLowSurrogate(high: nat, offset: nat) returns (ok: bool, bytes: Bytes)
      requires Valid() && offset <= |input| && 0xD800 <= high <= 0xDBFF
      modifies `position, `error
      ensures Valid()
      ensures match LowSurrogate(high, old(Left()), |input| - offset)
              case Ok(value, rest) => ok && bytes == value && Left() == rest && position > old(position)
              case Bad(c, left) => !ok && Reports(c, left)
    {
      hide Encoded, Hex4;
      bytes := [];
      ghost var t := Left();
      if position + 6 > |input| || input[position] != BACKSLASH || input[position + 1] != 117 {
        ok := Fail(InvalidUnicode, offset);
        return;
      }
      assert t[2..] == input[position + 2..] && t[0] == BACKSLASH && t[1] == 117;
      position := position + 2;
      var low;
      ok, low := HexDigits();
      if !ok {
        return;
      }
      if low < 0xDC00 || low > 0xDFFF {
        ok := Fail(InvalidUnicode, offset);
        return;
      }
      var code := 0x10000 + (high - 0xD800) * 1024 + (low - 0xDC00);
      if Encoded(code).None? {
        ok := Fail(InvalidUnicode, offset);
        return;
      }
      ok, bytes := true, Encoded(code).value;
    }

    /** The `\\u` escape, after the letter; `offset` is that of the backslash. */
    method ReadUnicode(offset: nat) returns (ok: bool, bytes: Bytes)
      requires Valid() && offset <= |input|
      modifies `position, `error
      ensures Valid()
      ensures match UnicodeEscape(old(Left()), |input| - offset)
              case Ok(value, rest) => ok && bytes == value && Left() == rest && position > old(position)
              case Bad(c, left) => !ok && Reports(c, left)
    {
      hide Encoded, Hex4, LowSurrogate;
      bytes := [];
      if position + 4 > |input| {
        ok := Fail(InvalidUnicode, offset);
        return;
      }
      var code;
      ok, code := HexDigits();
      if !ok {
        return;
      }
      if 0xD800 <= code <= 0xDBFF {
        ok, bytes := ReadLowSurrogate(code, offset);
        return;
      }
      if 0xDC00 <= code <= 0xDFFF || Encoded(code).None? {
        ok := Fail(InvalidUnicode, offset);
        return;
      }
      ok, bytes := true, Encoded(code).value;
    }

    /** An escape, after the backslash. */
    method ReadEscape() returns (ok: bool, bytes: Bytes)
      requires Valid() && 0 < position
      modifies `position, `error
      ensures Valid()
      ensures match Escape(old(Left()))
              case Ok(value, rest) => ok && bytes == value && Left() == rest && position > old(position)
              case Bad(c, left) => !ok && Reports(c, left)
    {
      hide UnicodeEscape;
      bytes := [];
      if position >= |input| {
        ok := Fail(UnexpectedEnd, position);
        return;
      }
      var escape := input[position];
      assert Left()[0] == escape && Left()[1..] == input[position + 1..];
      position := position + 1;
      ok := true;
      if escape == QUOTE || escape == BACKSLASH || escape == SLASH {
        bytes := [escape];
      } else if escape == 98 {
        bytes := [8];
      } else if escape == 102 {
        bytes := [12];
      } else if escape == 110 {
        bytes := [10];
      } else if escape == 114 {
        bytes := [13];
      } else if escape == 116 {
        bytes := [9];
      } else if escape == 117 {
        ok, bytes := ReadUnicode(position - 2);
      } else {
        ok := Fail(InvalidEscape, position - 1);
      }
    }

    /** parse_string: copies valid raw segments and decodes the escapes between them. */
    method ReadString() returns (ok: bool, text: Bytes)
      requires Valid() && position < |input|
      modifies `position, `error
      ensures Valid()
      ensures match ParseString(old(Left()))
              case Ok(value, rest) => ok && text == value && Left() == rest && position > old(position)
              case Bad(c, left) => !ok && Reports(c, left)
    {
      hide ValidUtf8, Escape, Encoded, EscapedByte;
      ghost var start := Left();
      var quote := position;
      ghost var opening := |input| - quote;
      assert start[1..] == input[position + 1..];
      position := position + 1;
      text := [];
      var rawStart := position;
      assert input[rawStart..position] == [];
      while position < |input|
        invariant Valid() && old(position) < rawStart <= position
        invariant ParseString(start) == StringTail(Left(), input[rawStart..position], text, opening)
        decreases |input| - position
      {
        var character := input[position];
        var raw := input[rawStart..position];
        assert Left()[0] == character && Left()[1..] == input[position + 1..];
        if character == QUOTE {
          ok := Validate(raw);
          if !ok {
            ok := Fail(InvalidUnicode, rawStart);
            return;
          }
          text := text + raw;
          position := position + 1;
          return;
        }
        if character < 0x20 {
          ok := Fail(InvalidString, position);
          return;
        }
        if character != BACKSLASH {
          assert input[rawStart..position + 1] == raw + [character];
          position := position + 1;
          continue;
        }
        ok := Validate(raw);
        if !ok {
          ok := Fail(InvalidUnicode, rawStart);
          return;
        }
        position := position + 1;
        var bytes;
        ok, bytes := ReadEscape();
        if !ok {
          return;
        }
        text := text + raw + bytes;
        rawStart := position;
        assert input[rawStart..position] == [];
      }
      ok := Fail(UnexpectedEnd, quote);
    }

    method Digits()
      requires Valid()
      modifies `position
      ensures Valid() && position == old(position) + DigitRun(old(Left())) && Left() == old(Left())[DigitRun(old(Left()))..]
    {
      ghost var start := Left();
      ghost var from := position;
      while position < |input| && IsDigit(input[position])
        invariant Valid() && from <= position
        invariant DigitRun(start) == position - from + DigitRun(Left())
      {
        assert Left()[1..] == input[position + 1..];
        position := position + 1;
      }
      assert Left() == start[position - from..];
    }

    /** The grammar of parse_number; the value is taken from the exact text. */
    method ReadNumber() returns (ok: bool, event: Event)
      requires Valid() && position < |input| && (input[position] == MINUS || IsDigit(input[position]))
      modifies `position, `error
      ensures Valid()
      ensures match ParseNumber(old(Left()))
              case Ok(value, rest) => ok && event == value && Left() == rest && position > old(position)
              case Bad(c, left) => !ok && Reports(c, left)
    {
      hide DecimalValue, IntegerPart, Fraction, Exponent, DigitRun, FitsDouble;
      event := Null;
      var start := position;
      var negative := input[position] == MINUS;
      assert Left()[0] == input[position];
      if negative {
        assert Left()[1..] == input[position + 1..];
        position := position + 1;
      }
      var from := position;
      ok := ReadIntegerPart(start);
      if !ok {
        return;
      }
      var digits := input[from..position];
      assert input[from..][..position - from] == digits;
      var fraction, exponent;
      ok, fraction := ReadFraction();
      if !ok {
        return;
      }
      ok, exponent := ReadExponent();
      if !ok {
        return;
      }
      var text := input[start..position];
      assert input[start..][..|input[start..]| - |Left()|] == text;
      if fraction || exponent {
        event := Float(text);
        if !FitsDouble(text) {
          ok := Fail(InvalidNumber, start);
        }
        return;
      }
      var magnitude: int := DecimalValue(digits);
      var value := if negative then -magnitude else magnitude;
      if MIN_INT64 <= value <= MAX_INT64 {
        event := Integer(value);
      } else {
        ok := Fail(InvalidNumber, start);
      }
    }

    method ReadIntegerPart(start: nat) returns (ok: bool)
      requires Valid() && start <= |input|
      modifies `position, `error
      ensures Valid()
      ensures match IntegerPart(old(Left()), |input| - start)
              case Ok(digits, rest) => ok && position == old(position) + digits && Left() == rest
              case Bad(c, left) => !ok && Reports(c, left)
    {
      hide DigitRun;
      if position >= |input| {
        ok := Fail(InvalidNumber, start);
        return;
      }
      assert Left()[0] == input[position] && Left()[1..] == input[position + 1..];
      if input[position] == ZERO {
        position := position + 1;
        if position < |input| && IsDigit(input[position]) {
          ok := Fail(InvalidNumber, position);
          return;
        }
        return true;
      }
      if !IsDigit(input[position]) {
        ok := Fail(InvalidNumber, position);
        return;
      }
      Digits();
      return true;
    }

    method ReadFraction() returns (ok: bool, present: bool)
      requires Valid()
      modifies `position, `error
      ensures Valid() && old(position) <= position
      ensures match Fraction(old(Left()))
              case Ok(value, rest) => ok && present == value && Left() == rest
              case Bad(c, left) => !ok && Reports(c, left)
    {
      ok, present := true, false;
      if position < |input| && input[position] == 46 {
        assert Left()[1..] == input[position + 1..];
        present := true;
        position := position + 1;
        if position >= |input| || !IsDigit(input[position]) {
          ok := Fail(InvalidNumber, position);
          return;
        }
        assert DigitRun(Left()) > 0;
        Digits();
      }
    }

    method ReadExponent() returns (ok: bool, present: bool)
      requires Valid()
      modifies `position, `error
      ensures Valid() && old(position) <= position
      ensures match Exponent(old(Left()))
              case Ok(value, rest) => ok && present == value && Left() == rest
              case Bad(c, left) => !ok && Reports(c, left)
    {
      ok, present := true, false;
      if position < |input| && (input[position] == 101 || input[position] == 69) {
        ghost var s := Left();
        assert s[1..] == input[position + 1..];
        present := true;
        position := position + 1;
        if position < |input| && (input[position] == 43 || input[position] == MINUS) {
          assert s[2..] == input[position + 1..] && s[1] == input[position];
          position := position + 1;
        }
        if position >= |input| || !IsDigit(input[position]) {
          ok := Fail(InvalidNumber, position);
          return;
        }
        assert DigitRun(Left()) > 0;
        Digits();
      }
    }

    method ConsumeLiteral(literal: Bytes, event: Event) returns (ok: bool)
      requires Valid() && literal != []
      modifies `position, `error, `events
      ensures Valid()
      ensures match Literal(old(Left()), literal, event)
              case Ok(more, rest) => ok && events == old(events) + more && Left() == rest && position > old(position)
              case Bad(c, left) => !ok && Reports(c, left)
    {
      if position + |literal| > |input| || input[position..position + |literal|] != literal {
        assert |literal| <= |Left()| ==> Left()[..|literal|] == input[position..position + |literal|];
        ok := Fail(UnexpectedToken, position);
        return;
      }
      assert Left()[..|literal|] == input[position..position + |literal|];
      assert Left()[|literal|..] == input[position + |literal|..];
      position := position + |literal|;
      events := events + [event];
      return true;
    }

    /** What a parsing method promises about the parsing function's result. */
    ghost predicate Follows(r: Parsed<seq<Event>>, ok: bool, before: seq<Event>, from: nat)
      requires Valid()
      reads `position, `events, `error
    {
      match r
      case Ok(more, rest) => ok && events == before + more && Left() == rest && position > from
      case Bad(code, left) => !ok && Reports(code, left)
    }

    method ReadValue() returns (ok: bool)
      requires Valid()
      modifies `position, `error, `events
      ensures Valid() && Follows(ParseValue(old(Left())), ok, old(events), old(position))
      decreases |input| - position, 2
    {
      hide ParseString, ParseNumber, ParseObject, ParseArray, Literal;
      Whitespace();
      if position >= |input| {
        ok := Fail(UnexpectedEnd, position);
        return;
      }
      var c := input[position];
      assert Left()[0] == c;
      if c == OPEN_OBJECT {
        ok := ReadObject();
      } else if c == OPEN_ARRAY {
        ok := ReadArray();
      } else if c == QUOTE {
        var text;
        ok, text := ReadString();
        if ok {
          events := events + [Text(text)];
        }
      } else if c == 116 {
        ok := ConsumeLiteral(TRUE, Boolean(true));
      } else if c == 102 {
        ok := ConsumeLiteral(FALSE, Boolean(false));
      } else if c == 110 {
        ok := ConsumeLiteral(NULL, Null);
      } else if c == MINUS || IsDigit(c) {
        var event;
        ok, event := ReadNumber();
        if ok {
          events := events + [event];
        }
      } else {
        ok := Fail(UnexpectedToken, position);
      }
    }

    method ReadArray() returns (ok: bool)
      requires Valid() && position < |input|
      modifies `position, `error, `events
      ensures Valid() && Follows(ParseArray(old(Left())), ok, old(events), old(position))
      decreases |input| - position, 1
    {
      hide ParseValue, ParseItems, Skip;
      assert Left()[1..] == input[position + 1..];
      ghost var before := events;
      position := position + 1;
      events := events + [ArrayBegin];
      Whitespace();
      ghost var s := Left();
      if position < |input| && input[position] == CLOSE_ARRAY {
        assert s[0] == CLOSE_ARRAY && s[1..] == input[position + 1..];
        position := position + 1;
        events := events + [ArrayEnd];
        assert events == before + [ArrayBegin, ArrayEnd];
        return true;
      }
      ghost var emitted: seq<Event> := [];
      BeforeNothing(ParseItems(s));
      while true
        invariant Valid() && position > old(position) && events == before + [ArrayBegin] + emitted
        invariant ParseItems(s) == Before(emitted, ParseItems(Left()))
        decreases |input| - position
      {
        ghost var from := events;
        var more;
        ok, more := ReadItem();
        if !ok {
          return;
        }
        ghost var item := events[|from|..];
        if !more {
          assert events == before + ([ArrayBegin] + (emitted + item));
          return true;
        }
        BeforeTwice(emitted, item, ParseItems(Left()));
        emitted := emitted + item;
      }
    }

    /** One round of the item loop; `more` tells whether a comma followed. */
    method ReadItem() returns (ok: bool, more: bool)
      requires Valid()
      modifies `position, `error, `events
      ensures Valid() && (ok ==> position > old(position) && old(events) <= events)
      ensures !ok ==> match ParseItems(old(Left())) case Ok(_, _) => false case Bad(c, left) => Reports(c, left)
      ensures ok && !more ==> ParseItems(old(Left())) == Ok(events[|old(events)|..], Left())
      ensures ok && more ==> ParseItems(old(Left())) == Before(events[|old(events)|..], ParseItems(Left()))
      decreases |input| - position, 3
    {
      hide ParseValue, Skip;
      more := false;
      ghost var before, here := events, Left();
      ok := ReadValue();
      if !ok {
        return;
      }
      ghost var value := ParseValue(here).value;
      Whitespace();
      if position >= |input| {
        ok := Fail(UnexpectedEnd, position);
        return;
      }
      assert Left()[0] == input[position] && Left()[1..] == input[position + 1..];
      if input[position] == CLOSE_ARRAY {
        position := position + 1;
        events := events + [ArrayEnd];
        assert events == before + (value + [ArrayEnd]);
        return true, false;
      }
      if input[position] != COMMA {
        ok := Fail(ExpectedCommaOrEnd, position);
        return;
      }
      position := position + 1;
      return true, true;
    }

    method ReadObject() returns (ok: bool)
      requires Valid() && position < |input|
      modifies `position, `error, `events
      ensures Valid() && Follows(ParseObject(old(Left())), ok, old(events), old(position))
      decreases |input| - position, 1
    {
      hide ParseValue, ParseMembers, Skip;
      assert Left()[1..] == input[position + 1..];
      ghost var before := events;
      position := position + 1;
      events := events + [ObjectBegin];
      Whitespace();
      ghost var s := Left();
      if position < |input| && input[position] == CLOSE_OBJECT {
        assert s[0] == CLOSE_OBJECT && s[1..] == input[position + 1..];
        position := position + 1;
        events := events + [ObjectEnd];
        assert events == before + [ObjectBegin, ObjectEnd];
        return true;
      }
      ghost var emitted: seq<Event> := [];
      BeforeNothing(ParseMembers(s));
      while true
        invariant Valid() && position > old(position) && events == before + [ObjectBegin] + emitted
        invariant ParseMembers(s) == Before(emitted, ParseMembers(Left()))
        decreases |input| - position
      {
        ghost var from := events;
        var more;
        ok, more := ReadMember();
        if !ok {
          return;
        }
        ghost var member := events[|from|..];
        if !more {
          assert events == before + ([ObjectBegin] + (emitted + member));
          return true;
        }
        BeforeTwice(emitted, member, ParseMembers(Left()));
        emitted := emitted + member;
      }
    }

    /** A member name with its colon. */
    method ReadName() returns (ok: bool, name: Bytes)
      requires Valid()
      modifies `position, `error
      ensures Valid()
      ensures match ParseName(old(Left()))
              case Ok(value, rest) => ok && name == value && Left() == rest && position > old(position)
              case Bad(c, left) => !ok && Reports(c, left)
    {
      hide ParseString, Skip;
      name := [];
      Whitespace();
      if position >= |input| {
        ok := Fail(UnexpectedEnd, position);
        return;
      }
      assert Left()[0] == input[position];
      if input[position] != QUOTE {
        ok := Fail(ExpectedObjectKey, position);
        return;
      }
      ok, name := ReadString();
      if !ok {
        return;
      }
      Whitespace();
      if position >= |input| {
        ok := Fail(UnexpectedEnd, position);
        return;
      }
      assert Left()[0] == input[position] && Left()[1..] == input[position + 1..];
      if input[position] != COLON {
        ok := Fail(ExpectedColon, position);
        return;
      }
      position := position + 1;
    }

    /** One round of the member loop; `more` tells whether a comma followed. */
    method ReadMember() returns (ok: bool, more: bool)
      requires Valid()
      modifies `position, `error, `events
      ensures Valid() && (ok ==> position > old(position) && old(events) <= events)
      ensures !ok ==> match ParseMembers(old(Left())) case Ok(_, _) => false case Bad(c, left) => Reports(c, left)
      ensures ok && !more ==> ParseMembers(old(Left())) == Ok(events[|old(events)|..], Left())
      ensures ok && more ==> ParseMembers(old(Left())) == Before(events[|old(events)|..], ParseMembers(Left()))
      decreases |input| - position, 3
    {
      hide ParseValue, ParseName, Skip;
      more := false;
      ghost var before := events;
      var name;
      ok, name := ReadName();
      if !ok {
        return;
      }
      events := events + [Key(name)];
      ghost var here := Left();
      ok := ReadValue();
      if !ok {
        return;
      }
      ghost var value := ParseValue(here).value;
      assert events == before + ([Key(name)] + value);
      Whitespace();
      if position >= |input| {
        ok := Fail(UnexpectedEnd, position);
        return;
      }
      assert Left()[0] == input[position] && Left()[1..] == input[position + 1..];
      if input[position] == CLOSE_OBJECT {
        position := position + 1;
        events := events + [ObjectEnd];
        assert events == before + ([Key(name)] + value + [ObjectEnd]);
        return true, false;
      }
      if input[position] != COMMA {
        ok := Fail(ExpectedCommaOrEnd, position);
        return;
      }
      position := position + 1;
      return true, true;
    }

    /** parse() */
    method Parse() returns (ok: bool)
      requires position == 0 && events == []
      modifies this
      ensures match ParseDocument(input)
              case Ok(value, _) => ok && events == value
              case Bad(c, left) => !ok && Reports(c, left)
    {
      hide ParseValue, Skip;
      assert Left() == input;
      Whitespace();
      ok := ReadValue();
      if !ok {
        return;
      }
      NothingBefore(ParseValue(Skip(input)).value);
      Whitespace();
      assert Left() == [] <==> position == |input|;
      if position != |input| {
        ok := Fail(TrailingCharacters, position);
      }
    }
  }

  lemma NothingBefore(events: seq<Event>)
    ensures [] + events == events
  {
  }
}
