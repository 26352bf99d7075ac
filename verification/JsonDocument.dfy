/** Whole JSON documents: what is printed, what the events are, and the
recursive-descent parser that recovers the events from the text.
 */
module JsonDocument {
  import opened Collections
  import opened Utf8
  import opened JsonText

  datatype Json =
    | JText(text: Bytes)
    | JInteger(number: Int64)
    | JBoolean(flag: bool)
    | JNull
    | JArray(items: Items)
    | JObject(members: Members)

  datatype Items = NoItem | MoreItems(head: Json, tail: Items)

  datatype Members = NoMember | MoreMembers(name: Bytes, value: Json, rest: Members)

  const TRUE: Bytes := [116, 114, 117, 101]
  const FALSE: Bytes := [102, 97, 108, 115, 101]
  const NULL: Bytes := [110, 117, 108, 108]

  /** Every string and every name is valid UTF-8. */
  predicate Wellformed(j: Json) {
    match j
    case JText(text) => ValidUtf8(text)
    case JArray(items) => WellformedItems(items)
    case JObject(members) => WellformedMembers(members)
    case _ => true
  }

  predicate WellformedItems(items: Items) {
    items.MoreItems? ==> Wellformed(items.head) && WellformedItems(items.tail)
  }

  predicate WellformedMembers(members: Members) {
    members.MoreMembers? ==> ValidUtf8(members.name) && Wellformed(members.value) && WellformedMembers(members.rest)
  }

  // ----- Text -----

  function Print(j: Json): Bytes {
    match j
    case JText(text) => Quoted(text)
    case JInteger(number) => IntegerText(number)
    case JBoolean(flag) => if flag then TRUE else FALSE
    case JNull => NULL
    case JArray(items) => [OPEN_ARRAY] + PrintItems(items) + [CLOSE_ARRAY]
    case JObject(members) => [OPEN_OBJECT] + PrintMembers(members) + [CLOSE_OBJECT]
  }

  function PrintItems(items: Items): Bytes {
    match items
    case NoItem => []
    case MoreItems(head, tail) => Print(head) + (if tail.NoItem? then [] else [COMMA] + PrintItems(tail))
  }

  function PrintMembers(members: Members): Bytes {
    match members
    case NoMember => []
    case MoreMembers(name, value, rest) =>
      Quoted(name) + [COLON] + Print(value) + (if rest.NoMember? then [] else [COMMA] + PrintMembers(rest))
  }

  // ----- Events -----

  function Events(j: Json): seq<Event> {
    match j
    case JText(text) => [Text(text)]
    case JInteger(number) => [Integer(number)]
    case JBoolean(flag) => [Boolean(flag)]
    case JNull => [Null]
    case JArray(items) => [ArrayBegin] + EventsOfItems(items) + [ArrayEnd]
    case JObject(members) => [ObjectBegin] + EventsOfMembers(members) + [ObjectEnd]
  }

  function EventsOfItems(items: Items): seq<Event> {
    match items
    case NoItem => []
    case MoreItems(head, tail) => Events(head) + EventsOfItems(tail)
  }

  function EventsOfMembers(members: Members): seq<Event> {
    match members
    case NoMember => []
    case MoreMembers(name, value, rest) => [Key(name)] + Events(value) + EventsOfMembers(rest)
  }

  // ----- The parser -----

  predicate IsSpace(b: Byte) {
    b == 32 || b == 9 || b == 13 || b == 10
  }

  /** whitespace() */
  function Skip(s: Bytes): (r: Bytes)
    ensures |r| <= |s| && (r != [] ==> !IsSpace(r[0]))
  {
    if s != [] && IsSpace(s[0]) then Skip(s[1..]) else s
  }

  function Literal(s: Bytes, literal: Bytes, event: Event): Parsed<seq<Event>> {
    if |literal| <= |s| && s[..|literal|] == literal then Ok([event], s[|literal|..]) else Bad(UnexpectedToken, |s|)
  }

  function AfterString(r: Parsed<Bytes>): Parsed<seq<Event>> {
    match r
    case Ok(text, rest) => Ok([Text(text)], rest)
    case Bad(code, left) => Bad(code, left)
  }

  function AfterNumber(r: Parsed<Event>): Parsed<seq<Event>> {
    match r
    case Ok(event, rest) => Ok([event], rest)
    case Bad(code, left) => Bad(code, left)
  }

  function Before(events: seq<Event>, r: Parsed<seq<Event>>): Parsed<seq<Event>> {
    match r
    case Ok(more, rest) => Ok(events + more, rest)
    case Bad(code, left) => Bad(code, left)
  }

  function ParseValue(s: Bytes): (r: Parsed<seq<Event>>)
    ensures r.Ok? ==> |r.rest| < |s|
    decreases |s|, 1
  {
    var t := Skip(s);
    if t == [] then Bad(UnexpectedEnd, 0)
    else if t[0] == OPEN_OBJECT then ParseObject(t)
    else if t[0] == OPEN_ARRAY then ParseArray(t)
    else if t[0] == QUOTE then AfterString(ParseString(t))
    else if t[0] == 116 then Literal(t, TRUE, Boolean(true))
    else if t[0] == 102 then Literal(t, FALSE, Boolean(false))
    else if t[0] == 110 then Literal(t, NULL, Null)
    else if t[0] == MINUS || IsDigit(t[0]) then AfterNumber(ParseNumber(t))
    else Bad(UnexpectedToken, |t|)
  }

  function ParseObject(s: Bytes): (r: Parsed<seq<Event>>)
    requires s != []
    ensures r.Ok? ==> |r.rest| < |s|
    decreases |s|, 0
  {
    var t := Skip(s[1..]);
    if t != [] && t[0] == CLOSE_OBJECT then Ok([ObjectBegin, ObjectEnd], t[1..])
    else Before([ObjectBegin], ParseMembers(t))
  }

  /** A member name with its colon. */
  function ParseName(s: Bytes): (r: Parsed<Bytes>)
    ensures r.Ok? ==> |r.rest| < |s|
  {
    var t := Skip(s);
    if t == [] then Bad(UnexpectedEnd, 0)
    else if t[0] != QUOTE then Bad(ExpectedObjectKey, |t|)
    else
      match ParseString(t)
      case Bad(code, left) => Bad(code, left)
      case Ok(name, u) =>
        var v := Skip(u);
        if v == [] then Bad(UnexpectedEnd, 0)
        else if v[0] != COLON then Bad(ExpectedColon, |v|)
        else Ok(name, v[1..])
  }

  /** The member loop, up to and including the closing brace. */
  function ParseMembers(s: Bytes): (r: Parsed<seq<Event>>)
    ensures r.Ok? ==> |r.rest| < |s|
    decreases |s|, 2
  {
    match ParseName(s)
    case Bad(code, left) => Bad(code, left)
    case Ok(name, v) =>
      match ParseValue(v)
      case Bad(code, left) => Bad(code, left)
      case Ok(events, w) =>
        var x := Skip(w);
        if x == [] then Bad(UnexpectedEnd, 0)
        else if x[0] == CLOSE_OBJECT then Ok([Key(name)] + events + [ObjectEnd], x[1..])
        else if x[0] != COMMA then Bad(ExpectedCommaOrEnd, |x|)
        else Before([Key(name)] + events, ParseMembers(x[1..]))
  }

  function ParseArray(s: Bytes): (r: Parsed<seq<Event>>)
    requires s != []
    ensures r.Ok? ==> |r.rest| < |s|
    decreases |s|, 0
  {
    var t := Skip(s[1..]);
    if t != [] && t[0] == CLOSE_ARRAY then Ok([ArrayBegin, ArrayEnd], t[1..])
    else Before([ArrayBegin], ParseItems(t))
  }

  /** The item loop, up to and including the closing bracket. */
  function ParseItems(s: Bytes): (r: Parsed<seq<Event>>)
    ensures r.Ok? ==> |r.rest| < |s|
    decreases |s|, 2
  {
    match ParseValue(s)
    case Bad(code, left) => Bad(code, left)
    case Ok(events, w) =>
      var x := Skip(w);
      if x == [] then Bad(UnexpectedEnd, 0)
      else if x[0] == CLOSE_ARRAY then Ok(events + [ArrayEnd], x[1..])
      else if x[0] != COMMA then Bad(ExpectedCommaOrEnd, |x|)
      else Before(events, ParseItems(x[1..]))
  }

  /** parse() */
  function ParseDocument(s: Bytes): Parsed<seq<Event>> {
    match ParseValue(Skip(s))
    case Bad(code, left) => Bad(code, left)
    case Ok(events, rest) =>
      var t := Skip(rest);
      if t != [] then Bad(TrailingCharacters, |t|) else Ok(events, [])
  }

  // ----- Accepted text is valid -----

  /** Every string and every name among the events is valid UTF-8. */
  ghost predicate EventsValid(events: seq<Event>) {
    forall e <- events :: (e.Text? ==> ValidUtf8(e.value)) && (e.Key? ==> ValidUtf8(e.name))
  }

  lemma AcceptedString(s: Bytes)
    requires s != [] && ParseString(s).Ok?
    ensures ValidUtf8(ParseString(s).value)
  {
    ScannedIsValid(s[1..], [], [], |s|);
  }

  lemma {:induction false} AcceptedValue(s: Bytes)
    requires ParseValue(s).Ok?
    ensures EventsValid(ParseValue(s).value)
    decreases |s|, 1
  {
    hide ParseString, ParseNumber, ParseMembers, ParseItems, ValidUtf8;
    var t := Skip(s);
    if t[0] == OPEN_OBJECT {
      var u := Skip(t[1..]);
      if u == [] || u[0] != CLOSE_OBJECT {
        AcceptedMembers(u);
      }
    } else if t[0] == OPEN_ARRAY {
      var u := Skip(t[1..]);
      if u == [] || u[0] != CLOSE_ARRAY {
        AcceptedItems(u);
      }
    } else if t[0] == QUOTE {
      AcceptedString(t);
    } else if t[0] == MINUS || IsDigit(t[0]) {
      NumberEvent(t);
    }
  }

  lemma NumberEvent(s: Bytes)
    requires s != [] && (s[0] == MINUS || IsDigit(s[0])) && ParseNumber(s).Ok?
    ensures ParseNumber(s).value.Integer? || ParseNumber(s).value.Float?
  {
  }

  lemma {:induction false} AcceptedMembers(s: Bytes)
    requires ParseMembers(s).Ok?
    ensures EventsValid(ParseMembers(s).value)
    decreases |s|, 2
  {
    hide ParseString, ParseValue, ValidUtf8;
    var name, v := ParseName(s).value, ParseName(s).rest;
    AcceptedString(Skip(s));
    AcceptedValue(v);
    var x := Skip(ParseValue(v).rest);
    if x[0] == COMMA {
      AcceptedMembers(x[1..]);
    }
  }

  lemma {:induction false} AcceptedItems(s: Bytes)
    requires ParseItems(s).Ok?
    ensures EventsValid(ParseItems(s).value)
    decreases |s|, 2
  {
    hide ParseValue, ValidUtf8;
    AcceptedValue(s);
    var x := Skip(ParseValue(s).rest);
    if x[0] == COMMA {
      AcceptedItems(x[1..]);
    }
  }

  /** Whatever bytes are accepted as a document, its strings and names are valid UTF-8. */
  lemma AcceptedIsValid(s: Bytes)
    requires ParseDocument(s).Ok?
    ensures EventsValid(ParseDocument(s).value)
  {
    AcceptedValue(Skip(s));
  }

  // ----- The parser undoes the printer -----

  lemma PrintStarts(j: Json)
    ensures Print(j) != [] && !IsSpace(Print(j)[0])
    ensures Print(j)[0] != CLOSE_ARRAY && Print(j)[0] != CLOSE_OBJECT
  {
    if j.JInteger? {
      assert Print(j)[0] == MINUS || IsDigit(Print(j)[0]);
    }
  }

  lemma NoSpace(s: Bytes)
    requires s != [] ==> !IsSpace(s[0])
    ensures Skip(s) == s
  {
  }

  /** Parsing what was printed gives the events back and leaves what followed. */
  lemma {:induction false} ValueRoundTrip(j: Json, rest: Bytes)
    requires Wellformed(j) && EndsNumber(rest)
    ensures ParseValue(Print(j) + rest) == Ok(Events(j), rest)
  {
    hide ParseObject, ParseArray, ParseString, ParseNumber, Quoted, IntegerText;
    PrintStarts(j);
    var s := Print(j) + rest;
    NoSpace(s);
    match j
    case JText(text) =>
      StringRoundTrip(text, rest);
      QuotedStarts(text);
    case JInteger(number) =>
      NumberRoundTrip(number, rest);
      NumberStarts(number);
    case JBoolean(flag) =>
      assert s[..|Print(j)|] == Print(j);
    case JNull =>
      assert s[..|Print(j)|] == Print(j);
    case JArray(items) =>
      ArrayRoundTrip(items, rest);
    case JObject(members) =>
      ObjectRoundTrip(members, rest);
  }

  lemma QuotedStarts(text: Bytes)
    ensures Quoted(text)[0] == QUOTE
  {
  }

  lemma NumberStarts(number: Int64)
    ensures IntegerText(number) != []
    ensures IntegerText(number)[0] == MINUS || IsDigit(IntegerText(number)[0])
  {
  }

  lemma {:induction false} ArrayRoundTrip(items: Items, rest: Bytes)
    requires WellformedItems(items) && EndsNumber(rest)
    ensures ParseArray(Print(JArray(items)) + rest) == Ok(Events(JArray(items)), rest)
    decreases items, 1
  {
    hide ParseItems;
    var s := Print(JArray(items)) + rest;
    var t := PrintItems(items) + [CLOSE_ARRAY] + rest;
    assert s[1..] == t;
    if items.NoItem? {
      assert t == [CLOSE_ARRAY] + rest;
      assert t[1..] == rest;
      NoSpace(t);
      assert Events(JArray(items)) == [ArrayBegin, ArrayEnd];
    } else {
      PrintStarts(items.head);
      NoSpace(t);
      ItemsRoundTrip(items, rest);
      assert [ArrayBegin] + (EventsOfItems(items) + [ArrayEnd]) == Events(JArray(items));
    }
  }

  lemma {:induction false} ItemsRoundTrip(items: Items, rest: Bytes)
    requires WellformedItems(items) && items.MoreItems? && EndsNumber(rest)
    ensures ParseItems(PrintItems(items) + [CLOSE_ARRAY] + rest) == Ok(EventsOfItems(items) + [ArrayEnd], rest)
    decreases items, 0
  {
    hide ParseValue, Print;
    var s := PrintItems(items) + [CLOSE_ARRAY] + rest;
    if items.tail.NoItem? {
      var after := [CLOSE_ARRAY] + rest;
      assert s == Print(items.head) + after;
      ValueRoundTrip(items.head, after);
      NoSpace(after);
      assert after[1..] == rest;
      assert EventsOfItems(items) == Events(items.head);
    } else {
      var more := PrintItems(items.tail) + [CLOSE_ARRAY] + rest;
      var after := [COMMA] + more;
      assert s == Print(items.head) + after;
      ValueRoundTrip(items.head, after);
      NoSpace(after);
      assert after[1..] == more;
      ItemsRoundTrip(items.tail, rest);
      assert Events(items.head) + (EventsOfItems(items.tail) + [ArrayEnd]) == EventsOfItems(items) + [ArrayEnd];
    }
  }

  lemma {:induction false} ObjectRoundTrip(members: Members, rest: Bytes)
    requires WellformedMembers(members) && EndsNumber(rest)
    ensures ParseObject(Print(JObject(members)) + rest) == Ok(Events(JObject(members)), rest)
    decreases members, 1
  {
    hide ParseMembers;
    var s := Print(JObject(members)) + rest;
    var t := PrintMembers(members) + [CLOSE_OBJECT] + rest;
    assert s[1..] == t;
    if members.NoMember? {
      assert t == [CLOSE_OBJECT] + rest;
      assert t[1..] == rest;
      NoSpace(t);
      assert Events(JObject(members)) == [ObjectBegin, ObjectEnd];
    } else {
      QuotedStarts(members.name);
      NoSpace(t);
      MembersRoundTrip(members, rest);
      assert [ObjectBegin] + (EventsOfMembers(members) + [ObjectEnd]) == Events(JObject(members));
    }
  }

  lemma NameRoundTrip(name: Bytes, rest: Bytes)
    requires ValidUtf8(name)
    ensures ParseName(Quoted(name) + ([COLON] + rest)) == Ok(name, rest)
  {
    hide Quoted, ParseString, ValidUtf8;
    var after := [COLON] + rest;
    QuotedStarts(name);
    StringRoundTrip(name, after);
    NoSpace(Quoted(name) + after);
    NoSpace(after);
    assert after[1..] == rest;
  }

  lemma {:induction false} MembersRoundTrip(members: Members, rest: Bytes)
    requires WellformedMembers(members) && members.MoreMembers? && EndsNumber(rest)
    ensures ParseMembers(PrintMembers(members) + [CLOSE_OBJECT] + rest) == Ok(EventsOfMembers(members) + [ObjectEnd], rest)
    decreases members, 0
  {
    hide ParseValue, Print, Quoted, ParseName, ValidUtf8, Events;
    var s := PrintMembers(members) + [CLOSE_OBJECT] + rest;
    var tail := if members.rest.NoMember? then [CLOSE_OBJECT] + rest
                else [COMMA] + (PrintMembers(members.rest) + [CLOSE_OBJECT] + rest);
    assert s == Quoted(members.name) + ([COLON] + (Print(members.value) + tail));
    NameRoundTrip(members.name, Print(members.value) + tail);
    ValueRoundTrip(members.value, tail);
    NoSpace(tail);
    if members.rest.NoMember? {
      assert tail[1..] == rest;
      assert EventsOfMembers(members) == [Key(members.name)] + Events(members.value);
    } else {
      assert tail[1..] == PrintMembers(members.rest) + [CLOSE_OBJECT] + rest;
      MembersRoundTrip(members.rest, rest);
      assert ([Key(members.name)] + Events(members.value)) + (EventsOfMembers(members.rest) + [ObjectEnd])
          == EventsOfMembers(members) + [ObjectEnd];
    }
  }

  /** A printed document parses to exactly its events. */
  lemma DocumentRoundTrip(j: Json)
    requires Wellformed(j)
    ensures ParseDocument(Print(j)) == Ok(Events(j), [])
  {
    ValueRoundTrip(j, []);
    assert Print(j) + [] == Print(j);
    PrintStarts(j);
    NoSpace(Print(j));
  }
}
