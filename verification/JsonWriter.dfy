/** The streaming JSON writer.

The writer keeps a stack of open containers with two flags each, and appends
text. Its ghost state says what the text means: the open containers as partial
documents, and the events that the calls stand for. A completed text is the
print of one document, so parsing it gives back the events of the calls.
 */
module JsonWriter {
  import opened Collections
  import opened Utf8
  import opened JsonText
  import opened JsonDocument

  datatype Kind = ObjectFrame | ArrayFrame

  datatype Frame = Frame(kind: Kind, first: bool, awaiting: bool)

  /** A container that is still being written. */
  datatype Open =
    | OpenArray(items: Items)
    | OpenObject(members: Members, pending: Option<Bytes>)

  function AppendItem(items: Items, j: Json): Items {
    match items
    case NoItem => MoreItems(j, NoItem)
    case MoreItems(head, tail) => MoreItems(head, AppendItem(tail, j))
  }

  function AppendMember(members: Members, name: Bytes, j: Json): Members {
    match members
    case NoMember => MoreMembers(name, j, NoMember)
    case MoreMembers(n, v, rest) => MoreMembers(n, v, AppendMember(rest, name, j))
  }

  lemma Regroup<T>(a: seq<T>, b: seq<T>, c: seq<T>, d: seq<T>, e: seq<T>)
    ensures a + (b + (c + d + e)) == (a + (b + c)) + d + e
  {
  }

  lemma {:induction false} ItemsGrow(items: Items, j: Json)
    requires WellformedItems(items) && Wellformed(j)
    ensures WellformedItems(AppendItem(items, j)) && AppendItem(items, j).MoreItems?
    ensures PrintItems(AppendItem(items, j)) == PrintItems(items) + (if items.NoItem? then [] else [COMMA]) + Print(j)
    ensures EventsOfItems(AppendItem(items, j)) == EventsOfItems(items) + Events(j)
  {
    hide Print, Events, Wellformed;
    match items
    case NoItem =>
      assert PrintItems(MoreItems(j, NoItem)) == Print(j);
      assert EventsOfItems(MoreItems(j, NoItem)) == Events(j);
    case MoreItems(head, tail) =>
      ItemsGrow(tail, j);
      var grown := AppendItem(tail, j);
      assert PrintItems(MoreItems(head, grown)) == Print(head) + ([COMMA] + PrintItems(grown));
      assert EventsOfItems(MoreItems(head, grown)) == Events(head) + EventsOfItems(grown);
      assert EventsOfItems(items) == Events(head) + EventsOfItems(tail);
      if tail.NoItem? {
        assert PrintItems(grown) == Print(j);
        assert PrintItems(items) == Print(head);
      } else {
        assert PrintItems(items) == Print(head) + ([COMMA] + PrintItems(tail));
        hide PrintItems;
        Regroup(Print(head), [COMMA], PrintItems(tail), [COMMA], Print(j));
      }
  }

  /** The text and the events of one member. */
  function MemberText(name: Bytes, value: Json): Bytes {
    Quoted(name) + [COLON] + Print(value)
  }

  lemma MembersUnfold(name: Bytes, value: Json, rest: Members)
    ensures PrintMembers(MoreMembers(name, value, rest))
         == MemberText(name, value) + (if rest.NoMember? then [] else [COMMA] + PrintMembers(rest))
    ensures EventsOfMembers(MoreMembers(name, value, rest)) == ([Key(name)] + Events(value)) + EventsOfMembers(rest)
  {
    hide Print, Events, Quoted;
  }

  lemma {:induction false} MembersGrow(members: Members, name: Bytes, j: Json)
    requires WellformedMembers(members) && Wellformed(j) && ValidUtf8(name)
    ensures WellformedMembers(AppendMember(members, name, j)) && AppendMember(members, name, j).MoreMembers?
    ensures PrintMembers(AppendMember(members, name, j))
         == PrintMembers(members) + (if members.NoMember? then [] else [COMMA]) + MemberText(name, j)
    ensures EventsOfMembers(AppendMember(members, name, j)) == EventsOfMembers(members) + ([Key(name)] + Events(j))
  {
    hide Print, Events, Wellformed, PrintMembers, EventsOfMembers, MemberText, ValidUtf8;
    match members
    case NoMember =>
      MembersUnfold(name, j, NoMember);
      NoMembers();
    case MoreMembers(n, v, rest) =>
      MembersGrow(rest, name, j);
      NoMembers();
      MembersUnfold(n, v, rest);
      MembersUnfold(n, v, AppendMember(rest, name, j));
      if rest.MoreMembers? {
        Regroup(MemberText(n, v), [COMMA], PrintMembers(rest), [COMMA], MemberText(name, j));
      }
  }

  lemma NoMembers()
    ensures PrintMembers(NoMember) == [] && EventsOfMembers(NoMember) == []
  {
  }

  predicate WellOpen(o: Open) {
    match o
    case OpenArray(items) => WellformedItems(items)
    case OpenObject(members, pending) => WellformedMembers(members) && (pending.Some? ==> ValidUtf8(pending.value))
  }

  function TextOf(o: Open): Bytes {
    match o
    case OpenArray(items) => [OPEN_ARRAY] + PrintItems(items)
    case OpenObject(members, None) => [OPEN_OBJECT] + PrintMembers(members)
    case OpenObject(members, Some(name)) =>
      [OPEN_OBJECT] + PrintMembers(members) + (if members.NoMember? then [] else [COMMA]) + Quoted(name) + [COLON]
  }

  function EventsOf(o: Open): seq<Event> {
    match o
    case OpenArray(items) => [ArrayBegin] + EventsOfItems(items)
    case OpenObject(members, None) => [ObjectBegin] + EventsOfMembers(members)
    case OpenObject(members, Some(name)) => [ObjectBegin] + EventsOfMembers(members) + [Key(name)]
  }

  /** What before_value writes in front of the next value. */
  function Joint(o: Open): Bytes {
    if o.OpenArray? && o.items.MoreItems? then [COMMA] else []
  }

  /** The text of all open containers, and with the joint for a further value. */
  function StackText(open: seq<Open>): Bytes
    decreases |open|, 0
  {
    if open == [] then [] else Lead(open[..|open| - 1]) + TextOf(open[|open| - 1])
  }

  function Lead(open: seq<Open>): Bytes
    decreases |open|, 1
  {
    if open == [] then [] else StackText(open) + Joint(open[|open| - 1])
  }

  function StackEvents(open: seq<Open>): seq<Event> {
    if open == [] then [] else StackEvents(open[..|open| - 1]) + EventsOf(open[|open| - 1])
  }

  /** A container that can take a value now. */
  predicate Accepts(o: Open) {
    o.OpenArray? || o.pending.Some?
  }

  function WithValue(o: Open, j: Json): Open
    requires Accepts(o)
  {
    match o
    case OpenArray(items) => OpenArray(AppendItem(items, j))
    case OpenObject(members, pending) => OpenObject(AppendMember(members, pending.value, j), None)
  }

  function Closed(o: Open): Json {
    match o
    case OpenArray(items) => JArray(items)
    case OpenObject(members, _) => JObject(members)
  }

  lemma ValueAdded(o: Open, j: Json)
    requires WellOpen(o) && Accepts(o) && Wellformed(j)
    ensures WellOpen(WithValue(o, j))
    ensures TextOf(WithValue(o, j)) == TextOf(o) + Joint(o) + Print(j)
    ensures EventsOf(WithValue(o, j)) == EventsOf(o) + Events(j)
  {
    hide Print, Events, PrintItems, EventsOfItems, AppendItem, PrintMembers, EventsOfMembers, AppendMember, Wellformed;
    match o
    case OpenArray(items) =>
      ItemsGrow(items, j);
      hide WellformedItems;
      Prefix3([OPEN_ARRAY], PrintItems(items), Joint(o), Print(j));
      Assoc([ArrayBegin], EventsOfItems(items), Events(j));
    case OpenObject(members, pending) =>
      var name := pending.value;
      MembersGrow(members, name, j);
      hide Quoted, WellformedMembers;
      var comma: Bytes := if members.NoMember? then [] else [COMMA];
      Prefix5([OPEN_OBJECT], PrintMembers(members), comma, Quoted(name), [COLON], Print(j));
      Prefix3([ObjectBegin], EventsOfMembers(members), [Key(name)], Events(j));
      Assoc(EventsOfMembers(members), [Key(name)], Events(j));
      NoJoint(TextOf(o), Joint(o));
  }

  lemma NoJoint(a: Bytes, b: Bytes)
    ensures b == [] ==> a + b == a
  {
  }

  lemma Prefix3<T>(a: seq<T>, b: seq<T>, c: seq<T>, d: seq<T>)
    ensures a + (b + c + d) == (a + b) + c + d
  {
  }

  lemma Prefix5<T>(a: seq<T>, b: seq<T>, c: seq<T>, d: seq<T>, e: seq<T>, f: seq<T>)
    ensures a + (b + c + (d + e + f)) == (a + b + c + d + e) + f
  {
  }

  lemma ContainerClosed(o: Open)
    requires WellOpen(o) && (o.OpenObject? ==> o.pending.None?)
    ensures Wellformed(Closed(o))
    ensures Print(Closed(o)) == TextOf(o) + [if o.OpenArray? then CLOSE_ARRAY else CLOSE_OBJECT]
    ensures Events(Closed(o)) == EventsOf(o) + [if o.OpenArray? then ArrayEnd else ObjectEnd]
  {
  }

  /** A value added to the top container, or the document itself. */
  function Added(open: seq<Open>, j: Json): seq<Open>
    requires open != [] && Accepts(open[|open| - 1])
  {
    open[..|open| - 1] + [WithValue(open[|open| - 1], j)]
  }

  /** The texts of the containers below the top, of the top, and the joint. */
  lemma StackSplit(open: seq<Open>)
    requires open != []
    ensures StackText(open) == Lead(open[..|open| - 1]) + TextOf(open[|open| - 1])
    ensures StackEvents(open) == StackEvents(open[..|open| - 1]) + EventsOf(open[|open| - 1])
    ensures Lead(open) == StackText(open) + Joint(open[|open| - 1])
  {
    hide TextOf, EventsOf, Joint;
  }

  lemma Assoc<T>(a: seq<T>, b: seq<T>, c: seq<T>)
    ensures (a + b) + c == a + (b + c)
  {
  }

  lemma StackAdded(open: seq<Open>, j: Json)
    requires open != [] && Accepts(open[|open| - 1]) && WellOpen(open[|open| - 1]) && Wellformed(j)
    ensures StackText(Added(open, j)) == Lead(open) + Print(j)
    ensures StackEvents(Added(open, j)) == StackEvents(open) + Events(j)
  {
    hide TextOf, EventsOf, WithValue, Print, Events, Joint, WellOpen, Wellformed, Lead, StackText, StackEvents;
    var n := |open| - 1;
    var more := Added(open, j);
    assert more[..n] == open[..n] && more[n] == WithValue(open[n], j) && |more| == n + 1;
    ValueAdded(open[n], j);
    StackSplit(open);
    StackSplit(more);
    Prefix3(Lead(open[..n]), TextOf(open[n]), Joint(open[n]), Print(j));
    Assoc(StackEvents(open[..n]), EventsOf(open[n]), Events(j));
  }

  /** The flags of a frame agree with the partial document; a frame below the
  top has its current value open. */
  predicate Matches(f: Frame, o: Open, top: bool) {
    match o
    case OpenArray(items) => f.kind == ArrayFrame && f.first == (top && items.NoItem?)
    case OpenObject(members, pending) =>
      && f.kind == ObjectFrame
      && f.first == (members.NoMember? && pending.None?)
      && (if top then f.awaiting == pending.Some? else pending.Some? && !f.awaiting)
  }

  ghost predicate FramesMatch(frames: seq<Frame>, open: seq<Open>) {
    && |frames| == |open|
    && forall i :: 0 <= i < |frames| ==> WellOpen(open[i]) && Matches(frames[i], open[i], i == |frames| - 1)
  }

  /** The container part of before_value: the flags after it, and the comma if one is due. */
  method Advance(frames: seq<Frame>, ghost open: seq<Open>) returns (ok: bool, joint: Bytes, frames': seq<Frame>)
    requires frames != [] && FramesMatch(frames, open)
    ensures ok == (frames[|frames| - 1].kind == ArrayFrame || frames[|frames| - 1].awaiting)
    ensures |frames'| == |frames|
    ensures ok ==>
              && Accepts(open[|open| - 1]) && joint == Joint(open[|open| - 1])
              && forall i :: 0 <= i < |frames'| ==> WellOpen(open[i]) && Matches(frames'[i], open[i], false)
  {
    hide WellOpen;
    var n := |frames| - 1;
    var frame := frames[n];
    assert Matches(frame, open[n], true);
    if frame.kind == ObjectFrame {
      if !frame.awaiting {
        return false, [], frames;
      }
      return true, [], frames[n := frame.(awaiting := false)];
    }
    var comma: Bytes := if frame.first then [] else [COMMA];
    return true, comma, frames[n := frame.(first := false)];
  }

  class Writer {
    var frames: seq<Frame>
    var rootWritten: bool
    var valid: bool
    var output: Bytes
    /** The calls so far, as events, and what they have built. */
    ghost var events: seq<Event>
    ghost var open: seq<Open>
    ghost var document: Option<Json>

    ghost predicate Valid()
      reads this
    {
      valid ==>
        && FramesMatch(frames, open)
        && (if frames == [] then
              && (rootWritten <==> document.Some?)
              && (document.Some? ==>
                    Wellformed(document.value) && output == Print(document.value) && events == Events(document.value))
              && (document.None? ==> output == [] && events == [])
            else rootWritten && document.None? && output == StackText(open) && events == StackEvents(open))
    }

    constructor ()
      ensures Valid() && valid && !rootWritten && frames == [] && events == [] && document.None?
    {
      frames, rootWritten, valid, output := [], false, true, [];
      events, open, document := [], [], None;
    }

    /** May a value be written now? */
    ghost predicate Ready()
      reads this
    {
      && valid
      && (if frames == [] then !rootWritten
          else frames[|frames| - 1].kind == ArrayFrame || frames[|frames| - 1].awaiting)
    }

    /** The state right after before_value: the joint is written, the value is not. */
    ghost predicate AboutToWrite()
      reads this
    {
      && valid && rootWritten && document.None?
      && |frames| == |open|
      && (forall i :: 0 <= i < |frames| ==> WellOpen(open[i]) && Matches(frames[i], open[i], false))
      && (open != [] ==> Accepts(open[|open| - 1]))
      && output == Lead(open) && events == StackEvents(open)
    }

    method BeforeValue() returns (ok: bool)
      requires Valid()
      modifies this
      ensures ok == old(Ready())
      ensures ok ==> AboutToWrite() && events == old(events) && |frames| == |old(frames)|
      ensures !ok ==> !valid
    {
      hide StackText, Lead, StackEvents, WellOpen, Print, Events, Wellformed;
      NothingOpen();
      if !valid {
        return false;
      }
      if frames == [] {
        if rootWritten {
          valid := false;
          return false;
        }
        rootWritten := true;
        return true;
      }
      StackSplit(open);
      var joint;
      ok, joint, frames := Advance(frames, open);
      if !ok {
        valid := false;
        return;
      }
      output := output + joint;
    }

    /** The text of a whole value has been appended. */
    ghost method Finish(j: Json)
      requires valid && rootWritten && document.None? && Wellformed(j)
      requires |frames| == |open|
      requires forall i :: 0 <= i < |frames| ==> WellOpen(open[i]) && Matches(frames[i], open[i], false)
      requires open != [] ==> Accepts(open[|open| - 1])
      requires output == Lead(open) + Print(j)
      modifies `events, `open, `document
      ensures Valid() && events == old(StackEvents(open)) + Events(j)
    {
      hide Print, Events, StackText, Lead, StackEvents, Wellformed;
      NothingOpen();
      if open == [] {
        document := Some(j);
        events := Events(j);
        assert output == Print(j);
        return;
      }
      StackAdded(open, j);
      var n := |open| - 1;
      AddedMatches(frames[n], open[n], j);
      events := StackEvents(open) + Events(j);
      open := Added(open, j);
    }

    method String(value: Bytes) returns (ok: bool)
      requires Valid()
      modifies this
      ensures Valid() && ok == (old(Ready()) && ValidUtf8(value))
      ensures ok ==> valid && events == old(events) + [Text(value)]
      ensures !ok ==> !valid
    {
      ok := BeforeValue();
      if !ok {
        return;
      }
      ok := Validate(value);
      if !ok {
        valid := false;
        return;
      }
      output := output + Quoted(value);
      Finish(JText(value));
    }

    method IntegerValue(value: Int64) returns (ok: bool)
      requires Valid()
      modifies this
      ensures Valid() && ok == old(Ready())
      ensures ok ==> valid && events == old(events) + [Integer(value)]
      ensures !ok ==> !valid
    {
      ok := BeforeValue();
      if ok {
        output := output + IntegerText(value);
        Finish(JInteger(value));
      }
    }

    method BooleanValue(value: bool) returns (ok: bool)
      requires Valid()
      modifies this
      ensures Valid() && ok == old(Ready())
      ensures ok ==> valid && events == old(events) + [Boolean(value)]
      ensures !ok ==> !valid
    {
      ok := BeforeValue();
      if ok {
        output := output + (if value then TRUE else FALSE);
        Finish(JBoolean(value));
      }
    }

    method NullValue() returns (ok: bool)
      requires Valid()
      modifies this
      ensures Valid() && ok == old(Ready())
      ensures ok ==> valid && events == old(events) + [Null]
      ensures !ok ==> !valid
    {
      ok := BeforeValue();
      if ok {
        output := output + NULL;
        Finish(JNull);
      }
    }

    method BeginArray() returns (ok: bool)
      requires Valid()
      modifies this
      ensures Valid() && ok == old(Ready())
      ensures ok ==> valid && events == old(events) + [ArrayBegin] && |frames| == |old(frames)| + 1
      ensures !ok ==> !valid
    {
      hide StackText, Lead, StackEvents, WellOpen, Joint;
      ok := BeforeValue();
      if ok {
        output := output + [OPEN_ARRAY];
        frames := frames + [Frame(ArrayFrame, true, false)];
        NewContainer();
        Push(OpenArray(NoItem));
      }
    }

    method BeginObject() returns (ok: bool)
      requires Valid()
      modifies this
      ensures Valid() && ok == old(Ready())
      ensures ok ==> valid && events == old(events) + [ObjectBegin] && |frames| == |old(frames)| + 1
      ensures !ok ==> !valid
    {
      hide StackText, Lead, StackEvents, WellOpen, Joint;
      ok := BeforeValue();
      if ok {
        output := output + [OPEN_OBJECT];
        frames := frames + [Frame(ObjectFrame, true, false)];
        NewContainer();
        Push(OpenObject(NoMember, None));
      }
    }

    /** A new container has been opened on top of those that wait for it. */
    ghost method Push(o: Open)
      requires valid && rootWritten && document.None?
      requires o == OpenArray(NoItem) || o == OpenObject(NoMember, None)
      requires |frames| == |open| + 1 && Matches(frames[|open|], o, true)
      requires forall i :: 0 <= i < |open| ==> WellOpen(open[i]) && Matches(frames[i], open[i], false)
      requires output == Lead(open) + TextOf(o) && events == StackEvents(open)
      modifies `events, `open
      ensures Valid() && events == old(events) + EventsOf(o)
    {
      var more := open + [o];
      assert more[..|open|] == open;
      events := events + EventsOf(o);
      open := more;
    }

    method KeyName(name: Bytes) returns (ok: bool)
      requires Valid()
      modifies this
      ensures Valid()
      ensures ok == old(valid && frames != [] && frames[|frames| - 1].kind == ObjectFrame
                        && !frames[|frames| - 1].awaiting && ValidUtf8(name))
      ensures ok ==> valid && events == old(events) + [Key(name)]
      ensures !ok ==> !valid
    {
      hide ValidUtf8, Quoted, StackText, Lead, StackEvents;
      if !valid || frames == [] || frames[|frames| - 1].kind != ObjectFrame || frames[|frames| - 1].awaiting {
        valid := false;
        return false;
      }
      var n := |frames| - 1;
      ghost var o := open[n];
      assert o.OpenObject? && o.pending.None? && WellOpen(o);
      var comma: Bytes := if frames[n].first then [] else [COMMA];
      ok := Validate(name);
      if !ok {
        output := output + comma;
        frames := frames[n := frames[n].(first := false)];
        valid := false;
        return;
      }
      output := output + (comma + Quoted(name) + [COLON]);
      frames := frames[n := frames[n].(first := false, awaiting := true)];
      KeyText(open, name);
      events := events + [Key(name)];
      open := open[n := OpenObject(o.members, Some(name))];
    }

    method EndArray() returns (ok: bool)
      requires Valid()
      modifies this
      ensures Valid()
      ensures ok == old(valid && frames != [] && frames[|frames| - 1].kind == ArrayFrame)
      ensures ok ==> valid && events == old(events) + [ArrayEnd]
      ensures !ok ==> !valid
    {
      if !valid || frames == [] || frames[|frames| - 1].kind != ArrayFrame {
        valid := false;
        return false;
      }
      ghost var n := |frames| - 1;
      frames := frames[..|frames| - 1];
      output := output + [CLOSE_ARRAY];
      ClosedText(open);
      ghost var j := Closed(open[n]);
      open := open[..n];
      Finish(j);
      return true;
    }

    method EndObject() returns (ok: bool)
      requires Valid()
      modifies this
      ensures Valid()
      ensures ok == old(valid && frames != [] && frames[|frames| - 1].kind == ObjectFrame && !frames[|frames| - 1].awaiting)
      ensures ok ==> valid && events == old(events) + [ObjectEnd]
      ensures !ok ==> !valid
    {
      if !valid || frames == [] || frames[|frames| - 1].kind != ObjectFrame || frames[|frames| - 1].awaiting {
        valid := false;
        return false;
      }
      ghost var n := |frames| - 1;
      frames := frames[..|frames| - 1];
      output := output + [CLOSE_OBJECT];
      ClosedText(open);
      ghost var j := Closed(open[n]);
      open := open[..n];
      Finish(j);
      return true;
    }

    /** A complete text is one document, and parsing it emits the events of the calls. */
    method Complete() returns (complete: bool)
      requires Valid()
      ensures complete == (valid && rootWritten && frames == [])
      ensures complete ==> ParseDocument(output) == Ok(events, [])
    {
      complete := valid && rootWritten && frames == [];
      if complete {
        DocumentRoundTrip(document.value);
      }
    }
  }

  lemma NewContainer()
    ensures TextOf(OpenArray(NoItem)) == [OPEN_ARRAY] && EventsOf(OpenArray(NoItem)) == [ArrayBegin]
    ensures TextOf(OpenObject(NoMember, None)) == [OPEN_OBJECT] && EventsOf(OpenObject(NoMember, None)) == [ObjectBegin]
    ensures WellOpen(OpenArray(NoItem)) && WellOpen(OpenObject(NoMember, None))
  {
  }

  lemma NothingOpen()
    ensures Lead([]) == [] && StackEvents([]) == [] && StackText([]) == []
  {
  }

  lemma AddedMatches(f: Frame, o: Open, j: Json)
    requires WellOpen(o) && Accepts(o) && Matches(f, o, false) && Wellformed(j)
    ensures WellOpen(WithValue(o, j)) && Matches(f, WithValue(o, j), true)
  {
    ValueAdded(o, j);
    if o.OpenArray? {
      ItemsGrow(o.items, j);
    } else {
      MembersGrow(o.members, o.pending.value, j);
    }
  }

  lemma KeyPending(members: Members, name: Bytes)
    ensures TextOf(OpenObject(members, Some(name)))
         == TextOf(OpenObject(members, None)) + (if members.NoMember? then [] else [COMMA]) + Quoted(name) + [COLON]
    ensures EventsOf(OpenObject(members, Some(name))) == EventsOf(OpenObject(members, None)) + [Key(name)]
  {
    hide Quoted, PrintMembers, EventsOfMembers;
  }

  lemma KeyText(open: seq<Open>, name: Bytes)
    requires open != [] && open[|open| - 1].OpenObject? && open[|open| - 1].pending.None?
    ensures var n := |open| - 1;
            var more := open[n := OpenObject(open[n].members, Some(name))];
            && StackText(more)
               == StackText(open) + ((if open[n].members.NoMember? then [] else [COMMA]) + Quoted(name) + [COLON])
            && StackEvents(more) == StackEvents(open) + [Key(name)]
  {
    hide *;
    var n := |open| - 1;
    var members := open[n].members;
    var more := open[n := OpenObject(members, Some(name))];
    var below := open[..n];
    assert more[..n] == below && open[n] == OpenObject(members, None);
    StackSplit(open);
    StackSplit(more);
    KeyPending(members, name);
    Prefix4(Lead(below), TextOf(open[n]), if members.NoMember? then [] else [COMMA], Quoted(name), [COLON]);
    Assoc(StackEvents(below), EventsOf(open[n]), [Key(name)]);
  }

  lemma Prefix4<T>(a: seq<T>, b: seq<T>, c: seq<T>, d: seq<T>, e: seq<T>)
    ensures a + (b + c + d + e) == (a + b) + (c + d + e)
  {
  }

  lemma ClosedText(open: seq<Open>)
    requires open != [] && WellOpen(open[|open| - 1])
    requires open[|open| - 1].OpenObject? ==> open[|open| - 1].pending.None?
    ensures var o := open[|open| - 1];
            && Wellformed(Closed(o))
            && StackText(open) + [if o.OpenArray? then CLOSE_ARRAY else CLOSE_OBJECT]
               == Lead(open[..|open| - 1]) + Print(Closed(o))
            && StackEvents(open) + [if o.OpenArray? then ArrayEnd else ObjectEnd]
               == StackEvents(open[..|open| - 1]) + Events(Closed(o))
  {
    hide *;
    var o, below := open[|open| - 1], open[..|open| - 1];
    ContainerClosed(o);
    StackSplit(open);
    Assoc(Lead(below), TextOf(o), [if o.OpenArray? then CLOSE_ARRAY else CLOSE_OBJECT]);
    Assoc(StackEvents(below), EventsOf(o), [if o.OpenArray? then ArrayEnd else ObjectEnd]);
  }
}
