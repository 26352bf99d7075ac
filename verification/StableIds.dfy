/** Stable identities of named entities.

A name that was never seen gets a provisional identity in the order of
publication. Before an update is published its new identities are reassigned in
the byte order of the names, and everything that mentions them is permuted
along. Identities are never taken back: a name keeps its identity for ever.
 */
module StableIds {
  import opened Collections
  import opened Utf8

  /** The number of a string in the registry. */
  type Name = nat

  // ----- Byte order -----

  /** std::string_view comparison. */
  predicate Less(a: Bytes, b: Bytes) {
    b != [] && (a == [] || a[0] < b[0] || (a[0] == b[0] && Less(a[1..], b[1..])))
  }

  lemma {:induction false} LessTotal(a: Bytes, b: Bytes)
    ensures Less(a, b) || Less(b, a) || a == b
    ensures !(Less(a, b) && Less(b, a)) && !Less(a, a)
  {
    if a != [] {
      LessTotal(a[1..], a[1..]);
      if b != [] && a[0] == b[0] {
        LessTotal(a[1..], b[1..]);
        assert a == [a[0]] + a[1..] && b == [b[0]] + b[1..];
      }
    }
  }

  lemma {:induction false} LessTransitive(a: Bytes, b: Bytes, c: Bytes)
    requires Less(a, b) && Less(b, c)
    ensures Less(a, c)
  {
    if a != [] && a[0] == b[0] == c[0] {
      LessTransitive(a[1..], b[1..], c[1..]);
    }
  }

  type Spelling = map<Name, Bytes>

  /** Different names are spelled differently: the registry interns. */
  ghost predicate Interned(spelling: Spelling) {
    forall a <- spelling, b <- spelling :: spelling[a] == spelling[b] ==> a == b
  }

  /** The names that come before `name` in byte order. */
  ghost function Earlier(spelling: Spelling, names: set<Name>, name: Name): set<Name>
    requires names <= spelling.Keys && name in spelling
  {
    set m | m in names && Less(spelling[m], spelling[name])
  }

  ghost function Rank(spelling: Spelling, names: set<Name>, name: Name): nat
    requires names <= spelling.Keys && name in spelling
  {
    |Earlier(spelling, names, name)|
  }

  ghost predicate Sorted(spelling: Spelling, list: seq<Name>)
    requires forall n <- list :: n in spelling
  {
    forall i, j :: 0 <= i < j < |list| ==> Less(spelling[list[i]], spelling[list[j]])
  }

  /** In a sorted list the rank of a name is its position. */
  lemma RankIsPosition(spelling: Spelling, list: seq<Name>, i: nat)
    requires (forall n <- list :: n in spelling) && Sorted(spelling, list) && i < |list|
    ensures SetOf(list) <= spelling.Keys
    ensures Rank(spelling, SetOf(list), list[i]) == i
  {
    forall j | 0 <= j < |list|
      ensures Less(spelling[list[j]], spelling[list[i]]) <==> j < i
    {
      LessTotal(spelling[list[j]], spelling[list[i]]);
    }
    hide Less;
    forall m
      ensures m in Earlier(spelling, SetOf(list), list[i]) <==> m in SetOf(list[..i])
    {
      if m in Earlier(spelling, SetOf(list), list[i]) {
        var j :| 0 <= j < |list| && list[j] == m;
        assert list[..i][j] == m;
      }
      if m in list[..i] {
        var j :| 0 <= j < i && list[j] == m;
      }
    }
    assert Earlier(spelling, SetOf(list), list[i]) == SetOf(list[..i]);
    SortedDistinct(spelling, list);
    DistinctPrefix(list, i);
    DistinctCount(list[..i]);
  }

  lemma SortedDistinct(spelling: Spelling, list: seq<Name>)
    requires (forall n <- list :: n in spelling) && Sorted(spelling, list)
    ensures NoDuplicates(list)
  {
    forall i, j | 0 <= i < j < |list|
      ensures list[i] != list[j]
    {
      LessTotal(spelling[list[i]], spelling[list[j]]);
    }
  }

  lemma {:induction false} DistinctCount(list: seq<Name>)
    requires NoDuplicates(list)
    ensures |SetOf(list)| == |list|
  {
    if list != [] {
      var last := |list| - 1;
      DistinctPrefix(list, last);
      DistinctCount(list[..last]);
      DistinctNext(list, last);
      assert list == list[..last] + [list[last]];
      assert SetOf(list) == SetOf(list[..last]) + {list[last]};
    }
  }

  /** Sorting distinct names by their bytes. */
  method SortNames(spelling: Spelling, names: seq<Name>) returns (list: seq<Name>)
    requires Interned(spelling) && NoDuplicates(names) && forall n <- names :: n in spelling
    ensures forall n :: n in list <==> n in names
    ensures |list| == |names| && Sorted(spelling, list)
  {
    hide Less;
    list := [];
    for i := 0 to |names|
      invariant |list| == i && (forall n :: n in list <==> n in names[..i])
      invariant Sorted(spelling, list)
    {
      TakeNext(names, i);
      DistinctNext(names, i);
      assert names[i] in names;
      list := Insert(spelling, list, names[i]);
    }
    TakeAll(names);
  }

  method Insert(spelling: Spelling, list: seq<Name>, name: Name) returns (r: seq<Name>)
    requires Interned(spelling) && name in spelling && name !in list && forall n <- list :: n in spelling
    requires Sorted(spelling, list)
    ensures |r| == |list| + 1 && (forall n :: n in r <==> n in list || n == name)
    ensures Sorted(spelling, r)
  {
    var at := |list|;
    while at > 0 && Less(spelling[name], spelling[list[at - 1]])
      invariant 0 <= at <= |list|
      invariant forall j :: at <= j < |list| ==> Less(spelling[name], spelling[list[j]])
    {
      at := at - 1;
    }
    r := list[..at] + [name] + list[at..];
    InsertSorted(spelling, list, name, at);
    assert list == list[..at] + list[at..];
  }

  lemma InsertSorted(spelling: Spelling, list: seq<Name>, name: Name, at: nat)
    requires Interned(spelling) && name in spelling && name !in list && (forall n <- list :: n in spelling)
    requires Sorted(spelling, list) && at <= |list|
    requires at == 0 || !Less(spelling[name], spelling[list[at - 1]])
    requires forall j :: at <= j < |list| ==> Less(spelling[name], spelling[list[j]])
    ensures forall n <- list[..at] + [name] + list[at..] :: n in spelling
    ensures Sorted(spelling, list[..at] + [name] + list[at..])
  {
    var r := list[..at] + [name] + list[at..];
    forall j | 0 <= j < at
      ensures Less(spelling[list[j]], spelling[name])
    {
      assert list[j] in list && list[at - 1] in list;
      LessTotal(spelling[name], spelling[list[at - 1]]);
      if j < at - 1 {
        LessTransitive(spelling[list[j]], spelling[list[at - 1]], spelling[name]);
      }
    }
    hide Less;
    forall i, j | 0 <= i < j < |r|
      ensures Less(spelling[r[i]], spelling[r[j]])
    {
      var a, b := if i <= at then i else i - 1, if j <= at then j else j - 1;
      assert i != at ==> r[i] == list[a];
      assert j != at ==> r[j] == list[b];
    }
  }

  // ----- Identities -----

  type Identity = map<Name, nat>

  /** Identities are positive, below the counter, and no two names share one. */
  ghost predicate Sound(identity: Identity, next: nat) {
    && (forall n <- identity :: 0 < identity[n] < next)
    && (forall a <- identity, b <- identity :: identity[a] == identity[b] ==> a == b)
  }

  /** One declaration of an entity by a Source of the update. */
  datatype Record = Record(entity: nat, name: Name)

  /** What an identity stands for: its name and the type slot it holds. */
  datatype Entity = Entity(name: Name, live: bool, aggregate: bool, slot: nat)

  /** The state of one update. `added[k]` is the name with the provisional identity base + k. */
  datatype State = State(
    identity: Identity, entities: map<nat, Entity>, counters: map<nat, nat>,
    records: seq<Record>, changed: seq<nat>, next: nat)

  ghost predicate FreshNames(committed: Identity, base: nat, spelling: Spelling, identity: Identity, added: seq<Name>) {
    && NoDuplicates(added)
    && (forall n <- added :: n in spelling && n !in committed && n in identity)
    && (forall k: nat :: k < |added| ==> identity[added[k]] == base + k)
    && (forall n <- identity :: n in added || (n in committed && identity[n] == committed[n]))
  }

  ghost predicate RecordsAgree(now: Identity, records: seq<Record>, added: seq<Name>) {
    && (forall r <- records :: r.name in now && r.entity == now[r.name])
    && (forall n <- added :: exists r :: r in records && r.name == n)
  }

  /** Every new entity is materialized under its identity. */
  ghost predicate NewEntities(base: nat, entities: map<nat, Entity>, added: seq<Name>) {
    forall k: nat :: k < |added| ==> Holds(entities, base + k, added[k])
  }

  predicate Holds(entities: map<nat, Entity>, id: nat, name: Name) {
    id in entities && entities[id].live && entities[id].name == name
  }

  ghost predicate SlotsAgree(base: nat, s: State, added: seq<Name>) {
    && s.next == base + |added|
    && NewEntities(base, s.entities, added)
    && (forall id <- s.entities :: id < s.next)
    && (forall id <- s.counters :: id < s.next)
    && NoDuplicates(s.changed)
    && (forall id :: id in s.changed <==> id in s.entities)
  }

  /** A live entity is the one its name leads to. */
  ghost predicate LiveNamed(now: Identity, entities: map<nat, Entity>) {
    forall id <- entities :: entities[id].live ==> entities[id].name in now && now[entities[id].name] == id
  }

  ghost predicate Valid(committed: Identity, base: nat, spelling: Spelling, s: State, added: seq<Name>) {
    && 0 < base && Interned(spelling) && Sound(committed, base)
    && FreshNames(committed, base, spelling, s.identity, added)
    && RecordsAgree(committed + s.identity, s.records, added)
    && SlotsAgree(base, s, added)
    && LiveNamed(committed + s.identity, s.entities)
  }

  /** What a whole update sees is sound too. */
  lemma NowSound(committed: Identity, base: nat, spelling: Spelling, s: State, added: seq<Name>)
    requires Valid(committed, base, spelling, s, added)
    ensures Sound(committed + s.identity, s.next)
    ensures forall n <- committed :: (committed + s.identity)[n] == committed[n]
  {
    hide SlotsAgree, RecordsAgree, Interned;
    var now := committed + s.identity;
    forall n <- now
      ensures n in added ==> exists k: nat :: k < |added| && added[k] == n && now[n] == base + k
      ensures n !in added ==> n in committed && now[n] == committed[n]
      ensures n in committed ==> n !in added
    {
      if n in added {
        var k :| 0 <= k < |added| && added[k] == n;
      }
    }
    assert s.next == base + |added| by { NextIs(base, s, added); }
    forall a <- now, b <- now | now[a] == now[b]
      ensures a == b
    {
    }
  }

  lemma NextIs(base: nat, s: State, added: seq<Name>)
    requires SlotsAgree(base, s, added)
    ensures s.next == base + |added|
  {
  }

  /** The identity that a new name ends with depends on the set of new names
  alone, not on the order in which they were published or interned. */
  ghost function FinalId(base: nat, spelling: Spelling, names: set<Name>, name: Name): nat
    requires names <= spelling.Keys && name in spelling
  {
    base + Rank(spelling, names, name)
  }

  // ----- Permuting everything that mentions a provisional identity -----

  ghost predicate IsRemap(base: nat, remap: seq<nat>) {
    && (forall o: nat :: o < |remap| ==> base <= remap[o] < base + |remap|)
    && (forall o: nat, p: nat :: o < p < |remap| ==> remap[o] != remap[p])
  }

  function Mapped(base: nat, remap: seq<nat>, id: nat): nat {
    if base <= id < base + |remap| then remap[id - base] else id
  }

  /** The slots at provisional identities move to the final ones; the others stay. */
  ghost predicate Permuted<T(!new)>(before: map<nat, T>, base: nat, remap: seq<nat>, after: map<nat, T>) {
    && (forall o: nat :: o < |remap| ==> (remap[o] in after <==> base + o in before))
    && (forall o: nat :: o < |remap| && base + o in before ==> after[remap[o]] == before[base + o])
    && (forall id: nat :: id < base || id >= base + |remap| ==> (id in after <==> id in before))
    && (forall id: nat :: (id < base || id >= base + |remap|) && id in before ==> after[id] == before[id])
  }

  method Permute<T(!new)>(before: map<nat, T>, base: nat, remap: seq<nat>) returns (after: map<nat, T>)
    requires IsRemap(base, remap)
    ensures Permuted(before, base, remap, after)
  {
    after := map id | id in before && (id < base || id >= base + |remap|) :: before[id];
    for o := 0 to |remap|
      invariant forall p: nat :: p < |remap| ==> (remap[p] in after <==> p < o && base + p in before)
      invariant forall p: nat :: p < o && base + p in before ==> after[remap[p]] == before[base + p]
      invariant forall id: nat :: id < base || id >= base + |remap| ==> (id in after <==> id in before)
      invariant forall id: nat :: (id < base || id >= base + |remap|) && id in before ==> after[id] == before[id]
    {
      if base + o in before {
        after := after[remap[o] := before[base + o]];
      }
    }
  }

  method RemapRecords(records: seq<Record>, base: nat, remap: seq<nat>) returns (r: seq<Record>)
    ensures |r| == |records|
    ensures forall i :: 0 <= i < |r| ==> r[i] == Record(Mapped(base, remap, records[i].entity), records[i].name)
  {
    r := [];
    for i := 0 to |records|
      invariant |r| == i
      invariant forall j :: 0 <= j < i ==> r[j] == Record(Mapped(base, remap, records[j].entity), records[j].name)
    {
      r := r + [Record(Mapped(base, remap, records[i].entity), records[i].name)];
    }
  }

  method RemapIds(ids: seq<nat>, base: nat, remap: seq<nat>) returns (r: seq<nat>)
    ensures |r| == |ids| && forall i :: 0 <= i < |r| ==> r[i] == Mapped(base, remap, ids[i])
  {
    r := [];
    for i := 0 to |ids|
      invariant |r| == i && forall j :: 0 <= j < i ==> r[j] == Mapped(base, remap, ids[j])
    {
      r := r + [Mapped(base, remap, ids[i])];
    }
  }

  /** The names of the provisional identities, collected from the declarations. */
  method CollectNames(records: seq<Record>, base: nat, next: nat) returns (names: seq<Option<Name>>)
    requires base <= next
    ensures |names| == next - base
    ensures forall k: nat :: k < |names| ==>
              (names[k] == None ==> forall r <- records :: r.entity != base + k)
              && (names[k].Some? ==> Record(base + k, names[k].value) in records)
  {
    names := seq(next - base, i => None);
    for i := 0 to |records|
      invariant |names| == next - base
      invariant forall k: nat :: k < |names| ==>
                  (names[k] == None ==> forall r <- records[..i] :: r.entity != base + k)
                  && (names[k].Some? ==> Record(base + k, names[k].value) in records)
    {
      TakeNext(records, i);
      assert records[i] in records;
      var r := records[i];
      if base <= r.entity < next {
        names := names[r.entity - base := Some(r.name)];
      }
    }
    TakeAll(records);
  }

  /** Every provisional identity has a declaration, so every name is found. */
  lemma AllCollected(committed: Identity, base: nat, spelling: Spelling, s: State, added: seq<Name>,
                     names: seq<Option<Name>>)
    requires Valid(committed, base, spelling, s, added) && |names| == s.next - base
    requires forall k: nat :: k < |names| ==>
               (names[k] == None ==> forall r <- s.records :: r.entity != base + k)
               && (names[k].Some? ==> Record(base + k, names[k].value) in s.records)
    ensures |names| == |added| && forall k: nat :: k < |names| ==> names[k] == Some(added[k])
  {
    hide Interned;
    NowSound(committed, base, spelling, s, added);
    var now := committed + s.identity;
    forall k: nat | k < |added|
      ensures names[k] == Some(added[k])
    {
      assert added[k] in added && now[added[k]] == base + k;
      var r :| r in s.records && r.name == added[k];
      if names[k].Some? {
        assert Record(base + k, names[k].value) in s.records;
        assert now[names[k].value] == base + k;
      }
    }
  }

  // ----- After the reassignment -----

  /** `remap` sends the provisional identity of `added[k]` to the final one, its position in `list`. */
  ghost predicate Reassigns(base: nat, added: seq<Name>, list: seq<Name>, remap: seq<nat>) {
    && |remap| == |added| == |list|
    && (forall k: nat :: k < |added| ==> base <= remap[k] < base + |list| && list[remap[k] - base] == added[k])
  }

  /** Writing the position of every sorted name into the slot of its provisional identity. */
  method BuildRemap(base: nat, identity: Identity, ghost added: seq<Name>, list: seq<Name>) returns (remap: seq<nat>)
    requires NoDuplicates(added) && NoDuplicates(list) && |list| == |added|
    requires forall n :: n in list <==> n in added
    requires forall n <- added :: n in identity
    requires forall k: nat :: k < |added| ==> identity[added[k]] == base + k
    ensures Reassigns(base, added, list, remap) && IsRemap(base, remap)
  {
    remap := seq(|list|, i => 0);
    for index := 0 to |list|
      invariant |remap| == |added|
      invariant forall k: nat :: k < |added| && added[k] in list[..index] ==>
                  base <= remap[k] < base + index && list[remap[k] - base] == added[k]
    {
      TakeNext(list, index);
      DistinctNext(list, index);
      var name := list[index];
      assert name in list;
      ghost var k: nat :| k < |added| && added[k] == name;
      remap := remap[identity[name] - base := base + index];
    }
    TakeAll(list);
    forall k: nat | k < |added|
      ensures added[k] in list[..|list|]
    {
      assert added[k] in added;
    }
    RemapDistinct(base, added, list, remap);
  }

  lemma RemapDistinct(base: nat, added: seq<Name>, list: seq<Name>, remap: seq<nat>)
    requires NoDuplicates(added) && Reassigns(base, added, list, remap)
    ensures IsRemap(base, remap)
  {
    forall o: nat, p: nat | o < p < |remap|
      ensures remap[o] != remap[p]
    {
      assert list[remap[o] - base] == added[o] && list[remap[p] - base] == added[p];
    }
  }

  /** The identities of the touched names after the reassignment. */
  method AssignFinal(identity: Identity, base: nat, list: seq<Name>) returns (r: Identity)
    requires NoDuplicates(list)
    ensures forall n :: n in r <==> n in identity || n in list
    ensures forall i: nat :: i < |list| ==> r[list[i]] == base + i
    ensures forall n <- identity :: n !in list ==> r[n] == identity[n]
  {
    r := identity;
    for i := 0 to |list|
      invariant forall n :: n in r <==> n in identity || n in list[..i]
      invariant forall j: nat :: j < i ==> list[j] in r && r[list[j]] == base + j
      invariant forall n <- identity :: n !in list[..i] ==> r[n] == identity[n]
    {
      TakeNext(list, i);
      r := r[list[i] := base + i];
    }
    TakeAll(list);
  }

  /** The state after the reassignment, told from the state before. */
  ghost predicate Reassigned(base: nat, s: State, added: seq<Name>, list: seq<Name>, remap: seq<nat>, s': State) {
    && Reassigns(base, added, list, remap)
    && (forall n :: n in s'.identity <==> n in s.identity)
    && (forall i: nat :: i < |list| ==> list[i] in s'.identity && s'.identity[list[i]] == base + i)
    && (forall n <- s.identity :: n !in list ==> s'.identity[n] == s.identity[n])
    && Permuted(s.entities, base, remap, s'.entities)
    && Permuted(s.counters, base, remap, s'.counters)
    && |s'.records| == |s.records|
    && (forall i :: 0 <= i < |s.records| ==>
          s'.records[i] == Record(Mapped(base, remap, s.records[i].entity), s.records[i].name))
    && |s'.changed| == |s.changed|
    && (forall i :: 0 <= i < |s.changed| ==> s'.changed[i] == Mapped(base, remap, s.changed[i]))
    && s'.next == s.next
  }

  lemma ReassignedNames(committed: Identity, base: nat, spelling: Spelling, s: State, added: seq<Name>,
                        list: seq<Name>, remap: seq<nat>, s': State)
    requires FreshNames(committed, base, spelling, s.identity, added)
    requires Reassigned(base, s, added, list, remap, s')
    requires NoDuplicates(list) && forall n :: n in list <==> n in added
    ensures FreshNames(committed, base, spelling, s'.identity, list)
  {
  }

  /** The final identity of a name is the image of its provisional one. */
  lemma ReassignedIdentity(committed: Identity, base: nat, spelling: Spelling, s: State, added: seq<Name>,
                           list: seq<Name>, remap: seq<nat>, s': State, n: Name)
    requires Sound(committed, base) && FreshNames(committed, base, spelling, s.identity, added)
    requires Reassigned(base, s, added, list, remap, s') && (forall m :: m in list <==> m in added)
    requires NoDuplicates(list) && n in committed + s.identity
    ensures n in committed + s'.identity
    ensures (committed + s'.identity)[n] == Mapped(base, remap, (committed + s.identity)[n])
  {
    hide Permuted, NoDuplicates;
    if n in added {
      var k: nat :| k < |added| && added[k] == n;
      var i := remap[k] - base;
      assert list[i] == n && s'.identity[list[i]] == base + i;
      assert s.identity[added[k]] == base + k;
    } else {
      assert n in committed && (committed + s.identity)[n] == committed[n];
    }
  }

  lemma ReassignedRecords(committed: Identity, base: nat, spelling: Spelling, s: State, added: seq<Name>,
                          list: seq<Name>, remap: seq<nat>, s': State)
    requires Sound(committed, base) && FreshNames(committed, base, spelling, s.identity, added)
    requires RecordsAgree(committed + s.identity, s.records, added)
    requires Reassigned(base, s, added, list, remap, s') && (forall m :: m in list <==> m in added)
    requires NoDuplicates(list)
    ensures RecordsAgree(committed + s'.identity, s'.records, list)
  {
    hide FreshNames, Sound, Permuted, IsRemap, Reassigns, NoDuplicates, Mapped;
    forall r <- s'.records
      ensures r.name in committed + s'.identity && r.entity == (committed + s'.identity)[r.name]
    {
      var i :| 0 <= i < |s'.records| && s'.records[i] == r;
      assert s.records[i] in s.records;
      ReassignedIdentity(committed, base, spelling, s, added, list, remap, s', r.name);
    }
    RecordsStillThere(s.records, s'.records, list);
  }

  lemma RecordsStillThere(records: seq<Record>, records': seq<Record>, list: seq<Name>)
    requires |records'| == |records| && forall i :: 0 <= i < |records| ==> records'[i].name == records[i].name
    requires forall n <- list :: exists r :: r in records && r.name == n
    ensures forall n <- list :: exists r :: r in records' && r.name == n
  {
    forall n <- list
      ensures exists r :: r in records' && r.name == n
    {
      var r :| r in records && r.name == n;
      var i :| 0 <= i < |records| && records[i] == r;
      assert records'[i] in records';
    }
  }

  lemma PermutedBounded<T(!new)>(before: map<nat, T>, base: nat, remap: seq<nat>, after: map<nat, T>, next: nat)
    requires Permuted(before, base, remap, after) && next == base + |remap| && forall id <- before :: id < next
    ensures forall id <- after :: id < next
  {
    forall id: nat | id in after
      ensures id < next
    {
    }
  }

  lemma ReassignedEntities(base: nat, s: State, added: seq<Name>, list: seq<Name>, remap: seq<nat>, s': State)
    requires NewEntities(base, s.entities, added)
    requires Reassigns(base, added, list, remap) && Permuted(s.entities, base, remap, s'.entities)
    requires NoDuplicates(list) && (forall m :: m in list <==> m in added)
    ensures NewEntities(base, s'.entities, list)
  {
    forall i: nat | i < |list|
      ensures Holds(s'.entities, base + i, list[i])
    {
      assert list[i] in added;
      var k: nat :| k < |added| && added[k] == list[i];
      assert list[remap[k] - base] == list[i];
      assert remap[k] - base == i;
      assert Holds(s.entities, base + k, added[k]);
      assert remap[k] in s'.entities && s'.entities[remap[k]] == s.entities[base + k];
    }
  }

  lemma ReassignedLive(committed: Identity, base: nat, spelling: Spelling, s: State, added: seq<Name>,
                       list: seq<Name>, remap: seq<nat>, s': State)
    requires Sound(committed, base) && FreshNames(committed, base, spelling, s.identity, added)
    requires LiveNamed(committed + s.identity, s.entities)
    requires Reassigned(base, s, added, list, remap, s') && IsRemap(base, remap) && (forall m :: m in list <==> m in added)
    requires NoDuplicates(list)
    ensures LiveNamed(committed + s'.identity, s'.entities)
  {
    hide FreshNames, Sound, Reassigns, NoDuplicates;
    forall id: nat | id in s'.entities && s'.entities[id].live
      ensures s'.entities[id].name in committed + s'.identity && (committed + s'.identity)[s'.entities[id].name] == id
    {
      var before := Unmapped(base, remap, id);
      assert before in s.entities && s'.entities[id] == s.entities[before];
      ReassignedIdentity(committed, base, spelling, s, added, list, remap, s', s.entities[before].name);
    }
  }

  lemma ReassignedSlots(base: nat, s: State, added: seq<Name>, list: seq<Name>, remap: seq<nat>, s': State)
    requires SlotsAgree(base, s, added) && Reassigned(base, s, added, list, remap, s') && IsRemap(base, remap)
    requires NoDuplicates(list) && (forall m :: m in list <==> m in added)
    ensures SlotsAgree(base, s', list)
  {
    hide Permuted, NoDuplicates, IsRemap, Reassigns, NewEntities, Mapped;
    assert |remap| == |added| == |list| by { RemapLength(base, added, list, remap); }
    PermutedBounded(s.entities, base, remap, s'.entities, s.next);
    PermutedBounded(s.counters, base, remap, s'.counters, s.next);
    ReassignedEntities(base, s, added, list, remap, s');
    ChangedAgree(base, s.changed, s.entities, remap, s'.changed, s'.entities);
  }

  lemma RemapLength(base: nat, added: seq<Name>, list: seq<Name>, remap: seq<nat>)
    requires Reassigns(base, added, list, remap)
    ensures |remap| == |added| == |list|
  {
  }

  lemma ChangedAgree<T(!new)>(base: nat, changed: seq<nat>, slots: map<nat, T>, remap: seq<nat>,
                              changed': seq<nat>, slots': map<nat, T>)
    requires NoDuplicates(changed) && (forall id :: id in changed <==> id in slots) && IsRemap(base, remap)
    requires Permuted(slots, base, remap, slots') && |changed'| == |changed|
    requires forall i :: 0 <= i < |changed| ==> changed'[i] == Mapped(base, remap, changed[i])
    ensures NoDuplicates(changed') && forall id :: id in changed' <==> id in slots'
  {
    forall a: nat, b: nat | a != b
      ensures Mapped(base, remap, a) != Mapped(base, remap, b)
    {
    }
    forall id: nat
      ensures id in changed' <==> id in slots'
    {
      if id in changed' {
        var i :| 0 <= i < |changed'| && changed'[i] == id;
        assert changed[i] in changed;
      }
      if id in slots' {
        var before := Unmapped(base, remap, id);
        var i :| 0 <= i < |changed| && changed[i] == before;
        assert changed'[i] == id;
      }
    }
  }

  /** The identity that is sent to `id`. */
  lemma Unmapped(base: nat, remap: seq<nat>, id: nat) returns (before: nat)
    requires IsRemap(base, remap)
    ensures Mapped(base, remap, before) == id
    ensures base <= id < base + |remap| <==> base <= before < base + |remap|
  {
    if base <= id < base + |remap| {
      var o := Onto(base, remap, id);
      before := base + o;
    } else {
      before := id;
    }
  }

  function RangeSet(base: nat, n: nat): (r: set<nat>)
    ensures forall x: nat :: x in r <==> base <= x < base + n
    ensures |r| == n
  {
    if n == 0 then {} else RangeSet(base, n - 1) + {base + n - 1}
  }

  function Reached(base: nat, remap: seq<nat>, n: nat): (r: set<nat>)
    requires IsRemap(base, remap) && n <= |remap|
    ensures forall x :: x in r <==> x in remap[..n]
    ensures |r| == n
  {
    if n == 0 then {}
    else
      assert remap[..n] == remap[..n - 1] + [remap[n - 1]];
      Reached(base, remap, n - 1) + {remap[n - 1]}
  }

  /** An injection of a finite range into itself reaches everything. */
  lemma Onto(base: nat, remap: seq<nat>, id: nat) returns (o: nat)
    requires IsRemap(base, remap) && base <= id < base + |remap|
    ensures o < |remap| && remap[o] == id
  {
    var reached, range := Reached(base, remap, |remap|), RangeSet(base, |remap|);
    TakeAll(remap);
    SubsetFull(reached, range);
    assert id in range;
    o :| 0 <= o < |remap| && remap[o] == id;
  }

  lemma SubsetFull(a: set<nat>, b: set<nat>)
    requires a <= b && |a| == |b|
    ensures a == b
  {
    assert b == a + (b - a);
    assert |b - a| == 0;
  }

  /** Everything is permuted consistently, and the final identity of a new name
  is its rank among the new names. */
  lemma ReassignmentKeepsValid(committed: Identity, base: nat, spelling: Spelling, s: State, added: seq<Name>,
                               list: seq<Name>, remap: seq<nat>, s': State)
    requires Valid(committed, base, spelling, s, added) && Reassigned(base, s, added, list, remap, s') && IsRemap(base, remap)
    requires (forall n :: n in list <==> n in added) && (forall n <- list :: n in spelling) && Sorted(spelling, list)
    ensures Valid(committed, base, spelling, s', list)
    ensures SetOf(added) == SetOf(list) && SetOf(list) <= spelling.Keys
    ensures forall n <- added :: n in s'.identity && s'.identity[n] == FinalId(base, spelling, SetOf(added), n)
  {
    SortedDistinct(spelling, list);
    assert SetOf(added) == SetOf(list);
    assert SetOf(list) <= spelling.Keys;
    FinalRanks(base, spelling, list, s'.identity);
    hide Sorted, Interned, Rank, Less, IsRemap, Permuted, Reassigns, Mapped, SetOf, NoDuplicates, Sound;
    hide FreshNames, RecordsAgree, SlotsAgree, Reassigned, FinalId, LiveNamed;
    ReassignedLive(committed, base, spelling, s, added, list, remap, s');
    ReassignedNames(committed, base, spelling, s, added, list, remap, s');
    ReassignedRecords(committed, base, spelling, s, added, list, remap, s');
    ReassignedSlots(base, s, added, list, remap, s');
  }

  lemma FinalRanks(base: nat, spelling: Spelling, list: seq<Name>, identity: Identity)
    requires (forall n <- list :: n in spelling) && Sorted(spelling, list)
    requires forall i: nat :: i < |list| ==> list[i] in identity && identity[list[i]] == base + i
    ensures SetOf(list) <= spelling.Keys
    ensures forall n <- list :: n in identity && identity[n] == FinalId(base, spelling, SetOf(list), n)
  {
    hide Sorted, Rank;
    forall n <- list
      ensures n in identity && identity[n] == FinalId(base, spelling, SetOf(list), n)
    {
      var i: nat :| i < |list| && list[i] == n;
      RankIsPosition(spelling, list, i);
    }
  }

  /** Looking a name up, or giving it the next provisional identity. */
  method DeclareIn(committed: Identity, base: nat, spelling: Spelling, s: State, ghost added: seq<Name>, name: Name,
                    aggregate: bool, slot: nat)
    returns (id: nat, s': State, ghost added': seq<Name>)
    requires Valid(committed, base, spelling, s, added) && name in spelling
    ensures Valid(committed, base, spelling, s', added')
    ensures id == if name in committed + s.identity then (committed + s.identity)[name] else s.next
    ensures committed + s'.identity == (committed + s.identity)[name := id]
    ensures added' == if name in committed + s.identity then added else added + [name]
    ensures s'.entities == s.entities[id := Entity(name, true, aggregate, slot)]
  {
    hide Valid, Less, Interned;
    added' := added;
    var next := s.next;
    OverrideKnows(committed, s.identity, name);
    if name in s.identity {
      id := s.identity[name];
    } else if name in committed {
      id := committed[name];
    } else {
      id := next;
      next := next + 1;
      added' := added + [name];
    }
    OverrideOne(committed, s.identity, name, id);
    var count := if id in s.counters then s.counters[id] + 1 else 1;
    s' := State(s.identity[name := id], s.entities[id := Entity(name, true, aggregate, slot)], s.counters[id := count],
                s.records + [Record(id, name)], PushNew(s.changed, id), next);
    KeysPushed(s.counters, id, count);
    if name in committed + s.identity {
      DeclaredKnown(committed, base, spelling, s, added, id, Entity(name, true, aggregate, slot), s');
    } else {
      DeclaredNew(committed, base, spelling, s, added, Entity(name, true, aggregate, slot), s');
    }
  }

  lemma TombstonedValid(committed: Identity, base: nat, spelling: Spelling, s: State, added: seq<Name>, name: Name,
                        s': State)
    requires Valid(committed, base, spelling, s, added) && name in committed && Tombstoned(committed, s, name, s')
    ensures Valid(committed, base, spelling, s', added)
  {
    hide Interned, Less, NoDuplicates;
    forall k: nat | k < |added|
      ensures Holds(s'.entities, base + k, added[k])
    {
      assert Holds(s.entities, base + k, added[k]);
    }
    forall id: nat | id in s'.counters
      ensures id < s'.next
    {
      assert id in s'.counters.Keys;
    }
  }

  /** What giving up a committed entity does to the update. */
  ghost predicate Tombstoned(committed: Identity, s: State, name: Name, s': State)
    requires name in committed
  {
    && s'.identity == s.identity && s'.records == s.records && s'.next == s.next
    && s'.entities == s.entities[committed[name] := Entity(name, false, false, 0)]
    && s'.counters.Keys == s.counters.Keys + {committed[name]}
    && s'.changed == PushNew(s.changed, committed[name])
  }

  /** The last contribution of a committed entity is gone: its slot dies, its name keeps the identity. */
  method TombstoneIn(committed: Identity, base: nat, spelling: Spelling, s: State, ghost added: seq<Name>, name: Name)
    returns (s': State)
    requires Valid(committed, base, spelling, s, added) && name in committed
    ensures Valid(committed, base, spelling, s', added) && Tombstoned(committed, s, name, s')
  {
    hide Valid, Less, Interned;
    var id := committed[name];
    s' := s.(entities := s.entities[id := Entity(name, false, false, 0)], counters := s.counters[id := 0],
             changed := PushNew(s.changed, id));
    KeysPushed(s.counters, id, 0);
    TombstonedValid(committed, base, spelling, s, added, name, s');
  }

  lemma KeysPushed(m: map<nat, nat>, key: nat, value: nat)
    ensures m[key := value].Keys == m.Keys + {key}
  {
  }

  /** The reassignment on the values of one update. */
  method CanonicalizeIn(committed: Identity, base: nat, spelling: Spelling, s: State, ghost added: seq<Name>)
    returns (s': State, ghost list: seq<Name>)
    requires Valid(committed, base, spelling, s, added)
    ensures Valid(committed, base, spelling, s', list) && s'.next == s.next
    ensures SetOf(list) == SetOf(added) && SetOf(added) <= spelling.Keys
    ensures forall n <- added :: n in s'.identity && s'.identity[n] == FinalId(base, spelling, SetOf(added), n)
    ensures PermutedAlike(base, s.entities, s.counters, s'.entities, s'.counters, s.next - base)
  {
    hide Less, Sorted, Valid, IsRemap, Permuted, Reassigns, PermutedAlike, Interned, Rank, NoDuplicates, SetOf;
    Parts(committed, base, spelling, s, added);
    if s.next <= base {
      NothingAdded(committed, base, spelling, s, added);
      return s, added;
    }
    var names := CollectNames(s.records, base, s.next);
    AllCollected(committed, base, spelling, s, added, names);
    var unsorted: seq<Name> := [];
    for k := 0 to |names|
      invariant unsorted == added[..k]
    {
      if names[k].Some? {
        unsorted := unsorted + [names[k].value];
      }
    }
    TakeAll(added);
    var sorted := SortNames(spelling, unsorted);
    list := sorted;
    SortedDistinct(spelling, sorted);
    var remap := BuildRemap(base, s.identity, added, sorted);
    var entities := Permute(s.entities, base, remap);
    var counters := Permute(s.counters, base, remap);
    var records := RemapRecords(s.records, base, remap);
    var changed := RemapIds(s.changed, base, remap);
    var identity := AssignFinal(s.identity, base, sorted);
    s' := State(identity, entities, counters, records, changed, base + |sorted|);
    ReassignmentKeepsValid(committed, base, spelling, s, added, sorted, remap, s');
    RemapLength(base, added, sorted, remap);
    AlikeBy(base, s.entities, s.counters, entities, counters, remap);
  }

  class IdentityUpdate {
    const committed: Identity
    const base: nat
    const spelling: Spelling
    var identity: Identity
    var entities: map<nat, Entity>
    var counters: map<nat, nat>
    var records: seq<Record>
    var changed: seq<nat>
    var next: nat
    ghost var added: seq<Name>

    function Value(): State
      reads this
    {
      State(identity, entities, counters, records, changed, next)
    }

    ghost predicate Ok()
      reads this
    {
      Valid(committed, base, spelling, Value(), added)
    }

    function Now(): Identity
      reads this
    {
      committed + identity
    }

    constructor (known: Identity, counter: nat, names: Spelling)
      requires 0 < counter && Interned(names) && Sound(known, counter)
      ensures Ok() && committed == known && base == counter && spelling == names && identity == map[] && added == []
    {
      committed, base, spelling := known, counter, names;
      identity, entities, counters, records, changed, next, added := map[], map[], map[], [], [], counter, [];
    }

    /** The identity part of declare_named_enum and declare_named_type. A known
    name keeps its identity, also when its entity was tombstoned before. */
    method Declare(name: Name, aggregate: bool, slot: nat) returns (id: nat)
      requires Ok() && name in spelling
      modifies this
      ensures Ok()
      ensures id == if name in old(Now()) then old(Now())[name] else old(next)
      ensures Now() == old(Now())[name := id]
      ensures added == if name in old(Now()) then old(added) else old(added) + [name]
      ensures entities == old(entities)[id := Entity(name, true, aggregate, slot)]
    {
      hide Valid, Less, Interned;
      var s;
      ghost var names;
      id, s, names := DeclareIn(committed, base, spelling, Value(), added, name, aggregate, slot);
      identity, entities, counters, records, changed, next := s.identity, s.entities, s.counters, s.records, s.changed, s.next;
      added := names;
    }

    /** materialize when no declaration is left. The identity stays with the name. */
    method Tombstone(name: Name)
      requires Ok() && name in committed
      modifies this
      ensures Ok() && Now() == old(Now()) && added == old(added) && next == old(next)
      ensures entities == old(entities)[committed[name] := Entity(name, false, false, 0)]
    {
      hide Valid, Less, Interned;
      var s := TombstoneIn(committed, base, spelling, Value(), added, name);
      entities, counters, changed := s.entities, s.counters, s.changed;
    }

    /** canonicalize_new_stable_ids */
    method Canonicalize()
      requires Ok()
      modifies this
      ensures Ok() && SetOf(added) == SetOf(old(added)) && next == old(next)
      ensures SetOf(added) <= spelling.Keys
      ensures forall n <- old(added) :: n in identity && identity[n] == FinalId(base, spelling, SetOf(old(added)), n)
      ensures PermutedAlike(base, old(entities), old(counters), entities, counters, next - base)
    {
      hide Valid, Less, Interned, PermutedAlike, Rank, SetOf;
      var s;
      ghost var names;
      s, names := CanonicalizeIn(committed, base, spelling, Value(), added);
      identity, entities, counters, records, changed, next := s.identity, s.entities, s.counters, s.records, s.changed, s.next;
      added := names;
    }
  }

  /** Entities and counters are moved by one and the same bijection of the new identities. */
  ghost predicate PermutedAlike(base: nat, entities: map<nat, Entity>, counters: map<nat, nat>,
                                entities': map<nat, Entity>, counters': map<nat, nat>, count: int) {
    exists remap: seq<nat> ::
      IsRemap(base, remap) && |remap| == count && Permuted(entities, base, remap, entities') && Permuted(counters, base, remap, counters')
  }

  lemma AlikeBy(base: nat, entities: map<nat, Entity>, counters: map<nat, nat>,
                entities': map<nat, Entity>, counters': map<nat, nat>, remap: seq<nat>)
    requires IsRemap(base, remap) && Permuted(entities, base, remap, entities') && Permuted(counters, base, remap, counters')
    ensures PermutedAlike(base, entities, counters, entities', counters', |remap|)
  {
    hide IsRemap, Permuted;
  }

  lemma OverrideKnows(committed: Identity, identity: Identity, name: Name)
    ensures name in committed + identity <==> name in identity || name in committed
    ensures name in identity ==> (committed + identity)[name] == identity[name]
    ensures name !in identity && name in committed ==> (committed + identity)[name] == committed[name]
  {
  }

  lemma Parts(committed: Identity, base: nat, spelling: Spelling, s: State, added: seq<Name>)
    requires Valid(committed, base, spelling, s, added)
    ensures Interned(spelling) && s.next == base + |added| && NoDuplicates(added)
    ensures forall n <- added :: n in spelling && n in s.identity
    ensures forall k: nat :: k < |added| ==> s.identity[added[k]] == base + k
  {
  }

  lemma NothingAdded(committed: Identity, base: nat, spelling: Spelling, s: State, added: seq<Name>)
    requires Valid(committed, base, spelling, s, added) && s.next <= base
    ensures added == [] && SetOf(added) <= spelling.Keys
    ensures s.next == base && PermutedAlike(base, s.entities, s.counters, s.entities, s.counters, 0)
  {
    AlikeBy(base, s.entities, s.counters, s.entities, s.counters, []);
  }

  /** What a declaration does to the update, whether the name was known or not. */
  ghost predicate Declared(s: State, id: nat, entity: Entity, s': State) {
    && entity.live
    && s'.identity == s.identity[entity.name := id] && s'.entities == s.entities[id := entity]
    && s'.counters.Keys == s.counters.Keys + {id}
    && s'.changed == PushNew(s.changed, id) && s'.records == s.records + [Record(id, entity.name)]
  }

  lemma {:induction false} DeclaredKnown(committed: Identity, base: nat, spelling: Spelling, s: State, added: seq<Name>,
                                         id: nat, entity: Entity, s': State)
    requires Valid(committed, base, spelling, s, added) && entity.name in spelling
    requires entity.name in committed + s.identity && id == (committed + s.identity)[entity.name]
    requires Declared(s, id, entity, s') && s'.next == s.next
    ensures Valid(committed, base, spelling, s', added)
  {
    hide Valid, Interned, Sound, FreshNames, RecordsAgree, SlotsAgree, LiveNamed, NoDuplicates, Less;
    var name := entity.name;
    Components(committed, base, spelling, s, added);
    KnownName(committed, base, spelling, s, added, name);
    OverrideOne(committed, s.identity, name, id);
    UnknownIsNew(committed, s.identity, added, base, spelling, name);
    DeclaredRecords(committed + s.identity, s.records, added, name, id, committed + s'.identity, s'.records, added);
    DeclaredNames(committed, base, spelling, s, added, name, id, s'.identity, added);
    DeclaredSlots(base, s, added, id, entity, s', added);
    DeclaredLive(committed + s.identity, s.entities, id, entity);
    Composed(committed, base, spelling, s', added);
  }

  lemma {:induction false} DeclaredNew(committed: Identity, base: nat, spelling: Spelling, s: State, added: seq<Name>,
                                       entity: Entity, s': State)
    requires Valid(committed, base, spelling, s, added) && entity.name in spelling
    requires entity.name !in committed + s.identity
    requires Declared(s, s.next, entity, s') && s'.next == s.next + 1
    ensures Valid(committed, base, spelling, s', added + [entity.name])
  {
    hide Valid, Interned, Sound, FreshNames, RecordsAgree, SlotsAgree, LiveNamed, NoDuplicates, Less;
    var name := entity.name;
    Components(committed, base, spelling, s, added);
    OverrideOne(committed, s.identity, name, s.next);
    UnknownIsNew(committed, s.identity, added, base, spelling, name);
    DeclaredRecords(committed + s.identity, s.records, added, name, s.next, committed + s'.identity, s'.records, added + [name]);
    DeclaredNames(committed, base, spelling, s, added, name, s.next, s'.identity, added + [name]);
    DeclaredSlots(base, s, added, s.next, entity, s', added + [name]);
    DeclaredLive(committed + s.identity, s.entities, s.next, entity);
    Composed(committed, base, spelling, s', added + [name]);
  }

  lemma Components(committed: Identity, base: nat, spelling: Spelling, s: State, added: seq<Name>)
    requires Valid(committed, base, spelling, s, added)
    ensures 0 < base && Interned(spelling) && Sound(committed, base)
    ensures FreshNames(committed, base, spelling, s.identity, added)
    ensures RecordsAgree(committed + s.identity, s.records, added)
    ensures SlotsAgree(base, s, added) && s.next == base + |added|
    ensures LiveNamed(committed + s.identity, s.entities)
  {
  }

  lemma DeclaredLive(now: Identity, entities: map<nat, Entity>, id: nat, entity: Entity)
    requires LiveNamed(now, entities) && (entity.name in now ==> now[entity.name] == id)
    ensures LiveNamed(now[entity.name := id], entities[id := entity])
  {
  }

  lemma Composed(committed: Identity, base: nat, spelling: Spelling, s: State, added: seq<Name>)
    requires 0 < base && Interned(spelling) && Sound(committed, base)
    requires FreshNames(committed, base, spelling, s.identity, added)
    requires RecordsAgree(committed + s.identity, s.records, added)
    requires SlotsAgree(base, s, added) && LiveNamed(committed + s.identity, s.entities)
    ensures Valid(committed, base, spelling, s, added)
  {
  }

  lemma UnknownIsNew(committed: Identity, identity: Identity, added: seq<Name>, base: nat, spelling: Spelling,
                     name: Name)
    requires FreshNames(committed, base, spelling, identity, added)
    ensures name !in committed + identity ==> NoDuplicates(added + [name])
    ensures NoDuplicates(added)
  {
    if name !in committed + identity {
      DistinctConcat(added, [name]);
    }
  }

  /** A known name is an old one, below the base, or one of the added ones at its place. */
  lemma KnownName(committed: Identity, base: nat, spelling: Spelling, s: State, added: seq<Name>, name: Name)
    requires Valid(committed, base, spelling, s, added)
    ensures name in committed + s.identity ==>
              var id := (committed + s.identity)[name];
              id < s.next && (id >= base ==> id - base < |added| && added[id - base] == name)
  {
    if name in added {
      var k: nat :| k < |added| && added[k] == name;
    }
  }

  lemma DeclaredNames(committed: Identity, base: nat, spelling: Spelling, s: State, added: seq<Name>,
                      name: Name, id: nat, identity': Identity, added': seq<Name>)
    requires FreshNames(committed, base, spelling, s.identity, added) && name in spelling && s.next == base + |added|
    requires identity' == s.identity[name := id] && NoDuplicates(added')
    requires if name in committed + s.identity then id == (committed + s.identity)[name] && added' == added
             else id == s.next && added' == added + [name]
    ensures FreshNames(committed, base, spelling, identity', added')
  {
  }

  lemma DeclaredRecords(now: Identity, records: seq<Record>, added: seq<Name>, name: Name, id: nat,
                        now': Identity, records': seq<Record>, added': seq<Name>)
    requires RecordsAgree(now, records, added) && now' == now[name := id] && (name in now ==> now[name] == id)
    requires records' == records + [Record(id, name)] && forall n <- added' :: n in added || n == name
    ensures RecordsAgree(now', records', added')
  {
    forall n <- added'
      ensures exists r :: r in records' && r.name == n
    {
      if n == name {
        assert Record(id, name) in records';
      } else {
        var r :| r in records && r.name == n;
        assert r in records';
      }
    }
  }

  lemma DeclaredEntities(base: nat, entities: map<nat, Entity>, added: seq<Name>, id: nat, entity: Entity,
                         added': seq<Name>)
    requires NewEntities(base, entities, added) && entity.live
    requires added' == added || (added' == added + [entity.name] && id == base + |added|)
    requires added' == added && id >= base ==> id - base < |added| && added[id - base] == entity.name
    ensures NewEntities(base, entities[id := entity], added')
  {
    forall k: nat | k < |added'|
      ensures Holds(entities[id := entity], base + k, added'[k])
    {
      if k < |added| {
        assert Holds(entities, base + k, added[k]);
      }
    }
  }

  lemma DeclaredSlots(base: nat, s: State, added: seq<Name>, id: nat, entity: Entity, s': State, added': seq<Name>)
    requires SlotsAgree(base, s, added) && id < s'.next && entity.live
    requires s'.entities == s.entities[id := entity] && s'.counters.Keys == s.counters.Keys + {id}
    requires s'.changed == PushNew(s.changed, id) && s'.next == base + |added'| && s.next <= s'.next
    requires added' == added || (added' == added + [entity.name] && id == s.next)
    requires added' == added && id >= base ==> id - base < |added| && added[id - base] == entity.name
    ensures SlotsAgree(base, s', added')
  {
    DeclaredEntities(base, s.entities, added, id, entity, added');
    hide NewEntities, NoDuplicates;
    forall i: nat | i in s'.counters
      ensures i < s'.next
    {
      assert i in s'.counters.Keys;
    }
  }

  // ----- Whole runs -----

  /** What a Project keeps of names and entities. */
  datatype Names = Names(identity: Identity, entities: map<nat, Entity>, next: nat)

  /** One commit publishes what an update sees; a rebuild drops every entity that it does not declare again. */
  ghost predicate Commit(before: Names, rebuild: bool, after: Names) {
    exists spelling: Spelling, s: State, added: seq<Name> ::
      && Valid(before.identity, before.next, spelling, s, added)
      && after == Names(before.identity + s.identity, (if rebuild then map[] else before.entities) + s.entities, s.next)
  }

  ghost predicate Run(states: seq<Names>, rebuilds: seq<bool>) {
    && |states| == |rebuilds| + 1
    && states[0] == Names(map[], map[], 1)
    && forall i: nat :: i < |rebuilds| ==> Commit(states[i], rebuilds[i], states[i + 1])
  }

  /** Names are sound, and every live entity is the one its name leads to. */
  ghost predicate NamesValid(names: Names) {
    && Sound(names.identity, names.next)
    && LiveNamed(names.identity, names.entities)
  }

  lemma CommitKeeps(before: Names, rebuild: bool, after: Names)
    requires Commit(before, rebuild, after) && NamesValid(before)
    ensures NamesValid(after) && (forall n <- before.identity :: n in after.identity && after.identity[n] == before.identity[n])
  {
    var spelling: Spelling, s: State, added: seq<Name> :|
      && Valid(before.identity, before.next, spelling, s, added)
      && after == Names(before.identity + s.identity, (if rebuild then map[] else before.entities) + s.entities, s.next);
    NowSound(before.identity, before.next, spelling, s, added);
    hide Interned, SlotsAgree, FreshNames, RecordsAgree, Sound;
  }

  /** Over every run a committed name never changes its identity and no two names
  share one, although entities die, are dropped by a rebuild and are declared again:
  whenever an entity is live, it is under the identity its name had from the start. */
  lemma {:induction false} IdentitiesForEver(states: seq<Names>, rebuilds: seq<bool>, i: nat, j: nat)
    requires Run(states, rebuilds) && i <= j < |states|
    ensures NamesValid(states[j])
    ensures forall n <- states[i].identity :: n in states[j].identity && states[j].identity[n] == states[i].identity[n]
    ensures forall id <- states[j].entities :: states[j].entities[id].live && states[j].entities[id].name in states[i].identity ==>
              states[i].identity[states[j].entities[id].name] == id
    decreases j
  {
    hide Commit;
    if j > 0 {
      IdentitiesForEver(states, rebuilds, if i < j then i else j - 1, j - 1);
      assert Commit(states[j - 1], rebuilds[j - 1], states[j - 1 + 1]);
      CommitKeeps(states[j - 1], rebuilds[j - 1], states[j]);
    }
  }
}
