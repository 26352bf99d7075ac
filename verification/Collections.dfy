/** Small sequence facts shared by the modules of the model. */
module Collections {

  datatype Option<+T> = None | Some(value: T)

  ghost predicate NoDuplicates<T(!new)>(s: seq<T>) {
    forall i, j :: 0 <= i < j < |s| ==> s[i] != s[j]
  }

  ghost function SetOf<T(!new)>(s: seq<T>): set<T> {
    set x | x in s
  }

  /** `vector[index]`, reading past the end as the default empty list. */
  function At<T>(vector: seq<seq<T>>, index: nat): seq<T> {
    if index < |vector| then vector[index] else []
  }

  /** std::find followed by push_back when absent. */
  function PushNew<T(==,!new)>(s: seq<T>, x: T): (r: seq<T>)
    ensures SetOf(r) == SetOf(s) + {x}
    ensures forall y :: y in r <==> y in s || y == x
    ensures s <= r
    ensures NoDuplicates(s) ==> NoDuplicates(r)
  {
    if x in s then s else s + [x]
  }

  /** std::remove followed by erase. */
  function Without<T(==,!new)>(s: seq<T>, x: T): (r: seq<T>)
    ensures forall y :: y in r <==> y in s && y != x
    ensures NoDuplicates(s) ==> NoDuplicates(r)
  {
    if s == [] then []
    else
      var rest := Without(s[1..], x);
      assert s == [s[0]] + s[1..];
      assert NoDuplicates(s) ==> NoDuplicates(s[1..]) && s[0] !in s[1..];
      if s[0] == x then rest else [s[0]] + rest
  }

  lemma {:induction false} DistinctBounded(s: seq<nat>, bound: nat)
    requires NoDuplicates(s)
    requires forall x :: x in s ==> 0 < x <= bound
    ensures |s| <= bound
    decreases bound
  {
    if s != [] {
      assert s[0] in s;
      assert 0 < s[0] <= bound;
      DistinctBounded(Without(s, bound), bound - 1);
      WithoutLength(s, bound);
    }
  }

  lemma {:induction false} WithoutLength<T(!new)>(s: seq<T>, x: T)
    requires NoDuplicates(s)
    ensures |Without(s, x)| == if x in s then |s| - 1 else |s|
  {
    if s != [] {
      assert s == [s[0]] + s[1..];
      WithoutLength(s[1..], x);
    }
  }

  lemma EmptyWhenNoElement<T>(s: seq<T>)
    ensures s != [] ==> exists x :: x in s
  {
    if s != [] {
      assert s[0] in s;
    }
  }

  lemma DistinctNext<T(!new)>(s: seq<T>, i: nat)
    requires NoDuplicates(s) && i < |s|
    ensures s[i] !in s[..i]
  {
  }

  lemma DistinctConcat<T(!new)>(a: seq<T>, b: seq<T>)
    requires NoDuplicates(a) && NoDuplicates(b)
    requires forall x <- a :: x !in b
    ensures NoDuplicates(a + b)
  {
    forall i, j | 0 <= i < j < |a + b|
      ensures (a + b)[i] != (a + b)[j]
    {
      if i < |a| <= j {
        assert (a + b)[i] in a && (a + b)[j] in b;
      }
    }
  }

  lemma DistinctTail<T(!new)>(s: seq<T>, x: T, rest: seq<T>)
    requires NoDuplicates(s) && s == [x] + rest
    ensures x !in rest && NoDuplicates(rest)
  {
    forall i | 0 <= i < |rest|
      ensures rest[i] == s[i + 1] && rest[i] != x
    {
      assert s[0] == x;
    }
  }

  lemma DistinctPrefix<T(!new)>(s: seq<T>, n: nat)
    requires NoDuplicates(s) && n <= |s|
    ensures NoDuplicates(s[..n])
  {
  }

  lemma TakeNext<T>(s: seq<T>, i: nat)
    requires i < |s|
    ensures s[..i + 1] == s[..i] + [s[i]]
  {
  }

  lemma TakeAll<T>(s: seq<T>)
    ensures s[..|s|] == s
  {
  }

  /** Overriding a map at one more key. */
  lemma OverrideOne<K(!new), V(!new)>(base: map<K, V>, over: map<K, V>, key: K, value: V)
    ensures base + over[key := value] == (base + over)[key := value]
  {
  }
}
