/** Fixed-width little-endian integers in a byte buffer. */
module LittleEndian {
  import opened CompiledState

  /** 256 to the power of `n`. */
  function Radix(n: nat): (r: nat)
    ensures r > 0
  {
    if n == 0 then 1 else 256 * Radix(n - 1)
  }

  /** The lowest `n` bytes of a value, lowest first. */
  function Le(value: nat, n: nat): (r: Bytes)
    ensures |r| == n
    decreases n
  {
    if n == 0 then [] else [value % 256] + Le(value / 256, n - 1)
  }

  /** The integer that a byte string spells. */
  function Value(s: Bytes): (v: nat)
    ensures v < Radix(|s|)
  {
    if s == [] then 0 else s[0] + 256 * Value(s[1..])
  }

  lemma RadixValues()
    ensures Radix(1) == 0x100 && Radix(2) == 0x1_0000 && Radix(4) == 0x1_0000_0000
    ensures Radix(8) == 0x1_0000_0000_0000_0000
  {
    assert Radix(5) == 256 * Radix(4);
    assert Radix(7) == 256 * Radix(6);
  }

  lemma {:induction false} LeRoundTrip(value: nat, n: nat)
    requires value < Radix(n)
    ensures Value(Le(value, n)) == value
    decreases n
  {
    if n > 0 {
      LeRoundTrip(value / 256, n - 1);
      assert Le(value, n)[1..] == Le(value / 256, n - 1);
    }
  }

  lemma {:induction false} ValueRoundTrip(s: Bytes)
    ensures Le(Value(s), |s|) == s
  {
    if s != [] {
      ValueRoundTrip(s[1..]);
      assert Value(s) % 256 == s[0] && Value(s) / 256 == Value(s[1..]);
    }
  }

  lemma {:induction false} ValueAppend(s: Bytes, b: Byte)
    ensures Value(s + [b]) == Value(s) + Radix(|s|) * b
  {
    if s == [] {
      assert Value([b]) == b + 256 * Value([b][1..]);
    } else {
      ValueAppend(s[1..], b);
      assert (s + [b])[1..] == s[1..] + [b];
      Distribute(Radix(|s| - 1), b);
    }
  }

  lemma Distribute(r: nat, b: nat)
    ensures 256 * (r * b) == (256 * r) * b
  {
  }

  lemma {:induction false} ValueZeros(n: nat)
    ensures Le(0, n) == Zeros(n)
  {
    if n > 0 {
      ValueZeros(n - 1);
      assert Zeros(n) == [0] + Zeros(n - 1);
    }
  }

  function Zeros(n: nat): (r: Bytes)
    ensures |r| == n && forall i :: 0 <= i < n ==> r[i] == 0
  {
    seq(n, _ => 0)
  }

  // ----- Overwriting part of a buffer -----

  function Patched(b: Bytes, at: nat, data: Bytes): (r: Bytes)
    requires at + |data| <= |b|
    ensures |r| == |b|
    ensures forall p :: 0 <= p < |b| ==> r[p] == if at <= p < at + |data| then data[p - at] else b[p]
  {
    b[..at] + data + b[at + |data|..]
  }

  /** `data` stands at `at`. */
  ghost predicate Stands(b: Bytes, at: nat, data: Bytes) {
    at + |data| <= |b| && b[at..at + |data|] == data
  }

  lemma PatchedAt(b: Bytes, at: nat, data: Bytes)
    requires at + |data| <= |b|
    ensures Stands(Patched(b, at, data), at, data)
  {
  }

  /** Whatever stands elsewhere stays. */
  lemma PatchedElsewhere(b: Bytes, at: nat, data: Bytes, other: nat, content: Bytes)
    requires at + |data| <= |b| && Stands(b, other, content)
    requires other + |content| <= at || at + |data| <= other
    ensures Stands(Patched(b, at, data), other, content)
  {
    assert Patched(b, at, data)[other..other + |content|] == b[other..other + |content|];
  }

  /** Two adjacent writes are one. */
  lemma PatchedJoin(b: Bytes, at: nat, x: Bytes, y: Bytes)
    requires at + |x| + |y| <= |b|
    ensures Patched(Patched(b, at, x), at + |x|, y) == Patched(b, at, x + y)
  {
  }

  /** Disjoint writes commute. */
  lemma PatchedSwap(b: Bytes, at: nat, x: Bytes, other: nat, y: Bytes)
    requires at + |x| <= other && other + |y| <= |b|
    ensures Patched(Patched(b, at, x), other, y) == Patched(Patched(b, other, y), at, x)
  {
  }

  lemma PatchedNothing(b: Bytes, at: nat)
    requires at <= |b|
    ensures Patched(b, at, []) == b
  {
  }

  /** write16, write32, write64 */
  method Write(a: array<Byte>, at: nat, value: nat, n: nat)
    requires at + n <= a.Length
    modifies a
    ensures a[..] == Patched(old(a[..]), at, Le(value, n))
  {
    ghost var before := a[..];
    var rest := value;
    PatchedNothing(before, at);
    for i := 0 to n
      invariant a[..] == Patched(before, at, Le(value, n)[..i])
      invariant Le(value, n)[i..] == Le(rest, n - i)
    {
      assert Le(value, n)[i] == Le(value, n)[i..][0] == rest % 256;
      assert Le(value, n)[i + 1..] == Le(value, n)[i..][1..];
      a[at + i] := rest % 256;
      rest := rest / 256;
    }
    assert Le(value, n)[..n] == Le(value, n);
  }

  /** read16, read32, read64 */
  method Read(bytes: Bytes, at: nat, n: nat) returns (value: nat)
    requires at + n <= |bytes|
    ensures value == Value(bytes[at..at + n])
  {
    value := 0;
    var weight := 1;
    for i := 0 to n
      invariant value == Value(bytes[at..at + i]) && weight == Radix(i)
    {
      assert bytes[at..at + i + 1] == bytes[at..at + i] + [bytes[at + i]];
      ValueAppend(bytes[at..at + i], bytes[at + i]);
      var digit: nat := bytes[at + i];
      value := value + weight * digit;
      weight := 256 * weight;
    }
  }

  /** memcpy into the buffer. */
  method Put(a: array<Byte>, at: nat, data: Bytes)
    requires at + |data| <= a.Length
    modifies a
    ensures a[..] == Patched(old(a[..]), at, data)
  {
    ghost var before := a[..];
    for i := 0 to |data|
      invariant a[..] == Patched(before, at, data[..i])
    {
      a[at + i] := data[i];
    }
    assert data[..|data|] == data;
  }
}
