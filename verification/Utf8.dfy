/** The UTF-8 codec of the JSON layer (section 4 of RFC 3629). */
module Utf8 {
  import opened Collections

  type Byte = b: nat | b < 256

  type Bytes = seq<Byte>

  /** A Unicode scalar value: in range and not a surrogate. */
  predicate Scalar(code: nat) {
    code <= 0x10FFFF && !(0xD800 <= code <= 0xDFFF)
  }

  /** json_append_utf8: the bytes appended, or None when the code point is refused. */
  function Encoded(code: nat): (r: Option<Bytes>)
    ensures r.Some? <==> Scalar(code)
    ensures r.Some? ==> 1 <= |r.value| <= 4
  {
    if code <= 0x7F then Some([code])
    else if code <= 0x7FF then Some([0xC0 + code / 64, 0x80 + code % 64])
    else if 0xD800 <= code <= 0xDFFF then None
    else if code <= 0xFFFF then Some([0xE0 + code / 4096, 0x80 + code / 64 % 64, 0x80 + code % 64])
    else if code <= 0x10FFFF then
      Some([0xF0 + code / 262144, 0x80 + code / 4096 % 64, 0x80 + code / 64 % 64, 0x80 + code % 64])
    else None
  }

  function EncodedAll(codes: seq<nat>): Bytes
    requires forall c <- codes :: Scalar(c)
  {
    if codes == [] then [] else Encoded(codes[0]).value + EncodedAll(codes[1..])
  }

  predicate Continuation(b: Byte) {
    b / 64 == 2
  }

  /** How many bytes the first byte announces; zero when it cannot start a character. */
  function Announced(first: Byte): nat {
    if first <= 0x7F then 1
    else if 0xC2 <= first <= 0xDF then 2
    else if 0xE0 <= first <= 0xEF then 3
    else if 0xF0 <= first <= 0xF4 then 4
    else 0
  }

  /** The low bits of a byte, as `byte & (modulus - 1)` for a power of two. */
  function Low(b: Byte, modulus: nat): nat
    requires modulus > 0
  {
    var n: nat := b;
    n % modulus
  }

  /** The code point spelled by a leading byte and its continuation bytes. */
  function Spelled(s: Bytes): nat
    requires s != [] && Announced(s[0]) == |s|
  {
    if |s| == 1 then s[0]
    else if |s| == 2 then Low(s[0], 32) * 64 + Low(s[1], 64)
    else if |s| == 3 then (Low(s[0], 16) * 64 + Low(s[1], 64)) * 64 + Low(s[2], 64)
    else ((Low(s[0], 8) * 64 + Low(s[1], 64)) * 64 + Low(s[2], 64)) * 64 + Low(s[3], 64)
  }

  function Minimum(count: nat): nat {
    if count == 2 then 0x80 else if count == 3 then 0x800 else if count == 4 then 0x10000 else 0
  }

  /** The first character of a byte sequence: its code point and its length. */
  function First(s: Bytes): (r: Option<(nat, nat)>)
    ensures r.Some? ==> 0 < r.value.1 <= |s|
  {
    if s == [] then None
    else
      var count := Announced(s[0]);
      if count == 0 || count > |s| then None
      else if exists i :: 1 <= i < count && !Continuation(s[i]) then None
      else
        var code := Spelled(s[..count]);
        if code < Minimum(count) || !Scalar(code) then None else Some((code, count))
  }

  predicate ValidUtf8(s: Bytes) {
    s == [] || (First(s).Some? && ValidUtf8(s[First(s).value.1..]))
  }

  /** Splitting a number into base-64 digits. */
  lemma Digits(code: nat)
    ensures code == code / 64 * 64 + code % 64
    ensures code / 4096 == code / 64 / 64 && code / 262144 == code / 64 / 64 / 64
  {
    var q1, r1 := code / 64, code % 64;
    var q2, r2 := q1 / 64, q1 % 64;
    var q3, r3 := q2 / 64, q2 % 64;
    assert code == q2 * 4096 + r2 * 64 + r1;
    assert code == q3 * 262144 + r3 * 4096 + r2 * 64 + r1;
  }

  lemma ContinuationByte(x: nat)
    requires x < 64
    ensures Continuation(0x80 + x) && Low(0x80 + x, 64) == x
  {
  }

  ghost predicate SpellsItself(code: nat)
    requires Scalar(code)
  {
    var s := Encoded(code).value;
    && Announced(s[0]) == |s| && Spelled(s) == code && Minimum(|s|) <= code
    && forall i :: 1 <= i < |s| ==> Continuation(s[i])
  }

  lemma Spells2(code: nat)
    requires 0x7F < code <= 0x7FF
    ensures SpellsItself(code)
  {
    Digits(code);
    ContinuationByte(code % 64);
    hide Continuation;
    assert Low(Encoded(code).value[0], 32) == code / 64;
  }

  lemma Spells3(code: nat)
    requires 0x7FF < code <= 0xFFFF && Scalar(code)
    ensures SpellsItself(code)
  {
    Digits(code);
    Digits(code / 64);
    ContinuationByte(code % 64);
    ContinuationByte(code / 64 % 64);
    hide Continuation;
    assert Low(Encoded(code).value[0], 16) == code / 4096;
  }

  lemma Spells4(code: nat)
    requires 0xFFFF < code && Scalar(code)
    ensures SpellsItself(code)
  {
    Digits(code);
    Digits(code / 64);
    Digits(code / 64 / 64);
    var a, b, c, d := code / 262144, code / 4096 % 64, code / 64 % 64, code % 64;
    ContinuationByte(b);
    ContinuationByte(c);
    ContinuationByte(d);
    assert Low(0xF0 + a, 8) == a;
    hide Continuation, Low;
    var s := Encoded(code).value;
    assert s == [0xF0 + a, 0x80 + b, 0x80 + c, 0x80 + d];
    hide Encoded;
    assert Spelled(s) == ((a * 64 + b) * 64 + c) * 64 + d;
  }

  /** The encoding announces its own length and spells the code point. */
  lemma EncodedSpells(code: nat)
    requires Scalar(code)
    ensures SpellsItself(code)
  {
    if code <= 0x7F {
    } else if code <= 0x7FF {
      Spells2(code);
    } else if code <= 0xFFFF {
      Spells3(code);
    } else {
      Spells4(code);
    }
  }

  /** Decoding undoes encoding, whatever follows. */
  lemma EncodeThenDecode(code: nat, rest: Bytes)
    requires Scalar(code)
    ensures First(Encoded(code).value + rest) == Some((code, |Encoded(code).value|))
  {
    EncodedSpells(code);
    var s := Encoded(code).value;
    hide Encoded, Spelled, Continuation, Announced;
    assert (s + rest)[..|s|] == s;
    assert forall i :: 0 <= i < |s| ==> (s + rest)[i] == s[i];
  }

  lemma ContinuationFits(b: Byte)
    requires Continuation(b)
    ensures b == 0x80 + Low(b, 64)
  {
  }

  lemma Shortest2(t: Bytes)
    requires |t| == 2 && Announced(t[0]) == 2 && Continuation(t[1])
    ensures Encoded(Spelled(t)) == Some(t)
  {
    ContinuationFits(t[1]);
    assert t == [t[0], t[1]];
  }

  lemma Shortest3(t: Bytes)
    requires |t| == 3 && Announced(t[0]) == 3 && Continuation(t[1]) && Continuation(t[2])
    requires Spelled(t) >= 0x800 && Scalar(Spelled(t))
    ensures Encoded(Spelled(t)) == Some(t)
  {
    ContinuationFits(t[1]);
    ContinuationFits(t[2]);
    Digits(Spelled(t));
    assert Spelled(t) / 64 == Low(t[0], 16) * 64 + Low(t[1], 64);
    assert t == [t[0], t[1], t[2]];
  }

  lemma Shortest4(t: Bytes)
    requires |t| == 4 && Announced(t[0]) == 4 && Continuation(t[1]) && Continuation(t[2]) && Continuation(t[3])
    requires Spelled(t) >= 0x10000 && Scalar(Spelled(t))
    ensures Encoded(Spelled(t)) == Some(t)
  {
    ContinuationFits(t[1]);
    ContinuationFits(t[2]);
    ContinuationFits(t[3]);
    Digits(Spelled(t));
    assert Spelled(t) / 64 == (Low(t[0], 8) * 64 + Low(t[1], 64)) * 64 + Low(t[2], 64);
    assert Spelled(t) / 64 / 64 == Low(t[0], 8) * 64 + Low(t[1], 64);
    assert t == [t[0], t[1], t[2], t[3]];
  }

  /** Encoding undoes decoding: only the shortest form of a code point is accepted. */
  lemma DecodeThenEncode(s: Bytes)
    requires First(s).Some?
    ensures Scalar(First(s).value.0)
    ensures Encoded(First(s).value.0) == Some(s[..First(s).value.1])
  {
    var count := First(s).value.1;
    var t := s[..count];
    assert forall i :: 1 <= i < count ==> Continuation(t[i]);
    hide Encoded, Continuation;
    if count == 1 {
      assert Encoded(t[0]) == Some([t[0]]) by { AsciiEncoded(t[0]); }
      assert t == [t[0]];
    } else if count == 2 {
      Shortest2(t);
    } else if count == 3 {
      Shortest3(t);
    } else {
      Shortest4(t);
    }
  }

  lemma AsciiEncoded(b: Byte)
    requires b <= 0x7F
    ensures Encoded(b) == Some([b])
  {
  }

  /** A byte sequence is accepted exactly when it is the encoding of scalar values. */
  lemma ValidIffEncoded(s: Bytes)
    ensures ValidUtf8(s) <==> exists codes: seq<nat> :: (forall c <- codes :: Scalar(c)) && EncodedAll(codes) == s
  {
    if ValidUtf8(s) {
      var codes := Decoded(s);
    }
    forall codes: seq<nat> | (forall c <- codes :: Scalar(c)) && EncodedAll(codes) == s
      ensures ValidUtf8(s)
    {
      EncodedValid(codes);
    }
  }

  lemma {:induction false} Decoded(s: Bytes) returns (codes: seq<nat>)
    requires ValidUtf8(s)
    ensures (forall c <- codes :: Scalar(c)) && EncodedAll(codes) == s
  {
    if s == [] {
      codes := [];
    } else {
      DecodeThenEncode(s);
      var n := First(s).value.1;
      var rest := Decoded(s[n..]);
      codes := [First(s).value.0] + rest;
      assert codes[1..] == rest;
      assert s == s[..n] + s[n..];
    }
  }

  lemma {:induction false} EncodedValid(codes: seq<nat>)
    requires forall c <- codes :: Scalar(c)
    ensures ValidUtf8(EncodedAll(codes))
  {
    if codes != [] {
      var s := Encoded(codes[0]).value;
      EncodedValid(codes[1..]);
      EncodeThenDecode(codes[0], EncodedAll(codes[1..]));
      assert (s + EncodedAll(codes[1..]))[|s|..] == EncodedAll(codes[1..]);
    }
  }

  /** A valid sequence can be cut before and after an ASCII byte. */
  lemma {:induction false} CutAtAscii(a: Bytes, x: Byte, b: Bytes)
    requires x < 0x80 && ValidUtf8(a + [x] + b)
    ensures ValidUtf8(a) && ValidUtf8(b)
    decreases |a|
  {
    var s := a + [x] + b;
    if a == [] {
      assert s[0] == x && s[1..] == b;
    } else {
      var n := First(s).value.1;
      assert s[|a|] == x && !Continuation(x);
      assert n <= |a|;
      assert s[n..] == a[n..] + [x] + b;
      CutAtAscii(a[n..], x, b);
      assert s[..n] == a[..n];
      assert forall i :: 0 <= i < |a| ==> s[i] == a[i];
      assert First(a) == First(s);
    }
  }

  /** json_valid_utf8 */
  method Validate(input: Bytes) returns (ok: bool)
    ensures ok <==> ValidUtf8(input)
  {
    hide ValidUtf8;
    var index := 0;
    assert input[0..] == input;
    while index < |input|
      invariant index <= |input|
      invariant ValidUtf8(input) <==> ValidUtf8(input[index..])
    {
      var rest := input[index..];
      FirstStep(rest);
      var first := input[index];
      if first <= 0x7F {
        index := index + 1;
        continue;
      }
      var count: nat, value: nat, minimum: nat := 0, 0, 0;
      if 0xC2 <= first <= 0xDF {
        count, value, minimum := 2, Low(first, 32), 0x80;
      } else if 0xE0 <= first <= 0xEF {
        count, value, minimum := 3, Low(first, 16), 0x800;
      } else if 0xF0 <= first <= 0xF4 {
        count, value, minimum := 4, Low(first, 8), 0x10000;
      } else {
        return false;
      }
      if index + count > |input| {
        return false;
      }
      for continuation := 1 to count
        invariant forall i :: 1 <= i < continuation ==> Continuation(rest[i])
        invariant value == Prefix(rest, count, continuation)
      {
        var byte := input[index + continuation];
        assert byte == rest[continuation];
        if byte / 64 != 2 {
          return false;
        }
        value := value * 64 + Low(byte, 64);
      }
      PrefixIsSpelled(rest, count);
      if value < minimum || value > 0x10FFFF || 0xD800 <= value <= 0xDFFF {
        return false;
      }
      assert rest[count..] == input[index + count..];
      index := index + count;
    }
    assert input[index..] == [];
    ValidEmpty();
    return true;
  }

  lemma ValidEmpty()
    ensures ValidUtf8([])
  {
  }

  lemma FirstStep(s: Bytes)
    requires s != []
    ensures ValidUtf8(s) <==> First(s).Some? && ValidUtf8(s[First(s).value.1..])
    ensures s[0] <= 0x7F ==> First(s) == Some((s[0], 1))
  {
    if s[0] <= 0x7F {
      assert s[..1] == [s[0]];
      assert Spelled([s[0]]) == s[0];
    }
  }

  /** The value accumulated over the first `n` bytes of a character of `count` bytes. */
  function Prefix(s: Bytes, count: nat, n: nat): nat
    requires 1 <= n <= |s|
  {
    if n == 1 then Low(s[0], if count == 2 then 32 else if count == 3 then 16 else 8)
    else Prefix(s, count, n - 1) * 64 + Low(s[n - 1], 64)
  }

  lemma PrefixIsSpelled(s: Bytes, count: nat)
    requires s != [] && 2 <= count <= |s| && Announced(s[0]) == count
    ensures Prefix(s, count, count) == Spelled(s[..count])
  {
    assert Prefix(s, count, 2) == Prefix(s, count, 1) * 64 + Low(s[1], 64);
    if count == 3 {
      assert Prefix(s, count, 3) == Prefix(s, count, 2) * 64 + Low(s[2], 64);
    }
    if count == 4 {
      assert Prefix(s, count, 4) == Prefix(s, count, 3) * 64 + Low(s[3], 64);
      assert Prefix(s, count, 3) == Prefix(s, count, 2) * 64 + Low(s[2], 64);
    }
  }
}
