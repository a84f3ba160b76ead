/** Bytes and big-endian unsigned integers (`b2i`, which is `int.from_bytes(data, 'big')`). */
module Bytes {

  type byte = b: int | 0 <= b < 256

  function Pow256(n: nat): (r: nat)
    ensures r > 0
  {
    if n == 0 then 1 else 256 * Pow256(n - 1)
  }

  /** The unsigned big-endian value of `s`. */
  function B2I(s: seq<byte>): nat
  {
    PrefixValue(s, |s|)
  }

  /** The big-endian value of the first `n` bytes of `s`: each byte shifts the value read so far by eight bits. */
  function PrefixValue(s: seq<byte>, n: nat): nat
    requires n <= |s|
  {
    if n == 0 then 0 else PrefixValue(s, n - 1) * 256 + s[n - 1]
  }

  /** An `n`-byte value is below 256^n. */
  lemma {:induction false} PrefixValueBound(s: seq<byte>, n: nat)
    requires n <= |s|
    ensures PrefixValue(s, n) < Pow256(n)
  {
    if n > 0 {
      PrefixValueBound(s, n - 1);
    }
  }

  /** The decoded value always fits in the byte count (so under 2^32 for a four-byte field). */
  lemma B2IBound(s: seq<byte>)
    ensures B2I(s) < Pow256(|s|)
  {
    PrefixValueBound(s, |s|);
  }

  /** The value of a prefix depends on nothing but the bytes in it. */
  lemma {:induction false} PrefixValueOfEqualBytes(s: seq<byte>, t: seq<byte>, n: nat)
    requires n <= |s| && n <= |t|
    requires forall i :: 0 <= i < n ==> s[i] == t[i]
    ensures PrefixValue(s, n) == PrefixValue(t, n)
  {
    if n > 0 {
      PrefixValueOfEqualBytes(s, t, n - 1);
    }
  }

  /** Reference reading of a big-endian number: the sum of s[i] * 256^(|s|-1-i). */
  function PlaceValue(s: seq<byte>): nat
  {
    if s == [] then 0 else s[0] * Pow256(|s| - 1) + PlaceValue(s[1..])
  }

  /** A leading byte is worth 256^n times its value, for a prefix of `n` bytes after it. */
  lemma {:induction false} LeadingByte(x: byte, t: seq<byte>, n: nat)
    requires n <= |t|
    ensures PrefixValue([x] + t, n + 1) == x * Pow256(n) + PrefixValue(t, n)
  {
    var s := [x] + t;
    if n == 0 {
      assert PrefixValue(s, 0) == 0;
    } else {
      LeadingByte(x, t, n - 1);
      assert s[n] == t[n - 1];
      calc {
        PrefixValue(s, n + 1);
        PrefixValue(s, n) * 256 + s[n];
        (x * Pow256(n - 1) + PrefixValue(t, n - 1)) * 256 + t[n - 1];
        x * (Pow256(n - 1) * 256) + (PrefixValue(t, n - 1) * 256 + t[n - 1]);
        x * Pow256(n) + PrefixValue(t, n);
      }
    }
  }

  /** `B2I` agrees with the positional sum. */
  lemma {:induction false} B2IIsPlaceValue(s: seq<byte>)
    ensures B2I(s) == PlaceValue(s)
    decreases |s|
  {
    if s != [] {
      assert s == [s[0]] + s[1..];
      LeadingByte(s[0], s[1..], |s| - 1);
      B2IIsPlaceValue(s[1..]);
    }
  }

  /** The `n`-byte big-endian encoding of `v` (the low `n` bytes of `v`). */
  function Encode(v: nat, n: nat): (s: seq<byte>)
    ensures |s| == n
  {
    if n == 0 then [] else Encode(v / 256, n - 1) + [v % 256]
  }

  /** Decoding an encoding gives the value back, for every value that fits. */
  lemma {:induction false} DecodeEncode(v: nat, n: nat)
    requires v < Pow256(n)
    ensures B2I(Encode(v, n)) == v
  {
    if n > 0 {
      var s := Encode(v, n);
      var init := Encode(v / 256, n - 1);
      assert s == init + [v % 256];
      assert v / 256 < Pow256(n - 1);
      DecodeEncode(v / 256, n - 1);
      PrefixValueOfEqualBytes(s, init, n - 1);
    }
  }

  /** Encoding a decoded byte string gives the bytes back. */
  lemma {:induction false} EncodeDecode(s: seq<byte>)
    ensures Encode(B2I(s), |s|) == s
    decreases |s|
  {
    if s != [] {
      var init := s[..|s| - 1];
      var v := B2I(s);
      PrefixValueOfEqualBytes(s, init, |s| - 1);
      assert v == B2I(init) * 256 + s[|s| - 1];
      assert v / 256 == B2I(init) && v % 256 == s[|s| - 1];
      EncodeDecode(init);
      assert Encode(v, |s|) == Encode(B2I(init), |init|) + [s[|s| - 1]];
    }
  }

  /** The four-byte fields of an RPM header are unsigned 32-bit numbers, and they round-trip. */
  lemma U32RoundTrip(s: seq<byte>, v: nat)
    requires |s| == 4 && v < 0x1_0000_0000
    ensures B2I(s) < 0x1_0000_0000
    ensures B2I(Encode(v, 4)) == v
    ensures Encode(B2I(s), 4) == s
  {
    assert Pow256(4) == 0x1_0000_0000;
    B2IBound(s);
    DecodeEncode(v, 4);
    EncodeDecode(s);
  }
}
