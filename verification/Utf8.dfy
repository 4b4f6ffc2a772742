/**
 UTF-8 as section 3 of RFC 3629 defines it: the encoder the unescaper writes with, and an
 independent strict decoder to judge it by.
 */
module Utf8 {
  import opened Bytes

  type codepoint = x: int | 0 <= x < 0x110000

  predicate IsSurrogate(cp: int) { 0xD800 <= cp <= 0xDFFF }

  /** A Unicode scalar value: a code point that is not a surrogate. */
  predicate IsScalar(cp: int) { 0 <= cp < 0x110000 && !IsSurrogate(cp) }

  /** A continuation octet carrying six bits. The code's shifts and masks are written as division and remainder. */
  function Tail(six: int): (c: byte)
    requires 0 <= six < 64
    ensures c as int == 0x80 + six
  {
    (0x80 + six) as byte
  }

  function Encode(cp: codepoint): (s: bytes)
    ensures 1 <= |s| <= 4
  {
    if cp < 0x80 then
      [cp as byte]
    else if cp < 0x800 then
      [(0xC0 + cp / 64) as byte, Tail(cp % 64)]
    else if cp < 0x10000 then
      [(0xE0 + cp / 0x1000) as byte, Tail(cp / 64 % 64), Tail(cp % 64)]
    else
      [(0xF0 + cp / 0x4_0000) as byte, Tail(cp / 0x1000 % 64), Tail(cp / 64 % 64), Tail(cp % 64)]
  }

  predicate IsTail(c: byte) { 0x80 <= c <= 0xBF }

  function Low6(c: byte): int
    requires IsTail(c)
  {
    c as int - 0x80
  }

  /**
   The strict reader of one encoded character at the head of s: no overlong form, no
   surrogate, nothing above U+10FFFF. Returns the code point and the number of octets.
   */
  function Decode(s: bytes): (r: Option<(int, nat)>) {
    if s == [] then None
    else if s[0] < 0x80 then Some((s[0] as int, 1))
    else if 0xC2 <= s[0] <= 0xDF then
      if |s| >= 2 && IsTail(s[1]) then Some(((s[0] as int - 0xC0) * 64 + Low6(s[1]), 2)) else None
    else if 0xE0 <= s[0] <= 0xEF then
      if |s| >= 3 && IsTail(s[1]) && IsTail(s[2]) then
        var cp := (s[0] as int - 0xE0) * 0x1000 + Low6(s[1]) * 64 + Low6(s[2]);
        if cp >= 0x800 && !IsSurrogate(cp) then Some((cp, 3)) else None
      else None
    else if 0xF0 <= s[0] <= 0xF4 then
      if |s| >= 4 && IsTail(s[1]) && IsTail(s[2]) && IsTail(s[3]) then
        var cp := (s[0] as int - 0xF0) * 0x4_0000 + Low6(s[1]) * 0x1000 + Low6(s[2]) * 64 + Low6(s[3]);
        if 0x10000 <= cp < 0x110000 then Some((cp, 4)) else None
      else None
    else None
  }

  /** The decoder reads back exactly the encoded scalar, whatever follows it. */
  lemma DecodeEncode(cp: codepoint, rest: bytes)
    requires IsScalar(cp)
    ensures Decode(Encode(cp) + rest) == Some((cp as int, |Encode(cp)|))
  {
    var s := Encode(cp) + rest;
    assert forall k :: 0 <= k < |Encode(cp)| ==> s[k] == Encode(cp)[k];
    assert cp / 0x1000 == (cp / 0x4_0000) * 64 + cp / 0x1000 % 64;
    assert cp / 64 == (cp / 0x1000) * 64 + cp / 64 % 64;
  }

  /**
   Whatever the decoder accepts begins with the encoding of what it reads: there is no other
   sequence for a scalar.
   */
  lemma DecodedIsEncoded(s: bytes)
    requires Decode(s).Some?
    ensures var (cp, n) := Decode(s).value;
      IsScalar(cp) && n <= |s| && s[..n] == Encode(cp)
  {
    var (cp, n) := Decode(s).value;
    if n == 2 {
      DecodedTwo(s);
    } else if n == 3 {
      DecodedThree(s);
    } else if n == 4 {
      DecodedFour(s);
    }
  }

  lemma DecodedTwo(s: bytes)
    requires Decode(s).Some? && Decode(s).value.1 == 2
    ensures s[..2] == Encode(Decode(s).value.0)
  {
    TwoDigits(s[0] as int - 0xC0, Low6(s[1]));
  }

  lemma DecodedThree(s: bytes)
    requires Decode(s).Some? && Decode(s).value.1 == 3
    ensures s[..3] == Encode(Decode(s).value.0)
  {
    TwoDigits((s[0] as int - 0xE0) * 64 + Low6(s[1]), Low6(s[2]));
    TwoDigits(s[0] as int - 0xE0, Low6(s[1]));
  }

  lemma DecodedFour(s: bytes)
    requires Decode(s).Some? && Decode(s).value.1 == 4
    ensures s[..4] == Encode(Decode(s).value.0)
  {
    TwoDigits(((s[0] as int - 0xF0) * 64 + Low6(s[1])) * 64 + Low6(s[2]), Low6(s[3]));
    TwoDigits((s[0] as int - 0xF0) * 64 + Low6(s[1]), Low6(s[2]));
    TwoDigits(s[0] as int - 0xF0, Low6(s[1]));
  }

  /** Digits to the base 64. */
  lemma TwoDigits(a: nat, b: nat)
    requires b < 64
    ensures (a * 64 + b) / 64 == a && (a * 64 + b) % 64 == b
    ensures (a * 64 + b) / 0x1000 == a / 64 && (a * 64 + b) / 0x4_0000 == a / 0x1000
  {
  }

  /** Every byte of s read as a code point (ISO 8859-1) and encoded. */
  function Latin1(s: bytes): (r: bytes)
    ensures |r| >= |s|
  {
    if s == [] then [] else Encode(s[0] as int) + Latin1(s[1..])
  }

  predicate Ascii(s: bytes) {
    forall k :: 0 <= k < |s| ==> s[k] < 0x80
  }

  /** Reading bytes as code points changes nothing exactly when they are all ASCII. */
  lemma {:induction false} Latin1Identity(s: bytes)
    ensures Latin1(s) == s <==> Ascii(s)
    ensures |Latin1(s)| == |s| <==> Ascii(s)
  {
    if s != [] {
      Latin1Identity(s[1..]);
      if Ascii(s) {
        assert Ascii(s[1..]);
        assert [s[0]] + s[1..] == s;
      } else if s[0] < 0x80 {
        assert !Ascii(s[1..]) by {
          var k :| 0 <= k < |s| && s[k] >= 0x80;
          assert s[1..][k - 1] == s[k];
        }
      }
    }
  }

  lemma {:induction false} Latin1Injective(s: bytes, t: bytes)
    requires Latin1(s) == Latin1(t)
    ensures s == t
  {
    if s == [] || t == [] {
      assert s == [] && t == [];
    } else {
      DecodeEncode(s[0] as int, Latin1(s[1..]));
      DecodeEncode(t[0] as int, Latin1(t[1..]));
      var n := |Encode(s[0] as int)|;
      assert Latin1(s)[n..] == Latin1(s[1..]);
      assert Latin1(t)[n..] == Latin1(t[1..]);
      Latin1Injective(s[1..], t[1..]);
      assert s == [s[0]] + s[1..] && t == [t[0]] + t[1..];
    }
  }

  lemma {:induction false} Latin1NoNul(s: bytes)
    requires NUL !in s
    ensures NUL !in Latin1(s)
  {
    if s != [] {
      assert s[0] in s;
      assert forall c :: c in s[1..] ==> c in s;
      Latin1NoNul(s[1..]);
      assert NUL !in Encode(s[0] as int);
    }
  }
}
