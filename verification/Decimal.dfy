/**
 Decimal text of integers: the reversing printer of sds.c and the reader strtoll.
 */
module Decimal {
  import opened Bytes

  const INT64_MIN := -0x8000_0000_0000_0000
  const INT64_MAX := 0x7fff_ffff_ffff_ffff

  type int64 = x: int | INT64_MIN <= x <= INT64_MAX

  function Digit(d: nat): (c: byte)
    requires d < 10
    ensures IsDigit(c) && c as int == 0x30 + d
  {
    (0x30 + d) as byte
  }

  /** The decimal digits of n, most significant first. */
  function Digits(n: nat): (s: bytes)
    ensures s != []
    ensures forall k :: 0 <= k < |s| ==> IsDigit(s[k])
  {
    if n < 10 then [Digit(n)] else Digits(n / 10) + [Digit(n % 10)]
  }

  /** The text `%I` gives for an integer. */
  function IntText(i: int): (s: bytes)
    ensures s != []
  {
    if i < 0 then [MINUS] + Digits(-i) else Digits(i)
  }

  predicate AllDigits(s: bytes) {
    forall k :: 0 <= k < |s| ==> IsDigit(s[k])
  }

  function Value(s: bytes): (n: nat)
    requires AllDigits(s)
  {
    if s == [] then 0 else Value(s[..|s| - 1]) * 10 + (s[|s| - 1] as int - 0x30)
  }

  /**
   `strtoll(pos, &eptr, 10)` on a token, with the caller's three checks: the whole token is
   consumed, and the value fits an int64_t.
   */
  function ReadInt(token: bytes): (r: Option<int64>) {
    var negative := token != [] && token[0] == MINUS;
    var digits := if negative then token[1..] else token;
    if digits == [] || !AllDigits(digits) then
      None
    else
      var v: int := if negative then -(Value(digits) as int) else Value(digits);
      if INT64_MIN <= v <= INT64_MAX then Some(v) else None
  }

  lemma {:induction false} ValueOfDigits(n: nat)
    ensures AllDigits(Digits(n)) && Value(Digits(n)) == n
  {
    if n >= 10 {
      ValueOfDigits(n / 10);
      var s := Digits(n);
      assert s[..|s| - 1] == Digits(n / 10);
    }
  }

  /** Only zero prints with a leading zero, so the lexer's "0 followed by a digit" error never meets printed text. */
  lemma {:induction false} LeadingDigit(n: nat)
    ensures n != 0 ==> Digits(n)[0] != 0x30
    ensures n == 0 ==> Digits(n) == [0x30]
  {
    if n >= 10 {
      LeadingDigit(n / 10);
      assert Digits(n)[0] == Digits(n / 10)[0];
    }
  }

  /** Reading undoes printing on every 64-bit integer. */
  lemma ReadIntText(i: int64)
    ensures ReadInt(IntText(i)) == Some(i)
  {
    if i < 0 {
      var n: nat := -(i as int);
      ValueOfDigits(n);
      assert IntText(i)[1..] == Digits(n);
    } else {
      ValueOfDigits(i);
    }
  }

  function Reversed(s: bytes): (r: bytes)
    ensures |r| == |s|
    ensures forall k :: 0 <= k < |s| ==> r[k] == s[|s| - 1 - k]
  {
    if s == [] then [] else Reversed(s[1..]) + [s[0]]
  }

  /**
   The buffer printer: digits come out least significant first, then the filled part of the
   buffer is reversed in place by two indices that meet in the middle.
   */
  method PrintInt(buf: array<byte>, value: int64) returns (len: nat)
    requires buf.Length >= 21
    modifies buf
    ensures len < buf.Length && buf[..len] == IntText(value) && buf[len] == NUL
  {
    var v: nat := if value < 0 then -(value as int) else value;
    var p := FillDigits(buf, v);
    assert buf[..p] == Reversed(Digits(v));
    if value < 0 {
      buf[p] := MINUS;
      p := p + 1;
      assert buf[..p] == Reversed(Digits(v)) + [MINUS];
    }
    buf[p] := NUL;
    len := p;
    assert buf[..len] == Reversed(IntText(value));
    ReverseInPlace(buf, len);
    ReversedTwice(IntText(value));
  }

  method FillDigits(buf: array<byte>, value: nat) returns (p: nat)
    requires buf.Length >= 21 && value <= 0x8000_0000_0000_0000
    modifies buf
    ensures 1 <= p <= 19 && buf[..p] == Reversed(Digits(value))
  {
    var v := value;
    Pow10Of19();
    DigitCount(value, 19);
    assert Digits(value) == Digits(v) + Reversed([]);
    buf[0] := Digit(v % 10);
    p := 1;
    DigitMoved(value, v, []);
    v := v / 10;
    assert buf[..p] == [] + [Digit(value % 10)];
    while v != 0
      invariant 1 <= p <= 19
      invariant Digits(value) == Leading(v) + Reversed(buf[..p])
      decreases v
    {
      ghost var before := buf[..p];
      DigitMoved(value, v, before);
      buf[p] := Digit(v % 10);
      p := p + 1;
      assert buf[..p] == before + [Digit(v % 10)];
      v := v / 10;
    }
    assert Digits(value) == Reversed(buf[..p]);
    ReversedTwice(buf[..p]);
  }

  /** The digits still to be produced. */
  function Leading(v: nat): bytes {
    if v == 0 then [] else Digits(v)
  }

  lemma DigitMoved(value: nat, v: nat, before: bytes)
    requires v != 0 || before == []
    requires Digits(value) == Digits(v) + Reversed(before)
    ensures Digits(value) == Leading(v / 10) + Reversed(before + [Digit(v % 10)])
  {
    hide Reversed, Digits, Leading, Digit;
    var d := Digit(v % 10);
    ReversedSnoc(before, d);
    LastDigit(v, before);
    assert Leading(v / 10) + [d] + Reversed(before) == Leading(v / 10) + ([d] + Reversed(before));
  }

  /** The digits of v, or none where v has run out. */
  lemma LastDigit(v: nat, before: bytes)
    requires v != 0 || before == []
    ensures Digits(v) == Leading(v / 10) + [Digit(v % 10)]
  {
  }

  lemma ReversedSnoc(a: bytes, c: byte)
    ensures Reversed(a + [c]) == [c] + Reversed(a)
  {
  }

  lemma ReversedTwice(a: bytes)
    ensures Reversed(Reversed(a)) == a
  {
  }

  lemma {:induction false} DigitCount(n: nat, k: nat)
    requires k >= 1 && n < Pow10(k)
    ensures |Digits(n)| <= k
  {
    if n >= 10 {
      DigitCount(n / 10, k - 1);
    }
  }

  lemma Pow10Of19()
    ensures Pow10(19) == 10_000_000_000_000_000_000
  {
    assert Pow10(4) == 10 * 10 * Pow10(2) && Pow10(2) == 100;
    assert Pow10(8) == 10 * 10 * Pow10(6) && Pow10(6) == 10 * 10 * Pow10(4);
    assert Pow10(12) == 10 * 10 * Pow10(10) && Pow10(10) == 10 * 10 * Pow10(8);
    assert Pow10(16) == 10 * 10 * Pow10(14) && Pow10(14) == 10 * 10 * Pow10(12);
    assert Pow10(19) == 10 * Pow10(18) && Pow10(18) == 10 * 10 * Pow10(16);
  }

  function Pow10(k: nat): nat {
    if k == 0 then 1 else 10 * Pow10(k - 1)
  }

  method ReverseInPlace(buf: array<byte>, len: nat)
    requires 0 < len <= buf.Length
    modifies buf
    ensures buf[..len] == Reversed(old(buf[..len]))
    ensures buf[len..] == old(buf[len..])
  {
    var s, p := 0, len - 1;
    while s < p
      invariant 0 <= s <= p + 1 && s + p == len - 1
      invariant forall k :: 0 <= k < s ==> buf[k] == old(buf[len - 1 - k]) && buf[len - 1 - k] == old(buf[k])
      invariant forall k :: s <= k <= p ==> buf[k] == old(buf[k])
      invariant forall k :: len <= k < buf.Length ==> buf[k] == old(buf[k])
    {
      buf[s], buf[p] := buf[p], buf[s];
      s := s + 1;
      p := p - 1;
    }
    assert forall k :: 0 <= k < len ==> buf[k] == old(buf[len - 1 - k]);
  }
}
