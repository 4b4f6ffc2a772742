/** Decimal numerals, by the places of their digits. */
module Numerals {
  import opened Bytes
  import opened Decimal

  /** The digits 0 to 9 of ASCII. */
  predicate Decimals(ds: bytes) { forall i :: 0 <= i < |ds| ==> 0x30 <= ds[i] <= 0x39 }

  function TenTo(n: nat): nat { if n == 0 then 1 else 10 * TenTo(n - 1) }

  /** The first digit counts for as many powers of ten as there are digits behind it. */
  function Places(ds: bytes): nat
    requires Decimals(ds)
  {
    if ds == [] then 0 else (ds[0] as nat - 0x30) * TenTo(|ds| - 1) + Places(ds[1..])
  }

  lemma {:induction false} PlacesSnoc(ds: bytes, d: byte)
    requires Decimals(ds) && 0x30 <= d <= 0x39
    ensures Decimals(ds + [d]) && Places(ds + [d]) == 10 * Places(ds) + (d as nat - 0x30)
    decreases |ds|
  {
    if ds == [] {
      assert [] + [d] == [d] && [d][1..] == [];
    } else {
      assert (ds + [d])[1..] == ds[1..] + [d] && (ds + [d])[0] == ds[0];
      PlacesSnoc(ds[1..], d);
      TenTimes(ds[0] as nat - 0x30, TenTo(|ds| - 1));
    }
  }

  lemma TenTimes(a: nat, b: nat)
    ensures a * (10 * b) == 10 * (a * b)
  {
  }

  /** Reading digits one by one adds them up by their places. */
  lemma {:induction false} ValueIsPlaces(ds: bytes)
    requires Decimals(ds)
    ensures AllDigits(ds) && Value(ds) == Places(ds)
    decreases |ds|
  {
    if ds != [] {
      var k := |ds| - 1;
      ValueIsPlaces(ds[..k]);
      PlacesSnoc(ds[..k], ds[k]);
      assert ds[..k] + [ds[k]] == ds;
    }
  }

  lemma DecimalsAreDigits(ds: bytes)
    ensures Decimals(ds) <==> AllDigits(ds)
  {
  }

  /** A decimal integer, as `strtoll` reads it: its value if 64 bits hold it. */
  lemma SignedRead(negative: bool, ds: bytes)
    requires Decimals(ds) && ds != []
    ensures var v := if negative then -(Places(ds) as int) else Places(ds);
      ReadInt((if negative then [MINUS] else []) + ds)
      == if -0x8000_0000_0000_0000 <= v <= 0x7fff_ffff_ffff_ffff then Some(v) else None
  {
    hide Places, Value;
    ValueIsPlaces(ds);
    var token := (if negative then [MINUS] else []) + ds;
    if negative {
      assert token[1..] == ds;
    } else {
      assert token == ds;
    }
  }
}
