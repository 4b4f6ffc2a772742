/**
 `__node_ArrayMakeRoomFor`: how an array's capacity grows. uint32_t values are naturals below
 2^32 here.
 */
module Capacity {
  import opened Bits

  const CHUNK_SIZE := 0x10_0000   // 1 << 20

  const UINT32 := 0x1_0000_0000

  /** The five steps that copy the highest set bit to all lower places. */
  function Smear(x: nat): nat {
    var a := Or(x, Shr(x, 1));
    var b := Or(a, Shr(a, 2));
    var c := Or(b, Shr(b, 4));
    var d := Or(c, Shr(c, 8));
    Or(d, Shr(d, 16))
  }

  /** The capacity an array grows to when it must hold newcap elements. */
  function NextCap(newcap: nat): nat
    requires newcap >= 1
  {
    var nextcap := (Smear(newcap - 1) + 1) % UINT32;
    if nextcap > CHUNK_SIZE then (newcap / CHUNK_SIZE + 1) * CHUNK_SIZE % UINT32 else nextcap
  }

  // ---- what the smearing computes ---------------------------------------------------------

  /** The least number of the form 2^k - 1 that is at least x. */
  function Ones(x: nat): nat { if x == 0 then 0 else 2 * Ones(x / 2) + 1 }

  /** Some of the lowest j bits of x is set. */
  predicate Low(x: nat, j: nat)
    decreases j
  {
    j > 0 && (x % 2 == 1 || Low(x / 2, j - 1))
  }

  /** Each bit of x or'ed with the j - 1 bits above it. */
  function Spread(j: nat, x: nat): nat {
    if x == 0 then 0 else 2 * Spread(j, x / 2) + if Low(x, j) then 1 else 0
  }

  lemma {:induction false} SpreadOne(x: nat)
    ensures Spread(1, x) == x
  {
    if x != 0 { SpreadOne(x / 2); }
  }

  lemma {:induction false} LowOfZero(j: nat)
    ensures !Low(0, j)
  {
    if j > 0 { LowOfZero(j - 1); }
  }

  lemma SpreadHalf(j: nat, x: nat)
    ensures Spread(j, x) / 2 == Spread(j, x / 2)
    ensures Spread(j, x) % 2 == 1 <==> Low(x, j)
  {
    LowOfZero(j);
  }

  lemma {:induction false} SpreadShift(j: nat, x: nat, s: nat)
    ensures Shr(Spread(j, x), s) == Spread(j, Shr(x, s))
    decreases s
  {
    if s > 0 {
      SpreadHalf(j, x);
      SpreadShift(j, x / 2, s - 1);
    }
  }

  lemma {:induction false} ShiftHalf(x: nat, j: nat)
    ensures Shr(x, j) / 2 == Shr(x / 2, j)
    decreases j
  {
    if j > 0 { ShiftHalf(x / 2, j - 1); }
  }

  lemma {:induction false} LowSplit(x: nat, i: nat, j: nat)
    ensures Low(x, i + j) <==> Low(x, i) || Low(Shr(x, i), j)
    decreases i
  {
    if i > 0 { LowSplit(x / 2, i - 1, j); }
  }

  /** One step of the smearing doubles the spread. */
  lemma {:induction false} SpreadDoubles(j: nat, x: nat)
    ensures Or(Spread(j, x), Spread(j, Shr(x, j))) == Spread(2 * j, x)
    decreases x
  {
    hide Low, Shr;
    ShiftOfZero(j);
    if x != 0 {
      SpreadHalf(j, x);
      SpreadHalf(j, Shr(x, j));
      ShiftHalf(x, j);
      LowSplit(x, j, j);
      SpreadDoubles(j, x / 2);
      OrUnfold(Spread(j, x), Spread(j, Shr(x, j)));
    }
  }

  lemma SmearStep(j: nat, x: nat)
    ensures Or(Spread(j, x), Shr(Spread(j, x), j)) == Spread(2 * j, x)
  {
    SpreadShift(j, x, j);
    SpreadDoubles(j, x);
  }

  lemma Pow2Values()
    ensures Pow2(20) == CHUNK_SIZE && Pow2(31) == 0x8000_0000 && Pow2(32) == UINT32
  {
    assert Pow2(2) == 0x4;
    assert Pow2(4) == 0x10;
    assert Pow2(6) == 0x40;
    assert Pow2(8) == 0x100;
    assert Pow2(10) == 0x400;
    assert Pow2(12) == 0x1000;
    assert Pow2(14) == 0x4000;
    assert Pow2(16) == 0x10000;
    assert Pow2(18) == 0x40000;
    assert Pow2(20) == 0x100000;
    assert Pow2(22) == 0x400000;
    assert Pow2(24) == 0x1000000;
    assert Pow2(26) == 0x4000000;
    assert Pow2(28) == 0x10000000;
    assert Pow2(30) == 0x40000000;
    assert Pow2(32) == 0x100000000;
  }

  lemma {:induction false} LowAll(x: nat, j: nat)
    requires x < Pow2(j)
    ensures Low(x, j) <==> x != 0
    decreases j
  {
    if j > 0 { LowAll(x / 2, j - 1); }
  }

  lemma {:induction false} SpreadAll(x: nat)
    requires x < Pow2(32)
    ensures Spread(32, x) == Ones(x)
  {
    hide Low;
    if x != 0 {
      LowAll(x, 32);
      SpreadAll(x / 2);
    }
  }

  lemma SmearIsOnes(x: nat)
    requires x < UINT32
    ensures Smear(x) == Ones(x)
  {
    hide Or, Spread, Shr, Pow2;
    SpreadOne(x);
    SmearStep(1, x);
    SmearStep(2, x);
    SmearStep(4, x);
    SmearStep(8, x);
    SmearStep(16, x);
    Pow2Values();
    SpreadAll(x);
  }

  // ---- powers of two ----------------------------------------------------------------------

  predicate IsPowerOfTwo(p: nat) { p == 1 || (p > 0 && p % 2 == 0 && IsPowerOfTwo(p / 2)) }

  lemma {:induction false} OnesPower(x: nat)
    ensures var p := Ones(x) + 1;
      IsPowerOfTwo(p) && p > x && p <= 2 * x + 1 && p / 2 <= x
  {
    if x != 0 {
      OnesPower(x / 2);
      assert (Ones(x) + 1) / 2 == Ones(x / 2) + 1;
    }
  }

  /** No power of two lies strictly between p/2 and p. */
  lemma {:induction false} PowersApart(p: nat, q: nat)
    requires IsPowerOfTwo(p) && IsPowerOfTwo(q) && q > p / 2
    ensures q >= p
  {
    if p > 1 && q > 1 { PowersApart(p / 2, q / 2); }
  }

  /** The power of two that `newcap - 1` is smeared and incremented to. */
  function RoundUp(newcap: nat): (p: nat)
    requires 1 <= newcap <= 0x8000_0000
  {
    Ones(newcap - 1) + 1
  }

  lemma {:induction false} RoundUpLeast(newcap: nat)
    requires 1 <= newcap <= 0x8000_0000
    ensures var p := RoundUp(newcap);
      && IsPowerOfTwo(p) && newcap <= p <= 0x8000_0000
      && forall q: nat :: IsPowerOfTwo(q) && q >= newcap ==> q >= p
  {
    OnesPower(newcap - 1);
    var p := RoundUp(newcap);
    forall q: nat | IsPowerOfTwo(q) && q >= newcap ensures q >= p { PowersApart(p, q); }
    Limits();
    assert 0x8000_0000 >= newcap;
  }

  lemma {:induction false} PowerOfPow2(k: nat)
    ensures IsPowerOfTwo(Pow2(k))
  {
    if k > 0 { PowerOfPow2(k - 1); }
  }

  lemma Limits()
    ensures IsPowerOfTwo(0x8000_0000) && IsPowerOfTwo(CHUNK_SIZE)
  {
    hide IsPowerOfTwo, Pow2;
    PowerOfPow2(31);
    PowerOfPow2(20);
    Pow2Values();
  }

  lemma Chunks(n: nat)
    requires n <= 0x8000_0000
    ensures var cap := (n / CHUNK_SIZE + 1) * CHUNK_SIZE;
      cap % CHUNK_SIZE == 0 && n < cap <= n + CHUNK_SIZE && cap < UINT32
  {
    var q := n / CHUNK_SIZE;
    assert q * CHUNK_SIZE <= n < q * CHUNK_SIZE + CHUNK_SIZE;
  }

  /**
   The growth policy, for every size up to 2^31: the least power of two that suffices, up to
   a chunk; beyond that the next multiple of a chunk, strictly above the size even when the
   size is itself a multiple. No step wraps around.
   */
  lemma NextCapGrows(newcap: nat)
    requires 1 <= newcap <= 0x8000_0000
    ensures var cap := NextCap(newcap);
      && newcap <= cap < UINT32
      && (newcap <= CHUNK_SIZE ==> cap == RoundUp(newcap) && cap <= CHUNK_SIZE)
      && (newcap > CHUNK_SIZE ==> cap % CHUNK_SIZE == 0 && newcap < cap <= newcap + CHUNK_SIZE)
  {
    hide Smear, IsPowerOfTwo, Ones;
    SmearIsOnes(newcap - 1);
    RoundUpLeast(newcap);
    Limits();
    Chunks(newcap);
  }

  /** A size that is a power of two is its own capacity up to a chunk; above, it gets a chunk more than it needs. */
  lemma NextCapFixed(newcap: nat)
    requires 1 <= newcap <= 0x8000_0000 && IsPowerOfTwo(newcap)
    ensures NextCap(newcap) == newcap <==> newcap <= CHUNK_SIZE
  {
    hide IsPowerOfTwo, NextCap, RoundUp;
    NextCapGrows(newcap);
    RoundUpLeast(newcap);
  }
}
