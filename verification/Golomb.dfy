/** Exponential Golomb codes (section 9.1 of ITU-T H.264): the ue(v) and se(v) bit strings. */
module Golomb {
  import opened BitStrings

  function FloorLog2(x: nat): nat
    requires x > 0
  {
    if x == 1 then 0 else 1 + FloorLog2(x / 2)
  }

  /** ue(v): as many zeros as x + 1 has bits after its first, then x + 1 itself. */
  function Ue(x: nat): (s: Bits)
    ensures |s| == 2 * FloorLog2(x + 1) + 1
  {
    var lz := FloorLog2(x + 1);
    Zeros(lz) + BitsOf(x + 1, lz + 1)
  }

  /** codeNum of the signed value n. */
  function SeCode(n: int): nat {
    if n <= 0 then -2 * n else 2 * n - 1
  }

  /** The signed value of a codeNum. */
  function SeValue(code: nat): int {
    if code % 2 == 1 then (code + 1) / 2 else -(code / 2)
  }

  lemma SeRoundTrip(n: int, code: nat)
    ensures SeValue(SeCode(n)) == n
    ensures SeCode(SeValue(code)) == code
  {
    if n <= 0 {
      assert SeCode(n) == 2 * -n;
    } else {
      assert SeCode(n) == 2 * (n - 1) + 1;
    }
  }

  /** Odd code numbers are the positive values in order, even ones the others. */
  lemma SeAlternates(k: nat)
    ensures SeValue(2 * k) == -(k as int) && (k > 0 ==> SeValue(2 * k - 1) == k)
  {
    assert 2 * k / 2 == k && 2 * k % 2 == 0;
    assert k > 0 ==> 2 * k - 1 == 2 * (k - 1) + 1;
  }

  lemma {:induction false} FloorLog2Bounds(x: nat)
    requires x > 0
    ensures Pow2(FloorLog2(x)) <= x < Pow2(FloorLog2(x) + 1)
  {
    if x > 1 {
      FloorLog2Bounds(x / 2);
    }
  }

  lemma {:induction false} FloorLog2Unique(x: nat, k: nat)
    requires x > 0 && Pow2(k) <= x < Pow2(k + 1)
    ensures FloorLog2(x) == k
  {
    FloorLog2Bounds(x);
    var l := FloorLog2(x);
    if l < k {
      Pow2Mono(l + 1, k);
    } else if k < l {
      Pow2Mono(k + 1, l);
    }
  }

  /** x + 1 starts with a 1 bit: its other bits are x + 1 - 2^lz. */
  lemma UeShape(x: nat, lz: nat)
    requires lz == FloorLog2(x + 1)
    ensures Pow2(lz) <= x + 1 < 2 * Pow2(lz)
    ensures BitsOf(x + 1, lz + 1) == [true] + BitsOf(x + 1 - Pow2(lz), lz)
  {
    FloorLog2Bounds(x + 1);
    LeadingOne(x + 1 - Pow2(lz), lz);
  }

  lemma {:induction false} LeadingOne(d: nat, n: nat)
    requires d < Pow2(n)
    ensures BitsOf(Pow2(n) + d, n + 1) == [true] + BitsOf(d, n)
  {
    if n == 0 {
      assert BitsOf(1, 1) == BitsOf(0, 0) + [true];
    } else {
      LeadingOne(d / 2, n - 1);
      assert (Pow2(n) + d) / 2 == Pow2(n - 1) + d / 2;
    }
  }

  /** The two writes of EBSPWriter.WriteExpGolomb make ue(v). */
  lemma UeByPrefix(x: nat, lz: nat)
    requires lz == FloorLog2(x + 1)
    ensures Pow2(lz) <= x + 1
    ensures BitsOf(1, lz + 1) + BitsOf(x + 1 - Pow2(lz), lz) == Ue(x)
  {
    UeShape(x, lz);
    SmallNumber(1, lz, 1);
    assert BitsOf(1, 1) == BitsOf(0, 0) + [true] == [true];
    assert Zeros(lz) + [true] + BitsOf(x + 1 - Pow2(lz), lz) == Zeros(lz) + ([true] + BitsOf(x + 1 - Pow2(lz), lz));
  }

  /** The single write of FixedSliceWriter.WriteExpGolomb makes ue(v). */
  lemma UeByWidth(x: nat, lz: nat)
    requires lz == FloorLog2(x + 1)
    ensures BitsOf(x + 1, 2 * lz + 1) == Ue(x)
  {
    FloorLog2Bounds(x + 1);
    SmallNumber(x + 1, lz, lz + 1);
    assert lz + (lz + 1) == 2 * lz + 1;
  }

  /** A number below 2^n written in m + n bits starts with m zeros. */
  lemma {:induction false} SmallNumber(x: nat, m: nat, n: nat)
    requires x < Pow2(n)
    ensures BitsOf(x, m + n) == Zeros(m) + BitsOf(x, n)
  {
    if n > 0 {
      SmallNumber(x / 2, m, n - 1);
    } else {
      ZeroBits(m);
    }
  }

  lemma {:induction false} ZeroBits(m: nat)
    ensures BitsOf(0, m) == Zeros(m)
  {
    if m > 0 {
      ZeroBits(m - 1);
      assert Zeros(m) == Zeros(m - 1) + [false];
    }
  }
}
