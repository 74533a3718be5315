/** Bit strings, bytes and machine words.
    A Go `uint` is a `nat` below 2^64. Shifts and masks are defined bit by bit; `|` of two words
    without a common bit is written as their sum.
  */
module BitStrings {

  type byte = i: int | 0 <= i < 256
  type Bits = seq<bool>

  const WORD: nat := 0x1_0000_0000_0000_0000

  datatype Option<+T> = None | Some(value: T)

  function Min(a: nat, b: nat): nat {
    if a < b then a else b
  }

  /** n times x. */
  function Repeat<T>(x: T, n: nat): (s: seq<T>)
    ensures |s| == n
  {
    seq(n, _ => x)
  }

  lemma Assoc<T>(a: seq<T>, b: seq<T>, c: seq<T>)
    ensures a + b + c == a + (b + c)
  {
  }

  function Pow2(n: nat): (p: nat)
    ensures p >= 1
  {
    if n == 0 then 1 else 2 * Pow2(n - 1)
  }

  /** x << n, without loss */
  function Shl(x: nat, n: nat): nat {
    if n == 0 then x else 2 * Shl(x, n - 1)
  }

  /** x >> n */
  function Shr(x: nat, n: nat): nat {
    if n == 0 then x else Shr(x / 2, n - 1)
  }

  /** The low n bits of x: x & Mask(n), or what is left of x in an n-bit word. */
  function Low(x: nat, n: nat): nat {
    if n == 0 then 0 else 2 * Low(x / 2, n - 1) + x % 2
  }

  /** The number a bit string denotes, most significant bit first. */
  function Val(s: Bits): nat {
    if s == [] then 0 else 2 * Val(s[..|s| - 1]) + (if s[|s| - 1] then 1 else 0)
  }

  /** The low n bits of v, most significant first. */
  function BitsOf(v: nat, n: nat): (s: Bits)
    ensures |s| == n
  {
    if n == 0 then [] else BitsOf(v / 2, n - 1) + [v % 2 == 1]
  }

  function Zeros(n: nat): (s: Bits)
    ensures |s| == n
    ensures forall i :: 0 <= i < n ==> !s[i]
  {
    seq(n, _ => false)
  }

  /** The bits of a byte string, in the order they are transmitted. */
  function ToBits(bytes: seq<byte>): (s: Bits)
    ensures |s| == 8 * |bytes|
  {
    if bytes == [] then [] else BitsOf(bytes[0], 8) + ToBits(bytes[1..])
  }

  lemma {:induction false} Pow2Mono(m: nat, n: nat)
    requires m <= n
    ensures Pow2(m) <= Pow2(n)
  {
    if m < n {
      Pow2Mono(m, n - 1);
    }
  }

  lemma {:induction false} ShlAdd(x: nat, m: nat, n: nat)
    ensures Shl(Shl(x, m), n) == Shl(x, m + n)
  {
    if n > 0 {
      ShlAdd(x, m, n - 1);
    }
  }

  lemma {:induction false} ShlIsProduct(x: nat, n: nat)
    ensures Shl(x, n) == x * Pow2(n)
  {
    if n > 0 {
      ShlIsProduct(x, n - 1);
    }
  }

  lemma Pow2Add(m: nat, n: nat)
    ensures Pow2(m + n) == Pow2(m) * Pow2(n)
  {
    ShlAdd(1, m, n);
    ShlIsProduct(1, m + n);
    ShlIsProduct(1, m);
    ShlIsProduct(Pow2(m), n);
  }

  lemma Pow2Small()
    ensures Pow2(0) == 1 && Pow2(1) == 2 && Pow2(3) == 8 && Pow2(4) == 16
  {
    assert Pow2(2) == 4;
  }

  lemma Pow2Known()
    ensures Pow2(0) == 1 && Pow2(1) == 2 && Pow2(3) == 8 && Pow2(8) == 256
    ensures Pow2(16) == 0x1_0000 && Pow2(32) == 0x1_0000_0000
    ensures Pow2(57) == 0x200_0000_0000_0000 && Pow2(64) == WORD
  {
    hide Pow2;
    Pow2Small();
    Pow2Add(4, 4);
    Pow2Add(8, 8);
    Pow2Add(16, 16);
    Pow2Add(32, 32);
    Pow2Add(16, 8);
    Pow2Add(32, 24);
    Pow2Add(56, 1);
  }

  lemma {:induction false} LowBound(x: nat, n: nat)
    ensures Low(x, n) < Pow2(n)
  {
    if n > 0 {
      LowBound(x / 2, n - 1);
    }
  }

  /** A number that fits in n bits is all of its low n bits. */
  lemma {:induction false} LowSmall(x: nat, n: nat)
    requires x < Pow2(n)
    ensures Low(x, n) == x
  {
    if n > 0 {
      LowSmall(x / 2, n - 1);
    }
  }

  lemma {:induction false} LowLow(x: nat, m: nat, n: nat)
    requires n <= m
    ensures Low(Low(x, m), n) == Low(x, n)
  {
    if n > 0 {
      LowLow(x / 2, m - 1, n - 1);
    }
  }

  /** Masking with 0xff. */
  lemma LowByte(x: nat)
    ensures Low(x, 8) == x % 256
  {
    LowIsMod(x, 8);
    Pow2Known();
  }

  lemma {:induction false} LowIsMod(x: nat, n: nat)
    ensures Low(x, n) == x % Pow2(n)
  {
    LowRest(x, n);
    LowBound(x, n);
    ShlIsProduct(Shr(x, n), n);
    DivModUnique(x, Pow2(n), Shr(x, n), Low(x, n));
  }

  /** Shifting out the low n bits and putting them back. */
  lemma {:induction false} LowRest(x: nat, n: nat)
    ensures x == Shl(Shr(x, n), n) + Low(x, n)
  {
    if n > 0 {
      LowRest(x / 2, n - 1);
    }
  }

  /** Quotient and remainder are unique. */
  lemma DivModUnique(x: int, d: int, q: int, r: int)
    requires d > 0 && 0 <= r < d && x == q * d + r
    ensures x / d == q && x % d == r
  {
    var q' := x / d;
    assert x == q' * d + x % d;
    Distribute(q' - q, q, d);
    if q' > q {
      AtLeastOnce(q' - q, d);
    } else if q' < q {
      AtLeastOnce(q - q', d);
      Distribute(q - q', q', d);
    }
  }

  lemma Distribute(a: int, b: int, d: int)
    ensures (a + b) * d == a * d + b * d
  {
  }

  lemma AtLeastOnce(k: int, d: int)
    requires k >= 1 && d > 0
    ensures k * d >= d
  {
  }

  lemma {:induction false} ShrLow(x: nat, m: nat, n: nat)
    requires n <= m
    ensures Shr(Low(x, m), n) == Low(Shr(x, n), m - n)
  {
    if n > 0 {
      ShrLow(x / 2, m - 1, n - 1);
    }
  }

  lemma {:induction false} ValBound(s: Bits)
    ensures Val(s) < Pow2(|s|)
  {
    if s != [] {
      ValBound(s[..|s| - 1]);
    }
  }

  lemma {:induction false} ValConcat(a: Bits, b: Bits)
    ensures Val(a + b) == Shl(Val(a), |b|) + Val(b)
  {
    if b == [] {
      assert a + b == a;
    } else {
      var b' := b[..|b| - 1];
      assert (a + b)[..|a + b| - 1] == a + b';
      ValConcat(a, b');
    }
  }

  lemma {:induction false} ValPrefix(s: Bits, k: nat)
    requires k <= |s|
    ensures Shr(Val(s), k) == Val(s[..|s| - k])
    ensures Low(Val(s), k) == Val(s[|s| - k..])
  {
    if k == 0 {
      assert s[..|s|] == s;
    } else {
      var s', t := s[..|s| - 1], s[|s| - k..];
      ValPrefix(s', k - 1);
      assert s'[..|s'| - (k - 1)] == s[..|s| - k];
      assert t[..|t| - 1] == s'[|s'| - (k - 1)..];
    }
  }

  lemma {:induction false} ValBitsOf(v: nat, n: nat)
    ensures Val(BitsOf(v, n)) == Low(v, n)
  {
    if n > 0 {
      assert BitsOf(v, n)[..n - 1] == BitsOf(v / 2, n - 1);
      ValBitsOf(v / 2, n - 1);
    }
  }

  lemma {:induction false} BitsOfVal(s: Bits)
    ensures BitsOf(Val(s), |s|) == s
  {
    if s != [] {
      BitsOfVal(s[..|s| - 1]);
      assert s == s[..|s| - 1] + [s[|s| - 1]];
    }
  }

  /** Only the low bits of a number matter. */
  lemma {:induction false} BitsOfLow(v: nat, m: nat, n: nat)
    requires n <= m
    ensures BitsOf(Low(v, m), n) == BitsOf(v, n)
  {
    if n > 0 {
      BitsOfLow(v / 2, m - 1, n - 1);
    }
  }

  /** Two numbers have the same n-bit string just when their low n bits agree. */
  lemma BitsOfInjective(x: nat, y: nat, n: nat)
    ensures BitsOf(x, n) == BitsOf(y, n) <==> Low(x, n) == Low(y, n)
  {
    ValBitsOf(x, n);
    ValBitsOf(y, n);
    BitsOfLow(x, n, n);
    BitsOfLow(y, n, n);
  }

  /** Splitting a number at bit n splits its bit string there. */
  lemma {:induction false} BitsOfSplit(v: nat, m: nat, n: nat)
    ensures BitsOf(v, m + n) == BitsOf(Shr(v, n), m) + BitsOf(v, n)
  {
    if n > 0 {
      BitsOfSplit(v / 2, m, n - 1);
    }
  }

  lemma {:induction false} ShrIsQuotient(x: nat, n: nat)
    ensures Shr(x, n) == x / Pow2(n)
  {
    LowRest(x, n);
    LowBound(x, n);
    ShlIsProduct(Shr(x, n), n);
    DivModUnique(x, Pow2(n), Shr(x, n), Low(x, n));
  }

  /** Bit i from the left counts 2^(n - 1 - i). */
  lemma {:induction false} BitsOfAt(v: nat, n: nat, i: nat)
    requires i < n
    ensures BitsOf(v, n)[i] == (v / Pow2(n - 1 - i) % 2 == 1)
  {
    var k := n - 1 - i;
    BitsOfSplit(v, i + 1, k);
    ShrIsQuotient(v, k);
    assert BitsOf(Shr(v, k), i + 1)[i] == (Shr(v, k) % 2 == 1);
  }

  lemma BitsOfStep(v: nat, n: nat)
    requires n > 0
    ensures BitsOf(v, n) == BitsOf(v / 2, n - 1) + [v % 2 == 1]
  {
  }

  lemma ThreeBits(x: nat)
    ensures BitsOf(x, 2) == [x / 2 % 2 == 1, x % 2 == 1]
    ensures BitsOf(x, 3) == [x / 4 % 2 == 1, x / 2 % 2 == 1, x % 2 == 1]
  {
    hide BitsOf;
    BitsOfStep(x, 3);
    BitsOfStep(x, 2);
    BitsOfStep(x / 2, 2);
    BitsOfStep(x / 2, 1);
    BitsOfStep(x / 2 / 2, 1);
  }

  lemma {:induction false} ToBitsConcat(a: seq<byte>, b: seq<byte>)
    ensures ToBits(a + b) == ToBits(a) + ToBits(b)
  {
    if a == [] {
      assert a + b == b;
    } else {
      assert (a + b)[1..] == a[1..] + b;
      ToBitsConcat(a[1..], b);
    }
  }
}
