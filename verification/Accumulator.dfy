/** The 64-bit accumulator shared by the two bit writers (bits/ebspwriter.go and
    bits/fixedslicewriter.go).
  */
module Accumulator {
  import opened BitStrings

  /** `v <<= n; v |= bits & Mask(n)` on 64 bits. */
  function Accumulate(v: nat, bits: nat, n: nat): nat {
    Low(Shl(v, n), 64) + Low(bits, n)
  }

  /** The whole bytes among the top bits of the low m bits of acc. */
  function WholeBytes(acc: nat, m: nat): seq<byte> {
    if m < 8 then [] else [Shr(acc, m - 8) % 256] + WholeBytes(acc, m - 8)
  }

  /** v << n joined with n more bits, without a word limit. */
  function Joined(v: nat, bits: nat, n: nat): nat {
    Shl(v, n) + Low(bits, n)
  }

  /** The k pending bits of v and the n new bits denote a number that a 64-bit word can hold. */
  predicate Fits(v: nat, k: nat, bits: nat, n: nat) {
    Low(Joined(v, bits, n), k + n) < WORD
  }

  lemma {:induction false} JoinedBits(v: nat, k: nat, bits: nat, n: nat)
    ensures BitsOf(Joined(v, bits, n), k + n) == BitsOf(v, k) + BitsOf(bits, n)
  {
    if n > 0 {
      JoinedBits(v, k, bits / 2, n - 1);
      assert Joined(v, bits, n) == 2 * Joined(v, bits / 2, n - 1) + bits % 2;
    }
  }

  lemma {:induction false} JoinedLow(v: nat, bits: nat, n: nat, j: nat)
    ensures n <= j ==> Low(Joined(v, bits, n), j) == Low(Shl(v, n), j) + Low(bits, n)
    ensures n >= j ==> Low(Shl(v, n), j) == 0 && Low(Joined(v, bits, n), j) == Low(bits, j)
  {
    if n > 0 && j > 0 {
      JoinedLow(v, bits / 2, n - 1, j - 1);
      assert Joined(v, bits, n) == 2 * Joined(v, bits / 2, n - 1) + bits % 2;
    }
  }

  /** `|` never carries: the accumulator is the joined number cut to 64 bits. */
  lemma AccumulateIsJoined(v: nat, bits: nat, n: nat)
    requires bits < WORD
    ensures Accumulate(v, bits, n) == Low(Joined(v, bits, n), 64) < WORD
    ensures n <= 64 ==> Low(Shl(v, n), n) == 0
  {
    JoinedLow(v, bits, n, 64);
    JoinedLow(v, bits, n, n);
    Pow2Known();
    LowBound(Joined(v, bits, n), 64);
    if n >= 64 {
      Pow2Mono(64, n);
      LowSmall(bits, 64);
      LowSmall(bits, n);
    }
  }

  /** A write appends exactly the wanted bits if and only if pending and new bits fit one word. */
  lemma AccumulateExact(v: nat, k: nat, bits: nat, n: nat)
    requires bits < WORD
    ensures BitsOf(Accumulate(v, bits, n), k + n) == BitsOf(v, k) + BitsOf(bits, n)
       <==> Fits(v, k, bits, n)
    ensures k + n <= 64 ==> Fits(v, k, bits, n)
  {
    var x, m := Joined(v, bits, n), k + n;
    AccumulateIsJoined(v, bits, n);
    JoinedBits(v, k, bits, n);
    CutIsExact(x, m);
  }

  lemma CutIsExact(x: nat, m: nat)
    ensures BitsOf(Low(x, 64), m) == BitsOf(x, m) <==> Low(x, m) < WORD
    ensures m <= 64 ==> Low(x, m) < WORD
  {
    BitsOfInjective(Low(x, 64), x, m);
    LowBound(x, m);
    LowBound(x, 64);
    Pow2Known();
    if m <= 64 {
      LowLow(x, 64, m);
      Pow2Mono(m, 64);
    } else {
      Pow2Mono(64, m);
      LowSmall(Low(x, 64), m);
      LowLow(x, m, 64);
      if Low(x, m) < WORD {
        LowSmall(Low(x, m), 64);
      }
    }
  }

  lemma TopByte(acc: nat, m: nat)
    requires m >= 8
    ensures BitsOf(acc, m) == BitsOf(Shr(acc, m - 8) % 256, 8) + BitsOf(acc, m - 8)
  {
    BitsOfSplit(acc, 8, m - 8);
    LowByte(Shr(acc, m - 8));
    BitsOfLow(Shr(acc, m - 8), 8, 8);
  }

  /** The whole bytes and the bits left over are the bits of the accumulator. */
  lemma {:induction false} WholeBytesBits(acc: nat, m: nat)
    ensures ToBits(WholeBytes(acc, m)) + BitsOf(acc, m % 8) == BitsOf(acc, m)
  {
    if m >= 8 {
      var b: byte, rest := Shr(acc, m - 8) % 256, WholeBytes(acc, m - 8);
      assert BitsOf(acc, m) == BitsOf(b, 8) + BitsOf(acc, m - 8) by {
        TopByte(acc, m);
      }
      assert BitsOf(acc, m - 8) == ToBits(rest) + BitsOf(acc, m % 8) by {
        WholeBytesBits(acc, m - 8);
        assert (m - 8) % 8 == m % 8;
      }
      assert ToBits([b] + rest) == BitsOf(b, 8) + ToBits(rest) by {
        assert ([b] + rest)[1..] == rest;
      }
    } else {
      assert ToBits([]) + BitsOf(acc, m) == BitsOf(acc, m);
    }
  }

  /** What one write does to the bits written: whole bytes leave, the rest stays pending. */
  lemma WriteOnBits(p: seq<byte>, acc: nat, m: nat)
    ensures ToBits(p + WholeBytes(acc, m)) + BitsOf(acc % 256, m % 8) == ToBits(p) + BitsOf(acc, m)
  {
    var bytes, left := WholeBytes(acc, m), BitsOf(acc, m % 8);
    assert BitsOf(acc % 256, m % 8) == left by {
      LowByte(acc);
      BitsOfLow(acc, 8, m % 8);
    }
    assert ToBits(p + bytes) == ToBits(p) + ToBits(bytes) by {
      ToBitsConcat(p, bytes);
    }
    assert ToBits(bytes) + left == BitsOf(acc, m) by {
      WholeBytesBits(acc, m);
    }
    assert ToBits(p) + ToBits(bytes) + left == ToBits(p) + (ToBits(bytes) + left);
  }

  lemma SameTail(a: Bits, x: Bits, y: Bits)
    ensures a + x == a + y <==> x == y
  {
    if a + x == a + y {
      assert x == (a + x)[|a|..] == (a + y)[|a|..] == y;
    }
  }

  /** After a write the new bits follow all earlier ones if and only if they fit next to the pending ones. */
  lemma WriteExact(p: seq<byte>, v: nat, k: nat, bits: nat, n: nat)
    requires bits < WORD
    ensures var acc, m := Accumulate(v, bits, n), k + n;
            ToBits(p + WholeBytes(acc, m)) + BitsOf(acc % 256, m % 8) == ToBits(p) + BitsOf(v, k) + BitsOf(bits, n)
            <==> Fits(v, k, bits, n)
    ensures k + n <= 64 ==> Fits(v, k, bits, n)
  {
    var acc, m := Accumulate(v, bits, n), k + n;
    WriteOnBits(p, acc, m);
    AccumulateExact(v, k, bits, n);
    assert ToBits(p) + BitsOf(v, k) + BitsOf(bits, n) == ToBits(p) + (BitsOf(v, k) + BitsOf(bits, n));
    SameTail(ToBits(p), BitsOf(acc, m), BitsOf(v, k) + BitsOf(bits, n));
  }

  /** Whatever a write loses, the bits that stay pending are right. */
  lemma PendingRight(p: seq<byte>, v: nat, k: nat, bits: nat, n: nat, w: Bits, w': Bits)
    requires bits < WORD
    requires w == ToBits(p) + BitsOf(v, k) + BitsOf(bits, n)
    requires w' == ToBits(p + WholeBytes(Accumulate(v, bits, n), k + n))
                   + BitsOf(Accumulate(v, bits, n) % 256, (k + n) % 8)
    ensures |w| == |w'| && w[|w| - (k + n) % 8..] == w'[|w| - (k + n) % 8..]
  {
    hide WholeBytes, Accumulate, Low, Joined;
    var acc, m, x := Accumulate(v, bits, n), k + n, Joined(v, bits, n);
    WriteOnBits(p, acc, m);
    AccumulateIsJoined(v, bits, n);
    JoinedBits(v, k, bits, n);
    assert w == ToBits(p) + BitsOf(x, m);
    CutTail(acc, x, m);
    LastBits(ToBits(p), BitsOf(x, m), BitsOf(acc, m), m % 8);
  }

  lemma CutTail(acc: nat, x: nat, m: nat)
    requires acc == Low(x, 64)
    ensures BitsOf(acc, m)[m - m % 8..] == BitsOf(x, m)[m - m % 8..]
  {
    hide Low, Shr, BitsOf;
    var r := m % 8;
    BitsOfSplit(acc, m - r, r);
    BitsOfSplit(x, m - r, r);
    BitsOfLow(x, 64, r);
  }

  lemma LastBits(a: Bits, b: Bits, c: Bits, r: nat)
    requires r <= |b| == |c| && b[|b| - r..] == c[|b| - r..]
    ensures (a + b)[|a + b| - r..] == (a + c)[|a + b| - r..]
  {
    assert (a + b)[|a + b| - r..] == b[|b| - r..];
    assert (a + c)[|a + b| - r..] == c[|b| - r..];
  }

  /** What a second write leaves of the bits of a first one, w', can only be right where they were: w are the right
      ones, and more follows them.
    */
  lemma FirstRight(p: seq<byte>, q: seq<byte>, t: Bits, r: Bits, w: Bits, w': Bits, more: Bits)
    requires w' == ToBits(p) + t && |w| == |w'| && w[|ToBits(p)|..] == w'[|ToBits(p)|..]
    requires w + more == ToBits(p + q) + r
    ensures w == w'
  {
    var b := ToBits(p);
    ToBitsConcat(p, q);
    assert w[..|b|] == (w + more)[..|b|] == (b + (ToBits(q) + r))[..|b|] == b;
    assert w == w[..|b|] + w[|b|..] && w' == b + w'[|b|..];
  }

  /** Two writes in a row keep all bits if and only if both fit. */
  lemma TwoWrites(p: seq<byte>, v: nat, k: nat, bits: nat, n: nat, bits': nat, n': nat)
    requires bits < WORD && bits' < WORD
    ensures var acc, m := Accumulate(v, bits, n), k + n;
            var p1, v1, k1 := p + WholeBytes(acc, m), acc % 256, m % 8;
            var acc', m' := Accumulate(v1, bits', n'), k1 + n';
            ToBits(p1 + WholeBytes(acc', m')) + BitsOf(acc' % 256, m' % 8)
            == ToBits(p) + BitsOf(v, k) + (BitsOf(bits, n) + BitsOf(bits', n'))
            <==> Fits(v, k, bits, n) && Fits(v1, k1, bits', n')
  {
    hide WholeBytes, Accumulate, Fits, BitsOf, ToBits;
    var acc, m := Accumulate(v, bits, n), k + n;
    var p1, v1, k1 := p + WholeBytes(acc, m), acc % 256, m % 8;
    var acc', m' := Accumulate(v1, bits', n'), k1 + n';
    var w, w1 := ToBits(p) + BitsOf(v, k) + BitsOf(bits, n), ToBits(p1) + BitsOf(v1, k1);
    var q, r := WholeBytes(acc', m'), BitsOf(acc' % 256, m' % 8);
    WriteExact(p, v, k, bits, n);
    WriteExact(p1, v1, k1, bits', n');
    PendingRight(p, v, k, bits, n, w, w1);
    Assoc(ToBits(p) + BitsOf(v, k), BitsOf(bits, n), BitsOf(bits', n'));
    if ToBits(p1 + q) + r == w + BitsOf(bits', n') {
      FirstRight(p1, q, BitsOf(v1, k1), r, w, w1, BitsOf(bits', n'));
    }
  }
}
