/** bits/fixedslicewriter.go: the bit-writing part of a writer over a slice of fixed size. */
module SliceWriter {
  import opened BitStrings
  import opened Accumulator
  import opened Golomb

  const MIN_INT := -0x8000_0000_0000_0000

  class FixedSliceWriter {
    const buf: array<byte>
    var off: nat
    var err: bool
    var n: nat
    var v: nat

    ghost predicate Valid()
      reads this
    {
      off <= buf.Length && (!err ==> n < 8 && v < 256)
    }

    /** Every bit written since creation. */
    ghost function Written(): Bits
      requires off <= buf.Length
      reads this, buf
    {
      ToBits(buf[..off]) + BitsOf(v, n)
    }

    constructor (size: nat)
      ensures Valid() && !err && fresh(buf) && buf.Length == size && off == 0 && Written() == []
    {
      buf := new byte[size](_ => 0);
      off, err, n, v := 0, false, 0, 0;
    }

    method WriteUint8(b: byte)
      requires off <= buf.Length
      modifies this`off, this`err, buf
      ensures off <= buf.Length
      ensures old(off) == buf.Length ==> err && off == old(off) && buf[..off] == old(buf[..off])
      ensures old(off) < buf.Length ==> err == old(err) && off == old(off) + 1 && buf[..off] == old(buf[..off]) + [b]
    {
      if off + 1 > buf.Length {
        err := true;
        return;
      }
      buf[off] := b;
      off := off + 1;
    }

    /** The loop of WriteBits. When the slice is full it goes on without writing. */
    method EmitWholeBytes()
      requires off <= buf.Length && !err
      modifies this`off, this`err, this`n, buf
      ensures off <= buf.Length && n == old(n) % 8
      ensures !err ==> buf[..off] == old(buf[..off]) + WholeBytes(v, old(n))
      ensures err <==> old(off) + |WholeBytes(v, old(n))| > buf.Length
      ensures buf[..old(off)] == old(buf[..off]) && off >= old(off)
    {
      ghost var target := buf[..off] + WholeBytes(v, n);
      while n >= 8
        invariant old(off) <= off <= buf.Length && n % 8 == old(n) % 8
        invariant buf[..old(off)] == old(buf[..off])
        invariant !err ==> buf[..off] + WholeBytes(v, n) == target
        invariant err ==> |target| > buf.Length
      {
        var b: byte := Shr(v, n - 8) % 256;
        assert WholeBytes(v, n) == [b] + WholeBytes(v, n - 8);
        ghost var before := buf[..off];
        WriteUint8(b);
        assert !err ==> before + [b] + WholeBytes(v, n - 8) == target;
        n := n - 8;
      }
      assert !err ==> buf[..off] == target;
    }

    /** Writes the low n bits of bits, which come out right if and only if they fit next to the pending ones. */
    method WriteBits(bits: nat, n: nat)
      requires Valid() && bits < WORD
      modifies this`off, this`err, this`n, this`v, buf
      ensures Valid()
      ensures old(err) ==> err
      ensures !err ==> (Written() == old(Written()) + BitsOf(bits, n) <==> Fits(old(v), old(this.n), bits, n))
      ensures old(this.n) + n <= 64 ==> Fits(old(v), old(this.n), bits, n)
      ensures !err ==> buf[..off] == old(buf[..off]) + WholeBytes(Accumulate(old(v), bits, n), old(this.n) + n)
                       && this.n == (old(this.n) + n) % 8 && v == Accumulate(old(v), bits, n) % 256
      ensures !old(err) ==>
                (err <==> old(off) + |WholeBytes(Accumulate(old(v), bits, n), old(this.n) + n)| > buf.Length)
    {
      WriteExact(buf[..off], v, this.n, bits, n);
      if err {
        return;
      }
      v := Accumulate(v, bits, n);
      this.n := this.n + n;
      EmitWholeBytes();
      v := v % 256; // v &= Mask(8)
    }

    /** Writes ue(v) in one piece of 2 * lz + 1 bits, which comes out right if and only if it fits next to the pending
        bits. The greatest x wraps around to a single zero bit.
      */
    method WriteExpGolomb(x: nat)
      requires Valid() && x < WORD
      modifies this`off, this`err, this`n, this`v, buf
      ensures Valid()
      ensures old(err) ==> err
      ensures !err && x + 1 < WORD ==> (Written() == old(Written()) + Ue(x) <==> Fits(old(v), old(n), x + 1, |Ue(x)|))
      ensures !err && x + 1 == WORD ==> Written() == old(Written()) + [false]
      ensures x + 1 < WORD && old(n) + |Ue(x)| <= 64 ==> Fits(old(v), old(n), x + 1, |Ue(x)|)
    {
      hide Fits, Low, Accumulate, WholeBytes, FloorLog2, Ue, ToBits, BitsOf, Pow2;
      if err {
        if x + 1 < WORD {
          AccumulateExact(v, n, x + 1, |Ue(x)|);
        }
        return;
      }
      var leadingZeroBits := CountZeros(x);
      if x + 1 < WORD {
        UeByWidth(x, leadingZeroBits);
      } else {
        assert BitsOf(0, 1) == [false] by {
          ZeroBits(1);
        }
      }
      WriteBits((x + 1) % WORD, 2 * leadingZeroBits + 1);
    }

    /** Writes se(v). The least x, whose codeNum does not fit a word, comes out as 0. */
    method WriteSignedGolomb(x: int)
      requires Valid() && MIN_INT <= x < -MIN_INT
      modifies this`off, this`err, this`n, this`v, buf
      ensures Valid()
      ensures old(err) ==> err
      ensures !err && x > MIN_INT ==>
                (Written() == old(Written()) + Ue(SeCode(x)) <==> Fits(old(v), old(n), SeCode(x) + 1, |Ue(SeCode(x))|))
      ensures !err && x == MIN_INT ==> Written() == old(Written()) + Ue(0)
      ensures x > MIN_INT && old(n) + |Ue(SeCode(x))| <= 64 ==> Fits(old(v), old(n), SeCode(x) + 1, |Ue(SeCode(x))|)
    {
      hide Fits, BitsOf, FloorLog2, Ue;
      if err {
        AccumulateExact(v, n, SeCode(x) % WORD + 1, |Ue(SeCode(x))|);
        return;
      }
      var codeNum := (if x <= 0 then -2 * x else 2 * x - 1) % WORD;
      if x == MIN_INT {
        SmallUeFits(0);
      }
      WriteExpGolomb(codeNum);
    }

    /** Writes the pending bits, followed by zeros up to a byte. The pending bits stay pending. */
    method FlushBits()
      requires Valid()
      modifies this`off, this`err, buf
      ensures Valid()
      ensures old(err) ==> err && off == old(off)
      ensures !old(err) ==> (err <==> old(n) != 0 && old(off) == buf.Length)
      ensures !err ==> ToBits(buf[..off]) == old(Written()) + Zeros((8 - n) % 8)
    {
      if err {
        return;
      }
      hide Shl, ToBits, BitsOf;
      if n != 0 {
        var b: byte := Shl(v, 8 - n) % 256;
        FlushedByte(buf[..off], v, n, b);
        WriteUint8(b);
      } else {
        assert Written() + [] == ToBits(buf[..off]);
      }
    }
  }

  lemma FlushedByte(p: seq<byte>, v: nat, n: nat, b: byte)
    requires 0 < n < 8 && b == Shl(v, 8 - n) % 256
    ensures ToBits(p + [b]) == ToBits(p) + BitsOf(v, n) + Zeros(8 - n)
  {
    assert BitsOf(b, 8) == BitsOf(v, n) + Zeros(8 - n) by {
      PaddedByte(v, n, 8);
      LowByte(Shl(v, 8 - n));
    }
    ToBitsConcat(p, [b]);
    assert ToBits([b]) == BitsOf(b, 8) + ToBits([]);
    assert ToBits(p) + (BitsOf(v, n) + Zeros(8 - n)) == ToBits(p) + BitsOf(v, n) + Zeros(8 - n);
  }

  /** n bits shifted to the top of w bits. */
  lemma PaddedByte(v: nat, n: nat, w: nat)
    requires n < w
    ensures BitsOf(Low(Shl(v, w - n), w), w) == BitsOf(v, n) + Zeros(w - n)
  {
    BitsOfLow(Shl(v, w - n), w, w);
    JoinedBits(v, n, 0, w - n);
    ZeroBits(w - n);
    LowZero(w - n);
  }

  lemma {:induction false} LowZero(n: nat)
    ensures Low(0, n) == 0
  {
    if n > 0 {
      LowZero(n - 1);
    }
  }

  /** The loop that counts the leading zeros of ue(v). */
  method CountZeros(x: nat) returns (leadingZeroBits: nat)
    requires x < WORD
    ensures leadingZeroBits == if x + 1 < WORD then FloorLog2(x + 1) else 0
  {
    leadingZeroBits := 0;
    var v := (x + 1) % WORD;
    while v > 1
      invariant x + 1 < WORD ==> v >= 1 && leadingZeroBits + FloorLog2(v) == FloorLog2(x + 1)
      invariant x + 1 == WORD ==> v == leadingZeroBits == 0
    {
      v := v / 2;
      leadingZeroBits := leadingZeroBits + 1;
    }
  }

  lemma Pow29()
    ensures Pow2(29) == 0x2000_0000
  {
    Pow2Add(16, 13);
    Pow2Add(8, 5);
    Pow2Known();
    assert Pow2(5) == 4 * Pow2(3);
  }

  /** ue(v) of a value below 2^29 - 1 always fits next to seven pending bits. */
  lemma SmallUeFits(x: nat)
    requires x + 1 < 0x2000_0000
    ensures |Ue(x)| + 7 <= 64
  {
    var l := FloorLog2(x + 1);
    FloorLog2Bounds(x + 1);
    Pow29();
    if l >= 29 {
      Pow2Mono(29, l);
    }
  }

  /** But 2^29 - 1, within the range of ue(v), loses its pending bits: here 1000000. */
  lemma LargeUeLosesBits()
    ensures Low(64, 7) == 64
    ensures !Fits(64, 7, 0x2000_0000, 59)
    ensures BitsOf(Accumulate(64, 0x2000_0000, 59), 66) != BitsOf(64, 7) + BitsOf(0x2000_0000, 59)
  {
    AccumulateExact(64, 7, 0x2000_0000, 59);
    JoinedTooLarge(64, 0x2000_0000, 59);
    LowSmall(64, 7);
  }

  lemma JoinedTooLarge(v: nat, bits: nat, n: nat)
    requires v == 64 && n == 59
    ensures Low(Joined(v, bits, n), 7 + n) >= WORD
  {
    JoinedBits(v, 7, bits, n);
    ValBitsOf(Joined(v, bits, n), 7 + n);
    ValConcat(BitsOf(v, 7), BitsOf(bits, n));
    ValBitsOf(v, 7);
    LowSmall(v, 7);
    ShlIsProduct(64, 59);
    Pow2Known();
    Pow2Add(56, 3);
    assert Pow2(56) == 0x100_0000_0000_0000 by { assert Pow2(57) == 2 * Pow2(56); }
  }
}
