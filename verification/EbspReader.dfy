/** bits/ebspreader.go: a bit reader that drops emulation prevention bytes. The underlying reader is
    a byte string read from its start, whose only error is the end of the data.
  */
module EbspReader {
  import opened BitStrings
  import opened Emulation
  import opened Golomb

  /** The zero bits before the first one bit. */
  function LeadingZeros(s: Bits): (k: nat)
    ensures k <= |s|
    ensures forall i :: 0 <= i < k ==> !s[i]
    ensures k < |s| ==> s[k]
  {
    if s == [] || s[0] then 0 else 1 + LeadingZeros(s[1..])
  }

  /** s starts with a whole ue(v) code. */
  predicate HasUe(s: Bits) {
    2 * LeadingZeros(s) + 1 <= |s|
  }

  /** The ue(v) value at the start of s. */
  function UeValue(s: Bits): nat
    requires HasUe(s)
  {
    var lz := LeadingZeros(s);
    Pow2(lz) - 1 + Val(s[lz + 1..2 * lz + 1])
  }

  /** s is rbsp_trailing_bits: a one and then only zeros. */
  predicate OnlyStopBit(s: Bits) {
    s != [] && s[0] && forall i :: 1 <= i < |s| ==> !s[i]
  }

  lemma LeadingZerosUnique(s: Bits, k: nat)
    requires k < |s| && s[k] && forall i :: 0 <= i < k ==> !s[i]
    ensures LeadingZeros(s) == k
  {
    var l := LeadingZeros(s);
    assert !(l < k) && !(k < l);
  }

  /** ue(v) is parsed back, whatever follows it. */
  lemma UeParses(x: nat, tail: Bits)
    ensures HasUe(Ue(x) + tail)
    ensures UeValue(Ue(x) + tail) == x
    ensures (Ue(x) + tail)[|Ue(x)|..] == tail
    ensures LeadingZeros(Ue(x) + tail) == FloorLog2(x + 1)
  {
    var lz, s := FloorLog2(x + 1), Ue(x) + tail;
    UeShape(x, lz);
    var d := x + 1 - Pow2(lz);
    assert s[lz] == BitsOf(x + 1, lz + 1)[0];
    LeadingZerosUnique(s, lz);
    assert s[lz + 1..2 * lz + 1] == BitsOf(d, lz);
    ValBitsOf(d, lz);
    LowSmall(d, lz);
  }

  /** What a read of n bits returns when the buffered bits p, cut to a word, are v. */
  lemma SplitBuffer(p: Bits, v: nat, n: nat)
    requires n <= |p| < n + 8 && v == Low(Val(p), 64)
    ensures var k := |p| - n;
            && Shr(v, k) == Low(Val(p[..n]), 64 - k)
            && Low(v, k) == Val(p[n..]) < Pow2(k)
            && BitsOf(Low(v, k), k) == p[n..]
            && (n <= 57 ==> Shr(v, k) == Val(p[..n]))
  {
    var k := |p| - n;
    ShrLow(Val(p), 64, k);
    LowLow(Val(p), 64, k);
    ValPrefix(p, k);
    ValBound(p[n..]);
    BitsOfVal(p[n..]);
    if n <= 57 {
      ValBound(p[..n]);
      Pow2Mono(n, 64 - k);
      LowSmall(Val(p[..n]), 64 - k);
    }
  }

  lemma TakeBits(p: Bits, tail: Bits, rest: Bits, v: nat, n: nat)
    requires n <= |p| < n + 8 && v == Low(Val(p), 64) && p + tail == rest
    ensures var k := |p| - n;
            && Shr(v, k) == Low(Val(rest[..n]), 64 - k)
            && Low(v, k) < Pow2(k)
            && BitsOf(Low(v, k), k) + tail == rest[n..]
            && (n <= 57 ==> Shr(v, k) == Val(rest[..n]))
  {
    assert p[..n] == rest[..n] && p[n..] + tail == rest[n..];
    SplitBuffer(p, v, n);
  }

  lemma {:induction false} ZeroShift(k: nat, w: nat)
    ensures Shl(0, k) == 0 && Low(0, w) == 0
  {
    if k > 0 {
      ZeroShift(k - 1, w);
    } else if w > 0 {
      ZeroShift(k, w - 1);
    }
  }

  lemma OneBit(b: bool)
    ensures Val([b]) == if b then 1 else 0
  {
    assert [b][..0] == [];
  }

  /** `(1 << leadingZeroBits) - 1 + endBits` on 64 bits. */
  function CodeNum(lz: nat, endBits: nat): (x: nat)
    ensures x < WORD
  {
    ((if lz >= 64 then WORD - 1 else Pow2(lz) - 1) + endBits) % WORD
  }

  lemma CodeNumExact(lz: nat, q: Bits, endBits: nat)
    requires |q| == lz <= 57 && endBits == Val(q)
    ensures CodeNum(lz, endBits) == Pow2(lz) - 1 + endBits < WORD - 1
  {
    ValBound(q);
    Pow2Mono(lz, 57);
    Pow2Known();
  }

  /** Where n bits stay in the accumulator, endBits is cut to 64 - n bits. The sum is right if and only if it fits a
      word and nothing was cut.
    */
  lemma CodeNumIff(lz: nat, q: Bits, n: nat, endBits: nat)
    requires |q| == lz && n < 8 && endBits == Low(Val(q), 64 - n)
    ensures CodeNum(lz, endBits) == Pow2(lz) - 1 + Val(q) <==> Pow2(lz) - 1 + Val(q) < WORD && Val(q) < Pow2(64 - n)
  {
    hide Val, Low, Pow2;
    LowAtMost(Val(q), 64 - n);
    Pow2Known();
    if lz > 64 {
      Pow2Mono(65, lz);
      Pow2Double(64);
    } else if lz < 64 {
      Pow2Mono(lz, 63);
      Pow2Double(63);
      Pow2Mono(64 - n, 64);
    }
  }

  lemma Pow2Double(n: nat)
    ensures Pow2(n + 1) == 2 * Pow2(n)
  {
  }

  lemma LowAtMost(x: nat, n: nat)
    ensures Low(x, n) <= x && Low(x, n) < Pow2(n)
    ensures Low(x, n) == x <==> x < Pow2(n)
  {
    LowBound(x, n);
    LowRest(x, n);
    if x < Pow2(n) {
      LowSmall(x, n);
    }
  }

  lemma UeTail(rest: Bits, lz: nat, endBits: nat, n: nat)
    requires HasUe(rest) && lz == LeadingZeros(rest) && n < 8
    requires endBits == Low(Val(rest[lz + 1..][..lz]), 64 - n)
    ensures lz <= 57 ==> CodeNum(lz, endBits) == UeValue(rest) < WORD - 1
    ensures CodeNum(lz, endBits) == UeValue(rest)
       <==> UeValue(rest) < WORD && UeValue(rest) + 1 - Pow2(lz) < Pow2(64 - n)
    ensures rest[lz + 1..][lz..] == rest[2 * lz + 1..]
  {
    hide Low, Val, CodeNum, Pow2;
    var q := rest[lz + 1..2 * lz + 1];
    assert rest[lz + 1..][..lz] == q;
    assert UeValue(rest) == Pow2(lz) - 1 + Val(q);
    CodeNumIff(lz, q, n, endBits);
    if lz <= 57 {
      ValBound(q);
      Pow2Mono(lz, 64 - n);
      LowSmall(Val(q), 64 - n);
      CodeNumExact(lz, q, endBits);
    }
  }

  /** A buffer of fewer than eight bits. */
  lemma FullBuffer(v: nat, n: nat)
    requires n < 8 && v < Pow2(n)
    ensures v == Low(Val(BitsOf(v, n)), 64)
  {
    ValBitsOf(v, n);
    LowSmall(v, n);
    Pow2Mono(n, 64);
    LowSmall(v, 64);
  }

  /** `v <<= k; v |= b` on a word of m + k bits that already lost the upper bits of x. */
  lemma ShiftIn(x: nat, v: nat, b: nat, m: nat, k: nat)
    requires v == Low(x, m + k) && b < Pow2(k)
    ensures Low(Shl(v, k), m + k) + b == Low(Shl(x, k) + b, m + k)
  {
    LowShl(x, b, m, k);
    LowShl(v, 0, m, k);
    LowLow(x, m + k, m);
  }

  lemma {:induction false} LowShl(x: nat, b: nat, m: nat, k: nat)
    requires b < Pow2(k)
    ensures Low(Shl(x, k) + b, m + k) == Shl(Low(x, m), k) + b
  {
    if k > 0 {
      LowShl(x, b / 2, m, k - 1);
      assert (Shl(x, k) + b) / 2 == Shl(x, k - 1) + b / 2;
    }
  }

  lemma ShiftInBits(p: Bits, q: Bits, v: nat, b: nat, w: nat)
    requires |q| <= w && v == Low(Val(p), w) && b == Val(q)
    ensures Low(Shl(v, |q|), w) + b == Low(Val(p + q), w)
  {
    ValBound(q);
    ValConcat(p, q);
    ShiftIn(Val(p), v, b, w - |q|, |q|);
  }

  /** Eight more bits in the buffer. */
  lemma PushByte(p: Bits, v: nat, b: byte)
    requires v == Low(Val(p), 64)
    ensures Low(Shl(v, 8), 64) + b == Low(Val(p + BitsOf(b, 8)), 64)
  {
    ByteBits(b);
    ShiftInBits(p, BitsOf(b, 8), v, b, 64);
  }

  lemma BitsCons(p: Bits, b: byte, tail: seq<byte>)
    ensures p + BitsOf(b, 8) + ToBits(tail) == p + ToBits([b] + tail)
  {
    assert ([b] + tail)[1..] == tail;
    assert p + BitsOf(b, 8) + ToBits(tail) == p + (BitsOf(b, 8) + ToBits(tail));
  }

  lemma ByteBits(b: byte)
    ensures Val(BitsOf(b, 8)) == b
  {
    ValBitsOf(b, 8);
    LowByte(b);
  }

  class EBSPReader {
    const src: seq<byte>
    /** Whether the underlying reader supports Seek. */
    const seekable: bool
    /** Where the underlying reader stood when it was handed over. */
    const base: nat
    /** Position of the underlying reader. */
    var rdPos: nat
    var err: bool
    var n: nat
    var v: nat
    var pos: int
    var zeroCount: nat

    ghost predicate Valid()
      reads this
    {
      && rdPos <= |src|
      && base <= base + pos + 1 == rdPos
      && (!err ==> n < 8 && v < Pow2(n))
    }

    /** The payload bytes not yet in the buffer. */
    ghost function Payload(): seq<byte>
      requires rdPos <= |src|
      reads this
    {
      UnescapeFrom(src[rdPos..], zeroCount)
    }

    /** All payload bits still to be read. */
    ghost function Rest(): Bits
      requires rdPos <= |src|
      reads this
    {
      BitsOf(v, n) + ToBits(Payload())
    }

    constructor (src: seq<byte>, seekable: bool, base: nat)
      requires base <= |src|
      ensures Valid() && !err && this.src == src && this.seekable == seekable && this.base == base
      ensures Rest() == ToBits(UnescapeFrom(src[base..], 0))
    {
      this.src, this.seekable, this.base := src, seekable, base;
      rdPos, err, n, v, pos, zeroCount := base, false, 0, 0, -1, 0;
    }

    /** binary.Read of one byte. */
    method ReadByte() returns (b: byte)
      requires rdPos <= |src|
      modifies `rdPos, `err
      ensures old(rdPos) == |src| ==> err && rdPos == old(rdPos) && b == 0
      ensures old(rdPos) < |src| ==> err == old(err) && rdPos == old(rdPos) + 1 && b == src[old(rdPos)]
    {
      if rdPos == |src| {
        err := true;
        return 0;
      }
      b := src[rdPos];
      rdPos := rdPos + 1;
    }

    /** The part of Read's loop that finds the next payload byte. */
    method NextPayloadByte() returns (b: byte)
      requires !err && rdPos <= |src| && base <= base + pos + 1 == rdPos
      modifies `rdPos, `err, `pos, `zeroCount
      ensures rdPos <= |src| && base <= base + pos + 1 == rdPos
      ensures err ==> old(Payload()) == Payload() == []
      ensures !err ==> old(Payload()) == [b] + Payload()
    {
      ghost var s := src[rdPos..];
      b := ReadByte();
      if err {
        return;
      }
      pos := pos + 1;
      assert s[1..] == src[rdPos..];
      if zeroCount == 2 && b == 3 {
        b := ReadByte();
        if err {
          return;
        }
        assert s[2..] == src[rdPos..];
        pos := pos + 1;
        zeroCount := 0;
      }
      if b != 0 {
        zeroCount := 0;
      } else {
        zeroCount := zeroCount + 1;
      }
    }

    /** The accumulator holds the buffered bits p, cut to a word. */
    ghost predicate Buffered(p: Bits)
      reads this
    {
      !err && rdPos <= |src| && base <= base + pos + 1 == rdPos && |p| == n && v == Low(Val(p), 64)
    }

    /** The body of Read's loop; p are the bits in the buffer. */
    method LoadByte(ghost p: Bits) returns (ghost p': Bits)
      requires Buffered(p)
      modifies `rdPos, `err, `n, `v, `pos, `zeroCount
      ensures rdPos <= |src| && base <= base + pos + 1 == rdPos
      ensures err ==> n == old(n) && (old(v) == 0 ==> v == 0) && old(Payload()) == Payload() == []
      ensures !err ==> Buffered(p') && n == old(n) + 8
      ensures !err ==> p' + ToBits(Payload()) == p + old(ToBits(Payload()))
    {
      ghost var w := v;
      ZeroShift(8, 64);
      v := Low(Shl(v, 8), 64);
      var b := NextPayloadByte();
      p' := p + BitsOf(b, 8);
      if err {
        return;
      }
      PushByte(p, w, b);
      BitsCons(p, b, Payload());
      v := v + b;
      n := n + 8;
    }

    /** The loop of Read: buffers at least n bits. */
    method Fill(n: nat) returns (ghost p: Bits)
      requires Valid() && !err
      modifies `rdPos, `err, `n, `v, `pos, `zeroCount
      ensures rdPos <= |src| && base <= base + pos + 1 == rdPos
      ensures err <==> n > |old(Rest())|
      ensures err && n == 1 ==> this.n == 0 && v == 0 && Payload() == []
      ensures !err ==> Buffered(p) && n <= this.n < n + 8 && p + ToBits(Payload()) == old(Rest())
    {
      p := BitsOf(v, this.n);
      FullBuffer(v, this.n);
      while this.n < n
        invariant Buffered(p) && this.n < n + 8
        invariant p + ToBits(Payload()) == old(Rest())
        invariant (this.n == old(this.n) && v == old(v)) || this.n >= 8
        decreases n - this.n
      {
        p := LoadByte(p);
        if err {
          return;
        }
      }
    }

    /** Reads n bits. At the end of the data the read fails; the error stays. */
    method Read(n: nat) returns (r: nat)
      requires Valid()
      modifies `rdPos, `err, `n, `v, `pos, `zeroCount
      ensures Valid()
      ensures err ==> r == 0
      ensures old(err) ==> err
      ensures !old(err) ==> (err <==> n > |old(Rest())|)
      ensures !old(err) && err && n == 1 ==> this.n == 0 && v == 0 && Payload() == []
      ensures !err ==> Rest() == old(Rest())[n..]
      ensures !err ==> r == Low(Val(old(Rest())[..n]), 64 - this.n)
      ensures !err && n <= 57 ==> r == Val(old(Rest())[..n])
    {
      if err {
        return 0;
      }
      ghost var rest := Rest();
      ghost var p := Fill(n);
      if err {
        return 0;
      }
      TakeBits(p, ToBits(Payload()), rest, v, n);
      r := Shr(v, this.n - n);
      this.n := this.n - n;
      v := Low(v, this.n);
    }

    /** Reads one bit. */
    method ReadBit() returns (bit: nat)
      requires Valid()
      modifies `rdPos, `err, `n, `v, `pos, `zeroCount
      ensures Valid()
      ensures old(err) ==> err
      ensures err ==> bit == 0
      ensures !old(err) ==> (err <==> old(Rest()) == [])
      ensures !old(err) && err ==> n == 0 && v == 0 && Payload() == []
      ensures !err ==> Rest() == old(Rest())[1..] && bit == if old(Rest())[0] then 1 else 0
    {
      ghost var rest := Rest();
      bit := Read(1);
      if !err {
        assert rest[..1] == [rest[0]];
        OneBit(rest[0]);
      }
    }

    /** Reads one ue(v). The value is right if and only if it fits a word and its bits after the leading one fit next
        to the bits that stay in the accumulator, as those of codes with up to 57 leading zeros do.
      */
    method ReadExpGolomb() returns (r: nat)
      requires Valid()
      modifies `rdPos, `err, `n, `v, `pos, `zeroCount
      ensures Valid()
      ensures old(err) ==> err
      ensures r < WORD && (err ==> r == 0)
      ensures !old(err) ==> (err <==> !HasUe(old(Rest())))
      ensures !err ==> Rest() == old(Rest())[2 * LeadingZeros(old(Rest())) + 1..]
      ensures !err && LeadingZeros(old(Rest())) <= 57 ==> r == UeValue(old(Rest())) < WORD - 1
      ensures !err ==>
                var x, lz := UeValue(old(Rest())), LeadingZeros(old(Rest()));
                r == x <==> x < WORD && x + 1 - Pow2(lz) < Pow2(64 - n)
    {
      hide UnescapeFrom, ToBits, BitsOf, UeValue, CodeNum, Val, Low, Pow2;
      if err {
        return 0;
      }
      ghost var rest := Rest();
      var leadingZeroBits := 0;
      while true
        invariant Valid() && !err
        invariant leadingZeroBits <= |rest| && Rest() == rest[leadingZeroBits..]
        invariant forall i :: 0 <= i < leadingZeroBits ==> !rest[i]
        decreases |rest| - leadingZeroBits
      {
        var b := ReadBit();
        if err {
          assert LeadingZeros(rest) == |rest|;
          return 0;
        }
        if b == 1 {
          break;
        }
        leadingZeroBits := leadingZeroBits + 1;
      }
      LeadingZerosUnique(rest, leadingZeroBits);
      var endBits := Read(leadingZeroBits);
      if err {
        return 0;
      }
      UeTail(rest, leadingZeroBits, endBits, n);
      r := CodeNum(leadingZeroBits, endBits);
    }

    /** Reads one se(v). */
    method ReadSignedGolomb() returns (r: int)
      requires Valid()
      modifies `rdPos, `err, `n, `v, `pos, `zeroCount
      ensures Valid()
      ensures old(err) ==> err
      ensures err ==> r == 0
      ensures !old(err) ==> (err <==> !HasUe(old(Rest())))
      ensures !err ==> Rest() == old(Rest())[2 * LeadingZeros(old(Rest())) + 1..]
      ensures !err && LeadingZeros(old(Rest())) <= 57 ==> r == SeValue(UeValue(old(Rest())))
      ensures !err ==>
                var x, lz := UeValue(old(Rest())), LeadingZeros(old(Rest()));
                r == SeValue(x) <==> x < WORD - 1 && x + 1 - Pow2(lz) < Pow2(64 - n)
    {
      hide UnescapeFrom, ToBits, BitsOf, UeValue, Val, Pow2;
      if err {
        return 0;
      }
      ghost var x := if HasUe(Rest()) then UeValue(Rest()) else 0;
      var unsignedGolomb := ReadExpGolomb();
      if err {
        return 0;
      }
      SeRoundTrip(0, x);
      SeRoundTrip(0, unsignedGolomb);
      assert unsignedGolomb < WORD;
      if unsignedGolomb % 2 == 1 {
        return ((unsignedGolomb + 1) % WORD) / 2;
      }
      r := -(unsignedGolomb / 2);
    }

    /** Back to a former state: seek to the byte after the last one read then, counted from the start of the underlying
        stream. That is the byte after the last one read only where the stream was handed over at its start.
      */
    method Reset(n: nat, v: nat, pos: int, zeroCount: nat)
      requires 0 <= pos + 1 <= |src|
      modifies `rdPos, `n, `v, `pos, `zeroCount
      ensures this.n == n && this.v == v && this.pos == pos && this.zeroCount == zeroCount
      ensures rdPos == pos + 1
    {
      rdPos := pos + 1;
      this.n, this.v, this.pos, this.zeroCount := n, v, pos, zeroCount;
    }

    /** Whether anything but rbsp_trailing_bits is left. Where there is an answer, the reading position does not move
        if and only if the underlying stream was handed over at its start; otherwise it moves back to as many bytes
        from there. ok is false when the underlying reader cannot seek.
      */
    method MoreRbspData() returns (more: bool, ok: bool)
      requires Valid()
      modifies `rdPos, `err, `n, `v, `pos, `zeroCount
      ensures Valid() <==> base == 0 || !ok || err
      ensures ok <==> seekable
      ensures !ok || old(err) ==> !more && err == old(err)
      ensures ok && !old(err) ==> (err <==> old(Rest()) == [])
      ensures ok && !old(err) && !err ==>
                && (more <==> !OnlyStopBit(old(Rest())))
                && n == old(n) && v == old(v) && pos == old(pos) && zeroCount == old(zeroCount)
                && rdPos == old(rdPos) - base
      ensures err ==> !more
    {
      hide UnescapeFrom, ToBits, BitsOf, Pow2;
      if !seekable {
        return false, false;
      }
      ghost var rest := Rest();
      var n0, v0, pos0, zeroCount0 := n, v, pos, zeroCount;
      var firstBit := ReadBit();
      if err {
        return false, true;
      }
      if firstBit != 1 {
        Reset(n0, v0, pos0, zeroCount0);
        return true, true;
      }
      more := false;
      ghost var k := 1;
      while true
        invariant Valid() && !err && !more
        invariant 1 <= k <= |rest| && Rest() == rest[k..]
        invariant rest[0] && forall i :: 1 <= i < k ==> !rest[i]
        decreases |rest| - k
      {
        var b := ReadBit();
        if err {
          err := false;
          break;
        }
        if b == 1 {
          more := true;
          break;
        }
        k := k + 1;
      }
      Reset(n0, v0, pos0, zeroCount0);
      ok := true;
    }

    /** Reads rbsp_trailing_bits up to the end of the data; bad says that the pattern is wrong. */
    method ReadRbspTrailingBits() returns (bad: bool)
      requires Valid()
      modifies `rdPos, `err, `n, `v, `pos, `zeroCount
      ensures Valid()
      ensures old(err) ==> err && !bad
      ensures !old(err) ==> (err <==> old(Rest()) == [])
      ensures !old(err) && !err ==> (bad <==> !OnlyStopBit(old(Rest())))
      ensures !err && !bad ==> Rest() == []
    {
      hide UnescapeFrom, ToBits, BitsOf, Pow2, Val;
      if err {
        return false;
      }
      ghost var rest := Rest();
      var firstBit := ReadBit();
      if err {
        return false;
      }
      if firstBit != 1 {
        return true;
      }
      ghost var k := 1;
      while true
        invariant Valid() && !err
        invariant 1 <= k <= |rest| && Rest() == rest[k..]
        invariant rest[0] && forall i :: 1 <= i < k ==> !rest[i]
        decreases |rest| - k
      {
        var b := ReadBit();
        if err {
          err := false;
          return false;
        }
        if b == 1 {
          return true;
        }
        k := k + 1;
      }
    }
  }
}
