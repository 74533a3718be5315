/** bits/ebspwriter.go: a bit writer that inserts emulation prevention bytes. */
module EbspWriter {
  import opened BitStrings
  import opened Emulation
  import opened Accumulator
  import opened Golomb

  lemma EscapePrefix(p: seq<byte>, q: seq<byte>)
    ensures Escape(p) <= Escape(p + q)
  {
    EscapeConcat(p, q, 0);
  }

  /** The search loop of WriteExpGolomb. */
  method GolombPrefix(nr: nat) returns (prefixLen: nat, delta: nat)
    requires nr < 0xFFFF_FFFF_FFFF_FFFF
    ensures prefixLen == FloorLog2(nr + 1)
    ensures nr + 1 == Pow2(prefixLen) + delta
  {
    var offset, max := 0, 0;
    prefixLen, delta := 0, 0;
    while true
      invariant offset == Pow2(prefixLen) - 1 <= nr
      invariant max == offset + Pow2(prefixLen) - 1
      decreases nr - offset
    {
      if nr <= max {
        delta := nr - offset;
        break;
      }
      offset := offset + Pow2(prefixLen);
      prefixLen := prefixLen + 1;
      max := offset + Pow2(prefixLen) - 1;
    }
    FloorLog2Unique(nr + 1, prefixLen);
  }

  /** The prefix with the leading one of ue(v) fits next to the k pending bits of v, and the suffix next to those that
      are pending then.
    */
  predicate UeFits(v: nat, k: nat, nr: nat) {
    FloorLog2Bounds(nr + 1);
    var lz := FloorLog2(nr + 1);
    var acc, m := Accumulate(v, 1, lz + 1), k + lz + 1;
    Fits(v, k, 1, lz + 1) && Fits(acc % 256, m % 8, nr + 1 - Pow2(lz), lz)
  }

  /** What the two writes of ue(v), or the first alone where the suffix is empty, make of payload p and bits v. */
  lemma UeWrites(p: seq<byte>, v: nat, k: nat, nr: nat, lz: nat, delta: nat)
    requires nr + 1 < WORD && lz == FloorLog2(nr + 1) && nr + 1 == Pow2(lz) + delta
    ensures var acc, m := Accumulate(v, 1, lz + 1), k + (lz + 1);
            var p1, v1, k1 := p + WholeBytes(acc, m), acc % 256, m % 8;
            var acc', m' := Accumulate(v1, delta, lz), k1 + lz;
            && (ToBits(p1 + WholeBytes(acc', m')) + BitsOf(acc' % 256, m' % 8) == ToBits(p) + BitsOf(v, k) + Ue(nr)
                <==> UeFits(v, k, nr))
            && (lz == 0 ==> (ToBits(p1) + BitsOf(v1, k1) == ToBits(p) + BitsOf(v, k) + Ue(nr) <==> UeFits(v, k, nr)))
    ensures nr + 1 < Pow2(57) && k < 8 ==> UeFits(v, k, nr)
  {
    hide WholeBytes, Accumulate, ToBits, Ue, Fits, BitsOf, FloorLog2, Pow2;
    var acc, m := Accumulate(v, 1, lz + 1), k + (lz + 1);
    TwoWrites(p, v, k, 1, lz + 1, delta, lz);
    WriteExact(p, v, k, 1, lz + 1);
    WriteExact(p + WholeBytes(acc, m), acc % 256, m % 8, delta, lz);
    UeByPrefix(nr, lz);
    if lz == 0 {
      assert BitsOf(1, 1) + [] == BitsOf(1, 1);
    }
    if nr + 1 < Pow2(57) && lz >= 57 {
      Pow2Mono(57, lz);
    }
  }

  class EBSPWriter {
    /** Number of bytes the underlying writer takes before it fails, if it ever does. */
    const limit: Option<nat>
    /** What the underlying writer has received. */
    var out: seq<byte>
    var err: bool
    var n: nat
    var v: nat
    var nr0: nat
    /** The payload bytes completed so far, before escaping. */
    ghost var payload: seq<byte>

    ghost predicate Valid()
      reads this
    {
      && (!err ==>
            && n < 8
            && v < 256
            && nr0 == ZerosAfter(payload, 0)
            && out == Escape(payload)
            && (limit.Some? ==> |out| <= limit.value))
      && (err ==> limit.Some? && |out| == limit.value)
    }

    /** Every bit written since creation. */
    ghost function Written(): Bits
      reads this
    {
      ToBits(payload) + BitsOf(v, n)
    }

    constructor (limit: Option<nat>)
      ensures Valid() && !err && this.limit == limit
      ensures out == [] && Written() == []
    {
      this.limit := limit;
      out, err, n, v, nr0 := [], false, 0, 0, 0;
      payload := [];
    }

    /** wr.Write of the one-byte slice out. */
    method WriteByte(b: byte) returns (ok: bool)
      modifies `out
      ensures ok <==> !(limit.Some? && |old(out)| >= limit.value)
      ensures out == if ok then old(out) + [b] else old(out)
    {
      ok := !(limit.Some? && |out| >= limit.value);
      if ok {
        out := out + [b];
      }
    }

    /** The sink has received full, or as much of it as it takes. */
    ghost predicate Delivered(full: seq<byte>)
      reads this
    {
      && out <= full
      && (!err ==> out == full)
      && (err <==> limit.Some? && |full| > limit.value)
    }

    /** The part of Valid that concerns the bytes already emitted. */
    ghost predicate Emitting()
      reads this
    {
      && !err
      && nr0 == ZerosAfter(payload, 0)
      && out == Escape(payload)
      && (limit.Some? ==> |out| <= limit.value)
    }

    /** The body of Write's loop for byte b. */
    method EmitByte(b: byte)
      requires Emitting()
      modifies `out, `err, `nr0, `payload
      ensures !err ==> Emitting() && payload == old(payload) + [b]
      ensures err ==> limit.Some? && |out| == limit.value && Delivered(Escape(old(payload) + [b]))
    {
      ZerosBound(payload, 0);
      EscapeAppend(payload, b);
      if nr0 == 2 && b <= 3 {
        var ok := WriteByte(3); // start code emulation prevention
        if !ok {
          err := true;
          return;
        }
        nr0 := 0;
      }
      var ok := WriteByte(b);
      if !ok {
        err := true;
        return;
      }
      if b == 0 {
        nr0 := nr0 + 1;
      } else {
        nr0 := 0;
      }
      payload := payload + [b];
    }

    /** The loop of Write: emits the whole bytes of the accumulator. */
    method EmitWholeBytes()
      requires Emitting()
      modifies this
      ensures v == old(v) && old(out) <= out
      ensures !err ==> Emitting() && n == old(n) % 8 && payload == old(payload) + WholeBytes(v, old(n))
      ensures err ==> limit.Some? && |out| == limit.value
      ensures Delivered(Escape(old(payload) + WholeBytes(v, old(n))))
    {
      ghost var target := payload + WholeBytes(v, n);
      EscapePrefix(payload, WholeBytes(v, n));
      while n >= 8
        invariant Emitting() && v == old(v)
        invariant n % 8 == old(n) % 8
        invariant payload + WholeBytes(v, n) == target
      {
        var b: byte := Shr(v, n - 8) % 256;
        assert WholeBytes(v, n) == [b] + WholeBytes(v, n - 8);
        assert payload + [b] + WholeBytes(v, n - 8) == target;
        EscapePrefix(payload + [b], WholeBytes(v, n - 8));
        EmitByte(b);
        if err {
          return;
        }
        n := n - 8;
      }
      assert payload == target;
    }

    /** Writes the low n bits of bits. They follow all bits written before if and only if they fit next to the pending
        ones, as up to 57 bits always do.
      */
    method Write(bits: nat, n: nat)
      requires Valid()
      requires bits < WORD
      modifies this
      ensures Valid()
      ensures old(err) ==> err
      ensures old(out) <= out
      ensures !old(err) ==>
                var acc, m := Accumulate(old(v), bits, n), old(this.n) + n;
                && Delivered(Escape(old(payload) + WholeBytes(acc, m)))
                && (!err ==> payload == old(payload) + WholeBytes(acc, m) && v == acc % 256 && this.n == m % 8)
      ensures !err ==> (Written() == old(Written()) + BitsOf(bits, n) <==> Fits(old(v), old(this.n), bits, n))
      ensures old(this.n) + n <= 64 ==> Fits(old(v), old(this.n), bits, n)
    {
      WriteExact(payload, v, this.n, bits, n);
      if err {
        return;
      }
      v := Accumulate(v, bits, n);
      this.n := this.n + n;
      EmitWholeBytes();
      if err {
        return;
      }
      v := v % 256; // v &= Mask(8)
    }

    /** Writes ue(v), which comes out right if and only if both parts fit next to the bits that are pending then, as
        those of values below 2^57 - 1 do. For nr == 2^64 - 1 the source's search loop never ends.
      */
    method WriteExpGolomb(nr: nat)
      requires Valid()
      requires nr < 0xFFFF_FFFF_FFFF_FFFF
      modifies this
      ensures Valid()
      ensures old(err) ==> err
      ensures old(out) <= out
      ensures !err ==> (Written() == old(Written()) + Ue(nr) <==> UeFits(old(v), old(n), nr))
      ensures nr + 1 < Pow2(57) && old(n) < 8 ==> UeFits(old(v), old(n), nr)
    {
      hide WholeBytes, Accumulate, Fits, BitsOf, ToBits, Escape, UeFits, Ue, Delivered;
      var prefixLen, delta := GolombPrefix(nr);
      UeWrites(payload, v, n, nr, prefixLen, delta);
      Write(1, prefixLen + 1);
      if prefixLen > 0 {
        Write(delta, prefixLen);
      }
    }

    /** Writes zeros up to the next byte boundary. */
    method StuffByteWithZeros()
      requires Valid()
      modifies this
      ensures Valid()
      ensures old(err) ==> err && out == old(out)
      ensures !err ==> n == 0 && Written() == old(Written()) + Zeros((8 - old(n)) % 8)
    {
      if !err && n > 0 { // after an error Write does nothing
        ZeroBits(8 - n);
        Write(0, 8 - n);
      }
    }

    /** Writes rbsp_trailing_bits: a one, then zeros up to the next byte boundary. */
    method WriteRbspTrailingBits()
      requires Valid()
      modifies this
      ensures Valid()
      ensures old(err) ==> err && out == old(out)
      ensures !err ==> n == 0 && ToBits(payload) == old(Written()) + [true] + Zeros(7 - old(n))
    {
      Write(1, 1);
      StuffByteWithZeros();
      assert ToBits(payload) + [] == ToBits(payload);
    }
  }
}
