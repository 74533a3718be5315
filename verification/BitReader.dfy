/** bits/reader.go: a bit reader without emulation prevention, over a byte string read from its start. */
module BitReader {
  import opened BitStrings
  import opened EbspReader

  class Reader {
    const src: seq<byte>
    var rdPos: nat
    var err: bool
    var n: nat
    var value: nat
    var pos: int

    ghost predicate Valid()
      reads this
    {
      && rdPos <= |src| && pos + 1 == rdPos
      && (!err ==> n < 8 && value < Pow2(n))
    }

    /** All bits still to be read. */
    ghost function Rest(): Bits
      requires rdPos <= |src|
      reads this
    {
      BitsOf(value, n) + ToBits(src[rdPos..])
    }

    constructor (src: seq<byte>)
      ensures Valid() && !err && this.src == src && Rest() == ToBits(src)
    {
      this.src := src;
      rdPos, err, n, value, pos := 0, false, 0, 0, -1;
      new;
      assert src[0..] == src;
    }

    /** The bits p are buffered, cut to a word. */
    ghost predicate Buffered(p: Bits)
      reads this
    {
      !err && rdPos <= |src| && pos + 1 == rdPos && |p| == n && value == Low(Val(p), 64)
    }

    /** The body of Read's loop. */
    method LoadByte(ghost p: Bits) returns (ghost p': Bits)
      requires Buffered(p)
      modifies `rdPos, `err, `n, `value, `pos
      ensures rdPos <= |src| && pos + 1 == rdPos
      ensures err <==> old(rdPos) == |src|
      ensures err ==> rdPos == old(rdPos)
      ensures !err ==> Buffered(p') && n == old(n) + 8 && p' + ToBits(src[rdPos..]) == p + ToBits(src[old(rdPos)..])
    {
      ghost var v := value;
      value := Low(Shl(value, 8), 64);
      p' := p;
      if rdPos == |src| {
        err := true;
        return;
      }
      var newByte := src[rdPos];
      assert src[rdPos..] == [newByte] + src[rdPos + 1..];
      BitsCons(p, newByte, src[rdPos + 1..]);
      PushByte(p, v, newByte);
      rdPos := rdPos + 1;
      pos := pos + 1;
      value := value + newByte;
      p' := p + BitsOf(newByte, 8);
      n := n + 8;
    }

    /** Reads n bits, 0 after an error; a read beyond the end is an error. */
    method Read(n: nat) returns (r: nat)
      requires Valid()
      modifies `rdPos, `err, `n, `value, `pos
      ensures Valid()
      ensures err ==> r == 0
      ensures old(err) ==> err
      ensures !old(err) ==> (err <==> n > |old(Rest())|)
      ensures !err ==> Rest() == old(Rest())[n..]
      ensures !err ==> r == Low(Val(old(Rest())[..n]), 64 - this.n)
      ensures !err && n <= 57 ==> r == Val(old(Rest())[..n])
    {
      hide ToBits, Val, Shr;
      if err {
        return 0;
      }
      ghost var rest, p := Rest(), BitsOf(value, this.n);
      FullBuffer(value, this.n);
      while this.n < n
        invariant Buffered(p) && p + ToBits(src[rdPos..]) == rest && this.n < n + 8
        decreases n - this.n
      {
        p := LoadByte(p);
        if err {
          return 0;
        }
      }
      TakeBits(p, ToBits(src[rdPos..]), rest, value, n);
      r := Shr(value, this.n - n);
      this.n := this.n - n;
      value := Low(value, this.n);
    }

    method ReadFlag() returns (b: bool)
      requires Valid()
      modifies `rdPos, `err, `n, `value, `pos
      ensures Valid()
      ensures old(err) ==> err
      ensures err ==> !b
      ensures !old(err) ==> (err <==> old(Rest()) == [])
      ensures !err ==> b == old(Rest())[0] && Rest() == old(Rest())[1..]
    {
      ghost var rest := Rest();
      var bit := Read(1);
      if err {
        return false;
      }
      assert rest[..1] == [rest[0]];
      OneBit(rest[0]);
      b := bit == 1;
    }

    /** Drops the rest of the current byte. */
    method ByteAlign()
      requires Valid()
      modifies `n, `value
      ensures Valid()
      ensures !err ==> n == 0 && Rest() == ToBits(src[rdPos..])
    {
      if err {
        return;
      }
      if n > 0 {
        n := 0;
        value := 0;
      }
      assert BitsOf(value, n) == [];
    }

    function NrBytesRead(): (r: nat)
      requires Valid()
      reads this
      ensures r == rdPos
    {
      pos + 1
    }
  }

}
