/** The sample auxiliary information sizes box (mp4/saiz.go). */
module Saiz {
  import opened BitStrings
  import opened ByteStream

  /** What the box holds when it is written or read; sampleInfo is used only where defaultSize is 0. */
  datatype Fields = Fields(
    version: byte, flags: nat, auxInfoType: seq<byte>, auxInfoParameter: nat,
    sampleCount: nat, sampleInfo: seq<byte>, defaultSize: byte)
  {
    predicate HasAux() {
      flags % 2 == 1
    }

    /** The fields fit their widths and agree with each other. */
    predicate Valid() {
      && flags < 0x100_0000 && sampleCount < 0x1_0000_0000
      && (if HasAux() then |auxInfoType| == 4 && auxInfoParameter < 0x1_0000_0000
          else auxInfoType == [] && auxInfoParameter == 0)
      && |sampleInfo| == (if defaultSize == 0 then sampleCount else 0)
    }

    /** The list of sizes that the box stands for. */
    function Sizes(): (s: seq<byte>) {
      if defaultSize == 0 then sampleInfo else Repeat(defaultSize, sampleCount)
    }

    function ExpectedSize(): nat {
      8 + 9 + (if HasAux() then 8 else 0) + (if defaultSize == 0 then sampleCount else 0)
    }
  }

  /** The body of the box, which follows the 8-byte box header. */
  function Body(f: Fields): seq<byte> {
    LengthField(f.version * 0x100_0000 + f.flags)
      + (if f.HasAux() then f.auxInfoType + LengthField(f.auxInfoParameter) else [])
      + [f.defaultSize] + LengthField(f.sampleCount)
      + (if f.defaultSize == 0 then f.sampleInfo else [])
  }

  /** DecodeSaizSR, where the box header announced the body b; None is an error. */
  function Decode(b: seq<byte>): Option<Fields> {
    if |b| < 4 then None
    else
      var vf := BigEndian32(b[..4]);
      var version, flags := vf / 0x100_0000, vf % 0x100_0000;
      var at := if flags % 2 == 1 then 12 else 4;
      if |b| < at + 5 then None
      else
        var auxType := if flags % 2 == 1 then b[4..8] else [];
        var auxParameter := if flags % 2 == 1 then BigEndian32(b[8..12]) else 0;
        var f := Fields(version, flags, auxType, auxParameter, BigEndian32(b[at + 1..at + 5]), [], b[at]);
        if 8 + |b| != f.ExpectedSize() then None
        else Some(f.(sampleInfo := b[at + 5..]))
  }

  /** The written length is the expected one, and reading inverts writing. */
  lemma DecodeBody(f: Fields)
    requires f.Valid()
    ensures 8 + |Body(f)| == f.ExpectedSize()
    ensures Decode(Body(f)) == Some(f)
  {
    var b, vf := Body(f), f.version * 0x100_0000 + f.flags;
    var tail := if f.defaultSize == 0 then f.sampleInfo else [];
    LengthFieldExact(vf);
    LengthFieldExact(f.sampleCount);
    assert b[..4] == LengthField(vf);
    assert vf / 0x100_0000 == f.version && vf % 0x100_0000 == f.flags;
    if f.HasAux() {
      LengthFieldExact(f.auxInfoParameter);
      assert b[4..8] == f.auxInfoType && b[8..12] == LengthField(f.auxInfoParameter);
      assert b[12] == f.defaultSize && b[13..17] == LengthField(f.sampleCount) && b[17..] == tail;
    } else {
      assert b[4] == f.defaultSize && b[5..9] == LengthField(f.sampleCount) && b[9..] == tail;
    }
  }

  /** Whatever is read has a body of the expected size, and writing it again gives the same body. */
  lemma BodyDecode(b: seq<byte>)
    requires Decode(b).Some?
    ensures Decode(b).value.Valid() && Body(Decode(b).value) == b
  {
    hide LengthField, BigEndian32;
    var f := Decode(b).value;
    var vf := BigEndian32(b[..4]);
    FieldOfBytes(b[..4]);
    assert vf < 0x1_0000_0000;
    assert f.version * 0x100_0000 + f.flags == vf;
    var at := if f.HasAux() then 12 else 4;
    FieldOfBytes(b[at + 1..at + 5]);
    Cut(b, at, at + 1);
    Cut(b, at + 1, at + 5);
    Cut(b, at + 5, |b|);
    if f.HasAux() {
      FieldOfBytes(b[8..12]);
      assert b[4..8] + b[8..12] == b[4..12];
      Cut(b, 4, 12);
    }
    assert b[at..at + 1] == [f.defaultSize] && b[..|b|] == b;
  }

  lemma Cut(b: seq<byte>, i: nat, j: nat)
    requires i <= j <= |b|
    ensures b[..i] + b[i..j] == b[..j]
  {
  }

  lemma FieldOfBytes(f: seq<byte>)
    requires |f| == 4
    ensures BigEndian32(f) < 0x1_0000_0000 && LengthField(BigEndian32(f)) == f
  {
    Digits(f[0], f[1], f[2], f[3], BigEndian32(f));
  }

  lemma Digits(a: byte, b: byte, c: byte, d: byte, n: nat)
    requires n == (a as int) * 0x100_0000 + (b as int) * 0x1_0000 + (c as int) * 0x100 + d
    ensures n < 0x1_0000_0000
    ensures n / 0x100_0000 % 256 == a && n / 0x1_0000 % 256 == b && n / 0x100 % 256 == c && n % 256 == d
  {
    var x, y := (a as int) * 0x100 + b, (a as int) * 0x1_0000 + (b as int) * 0x100 + c;
    assert n / 0x100_0000 == a;
    assert n / 0x1_0000 == x && x % 256 == b;
    assert n / 0x100 == y && y % 256 == c;
  }

  class SaizBox {
    var version: byte
    var flags: nat
    var auxInfoType: seq<byte>
    var auxInfoParameter: nat
    var sampleCount: nat
    var sampleInfo: seq<byte>
    var defaultSampleInfoSize: byte

    /** What the methods keep: entries are never 0, and there is one form of them at a time. */
    ghost predicate Valid()
      reads this
    {
      && 0 !in sampleInfo
      && |sampleInfo| == (if defaultSampleInfoSize == 0 then sampleCount else 0)
    }

    /** What is written. */
    function AsFields(): Fields
      reads this
    {
      Fields(version, flags, auxInfoType, auxInfoParameter, sampleCount, sampleInfo, defaultSampleInfoSize)
    }

    ghost function Sizes(): seq<byte>
      reads this
    {
      AsFields().Sizes()
    }

    constructor ()
      ensures Valid() && Sizes() == [] && version == 0 && flags == 0 && auxInfoType == [] && auxInfoParameter == 0
    {
      version, flags, auxInfoType, auxInfoParameter := 0, 0, [], 0;
      sampleCount, sampleInfo, defaultSampleInfoSize := 0, [], 0;
    }

    /** The entry for a sample with an IV of ivLength bytes and nrPatterns patterns. A size of 0 is not recorded, one
        above 255 is an error, and either leaves the box as it is.
      */
    method AddSampleInfo(ivLength: nat, nrPatterns: nat) returns (ok: bool)
      requires Valid()
      modifies this`sampleCount, this`sampleInfo, this`defaultSampleInfoSize
      ensures Valid()
      ensures ok == (InfoSize(ivLength, nrPatterns) <= 255)
      ensures Sizes() ==
                if 0 < InfoSize(ivLength, nrPatterns) <= 255 then old(Sizes()) + [InfoSize(ivLength, nrPatterns)]
                else old(Sizes())
    {
      var size := ivLength;
      if nrPatterns > 0 {
        size := size + 2 + nrPatterns * 6;
      }
      if size == 0 {
        return true;
      }
      if size > 255 {
        return false;
      }
      if sampleCount == 0 {
        defaultSampleInfoSize := size;
      } else if defaultSampleInfoSize != 0 && size != defaultSampleInfoSize {
        var i := 0;
        while i < sampleCount
          invariant i <= sampleCount == old(sampleCount) && defaultSampleInfoSize == old(defaultSampleInfoSize) != 0
          invariant sampleInfo == Repeat(defaultSampleInfoSize, i)
        {
          sampleInfo := sampleInfo + [defaultSampleInfoSize];
          i := i + 1;
        }
        defaultSampleInfoSize := 0;
      }
      if defaultSampleInfoSize == 0 {
        sampleInfo := sampleInfo + [size];
      }
      sampleCount := sampleCount + 1;
      assert defaultSampleInfoSize != 0 ==> Repeat(size, sampleCount) == Repeat(size, sampleCount - 1) + [size];
      return true;
    }
  }

  /** The number of bytes of auxiliary information: the IV, then a count and 6 bytes for each pattern. */
  function InfoSize(ivLength: nat, nrPatterns: nat): nat {
    ivLength + (if nrPatterns > 0 then 2 + nrPatterns * 6 else 0)
  }

  /** The non-zero sizes of a list of samples, given as IV length and number of patterns. */
  function NonZero(samples: seq<(nat, nat)>, k: nat): seq<nat>
    requires k <= |samples|
  {
    if k == 0 then []
    else
      NonZero(samples, k - 1)
        + (if InfoSize(samples[k - 1].0, samples[k - 1].1) == 0 then []
           else [InfoSize(samples[k - 1].0, samples[k - 1].1)])
  }

  /** The box is read back as it was written, with the same list of sizes. */
  lemma BoxRoundTrip(box: SaizBox)
    requires box.Valid() && box.flags == 0 && box.auxInfoType == [] && box.auxInfoParameter == 0
    requires |box.Sizes()| < 0x1_0000_0000
    ensures Decode(Body(box.AsFields())) == Some(box.AsFields())
  {
    DecodeBody(box.AsFields());
  }

  /** After any run of additions that succeed, the box stands for exactly the non-zero sizes added, in order, and so
      does what a reader gets from the written box.
    */
  method AddAll(samples: seq<(nat, nat)>) returns (box: SaizBox, ok: bool)
    ensures fresh(box) && box.Valid()
    ensures ok <==> forall k :: 0 <= k < |samples| ==> InfoSize(samples[k].0, samples[k].1) <= 255
    ensures ok ==> box.Sizes() == NonZero(samples, |samples|)
    ensures ok && |box.Sizes()| < 0x1_0000_0000 ==>
              var f := Decode(Body(box.AsFields()));
              f.Some? && f.value.Sizes() == NonZero(samples, |samples|)
  {
    hide Decode, Body;
    box := new SaizBox();
    var k := 0;
    while k < |samples|
      invariant k <= |samples| && fresh(box) && box.Valid()
      invariant box.flags == 0 && box.auxInfoType == [] && box.auxInfoParameter == 0
      invariant forall i :: 0 <= i < k ==> InfoSize(samples[i].0, samples[i].1) <= 255
      invariant box.Sizes() == NonZero(samples, k)
    {
      ok := box.AddSampleInfo(samples[k].0, samples[k].1);
      if !ok {
        return;
      }
      k := k + 1;
    }
    ok := true;
    if |box.Sizes()| < 0x1_0000_0000 {
      BoxRoundTrip(box);
    }
  }
}
