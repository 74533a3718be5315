/** avc/annexb.go: conversion of byte streams to samples and back, and what the scanner finds in a
    stream built from NAL units.
  */
module ByteStream {
  import opened BitStrings
  import opened AnnexB
  import BigEndian

  // ----- length-prefixed units -----

  /** binary.BigEndian.PutUint32(uint32(n)) */
  function LengthField(n: nat): (f: seq<byte>)
    ensures |f| == 4
  {
    [n / 0x100_0000 % 256, n / 0x1_0000 % 256, n / 0x100 % 256, n % 256]
  }

  /** binary.BigEndian.Uint32 */
  function BigEndian32(f: seq<byte>): nat
    requires |f| == 4
  {
    (f[0] as int) * 0x100_0000 + (f[1] as int) * 0x1_0000 + (f[2] as int) * 0x100 + f[3]
  }

  lemma LengthFieldExact(n: nat)
    requires n < 0x1_0000_0000
    ensures BigEndian32(LengthField(n)) == n
  {
    var x, y, z := n / 0x100, n / 0x1_0000, n / 0x100_0000;
    assert n == 0x100 * x + n % 0x100 && x == 0x100 * y + x % 0x100 && y == 0x100 * z + y % 0x100;
    assert z < 0x100;
  }

  /** The first byte of a field counts most. */
  lemma FieldIsBigEndian(f: seq<byte>)
    requires |f| == 4
    ensures BigEndian32(f) == BigEndian.FromBE(f)
  {
    var x, y, z := f[..3], f[..2], f[..1];
    assert x[..2] == y && y[..1] == z && z[..0] == [];
    assert BigEndian.FromBE(z) == f[0] && BigEndian.FromBE(y) == 256 * (f[0] as int) + f[1];
  }

  /** The first k units, each after its length field. */
  function PrefixedTo(units: seq<seq<byte>>, k: nat): seq<byte>
    requires k <= |units|
  {
    if k == 0 then [] else PrefixedTo(units, k - 1) + LengthField(|units[k - 1]|) + units[k - 1]
  }

  /** A sample. */
  function Prefixed(units: seq<seq<byte>>): seq<byte> {
    PrefixedTo(units, |units|)
  }

  /** A 3-byte or 4-byte start code: zeros and a final 1. */
  predicate IsStartCode(sc: seq<byte>) {
    3 <= |sc| <= 4 && sc[|sc| - 1] == 1 && forall i :: 0 <= i < |sc| - 1 ==> sc[i] == 0
  }

  /** The first k units, each after its start code. */
  function StreamTo(units: seq<seq<byte>>, scs: seq<seq<byte>>, k: nat): seq<byte>
    requires k <= |units| == |scs|
  {
    if k == 0 then [] else StreamTo(units, scs, k - 1) + scs[k - 1] + units[k - 1]
  }

  /** A byte stream. */
  function Stream(units: seq<seq<byte>>, scs: seq<seq<byte>>): seq<byte>
    requires |units| == |scs|
  {
    StreamTo(units, scs, |units|)
  }

  // ----- the units that a list of start codes delimits -----

  /** Where the unit after code i ends. */
  function UnitEnd(s: seq<byte>, codes: seq<ScNalu>, i: nat): int
    requires i < |codes|
  {
    if i + 1 < |codes| then codes[i + 1].startPos - codes[i + 1].startCodeLength else |s|
  }

  /** Code i fits between the unit before it and its own unit. */
  predicate DelimitsAt(s: seq<byte>, codes: seq<ScNalu>, i: nat)
    requires i < |codes|
  {
    && 3 <= codes[i].startCodeLength <= 4
    && codes[i].startCodeLength <= codes[i].startPos <= UnitEnd(s, codes, i) <= |s|
  }

  predicate Delimiting(s: seq<byte>, codes: seq<ScNalu>) {
    forall i :: 0 <= i < |codes| ==> DelimitsAt(s, codes, i)
  }

  function UnitAt(s: seq<byte>, codes: seq<ScNalu>, i: nat): seq<byte>
    requires i < |codes| && DelimitsAt(s, codes, i)
  {
    s[codes[i].startPos..UnitEnd(s, codes, i)]
  }

  function Units(s: seq<byte>, codes: seq<ScNalu>): (u: seq<seq<byte>>)
    requires Delimiting(s, codes)
    ensures |u| == |codes|
  {
    seq(|codes|, i requires 0 <= i < |codes| => assert DelimitsAt(s, codes, i); UnitAt(s, codes, i))
  }

  lemma NaiveScanDelimits(s: seq<byte>)
    ensures Delimiting(s, NaiveScan(s))
  {
    var c := NaiveScan(s);
    CodesSound(s, 0, |s|);
    forall i | 0 <= i < |c| ensures DelimitsAt(s, c, i) {
      assert c[i] in c;
      if i + 1 < |c| {
        assert c[i + 1] in c;
        assert c[i].startPos < c[i + 1].startPos;
      }
    }
  }

  // ----- conversion to a sample -----

  /** What the in-place conversion leaves in front of the first code. */
  function Head(s: seq<byte>, codes: seq<ScNalu>): seq<byte>
    requires Delimiting(s, codes)
  {
    if codes == [] then s else assert DelimitsAt(s, codes, 0); s[..codes[0].startPos - codes[0].startCodeLength]
  }

  /** Start of what the in-place conversion has not reached after i codes. */
  function Reached(s: seq<byte>, codes: seq<ScNalu>, i: nat): (r: nat)
    requires i <= |codes| && Delimiting(s, codes)
    ensures r <= |s|
  {
    if i < |codes| then assert DelimitsAt(s, codes, i); codes[i].startPos - codes[i].startCodeLength else |s|
  }

  /** Starts with 4-byte codes only: the codes are overwritten in place. Otherwise a new sample is
      built and what precedes the first code is dropped. */
  method ConvertByteStreamToNaluSample(stream: array<byte>) returns (sample: array<byte>)
    modifies stream
    ensures Delimiting(old(stream[..]), NaiveScan(old(stream[..])))
    ensures var s, c := old(stream[..]), NaiveScan(old(stream[..]));
            if MinLength(c) == 4
            then sample == stream && sample[..] == Head(s, c) + Prefixed(Units(s, c))
            else fresh(sample) && sample[..] == Prefixed(Units(s, c)) && stream[..] == s
  {
    ghost var s := stream[..];
    var scNalus, minStartCodeLength := GetStartCodePositions(stream);
    NaiveScanDelimits(s);
    if minStartCodeLength == 4 {
      forall i | 0 <= i < |scNalus| ensures scNalus[i].startCodeLength == 4 {
        assert DelimitsAt(s, scNalus, i);
      }
      ReplaceInPlace(stream, scNalus);
      return stream;
    }
    var out := BuildSample(stream, scNalus);
    sample := new byte[|out|](i requires 0 <= i < |out| => out[i]);
  }

  lemma OverwriteStep(now: seq<byte>, now': seq<byte>, s: seq<byte>, a: nat, b: nat, f: seq<byte>)
    requires |f| == 4 && a + 4 <= b <= |s| == |now| && now[a..] == s[a..]
    requires now' == now[..a] + f + now[a + 4..]
    ensures now'[..b] == now[..a] + f + s[a + 4..b]
    ensures now'[b..] == s[b..]
  {
    assert now[a + 4..] == s[a + 4..] by {
      assert now[a..][4..] == now[a + 4..] && s[a..][4..] == s[a + 4..];
    }
    assert now' == now[..a] + f + (s[a + 4..b] + s[b..]);
  }

  /** One round of the in-place loop, on values. */
  lemma InPlaceRound(now: seq<byte>, now': seq<byte>, s: seq<byte>, head: seq<byte>, units: seq<seq<byte>>,
                     i: nat, a: nat, b: nat)
    requires i < |units| && a + 4 <= b <= |s| == |now| && units[i] == s[a + 4..b]
    requires now[..a] == head + PrefixedTo(units, i) && now[a..] == s[a..]
    requires now' == now[..a] + LengthField(b - a - 4) + now[a + 4..]
    ensures now'[..b] == head + PrefixedTo(units, i + 1)
    ensures now'[b..] == s[b..]
  {
    var f, done := LengthField(b - a - 4), PrefixedTo(units, i);
    OverwriteStep(now, now', s, a, b, f);
    assert head + done + f + units[i] == head + (done + f + units[i]);
  }

  /** The in-place conversion of s is done up to the code at index i. */
  ghost predicate ReplacedTo(now: seq<byte>, s: seq<byte>, scNalus: seq<ScNalu>, i: nat)
    requires i <= |scNalus| && Delimiting(s, scNalus)
  {
    var r := Reached(s, scNalus, i);
    && |now| == |s|
    && now[..r] == Head(s, scNalus) + PrefixedTo(Units(s, scNalus), i)
    && now[r..] == s[r..]
  }

  lemma UnitBounds(s: seq<byte>, scNalus: seq<ScNalu>, i: nat)
    requires i < |scNalus| && Delimiting(s, scNalus) && scNalus[i].startCodeLength == 4
    requires i + 1 < |scNalus| ==> scNalus[i + 1].startCodeLength == 4
    ensures var a, b := Reached(s, scNalus, i), Reached(s, scNalus, i + 1);
            && a + 4 == scNalus[i].startPos <= b <= |s|
            && b == (if i + 1 < |scNalus| then scNalus[i + 1].startPos - 4 else |s|)
            && Units(s, scNalus)[i] == s[a + 4..b]
  {
    assert DelimitsAt(s, scNalus, i);
    assert Units(s, scNalus)[i] == UnitAt(s, scNalus, i);
  }

  /** The body of the in-place loop. */
  method ReplaceOne(stream: array<byte>, scNalus: seq<ScNalu>, i: nat, ghost s: seq<byte>)
    requires i < |scNalus| && Delimiting(s, scNalus) && scNalus[i].startCodeLength == 4
    requires i + 1 < |scNalus| ==> scNalus[i + 1].startCodeLength == 4
    requires ReplacedTo(stream[..], s, scNalus, i)
    modifies stream
    ensures ReplacedTo(stream[..], s, scNalus, i + 1)
  {
    UnitBounds(s, scNalus, i);
    ghost var now := stream[..];
    var p := scNalus[i].startPos;
    var naluLength := if i + 1 < |scNalus| then scNalus[i + 1].startPos - p - 4 else stream.Length - p;
    PutFour(stream, p - 4, LengthField(naluLength));
    InPlaceRound(now, stream[..], s, Head(s, scNalus), Units(s, scNalus), i,
                 Reached(s, scNalus, i), Reached(s, scNalus, i + 1));
  }

  /** The in-place loop. */
  method ReplaceInPlace(stream: array<byte>, scNalus: seq<ScNalu>)
    requires Delimiting(stream[..], scNalus)
    requires forall i :: 0 <= i < |scNalus| ==> scNalus[i].startCodeLength == 4
    modifies stream
    ensures stream[..] == old(Head(stream[..], scNalus)) + Prefixed(old(Units(stream[..], scNalus)))
  {
    ghost var s := stream[..];
    var i := 0;
    while i < |scNalus|
      invariant 0 <= i <= |scNalus| && ReplacedTo(stream[..], s, scNalus, i)
    {
      ReplaceOne(stream, scNalus, i, s);
      i := i + 1;
    }
  }

  /** copy(stream[at:at+4], f) */
  method PutFour(stream: array<byte>, at: nat, f: seq<byte>)
    requires |f| == 4 && at + 4 <= stream.Length
    modifies stream
    ensures stream[..] == old(stream[..])[..at] + f + old(stream[..])[at + 4..]
  {
    stream[at], stream[at + 1], stream[at + 2], stream[at + 3] := f[0], f[1], f[2], f[3];
  }

  /** The appending loop. */
  method BuildSample(stream: array<byte>, scNalus: seq<ScNalu>) returns (out: seq<byte>)
    requires Delimiting(stream[..], scNalus)
    ensures out == Prefixed(Units(stream[..], scNalus))
  {
    ghost var s := stream[..];
    ghost var units := Units(s, scNalus);
    out := [];
    var i := 0;
    while i < |scNalus|
      invariant 0 <= i <= |scNalus|
      invariant out == PrefixedTo(units, i)
    {
      assert DelimitsAt(s, scNalus, i) && units[i] == UnitAt(s, scNalus, i);
      var p := scNalus[i].startPos;
      var naluLength :=
        if i + 1 < |scNalus| then scNalus[i + 1].startPos - p - scNalus[i + 1].startCodeLength else stream.Length - p;
      assert stream[p..p + naluLength] == units[i];
      out := out + LengthField(naluLength);
      out := out + stream[p..p + naluLength];
      i := i + 1;
    }
  }
}
