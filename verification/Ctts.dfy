/** The composition time to sample box: runs of samples with the same offset (mp4/ctts.go). */
module Ctts {
  import opened BitStrings
  import opened ByteStream

  /** The offsets of all samples of the first k runs; run k goes from sample ends[k] + 1 to sample ends[k + 1]. */
  function Expand(ends: seq<nat>, offsets: seq<int>, k: nat): (s: seq<int>)
    requires k <= |offsets| && |offsets| < |ends| && Rising(ends) && ends[0] == 0
    ensures |s| == ends[k]
  {
    if k == 0 then [] else Expand(ends, offsets, k - 1) + Repeat(offsets[k - 1], ends[k] - ends[k - 1])
  }

  predicate Rising(ends: seq<nat>) {
    forall i, j :: 0 <= i <= j < |ends| ==> ends[i] <= ends[j]
  }

  lemma {:induction false} ExpandPrefix(ends: seq<nat>, offsets: seq<int>, ends': seq<nat>, offsets': seq<int>, k: nat)
    requires |offsets| < |ends| && Rising(ends) && |offsets'| < |ends'| && Rising(ends') && ends[0] == ends'[0] == 0
    requires k <= |offsets| && k <= |offsets'| && ends[..k + 1] == ends'[..k + 1] && offsets[..k] == offsets'[..k]
    ensures Expand(ends, offsets, k) == Expand(ends', offsets', k)
  {
    if k > 0 {
      assert ends[..k] == ends[..k + 1][..k] && ends'[..k] == ends'[..k + 1][..k];
      assert offsets[..k - 1] == offsets[..k][..k - 1] && offsets'[..k - 1] == offsets'[..k][..k - 1];
      assert ends[k] == ends[..k + 1][k] && ends[k - 1] == ends[..k + 1][k - 1];
      assert ends'[k] == ends'[..k + 1][k] && ends'[k - 1] == ends'[..k + 1][k - 1];
      assert offsets[k - 1] == offsets[..k][k - 1] == offsets'[k - 1];
      ExpandPrefix(ends, offsets, ends', offsets', k - 1);
    }
  }

  /** Sample nr, which is in run r, has the offset of the run. */
  lemma {:induction false} ExpandAt(ends: seq<nat>, offsets: seq<int>, k: nat, r: nat, nr: nat)
    requires |offsets| < |ends| && Rising(ends) && ends[0] == 0 && r < k <= |offsets|
    requires ends[r] < nr <= ends[r + 1]
    ensures nr <= |Expand(ends, offsets, k)| && Expand(ends, offsets, k)[nr - 1] == offsets[r]
  {
    if r < k - 1 {
      ExpandAt(ends, offsets, k - 1, r, nr);
    }
  }

  /** The runs that the first k pairs add, expanded. */
  function Runs(counts: seq<nat>, offsets: seq<int>, k: nat): seq<int>
    requires k <= |counts| == |offsets|
  {
    if k == 0 then [] else Runs(counts, offsets, k - 1) + Repeat(offsets[k - 1], counts[k - 1])
  }

  function Total(counts: seq<nat>, k: nat): nat
    requires k <= |counts|
  {
    if k == 0 then 0 else Total(counts, k - 1) + counts[k - 1]
  }

  class CttsBox {
    var version: byte
    var flags: nat
    var endSampleNr: seq<nat>
    var sampleOffset: seq<int>

    ghost predicate Valid()
      reads this
    {
      if endSampleNr == [] then sampleOffset == []
      else |endSampleNr| == |sampleOffset| + 1 && endSampleNr[0] == 0 && Rising(endSampleNr)
    }

    /** The offsets of all samples. */
    ghost function Offsets(): seq<int>
      requires Valid()
      reads this
    {
      if endSampleNr == [] then [] else Expand(endSampleNr, sampleOffset, |sampleOffset|)
    }

    /** What is written; the first end of 0 is not. */
    ghost function AsFields(): Fields
      reads this
    {
      Fields(version, flags, if endSampleNr == [] then [0] else endSampleNr, Patterns(sampleOffset))
    }

    constructor ()
      ensures Valid() && Offsets() == [] && sampleOffset == [] && version == 0 && flags == 0
    {
      version, flags := 0, 0;
      endSampleNr, sampleOffset := [], [];
    }

    /** Adds runs, also empty ones; as long as the sample numbers fit 32 bits, the box stands for the old offsets
        followed by the new ones.
      */
    method AddSampleCountsAndOffset(counts: seq<nat>, offsets: seq<int>) returns (ok: bool)
      requires Valid() && |Offsets()| + Total(counts, |counts|) < 0x1_0000_0000
      modifies this`endSampleNr, this`sampleOffset
      ensures Valid() && ok == (|counts| == |offsets|)
      ensures sampleOffset == if ok then old(sampleOffset) + offsets else old(sampleOffset)
      ensures Offsets() == if ok then old(Offsets()) + Runs(counts, offsets, |counts|) else old(Offsets())
    {
      if |counts| != |offsets| {
        return false;
      }
      ghost var before := Offsets();
      var ends := endSampleNr;
      if |ends| == 0 {
        ends := [0];
      }
      ends := AddRuns(ends, sampleOffset, counts, offsets, before);
      endSampleNr, sampleOffset := ends, sampleOffset + offsets;
      return true;
    }

    /** The offset of a sample, found by binary search: the one that expanding the runs gives. */
    method GetCompositionTimeOffset(sampleNr: nat) returns (offset: int)
      requires Valid() && 1 <= sampleNr <= |Offsets()|
      ensures offset == Offsets()[sampleNr - 1]
    {
      var i, j := 0, |endSampleNr|;
      while i < j
        invariant 0 <= i <= j <= |endSampleNr|
        invariant i > 0 ==> endSampleNr[i - 1] < sampleNr
        invariant j < |endSampleNr| ==> endSampleNr[j] >= sampleNr
      {
        var h := (i + j) / 2;
        if endSampleNr[h] < sampleNr {
          i := h + 1;
        } else {
          j := h;
        }
      }
      ExpandAt(endSampleNr, sampleOffset, |sampleOffset|, i - 1, sampleNr);
      return sampleOffset[i - 1];
    }
  }

  /** The loop over the counts. */
  method AddRuns(ends0: seq<nat>, have: seq<int>, counts: seq<nat>, offsets: seq<int>, ghost before: seq<int>)
    returns (ends: seq<nat>)
    requires |ends0| == |have| + 1 && ends0[0] == 0 && Rising(ends0) && Expand(ends0, have, |have|) == before
    requires |counts| == |offsets|
    ensures |ends| == |have| + |offsets| + 1 && ends[0] == 0 && Rising(ends)
    ensures Expand(ends, have + offsets, |have + offsets|) == before + Runs(counts, offsets, |counts|)
  {
    var n := |have|;
    ends := ends0;
    ghost var all := have + offsets;
    var endNr := ends[|ends| - 1];
    var i := 0;
    assert all[..n] == have && before + [] == before;
    while i < |counts|
      invariant i <= |counts| && |ends| == n + i + 1 && ends[0] == 0 && Rising(ends) && endNr == ends[n + i]
      invariant Expand(ends, all[..n + i], n + i) == before + Runs(counts, offsets, i)
    {
      ends := AddRun(ends, all[..n + i], offsets[i], counts[i], before, Runs(counts, offsets, i));
      endNr := endNr + counts[i];
      i := i + 1;
      assert all[..n + i] == all[..n + i - 1] + [offsets[i - 1]];
    }
    assert all[..n + i] == all;
  }

  /** One run more. */
  method AddRun(ends: seq<nat>, ghost have: seq<int>, ghost offset: int, count: nat, ghost before: seq<int>,
                ghost runs: seq<int>)
    returns (more: seq<nat>)
    requires |ends| == |have| + 1 && ends[0] == 0 && Rising(ends)
    requires Expand(ends, have, |have|) == before + runs
    ensures |more| == |ends| + 1 && more[0] == 0 && Rising(more) && more[|ends|] == ends[|have|] + count
    ensures Expand(more, have + [offset], |have| + 1) == before + (runs + Repeat(offset, count))
  {
    ghost var k := |have|;
    more := ends + [ends[|ends| - 1] + count];
    assert (have + [offset])[..k] == have[..k] && more[..k + 1] == ends[..k + 1];
    ExpandPrefix(ends, have, more, have + [offset], k);
    assert before + runs + Repeat(offset, count) == before + (runs + Repeat(offset, count));
  }

  // ----- the encoded form -----

  /** What the box holds when it is written or read. */
  datatype Fields = Fields(version: byte, flags: nat, ends: seq<nat>, offsets: seq<nat>)
  {
    /** Offsets are 32-bit patterns here; a reader takes them as signed numbers. */
    predicate Valid() {
      && flags < 0x100_0000 && |offsets| < 0x1_0000_0000 && |ends| == |offsets| + 1 && ends[0] == 0 && Rising(ends)
      && ends[|offsets|] < 0x1_0000_0000 && forall i :: 0 <= i < |offsets| ==> offsets[i] < 0x1_0000_0000
    }
  }

  /** int32 as uint32, and back */
  function Pattern(x: int): (p: nat) {
    x % 0x1_0000_0000
  }

  function Signed(p: nat): int {
    if p < 0x8000_0000 then p else p - 0x1_0000_0000
  }

  predicate IsInt32(x: int) {
    -0x8000_0000 <= x < 0x8000_0000
  }

  predicate AreInt32(offsets: seq<int>) {
    forall i :: 0 <= i < |offsets| ==> IsInt32(offsets[i])
  }

  function Patterns(offsets: seq<int>): (p: seq<nat>) {
    seq(|offsets|, i requires 0 <= i < |offsets| => Pattern(offsets[i]))
  }

  /** The offsets as a reader takes them. */
  function SignedAll(patterns: seq<nat>): (o: seq<int>) {
    seq(|patterns|, i requires 0 <= i < |patterns| => Signed(patterns[i]))
  }

  lemma SignedPatterns(offsets: seq<int>)
    requires AreInt32(offsets)
    ensures SignedAll(Patterns(offsets)) == offsets
  {
    forall i | 0 <= i < |offsets| ensures Signed(Pattern(offsets[i])) == offsets[i] {
      assert IsInt32(offsets[i]);
    }
  }

  /** The first k entries: the count and the offset of each run. */
  function Entries(ends: seq<nat>, offsets: seq<nat>, k: nat): (s: seq<byte>)
    requires k <= |offsets| < |ends| && Rising(ends)
    ensures |s| == 8 * k
  {
    if k == 0 then []
    else Entries(ends, offsets, k - 1) + LengthField(ends[k] - ends[k - 1]) + LengthField(offsets[k - 1])
  }

  /** The body of the box, behind the 8-byte box header. */
  function Body(f: Fields): seq<byte>
    requires f.Valid()
  {
    LengthField(f.version * 0x100_0000 + f.flags) + LengthField(|f.offsets|) + Entries(f.ends, f.offsets, |f.offsets|)
  }

  /** The ends of the first k runs that are in b from byte 8 on; uint32 sums wrap around. */
  function EndsIn(b: seq<byte>, k: nat): (e: seq<nat>)
    requires 8 + 8 * k <= |b|
    ensures |e| == k + 1 && e[0] == 0
  {
    if k == 0 then [0]
    else
      var e := EndsIn(b, k - 1);
      e + [(e[k - 1] + BigEndian32(b[8 * k..8 * k + 4])) % 0x1_0000_0000]
  }

  function OffsetsIn(b: seq<byte>, k: nat): (o: seq<nat>)
    requires 8 + 8 * k <= |b|
    ensures |o| == k
  {
    if k == 0 then [] else OffsetsIn(b, k - 1) + [BigEndian32(b[8 * k + 4..8 * k + 8])]
  }

  /** DecodeCttsSR, where the box header announced the body b; None is an error. */
  function Decode(b: seq<byte>): Option<Fields> {
    if |b| < 8 then None
    else
      var vf, n := BigEndian32(b[..4]), BigEndian32(b[4..8]);
      if |b| != 8 + 8 * n then None
      else Some(Fields(vf / 0x100_0000, vf % 0x100_0000, EndsIn(b, n), OffsetsIn(b, n)))
  }

  lemma {:induction false} EntriesPrefix(ends: seq<nat>, offsets: seq<nat>, j: nat, k: nat)
    requires j <= k <= |offsets| < |ends| && Rising(ends)
    ensures Entries(ends, offsets, j) <= Entries(ends, offsets, k)
  {
    if j < k {
      EntriesPrefix(ends, offsets, j, k - 1);
    }
  }

  lemma EntryInBody(h: seq<byte>, e: seq<byte>, c: seq<byte>, o: seq<byte>, b: seq<byte>, k: nat)
    requires |h| == 8 && |e| == 8 * (k - 1) && k > 0 && |c| == |o| == 4 && h + (e + c + o) <= b
    ensures b[8 * k..8 * k + 4] == c && b[8 * k + 4..8 * k + 8] == o && h + e <= b
  {
    assert b[..8 * k + 8] == h + (e + c + o);
    assert b[..8 * k] == h + e;
  }

  lemma DecodeEntry(f: Fields, b: seq<byte>, k: nat, count: nat, offset: nat)
    requires f.Valid() && 0 < k <= |f.offsets| && 8 * k + 8 <= |b|
    requires count == f.ends[k] - f.ends[k - 1] && offset == f.offsets[k - 1]
    requires BigEndian32(b[8 * k..8 * k + 4]) == count && BigEndian32(b[8 * k + 4..8 * k + 8]) == offset
    requires EndsIn(b, k - 1) == f.ends[..k] && OffsetsIn(b, k - 1) == f.offsets[..k - 1]
    ensures EndsIn(b, k) == f.ends[..k + 1] && OffsetsIn(b, k) == f.offsets[..k]
  {
    assert f.ends[k] <= f.ends[|f.offsets|];
    assert f.ends[..k + 1] == f.ends[..k] + [f.ends[k]];
    assert f.offsets[..k] == f.offsets[..k - 1] + [f.offsets[k - 1]];
  }

  lemma {:induction false} DecodeEntries(f: Fields, h: seq<byte>, b: seq<byte>, k: nat)
    requires f.Valid() && k <= |f.offsets| && |h| == 8 && h + Entries(f.ends, f.offsets, k) <= b
    ensures EndsIn(b, k) == f.ends[..k + 1] && OffsetsIn(b, k) == f.offsets[..k]
  {
    if k > 0 {
      var e, count, offset := Entries(f.ends, f.offsets, k - 1), f.ends[k] - f.ends[k - 1], f.offsets[k - 1];
      EntryInBody(h, e, LengthField(count), LengthField(offset), b, k);
      DecodeEntries(f, h, b, k - 1);
      assert f.ends[k] <= f.ends[|f.offsets|];
      LengthFieldExact(count);
      LengthFieldExact(offset);
      DecodeEntry(f, b, k, count, offset);
    }
  }

  lemma BodyParts(x: seq<byte>, y: seq<byte>, e: seq<byte>, b: seq<byte>)
    requires |x| == |y| == 4 && b == x + y + e
    ensures b[..4] == x && b[4..8] == y && |x + y| == 8 && b == (x + y) + e
  {
  }

  lemma VersionAndFlags(version: byte, flags: nat, vf: nat)
    requires flags < 0x100_0000 && vf == version * 0x100_0000 + flags
    ensures vf < 0x1_0000_0000 && vf / 0x100_0000 == version && vf % 0x100_0000 == flags
  {
  }

  /** Reading inverts writing, and the length is the one that expectedSize gives. */
  lemma DecodeBody(f: Fields)
    requires f.Valid()
    ensures |Body(f)| == 8 + 8 * |f.offsets| && Decode(Body(f)) == Some(f)
  {
    var b, n, vf := Body(f), |f.offsets|, f.version * 0x100_0000 + f.flags;
    var x, y, e := LengthField(vf), LengthField(n), Entries(f.ends, f.offsets, n);
    VersionAndFlags(f.version, f.flags, vf);
    LengthFieldExact(vf);
    LengthFieldExact(n);
    BodyParts(x, y, e, b);
    DecodeEntries(f, x + y, b, n);
    assert f.ends[..n + 1] == f.ends && f.offsets[..n] == f.offsets;
  }

  /** The offsets of all samples that a reader finds in the fields. */
  function OffsetsOf(f: Fields): seq<int>
    requires f.Valid()
  {
    Expand(f.ends, SignedAll(f.offsets), |f.offsets|)
  }

  /** A reader of the written box finds the offsets that the box stands for. */
  lemma BoxRoundTrip(box: CttsBox)
    requires box.Valid() && box.flags < 0x100_0000 && AreInt32(box.sampleOffset)
    requires |box.sampleOffset| < 0x1_0000_0000 && |box.Offsets()| < 0x1_0000_0000
    ensures box.AsFields().Valid() && Decode(Body(box.AsFields())) == Some(box.AsFields())
    ensures OffsetsOf(box.AsFields()) == box.Offsets()
  {
    hide Decode, Body;
    SignedPatterns(box.sampleOffset);
    DecodeBody(box.AsFields());
  }

  // ----- whole runs -----

  /** One call of AddSampleCountsAndOffset. */
  datatype Call = Call(counts: seq<nat>, offsets: seq<int>)

  /** Both lists are equally long, and the offsets fit 32 bits. */
  predicate Proper(calls: seq<Call>) {
    forall k :: 0 <= k < |calls| ==> |calls[k].counts| == |calls[k].offsets| && AreInt32(calls[k].offsets)
  }

  /** All offsets that the first k calls add. */
  function Added(calls: seq<Call>, k: nat): seq<int>
    requires k <= |calls| && Proper(calls)
  {
    if k == 0 then [] else Added(calls, k - 1) + Runs(calls[k - 1].counts, calls[k - 1].offsets, |calls[k - 1].counts|)
  }

  /** The runs that the first k calls add. */
  function RunCount(calls: seq<Call>, k: nat): nat
    requires k <= |calls|
  {
    if k == 0 then 0 else RunCount(calls, k - 1) + |calls[k - 1].offsets|
  }

  lemma {:induction false} RunsLength(counts: seq<nat>, offsets: seq<int>, k: nat)
    requires k <= |counts| == |offsets|
    ensures |Runs(counts, offsets, k)| == Total(counts, k)
  {
    if k > 0 {
      RunsLength(counts, offsets, k - 1);
    }
  }

  lemma {:induction false} AddedMono(calls: seq<Call>, j: nat, k: nat)
    requires j <= k <= |calls| && Proper(calls)
    ensures |Added(calls, j)| <= |Added(calls, k)| && RunCount(calls, j) <= RunCount(calls, k)
  {
    if j < k {
      AddedMono(calls, j, k - 1);
    }
  }

  lemma AddedStep(calls: seq<Call>, k: nat)
    requires k < |calls| && Proper(calls)
    ensures |Added(calls, k)| + Total(calls[k].counts, |calls[k].counts|) <= |Added(calls, |calls|)|
    ensures RunCount(calls, k + 1) <= RunCount(calls, |calls|)
  {
    RunsLength(calls[k].counts, calls[k].offsets, |calls[k].counts|);
    AddedMono(calls, k + 1, |calls|);
  }

  /** After any run of additions the box stands for all offsets added, in order, and so does what a reader gets from the
      written box.
    */
  method AddAll(calls: seq<Call>) returns (box: CttsBox)
    requires Proper(calls) && |Added(calls, |calls|)| < 0x1_0000_0000 && RunCount(calls, |calls|) < 0x1_0000_0000
    ensures fresh(box) && box.Valid() && box.Offsets() == Added(calls, |calls|) && box.AsFields().Valid()
    ensures var f := Decode(Body(box.AsFields()));
            f.Some? && f.value.Valid() && OffsetsOf(f.value) == Added(calls, |calls|)
  {
    hide Decode, Body, Expand, Runs;
    box := new CttsBox();
    var k := 0;
    while k < |calls|
      invariant k <= |calls| && fresh(box) && box.Valid() && box.flags == 0 && AreInt32(box.sampleOffset)
      invariant box.Offsets() == Added(calls, k) && |box.sampleOffset| == RunCount(calls, k)
    {
      AddedStep(calls, k);
      var ok := box.AddSampleCountsAndOffset(calls[k].counts, calls[k].offsets);
      k := k + 1;
    }
    BoxRoundTrip(box);
  }
}
