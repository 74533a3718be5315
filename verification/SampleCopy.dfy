/** Copying the data of samples out of a progressive file through a workspace (CopySampleData in mp4/file.go). */
module SampleCopy {
  import opened BitStrings

  // ----- which bytes -----

  /** Consecutive samples, stored from offset on; samples are numbered from 1. */
  datatype Chunk = Chunk(startSampleNr: nat, nrSamples: nat, offset: nat)

  /** The total size of the samples from a up to but not including b. */
  function SizeSum(sizes: seq<nat>, a: nat, b: nat): nat
    requires 1 <= a <= b <= |sizes| + 1
    decreases b
  {
    if a == b then 0 else SizeSum(sizes, a, b - 1) + sizes[b - 2]
  }

  lemma {:induction false} SizeSumSplit(sizes: seq<nat>, a: nat, b: nat, c: nat)
    requires 1 <= a <= b <= c <= |sizes| + 1
    ensures SizeSum(sizes, a, c) == SizeSum(sizes, a, b) + SizeSum(sizes, b, c)
    decreases c
  {
    if b < c {
      SizeSumSplit(sizes, a, b, c - 1);
    }
  }

  function ChunkEnd(c: Chunk): nat {
    c.startSampleNr + c.nrSamples
  }

  /** The chunks follow each other and contain the samples from start to end, the first chunk the first and the last
      chunk the last of them.
    */
  ghost predicate Containing(chunks: seq<Chunk>, sizes: seq<nat>, start: nat, end: nat) {
    && chunks != [] && 1 <= chunks[0].startSampleNr <= start <= end
    && end < ChunkEnd(chunks[|chunks| - 1]) <= |sizes| + 1
    && start < ChunkEnd(chunks[0]) && chunks[|chunks| - 1].startSampleNr <= end
    && forall i :: 0 <= i < |chunks| ==> ChunkAt(chunks, i)
  }

  ghost predicate ChunkAt(chunks: seq<Chunk>, i: nat)
    requires i < |chunks|
  {
    chunks[i].nrSamples > 0 && (i > 0 ==> chunks[i].startSampleNr == ChunkEnd(chunks[i - 1]))
  }

  lemma {:induction false} ChunkOrder(chunks: seq<Chunk>, i: nat, j: nat)
    requires i <= j < |chunks| && forall k :: 0 <= k < |chunks| ==> ChunkAt(chunks, k)
    ensures chunks[i].startSampleNr <= chunks[j].startSampleNr && ChunkEnd(chunks[i]) <= ChunkEnd(chunks[j])
  {
    assert ChunkAt(chunks, j);
    if i < j {
      ChunkOrder(chunks, i, j - 1);
    }
  }

  /** The samples that are wanted of chunk i: from the first one, up to but not including the second. */
  function First(chunks: seq<Chunk>, start: nat, i: nat): nat
    requires i < |chunks|
  {
    if i == 0 then start else chunks[i].startSampleNr
  }

  function Behind(chunks: seq<Chunk>, end: nat, i: nat): nat
    requires i < |chunks|
  {
    if i == |chunks| - 1 then end + 1 else ChunkEnd(chunks[i])
  }

  lemma WithinChunk(chunks: seq<Chunk>, sizes: seq<nat>, start: nat, end: nat, i: nat)
    requires Containing(chunks, sizes, start, end) && i < |chunks|
    ensures 1 <= chunks[i].startSampleNr <= First(chunks, start, i) <= Behind(chunks, end, i)
    ensures Behind(chunks, end, i) <= ChunkEnd(chunks[i]) <= |sizes| + 1
    ensures i + 1 < |chunks| ==> Behind(chunks, end, i) == First(chunks, start, i + 1)
  {
    ChunkOrder(chunks, 0, i);
    ChunkOrder(chunks, i, |chunks| - 1);
    assert ChunkAt(chunks, i);
    if i + 1 < |chunks| {
      assert ChunkAt(chunks, i + 1);
    }
  }

  /** Where sample nr lies, in chunk i. */
  function SampleBytes(file: seq<byte>, chunks: seq<Chunk>, sizes: seq<nat>, i: nat, nr: nat): seq<byte>
    requires i < |chunks| && 1 <= chunks[i].startSampleNr <= nr <= |sizes|
    requires chunks[i].offset + SizeSum(sizes, chunks[i].startSampleNr, nr + 1) <= |file|
  {
    file[chunks[i].offset + SizeSum(sizes, chunks[i].startSampleNr, nr)
         ..chunks[i].offset + SizeSum(sizes, chunks[i].startSampleNr, nr + 1)]
  }

  /** The samples of chunk i lie within the file. */
  ghost predicate Stored(file: seq<byte>, chunks: seq<Chunk>, sizes: seq<nat>, i: nat)
    requires i < |chunks|
  {
    && 1 <= chunks[i].startSampleNr && ChunkEnd(chunks[i]) <= |sizes| + 1
    && chunks[i].offset + SizeSum(sizes, chunks[i].startSampleNr, ChunkEnd(chunks[i])) <= |file|
  }

  /** The samples of chunk i from a up to but not including b, one after the other. */
  function ChunkSamples(file: seq<byte>, chunks: seq<Chunk>, sizes: seq<nat>, i: nat, a: nat, b: nat): seq<byte>
    requires i < |chunks| && Stored(file, chunks, sizes, i) && chunks[i].startSampleNr <= a <= b <= ChunkEnd(chunks[i])
    decreases b
  {
    if a == b then []
    else
      SizeSumSplit(sizes, chunks[i].startSampleNr, b, ChunkEnd(chunks[i]));
      ChunkSamples(file, chunks, sizes, i, a, b - 1) + SampleBytes(file, chunks, sizes, i, b - 1)
  }

  /** They are one range of the file. */
  lemma {:induction false} SamplesAreRange(file: seq<byte>, chunks: seq<Chunk>, sizes: seq<nat>, i: nat, a: nat, b: nat,
                                           lo: nat, hi: nat)
    requires i < |chunks| && Stored(file, chunks, sizes, i) && chunks[i].startSampleNr <= a <= b <= ChunkEnd(chunks[i])
    requires lo == chunks[i].offset + SizeSum(sizes, chunks[i].startSampleNr, a)
    requires hi == chunks[i].offset + SizeSum(sizes, chunks[i].startSampleNr, b)
    ensures lo <= hi <= |file| && ChunkSamples(file, chunks, sizes, i, a, b) == file[lo..hi]
    decreases b
  {
    var s := chunks[i].startSampleNr;
    SizeSumSplit(sizes, s, a, b);
    SizeSumSplit(sizes, s, b, ChunkEnd(chunks[i]));
    if a < b {
      var mid := chunks[i].offset + SizeSum(sizes, s, b - 1);
      SamplesAreRange(file, chunks, sizes, i, a, b - 1, lo, mid);
      assert file[lo..mid] + file[mid..hi] == file[lo..hi];
    }
  }

  /** The wanted samples of the first k chunks. */
  function Wanted(file: seq<byte>, chunks: seq<Chunk>, sizes: seq<nat>, start: nat, end: nat, k: nat): seq<byte>
    requires Containing(chunks, sizes, start, end) && k <= |chunks|
    requires forall i :: 0 <= i < |chunks| ==> Stored(file, chunks, sizes, i)
  {
    if k == 0 then []
    else
      WithinChunk(chunks, sizes, start, end, k - 1);
      Wanted(file, chunks, sizes, start, end, k - 1)
        + ChunkSamples(file, chunks, sizes, k - 1, First(chunks, start, k - 1), Behind(chunks, end, k - 1))
  }

  /** Sizes add up within a chunk that begins with s. */
  lemma PartSums(sizes: seq<nat>, s: nat, a: nat, nr: nat, b: nat)
    requires 1 <= s <= a <= nr < b <= |sizes| + 1
    ensures SizeSum(sizes, s, nr) == SizeSum(sizes, s, a) + SizeSum(sizes, a, nr)
    ensures SizeSum(sizes, s, b) == SizeSum(sizes, s, a) + SizeSum(sizes, a, b)
    ensures SizeSum(sizes, s, nr) + sizes[nr - 1] == SizeSum(sizes, s, nr + 1) <= SizeSum(sizes, s, b)
  {
    SizeSumSplit(sizes, s, a, nr);
    SizeSumSplit(sizes, s, a, b);
    SizeSumSplit(sizes, s, nr, nr + 1);
    SizeSumSplit(sizes, s, nr + 1, b);
  }

  lemma SliceOfSlice(s: seq<byte>, lo: nat, hi: nat, x: seq<byte>, o: nat, n: nat, at: nat)
    requires lo <= hi <= |s| && x == s[lo..hi] && at == lo + o && at + n <= hi
    ensures |x| == hi - lo && x[o..o + n] == s[at..at + n]
  {
    var y, z := x[o..o + n], s[at..at + n];
    assert |y| == |z| && forall i :: 0 <= i < |y| ==> y[i] == z[i];
  }

  /** Sample nr of n bytes among the samples of a chunk from a to b: it is o bytes behind their start, and at in the
      file.
    */
  lemma ChunkPart(file: seq<byte>, chunks: seq<Chunk>, sizes: seq<nat>, i: nat, a: nat, b: nat, nr: nat, n: nat, o: nat,
                  at: nat)
    requires i < |chunks| && Stored(file, chunks, sizes, i)
    requires chunks[i].startSampleNr <= a <= nr < b <= ChunkEnd(chunks[i]) && n == sizes[nr - 1]
    requires o == SizeSum(sizes, a, nr) && at == chunks[i].offset + SizeSum(sizes, chunks[i].startSampleNr, nr)
    ensures var x := ChunkSamples(file, chunks, sizes, i, a, b);
            && |x| == SizeSum(sizes, a, b) >= o + n && at + n <= |file| && x[o..o + n] == file[at..at + n]
  {
    var s, p := chunks[i].startSampleNr, chunks[i].offset;
    var lo, hi, x := p + SizeSum(sizes, s, a), p + SizeSum(sizes, s, b), ChunkSamples(file, chunks, sizes, i, a, b);
    PartSums(sizes, s, a, nr, b);
    SamplesAreRange(file, chunks, sizes, i, a, b, lo, hi);
    hide *;
    SliceOfSlice(file, lo, hi, x, o, n, at);
  }

  lemma ChunkLength(file: seq<byte>, chunks: seq<Chunk>, sizes: seq<nat>, i: nat, a: nat, b: nat)
    requires i < |chunks| && Stored(file, chunks, sizes, i)
    requires chunks[i].startSampleNr <= a <= b <= ChunkEnd(chunks[i])
    ensures |ChunkSamples(file, chunks, sizes, i, a, b)| == SizeSum(sizes, a, b)
  {
    var s, p := chunks[i].startSampleNr, chunks[i].offset;
    SizeSumSplit(sizes, s, a, b);
    SamplesAreRange(file, chunks, sizes, i, a, b, p + SizeSum(sizes, s, a), p + SizeSum(sizes, s, b));
  }

  lemma {:induction false} WantedLength(file: seq<byte>, chunks: seq<Chunk>, sizes: seq<nat>, start: nat, end: nat,
                                        k: nat)
    requires Containing(chunks, sizes, start, end) && 0 < k <= |chunks|
    requires forall i :: 0 <= i < |chunks| ==> Stored(file, chunks, sizes, i)
    ensures start <= Behind(chunks, end, k - 1) <= |sizes| + 1
    ensures |Wanted(file, chunks, sizes, start, end, k)| == SizeSum(sizes, start, Behind(chunks, end, k - 1))
  {
    WithinChunk(chunks, sizes, start, end, k - 1);
    ChunkLength(file, chunks, sizes, k - 1, First(chunks, start, k - 1), Behind(chunks, end, k - 1));
    if k > 1 {
      WantedLength(file, chunks, sizes, start, end, k - 1);
      WithinChunk(chunks, sizes, start, end, k - 2);
      SizeSumSplit(sizes, start, First(chunks, start, k - 1), Behind(chunks, end, k - 1));
    }
  }

  lemma InFirst(x: seq<byte>, y: seq<byte>, o: nat, n: nat)
    requires o + n <= |x|
    ensures (x + y)[o..o + n] == x[o..o + n]
  {
  }

  lemma InSecond(x: seq<byte>, y: seq<byte>, p: nat, n: nat, o: nat)
    requires o == |x| + p && p + n <= |y|
    ensures (x + y)[o..o + n] == y[p..p + n]
  {
  }

  lemma WithinWanted(chunks: seq<Chunk>, sizes: seq<nat>, start: nat, end: nat, i: nat, nr: nat)
    requires Containing(chunks, sizes, start, end) && i < |chunks|
    requires start <= nr <= end && chunks[i].startSampleNr <= nr < ChunkEnd(chunks[i])
    ensures 1 <= start <= First(chunks, start, i) <= nr < Behind(chunks, end, i)
  {
    ChunkOrder(chunks, 0, i);
    if i > 0 {
      ChunkOrder(chunks, 0, i - 1);
      assert ChunkAt(chunks, i);
    }
  }

  lemma WantedLast(file: seq<byte>, chunks: seq<Chunk>, sizes: seq<nat>, start: nat, end: nat, i: nat, nr: nat, o: nat)
    requires Containing(chunks, sizes, start, end) && i < |chunks|
    requires forall i :: 0 <= i < |chunks| ==> Stored(file, chunks, sizes, i)
    requires start <= nr <= end && 1 <= chunks[i].startSampleNr <= nr < ChunkEnd(chunks[i]) <= |sizes| + 1
    requires 1 <= start && o == SizeSum(sizes, start, nr)
    ensures var w, at := Wanted(file, chunks, sizes, start, end, i + 1), SizeSum(sizes, chunks[i].startSampleNr, nr);
            && o + sizes[nr - 1] <= |w| && chunks[i].offset + at + sizes[nr - 1] <= |file|
            && w[o..o + sizes[nr - 1]] == file[chunks[i].offset + at..chunks[i].offset + at + sizes[nr - 1]]
  {
    hide Containing, Stored, ChunkSamples;
    var a, b, before := First(chunks, start, i), Behind(chunks, end, i), Wanted(file, chunks, sizes, start, end, i);
    WithinChunk(chunks, sizes, start, end, i);
    WithinWanted(chunks, sizes, start, end, i, nr);
    ChunkPart(file, chunks, sizes, i, a, b, nr, sizes[nr - 1], SizeSum(sizes, a, nr),
              chunks[i].offset + SizeSum(sizes, chunks[i].startSampleNr, nr));
    SizeSumSplit(sizes, start, a, nr);
    if i > 0 {
      WantedLength(file, chunks, sizes, start, end, i);
      WithinChunk(chunks, sizes, start, end, i - 1);
    }
    InSecond(before, ChunkSamples(file, chunks, sizes, i, a, b), SizeSum(sizes, a, nr), sizes[nr - 1], o);
  }

  /** What is copied holds every sample from start to end, at the place that the sizes of those before it give: sample
      nr, which lies in chunk i, is there as it is in the file. And it holds nothing else.
    */
  lemma {:induction false} WantedAt(file: seq<byte>, chunks: seq<Chunk>, sizes: seq<nat>, start: nat, end: nat, k: nat,
                                    i: nat, nr: nat, o: nat)
    requires Containing(chunks, sizes, start, end) && i < k <= |chunks|
    requires forall i :: 0 <= i < |chunks| ==> Stored(file, chunks, sizes, i)
    requires start <= nr <= end && 1 <= chunks[i].startSampleNr <= nr < ChunkEnd(chunks[i]) <= |sizes| + 1
    requires 1 <= start && o == SizeSum(sizes, start, nr)
    ensures var w, at := Wanted(file, chunks, sizes, start, end, k), SizeSum(sizes, chunks[i].startSampleNr, nr);
            && o + sizes[nr - 1] <= |w| && chunks[i].offset + at + sizes[nr - 1] <= |file|
            && w[o..o + sizes[nr - 1]] == file[chunks[i].offset + at..chunks[i].offset + at + sizes[nr - 1]]
            && (k == |chunks| ==> |w| == SizeSum(sizes, start, end + 1))
  {
    hide Containing, Stored, ChunkSamples;
    WithinChunk(chunks, sizes, start, end, k - 1);
    WantedLength(file, chunks, sizes, start, end, k);
    if i < k - 1 {
      WantedAt(file, chunks, sizes, start, end, k - 1, i, nr, o);
      InFirst(Wanted(file, chunks, sizes, start, end, k - 1),
              ChunkSamples(file, chunks, sizes, k - 1, First(chunks, start, k - 1), Behind(chunks, end, k - 1)), o,
              sizes[nr - 1]);
    } else {
      WantedLast(file, chunks, sizes, start, end, i, nr, o);
    }
  }

  // ----- the workspace loop -----

  /** The writer. */
  class Output {
    var written: seq<byte>

    constructor ()
      ensures written == []
    {
      written := [];
    }

    method Write(bytes: seq<byte>)
      modifies this
      ensures written == old(written) + bytes
    {
      written := written + bytes;
    }
  }

  /** Everything up to here is written, or in the first workPos bytes of the workspace. */
  ghost predicate Holding(w: Output, work: array<byte>, workPos: nat, all: seq<byte>)
    reads w, work
  {
    workPos <= work.Length && w.written + work[..workPos] == all
  }

  /** One Read of the lazy source into work[workPos..end]: at least one byte where there is room and data, as many as
      the source is ready to give.
    */
  method ReadInto(file: seq<byte>, pos: nat, work: array<byte>, workPos: nat, end: nat, grant: nat) returns (n: nat)
    requires workPos <= end <= work.Length && pos + (end - workPos) <= |file|
    modifies work
    ensures n <= end - workPos && (workPos < end ==> n > 0)
    ensures work[..workPos + n] == old(work[..workPos]) + file[pos..pos + n]
  {
    n := Min(end - workPos, if grant == 0 then 1 else grant);
    forall i | 0 <= i < n {
      work[workPos + i] := file[pos + i];
    }
  }

  /** The body of the inner loop as far as the flush: reads some bytes. */
  method PumpSome(file: seq<byte>, pos: nat, nrLeft: nat, w: Output, work: array<byte>, workPos: nat, grant: nat,
                  ghost all: seq<byte>)
    returns (n: nat)
    requires Holding(w, work, workPos, all) && pos + nrLeft <= |file|
    modifies work
    ensures n <= nrLeft && (workPos < work.Length && nrLeft > 0 ==> n > 0) && workPos + n <= work.Length
    ensures Holding(w, work, workPos + n, all + file[pos..pos + n])
  {
    var end := Min(work.Length, workPos + nrLeft);
    ghost var held := work[..workPos];
    n := ReadInto(file, pos, work, workPos, end, grant);
    assert w.written + (held + file[pos..pos + n]) == all + file[pos..pos + n];
  }

  /** The loop over one range of the file: for any short reads it ends, with the range written or in the workspace. */
  method PumpRange(file: seq<byte>, lo: nat, size: nat, w: Output, work: array<byte>, workPos0: nat, grants: nat -> nat,
                   ghost all: seq<byte>) returns (workPos: nat)
    requires work.Length > 0 && lo + size <= |file| && Holding(w, work, workPos0, all)
    modifies w, work
    ensures Holding(w, work, workPos, all + file[lo..lo + size])
  {
    workPos := workPos0;
    var nrLeft, nrRead, round := size, 0, 0;
    assert all + file[lo..lo] == all;
    while true
      invariant nrLeft + nrRead == size && Holding(w, work, workPos, all + file[lo..lo + nrRead])
      decreases nrLeft, if workPos == work.Length then 1 else 0
    {
      var n := PumpSome(file, lo + nrRead, nrLeft, w, work, workPos, grants(round), all + file[lo..lo + nrRead]);
      assert (all + file[lo..lo + nrRead]) + file[lo + nrRead..lo + nrRead + n] == all + file[lo..lo + nrRead + n];
      nrLeft := nrLeft - n;
      workPos := workPos + n;
      nrRead := nrRead + n;
      round := round + 1;
      if nrLeft == 0 {
        break;
      }
      if workPos == work.Length {
        workPos := Flush(w, work, workPos, all + file[lo..lo + nrRead]);
      }
    }
  }

  method Flush(w: Output, work: array<byte>, workPos: nat, ghost all: seq<byte>) returns (next: nat)
    requires Holding(w, work, workPos, all)
    modifies w
    ensures next == 0 && Holding(w, work, 0, all) && w.written == all
  {
    w.Write(work[..workPos]);
    next := 0;
    assert work[..0] == [];
  }

  /** The loops that add up sizes. */
  method AddSizes(sizes: seq<nat>, a: nat, b: nat) returns (total: nat)
    requires 1 <= a <= b <= |sizes| + 1
    ensures total == SizeSum(sizes, a, b)
  {
    total := 0;
    var nr := a;
    while nr < b
      invariant a <= nr <= b && total == SizeSum(sizes, a, nr)
    {
      total := total + sizes[nr - 1];
      nr := nr + 1;
    }
  }

  /** The start and the size of what is wanted of chunk i. */
  method RangeOf(file: seq<byte>, chunks: seq<Chunk>, sizes: seq<nat>, start: nat, end: nat, i: nat)
    returns (lo: nat, size: nat)
    requires Containing(chunks, sizes, start, end) && i < |chunks| && Stored(file, chunks, sizes, i)
    ensures chunks[i].offset <= lo && lo + size <= |file|
    ensures First(chunks, start, i) <= Behind(chunks, end, i) <= ChunkEnd(chunks[i])
    ensures chunks[i].startSampleNr <= First(chunks, start, i)
    ensures file[lo..lo + size] == ChunkSamples(file, chunks, sizes, i, First(chunks, start, i), Behind(chunks, end, i))
  {
    WithinChunk(chunks, sizes, start, end, i);
    var chunk := chunks[i];
    var startNr, behindNr, skipped := chunk.startSampleNr, ChunkEnd(chunk), 0;
    if i == 0 {
      skipped := AddSizes(sizes, startNr, start);
      startNr := start;
    }
    if i == |chunks| - 1 {
      behindNr := end + 1;
    }
    size := AddSizes(sizes, startNr, behindNr);
    lo := chunk.offset + skipped;
    SizeSumSplit(sizes, chunk.startSampleNr, startNr, behindNr);
    SamplesAreRange(file, chunks, sizes, i, startNr, behindNr, lo, lo + size);
  }

  /** One range of the file: through the workspace, or directly where there is none (io.CopyN). */
  method CopyRange(file: seq<byte>, lo: nat, size: nat, w: Output, work: array<byte>, workPos0: nat,
                   grants: nat -> nat, ghost all: seq<byte>) returns (workPos: nat)
    requires lo + size <= |file| && Holding(w, work, workPos0, all)
    modifies w, work
    ensures Holding(w, work, workPos, all + file[lo..lo + size])
  {
    if work.Length == 0 {
      assert w.written + work[..0] == w.written;
      w.Write(file[lo..lo + size]);
      workPos := workPos0;
      assert work[..workPos] == [] && w.written + [] == w.written;
    } else {
      workPos := PumpRange(file, lo, size, w, work, workPos0, grants, all);
    }
  }

  /** CopySampleData on a lazy mdat box: for every workspace, also an empty one, and all short reads, exactly the wanted
      samples are written, in order.
    */
  method CopyLazily(file: seq<byte>, chunks: seq<Chunk>, sizes: seq<nat>, start: nat, end: nat, w: Output,
                    work: array<byte>, grants: nat -> nat)
    requires Containing(chunks, sizes, start, end) && forall i :: 0 <= i < |chunks| ==> Stored(file, chunks, sizes, i)
    modifies w, work
    ensures w.written == old(w.written) + Wanted(file, chunks, sizes, start, end, |chunks|)
  {
    ghost var before := w.written;
    var workPos, i := 0, 0;
    assert work[..0] == [] && before + [] == before;
    while i < |chunks|
      invariant i <= |chunks| && Holding(w, work, workPos, before + Wanted(file, chunks, sizes, start, end, i))
    {
      ghost var all := Wanted(file, chunks, sizes, start, end, i);
      var lo, size := RangeOf(file, chunks, sizes, start, end, i);
      workPos := CopyRange(file, lo, size, w, work, workPos, grants, before + all);
      assert (before + all) + file[lo..lo + size] == before + (all + file[lo..lo + size]);
      i := i + 1;
    }
    if workPos > 0 {
      workPos := Flush(w, work, workPos, before + Wanted(file, chunks, sizes, start, end, |chunks|));
    } else {
      assert work[..0] == [] && w.written + [] == w.written;
    }
  }

  /** The same with the mdat data in memory: data is the file from payloadStart on. */
  method CopyFromMemory(file: seq<byte>, payloadStart: nat, data: seq<byte>, chunks: seq<Chunk>, sizes: seq<nat>,
                        start: nat, end: nat, w: Output)
    requires Containing(chunks, sizes, start, end) && forall i :: 0 <= i < |chunks| ==> Stored(file, chunks, sizes, i)
    requires payloadStart <= |file| && data == file[payloadStart..]
    requires forall i :: 0 <= i < |chunks| ==> payloadStart <= chunks[i].offset
    modifies w
    ensures w.written == old(w.written) + Wanted(file, chunks, sizes, start, end, |chunks|)
  {
    ghost var before := w.written;
    var i := 0;
    assert before + [] == before;
    while i < |chunks|
      invariant i <= |chunks| && w.written == before + Wanted(file, chunks, sizes, start, end, i)
    {
      var lo, size := RangeOf(file, chunks, sizes, start, end, i);
      ghost var all := Wanted(file, chunks, sizes, start, end, i);
      assert data[lo - payloadStart..lo - payloadStart + size] == file[lo..lo + size];
      assert (before + all) + file[lo..lo + size] == before + (all + file[lo..lo + size]);
      w.Write(data[lo - payloadStart..lo - payloadStart + size]);
      i := i + 1;
    }
  }
}
