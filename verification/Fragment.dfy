/** Building a fragment of several tracks, whose samples are interleaved in one mdat box, and setting the data offsets
    of its trun boxes (mp4/fragment.go, mp4/trun.go, mp4/mdat.go).
  */
module Fragment {
  import opened BitStrings
  import BoxSeekReader

  datatype Sample = Sample(flags: nat, dur: nat, size: nat, cto: int)

  /** A sample with its data (FullSample). */
  datatype Item = Item(sample: Sample, data: seq<byte>)

  // ----- lists of samples -----

  function Samples(items: seq<Item>): (s: seq<Sample>)
    ensures |s| == |items|
  {
    seq(|items|, i requires 0 <= i < |items| => items[i].sample)
  }

  /** The data of the first j items, one after the other. */
  function Bytes(items: seq<Item>, j: nat): seq<byte>
    requires j <= |items|
  {
    if j == 0 then [] else Bytes(items, j - 1) + items[j - 1].data
  }

  /** The data of the first k parts. */
  function Flat(parts: seq<seq<Item>>, k: nat): seq<byte>
    requires k <= |parts|
  {
    if k == 0 then [] else Flat(parts, k - 1) + Bytes(parts[k - 1], |parts[k - 1]|)
  }

  /** The items of the parts that belong to track i, in order. */
  function TrackItems(parts: seq<seq<Item>>, owner: seq<nat>, i: nat, k: nat): seq<Item>
    requires k <= |parts| == |owner|
  {
    if k == 0 then []
    else TrackItems(parts, owner, i, k - 1) + (if owner[k - 1] == i then parts[k - 1] else [])
  }

  /** Every sample says how long its data is. */
  ghost predicate Sized(items: seq<Item>) {
    forall j :: 0 <= j < |items| ==> items[j].sample.size == |items[j].data|
  }

  ghost predicate SizedParts(parts: seq<seq<Item>>) {
    forall k :: 0 <= k < |parts| ==> Sized(parts[k])
  }

  lemma OpenedSized(parts: seq<seq<Item>>)
    ensures SizedParts(parts + [[]]) <==> SizedParts(parts)
  {
    var p := parts + [[]];
    assert forall k :: 0 <= k < |parts| ==> p[k] == parts[k];
  }

  lemma GrownSized(parts: seq<seq<Item>>, item: Item)
    requires parts != [] && SizedParts(parts) && item.sample.size == |item.data|
    ensures SizedParts(Grown(parts, item))
  {
  }

  /** The total of the sizes of the first j samples. */
  function SizeTo(samples: seq<Sample>, j: nat): nat
    requires j <= |samples|
  {
    if j == 0 then 0 else SizeTo(samples, j - 1) + samples[j - 1].size
  }

  lemma {:induction false} SizeIsLength(items: seq<Item>, j: nat)
    requires Sized(items) && j <= |items|
    ensures SizeTo(Samples(items), j) == |Bytes(items, j)|
  {
    if j > 0 {
      SizeIsLength(items, j - 1);
    }
  }

  lemma {:induction false} BytesPrefix(items: seq<Item>, more: seq<Item>, j: nat)
    requires j <= |items|
    ensures Bytes(items + more, j) == Bytes(items, j)
  {
    if j > 0 {
      BytesPrefix(items, more, j - 1);
    }
  }

  lemma {:induction false} FlatPrefix(parts: seq<seq<Item>>, parts': seq<seq<Item>>, k: nat)
    requires k <= |parts| && k <= |parts'| && parts[..k] == parts'[..k]
    ensures Flat(parts, k) == Flat(parts', k)
  {
    if k > 0 {
      assert parts[..k][..k - 1] == parts[..k - 1] && parts'[..k][..k - 1] == parts'[..k - 1];
      assert parts[k - 1] == parts[..k][k - 1] == parts'[k - 1];
      FlatPrefix(parts, parts', k - 1);
    }
  }

  lemma {:induction false} TrackPrefix(parts: seq<seq<Item>>, owner: seq<nat>, parts': seq<seq<Item>>, owner': seq<nat>,
                                       i: nat, k: nat)
    requires k <= |parts| == |owner| && k <= |parts'| == |owner'|
    requires parts[..k] == parts'[..k] && owner[..k] == owner'[..k]
    ensures TrackItems(parts, owner, i, k) == TrackItems(parts', owner', i, k)
  {
    if k > 0 {
      assert parts[..k][..k - 1] == parts[..k - 1] && parts'[..k][..k - 1] == parts'[..k - 1];
      assert owner[..k][..k - 1] == owner[..k - 1] && owner'[..k][..k - 1] == owner'[..k - 1];
      assert parts[k - 1] == parts[..k][k - 1] == parts'[k - 1];
      assert owner[k - 1] == owner[..k][k - 1] == owner'[k - 1];
      TrackPrefix(parts, owner, parts', owner', i, k - 1);
    }
  }

  lemma BytesAppend(items: seq<Item>, item: Item, b: seq<byte>)
    requires b == Bytes(items, |items|)
    ensures Bytes(items + [item], |items| + 1) == b + item.data
  {
    BytesPrefix(items, [item], |items|);
  }

  /** An empty part changes neither the bytes nor the tracks. */
  lemma Opened(parts: seq<seq<Item>>, owner: seq<nat>, t: nat, i: nat)
    requires |parts| == |owner|
    ensures Flat(parts + [[]], |parts| + 1) == Flat(parts, |parts|)
    ensures TrackItems(parts + [[]], owner + [t], i, |parts| + 1) == TrackItems(parts, owner, i, |parts|)
  {
    var n, p, o := |parts|, parts + [[]], owner + [t];
    FlatPrefix(parts, p, n);
    TrackPrefix(parts, owner, p, o, i, n);
    assert p[n] == [] && Bytes(p[n], 0) == [];
  }

  /** One more item in the last part. */
  function Grown(parts: seq<seq<Item>>, item: Item): (p: seq<seq<Item>>)
    requires parts != []
    ensures |p| == |parts|
  {
    parts[|parts| - 1 := parts[|parts| - 1] + [item]]
  }

  lemma GrownBytes(parts: seq<seq<Item>>, item: Item, p: seq<seq<Item>>)
    requires parts != [] && p == Grown(parts, item)
    ensures Flat(p, |parts|) == Flat(parts, |parts|) + item.data
  {
    var n := |parts|;
    var last := parts[n - 1];
    FlatPrefix(parts, p, n - 1);
    LastGrown(last, item, Flat(parts, n - 1), p[n - 1]);
  }

  lemma LastGrown(last: seq<Item>, item: Item, f: seq<byte>, grown: seq<Item>)
    requires grown == last + [item]
    ensures f + Bytes(grown, |grown|) == (f + Bytes(last, |last|)) + item.data
  {
    var b := Bytes(last, |last|);
    BytesAppend(last, item, b);
    assert f + (b + item.data) == (f + b) + item.data;
  }

  lemma GrownTracks(parts: seq<seq<Item>>, owner: seq<nat>, item: Item, i: nat)
    requires |parts| == |owner| > 0
    ensures TrackItems(Grown(parts, item), owner, i, |parts|)
         == TrackItems(parts, owner, i, |parts|) + (if i == owner[|owner| - 1] then [item] else [])
  {
    var n, p := |parts|, Grown(parts, item);
    TrackPrefix(parts, owner, p, owner, i, n - 1);
    if i == owner[n - 1] {
      assert TrackItems(parts, owner, i, n - 1) + (parts[n - 1] + [item]) == TrackItems(parts, owner, i, n) + [item];
    }
  }

  // ----- reading back -----

  /** The first j samples with their data, the first of which begins at off; beyond the data there is none. */
  function ReadFrom(samples: seq<Sample>, data: seq<byte>, off: int, j: nat): (items: seq<Item>)
    requires j <= |samples|
    ensures |items| == j
  {
    if j == 0 then []
    else
      var a, b := off + SizeTo(samples, j - 1), off + SizeTo(samples, j);
      ReadFrom(samples, data, off, j - 1) + [Item(samples[j - 1], if 0 <= a <= b <= |data| then data[a..b] else [])]
  }

  /** The sizes of the first k parts, as their samples state them. */
  function OffsetTo(parts: seq<seq<Item>>, k: nat): nat
    requires k <= |parts|
  {
    if k == 0 then 0 else OffsetTo(parts, k - 1) + SizeTo(Samples(parts[k - 1]), |parts[k - 1]|)
  }

  /** The parts cut the bytes into consecutive slices, from the first byte to the last. */
  lemma {:induction false} OffsetIsLength(parts: seq<seq<Item>>, k: nat)
    requires SizedParts(parts) && k <= |parts|
    ensures OffsetTo(parts, k) == |Flat(parts, k)|
  {
    if k > 0 {
      OffsetIsLength(parts, k - 1);
      SizeIsLength(parts[k - 1], |parts[k - 1]|);
    }
  }

  lemma {:induction false} FlatMono(parts: seq<seq<Item>>, j: nat, k: nat)
    requires j <= k <= |parts|
    ensures Flat(parts, j) <= Flat(parts, k)
  {
    if j < k {
      FlatMono(parts, j, k - 1);
    }
  }

  /** The samples of one part, whose bytes lie in data behind before, are read back. */
  lemma {:induction false} ReadPart(items: seq<Item>, data: seq<byte>, before: seq<byte>, j: nat)
    requires Sized(items) && j <= |items| && before + Bytes(items, j) <= data
    ensures ReadFrom(Samples(items), data, |before|, j) == items[..j]
  {
    if j > 0 {
      var b, d := Bytes(items, j - 1), items[j - 1].data;
      SizeIsLength(items, j - 1);
      Behind(before, b, d, data);
      ReadPart(items, data, before, j - 1);
      ReadOne(Samples(items), data, |before|, j, items[j - 1], |b|);
      assert items[..j] == items[..j - 1] + [items[j - 1]];
    }
  }

  lemma ReadOne(samples: seq<Sample>, data: seq<byte>, off: nat, j: nat, item: Item, at: nat)
    requires 0 < j <= |samples| && samples[j - 1] == item.sample && item.sample.size == |item.data|
    requires SizeTo(samples, j - 1) == at && off + at + |item.data| <= |data|
    requires data[off + at..off + at + |item.data|] == item.data
    ensures ReadFrom(samples, data, off, j) == ReadFrom(samples, data, off, j - 1) + [item]
  {
    assert off + SizeTo(samples, j) == off + at + |item.data| by {
      hide ReadFrom;
    }
    hide SizeTo;
    ReadStep(samples, data, off, j, off + at, off + at + |item.data|);
  }

  lemma ReadStep(samples: seq<Sample>, data: seq<byte>, off: nat, j: nat, a: nat, b: nat)
    requires 0 < j <= |samples| && a == off + SizeTo(samples, j - 1) && b == off + SizeTo(samples, j)
    requires a <= b <= |data|
    ensures ReadFrom(samples, data, off, j) == ReadFrom(samples, data, off, j - 1) + [Item(samples[j - 1], data[a..b])]
  {
    hide SizeTo;
  }

  lemma Behind(a: seq<byte>, b: seq<byte>, d: seq<byte>, data: seq<byte>)
    requires a + (b + d) <= data
    ensures a + b <= data && data[|a| + |b|..|a| + |b| + |d|] == d
  {
    assert data[..|a + (b + d)|] == a + (b + d);
    assert a + (b + d) == (a + b) + d;
  }

  lemma FlatStep(parts: seq<seq<Item>>, k: nat, items: seq<Item>)
    requires k < |parts| && items == parts[k]
    ensures Flat(parts, k + 1) == Flat(parts, k) + Bytes(items, |items|)
  {
  }

  lemma NextFlat(parts: seq<seq<Item>>, data: seq<byte>, k: nat, f: seq<byte>)
    requires k < |parts| && data == Flat(parts, |parts|) && f == Flat(parts, k + 1)
    ensures f <= data
  {
    FlatMono(parts, k + 1, |parts|);
  }

  /** Part k lies at its offset. */
  lemma ReadPartAt(parts: seq<seq<Item>>, data: seq<byte>, k: nat, off: nat, items: seq<Item>)
    requires k < |parts| && SizedParts(parts) && data == Flat(parts, |parts|) && off == OffsetTo(parts, k)
               && items == parts[k]
    ensures off <= |data| && ReadFrom(Samples(items), data, off, |items|) == items
  {
    var before := Flat(parts, k);
    OffsetIsLength(parts, k);
    FlatStep(parts, k, items);
    NextFlat(parts, data, k, before + Bytes(items, |items|));
    ReadPart(items, data, before, |items|);
    assert items[..|items|] == items;
  }

  // ----- decode times -----

  /** A sample as it is read back (FullSample). */
  datatype FullSample = FullSample(item: Item, decodeTime: nat)

  /** The total of the durations of the first j items. */
  function DurTo(items: seq<Item>, j: nat): nat
    requires j <= |items|
  {
    if j == 0 then 0 else DurTo(items, j - 1) + items[j - 1].sample.dur
  }

  /** The first j items with their decode times, where the first one has time base and the durations add up. */
  function Timed(items: seq<Item>, base: nat, j: nat): (t: seq<FullSample>)
    requires j <= |items|
    ensures |t| == j
  {
    if j == 0 then [] else Timed(items, base, j - 1) + [FullSample(items[j - 1], base + DurTo(items, j - 1))]
  }

  /** Each item with its time: the first one begins at base, and each other one where the one before it ends. */
  lemma {:induction false} TimedAt(items: seq<Item>, base: nat, j: nat, k: nat)
    requires k < j <= |items|
    ensures var t := Timed(items, base, j);
            && t[k].item == items[k]
            && t[k].decodeTime == if k == 0 then base else t[k - 1].decodeTime + t[k - 1].item.sample.dur
  {
    if k < j - 1 {
      TimedAt(items, base, j - 1, k);
    } else if k > 0 {
      assert Timed(items, base, k)[k - 1] == FullSample(items[k - 1], base + DurTo(items, k - 1));
    }
  }

  lemma {:induction false} TimedPrefix(x: seq<Item>, y: seq<Item>, base: nat, j: nat)
    requires j <= |x| && x <= y
    ensures DurTo(y, j) == DurTo(x, j) && Timed(y, base, j) == Timed(x, base, j)
  {
    if j > 0 {
      TimedPrefix(x, y, base, j - 1);
    }
  }

  /** The times run on from one list to the next. */
  lemma {:induction false} TimedConcat(x: seq<Item>, y: seq<Item>, base: nat, j: nat)
    requires j <= |y|
    ensures DurTo(x + y, |x| + j) == DurTo(x, |x|) + DurTo(y, j)
    ensures Timed(x + y, base, |x| + j) == Timed(x, base, |x|) + Timed(y, base + DurTo(x, |x|), j)
  {
    if j == 0 {
      TimedPrefix(x, x + y, base, |x|);
    } else {
      TimedConcat(x, y, base, j - 1);
      assert (x + y)[|x| + j - 1] == y[j - 1];
      Assoc(Timed(x, base, |x|), Timed(y, base + DurTo(x, |x|), j - 1),
            [FullSample(y[j - 1], base + DurTo(x, |x|) + DurTo(y, j - 1))]);
    }
  }

  // ----- boxes -----

  /** A trun box (CreateTrun). */
  class Trun {
    var samples: seq<Sample>
    var dataOffset: int
    const writeOrderNr: nat

    constructor (writeOrderNr: nat)
      ensures this.writeOrderNr == writeOrderNr && samples == [] && dataOffset == 0
    {
      this.writeOrderNr, samples, dataOffset := writeOrderNr, [], 0;
    }

    method AddSample(s: Sample)
      modifies this`samples
      ensures samples == old(samples) + [s]
    {
      samples := samples + [s];
    }

    method SizeOfData() returns (totalSize: nat)
      ensures totalSize == SizeTo(samples, |samples|)
    {
      totalSize := 0;
      var j := 0;
      while j < |samples|
        invariant j <= |samples| && totalSize == SizeTo(samples, j)
      {
        totalSize := totalSize + samples[j].size;
        j := j + 1;
      }
    }
  }

  /** TrunBox.GetFullSamples, and the total duration that AddSampleDefaultValues gives. None stands for a sample that
      ends beyond the data, where the source slices out of range.
    */
  method GetFullSamples(trun: Trun, offsetInMdat: nat, baseDecodeTime: nat, data: seq<byte>)
    returns (r: Option<seq<FullSample>>, accDur: nat)
    requires offsetInMdat <= |data|
    ensures r.Some? <==> offsetInMdat + SizeTo(trun.samples, |trun.samples|) <= |data|
    ensures r.Some? ==>
              var items := ReadFrom(trun.samples, data, offsetInMdat, |trun.samples|);
              r.value == Timed(items, baseDecodeTime, |items|) && accDur == DurTo(items, |items|)
  {
    hide Timed, DurTo, ReadFrom;
    var full := [];
    accDur := 0;
    var off, j := offsetInMdat, 0;
    StartReading(trun.samples, data, off, baseDecodeTime);
    while j < |trun.samples|
      invariant j <= |trun.samples| && off == offsetInMdat + SizeTo(trun.samples, j) <= |data|
      invariant full == Timed(ReadFrom(trun.samples, data, offsetInMdat, j), baseDecodeTime, j)
      invariant accDur == DurTo(ReadFrom(trun.samples, data, offsetInMdat, j), j)
    {
      var s := trun.samples[j];
      SizeMono(trun.samples, j + 1, |trun.samples|);
      if off + s.size > |data| {
        return None, accDur;
      }
      ReadSample(trun.samples, data, offsetInMdat, j, Item(s, data[off..off + s.size]), off, baseDecodeTime);
      full := full + [FullSample(Item(s, data[off..off + s.size]), baseDecodeTime + accDur)];
      accDur := accDur + s.dur;
      off := off + s.size;
      j := j + 1;
    }
    r := Some(full);
  }

  lemma StartReading(samples: seq<Sample>, data: seq<byte>, off: nat, base: nat)
    ensures SizeTo(samples, 0) == 0 && ReadFrom(samples, data, off, 0) == [] && Timed([], base, 0) == []
              && DurTo([], 0) == 0
  {
  }

  /** One sample more. */
  lemma ReadSample(samples: seq<Sample>, data: seq<byte>, off: nat, j: nat, item: Item, at: nat, base: nat)
    requires j < |samples| && at == off + SizeTo(samples, j) && off + SizeTo(samples, j + 1) <= |data|
    requires at + samples[j].size <= |data| && item == Item(samples[j], data[at..at + samples[j].size])
    ensures SizeTo(samples, j + 1) == SizeTo(samples, j) + samples[j].size
    ensures var items, more := ReadFrom(samples, data, off, j), ReadFrom(samples, data, off, j + 1);
            && Timed(more, base, j + 1) == Timed(items, base, j) + [FullSample(item, base + DurTo(items, j))]
            && DurTo(more, j + 1) == DurTo(items, j) + samples[j].dur
  {
    var items := ReadFrom(samples, data, off, j);
    ReadOne(samples, data, off, j + 1, item, at - off);
    TimedStep(items, item, items + [item], base);
  }

  lemma TimedStep(items: seq<Item>, item: Item, more: seq<Item>, base: nat)
    requires more == items + [item]
    ensures DurTo(more, |more|) == DurTo(items, |items|) + item.sample.dur
    ensures Timed(more, base, |more|) == Timed(items, base, |items|) + [FullSample(item, base + DurTo(items, |items|))]
  {
    TimedPrefix(items, more, base, |items|);
  }

  lemma {:induction false} SizeMono(samples: seq<Sample>, j: nat, k: nat)
    requires j <= k <= |samples|
    ensures SizeTo(samples, j) <= SizeTo(samples, k)
  {
    if j < k {
      SizeMono(samples, j, k - 1);
    }
  }

  /** A traf box with the track of its tfhd and the decode time of its tfdt. */
  class Traf {
    const trackID: nat
    var truns: seq<Trun>
    var baseMediaDecodeTime: nat

    constructor (trackID: nat)
      ensures this.trackID == trackID && truns == [] && baseMediaDecodeTime == 0
    {
      this.trackID, truns, baseMediaDecodeTime := trackID, [], 0;
    }
  }

  /** The truns of track i among the first k, in write order. */
  function TrunsOf(order: seq<Trun>, owner: seq<nat>, i: nat, k: nat): seq<Trun>
    requires k <= |order| == |owner|
  {
    if k == 0 then [] else TrunsOf(order, owner, i, k - 1) + (if owner[k - 1] == i then [order[k - 1]] else [])
  }

  lemma {:induction false} TrunsOfPrefix(order: seq<Trun>, owner: seq<nat>, x: Trun, t: nat, i: nat, k: nat)
    requires k <= |order| == |owner|
    ensures TrunsOf(order + [x], owner + [t], i, k) == TrunsOf(order, owner, i, k)
  {
    if k > 0 {
      TrunsOfPrefix(order, owner, x, t, i, k - 1);
    }
  }

  /** Some trun has a write-order number other than 0. */
  ghost predicate OrderSet(truns: seq<Trun>) {
    exists a :: 0 <= a < |truns| && truns[a].writeOrderNr != 0
  }

  lemma OrderSetMore(truns: seq<Trun>, x: Trun, more: seq<Trun>)
    requires more == truns + [x]
    ensures OrderSet(more) <==> OrderSet(truns) || x.writeOrderNr != 0
  {
    if OrderSet(truns) {
      var a :| 0 <= a < |truns| && truns[a].writeOrderNr != 0;
      assert more[a].writeOrderNr != 0;
    }
    assert more[|truns|] == x;
  }

  /** With more than one trun the write order is always set, so that offsets are never left out. */
  lemma OrderIsSet(order: seq<Trun>, owner: seq<nat>, m: nat)
    requires |order| == |owner| && Numbered(order) && forall k :: 0 <= k < |owner| ==> owner[k] < m
    requires |Collected(order, owner, m)| > 1
    ensures OrderSet(Collected(order, owner, m))
  {
    var c := Collected(order, owner, m);
    CollectedOwned(order, owner, m);
    assert c[0].writeOrderNr != c[1].writeOrderNr;
  }

  /** int32(x) */
  function Int32(x: nat): int {
    var r := x % 0x1_0000_0000;
    if r < 0x8000_0000 then r else r - 0x1_0000_0000
  }

  /** Trun k has the offset of its part. */
  ghost predicate PlacedAt(order: seq<Trun>, parts: seq<seq<Item>>, start: nat, k: nat)
    requires k < |order| == |parts|
    reads order
  {
    order[k].dataOffset == Int32(start + OffsetTo(parts, k))
  }

  /** Where Fragment.GetFullSamples looks for a trun in the mdat data: dataOffset counts from the start of the moof
      box, and the data begin at payloadStart. The arithmetic is that of uint64.
    */
  function OffsetInMdat(dataOffset: int, moofStart: nat, payloadStart: nat): nat {
    var baseOffset := (dataOffset + moofStart) % WORD;
    if baseOffset > 0 then (baseOffset - payloadStart) % WORD else 0
  }

  /** The samples of the trun lie within the data, where they are looked for. */
  predicate TrunFits(x: Trun, data: seq<byte>, moofStart: nat, payloadStart: nat)
    reads x
  {
    OffsetInMdat(x.dataOffset, moofStart, payloadStart) + SizeTo(x.samples, |x.samples|) <= |data|
  }

  /** What reading the first m of these truns gives. */
  ghost function ReadTruns(truns: seq<Trun>, data: seq<byte>, moofStart: nat, payloadStart: nat, m: nat): seq<Item>
    requires m <= |truns|
    reads truns
  {
    if m == 0 then []
    else
      var t := truns[m - 1];
      ReadTruns(truns, data, moofStart, payloadStart, m - 1)
        + ReadFrom(t.samples, data, OffsetInMdat(t.dataOffset, moofStart, payloadStart), |t.samples|)
  }

  lemma {:induction false} ReadTrunsPrefix(truns: seq<Trun>, x: Trun, data: seq<byte>, moofStart: nat,
                                           payloadStart: nat, m: nat)
    requires m <= |truns|
    ensures ReadTruns(truns + [x], data, moofStart, payloadStart, m)
         == ReadTruns(truns, data, moofStart, payloadStart, m)
  {
    hide ReadFrom, OffsetInMdat;
    if m > 0 {
      ReadTrunsPrefix(truns, x, data, moofStart, payloadStart, m - 1);
    }
  }

  lemma ReadNextTrun(r: seq<Trun>, x: Trun, s: seq<Trun>, data: seq<byte>, moofStart: nat, payloadStart: nat, n: nat,
                     a: seq<Item>, b: seq<Item>)
    requires n == |r| && ReadTruns(r, data, moofStart, payloadStart, n) == a && s == r + [x]
    requires ReadFrom(x.samples, data, OffsetInMdat(x.dataOffset, moofStart, payloadStart), |x.samples|) == b
    ensures ReadTruns(s, data, moofStart, payloadStart, n + 1) == a + b
  {
    hide ReadFrom, OffsetInMdat;
    ReadTrunsPrefix(r, x, data, moofStart, payloadStart, n);
    assert ReadTruns(s, data, moofStart, payloadStart, n) == a && s[n] == x;
  }

  lemma NoTruns(data: seq<byte>, moofStart: nat, payloadStart: nat)
    ensures ReadTruns([], data, moofStart, payloadStart, 0) == []
  {
  }

  /** Trun k is looked for where its part is. */
  ghost predicate LooksRight(order: seq<Trun>, parts: seq<seq<Item>>, moofStart: nat, payloadStart: nat, k: nat)
    requires k < |order| == |parts|
    reads order
  {
    OffsetInMdat(order[k].dataOffset, moofStart, payloadStart) == OffsetTo(parts, k)
  }

  /** With the right offsets, reading the truns of a track gives its items in order. */
  lemma {:induction false} ReadTrack(order: seq<Trun>, owner: seq<nat>, parts: seq<seq<Item>>, data: seq<byte>,
                                     moofStart: nat, payloadStart: nat, i: nat, k: nat)
    requires k <= |order| == |owner| == |parts| && SizedParts(parts) && data == Flat(parts, |parts|)
    requires forall j :: 0 <= j < |order| ==> TrunAt(order, parts, j)
    requires forall j :: 0 <= j < |order| ==> LooksRight(order, parts, moofStart, payloadStart, j)
    ensures var r := TrunsOf(order, owner, i, k);
            ReadTruns(r, data, moofStart, payloadStart, |r|) == TrackItems(parts, owner, i, k)
  {
    hide ReadFrom, Flat, Samples, SizedParts, OffsetTo, ReadTruns, OffsetInMdat;
    NoTruns(data, moofStart, payloadStart);
    if k > 0 {
      ReadTrack(order, owner, parts, data, moofStart, payloadStart, i, k - 1);
      var r, items, x := TrunsOf(order, owner, i, k - 1), TrackItems(parts, owner, i, k - 1), order[k - 1];
      if owner[k - 1] == i {
        assert TrunAt(order, parts, k - 1) && LooksRight(order, parts, moofStart, payloadStart, k - 1);
        ReadPartAt(parts, data, k - 1, OffsetTo(parts, k - 1), parts[k - 1]);
        ReadNextTrun(r, x, r + [x], data, moofStart, payloadStart, |r|, items, parts[k - 1]);
      } else {
        assert items + [] == items && r + [] == r;
      }
    }
  }

  /** A 32-bit number that denotes x modulo 2^32. */
  lemma Int32Exact(x: nat)
    ensures -0x8000_0000 <= Int32(x) < 0x8000_0000 && (x - Int32(x)) % 0x1_0000_0000 == 0
  {
  }

  lemma SmallInt32(x: nat)
    requires x < 0x8000_0000
    ensures Int32(x) == x
  {
  }

  class Mdat {
    var data: seq<byte>
    var lazyDataSize: nat
    /** The position of the box in the file it was decoded from. */
    var startPos: nat

    /** 8, or 16 where the payload does not fit a 32-bit box size. */
    function HeaderSize(): nat
      reads this
    {
      var payloadSize := if lazyDataSize > 0 then lazyDataSize else |data|;
      if payloadSize > 0xffff_ffff - 8 then 16 else 8
    }

    function PayloadAbsoluteOffset(): nat
      reads this
    {
      startPos + HeaderSize()
    }

    constructor ()
      ensures data == [] && lazyDataSize == 0 && startPos == 0
    {
      data, lazyDataSize, startPos := [], 0, 0;
    }
  }

  const MDAT: seq<byte> := [0x6d, 0x64, 0x61, 0x74]

  /** HeaderSize is the length of the header that the box needs: with it the box can be written, and with the other one
      it cannot, or need not.
    */
  lemma HeaderSizeExact(m: Mdat)
    requires m.lazyDataSize == 0 && |m.data| < WORD - 16
    ensures var small, large := BoxSeekReader.Box(MDAT, m.data, false), BoxSeekReader.Box(MDAT, m.data, true);
            && large.Valid() && BoxSeekReader.IsMdat(MDAT) && (m.HeaderSize() == 8 <==> small.Valid())
            && m.HeaderSize() == if small.Valid() then |small.Header()| else |large.Header()|
  {
  }

  // ----- the fragment -----

  /** Trun k holds the samples of part k. */
  ghost predicate TrunAt(order: seq<Trun>, parts: seq<seq<Item>>, k: nat)
    requires k < |order| == |parts|
    reads order
  {
    order[k].samples == Samples(parts[k]) && order[k].writeOrderNr == k
  }

  /** The last trun of track i is the latest of all just when track i owns the latest. */
  lemma {:induction false} LastOf(order: seq<Trun>, owner: seq<nat>, parts: seq<seq<Item>>, i: nat, k: nat)
    requires k <= |order| == |owner| == |parts|
    requires forall j :: 0 <= j < |order| ==> TrunAt(order, parts, j)
    ensures var r := TrunsOf(order, owner, i, k);
            && (forall m :: 0 <= m < |r| ==> r[m] in order && r[m].writeOrderNr < k)
            && (k > 0 && owner[k - 1] == i ==> r != [] && r[|r| - 1] == order[k - 1])
            && (r != [] && r[|r| - 1].writeOrderNr + 1 == k ==> owner[k - 1] == i)
  {
    if k > 0 {
      assert TrunAt(order, parts, k - 1);
      LastOf(order, owner, parts, i, k - 1);
    }
  }

  /** The truns of the first m tracks, track by track. */
  function Collected(order: seq<Trun>, owner: seq<nat>, m: nat): seq<Trun>
    requires |order| == |owner|
  {
    if m == 0 then [] else Collected(order, owner, m - 1) + TrunsOf(order, owner, m - 1, |order|)
  }

  /** Trun x is in its place in the order and belongs to a track from lo up to hi. */
  ghost predicate OwnedBy(order: seq<Trun>, owner: seq<nat>, x: Trun, lo: nat, hi: nat) {
    && x.writeOrderNr < |order| == |owner| && order[x.writeOrderNr] == x && lo <= owner[x.writeOrderNr] < hi
  }

  ghost predicate Numbered(order: seq<Trun>) {
    forall k :: 0 <= k < |order| ==> order[k].writeOrderNr == k
  }

  ghost predicate Distinct(truns: seq<Trun>) {
    forall a, b :: 0 <= a < b < |truns| ==> truns[a].writeOrderNr != truns[b].writeOrderNr
  }

  lemma {:induction false} OfOwned(order: seq<Trun>, owner: seq<nat>, i: nat, k: nat)
    requires k <= |order| == |owner| && Numbered(order)
    ensures var r := TrunsOf(order, owner, i, k);
            && (forall m :: 0 <= m < |r| ==> OwnedBy(order, owner, r[m], i, i + 1) && r[m].writeOrderNr < k)
            && Distinct(r)
    ensures forall j :: 0 <= j < k && owner[j] == i ==> order[j] in TrunsOf(order, owner, i, k)
  {
    if k > 0 {
      OfOwned(order, owner, i, k - 1);
    }
  }

  /** Collecting finds every trun once. */
  lemma {:induction false} CollectedOwned(order: seq<Trun>, owner: seq<nat>, m: nat)
    requires |order| == |owner| && Numbered(order)
    ensures var c := Collected(order, owner, m);
            && (forall a :: 0 <= a < |c| ==> OwnedBy(order, owner, c[a], 0, m))
            && Distinct(c)
    ensures forall j :: 0 <= j < |order| && owner[j] < m ==> order[j] in Collected(order, owner, m)
  {
    if m > 0 {
      CollectedOwned(order, owner, m - 1);
      OfOwned(order, owner, m - 1, |order|);
      var c, r := Collected(order, owner, m - 1), TrunsOf(order, owner, m - 1, |order|);
      JoinDistinct(order, owner, c, r, m - 1);
      forall j | 0 <= j < |order| && owner[j] < m ensures order[j] in c + r {
        if owner[j] == m - 1 {
          assert order[j] in r;
        } else {
          assert order[j] in c;
        }
      }
    }
  }

  lemma JoinDistinct(order: seq<Trun>, owner: seq<nat>, c: seq<Trun>, r: seq<Trun>, m: nat)
    requires Distinct(c) && Distinct(r)
    requires forall a :: 0 <= a < |c| ==> OwnedBy(order, owner, c[a], 0, m)
    requires forall a :: 0 <= a < |r| ==> OwnedBy(order, owner, r[a], m, m + 1)
    ensures Distinct(c + r) && forall a :: 0 <= a < |c + r| ==> OwnedBy(order, owner, (c + r)[a], 0, m + 1)
  {
    var s := c + r;
    forall a, b | 0 <= a < b < |s| ensures s[a].writeOrderNr != s[b].writeOrderNr {
      if a < |c| <= b {
        assert OwnedBy(order, owner, c[a], 0, m) && OwnedBy(order, owner, r[b - |c|], m, m + 1);
      }
    }
  }

  // ----- sorting -----

  ghost predicate Ascending(truns: seq<Trun>) {
    forall a, b :: 0 <= a < b < |truns| ==> truns[a].writeOrderNr < truns[b].writeOrderNr
  }

  ghost predicate SameTruns(r: seq<Trun>, truns: seq<Trun>) {
    (forall a :: 0 <= a < |r| ==> r[a] in truns) && (forall b :: 0 <= b < |truns| ==> truns[b] in r)
  }

  /** sort.Slice by write order, for truns with different numbers. */
  method SortByWriteOrder(truns: seq<Trun>) returns (r: seq<Trun>)
    requires Distinct(truns)
    ensures Ascending(r) && SameTruns(r, truns)
  {
    r := [];
    var j := 0;
    while j < |truns|
      invariant j <= |truns| && Ascending(r) && SameTruns(r, truns[..j])
    {
      var at := 0;
      while at < |r| && r[at].writeOrderNr < truns[j].writeOrderNr
        invariant at <= |r| && forall a :: 0 <= a < at ==> r[a].writeOrderNr < truns[j].writeOrderNr
      {
        at := at + 1;
      }
      Inserted(r, truns, j, at);
      r := r[..at] + [truns[j]] + r[at..];
      j := j + 1;
    }
    assert truns[..j] == truns;
  }

  lemma Inserted(r: seq<Trun>, truns: seq<Trun>, j: nat, at: nat)
    requires j < |truns| && Distinct(truns) && Ascending(r) && SameTruns(r, truns[..j]) && at <= |r|
    requires forall a :: 0 <= a < at ==> r[a].writeOrderNr < truns[j].writeOrderNr
    requires at < |r| ==> r[at].writeOrderNr >= truns[j].writeOrderNr
    ensures Ascending(r[..at] + [truns[j]] + r[at..])
    ensures SameTruns(r[..at] + [truns[j]] + r[at..], truns[..j + 1])
  {
    if at < |r| {
      assert r[at] in truns[..j];
    }
    InsertedSame(r, truns[..j], truns[j], at, r[..at] + [truns[j]] + r[at..]);
    assert truns[..j + 1] == truns[..j] + [truns[j]];
  }

  lemma InsertedSame(r: seq<Trun>, t: seq<Trun>, x: Trun, at: nat, s: seq<Trun>)
    requires SameTruns(r, t) && at <= |r| && s == r[..at] + [x] + r[at..]
    ensures SameTruns(s, t + [x])
  {
    forall b | 0 <= b < |t| ensures t[b] in s {
      var m :| 0 <= m < |r| && r[m] == t[b];
      assert s[if m < at then m else m + 1] == t[b];
    }
    assert s[at] == x;
  }

  lemma {:induction false} AscendingAtLeast(r: seq<Trun>, k: nat)
    requires Ascending(r) && k < |r|
    ensures r[k].writeOrderNr >= k
  {
    if k > 0 {
      AscendingAtLeast(r, k - 1);
    }
  }

  /** Sorting the truns of all tracks gives the write order. */
  lemma {:induction false} SortedIsOrder(r: seq<Trun>, order: seq<Trun>, k: nat)
    requires Ascending(r) && SameTruns(r, order) && Numbered(order) && k <= |order|
    ensures k <= |r| && r[..k] == order[..k]
  {
    if k > 0 {
      SortedIsOrder(r, order, k - 1);
      var x := order[k - 1];
      assert x in r;
      assert forall a :: 0 <= a < k - 1 ==> r[a] == order[a];
      var m :| 0 <= m < |r| && r[m] == x;
      assert r[k - 1] in order && r[k - 1].writeOrderNr >= k - 1;
      assert r[k - 1] == x;
    }
  }

  /** Traf i holds the truns that it owns. */
  ghost predicate TrafAt(trafs: seq<Traf>, order: seq<Trun>, owner: seq<nat>, i: nat)
    requires i < |trafs| && |order| == |owner|
    reads trafs
  {
    trafs[i].truns == TrunsOf(order, owner, i, |order|)
  }

  // ----- when a trun is opened -----

  ghost predicate Continues(owner: seq<nat>, t: nat) {
    owner != [] && owner[|owner| - 1] == t
  }

  /** A sample for track t goes to the latest trun if that is one of the track, and else to a new one. */
  function OwnersThen(owner: seq<nat>, t: nat): seq<nat> {
    if owner != [] && owner[|owner| - 1] == t then owner else owner + [t]
  }

  function PartsThen(owner: seq<nat>, parts: seq<seq<Item>>, t: nat, item: Item): seq<seq<Item>> {
    if owner != [] && owner[|owner| - 1] == t && parts != [] then Grown(parts, item) else parts + [[item]]
  }

  /** No trun is empty, and consecutive truns belong to different tracks. */
  ghost predicate Tight(owner: seq<nat>, parts: seq<seq<Item>>) {
    && |owner| == |parts|
    && (forall k :: 0 <= k < |parts| ==> parts[k] != [])
    && (forall k :: 0 <= k && k + 1 < |owner| ==> owner[k] != owner[k + 1])
  }

  lemma GrownNew(parts: seq<seq<Item>>, item: Item)
    ensures Grown(parts + [[]], item) == parts + [[item]]
  {
    assert [] + [item] == [item];
  }

  /** So there are as few truns as the order of the samples allows. */
  lemma StillTight(owner: seq<nat>, parts: seq<seq<Item>>, t: nat, item: Item)
    requires Tight(owner, parts)
    ensures Tight(OwnersThen(owner, t), PartsThen(owner, parts, t, item))
  {
    var p := PartsThen(owner, parts, t, item);
    forall k | 0 <= k < |p| ensures p[k] != [] {
      if k < |parts| - 1 {
        assert p[k] == parts[k];
      }
    }
  }

  /** Under this condition a track has no trun just when it has no item. */
  lemma {:induction false} TrunsHold(order: seq<Trun>, owner: seq<nat>, parts: seq<seq<Item>>, i: nat, k: nat)
    requires k <= |order| == |owner| == |parts|
    requires forall j :: 0 <= j < |order| ==> TrunAt(order, parts, j)
    requires forall j :: 0 <= j < |parts| ==> parts[j] != []
    ensures TrunsOf(order, owner, i, k) == [] <==> TrackItems(parts, owner, i, k) == []
    ensures forall m :: 0 <= m < |TrunsOf(order, owner, i, k)| ==> TrunsOf(order, owner, i, k)[m].samples != []
  {
    if k > 0 {
      assert TrunAt(order, parts, k - 1);
      TrunsHold(order, owner, parts, i, k - 1);
      assert |Samples(parts[k - 1])| == |parts[k - 1]|;
    }
  }

  class Fragment {
    const trafs: seq<Traf>
    const mdat: Mdat
    /** The position of the moof box in the file it was decoded from. */
    var moofStart: nat
    var nextTrunNr: nat
    /** All truns in write order, the index of the traf that owns each, and the items that were added to it. */
    ghost var order: seq<Trun>
    ghost var owner: seq<nat>
    ghost var parts: seq<seq<Item>>

    ghost predicate Valid()
      reads this, trafs, order
    {
      && |order| == |owner| == |parts| == nextTrunNr
      && (forall k :: 0 <= k < |order| ==> TrunAt(order, parts, k))
      && (forall k :: 0 <= k < |owner| ==> owner[k] < |trafs|)
      && (forall i :: 0 <= i < |trafs| ==> TrafAt(trafs, order, owner, i))
      && (forall i, j :: 0 <= i < j < |trafs| ==> trafs[i] != trafs[j])
    }

    /** The mdat box holds the data of all items in the order in which they were added. */
    ghost predicate Filled()
      reads this, mdat
    {
      mdat.data == Flat(parts, |parts|) && mdat.lazyDataSize == 0
    }

    ghost predicate AllSized()
      reads this
    {
      SizedParts(parts)
    }

    /** The items of track i in the order in which they were added. */
    ghost function Track(i: nat): seq<Item>
      requires |parts| == |owner|
      reads this
    {
      TrackItems(parts, owner, i, |parts|)
    }

    /** CreateMultiTrackFragment: a traf for each track, and no trun yet. */
    constructor (trackIDs: seq<nat>)
      ensures Valid() && Filled() && AllSized() && fresh(mdat) && fresh(trafs) && order == []
      ensures |trafs| == |trackIDs| && forall i :: 0 <= i < |trafs| ==> trafs[i].trackID == trackIDs[i]
      ensures forall i :: 0 <= i < |trafs| ==> Track(i) == [] && trafs[i].baseMediaDecodeTime == 0
      ensures Tight(owner, parts) && moofStart == 0 && mdat.startPos == 0
    {
      var list: seq<Traf> := [];
      var i := 0;
      while i < |trackIDs|
        invariant i <= |trackIDs| && |list| == i && fresh(list)
        invariant forall j :: 0 <= j < i ==>
                    list[j].trackID == trackIDs[j] && list[j].truns == [] && list[j].baseMediaDecodeTime == 0
        invariant forall j, k :: 0 <= j < k < i ==> list[j] != list[k]
      {
        var traf := new Traf(trackIDs[i]);
        list := list + [traf];
        i := i + 1;
      }
      trafs := list;
      mdat := new Mdat();
      moofStart, nextTrunNr := 0, 0;
      order, owner, parts := [], [], [];
    }

    /** The first traf with the track, or the last one where there is none. */
    ghost predicate Found(trackID: nat, t: nat) {
      && t < |trafs|
      && (forall j :: 0 <= j < t ==> trafs[j].trackID != trackID)
      && (trafs[t].trackID == trackID || t == |trafs| - 1)
    }

    ghost predicate HasTrack(trackID: nat) {
      exists i :: 0 <= i < |trafs| && trafs[i].trackID == trackID
    }

    /** The traf that is found is one of the track if and only if there is one. */
    lemma FoundExact(trackID: nat, t: nat)
      requires Found(trackID, t)
      ensures trafs[t].trackID == trackID <==> HasTrack(trackID)
    {
    }

    /** The lookup loop of AddSampleToTrack. */
    method FindTraf(trackID: nat) returns (t: nat)
      requires trafs != []
      ensures Found(trackID, t)
    {
      t := 0;
      while t < |trafs|
        invariant t <= |trafs| && forall j :: 0 <= j < t ==> trafs[j].trackID != trackID
      {
        if trafs[t].trackID == trackID {
          return;
        }
        t := t + 1;
      }
      t := t - 1;
    }

    /** CreateTrun and traf.AddChild: a new latest trun for traf t. */
    method OpenTrun(t: nat)
      requires Valid() && t < |trafs|
      modifies this`nextTrunNr, this`order, this`owner, this`parts, trafs[t]
      ensures Valid() && |order| == old(|order|) + 1 && fresh(order[|order| - 1])
      ensures order[..|order| - 1] == old(order) && owner == old(owner) + [t] && parts == old(parts) + [[]]
      ensures trafs[t].truns == old(trafs[t].truns) + [order[|order| - 1]] && order[|order| - 1].samples == []
      ensures trafs[t].baseMediaDecodeTime == old(trafs[t].baseMediaDecodeTime)
      ensures Flat(parts, |parts|) == old(Flat(parts, |parts|)) && (AllSized() <==> old(AllSized()))
      ensures forall i: nat :: Track(i) == old(Track(i))
    {
      hide Flat, TrackItems, SizedParts;
      ghost var order0, owner0, parts0 := order, owner, parts;
      var trun := new Trun(nextTrunNr);
      nextTrunNr := nextTrunNr + 1;
      trafs[t].truns := trafs[t].truns + [trun];
      order, owner, parts := order + [trun], owner + [t], parts + [[]];
      forall i: nat ensures TrackItems(parts, owner, i, |parts|) == TrackItems(parts0, owner0, i, |parts0|) {
        Opened(parts0, owner0, t, i);
      }
      Opened(parts0, owner0, t, 0);
      OpenedSized(parts0);
      forall k | 0 <= k < |order| ensures TrunAt(order, parts, k) {
        if k < |order0| {
          assert TrunAt(order0, parts0, k);
        }
      }
      forall i | 0 <= i < |trafs| ensures TrafAt(trafs, order, owner, i) {
        assert old(TrafAt(trafs, order, owner, i));
        TrunsOfPrefix(order0, owner0, trun, t, i, |order0|);
      }
    }

    /** trun.AddSample for the latest trun of all. */
    method AddToLatest(trun: Trun, s: Sample, ghost data: seq<byte>)
      requires Valid() && order != [] && trun == order[|order| - 1]
      modifies this`parts, trun
      ensures Valid() && old(parts) != [] && parts == Grown(old(parts), Item(s, data))
      ensures Flat(parts, |parts|) == old(Flat(parts, |parts|)) + data
      ensures forall i: nat :: Track(i) == old(Track(i)) + (if i == owner[|owner| - 1] then [Item(s, data)] else [])
      ensures old(AllSized()) && s.size == |data| ==> AllSized()
    {
      ghost var n, parts0 := |order|, parts;
      ghost var item := Item(s, data);
      trun.AddSample(s);
      parts := Grown(parts, item);
      GrownBytes(parts0, item, parts);
      forall i: nat ensures Track(i) == TrackItems(parts0, owner, i, n) + (if i == owner[n - 1] then [item] else []) {
        GrownTracks(parts0, owner, item, i);
      }
      if SizedParts(parts0) && s.size == |data| {
        GrownSized(parts0, item);
      }
      forall k | 0 <= k < |order| ensures TrunAt(order, parts, k) {
        assert old(TrunAt(order, parts, k));
        if k < n - 1 {
          assert order[k] != trun by {
            assert old(TrunAt(order, parts, n - 1));
          }
        } else {
          assert Samples(parts0[k] + [item]) == Samples(parts0[k]) + [s];
        }
      }
      forall i | 0 <= i < |trafs| ensures TrafAt(trafs, order, owner, i) {
        assert old(TrafAt(trafs, order, owner, i));
      }
    }

    /** tfdt.SetBaseMediaDecodeTime */
    method SetBaseMediaDecodeTime(t: nat, time: nat)
      requires Valid() && t < |trafs|
      modifies trafs[t]
      ensures Valid() && trafs[t].truns == old(trafs[t].truns) && trafs[t].baseMediaDecodeTime == time
    {
      trafs[t].baseMediaDecodeTime := time;
      forall i | 0 <= i < |trafs| ensures TrafAt(trafs, order, owner, i) {
        assert old(TrafAt(trafs, order, owner, i));
      }
      forall k | 0 <= k < |order| ensures TrunAt(order, parts, k) {
        assert old(TrunAt(order, parts, k));
      }
    }

    /** A first trun for traf t if it has none, and the decode time as long as the first one is empty. */
    method FirstTrun(t: nat, baseMediaDecodeTime: nat)
      requires Valid() && t < |trafs|
      modifies this`nextTrunNr, this`order, this`owner, this`parts, trafs[t]
      ensures Valid() && trafs[t].truns != []
      ensures if old(trafs[t].truns) == [] then owner == old(owner) + [t] && parts == old(parts) + [[]]
              else owner == old(owner) && parts == old(parts)
      ensures trafs[t].baseMediaDecodeTime ==
                if old(trafs[t].truns == [] || (|trafs[t].truns| == 1 && trafs[t].truns[0].samples == []))
                then baseMediaDecodeTime else old(trafs[t].baseMediaDecodeTime)
      ensures Flat(parts, |parts|) == old(Flat(parts, |parts|)) && (AllSized() <==> old(AllSized()))
      ensures forall i: nat :: Track(i) == old(Track(i))
      ensures old(|order|) <= |order| && order[..old(|order|)] == old(order)
      ensures forall k :: old(|order|) <= k < |order| ==> fresh(order[k])
    {
      var traf := trafs[t];
      if |traf.truns| == 0 {
        OpenTrun(t);
      }
      if |traf.truns| == 1 && |traf.truns[0].samples| == 0 {
        SetBaseMediaDecodeTime(t, baseMediaDecodeTime);
      }
    }

    /** The trun that a sample for traf t goes to: the latest of the traf if it is the latest of all, else a new one. */
    method LatestTrun(t: nat) returns (trun: Trun)
      requires Valid() && t < |trafs| && trafs[t].truns != []
      modifies this`nextTrunNr, this`order, this`owner, this`parts, trafs[t]
      ensures Valid() && order != [] && trun == order[|order| - 1] && owner[|owner| - 1] == t
      ensures if old(Continues(owner, t)) then owner == old(owner) && parts == old(parts)
              else owner == old(owner) + [t] && parts == old(parts) + [[]]
      ensures trafs[t].baseMediaDecodeTime == old(trafs[t].baseMediaDecodeTime)
      ensures Flat(parts, |parts|) == old(Flat(parts, |parts|)) && (AllSized() <==> old(AllSized()))
      ensures forall i: nat :: Track(i) == old(Track(i))
      ensures old(|order|) <= |order| && order[..old(|order|)] == old(order)
      ensures forall k :: old(|order|) <= k < |order| ==> fresh(order[k])
    {
      hide Flat, Samples, TrackItems, SizedParts;
      var traf := trafs[t];
      assert TrafAt(trafs, order, owner, t);
      LastOf(order, owner, parts, t, |order|);
      trun := traf.truns[|traf.truns| - 1];
      if Continues(owner, t) {
        assert owner[|order| - 1] == t && TrunAt(order, parts, |order| - 1);
      }
      if trun.writeOrderNr != nextTrunNr - 1 {
        OpenTrun(t);
        trun := traf.truns[|traf.truns| - 1];
      }
    }

    /** The trun for the next sample of traf t. */
    method TrunFor(t: nat, baseMediaDecodeTime: nat) returns (trun: Trun)
      requires Valid() && t < |trafs|
      modifies this`nextTrunNr, this`order, this`owner, this`parts, trafs[t]
      ensures Valid() && order != [] && trun == order[|order| - 1] && owner[|owner| - 1] == t
      ensures if old(Continues(owner, t)) then owner == old(owner) && parts == old(parts)
              else owner == old(owner) + [t] && parts == old(parts) + [[]]
      ensures old(Tight(owner, parts)) ==>
                trafs[t].baseMediaDecodeTime ==
                if old(Track(t)) == [] then baseMediaDecodeTime else old(trafs[t].baseMediaDecodeTime)
      ensures Flat(parts, |parts|) == old(Flat(parts, |parts|)) && (AllSized() <==> old(AllSized()))
      ensures forall i: nat :: Track(i) == old(Track(i))
      ensures old(|order|) <= |order| && order[..old(|order|)] == old(order)
      ensures forall k :: old(|order|) <= k < |order| ==> fresh(order[k])
    {
      hide Flat, Samples, TrackItems, TrunsOf, SizedParts;
      assert TrafAt(trafs, order, owner, t);
      if Tight(owner, parts) {
        TrunsHold(order, owner, parts, t, |order|);
      }
      LastOf(order, owner, parts, t, |order|);
      assert Continues(owner, t) ==> owner[|order| - 1] == t && trafs[t].truns != [];
      FirstTrun(t, baseMediaDecodeTime);
      trun := LatestTrun(t);
    }

    /** AddSampleToTrack; t is the traf that the sample goes to. */
    method AddSampleToTrack(s: Sample, trackID: nat, baseMediaDecodeTime: nat, ghost data: seq<byte>)
      returns (ok: bool, ghost t: nat)
      requires Valid()
      modifies this`nextTrunNr, this`order, this`owner, this`parts, trafs, order, mdat`lazyDataSize
      ensures Valid() && ok == (trafs != [])
      ensures ok ==> t < |trafs| && (trafs[t].trackID == trackID <==> HasTrack(trackID))
      ensures ok ==> Found(trackID, t) && Flat(parts, |parts|) == old(Flat(parts, |parts|)) + data
      ensures ok ==> forall i: nat :: Track(i) == old(Track(i)) + (if i == t then [Item(s, data)] else [])
      ensures ok && old(AllSized()) && s.size == |data| ==> AllSized()
      ensures ok ==> mdat.lazyDataSize == old(mdat.lazyDataSize) + s.size
      ensures ok ==> owner == OwnersThen(old(owner), t) && parts == PartsThen(old(owner), old(parts), t, Item(s, data))
      ensures ok && old(Tight(owner, parts)) ==>
                forall i :: 0 <= i < |trafs| ==>
                  trafs[i].baseMediaDecodeTime ==
                  if i == t && old(Track(t)) == [] then baseMediaDecodeTime else old(trafs[i].baseMediaDecodeTime)
      ensures !ok ==> unchanged(this) && unchanged(mdat)
      ensures old(|order|) <= |order| && order[..old(|order|)] == old(order)
      ensures forall k :: old(|order|) <= k < |order| ==> fresh(order[k])
    {
      hide Flat, TrackItems, TrunsOf, Samples, SizedParts, Found, TrunAt;
      t := 0;
      if |trafs| == 0 {
        return false, 0;
      }
      var traf := FindTraf(trackID);
      t := traf;
      FoundExact(trackID, t);
      GrownNew(parts, Item(s, data));
      var trun := TrunFor(traf, baseMediaDecodeTime);
      AddToLatest(trun, s, data);
      mdat.lazyDataSize := mdat.lazyDataSize + s.size;
      ok := true;
    }

    /** AddFullSampleToTrack: the sample becomes the last of its track, and its data the last of the mdat box. */
    method AddFullSampleToTrack(s: Sample, data: seq<byte>, trackID: nat, decodeTime: nat)
      returns (ok: bool, ghost t: nat)
      requires Valid() && Filled()
      modifies this`nextTrunNr, this`order, this`owner, this`parts, trafs, order, mdat`data, mdat`lazyDataSize
      ensures Valid() && Filled() && ok == (trafs != [])
      ensures ok ==> t < |trafs| && (trafs[t].trackID == trackID <==> HasTrack(trackID))
      ensures ok ==> Found(trackID, t) && mdat.data == old(mdat.data) + data && Continues(owner, t)
      ensures ok && old(Tight(owner, parts)) ==>
                Tight(owner, parts)
                && forall i :: 0 <= i < |trafs| ==>
                     trafs[i].baseMediaDecodeTime ==
                     if i == t && old(Track(t)) == [] then decodeTime else old(trafs[i].baseMediaDecodeTime)
      ensures ok ==> forall i: nat :: Track(i) == old(Track(i)) + (if i == t then [Item(s, data)] else [])
      ensures ok && old(AllSized()) && s.size == |data| ==> AllSized()
      ensures old(|order|) <= |order| && order[..old(|order|)] == old(order)
      ensures forall k :: old(|order|) <= k < |order| ==> fresh(order[k])
    {
      ghost var owner0, parts0 := owner, parts;
      ok, t := AddSampleToTrack(s, trackID, decodeTime, data);
      if !ok {
        return;
      }
      if Tight(owner0, parts0) {
        StillTight(owner0, parts0, t, Item(s, data));
      }
      mdat.lazyDataSize := 0;
      mdat.data := mdat.data + data;
    }

    /** The first loop of SetTrunDataOffsets. */
    method CountTruns() returns (nrTruns: nat, writeOrderSet: bool)
      requires Valid()
      ensures nrTruns == |Collected(order, owner, |trafs|)|
      ensures writeOrderSet == OrderSet(Collected(order, owner, |trafs|))
    {
      nrTruns, writeOrderSet := 0, false;
      var i := 0;
      while i < |trafs|
        invariant i <= |trafs| && nrTruns == |Collected(order, owner, i)|
        invariant writeOrderSet == OrderSet(Collected(order, owner, i))
      {
        var truns := trafs[i].truns;
        ghost var c := Collected(order, owner, i);
        assert TrafAt(trafs, order, owner, i);
        var j := 0;
        assert c + truns[..0] == c;
        while j < |truns|
          invariant j <= |truns| && nrTruns == |c| + j && writeOrderSet == OrderSet(c + truns[..j])
        {
          OrderSetMore(c + truns[..j], truns[j], c + truns[..j + 1]);
          nrTruns := nrTruns + 1;
          if truns[j].writeOrderNr != 0 {
            writeOrderSet := true;
          }
          j := j + 1;
        }
        assert truns[..j] == truns;
        i := i + 1;
      }
    }

    method CollectTruns() returns (truns: seq<Trun>)
      requires Valid()
      ensures truns == Collected(order, owner, |trafs|)
    {
      truns := [];
      var i := 0;
      while i < |trafs|
        invariant i <= |trafs| && truns == Collected(order, owner, i)
      {
        assert TrafAt(trafs, order, owner, i);
        truns := truns + trafs[i].truns;
        i := i + 1;
      }
    }

    lemma InOrder()
      requires Valid()
      ensures Numbered(order)
    {
      forall k | 0 <= k < |order| ensures order[k].writeOrderNr == k {
        assert TrunAt(order, parts, k);
      }
    }

    lemma AllSorted(r: seq<Trun>, c: seq<Trun>)
      requires Valid() && Numbered(order) && c == Collected(order, owner, |trafs|) && Ascending(r) && SameTruns(r, c)
      ensures r == order
    {
      CollectedOwned(order, owner, |trafs|);
      forall a | 0 <= a < |r| ensures r[a] in order {
        assert r[a] in c;
        var m :| 0 <= m < |c| && c[m] == r[a];
        assert OwnedBy(order, owner, c[m], 0, |trafs|);
      }
      forall b | 0 <= b < |order| ensures order[b] in r {
        assert order[b] in c;
      }
      SortedIsOrder(r, order, |order|);
      if r != [] {
        AscendingAtLeast(r, |r| - 1);
        assert r[|r| - 1] in order;
      }
      assert r[..|order|] == order[..|order|] == order;
    }

    /** All truns, sorted; the early return of SetTrunDataOffsets is never taken here. */
    method SortedTruns() returns (truns: seq<Trun>)
      requires Valid() && Numbered(order)
      ensures truns == order
    {
      var nrTruns, writeOrderSet := CountTruns();
      if !writeOrderSet && nrTruns > 1 {
        OrderIsSet(order, owner, |trafs|);
        assert false;
      }
      truns := CollectTruns();
      ghost var c := truns;
      CollectedOwned(order, owner, |trafs|);
      truns := SortByWriteOrder(truns);
      AllSorted(truns, c);
    }

    /** Every trun in write order gets the offset at which its data begins, behind the moof box and the mdat header. */
    method SetTrunDataOffsets(moofSize: nat) returns (ghost start: nat)
      requires Valid()
      modifies order
      ensures Valid() && start == moofSize + mdat.HeaderSize()
      ensures forall k :: 0 <= k < |order| ==> PlacedAt(order, parts, start, k)
    {
      InOrder();
      var truns := SortedTruns();
      var dataOffset := moofSize + mdat.HeaderSize();
      start := dataOffset;
      var k := 0;
      while k < |truns|
        invariant k <= |truns| && Valid() && dataOffset == start + OffsetTo(parts, k)
        invariant forall j :: 0 <= j < k ==> PlacedAt(order, parts, start, j)
      {
        dataOffset := AssignOffset(truns[k], k, dataOffset, start);
        k := k + 1;
      }
    }

    /** One round of the loop over the sorted truns. */
    method AssignOffset(trun: Trun, k: nat, dataOffset: nat, ghost start: nat) returns (next: nat)
      requires Valid() && Numbered(order) && k < |order| && trun == order[k] && dataOffset == start + OffsetTo(parts, k)
      requires forall j :: 0 <= j < k ==> PlacedAt(order, parts, start, j)
      modifies trun
      ensures Valid() && next == start + OffsetTo(parts, k + 1)
      ensures forall j :: 0 <= j < k + 1 ==> PlacedAt(order, parts, start, j)
    {
      SetOffset(trun, k, dataOffset, start);
      assert TrunAt(order, parts, k);
      var size := trun.SizeOfData();
      next := dataOffset + size;
    }

    method SetOffset(trun: Trun, k: nat, dataOffset: nat, ghost start: nat)
      requires Valid() && Numbered(order) && k < |order| && trun == order[k] && dataOffset == start + OffsetTo(parts, k)
      requires forall j :: 0 <= j < k ==> PlacedAt(order, parts, start, j)
      modifies trun`dataOffset
      ensures Valid() && forall j :: 0 <= j < k + 1 ==> PlacedAt(order, parts, start, j)
    {
      trun.dataOffset := Int32(dataOffset);
      forall j | 0 <= j < k + 1 ensures PlacedAt(order, parts, start, j) {
        if j < k {
          assert old(PlacedAt(order, parts, start, j));
          assert order[j].writeOrderNr == j;
        }
      }
      forall j | 0 <= j < |order| ensures TrunAt(order, parts, j) {
        assert old(TrunAt(order, parts, j));
      }
      forall i | 0 <= i < |trafs| ensures TrafAt(trafs, order, owner, i) {
        assert old(TrafAt(trafs, order, owner, i));
      }
    }
  }

  // ----- reading a track of any fragment -----

  /** What Fragment.GetFullSamples gives: the samples, its error for an offset beyond the mdat data, or PastData where a
      sample ends beyond the data and the source slices out of range.
    */
  datatype Reading = Read(full: seq<FullSample>) | OffsetBeyond | PastData

  /** The samples of one trun. */
  method ReadTrun(trun: Trun, data: seq<byte>, moofStart: nat, payloadStart: nat, baseTime: nat)
    returns (r: Reading, totalDur: nat)
    requires |data| < 0x1_0000_0000
    ensures r.OffsetBeyond? <==> OffsetInMdat(trun.dataOffset, moofStart, payloadStart) > |data|
    ensures r.Read? <==> TrunFits(trun, data, moofStart, payloadStart)
    ensures r.Read? ==>
              var off := OffsetInMdat(trun.dataOffset, moofStart, payloadStart);
              var items := ReadFrom(trun.samples, data, off, |trun.samples|);
              r.full == Timed(items, baseTime, |items|) && totalDur == DurTo(items, |items|)
  {
    hide ReadFrom, Timed, DurTo, SizeTo;
    totalDur := 0;
    var baseOffset := (trun.dataOffset + moofStart) % WORD;
    var offsetInMdat: nat := 0;
    if baseOffset > 0 {
      offsetInMdat := (baseOffset - payloadStart) % WORD;
      if offsetInMdat > |data| {
        return OffsetBeyond, 0;
      }
    }
    var samples;
    samples, totalDur := GetFullSamples(trun, offsetInMdat % 0x1_0000_0000, baseTime, data);
    r := if samples.Some? then Read(samples.value) else PastData;
  }

  /** Trun m is the first whose samples are not within the data. */
  ghost predicate FirstUnfit(truns: seq<Trun>, data: seq<byte>, moofStart: nat, payloadStart: nat, m: nat)
    reads truns
  {
    && m < |truns| && !TrunFits(truns[m], data, moofStart, payloadStart)
    && forall i :: 0 <= i < m ==> TrunFits(truns[i], data, moofStart, payloadStart)
  }

  lemma StartTimed(base: nat)
    ensures Timed([], base, 0) == [] && DurTo([], 0) == 0
  {
  }

  /** Fragment.GetFullSamples for the track of traf t: succeeds if and only if all its truns are found within the data,
      and the decode times run on from that of the track.
    */
  method ReadTrackBack(f: Fragment, t: nat) returns (r: Reading)
    requires t < |f.trafs| && |f.mdat.data| < 0x1_0000_0000
    ensures var truns, data, payload := f.trafs[t].truns, f.mdat.data, f.mdat.PayloadAbsoluteOffset();
            && (r.Read? <==> forall m :: 0 <= m < |truns| ==> TrunFits(truns[m], data, f.moofStart, payload))
            && (r.Read? ==>
                  var items := ReadTruns(truns, data, f.moofStart, payload, |truns|);
                  r.full == Timed(items, f.trafs[t].baseMediaDecodeTime, |items|))
            && (!r.Read? ==> exists m: nat ::
                  && FirstUnfit(truns, data, f.moofStart, payload, m)
                  && (r.OffsetBeyond? <==> OffsetInMdat(truns[m].dataOffset, f.moofStart, payload) > |data|))
  {
    hide ReadFrom, Timed, DurTo, SizeTo, OffsetInMdat, TrunFits;
    StartTimed(f.trafs[t].baseMediaDecodeTime);
    var truns, data, first := f.trafs[t].truns, f.mdat.data, f.trafs[t].baseMediaDecodeTime;
    var moofStart, payload := f.moofStart, f.mdat.PayloadAbsoluteOffset();
    var baseTime, full := first, [];
    var m := 0;
    while m < |truns|
      invariant m <= |truns| && forall i :: 0 <= i < m ==> TrunFits(truns[i], data, moofStart, payload)
      invariant var items := ReadTruns(truns, data, moofStart, payload, m);
                full == Timed(items, first, |items|) && baseTime == first + DurTo(items, |items|)
    {
      ghost var x := truns[m];
      TimedConcat(ReadTruns(truns, data, moofStart, payload, m),
                  ReadFrom(x.samples, data, OffsetInMdat(x.dataOffset, moofStart, payload), |x.samples|), first,
                  |x.samples|);
      var more, totalDur := ReadTrun(truns[m], data, moofStart, payload, baseTime);
      if !more.Read? {
        assert FirstUnfit(truns, data, moofStart, payload, m);
        return more;
      }
      full := full + more.full;
      baseTime := baseTime + totalDur;
      m := m + 1;
    }
    r := Read(full);
  }

  // ----- where the truns of a finished fragment are looked for -----

  /** File positions are int64 in the source. */
  const MAX_POSITION: nat := 0x8000_0000_0000_0000

  ghost predicate AllPlaced(order: seq<Trun>, parts: seq<seq<Item>>, start: nat)
    requires |order| == |parts|
    reads order
  {
    forall k :: 0 <= k < |order| ==> PlacedAt(order, parts, start, k)
  }

  /** The offsets are set for a moof box of moofSize bytes, and the sizes are right. */
  ghost predicate Finished(f: Fragment, moofSize: nat)
    reads f, f.trafs, f.order, f.mdat
  {
    && f.Valid() && f.Filled() && f.AllSized() && moofSize + f.mdat.HeaderSize() + |f.mdat.data| < 0x8000_0000
    && AllPlaced(f.order, f.parts, moofSize + f.mdat.HeaderSize())
  }

  /** A trun is looked for where its part is if and only if the mdat box follows the moof box; else it is off by as
      much as the mdat box is.
    */
  lemma OffsetExact(dataOffset: int, off: nat, moofSize: nat, header: nat, moofStart: nat, mdatStart: nat)
    requires dataOffset == moofSize + header + off < 0x8000_0000 && header > 0
    requires moofStart < MAX_POSITION && mdatStart < MAX_POSITION
    ensures OffsetInMdat(dataOffset, moofStart, mdatStart + header) == (moofStart + moofSize - mdatStart + off) % WORD
    ensures OffsetInMdat(dataOffset, moofStart, mdatStart + header) == off <==> mdatStart == moofStart + moofSize
    ensures moofStart + moofSize - mdatStart + off < 0 ==>
              OffsetInMdat(dataOffset, moofStart, mdatStart + header) >= MAX_POSITION
  {
    var x := moofStart + moofSize - mdatStart + off;
    assert (dataOffset + moofStart) % WORD == dataOffset + moofStart > 0;
    if x < 0 {
      assert x % WORD == x + WORD;
    } else {
      assert x % WORD == x;
    }
  }

  lemma TrunBounds(parts: seq<seq<Item>>, k: nat)
    requires SizedParts(parts) && k < |parts|
    ensures OffsetTo(parts, k) <= OffsetTo(parts, k + 1) <= |Flat(parts, |parts|)|
    ensures OffsetTo(parts, k + 1) == OffsetTo(parts, k) + SizeTo(Samples(parts[k]), |parts[k]|)
    ensures k + 1 == |parts| ==> OffsetTo(parts, k + 1) == |Flat(parts, |parts|)|
  {
    OffsetIsLength(parts, k);
    OffsetIsLength(parts, k + 1);
    FlatMono(parts, k + 1, |parts|);
  }

  /** The same for trun k of a finished fragment, and when its samples are within the data there. */
  lemma TrunExact(f: Fragment, moofSize: nat, k: nat)
    requires Finished(f, moofSize) && f.moofStart < MAX_POSITION && f.mdat.startPos < MAX_POSITION && k < |f.order|
    ensures var payload, shift := f.mdat.PayloadAbsoluteOffset(), f.moofStart + moofSize - f.mdat.startPos;
            && (LooksRight(f.order, f.parts, f.moofStart, payload, k) <==> f.mdat.startPos == f.moofStart + moofSize)
            && (TrunFits(f.order[k], f.mdat.data, f.moofStart, payload)
                <==> 0 <= shift + OffsetTo(f.parts, k) && shift + OffsetTo(f.parts, k + 1) <= |f.mdat.data|)
  {
    hide OffsetInMdat, Flat, SizeTo, OffsetTo, Samples, SizedParts, TrunsOf;
    var header, off := f.mdat.HeaderSize(), OffsetTo(f.parts, k);
    assert TrunAt(f.order, f.parts, k) && PlacedAt(f.order, f.parts, moofSize + header, k);
    TrunBounds(f.parts, k);
    SmallInt32(moofSize + header + off);
    OffsetExact(f.order[k].dataOffset, off, moofSize, header, f.moofStart, f.mdat.startPos);
    var x := f.moofStart + moofSize - f.mdat.startPos + off;
    if x >= 0 {
      assert x % WORD == x;
    }
  }

  /** Which trun of the whole fragment trun m of traf t is. */
  lemma TrunOf(f: Fragment, t: nat, m: nat) returns (k: nat)
    requires f.Valid() && t < |f.trafs| && m < |f.trafs[t].truns|
    ensures k < |f.order| && f.order[k] == f.trafs[t].truns[m] && f.owner[k] == t
  {
    hide Flat, Samples, SizedParts;
    var trun := f.trafs[t].truns[m];
    assert TrafAt(f.trafs, f.order, f.owner, t);
    f.InOrder();
    OfOwned(f.order, f.owner, t, |f.order|);
    assert OwnedBy(f.order, f.owner, trun, t, t + 1);
    k := trun.writeOrderNr;
  }

  // ----- building a fragment and reading it back -----

  /** Reads a track of a finished fragment whose mdat box follows its moof box: all samples added to it, in order. */
  method ReadFinished(f: Fragment, t: nat, moofSize: nat) returns (full: seq<FullSample>)
    requires Finished(f, moofSize) && t < |f.trafs| && f.mdat.startPos == f.moofStart + moofSize < MAX_POSITION
    ensures full == Timed(f.Track(t), f.trafs[t].baseMediaDecodeTime, |f.Track(t)|)
  {
    hide TrunFits, LooksRight, ReadTruns, Timed, TrunsOf, TrackItems, Flat, OffsetTo, SizedParts;
    var r := ReadTrackBack(f, t);
    ghost var payload := f.mdat.PayloadAbsoluteOffset();
    forall k | 0 <= k < |f.order|
      ensures LooksRight(f.order, f.parts, f.moofStart, payload, k)
      ensures TrunFits(f.order[k], f.mdat.data, f.moofStart, payload)
    {
      TrunExact(f, moofSize, k);
      TrunBounds(f.parts, k);
    }
    forall m | 0 <= m < |f.trafs[t].truns|
      ensures TrunFits(f.trafs[t].truns[m], f.mdat.data, f.moofStart, payload)
    {
      var k := TrunOf(f, t, m);
    }
    TracksRead(f, t, payload);
    full := r.full;
  }

  lemma TracksRead(f: Fragment, t: nat, payload: nat)
    requires f.Valid() && f.Filled() && f.AllSized() && t < |f.trafs|
    requires forall k :: 0 <= k < |f.order| ==> LooksRight(f.order, f.parts, f.moofStart, payload, k)
    ensures var truns := f.trafs[t].truns;
            ReadTruns(truns, f.mdat.data, f.moofStart, payload, |truns|) == f.Track(t)
  {
    hide LooksRight, ReadTruns, Flat, SizedParts;
    assert TrafAt(f.trafs, f.order, f.owner, t);
    ReadTrack(f.order, f.owner, f.parts, f.mdat.data, f.moofStart, payload, t, |f.order|);
  }

  /** The same for all tracks. */
  method ReadTracksBack(f: Fragment, moofSize: nat) returns (tracks: seq<seq<FullSample>>)
    requires Finished(f, moofSize) && f.mdat.startPos == f.moofStart + moofSize < MAX_POSITION
    ensures |tracks| == |f.trafs|
    ensures forall t :: 0 <= t < |tracks| ==>
                          tracks[t] == Timed(f.Track(t), f.trafs[t].baseMediaDecodeTime, |f.Track(t)|)
  {
    hide *;
    ValidFinished(f, moofSize);
    tracks := [];
    var t := 0;
    while t < |f.trafs|
      invariant t <= |f.trafs| && |tracks| == t
      invariant forall i :: 0 <= i < t ==>
                              tracks[i] == Timed(f.Track(i), f.trafs[i].baseMediaDecodeTime, |f.Track(i)|)
    {
      var full := ReadFinished(f, t, moofSize);
      tracks := tracks + [full];
      t := t + 1;
    }
  }

  /** In memory, before it was written and decoded, a finished fragment has no positions. A track is then looked for
      moofSize bytes behind its data, and can be read only if that is still within the data.
    */
  lemma InMemoryExact(f: Fragment, moofSize: nat, t: nat)
    requires Finished(f, moofSize) && f.moofStart == f.mdat.startPos == 0 && t < |f.trafs|
    ensures (forall m :: 0 <= m < |f.trafs[t].truns| ==>
               TrunFits(f.trafs[t].truns[m], f.mdat.data, 0, f.mdat.PayloadAbsoluteOffset()))
       <==> forall k :: 0 <= k < |f.order| && f.owner[k] == t ==> moofSize + OffsetTo(f.parts, k + 1) <= |f.mdat.data|
  {
    hide TrunFits, Flat, OffsetTo, SizedParts, TrunsOf, Finished;
    var truns, payload := f.trafs[t].truns, f.mdat.PayloadAbsoluteOffset();
    ValidFinished(f, moofSize);
    forall k | 0 <= k < |f.order|
      ensures TrunFits(f.order[k], f.mdat.data, 0, payload)
         <==> moofSize + OffsetTo(f.parts, k + 1) <= |f.mdat.data|
    {
      TrunExact(f, moofSize, k);
    }
    forall m | 0 <= m < |truns| ensures exists k :: 0 <= k < |f.order| && f.owner[k] == t && f.order[k] == truns[m] {
      var k := TrunOf(f, t, m);
    }
    assert TrafAt(f.trafs, f.order, f.owner, t);
    forall k | 0 <= k < |f.order| && f.owner[k] == t ensures f.order[k] in truns {
      OwnedIn(f.order, f.owner, t, |f.order|, k);
    }
  }

  lemma ValidFinished(f: Fragment, moofSize: nat)
    requires Finished(f, moofSize)
    ensures f.Valid()
  {
  }

  lemma {:induction false} OwnedIn(order: seq<Trun>, owner: seq<nat>, i: nat, k: nat, j: nat)
    requires j < k <= |order| == |owner| && owner[j] == i
    ensures order[j] in TrunsOf(order, owner, i, k)
  {
    if j < k - 1 {
      OwnedIn(order, owner, i, k - 1, j);
    }
  }

  /** One call of AddFullSampleToTrack, for the track with this index. */
  datatype Add = Add(track: nat, item: Item, decodeTime: nat)

  /** The items that the first n calls add to track t. */
  function Added(adds: seq<Add>, t: nat, n: nat): seq<Item>
    requires n <= |adds|
  {
    if n == 0 then [] else Added(adds, t, n - 1) + (if adds[n - 1].track == t then [adds[n - 1].item] else [])
  }

  /** The decode time given with the first of these items. */
  function FirstTime(adds: seq<Add>, t: nat, n: nat): nat
    requires n <= |adds|
  {
    if n == 0 then 0
    else if adds[n - 1].track == t && Added(adds, t, n - 1) == [] then adds[n - 1].decodeTime
    else FirstTime(adds, t, n - 1)
  }

  /** The calls name existing tracks, and each sample says how long its data is. */
  ghost predicate Proper(adds: seq<Add>, nrTracks: nat) {
    forall n :: 0 <= n < |adds| ==> adds[n].track < nrTracks && adds[n].item.sample.size == |adds[n].item.data|
  }

  /** The bytes that the first n calls add. */
  function AddedBytes(adds: seq<Add>, n: nat): nat
    requires n <= |adds|
  {
    if n == 0 then 0 else AddedBytes(adds, n - 1) + |adds[n - 1].item.data|
  }

  /** The fragment after n calls. */
  ghost predicate Built(f: Fragment, trackIDs: seq<nat>, adds: seq<Add>, n: nat)
    requires n <= |adds|
    reads f, f.trafs, f.order, f.mdat
  {
    && f.Valid() && f.Filled() && f.AllSized() && |f.mdat.data| == AddedBytes(adds, n)
    && |f.trafs| == |trackIDs| && (forall i :: 0 <= i < |trackIDs| ==> f.trafs[i].trackID == trackIDs[i])
    && (forall t: nat :: f.Track(t) == Added(adds, t, n)) && Tight(f.owner, f.parts)
    && (forall t :: 0 <= t < |f.trafs| ==> f.trafs[t].baseMediaDecodeTime == FirstTime(adds, t, n))
    && f.moofStart == f.mdat.startPos == 0 && (n > 0 ==> Continues(f.owner, adds[n - 1].track))
  }

  /** One more call. */
  method AddOne(f: Fragment, trackIDs: seq<nat>, adds: seq<Add>, n: nat)
    requires forall i, j :: 0 <= i < j < |trackIDs| ==> trackIDs[i] != trackIDs[j]
    requires n < |adds| && Proper(adds, |trackIDs|) && Built(f, trackIDs, adds, n)
    modifies f`nextTrunNr, f`order, f`owner, f`parts, f.trafs, f.order, f.mdat`data, f.mdat`lazyDataSize
    ensures Built(f, trackIDs, adds, n + 1)
    ensures old(|f.order|) <= |f.order| && f.order[..old(|f.order|)] == old(f.order)
    ensures forall k :: old(|f.order|) <= k < |f.order| ==> fresh(f.order[k])
  {
    var item := adds[n].item;
    var ok;
    ghost var t;
    ok, t := f.AddFullSampleToTrack(item.sample, item.data, trackIDs[adds[n].track], adds[n].decodeTime);
    assert t == adds[n].track;
  }

  /** A sample for a track that the fragment does not have is no error, but goes to the last track. */
  method UnknownTrackExample(item: Item) returns (f: Fragment, ok: bool)
    ensures |f.trafs| == 1 && f.trafs[0].trackID == 1 && f.Valid()
    ensures ok && f.Track(0) == [item]
  {
    f := new Fragment([1]);
    ghost var t;
    ok, t := f.AddFullSampleToTrack(item.sample, item.data, 2, 0);
  }

  lemma BuiltStart(f: Fragment, trackIDs: seq<nat>, adds: seq<Add>)
    requires f.Valid() && f.Filled() && f.AllSized() && f.order == [] && Tight(f.owner, f.parts)
    requires |f.trafs| == |trackIDs| && forall i :: 0 <= i < |f.trafs| ==> f.trafs[i].trackID == trackIDs[i]
    requires forall i :: 0 <= i < |f.trafs| ==> f.trafs[i].baseMediaDecodeTime == 0
    requires f.moofStart == f.mdat.startPos == 0
    ensures Built(f, trackIDs, adds, 0)
  {
  }

  /** A whole fragment: created, and filled by one call after the other. */
  method Build(trackIDs: seq<nat>, adds: seq<Add>) returns (f: Fragment)
    requires forall i, j :: 0 <= i < j < |trackIDs| ==> trackIDs[i] != trackIDs[j]
    requires Proper(adds, |trackIDs|)
    ensures Built(f, trackIDs, adds, |adds|) && fresh(f) && fresh(f.trafs) && fresh(f.order) && fresh(f.mdat)
  {
    hide *;
    f := new Fragment(trackIDs);
    BuiltStart(f, trackIDs, adds);
    var n := 0;
    while n < |adds|
      invariant n <= |adds| && Built(f, trackIDs, adds, n) && fresh(f) && fresh(f.trafs) && fresh(f.order)
                  && fresh(f.mdat)
    {
      AddOne(f, trackIDs, adds, n);
      n := n + 1;
    }
  }

  /** The samples that the first n calls add to track t, each with the decode time given for it. */
  function Given(adds: seq<Add>, t: nat, n: nat): seq<FullSample>
    requires n <= |adds|
  {
    if n == 0 then []
    else
      Given(adds, t, n - 1)
        + (if adds[n - 1].track == t then [FullSample(adds[n - 1].item, adds[n - 1].decodeTime)] else [])
  }

  /** Call n gives the decode time at which the samples of its track before it end, unless it is the first. */
  predicate Continuous(adds: seq<Add>, n: nat)
    requires n < |adds|
  {
    var items := Added(adds, adds[n].track, n);
    items != [] ==> adds[n].decodeTime == FirstTime(adds, adds[n].track, n) + DurTo(items, |items|)
  }

  /** Where the given decode times are continuous, exactly what was given is read back. */
  lemma {:induction false} TimesBack(adds: seq<Add>, t: nat, n: nat)
    requires n <= |adds| && forall k :: 0 <= k < n ==> Continuous(adds, k)
    ensures var items := Added(adds, t, n);
            Timed(items, FirstTime(adds, t, n), |items|) == Given(adds, t, n)
  {
    if n > 0 {
      TimesBack(adds, t, n - 1);
      var items, a := Added(adds, t, n - 1), adds[n - 1];
      if a.track == t {
        assert Continuous(adds, n - 1);
        TimedConcat(items, [a.item], FirstTime(adds, t, n), 1);
        assert Timed([a.item], FirstTime(adds, t, n) + DurTo(items, |items|), 1)
            == [FullSample(a.item, FirstTime(adds, t, n) + DurTo(items, |items|))];
      } else {
        assert items + [] == items;
      }
    }
  }

  /** Setting the offsets finishes a fragment that was built. */
  method Finish(f: Fragment, moofSize: nat)
    requires f.Valid() && f.Filled() && f.AllSized() && moofSize + 16 + |f.mdat.data| < 0x8000_0000
    modifies f.order
    ensures Finished(f, moofSize)
  {
    ghost var start := f.SetTrunDataOffsets(moofSize);
  }

  /** Writing the fragment at a position and decoding it again: the mdat box follows the moof box. */
  method WriteAndDecode(f: Fragment, moofSize: nat, position: nat)
    requires Finished(f, moofSize)
    modifies f`moofStart, f.mdat`startPos
    ensures Finished(f, moofSize) && f.moofStart == position && f.mdat.startPos == position + moofSize
  {
    f.moofStart := position;
    f.mdat.startPos := position + moofSize;
  }

  /** Samples of several tracks, interleaved in any way, are read back track by track from the finished fragment, once
      it was written and decoded, with all their fields and data, and with decode times that run on from the one given
      with the first sample of the track; where the given ones do, they are read back.
    */
  method BuildAndRead(trackIDs: seq<nat>, adds: seq<Add>, moofSize: nat, position: nat)
    returns (tracks: seq<seq<FullSample>>)
    requires forall i, j :: 0 <= i < j < |trackIDs| ==> trackIDs[i] != trackIDs[j]
    requires Proper(adds, |trackIDs|) && moofSize + 16 + AddedBytes(adds, |adds|) < 0x8000_0000
    requires position + moofSize < MAX_POSITION
    ensures |tracks| == |trackIDs|
    ensures forall t :: 0 <= t < |tracks| ==>
                          var items := Added(adds, t, |adds|);
                          tracks[t] == Timed(items, FirstTime(adds, t, |adds|), |items|)
    ensures (forall k :: 0 <= k < |adds| ==> Continuous(adds, k)) ==>
              forall t :: 0 <= t < |tracks| ==> tracks[t] == Given(adds, t, |adds|)
  {
    hide Finished, Timed, Given, Continuous;
    var f := Build(trackIDs, adds);
    Finish(f, moofSize);
    WriteAndDecode(f, moofSize, position);
    tracks := ReadTracksBack(f, moofSize);
    if forall k :: 0 <= k < |adds| ==> Continuous(adds, k) {
      forall t | 0 <= t < |tracks| ensures tracks[t] == Given(adds, t, |adds|) {
        TimesBack(adds, t, |adds|);
      }
    }
  }

  /** Without that step the track of the last sample can never be read, whatever was added: its last trun is looked for
      beyond its place, and so ends beyond the data.
    */
  method BuildAndReadInMemory(trackIDs: seq<nat>, adds: seq<Add>, moofSize: nat) returns (r: Reading)
    requires forall i, j :: 0 <= i < j < |trackIDs| ==> trackIDs[i] != trackIDs[j]
    requires Proper(adds, |trackIDs|) && moofSize + 16 + AddedBytes(adds, |adds|) < 0x8000_0000
    requires adds != [] && moofSize > 0
    ensures !r.Read?
  {
    hide TrunFits, TrunsOf, OffsetTo, Finished, Added, FirstTime;
    var f := Build(trackIDs, adds);
    Finish(f, moofSize);
    ghost var t := adds[|adds| - 1].track;
    LastPast(f, moofSize, t);
    r := ReadTrackBack(f, adds[|adds| - 1].track);
  }

  lemma LastPast(f: Fragment, moofSize: nat, t: nat)
    requires Finished(f, moofSize) && f.moofStart == f.mdat.startPos == 0 && t < |f.trafs| && moofSize > 0
    requires Continues(f.owner, t)
    ensures !forall m :: 0 <= m < |f.trafs[t].truns| ==>
               TrunFits(f.trafs[t].truns[m], f.mdat.data, f.moofStart, f.mdat.PayloadAbsoluteOffset())
  {
    hide TrunFits, TrunsOf, OffsetTo, Flat, SizedParts;
    InMemoryExact(f, moofSize, t);
    TrunBounds(f.parts, |f.parts| - 1);
    assert f.owner[|f.order| - 1] == t;
  }
}
