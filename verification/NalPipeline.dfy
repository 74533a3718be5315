/** The NAL-unit pipeline end to end: bit fields written with EBSPWriter, wrapped as units of a byte
    stream, found by the start-code scanner and read back with EBSPReader.
  */
module NalPipeline {
  import opened BitStrings
  import opened Emulation
  import opened Golomb
  import opened EbspWriter
  import opened EbspReader
  import opened AnnexB
  import opened ByteStream
  import opened AnnexBRoundTrip

  datatype Kind = FixedWidth(width: nat) | ExpGolomb

  datatype Field = Field(kind: Kind, value: nat)

  /** What one write and one read can carry: at most 57 bits next to 7 pending ones. */
  predicate Writable(f: Field) {
    match f.kind
    case FixedWidth(width) => width <= 57 && f.value < WORD
    case ExpGolomb => f.value + 1 < Pow2(57)
  }

  function FieldBits(f: Field): Bits {
    match f.kind
    case FixedWidth(width) => BitsOf(f.value, width)
    case ExpGolomb => Ue(f.value)
  }

  /** The value a reader should get: a write masks off all but width bits. */
  function FieldValue(f: Field): nat {
    match f.kind
    case FixedWidth(width) => Low(f.value, width)
    case ExpGolomb => f.value
  }

  function FieldValues(fs: seq<Field>): seq<nat> {
    seq(|fs|, i requires 0 <= i < |fs| => FieldValue(fs[i]))
  }

  function Kinds(fs: seq<Field>): seq<Kind> {
    seq(|fs|, i requires 0 <= i < |fs| => fs[i].kind)
  }

  /** The bits of the fields from k on, closed by rbsp_trailing_bits of a payload with m bits before. */
  function UnitBits(fs: seq<Field>, k: nat, m: nat): Bits
    requires k <= |fs|
    decreases |fs| - k
  {
    if k == |fs| then [true] + Zeros(7 - m % 8)
    else FieldBits(fs[k]) + UnitBits(fs, k + 1, m + |FieldBits(fs[k])|)
  }

  /** unit is what the writer makes of the fields. */
  ghost predicate IsUnit(unit: seq<byte>, fs: seq<Field>) {
    exists payload :: IsPayload(payload, fs) && unit == Escape(payload)
  }

  ghost predicate IsPayload(payload: seq<byte>, fs: seq<Field>) {
    ToBits(payload) == UnitBits(fs, 0, 0)
  }

  // ----- writing -----

  method WriteField(w: EBSPWriter, f: Field)
    requires w.Valid() && w.limit == None && Writable(f)
    modifies w
    ensures w.Valid() && !w.err
    ensures w.Written() == old(w.Written()) + FieldBits(f)
  {
    match f.kind {
      case FixedWidth(width) =>
        w.Write(f.value, width);
      case ExpGolomb =>
        Pow2Known();
        w.WriteExpGolomb(f.value);
    }
  }

  /** The first k fields have been written. */
  ghost predicate Progress(bits: Bits, fs: seq<Field>, k: nat) {
    k <= |fs| && bits + UnitBits(fs, k, |bits|) == UnitBits(fs, 0, 0)
  }

  lemma ProgressStart(fs: seq<Field>)
    ensures Progress([], fs, 0)
  {
    assert [] + UnitBits(fs, 0, 0) == UnitBits(fs, 0, 0);
  }

  lemma ProgressStep(bits: Bits, fs: seq<Field>, k: nat, bits': Bits)
    requires Progress(bits, fs, k) && k < |fs| && bits' == bits + FieldBits(fs[k])
    ensures Progress(bits', fs, k + 1)
  {
    var f, rest := FieldBits(fs[k]), UnitBits(fs, k + 1, |bits'|);
    assert UnitBits(fs, k, |bits|) == f + rest;
    Assoc(bits, f, rest);
  }

  lemma ProgressEnd(bits: Bits, fs: seq<Field>, n: nat, bits': Bits)
    requires Progress(bits, fs, |fs|) && n == |bits| % 8 && bits' == bits + [true] + Zeros(7 - n)
    ensures bits' == UnitBits(fs, 0, 0)
  {
    Assoc(bits, [true], Zeros(7 - n));
  }

  /** w is ready for field k. */
  ghost predicate Writing(w: EBSPWriter, fs: seq<Field>, k: nat)
    reads w
  {
    w.Valid() && !w.err && w.limit == None && Progress(w.Written(), fs, k)
  }

  method WriteNext(w: EBSPWriter, fs: seq<Field>, k: nat)
    requires k < |fs| && Writable(fs[k]) && Writing(w, fs, k)
    modifies w
    ensures Writing(w, fs, k + 1)
  {
    ghost var before := w.Written();
    WriteField(w, fs[k]);
    ProgressStep(before, fs, k, w.Written());
  }

  /** Writes the fields and the trailing bits. */
  method WriteUnit(fs: seq<Field>) returns (unit: seq<byte>)
    requires forall i :: 0 <= i < |fs| ==> Writable(fs[i])
    ensures IsUnit(unit, fs)
  {
    var w := new EBSPWriter(None);
    ProgressStart(fs);
    var k := 0;
    while k < |fs|
      invariant k <= |fs| && fresh(w) && Writing(w, fs, k)
    {
      WriteNext(w, fs, k);
      k := k + 1;
    }
    unit := CloseUnit(w, fs);
  }

  method CloseUnit(w: EBSPWriter, ghost fs: seq<Field>) returns (unit: seq<byte>)
    requires Writing(w, fs, |fs|)
    modifies w
    ensures IsUnit(unit, fs)
  {
    ghost var before, n := w.Written(), w.n;
    w.WriteRbspTrailingBits();
    ProgressEnd(before, fs, n, ToBits(w.payload));
    assert IsPayload(w.payload, fs);
    unit := w.out;
  }

  // ----- reading -----

  method ReadField(r: EBSPReader, kind: Kind, ghost f: Field, ghost tail: Bits) returns (value: nat)
    requires r.Valid() && !r.err && Writable(f) && kind == f.kind
    requires r.Rest() == FieldBits(f) + tail
    modifies r
    ensures r.Valid() && !r.err && r.Rest() == tail
    ensures value == FieldValue(f)
  {
    match kind {
      case FixedWidth(width) =>
        FixedParses(f.value, width, tail, r.Rest());
        value := r.Read(width);
      case ExpGolomb =>
        value := ReadUe(r, f.value, tail);
    }
  }

  method ReadUe(r: EBSPReader, ghost x: nat, ghost tail: Bits) returns (value: nat)
    requires r.Valid() && !r.err && x + 1 < Pow2(57)
    requires r.Rest() == Ue(x) + tail
    modifies r
    ensures r.Valid() && !r.err && r.Rest() == tail && value == x
  {
    UeParses(x, tail);
    SmallCode(x);
    value := r.ReadExpGolomb();
  }

  lemma FixedParses(v: nat, width: nat, tail: Bits, rest: Bits)
    requires rest == BitsOf(v, width) + tail
    ensures |rest| >= width && Val(rest[..width]) == Low(v, width) && rest[width..] == tail
  {
    assert rest[..width] == BitsOf(v, width);
    ValBitsOf(v, width);
  }

  lemma SmallCode(x: nat)
    requires x + 1 < Pow2(57)
    ensures FloorLog2(x + 1) < 57 && |Ue(x)| == 2 * FloorLog2(x + 1) + 1
  {
    hide FloorLog2, Pow2, Ue;
    FloorLog2Bounds(x + 1);
    if FloorLog2(x + 1) >= 57 {
      Pow2Mono(57, FloorLog2(x + 1));
    }
  }

  /** r stands before field k, with m bits read, and values holds the fields before it. */
  ghost predicate Reading(r: EBSPReader, fs: seq<Field>, k: nat, m: nat, values: seq<nat>)
    reads r
  {
    && k <= |fs|
    && r.Valid() && !r.err && r.seekable
    && r.Rest() == UnitBits(fs, k, m)
    && values == FieldValues(fs)[..k]
  }

  method ReadNext(r: EBSPReader, kind: Kind, ghost fs: seq<Field>, ghost k: nat, ghost m: nat, values: seq<nat>)
    returns (values': seq<nat>, ghost m': nat)
    requires k < |fs| && Writable(fs[k]) && kind == fs[k].kind && Reading(r, fs, k, m, values)
    modifies r
    ensures Reading(r, fs, k + 1, m', values')
  {
    m' := m + |FieldBits(fs[k])|;
    ghost var tail := UnitBits(fs, k + 1, m');
    var value := ReadField(r, kind, fs[k], tail);
    values' := values + [value];
    ValuesStep(fs, k, values);
  }

  lemma ValuesStep(fs: seq<Field>, k: nat, values: seq<nat>)
    requires k < |fs| && values == FieldValues(fs)[..k]
    ensures values + [FieldValue(fs[k])] == FieldValues(fs)[..k + 1]
  {
  }

  /** Reads fields of the given kinds, then the trailing bits. done says that nothing but proper
      trailing bits was left. */
  method ReadUnit(unit: seq<byte>, kinds: seq<Kind>, ghost fs: seq<Field>) returns (values: seq<nat>, done: bool)
    requires IsUnit(unit, fs) && kinds == Kinds(fs)
    requires forall i :: 0 <= i < |fs| ==> Writable(fs[i])
    ensures done && values == FieldValues(fs)
  {
    var r := new EBSPReader(unit, true, 0);
    OpenUnit(unit, fs);
    assert unit[0..] == unit;
    ghost var m: nat := 0;
    values := [];
    var k := 0;
    while k < |kinds|
      invariant fresh(r) && Reading(r, fs, k, m, values)
    {
      values, m := ReadNext(r, kinds[k], fs, k, m, values);
      k := k + 1;
    }
    done := AtEnd(r, 7 - m % 8);
  }

  method AtEnd(r: EBSPReader, ghost n: nat) returns (done: bool)
    requires r.Valid() && !r.err && r.seekable && r.base == 0 && r.Rest() == [true] + Zeros(n)
    modifies r
    ensures done
  {
    TrailingBits(n);
    var more, ok := r.MoreRbspData();
    var bad := r.ReadRbspTrailingBits();
    done := !more && ok && !bad && !r.err;
  }

  lemma OpenUnit(unit: seq<byte>, fs: seq<Field>)
    requires IsUnit(unit, fs)
    ensures ToBits(UnescapeFrom(unit, 0)) == UnitBits(fs, 0, 0)
  {
    var payload :| IsPayload(payload, fs) && unit == Escape(payload);
    EscapeRoundTrip(payload);
  }

  lemma TrailingBits(n: nat)
    ensures OnlyStopBit([true] + Zeros(n))
  {
  }

  // ----- units in a byte stream -----

  /** The bits of a unit fill whole bytes, and the last byte has a one: the stop bit. */
  lemma {:induction false} StopBit(fs: seq<Field>, k: nat, m: nat) returns (i: nat)
    requires k <= |fs|
    ensures var b := UnitBits(fs, k, m); (m + |b|) % 8 == 0 && |b| - 8 <= i < |b| && b[i]
    decreases |fs| - k
  {
    if k < |fs| {
      var f := FieldBits(fs[k]);
      i := StopBit(fs, k + 1, m + |f|);
      i := StopBitAfter(f, UnitBits(fs, k + 1, m + |f|), i);
    } else {
      i := 0;
    }
  }

  lemma StopBitAfter(f: Bits, rest: Bits, i: nat) returns (j: nat)
    requires |rest| - 8 <= i < |rest| && rest[i]
    ensures |f + rest| - 8 <= j < |f + rest| && (f + rest)[j]
  {
    j := |f| + i;
  }

  lemma {:induction false} LastByteBits(p: seq<byte>, i: nat)
    requires p != [] && 8 * |p| - 8 <= i < 8 * |p| && ToBits(p)[i]
    ensures p[|p| - 1] != 0
  {
    if |p| > 1 {
      assert ToBits(p)[i] == ToBits(p[1..])[i - 8];
      LastByteBits(p[1..], i - 8);
    } else {
      assert ToBits(p[1..]) == [];
      ZeroBits(8);
    }
  }

  /** A written unit is a proper NAL unit: no start code inside, not empty, no trailing zero byte. */
  lemma UnitIsProper(unit: seq<byte>, fs: seq<Field>)
    requires IsUnit(unit, fs)
    ensures NoPattern(unit) && unit != [] && !EndsInZero(unit)
  {
    var payload :| IsPayload(payload, fs) && unit == Escape(payload);
    EscapeIsClean(payload, 0);
    var i := StopBit(fs, 0, 0);
    LastByteBits(payload, i);
    EscapeLast(payload, 0);
  }

  ghost predicate AreUnits(units: seq<seq<byte>>, programs: seq<seq<Field>>) {
    |units| == |programs| && forall i :: 0 <= i < |units| ==> IsUnit(units[i], programs[i])
  }

  /** In any byte stream of written units, with start codes of either length, the scanner finds
      exactly the inserted start codes, and so exactly the units. */
  lemma WrittenUnitsFound(units: seq<seq<byte>>, programs: seq<seq<Field>>, scs: seq<seq<byte>>)
    requires AreUnits(units, programs) && |scs| == |units|
    requires forall i :: 0 <= i < |scs| ==> IsStartCode(scs[i])
    ensures var s := Stream(units, scs);
            && NaiveScan(s) == Inserted(units, scs, |units|)
            && Delimiting(s, NaiveScan(s)) && Units(s, NaiveScan(s)) == units
  {
    forall i | 0 <= i < |units| ensures NoPattern(units[i]) && units[i] != [] && !EndsInZero(units[i]) {
      UnitIsProper(units[i], programs[i]);
    }
    StreamScan(units, scs);
  }

  predicate AllWritable(programs: seq<seq<Field>>) {
    forall p, i :: 0 <= p < |programs| && 0 <= i < |programs[p]| ==> Writable(programs[p][i])
  }

  /** Writes every program as a unit. */
  method WriteUnits(programs: seq<seq<Field>>) returns (units: seq<seq<byte>>)
    requires AllWritable(programs)
    ensures AreUnits(units, programs)
  {
    units := [];
    var k := 0;
    while k < |programs|
      invariant k == |units| <= |programs|
      invariant forall i :: 0 <= i < k ==> IsUnit(units[i], programs[i])
    {
      var unit := WriteUnit(programs[k]);
      units := units + [unit];
      k := k + 1;
    }
  }

  /** Puts a start code before every unit. */
  method WrapUnits(units: seq<seq<byte>>, scs: seq<seq<byte>>) returns (stream: seq<byte>)
    requires |units| == |scs|
    ensures stream == Stream(units, scs)
  {
    stream := [];
    var k := 0;
    while k < |units|
      invariant k <= |units| && stream == StreamTo(units, scs, k)
    {
      stream := stream + scs[k] + units[k];
      k := k + 1;
    }
  }

  /** Reads every unit that the codes delimit. */
  method ReadUnits(stream: seq<byte>, codes: seq<ScNalu>, programs: seq<seq<Field>>) returns (values: seq<seq<nat>>)
    requires Delimiting(stream, codes) && AreUnits(Units(stream, codes), programs) && AllWritable(programs)
    ensures |values| == |programs|
    ensures forall i :: 0 <= i < |programs| ==> values[i] == FieldValues(programs[i])
  {
    values := [];
    var k := 0;
    while k < |codes|
      invariant k == |values| <= |codes|
      invariant forall i :: 0 <= i < k ==> values[i] == FieldValues(programs[i])
    {
      assert DelimitsAt(stream, codes, k) && IsUnit(Units(stream, codes)[k], programs[k]);
      var v, done := ReadUnit(UnitAt(stream, codes, k), Kinds(programs[k]), programs[k]);
      values := values + [v];
      k := k + 1;
    }
  }

  /** End to end: the fields of every unit come back from the byte stream. */
  method Pipeline(programs: seq<seq<Field>>, scs: seq<seq<byte>>) returns (values: seq<seq<nat>>)
    requires AllWritable(programs) && |scs| == |programs|
    requires forall i :: 0 <= i < |scs| ==> IsStartCode(scs[i])
    ensures |values| == |programs|
    ensures forall i :: 0 <= i < |programs| ==> values[i] == FieldValues(programs[i])
  {
    var units := WriteUnits(programs);
    var bytes := WrapUnits(units, scs);
    WrittenUnitsFound(units, programs, scs);
    var stream := new byte[|bytes|](i requires 0 <= i < |bytes| => bytes[i]);
    assert stream[..] == bytes;
    var codes, min := GetStartCodePositions(stream);
    values := ReadUnits(bytes, codes, programs);
  }
}
