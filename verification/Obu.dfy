/** Open bitstream units: splitting and printing (av1/obu.go; sections 5.3.1 and 5.3.2 of the AV1 specification). */
module Obu {
  import opened BitStrings
  import opened Leb128

  datatype Error = TruncatedOBU | ForbiddenBit | TruncatedLEB128 | TooLongLEB128 | PayloadTooLong

  datatype Result<+T> = Ok(value: T) | Err(error: Error)

  datatype OBUHeader = OBUHeader(typ: nat, extensionFlag: bool, hasSizeField: bool, temporalId: nat, spatialId: nat,
                                 headerSize: nat)
  {
    /** The fields fit their bits, and the size agrees with the extension flag. */
    predicate WellFormed() {
      && typ < 16
      && (if extensionFlag then temporalId < 8 && spatialId < 4 && headerSize == 2
          else temporalId == 0 && spatialId == 0 && headerSize == 1)
    }
  }

  datatype OBU = OBU(header: OBUHeader, payload: seq<byte>)

  function ParseOBUHeader(data: seq<byte>): (r: Result<OBUHeader>)
    ensures r.Ok? ==> r.value.WellFormed() && r.value.headerSize <= |data|
  {
    if |data| < 1 then Err(TruncatedOBU)
    else if data[0] >= 128 then Err(ForbiddenBit)
    else
      var h := OBUHeader(data[0] / 8 % 16, data[0] / 4 % 2 == 1, data[0] / 2 % 2 == 1, 0, 0, 1);
      if !h.extensionFlag then Ok(h)
      else if |data| < 2 then Err(TruncatedOBU)
      else Ok(h.(temporalId := data[1] / 32, spatialId := data[1] / 8 % 4, headerSize := 2))
  }

  /** A parsed header has its fields in the places that section 5.3.2 of the AV1 specification gives them: a zero bit,
      four bits for the type, the two flags and a reserved bit, and in an extension three and two bits for the layers.
    */
  lemma HeaderFields(data: seq<byte>)
    requires ParseOBUHeader(data).Ok?
    ensures var h := ParseOBUHeader(data).value;
            && BitsOf(data[0], 8)[..7] == [false] + BitsOf(h.typ, 4) + [h.extensionFlag, h.hasSizeField]
            && (h.extensionFlag ==> BitsOf(data[1], 8)[..5] == BitsOf(h.temporalId, 3) + BitsOf(h.spatialId, 2))
  {
    var h := ParseOBUHeader(data).value;
    assert data[0] / 8 % 16 == data[0] / 8;
    FirstByteBits(data[0], h.typ, h.extensionFlag, h.hasSizeField);
    if h.extensionFlag {
      SecondByteBits(data[1], h.temporalId, h.spatialId);
    }
  }

  /** Three bits and the five before them. */
  lemma ByteBits(b: byte)
    ensures BitsOf(b, 8) == BitsOf(b / 8, 5) + [b / 4 % 2 == 1, b / 2 % 2 == 1, b % 2 == 1]
  {
    BitsOfSplit(b, 5, 3);
    ShrIsQuotient(b, 3);
    Pow2Small();
    ThreeBits(b);
  }

  lemma FirstByteBits(b: byte, typ: nat, ext: bool, sized: bool)
    requires b < 128 && typ == b / 8 && ext == (b / 4 % 2 == 1) && sized == (b / 2 % 2 == 1)
    ensures BitsOf(b, 8)[..7] == [false] + BitsOf(typ, 4) + [ext, sized]
  {
    hide BitsOf, Pow2, Shr;
    ByteBits(b);
    BitsOfSplit(typ, 1, 4);
    ShrIsQuotient(typ, 4);
    Pow2Small();
    BitsOfStep(0, 1);
  }

  lemma SecondByteBits(b: byte, temporal: nat, spatial: nat)
    requires temporal == b / 32 && spatial == b / 8 % 4
    ensures BitsOf(b, 8)[..5] == BitsOf(temporal, 3) + BitsOf(spatial, 2)
  {
    hide BitsOf, Pow2, Shr;
    ByteBits(b);
    BitsOfSplit(b / 8, 3, 2);
    ShrIsQuotient(b / 8, 2);
    assert Pow2(2) == 4 by {
      Pow2Two();
    }
    ThreeBits(b / 8);
    ThreeBits(spatial);
  }

  lemma Pow2Two()
    ensures Pow2(2) == 4
  {
  }

  /** The header bytes with obu_has_size_field as given. */
  function HeaderBytes(h: OBUHeader, sized: bool): (s: seq<byte>)
    requires h.WellFormed()
    ensures |s| == h.headerSize
  {
    var flag: nat := if sized then 2 else 0;
    if h.extensionFlag then [h.typ * 8 + 4 + flag, h.temporalId * 32 + h.spatialId * 8] else [h.typ * 8 + flag]
  }

  lemma HeaderRoundTrip(h: OBUHeader, sized: bool, tail: seq<byte>)
    requires h.WellFormed()
    ensures ParseOBUHeader(HeaderBytes(h, sized) + tail) == Ok(h.(hasSizeField := sized))
  {
    var s, flag := HeaderBytes(h, sized) + tail, if sized then 2 else 0;
    if h.extensionFlag {
      assert s[0] == h.typ * 8 + 4 + flag && s[1] == h.temporalId * 32 + h.spatialId * 8;
      FlagBits(s[0], h.typ, true, sized);
    } else {
      assert s[0] == h.typ * 8 + flag;
      FlagBits(s[0], h.typ, false, sized);
    }
  }

  lemma FlagBits(b: nat, typ: nat, ext: bool, sized: bool)
    requires typ < 16 && b == typ * 8 + (if ext then 4 else 0) + (if sized then 2 else 0)
    ensures b < 128 && b / 8 % 16 == typ && (b / 4 % 2 == 1) == ext && (b / 2 % 2 == 1) == sized
  {
  }

  /** The printed form of an OBU. */
  function Encoded(o: OBU): seq<byte>
    requires o.header.WellFormed()
  {
    HeaderBytes(o.header, true) + Leb(|o.payload|) + o.payload
  }

  /** OBU.Encode; the size field is always there. */
  method Encode(o: OBU) returns (b: seq<byte>)
    requires o.header.WellFormed()
    ensures b == Encoded(o)
  {
    var h: nat := o.header.typ * 8 + 2;
    if o.header.extensionFlag {
      h := h + 4;
    }
    b := [h];
    if o.header.extensionFlag {
      b := b + [o.header.temporalId * 32 + o.header.spatialId * 8];
    }
    b := AppendLEB128(b, |o.payload|);
    b := b + o.payload;
  }

  /** OBU.Size is the length that Encode gives. */
  method Size(o: OBU) returns (n: nat)
    requires o.header.WellFormed()
    ensures n == |Encoded(o)|
  {
    n := Leb128Len(|o.payload|);
    n := o.header.headerSize + n + |o.payload|;
  }

  /** One OBU: its header, and where its payload begins and ends. */
  datatype Unit = Unit(header: OBUHeader, start: nat, end: nat)

  function UnitAt(data: seq<byte>, pos: nat): (r: Result<Unit>)
    requires pos < |data|
    ensures r.Ok? ==> pos < r.value.start <= r.value.end <= |data|
  {
    match ParseOBUHeader(data[pos..])
    case Err(e) => Err(e)
    case Ok(h) =>
      var p := pos + h.headerSize;
      if !h.hasSizeField then Ok(Unit(h, p, |data|))
      else
        match Parse(data[p..], 8)
        case LebErr(e) => Err(if e == Truncated then TruncatedLEB128 else TooLongLEB128)
        case LebOk(size, n) =>
          if size > |data| - (p + n) then Err(PayloadTooLong) else Ok(Unit(h, p + n, p + n + size))
  }

  /** The code that SplitOBUs and GetTileRanges share. */
  method ReadUnit(data: seq<byte>, pos0: nat) returns (r: Result<Unit>)
    requires pos0 < |data|
    ensures r == UnitAt(data, pos0)
  {
    var hdr := ParseOBUHeader(data[pos0..]);
    if hdr.Err? {
      return Err(hdr.error);
    }
    var pos := pos0 + hdr.value.headerSize;
    if !hdr.value.hasSizeField {
      return Ok(Unit(hdr.value, pos, |data|));
    }
    var size := ReadLEB128(data[pos..]);
    match size
    case LebErr(e) =>
      return Err(if e == Truncated then TruncatedLEB128 else TooLongLEB128);
    case LebOk(n, used) =>
      pos := pos + used;
      if n > |data| - pos {
        return Err(PayloadTooLong);
      }
      return Ok(Unit(hdr.value, pos, pos + n));
  }

  /** The OBUs from pos on. */
  function Split(data: seq<byte>, pos: nat): Result<seq<OBU>>
    requires pos <= |data|
    decreases |data| - pos
  {
    if pos == |data| then Ok([])
    else
      match UnitAt(data, pos)
      case Err(e) => Err(e)
      case Ok(u) =>
        match Split(data, u.end)
        case Err(e) => Err(e)
        case Ok(rest) => Ok([OBU(u.header, data[u.start..u.end])] + rest)
  }

  /** obus and what follows pos make goal. */
  ghost predicate Splitting(goal: Result<seq<OBU>>, obus: seq<OBU>, rest: Result<seq<OBU>>) {
    goal == if rest.Err? then rest else Ok(obus + rest.value)
  }

  lemma SplitStep(goal: Result<seq<OBU>>, obus: seq<OBU>, data: seq<byte>, pos: nat, u: Result<Unit>)
    requires pos < |data| && Splitting(goal, obus, Split(data, pos)) && u == UnitAt(data, pos)
    ensures u.Err? ==> goal == Err(u.error)
    ensures u.Ok? ==>
              Splitting(goal, obus + [OBU(u.value.header, data[u.value.start..u.value.end])], Split(data, u.value.end))
  {
    if u.Ok? {
      var rest, o := Split(data, u.value.end), OBU(u.value.header, data[u.value.start..u.value.end]);
      if rest.Ok? {
        assert obus + ([o] + rest.value) == obus + [o] + rest.value;
      }
    }
  }

  method SplitOBUs(data: seq<byte>) returns (r: Result<seq<OBU>>)
    ensures r == Split(data, 0)
  {
    var obus: seq<OBU>, pos: nat := [], 0;
    ghost var goal := Split(data, 0);
    assert goal.Ok? ==> [] + goal.value == goal.value;
    while pos < |data|
      invariant pos <= |data| && Splitting(goal, obus, Split(data, pos))
      decreases |data| - pos
    {
      var u := ReadUnit(data, pos);
      SplitStep(goal, obus, data, pos, u);
      if u.Err? {
        return Err(u.error);
      }
      obus := obus + [OBU(u.value.header, data[u.value.start..u.value.end])];
      pos := u.value.end;
    }
    assert obus + [] == obus;
    return Ok(obus);
  }

  // ----- splitting undoes printing -----

  /** What the parser can give back: well-formed headers and payloads of less than 2^56 bytes. */
  predicate Printable(obus: seq<OBU>) {
    forall i :: 0 <= i < |obus| ==> PrintableUnit(obus[i])
  }

  predicate PrintableUnit(o: OBU) {
    o.header.WellFormed() && |o.payload| < 0x100_0000_0000_0000
  }

  function EncodedTo(obus: seq<OBU>, k: nat): seq<byte>
    requires k <= |obus| && Printable(obus)
  {
    if k == 0 then [] else EncodedTo(obus, k - 1) + Encoded(obus[k - 1])
  }

  /** The same OBU with the size flag set. */
  function Sized(o: OBU): OBU {
    o.(header := o.header.(hasSizeField := true))
  }

  /** The list from k on with the size flags set. */
  function SizedFrom(obus: seq<OBU>, k: nat): seq<OBU>
    requires k <= |obus|
    decreases |obus| - k
  {
    if k == |obus| then [] else [Sized(obus[k])] + SizedFrom(obus, k + 1)
  }

  lemma {:induction false} EncodedPrefix(obus: seq<OBU>, j: nat, k: nat)
    requires j <= k <= |obus| && Printable(obus)
    ensures EncodedTo(obus, j) <= EncodedTo(obus, k)
  {
    if j < k {
      EncodedPrefix(obus, j, k - 1);
    }
  }

  /** The unit after a. */
  lemma UnitInData(a: seq<byte>, o: OBU, data: seq<byte>, pos: nat, end: nat)
    requires PrintableUnit(o) && a + Encoded(o) <= data && pos == |a| && end == |a + Encoded(o)|
    ensures pos < |data| && UnitAt(data, pos) == Ok(Unit(Sized(o).header, end - |o.payload|, end))
    ensures data[end - |o.payload|..end] == o.payload
  {
    var h, l, t := HeaderBytes(o.header, true), Leb(|o.payload|), data[end..];
    var p, tail := pos + |h|, o.payload + t;
    After(a, Encoded(o), data);
    Regroup4(h, l, o.payload, t);
    HeaderRoundTrip(o.header, true, l + tail);
    After(h, l + tail, data[pos..]);
    assert data[p..] == l + tail;
    Pow128Known();
    LebLength(|o.payload|, 8);
    ParseLeb(|o.payload|, tail, 8);
    assert data[end - |o.payload|..end] == Encoded(o)[|h + l|..];
  }

  lemma After(a: seq<byte>, x: seq<byte>, data: seq<byte>)
    requires a + x <= data
    ensures data[|a|..] == x + data[|a + x|..] && data[|a|..|a + x|] == x
  {
    assert data[..|a + x|] == a + x;
  }

  lemma Regroup4(h: seq<byte>, l: seq<byte>, p: seq<byte>, t: seq<byte>)
    ensures (h + l + p) + t == h + (l + (p + t))
  {
  }

  lemma SplitHead(data: seq<byte>, pos: nat, u: Unit, o: OBU, rest: seq<OBU>, all: seq<OBU>)
    requires pos < |data| && UnitAt(data, pos) == Ok(u) && Split(data, u.end) == Ok(rest)
    requires o == OBU(u.header, data[u.start..u.end]) && all == [o] + rest
    ensures Split(data, pos) == Ok(all)
  {
  }

  /** The OBUs from k on, and then those that follow in data. */
  lemma {:induction false} SplitEncodedFrom(obus: seq<OBU>, data: seq<byte>, k: nat, pos: nat, rest: seq<OBU>)
    requires k <= |obus| && Printable(obus) && EncodedTo(obus, |obus|) <= data && pos == |EncodedTo(obus, k)| <= |data|
    requires Split(data, |EncodedTo(obus, |obus|)|) == Ok(rest)
    ensures Split(data, pos) == Ok(SizedFrom(obus, k) + rest)
    decreases |obus| - k
  {
    hide Encoded, UnitAt, Split;
    if k < |obus| {
      var a, o, end := EncodedTo(obus, k), obus[k], |EncodedTo(obus, k + 1)|;
      EncodedPrefix(obus, k + 1, |obus|);
      UnitInData(a, o, data, pos, end);
      SplitEncodedFrom(obus, data, k + 1, end, rest);
      Assoc([Sized(o)], SizedFrom(obus, k + 1), rest);
      SplitHead(data, pos, Unit(Sized(o).header, end - |o.payload|, end), Sized(o), SizedFrom(obus, k + 1) + rest,
                SizedFrom(obus, k) + rest);
    } else {
      assert SizedFrom(obus, k) + rest == rest;
    }
  }

  /** Splitting the printed forms of a list gives the list, with the size flags set. */
  lemma SplitEncoded(obus: seq<OBU>)
    requires Printable(obus)
    ensures Split(EncodedTo(obus, |obus|), 0) == Ok(SizedFrom(obus, 0))
  {
    SplitEncodedFrom(obus, EncodedTo(obus, |obus|), 0, 0, []);
    assert SizedFrom(obus, 0) + [] == SizedFrom(obus, 0);
  }

  /** A last OBU without a size field, behind those of the list: all of the data that is left is its payload. */
  lemma SplitUnsized(obus: seq<OBU>, o: OBU)
    requires Printable(obus) && o.header.WellFormed()
    ensures var data := EncodedTo(obus, |obus|) + (HeaderBytes(o.header, false) + o.payload);
            Split(data, 0) == Ok(SizedFrom(obus, 0) + [o.(header := o.header.(hasSizeField := false))])
  {
    var a, h := EncodedTo(obus, |obus|), HeaderBytes(o.header, false);
    var last := h + o.payload;
    UnsizedThere(a, h, o, a + last);
    hide *;
    SplitEncodedFrom(obus, a + last, 0, 0, [o.(header := o.header.(hasSizeField := false))]);
  }

  lemma UnsizedThere(a: seq<byte>, h: seq<byte>, o: OBU, data: seq<byte>)
    requires o.header.WellFormed() && h == HeaderBytes(o.header, false) && data == a + (h + o.payload)
    ensures Split(data, |a|) == Ok([o.(header := o.header.(hasSizeField := false))])
  {
    var pos, o' := |a|, o.(header := o.header.(hasSizeField := false));
    assert data[pos..] == h + o.payload && data[pos + |h|..|data|] == o.payload;
    HeaderRoundTrip(o.header, false, o.payload);
    hide ParseOBUHeader, HeaderBytes, Parse;
    assert Split(data, |data|) == Ok([]) && [o'] + [] == [o'];
    SplitHead(data, pos, Unit(o'.header, pos + |h|, |data|), o', [], [o']);
  }
}
