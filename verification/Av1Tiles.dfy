/** Where the tiles of an AV1 sample lie (av1/tiles.go; section 5.11.1 of the AV1 specification). */
module Av1Tiles {
  import opened BitStrings
  import opened BitReader
  import opened ProtectRanges
  import opened SampleCrypt
  import Obu
  import opened BigEndian

  // ----- tile sizes -----

  /** le(n) */
  function LE(s: seq<byte>): nat {
    if s == [] then 0 else s[0] + 256 * LE(s[1..])
  }

  method LeToUint(b: seq<byte>) returns (v: nat)
    ensures v == LE(b)
  {
    v := 0;
    var i := |b| - 1;
    assert b[|b|..] == [];
    while i >= 0
      invariant -1 <= i < |b| && v == LE(b[i + 1..])
    {
      assert b[i..][1..] == b[i + 1..];
      v := v * 256 + b[i];
      i := i - 1;
    }
    assert b[0..] == b;
  }

  /** v as n bytes, lowest first. */
  function LittleEndian(v: nat, n: nat): (s: seq<byte>)
    ensures |s| == n
  {
    if n == 0 then [] else [v % 256] + LittleEndian(v / 256, n - 1)
  }

  lemma {:induction false} LERoundTrip(v: nat, n: nat)
    requires v < Pow256(n)
    ensures LE(LittleEndian(v, n)) == v
  {
    if n > 0 {
      LERoundTrip(v / 256, n - 1);
      assert LittleEndian(v, n)[1..] == LittleEndian(v / 256, n - 1);
    }
  }

  // ----- one tile group -----

  /** What the tile code needs of a frame header. */
  datatype FrameHeader = FrameHeader(showExistingFrame: bool, headerBytes: nat, tileCols: nat, tileRows: nat,
                                     tileColsLog2: nat, tileRowsLog2: nat, tileSizeBytes: nat)
  {
    predicate Valid() {
      tileColsLog2 + tileRowsLog2 <= 57 && 1 <= tileSizeBytes <= 4
    }

    function NumTiles(): nat {
      tileCols * tileRows
    }
  }

  /** The first and the last tile of the group, and where the first one's size field or data begins. */
  datatype Group = Group(start: nat, end: nat, pos: nat)

  /** The header of a tile group; None is an error. */
  function GroupHeader(tg: seq<byte>, n: nat, tileBits: nat): (g: Option<Group>)
    requires n > 0
    ensures g.Some? ==> g.value.pos <= |tg|
  {
    if n == 1 then Some(Group(0, 0, 0)) else FlaggedHeader(ToBits(tg), n, tileBits)
  }

  /** The same where there is a flag, which says whether the first and the last tile are given. */
  function FlaggedHeader(bits: Bits, n: nat, tileBits: nat): (g: Option<Group>)
    requires n > 0
    ensures g.Some? ==> 8 * g.value.pos <= |bits| + 7
  {
    if bits == [] then None
    else if !bits[0] then Some(Group(0, n - 1, 1))
    else if |bits| < 1 + 2 * tileBits then None
    else
      var first, second := bits[1..], bits[1..][tileBits..];
      Some(Group(Val(first[..tileBits]), Val(second[..tileBits]), (1 + 2 * tileBits + 7) / 8))
  }

  /** How many bytes a reader has taken when so many bits are used. */
  lemma BytesTaken(r: Reader, used: nat)
    requires r.Valid() && !r.err && |r.Rest()| + used == 8 * |r.src|
    ensures r.rdPos == (used + 7) / 8
  {
    assert |r.Rest()| == r.n + 8 * (|r.src| - r.rdPos);
  }

  method ReadGroupHeader(tg: seq<byte>, n: nat, tileBits: nat) returns (g: Option<Group>)
    requires n > 0 && tileBits <= 57
    ensures g == GroupHeader(tg, n, tileBits)
  {
    if n == 1 {
      return Some(Group(0, 0, 0));
    }
    var r := new Reader(tg);
    g := ReadFlagged(r, n, tileBits);
  }

  /** The numbers of the first and the last tile. */
  method ReadBounds(r: Reader, tileBits: nat) returns (first: nat, last: nat)
    requires r.Valid() && !r.err && tileBits <= 57
    modifies r
    ensures r.Valid() && (r.err <==> 2 * tileBits > |old(r.Rest())|)
    ensures !r.err ==> first == Val(old(r.Rest())[..tileBits]) && last == Val(old(r.Rest())[tileBits..][..tileBits])
    ensures !r.err ==> |r.Rest()| == |old(r.Rest())| - 2 * tileBits
  {
    first := r.Read(tileBits);
    last := r.Read(tileBits);
  }

  method ReadFlagged(r: Reader, n: nat, tileBits: nat) returns (g: Option<Group>)
    requires r.Valid() && !r.err && |r.Rest()| == 8 * |r.src| && n > 1 && tileBits <= 57
    modifies r
    ensures g == FlaggedHeader(old(r.Rest()), n, tileBits)
  {
    hide Val, ToBits, BitsOf, Pow2;
    ghost var used := 1;
    var tileStartAndEndPresent := r.ReadFlag();
    var tgStart: nat, tgEnd: nat := 0, n - 1;
    if tileStartAndEndPresent {
      tgStart, tgEnd := ReadBounds(r, tileBits);
      used := 1 + 2 * tileBits;
    }
    if r.err {
      return None;
    }
    BytesTaken(r, used);
    r.ByteAlign();
    return Some(Group(tgStart, tgEnd, r.NrBytesRead()));
  }

  /** The tiles from number k on, which start at pos; each but the last has a size field of tsb bytes, and the last one
      takes what is left.
    */
  function Tiles(tg: seq<byte>, pos: nat, k: nat, end: nat, tsb: nat): Option<seq<TileRange>>
    requires pos <= |tg|
    decreases end + 1 - k
  {
    if k > end then (if pos == |tg| then Some([]) else None)
    else if k == end then Some([TileRange(pos, |tg| - pos)])
    else if pos + tsb > |tg| then None
    else
      var p, size := pos + tsb, LE(tg[pos..pos + tsb]) + 1;
      if p + size > |tg| then None
      else
        match Tiles(tg, p + size, k + 1, end, tsb)
        case None => None
        case Some(rest) => Some([TileRange(p, size)] + rest)
  }

  ghost predicate Gathering(goal: Option<seq<TileRange>>, ranges: seq<TileRange>, rest: Option<seq<TileRange>>) {
    goal == if rest.None? then None else Some(ranges + rest.value)
  }

  lemma GatherOne(goal: Option<seq<TileRange>>, ranges: seq<TileRange>, t: TileRange, rest: Option<seq<TileRange>>)
    requires Gathering(goal, ranges, if rest.None? then None else Some([t] + rest.value))
    ensures Gathering(goal, ranges + [t], rest)
  {
    if rest.Some? {
      assert ranges + ([t] + rest.value) == ranges + [t] + rest.value;
    }
  }

  /** tileGroupRanges; the error is None. */
  method TileGroupRanges(tg: seq<byte>, fh: FrameHeader) returns (r: Option<seq<TileRange>>)
    requires fh.Valid()
    ensures r == GroupRanges(tg, fh)
  {
    var numTiles := fh.NumTiles();
    if numTiles <= 0 {
      return None;
    }
    var group := ReadGroupHeader(tg, numTiles, fh.tileColsLog2 + fh.tileRowsLog2);
    if group.None? {
      return None;
    }
    var tgEnd: nat, pos: nat, tileNum: nat := group.value.end, group.value.pos, group.value.start;
    var ranges: seq<TileRange> := [];
    ghost var goal := GroupRanges(tg, fh);
    assert goal.Some? ==> [] + goal.value == goal.value;
    while tileNum <= tgEnd
      invariant pos <= |tg| && Gathering(goal, ranges, Tiles(tg, pos, tileNum, tgEnd, fh.tileSizeBytes))
      decreases tgEnd + 1 - tileNum
    {
      var ok;
      ok, ranges, pos := NextTile(tg, fh.tileSizeBytes, tileNum, tgEnd, ranges, pos, goal);
      if !ok {
        return None;
      }
      tileNum := tileNum + 1;
    }
    if pos != |tg| {
      return None;
    }
    assert ranges + [] == ranges;
    return Some(ranges);
  }

  /** One round of the loop. */
  method NextTile(tg: seq<byte>, tsb: nat, tileNum: nat, tgEnd: nat, ranges0: seq<TileRange>, pos0: nat,
                  ghost goal: Option<seq<TileRange>>) returns (ok: bool, ranges: seq<TileRange>, pos: nat)
    requires pos0 <= |tg| && tileNum <= tgEnd && Gathering(goal, ranges0, Tiles(tg, pos0, tileNum, tgEnd, tsb))
    ensures !ok ==> goal == None
    ensures ok ==> pos <= |tg| && Gathering(goal, ranges, Tiles(tg, pos, tileNum + 1, tgEnd, tsb))
  {
    ranges, pos := ranges0, pos0;
    var tileSize: nat := |tg| - pos;
    if tileNum < tgEnd {
      if pos + tsb > |tg| {
        return false, ranges, pos;
      }
      tileSize := LeToUint(tg[pos..pos + tsb]);
      tileSize := tileSize + 1;
      pos := pos + tsb;
    }
    if pos + tileSize > |tg| {
      return false, ranges, pos;
    }
    assert [TileRange(pos, tileSize)] + [] == [TileRange(pos, tileSize)];
    GatherOne(goal, ranges, TileRange(pos, tileSize), Tiles(tg, pos + tileSize, tileNum + 1, tgEnd, tsb));
    ranges := ranges + [TileRange(pos, tileSize)];
    pos := pos + tileSize;
    ok := true;
  }

  function GroupRanges(tg: seq<byte>, fh: FrameHeader): Option<seq<TileRange>> {
    if fh.NumTiles() == 0 then None
    else
      match GroupHeader(tg, fh.NumTiles(), fh.tileColsLog2 + fh.tileRowsLog2)
      case None => None
      case Some(g) => Tiles(tg, g.pos, g.start, g.end, fh.tileSizeBytes)
  }

  // ----- what the ranges of a group are -----

  /** r[i] lies behind the tile before it and within [lo, hi). */
  predicate InOrderAt(r: seq<TileRange>, lo: nat, hi: nat, i: nat)
    requires i < |r|
  {
    && lo <= r[i].offset && r[i].offset + r[i].length <= hi
    && (i > 0 ==> r[i - 1].offset + r[i - 1].length <= r[i].offset)
  }

  ghost predicate InOrder(r: seq<TileRange>, lo: nat, hi: nat) {
    lo <= hi && forall i :: 0 <= i < |r| ==> InOrderAt(r, lo, hi, i)
  }

  /** From pos on the ranges use up everything to n: there is a size field before each but the last, and nothing else
      between them.
    */
  predicate Exhausts(r: seq<TileRange>, k: nat, pos: nat, n: nat, tsb: nat)
    requires k <= |r|
    decreases |r| - k
  {
    if k == |r| then pos == n
    else
      && r[k].offset == pos + (if k + 1 == |r| then 0 else tsb)
      && Exhausts(r, k + 1, r[k].offset + r[k].length, n, tsb)
  }

  lemma {:induction false} ExhaustsCons(t: TileRange, r: seq<TileRange>, k: nat, pos: nat, n: nat, tsb: nat)
    requires k <= |r|
    ensures Exhausts([t] + r, k + 1, pos, n, tsb) == Exhausts(r, k, pos, n, tsb)
    decreases |r| - k
  {
    if k < |r| {
      ExhaustsCons(t, r, k + 1, r[k].offset + r[k].length, n, tsb);
    }
  }

  lemma InOrderCons(t: TileRange, r: seq<TileRange>, lo: nat, hi: nat)
    requires lo <= t.offset && InOrder(r, t.offset + t.length, hi)
    ensures InOrder([t] + r, lo, hi)
  {
    var s := [t] + r;
    forall i | 0 <= i < |s| ensures InOrderAt(s, lo, hi, i) {
      if i > 0 {
        assert InOrderAt(r, t.offset + t.length, hi, i - 1);
      }
    }
  }

  /** The tiles of a group are as many as the group says, in order, without overlap, and exhaust the group. */
  lemma {:induction false} TilesExhaust(tg: seq<byte>, pos: nat, k: nat, end: nat, tsb: nat)
    requires pos <= |tg| && Tiles(tg, pos, k, end, tsb).Some?
    ensures var r := Tiles(tg, pos, k, end, tsb).value;
            && |r| == (if k > end then 0 else end + 1 - k)
            && Exhausts(r, 0, pos, |tg|, tsb) && InOrder(r, pos, |tg|)
    decreases end + 1 - k
  {
    if k == end {
      assert InOrder([], |tg|, |tg|);
      InOrderCons(TileRange(pos, |tg| - pos), [], pos, |tg|);
      assert [TileRange(pos, |tg| - pos)] + [] == [TileRange(pos, |tg| - pos)];
    } else if k < end {
      var p, size := pos + tsb, LE(tg[pos..pos + tsb]) + 1;
      var rest := Tiles(tg, p + size, k + 1, end, tsb).value;
      TilesExhaust(tg, p + size, k + 1, end, tsb);
      ExhaustsCons(TileRange(p, size), rest, 0, p + size, |tg|, tsb);
      InOrderCons(TileRange(p, size), rest, pos, |tg|);
    }
  }

  /** A group whose header has pos bytes and whose tiles from k on are these, each but the last after its size. */
  function TileBytes(data: seq<seq<byte>>, k: nat, tsb: nat): seq<byte>
    requires k < |data|
    decreases |data| - k
  {
    if k + 1 == |data| then data[k]
    else LittleEndian(if data[k] == [] then 0 else |data[k]| - 1, tsb) + data[k] + TileBytes(data, k + 1, tsb)
  }

  /** The sizes of all tiles but the last fit their fields. */
  predicate Sizable(data: seq<seq<byte>>, tsb: nat) {
    forall i :: 0 <= i && i + 1 < |data| ==> SizableAt(data, tsb, i)
  }

  predicate SizableAt(data: seq<seq<byte>>, tsb: nat, i: nat) {
    i < |data| ==> 1 <= |data[i]| <= Pow256(tsb)
  }

  /** The ranges r of tg hold the tiles from k on. */
  ghost predicate Holds(tg: seq<byte>, r: seq<TileRange>, data: seq<seq<byte>>, k: nat) {
    k + |r| == |data| && forall i :: 0 <= i < |r| ==> HoldsAt(tg, r, data, k, i)
  }

  ghost predicate HoldsAt(tg: seq<byte>, r: seq<TileRange>, data: seq<seq<byte>>, k: nat, i: nat)
    requires i < |r| && k + i < |data|
  {
    r[i].offset + r[i].length <= |tg| && tg[r[i].offset..r[i].offset + r[i].length] == data[k + i]
  }

  lemma HoldsCons(tg: seq<byte>, t: TileRange, r: seq<TileRange>, data: seq<seq<byte>>, k: nat)
    requires k < |data| && Holds(tg, r, data, k + 1)
    requires t.offset + t.length <= |tg| && tg[t.offset..t.offset + t.length] == data[k]
    ensures Holds(tg, [t] + r, data, k)
  {
    var s := [t] + r;
    forall i | 0 <= i < |s| ensures HoldsAt(tg, s, data, k, i) {
      if i > 0 {
        assert HoldsAt(tg, r, data, k + 1, i - 1);
      }
    }
  }

  /** The size field and the tile after a. */
  lemma FirstTile(tg: seq<byte>, a: seq<byte>, f: seq<byte>, d: seq<byte>, rest: seq<byte>, p: nat, q: nat)
    requires tg == a + (f + d + rest) && p == |a| + |f| && q == p + |d|
    ensures tg[|a|..p] == f && tg[p..q] == d && tg == tg[..q] + rest && q <= |tg|
  {
  }

  lemma TilesCons(tg: seq<byte>, pos: nat, k: nat, end: nat, tsb: nat, p: nat, q: nat, rest: seq<TileRange>)
    requires k < end && p == pos + tsb && p < q <= |tg| && LE(tg[pos..p]) + 1 == q - p
    requires Tiles(tg, q, k + 1, end, tsb) == Some(rest)
    ensures Tiles(tg, pos, k, end, tsb) == Some([TileRange(p, q - p)] + rest)
  {
  }

  lemma LastTile(tg: seq<byte>, a: seq<byte>, data: seq<seq<byte>>, k: nat, end: nat, tsb: nat)
    requires k + 1 == |data| && tg == a + data[k]
    ensures Tiles(tg, |a|, end, end, tsb) == Some([TileRange(|a|, |tg| - |a|)])
    ensures Holds(tg, [TileRange(|a|, |tg| - |a|)], data, k)
  {
    var t := TileRange(|a|, |tg| - |a|);
    assert tg[|a|..|tg|] == data[k];
    assert Holds(tg, [], data, k + 1);
    HoldsCons(tg, t, [], data, k);
    assert [t] + [] == [t];
  }

  /** Parsing a group finds the tiles that were put into it. */
  lemma {:induction false} TilesRoundTrip(tg: seq<byte>, a: seq<byte>, data: seq<seq<byte>>, k: nat, tsb: nat,
                                          num: nat, end: nat) returns (r: seq<TileRange>)
    requires k < |data| && Sizable(data, tsb) && tg == a + TileBytes(data, k, tsb) && num + |data| == k + end + 1
    ensures Tiles(tg, |a|, num, end, tsb) == Some(r) && Holds(tg, r, data, k)
    decreases |data| - k
  {
    var d := data[k];
    if k + 1 == |data| {
      LastTile(tg, a, data, k, end, tsb);
      r := [TileRange(|a|, |tg| - |a|)];
    } else {
      assert SizableAt(data, tsb, k);
      var f, rest := LittleEndian(|d| - 1, tsb), TileBytes(data, k + 1, tsb);
      var p, q := |a| + tsb, |a| + tsb + |d|;
      LERoundTrip(|d| - 1, tsb);
      FirstTile(tg, a, f, d, rest, p, q);
      var s := TilesRoundTrip(tg, tg[..q], data, k + 1, tsb, num + 1, end);
      TilesCons(tg, |a|, num, end, tsb, p, q, s);
      HoldsCons(tg, TileRange(p, |d|), s, data, k);
      r := [TileRange(p, |d|)] + s;
    }
  }

  /** h is the header of a group with the tiles from start to end of n, where tileBits bits number a tile. */
  ghost predicate HeaderOf(h: seq<byte>, n: nat, tileBits: nat, start: nat, end: nat) {
    if n == 1 then h == [] && start == end == 0
    else
      || (|h| == 1 && h[0] < 128 && start == 0 && end == n - 1)
      || (start < Pow2(tileBits) && end < Pow2(tileBits) && |h| == (1 + 2 * tileBits + 7) / 8
          && [true] + BitsOf(start, tileBits) + BitsOf(end, tileBits) <= ToBits(h))
  }

  lemma FlagBit(h: seq<byte>)
    requires h != []
    ensures ToBits(h)[0] == (h[0] >= 128)
  {
    var b := h[0];
    BitsOfAt(b, 8, 0);
    assert Pow2(7) == 128 by {
      Pow2Add(4, 3);
      Pow2Small();
    }
    assert ToBits(h)[0] == BitsOf(b, 8)[0];
  }

  lemma NumbersBack(bits: Bits, k: nat, start: nat, end: nat)
    requires start < Pow2(k) && end < Pow2(k) && [true] + BitsOf(start, k) + BitsOf(end, k) <= bits
    ensures bits[0] && |bits| >= 1 + 2 * k
    ensures Val(bits[1..][..k]) == start && Val(bits[1..][k..][..k]) == end
  {
    var x, y := BitsOf(start, k), BitsOf(end, k);
    var p := bits[..1 + 2 * k];
    assert p == [true] + x + y;
    assert bits[1..][..k] == p[1..1 + k] == x && bits[1..][k..][..k] == p[1 + k..] == y;
    hide BitsOf, Val, Low;
    ValBitsOf(start, k);
    ValBitsOf(end, k);
    LowSmall(start, k);
    LowSmall(end, k);
  }

  /** The header of a group says which tiles follow, in each of its three forms. */
  lemma GroupHeaderBack(tg: seq<byte>, h: seq<byte>, n: nat, tileBits: nat, start: nat, end: nat)
    requires n > 0 && h <= tg && HeaderOf(h, n, tileBits, start, end)
    ensures GroupHeader(tg, n, tileBits) == Some(Group(start, end, |h|))
  {
    hide ToBits, BitsOf, Val, Pow2;
    if n > 1 {
      var rest := tg[|h|..];
      assert tg == h + rest;
      ToBitsConcat(h, rest);
      FlagBit(h);
      if h[0] >= 128 {
        NumbersBack(ToBits(h), tileBits, start, end);
        NumbersBack(ToBits(tg), tileBits, start, end);
      } else if !(|h| == 1 && start == 0 && end == n - 1) {
        NumbersBack(ToBits(h), tileBits, start, end);
      }
    }
  }

  /** A whole group, its header and its tiles, each but the last after its size: just these tiles are found in it. */
  lemma GroupBack(h: seq<byte>, data: seq<seq<byte>>, fh: FrameHeader, start: nat, end: nat)
    returns (r: seq<TileRange>)
    requires fh.NumTiles() > 0 && data != [] && Sizable(data, fh.tileSizeBytes) && start + |data| == end + 1
    requires HeaderOf(h, fh.NumTiles(), fh.tileColsLog2 + fh.tileRowsLog2, start, end)
    ensures var tg := h + TileBytes(data, 0, fh.tileSizeBytes); GroupRanges(tg, fh) == Some(r) && Holds(tg, r, data, 0)
  {
    hide TileBytes, HeaderOf, Tiles;
    var tg := h + TileBytes(data, 0, fh.tileSizeBytes);
    GroupHeaderBack(tg, h, fh.NumTiles(), fh.tileColsLog2 + fh.tileRowsLog2, start, end);
    r := TilesRoundTrip(tg, h, data, 0, fh.tileSizeBytes, start, end);
  }

  // ----- a whole sample -----

  /** One call of ParseFrameHeader. */
  datatype Call = Call(temporalId: nat, spatialId: nat, payload: seq<byte>)

  /** The frame header that a call gives after the calls before it; None is an error. */
  type HeaderParser = (seq<Call>, Call) -> Option<FrameHeader>

  /** A parsed header is within its payload, and its tile fields have the ranges of tile_info. */
  ghost predicate Sound(parse: HeaderParser) {
    forall calls: seq<Call>, c: Call :: SoundAt(parse, calls, c)
  }

  ghost predicate SoundAt(parse: HeaderParser, calls: seq<Call>, c: Call) {
    parse(calls, c).Some? ==> parse(calls, c).value.Valid() && parse(calls, c).value.headerBytes <= |c.payload|
  }

  /** What the decoder remembers between OBUs. */
  datatype State = State(calls: seq<Call>, last: Option<FrameHeader>)

  ghost predicate SoundState(st: State) {
    st.last.Some? ==> st.last.value.Valid()
  }

  /** The state after a call that succeeded; a repeated frame does not become the last header. */
  function After(st: State, c: Call, fh: FrameHeader): State {
    State(st.calls + [c], if fh.showExistingFrame then st.last else Some(fh))
  }

  /** The decoder: its parser is not modelled, its state is. */
  class FrameHeaderDecoder {
    const parse: HeaderParser
    var calls: seq<Call>
    var lastFrameHeader: Option<FrameHeader>

    ghost predicate Valid()
      reads this
    {
      Sound(parse) && SoundState(Now())
    }

    ghost function Now(): State
      reads this
    {
      State(calls, lastFrameHeader)
    }

    constructor (parse: HeaderParser)
      requires Sound(parse)
      ensures Valid() && this.parse == parse && Now() == State([], None)
    {
      this.parse, calls, lastFrameHeader := parse, [], None;
    }

    method ParseFrameHeader(temporalId: nat, spatialId: nat, payload: seq<byte>) returns (fh: Option<FrameHeader>)
      requires Valid()
      modifies this
      ensures Valid()
      ensures var c := Call(temporalId, spatialId, payload);
              fh == parse(old(calls), c) && SoundAt(parse, old(calls), c)
              && (fh.Some? ==> Now() == After(old(Now()), c, fh.value))
    {
      var c := Call(temporalId, spatialId, payload);
      fh := parse(calls, c);
      assert SoundAt(parse, calls, c);
      calls := calls + [c];
      if fh.Some? && !fh.value.showExistingFrame {
        lastFrameHeader := fh;
      }
    }
  }

  /** Ranges within a part of the sample that starts at base. */
  function Shifted(r: seq<TileRange>, base: nat): (s: seq<TileRange>)
    ensures |s| == |r|
  {
    seq(|r|, i requires 0 <= i < |r| => TileRange(base + r[i].offset, r[i].length))
  }

  /** The tiles of the group in sample[lo..hi]. */
  function GroupAt(sample: seq<byte>, lo: nat, hi: nat, fh: FrameHeader): Option<seq<TileRange>>
    requires lo <= hi <= |sample|
  {
    match GroupRanges(sample[lo..hi], fh)
    case None => None
    case Some(r) => Some(Shifted(r, lo))
  }

  datatype Step = Failed | Step(ranges: seq<TileRange>, st: State)

  const OBU_FRAME_HEADER: nat := 3
  const OBU_TILE_GROUP: nat := 4
  const OBU_FRAME: nat := 6
  const OBU_REDUNDANT_FRAME_HEADER: nat := 7

  /** What one OBU contributes. */
  function UnitStep(parse: HeaderParser, st: State, sample: seq<byte>, u: Obu.Unit): Step
    requires u.start <= u.end <= |sample|
  {
    var c := Call(u.header.temporalId, u.header.spatialId, sample[u.start..u.end]);
    if u.header.typ == OBU_TILE_GROUP then
      match st.last
      case None => Failed
      case Some(fh) =>
        match GroupAt(sample, u.start, u.end, fh)
        case None => Failed
        case Some(r) => Step(r, st)
    else if u.header.typ == OBU_FRAME then
      match parse(st.calls, c)
      case None => Failed
      case Some(fh) =>
        if fh.showExistingFrame || u.start + fh.headerBytes > u.end then Step([], After(st, c, fh))
        else
          match GroupAt(sample, u.start + fh.headerBytes, u.end, fh)
          case None => Failed
          case Some(r) => Step(r, After(st, c, fh))
    else if u.header.typ == OBU_FRAME_HEADER || u.header.typ == OBU_REDUNDANT_FRAME_HEADER then
      match parse(st.calls, c)
      case None => Failed
      case Some(fh) => Step([], After(st, c, fh))
    else Step([], st)
  }

  /** The tiles from pos on, and what the decoder remembers at the end. */
  function RangesFrom(parse: HeaderParser, st: State, sample: seq<byte>, pos: nat): Step
    requires pos <= |sample|
    decreases |sample| - pos
  {
    if pos == |sample| then Step([], st)
    else
      match Obu.UnitAt(sample, pos)
      case Err(e) => Failed
      case Ok(u) =>
        match UnitStep(parse, st, sample, u)
        case Failed => Failed
        case Step(r, st') =>
          match RangesFrom(parse, st', sample, u.end)
          case Failed => Failed
          case Step(rest, last) => Step(r + rest, last)
  }

  /** ranges and rest, the tiles that follow, make goal. */
  ghost predicate Finding(goal: Step, ranges: seq<TileRange>, rest: Step) {
    goal == if rest.Failed? then Failed else Step(ranges + rest.ranges, rest.st)
  }

  // ----- the tiles of a printed sample -----

  lemma ShiftedHolds(sample: seq<byte>, lo: nat, hi: nat, r: seq<TileRange>, data: seq<seq<byte>>)
    requires lo <= hi <= |sample| && Holds(sample[lo..hi], r, data, 0)
    ensures Holds(sample, Shifted(r, lo), data, 0)
  {
    var tg, s := sample[lo..hi], Shifted(r, lo);
    forall i | 0 <= i < |s| ensures HoldsAt(sample, s, data, 0, i) {
      assert HoldsAt(tg, r, data, 0, i);
      SliceOfSlice(sample, lo, hi, r[i].offset, r[i].offset + r[i].length);
    }
  }

  lemma SliceOfSlice(s: seq<byte>, lo: nat, hi: nat, a: nat, b: nat)
    requires lo <= hi <= |s| && a <= b <= hi - lo
    ensures s[lo..hi][a..b] == s[lo + a..lo + b]
  {
    var x, y := s[lo..hi][a..b], s[lo + a..lo + b];
    assert |x| == |y| && forall i :: 0 <= i < |x| ==> x[i] == y[i];
  }

  /** A printed group from lo to hi of a sample: its tiles are found there. */
  lemma GroupThere(sample: seq<byte>, lo: nat, hi: nat, h: seq<byte>, data: seq<seq<byte>>, fh: FrameHeader, start: nat,
                   end: nat) returns (s: seq<TileRange>)
    requires fh.NumTiles() > 0 && data != [] && Sizable(data, fh.tileSizeBytes) && start + |data| == end + 1
    requires HeaderOf(h, fh.NumTiles(), fh.tileColsLog2 + fh.tileRowsLog2, start, end)
    requires lo <= hi <= |sample| && sample[lo..hi] == h + TileBytes(data, 0, fh.tileSizeBytes)
    ensures GroupAt(sample, lo, hi, fh) == Some(s) && Holds(sample, s, data, 0)
  {
    hide Holds, GroupRanges, HeaderOf, TileBytes;
    var r := GroupBack(h, data, fh, start, end);
    ShiftedHolds(sample, lo, hi, r, data);
    s := Shifted(r, lo);
  }

  /** A printed OBU at pos that contributes r and leads to next: the tiles from pos on. */
  lemma OneUnit(parse: HeaderParser, st: State, a: seq<byte>, o: Obu.OBU, sample: seq<byte>, pos: nat, end: nat,
                r: seq<TileRange>, next: State)
    requires Obu.PrintableUnit(o) && a + Obu.Encoded(o) <= sample && pos == |a| && end == |a + Obu.Encoded(o)|
    requires |o.payload| <= end
               && UnitStep(parse, st, sample, Obu.Unit(Obu.Sized(o).header, end - |o.payload|, end)) == Step(r, next)
    ensures var rest := RangesFrom(parse, next, sample, end);
            RangesFrom(parse, st, sample, pos) == if rest.Failed? then Failed else Step(r + rest.ranges, rest.st)
  {
    Obu.UnitInData(a, o, sample, pos, end);
  }

  /** A sample that is one frame OBU, of type 6: behind as many bytes as the parser says is a group, whose tiles are
      found.
    */
  lemma FrameBack(parse: HeaderParser, st: State, o: Obu.OBU, x: seq<byte>, h: seq<byte>, data: seq<seq<byte>>,
                  fh: FrameHeader, start: nat, end: nat) returns (s: seq<TileRange>)
    requires Obu.PrintableUnit(o) && o.header.typ == 6
    requires parse(st.calls, Call(o.header.temporalId, o.header.spatialId, o.payload)) == Some(fh)
    requires !fh.showExistingFrame && |x| == fh.headerBytes && fh.NumTiles() > 0 && data != []
    requires Sizable(data, fh.tileSizeBytes) && start + |data| == end + 1
    requires HeaderOf(h, fh.NumTiles(), fh.tileColsLog2 + fh.tileRowsLog2, start, end)
    requires o.payload == x + (h + TileBytes(data, 0, fh.tileSizeBytes))
    ensures var next := After(st, Call(o.header.temporalId, o.header.spatialId, o.payload), fh);
            RangesFrom(parse, st, Obu.Encoded(o), 0) == Step(s, next)
    ensures Holds(Obu.Encoded(o), s, data, 0)
  {
    hide HeaderOf, TileBytes, Holds, GroupAt, Obu.Encoded, Sizable, Obu.UnitAt;
    var sample, n := Obu.Encoded(o), |o.payload|;
    var hi, lo := |sample|, |sample| - n;
    assert [] + sample == sample;
    Obu.UnitInData([], o, sample, 0, hi);
    var from := lo + |x|;
    TailOf(sample, lo, hi, x, h + TileBytes(data, 0, fh.tileSizeBytes), from);
    s := GroupThere(sample, from, hi, h, data, fh, start, end);
    var next := After(st, Call(o.header.temporalId, o.header.spatialId, o.payload), fh);
    OneUnit(parse, st, [], o, sample, 0, hi, s, next);
    assert s + [] == s;
  }

  lemma TailOf(sample: seq<byte>, lo: nat, hi: nat, x: seq<byte>, y: seq<byte>, from: nat)
    requires lo <= hi <= |sample| && sample[lo..hi] == x + y && from == lo + |x|
    ensures from <= hi && sample[from..hi] == y
  {
    assert sample[from..hi] == sample[lo..hi][|x|..];
  }

  /** A sample of a frame header, of type 3 or 7, and a tile group, of type 4, whose tiles are found. */
  lemma HeaderAndGroupBack(parse: HeaderParser, st: State, o: Obu.OBU, g: Obu.OBU, h: seq<byte>, data: seq<seq<byte>>,
                           fh: FrameHeader, start: nat, end: nat) returns (s: seq<TileRange>)
    requires Obu.PrintableUnit(o) && Obu.PrintableUnit(g) && o.header.typ in {3, 7} && g.header.typ == 4
    requires parse(st.calls, Call(o.header.temporalId, o.header.spatialId, o.payload)) == Some(fh)
    requires !fh.showExistingFrame && fh.NumTiles() > 0 && data != []
    requires Sizable(data, fh.tileSizeBytes) && start + |data| == end + 1
    requires HeaderOf(h, fh.NumTiles(), fh.tileColsLog2 + fh.tileRowsLog2, start, end)
    requires g.payload == h + TileBytes(data, 0, fh.tileSizeBytes)
    ensures var next := After(st, Call(o.header.temporalId, o.header.spatialId, o.payload), fh);
            RangesFrom(parse, st, Obu.Encoded(o) + Obu.Encoded(g), 0) == Step(s, next)
    ensures Holds(Obu.Encoded(o) + Obu.Encoded(g), s, data, 0)
  {
    hide HeaderOf, TileBytes, Holds, GroupAt, Obu.Encoded, Sizable, Obu.UnitAt, RangesFrom;
    var a, b := Obu.Encoded(o), Obu.Encoded(g);
    var sample := a + b;
    assert [] + a == a && a <= sample;
    Obu.UnitInData([], o, sample, 0, |a|);
    Obu.UnitInData(a, g, sample, |a|, |sample|);
    s := GroupThere(sample, |sample| - |g.payload|, |sample|, h, data, fh, start, end);
    var next := After(st, Call(o.header.temporalId, o.header.spatialId, o.payload), fh);
    OneUnit(parse, st, [], o, sample, 0, |a|, [], next);
    OneUnit(parse, next, a, g, sample, |a|, |sample|, s, next);
    AtEnd(parse, next, sample);
    assert s + [] == s && [] + s == s;
  }

  lemma AtEnd(parse: HeaderParser, st: State, sample: seq<byte>)
    ensures RangesFrom(parse, st, sample, |sample|) == Step([], st)
  {
  }

  lemma InOrderShifted(r: seq<TileRange>, n: nat, base: nat, s: seq<TileRange>, hi: nat)
    requires InOrder(r, 0, n) && s == Shifted(r, base) && hi == base + n
    ensures InOrder(s, base, hi)
  {
    forall i | 0 <= i < |s| ensures InOrderAt(s, base, hi, i) {
      assert InOrderAt(r, 0, n, i);
    }
  }

  lemma InOrderJoin(a: seq<TileRange>, b: seq<TileRange>, s: seq<TileRange>, lo: nat, mid: nat, mid': nat, hi: nat)
    requires InOrder(a, lo, mid) && InOrder(b, mid', hi) && mid <= mid' && s == a + b
    ensures InOrder(s, lo, hi)
  {
    forall i | 0 <= i < |s| ensures InOrderAt(s, lo, hi, i) {
      if i < |a| {
        assert InOrderAt(a, lo, mid, i);
      } else {
        assert InOrderAt(b, mid', hi, i - |a|);
        if i == |a| > 0 {
          assert InOrderAt(a, lo, mid, i - 1);
        }
      }
    }
  }

  lemma GroupInOrder(sample: seq<byte>, lo: nat, hi: nat, fh: FrameHeader)
    requires lo <= hi <= |sample| && GroupAt(sample, lo, hi, fh).Some?
    ensures InOrder(GroupAt(sample, lo, hi, fh).value, lo, hi)
  {
    var tg := sample[lo..hi];
    var g := GroupHeader(tg, fh.NumTiles(), fh.tileColsLog2 + fh.tileRowsLog2).value;
    var r := GroupRanges(tg, fh).value;
    TilesExhaust(tg, g.pos, g.start, g.end, fh.tileSizeBytes);
    forall i | 0 <= i < |r| ensures InOrderAt(r, 0, |tg|, i) {
      assert InOrderAt(r, g.pos, |tg|, i);
    }
    InOrderShifted(r, |tg|, lo, Shifted(r, lo), hi);
  }

  lemma WiderOrder(r: seq<TileRange>, lo: nat, lo': nat, hi: nat)
    requires InOrder(r, lo, hi) && lo' <= lo
    ensures InOrder(r, lo', hi)
  {
    forall i | 0 <= i < |r| ensures InOrderAt(r, lo', hi, i) {
      assert InOrderAt(r, lo, hi, i);
    }
  }

  /** The body of the loop for one OBU. */
  method ReadUnitTiles(d: FrameHeaderDecoder, sample: seq<byte>, u: Obu.Unit)
    returns (ok: bool, ranges: seq<TileRange>)
    requires d.Valid() && u.start <= u.end <= |sample|
    modifies d
    ensures d.Valid()
    ensures !ok ==> UnitStep(d.parse, old(d.Now()), sample, u) == Failed
    ensures ok ==> UnitStep(d.parse, old(d.Now()), sample, u) == Step(ranges, d.Now())
    ensures ok ==> InOrder(ranges, u.start, u.end)
  {
    hide InOrderAt, GroupRanges, Tiles;
    var payload := sample[u.start..u.end];
    ranges := [];
    if u.header.typ == OBU_TILE_GROUP {
      if d.lastFrameHeader.None? {
        return false, [];
      }
      ok, ranges := ReadGroup(sample, u.start, u.end, d.lastFrameHeader.value);
    } else if u.header.typ == OBU_FRAME {
      var fh := d.ParseFrameHeader(u.header.temporalId, u.header.spatialId, payload);
      if fh.None? {
        return false, [];
      }
      ok := true;
      if !fh.value.showExistingFrame {
        ok, ranges := ReadGroup(sample, u.start + fh.value.headerBytes, u.end, fh.value);
        if ok {
          WiderOrder(ranges, u.start + fh.value.headerBytes, u.start, u.end);
        }
      }
    } else if u.header.typ == OBU_FRAME_HEADER || u.header.typ == OBU_REDUNDANT_FRAME_HEADER {
      var fh := d.ParseFrameHeader(u.header.temporalId, u.header.spatialId, payload);
      ok := fh.Some?;
    } else {
      ok := true;
    }
  }

  /** The tile group in sample[lo..hi]. */
  method ReadGroup(sample: seq<byte>, lo: nat, hi: nat, fh: FrameHeader) returns (ok: bool, ranges: seq<TileRange>)
    requires fh.Valid() && lo <= hi <= |sample|
    ensures ok == GroupAt(sample, lo, hi, fh).Some?
    ensures ok ==> Some(ranges) == GroupAt(sample, lo, hi, fh) && InOrder(ranges, lo, hi)
  {
    var tiles := TileGroupRanges(sample[lo..hi], fh);
    if tiles.None? {
      return false, [];
    }
    GroupInOrder(sample, lo, hi, fh);
    ranges := [];
    var k := 0;
    while k < |tiles.value|
      invariant k <= |tiles.value| && ranges == Shifted(tiles.value, lo)[..k]
    {
      ranges := ranges + [TileRange(lo + tiles.value[k].offset, tiles.value[k].length)];
      k := k + 1;
    }
    assert Shifted(tiles.value, lo)[..k] == Shifted(tiles.value, lo);
    ok := true;
  }

  lemma FindMore(goal: Step, ranges: seq<TileRange>, r: seq<TileRange>, rest: Step)
    requires Finding(goal, ranges, if rest.Failed? then Failed else Step(r + rest.ranges, rest.st))
    ensures Finding(goal, ranges + r, rest)
  {
    if rest.Step? {
      assert ranges + (r + rest.ranges) == ranges + r + rest.ranges;
    }
  }

  /** GetTileRanges: the tiles of all groups of the sample, in order, apart from each other and within it. */
  method GetTileRanges(d: FrameHeaderDecoder, sample: seq<byte>) returns (r: Option<seq<TileRange>>)
    requires d.Valid()
    modifies d
    ensures d.Valid()
    ensures var goal := RangesFrom(d.parse, old(d.Now()), sample, 0);
            if r.None? then goal.Failed? else goal == Step(r.value, d.Now())
    ensures r.Some? ==> InOrder(r.value, 0, |sample|)
  {
    var ranges: seq<TileRange>, pos: nat := [], 0;
    ghost var goal := RangesFrom(d.parse, d.Now(), sample, 0);
    assert goal.Step? ==> [] + goal.ranges == goal.ranges;
    while pos < |sample|
      invariant pos <= |sample| && d.Valid() && InOrder(ranges, 0, pos)
      invariant Finding(goal, ranges, RangesFrom(d.parse, d.Now(), sample, pos))
      decreases |sample| - pos
    {
      var u := Obu.ReadUnit(sample, pos);
      if u.Err? {
        return None;
      }
      var ok, more := ReadUnitTiles(d, sample, u.value);
      if !ok {
        return None;
      }
      FindMore(goal, ranges, more, RangesFrom(d.parse, d.Now(), sample, u.value.end));
      InOrderJoin(ranges, more, ranges + more, 0, pos, u.value.start, u.value.end);
      ranges := ranges + more;
      pos := u.value.end;
    }
    assert ranges + [] == ranges;
    return Some(ranges);
  }

  /** What GetAV1ProtectRanges asks for. */
  lemma {:induction false} InOrderIsOrdered(r: seq<TileRange>, n: nat, k: nat)
    requires InOrder(r, 0, n) && k <= |r|
    ensures Ordered(r, k) && TilesEnd(r, k) <= n
  {
    if k > 0 {
      InOrderIsOrdered(r, n, k - 1);
      assert InOrderAt(r, 0, n, k - 1);
    }
  }

  /** GetAV1ProtectRanges: the patterns cover the sample exactly, and the protected bytes are those that TileMask names,
      of each tile the leading whole blocks for cenc and all bytes for cbcs.
    */
  method GetAV1ProtectRanges(d: FrameHeaderDecoder, sample: seq<byte>, scheme: string)
    returns (r: Option<seq<Pattern>>, ghost tiles: seq<TileRange>)
    requires d.Valid() && |sample| < 0x1_0000_0000
    modifies d
    ensures d.Valid()
    ensures scheme != "cenc" && scheme != "cbcs" ==> r.None?
    ensures scheme == "cenc" || scheme == "cbcs" ==>
              r.None? == RangesFrom(d.parse, old(d.Now()), sample, 0).Failed?
    ensures r.Some? ==>
              && RangesFrom(d.parse, old(d.Now()), sample, 0) == Step(tiles, d.Now()) && Ordered(tiles, |tiles|)
              && TilesEnd(tiles, |tiles|) <= |sample| && r.value != []
              && Mask(r.value, |r.value|)
                 == TileMask(scheme, tiles, |tiles|) + Repeat(false, |sample| - TilesEnd(tiles, |tiles|))
              && Total(r.value) == |sample|
    ensures r.Some? && scheme == "cenc" ==> WholeBlocksOnly(r.value)
  {
    tiles := [];
    if scheme != "cenc" && scheme != "cbcs" {
      return None, [];
    }
    var ranges := GetTileRanges(d, sample);
    if ranges.None? {
      return None, [];
    }
    tiles := ranges.value;
    InOrderIsOrdered(tiles, |sample|, |tiles|);
    r := ProtectTiles(scheme, ranges.value, |sample|);
    MaskIsCovered(r.value, |r.value|);
    if tiles != [] {
      TileMaskAt(scheme, tiles, |tiles|, 0);
    }
  }
}
