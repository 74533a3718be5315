/** tile_info of the AV1 frame header (av1/frameheader.go; sections 5.9.15 and 4.10.7 of the AV1 specification). */
module Av1TileInfo {
  import opened BitStrings
  import opened Golomb
  import opened BitReader

  const MAX_TILE_WIDTH: nat := 4096
  const MAX_TILE_AREA: nat := 4096 * 2304
  const MAX_TILE_COLS: nat := 64
  const MAX_TILE_ROWS: nat := 64

  // ----- small arithmetic -----

  function Max(a: int, b: int): int {
    if a > b then a else b
  }

  method FloorLog2Loop(x: nat) returns (r: int)
    ensures x == 0 ==> r == -1
    ensures x > 0 ==> r == FloorLog2(x)
  {
    var y: nat, s: nat := x, 0;
    while y != 0
      invariant x > 0 && y > 0 ==> s + FloorLog2(y) == FloorLog2(x)
      invariant x > 0 && y == 0 ==> s - 1 == FloorLog2(x)
      invariant x == 0 ==> y == 0 && s == 0
      decreases y
    {
      y := y / 2;
      s := s + 1;
    }
    r := s - 1;
  }

  /** The smallest k for which x << k reaches the target. */
  function TileLog(x: nat, target: nat): (k: nat)
    requires x > 0
    ensures Shl(x, k) >= target
    ensures k > 0 ==> Shl(x, k - 1) < target
    decreases target - x
  {
    if x >= target then 0
    else
      ShlFirst(x, TileLog(2 * x, target));
      1 + TileLog(2 * x, target)
  }

  lemma {:induction false} ShlFirst(x: nat, k: nat)
    ensures Shl(x, k + 1) == Shl(2 * x, k)
    ensures k > 0 ==> Shl(x, k) == Shl(2 * x, k - 1)
  {
    if k > 0 {
      ShlFirst(x, k - 1);
    }
  }

  /** No smaller k will do, and any other one is too large. */
  lemma TileLogLeast(x: nat, target: nat, k: nat)
    requires x > 0 && Shl(x, k) >= target
    ensures TileLog(x, target) <= k
    ensures k > 0 && Shl(x, k - 1) < target ==> TileLog(x, target) == k
  {
    var l := TileLog(x, target);
    if l > k {
      ShlGrows(x, k, l - 1);
    } else if l < k {
      ShlGrows(x, l, k - 1);
    }
  }

  method TileLog2(blkSize: nat, target: nat) returns (k: nat)
    requires blkSize > 0
    ensures k == TileLog(blkSize, target)
  {
    k := 0;
    while Shl(blkSize, k) < target
      invariant k > 0 ==> Shl(blkSize, k - 1) < target
      invariant Shl(blkSize, k) > 0
      decreases target - Shl(blkSize, k)
    {
      k := k + 1;
    }
    TileLogLeast(blkSize, target, k);
  }

  function CeilDiv(a: nat, b: nat): nat {
    if b == 0 then 0 else (a + b - 1) / b
  }

  lemma CeilDivBounds(a: nat, b: nat, c: nat)
    requires b > 0 && c == CeilDiv(a, b)
    ensures c * b >= a && (a > 0 ==> c > 0 && (c - 1) * b < a)
  {
    var x := a + b - 1;
    assert x == c * b + x % b;
    Distribute(c, -1, b);
  }

  lemma CeilDivAtMost(a: nat, b: nat, c: nat, m: nat)
    requires b > 0 && c == CeilDiv(a, b) && a <= m * b
    ensures c <= m
  {
    CeilDivBounds(a, b, c);
    if c > m {
      Distribute(c - 1 - m, m, b);
      if c - 1 > m {
        AtLeastOnce(c - 1 - m, b);
      }
    }
  }

  // ----- what reading gives -----

  /** A value and the bits that follow it, or too few bits. */
  datatype Parsed<+T> = NoBits | Got(value: T, rest: Bits)

  /** From the bits s a reader, which had failed before if bad, got value, as parse says. */
  ghost predicate Gives<T>(r: Reader, bad: bool, parse: Parsed<T>, value: T)
    requires r.rdPos <= |r.src|
    reads r
  {
    && (bad ==> r.err)
    && (!bad ==> (r.err <==> parse.NoBits?))
    && (!r.err ==> parse == Got(value, r.Rest()))
  }

  // ----- ns(n) -----

  /** The code of x < n: floor(log2 n) bits, and one more for the larger values. */
  function NsBits(n: nat, x: nat): Bits {
    if n <= 1 then []
    else
      var l := FloorLog2(n);
      FloorLog2Bounds(n);
      var m: nat := 2 * Pow2(l) - n;
      if x < m then BitsOf(x, l) else BitsOf((x + m) / 2, l) + [(x + m) % 2 == 1]
  }

  /** What ns(n) reads at the start of s; l is floor(log2 n). */
  predicate HasNs(n: nat, l: nat, s: Bits) {
    n <= 1 || (l <= |s| && (Val(s[..l]) < 2 * Pow2(l) - n || l < |s|))
  }

  function NsUsed(n: nat, l: nat, s: Bits): nat
    requires HasNs(n, l, s)
  {
    if n <= 1 then 0 else if Val(s[..l]) < 2 * Pow2(l) - n then l else l + 1
  }

  function NsValue(n: nat, l: nat, s: Bits): int
    requires HasNs(n, l, s)
  {
    if n <= 1 then 0
    else
      var v, m := Val(s[..l]), 2 * Pow2(l) - n;
      if v < m then v else 2 * v - m + (if s[l] then 1 else 0)
  }

  lemma NsPrefix(v: nat, l: nat, s: Bits, tail: Bits)
    requires v < Pow2(l) && s == BitsOf(v, l) + tail
    ensures Val(s[..l]) == v
  {
    assert s[..l] == BitsOf(v, l);
    ValBitsOf(v, l);
    LowSmall(v, l);
  }

  /** ns(n) parses back every value below n, whatever follows it. */
  lemma NsParses(n: nat, l: nat, x: nat, tail: Bits)
    requires n > 0 && l == FloorLog2(n) && x < n
    ensures HasNs(n, l, NsBits(n, x) + tail)
    ensures NsValue(n, l, NsBits(n, x) + tail) == x
    ensures NsUsed(n, l, NsBits(n, x) + tail) == |NsBits(n, x)|
  {
    if n > 1 {
      FloorLog2Bounds(n);
      var m, s := 2 * Pow2(l) - n, NsBits(n, x) + tail;
      if x < m {
        NsPrefix(x, l, s, tail);
      } else {
        var v := (x + m) / 2;
        assert s == BitsOf(v, l) + ([(x + m) % 2 == 1] + tail);
        NsPrefix(v, l, s, [(x + m) % 2 == 1] + tail);
      }
    }
  }

  function ParseNs(s: Bits, n: nat): (p: Parsed<nat>)
    requires n > 0
    ensures p.Got? ==> p.value < n
  {
    var l := FloorLog2(n);
    FloorLog2Bounds(n);
    if HasNs(n, l, s) then
      assert n == 1 ==> l == 0;
      ValBound(s[..l]);
      Got(NsValue(n, l, s), s[NsUsed(n, l, s)..])
    else NoBits
  }

  /** ns(n) parses back every value below n, whatever follows it. */
  lemma NsBack(n: nat, x: nat, tail: Bits, s: Bits)
    requires x < n && s == NsBits(n, x) + tail
    ensures ParseNs(s, n) == Got(x, tail)
  {
    NsParses(n, FloorLog2(n), x, tail);
  }

  /** Reads ns(n): always a value below n, also after a read error. */
  method ReadNS(r: Reader, n: nat) returns (x: nat)
    requires r.Valid() && n < 0x1_0000_0000
    modifies r
    ensures r.Valid() && (old(r.err) ==> r.err)
    ensures x < n || (n == 0 && x == 0)
    ensures n > 0 ==> Gives(r, old(r.err), ParseNs(old(r.Rest()), n), x)
  {
    hide Val;
    if n <= 1 {
      assert old(r.Rest())[0..] == old(r.Rest());
      return 0;
    }
    var l := FloorLog2Loop(n);
    ghost var rest, bad := r.Rest(), r.err;
    SmallLog(n, l);
    var w: nat := l + 1;
    var m := Pow2(w) - n;
    var v := r.Read(w - 1);
    assert v < Pow2(l) by {
      if !r.err {
        ValBound(rest[..l]);
      }
    }
    if v < m {
      return v;
    }
    var extraBit := r.ReadFlag();
    x := 2 * v - m + (if extraBit then 1 else 0);
    assert !r.err ==> rest[l..][0] == rest[l] && rest[l..][1..] == rest[l + 1..];
  }

  lemma SmallLog(n: nat, l: nat)
    requires 0 < n < 0x1_0000_0000 && l == FloorLog2(n)
    ensures l < 32 && Pow2(l) <= n < 2 * Pow2(l)
  {
    FloorLog2Bounds(n);
    Pow2Known();
    if l >= 32 {
      Pow2Mono(32, l);
    }
  }

  // ----- uniform spacing -----

  /** The one bits at the start of s, up to limit; a zero bit ends them before. */
  function ParseLog2(s: Bits, limit: nat): (p: Parsed<nat>)
    ensures p.Got? ==> p.value <= limit
  {
    if limit == 0 then Got(0, s)
    else if s == [] then NoBits
    else if s[0] then Plus(1, ParseLog2(s[1..], limit - 1))
    else Got(0, s[1..])
  }

  function Plus(j: nat, p: Parsed<nat>): Parsed<nat> {
    if p.NoBits? then NoBits else Got(j + p.value, p.rest)
  }

  function Log2Bits(k: nat, limit: nat): Bits
    requires k <= limit
  {
    if limit == 0 then [] else if k == 0 then [false] else [true] + Log2Bits(k - 1, limit - 1)
  }

  lemma {:induction false} Log2Back(k: nat, limit: nat, tail: Bits, s: Bits)
    requires k <= limit && s == Log2Bits(k, limit) + tail
    ensures ParseLog2(s, limit) == Got(k, tail)
  {
    if limit == 0 {
      assert s == tail;
    } else if k == 0 {
      assert s[1..] == tail;
    } else {
      Log2Back(k - 1, limit - 1, tail, s[1..]);
    }
  }

  /** increment_tile_cols_log2 or increment_tile_rows_log2, as often as allowed. */
  method ReadLog2(r: Reader, min: nat, max: nat) returns (k: nat)
    requires r.Valid()
    modifies r
    ensures r.Valid() && (old(r.err) ==> r.err)
    ensures min <= k && (k == min || k <= max)
    ensures Gives(r, old(r.err), ParseLog2(old(r.Rest()), Excess(min, max)), k - min)
  {
    k := min;
    ghost var goal, bad := ParseLog2(r.Rest(), Excess(min, max)), r.err;
    while k < max
      invariant min <= k && (k == min || k <= max) && r.Valid()
      invariant if bad then r.err else !r.err && goal == Plus(k - min, ParseLog2(r.Rest(), Excess(k, max)))
    {
      var more := r.ReadFlag();
      if more {
        k := k + 1;
      } else {
        break;
      }
    }
  }

  function Excess(min: nat, max: nat): nat {
    if min < max then max - min else 0
  }

  /** (sb + (1 << k) - 1) >> k */
  function UniformSize(sb: nat, k: nat): nat {
    Shr(sb + Pow2(k) - 1, k)
  }

  lemma UniformSizeBounds(sb: nat, k: nat, t: nat)
    requires t == UniformSize(sb, k)
    ensures sb <= t * Pow2(k) < sb + Pow2(k)
  {
    var x := sb + Pow2(k) - 1;
    LowRest(x, k);
    LowBound(x, k);
    ShlIsProduct(t, k);
  }

  /** Uniform tiles cut sb superblocks into at most 2^k pieces of t each, the last one not longer, and t keeps a maximum
      that 2^min tiles could keep.
    */
  lemma UniformTiles(sb: nat, k: nat, t: nat, n: nat, min: nat, maxSb: nat)
    requires t == UniformSize(sb, k) && n == CeilDiv(sb, t) && min <= k && Shl(maxSb, min) >= sb
    ensures n <= Pow2(k) && n * t >= sb && t <= maxSb
    ensures sb > 0 ==> n > 0 && (n - 1) * t < sb
  {
    UniformSizeBounds(sb, k, t);
    ShlGrows(maxSb, min, k);
    ShlIsProduct(maxSb, k);
    Distribute(maxSb, 1, Pow2(k));
    LessByProduct(t, maxSb + 1, Pow2(k));
    if t > 0 {
      CeilDivBounds(sb, t, n);
      CeilDivAtMost(sb, t, n, Pow2(k));
    }
  }

  lemma LessByProduct(a: nat, b: nat, p: nat)
    requires a * p < b * p
    ensures a < b
  {
  }

  lemma {:induction false} ShlGrows(x: nat, m: nat, n: nat)
    requires m <= n
    ensures Shl(x, m) <= Shl(x, n)
  {
    if m < n {
      ShlGrows(x, m, n - 1);
    }
  }

  // ----- explicit sizes -----

  function Sum(s: seq<nat>): nat {
    if s == [] then 0 else Sum(s[..|s| - 1]) + s[|s| - 1]
  }

  function Largest(s: seq<nat>): nat {
    if s == [] then 0
    else if s[|s| - 1] > Largest(s[..|s| - 1]) then s[|s| - 1] else Largest(s[..|s| - 1])
  }

  /** The sizes are positive, at most max, and add up to sb. */
  ghost predicate Cuts(sizes: seq<nat>, max: nat, sb: nat) {
    Sum(sizes) == sb && forall i :: 0 <= i < |sizes| ==> 1 <= sizes[i] <= max
  }

  /** Sizes until sb superblocks are used up. */
  function ParseSizes(s: Bits, sb: nat, max: nat): Parsed<seq<nat>>
    requires 0 < max
  {
    if sb == 0 then Got([], s)
    else
      var x := ParseNs(s, Min(sb, max));
      if x.NoBits? then NoBits else Prepend([x.value + 1], ParseSizes(x.rest, sb - (x.value + 1), max))
  }

  function Prepend(sizes: seq<nat>, p: Parsed<seq<nat>>): Parsed<seq<nat>> {
    if p.NoBits? then NoBits else Got(sizes + p.value, p.rest)
  }

  lemma SizesStep(goal: Parsed<seq<nat>>, sizes: seq<nat>, s: Bits, sb: nat, max: nat, x: Parsed<nat>)
    requires 0 < max && 0 < sb && x == ParseNs(s, Min(sb, max)) && goal == Prepend(sizes, ParseSizes(s, sb, max))
    ensures x.NoBits? ==> goal.NoBits?
    ensures x.Got? ==> goal == Prepend(sizes + [x.value + 1], ParseSizes(x.rest, sb - (x.value + 1), max))
  {
    hide ParseNs;
    if x.Got? {
      var p := ParseSizes(x.rest, sb - (x.value + 1), max);
      assert p.Got? ==> sizes + ([x.value + 1] + p.value) == sizes + [x.value + 1] + p.value;
    }
  }

  /** width_in_sbs_minus_1 or height_in_sbs_minus_1 until sb superblocks are used up: ends for any bits, and after a
      read error too.
    */
  method ReadSizes(r: Reader, sb: nat, max: nat) returns (count: nat, widest: nat, ghost sizes: seq<nat>)
    requires r.Valid() && 0 < max && sb < 0x1_0000_0000
    modifies r
    ensures r.Valid() && (old(r.err) ==> r.err)
    ensures count == |sizes| && Cuts(sizes, max, sb) && widest == Largest(sizes)
    ensures Gives(r, old(r.err), ParseSizes(old(r.Rest()), sb, max), sizes)
  {
    hide ParseNs, Val, BitsOf, ToBits, NsBits;
    count, widest, sizes := 0, 0, [];
    var startSb := 0;
    ghost var goal, bad := ParseSizes(r.Rest(), sb, max), r.err;
    assert goal == Prepend([], goal) by {
      assert goal.Got? ==> [] + goal.value == goal.value;
    }
    while startSb < sb
      invariant startSb <= sb && r.Valid() && (bad ==> r.err)
      invariant count == |sizes| && Cuts(sizes, max, startSb) && widest == Largest(sizes)
      invariant !bad ==> if r.err then goal.NoBits? else goal == Prepend(sizes, ParseSizes(r.Rest(), sb - startSb, max))
    {
      ghost var rest := r.Rest();
      if !r.err {
        SizesStep(goal, sizes, rest, sb - startSb, max, ParseNs(rest, Min(sb - startSb, max)));
      }
      var limit := if sb - startSb < max then sb - startSb else max;
      var x := ReadNS(r, limit);
      var size := x + 1;
      if size > widest {
        widest := size;
      }
      startSb := startSb + size;
      ghost var more := sizes + [size];
      assert more[..|sizes|] == sizes;
      sizes := more;
      count := count + 1;
    }
    assert sizes + [] == sizes;
  }

  // ----- the whole of tile_info -----

  datatype TileLayout = TileLayout(cols: nat, rows: nat, colsLog2: nat, rowsLog2: nat, contextUpdateTileId: nat,
                                   tileSizeBytes: nat)

  /** The number of superblocks for so many pixels. */
  function Superblocks(use128: bool, pixels: nat): nat {
    var mi := 2 * ((pixels + 7) / 8);
    if use128 then (mi + 31) / 32 else (mi + 15) / 16
  }

  function MaxWidthSb(use128: bool): (m: nat)
    ensures m > 0
  {
    if use128 then MAX_TILE_WIDTH / 128 else MAX_TILE_WIDTH / 64
  }

  function MaxAreaSb(use128: bool): (m: nat)
    ensures m > 0
  {
    if use128 then MAX_TILE_AREA / (128 * 128) else MAX_TILE_AREA / (64 * 64)
  }

  /** The size of a frame in superblocks, and the limits that follow from it. */
  datatype Frame = Frame(sbCols: nat, sbRows: nat, maxWidth: nat, minCols: nat, maxCols: nat, maxRows: nat,
                         minTiles: nat)
  {
    function MinRows(colsLog2: nat): nat {
      Max(minTiles - colsLog2, 0)
    }

    function MaxHeight(widest: nat): nat {
      var area2 := if minTiles > 0 then Shr(sbRows * sbCols, minTiles + 1) else sbRows * sbCols;
      Max(area2 / Max(widest, 1), 1)
    }

    predicate Valid() {
      && sbCols < 0x800_0000 && sbRows < 0x800_0000 && maxWidth > 0 && Shl(maxWidth, minCols) >= sbCols
      && minCols <= 27 && maxCols <= 27 && maxRows <= 27 && minTiles <= 54
    }
  }

  function FrameOf(use128: bool, sbCols: nat, sbRows: nat): Frame {
    var minCols := TileLog(MaxWidthSb(use128), sbCols);
    Frame(sbCols, sbRows, MaxWidthSb(use128), minCols, TileLog(1, Min(sbCols, MAX_TILE_COLS)),
          TileLog(1, Min(sbRows, MAX_TILE_ROWS)), Max(minCols, TileLog(MaxAreaSb(use128), sbRows * sbCols)))
  }

  /** The superblocks of 64 or 128 pixels cover the frame, and none is superfluous. */
  lemma SuperblocksCover(use128: bool, pixels: nat, side: nat, n: nat)
    requires side == (if use128 then 128 else 64) && n == Superblocks(use128, pixels)
    ensures side * n >= pixels && (pixels > 0 ==> n > 0 && side * (n - 1) < pixels)
  {
  }

  /** The limits in pixels: no tile is wider than 4096 or larger than 4096 * 2304, and there are at most 64 columns and
      64 rows; each logarithm is the least that will do.
    */
  lemma FrameLimits(use128: bool, sbCols: nat, sbRows: nat, side: nat, f: Frame, area: nat)
    requires side == (if use128 then 128 else 64) && f == FrameOf(use128, sbCols, sbRows)
    requires area * side * side == 4096 * 2304
    ensures f.sbCols == sbCols && f.sbRows == sbRows && f.maxWidth * side == 4096
    ensures LeastShift(f.maxWidth, sbCols, f.minCols)
    ensures LeastShift(1, Min(sbCols, 64), f.maxCols) && LeastShift(1, Min(sbRows, 64), f.maxRows)
    ensures f.minTiles == f.minCols || LeastShift(area, sbRows * sbCols, f.minTiles)
    ensures f.minTiles >= f.minCols && Shl(area, f.minTiles) >= sbRows * sbCols
  {
    hide TileLog, Shl;
    assert area == MaxAreaSb(use128);
    var k := TileLog(area, sbRows * sbCols);
    assert Shl(area, k) >= sbRows * sbCols;
    if f.minTiles > k {
      ShlGrows(area, k, f.minTiles);
    }
  }

  /** k is the least number for which x << k reaches the target. */
  predicate LeastShift(x: nat, target: nat, k: nat) {
    Shl(x, k) >= target && (k > 0 ==> Shl(x, k - 1) < target)
  }

  /** The logarithms of columns and rows have to add up to minTiles. */
  lemma RowsForColumns(f: Frame, colsLog2: nat)
    ensures colsLog2 + f.MinRows(colsLog2) >= f.minTiles
    ensures f.MinRows(colsLog2) > 0 ==> colsLog2 + f.MinRows(colsLog2) == f.minTiles
  {
  }

  /** The greatest height, at least 1, for which a tile of the given width is at most one 2^(minTiles + 1)-th of the
      frame, or the whole frame where minTiles is 0.
    */
  lemma HeightForWidth(f: Frame, widest: nat, h: nat, share: nat)
    requires widest > 0 && h == f.MaxHeight(widest)
    requires share == (if f.minTiles > 0 then f.sbRows * f.sbCols / Pow2(f.minTiles + 1) else f.sbRows * f.sbCols)
    ensures h >= 1 && (h == 1 || h * widest <= share) && share < (h + 1) * widest
  {
    hide Shr, Pow2;
    ShrIsQuotient(f.sbRows * f.sbCols, f.minTiles + 1);
    var q := share / widest;
    assert share == q * widest + share % widest;
    Distribute(q, 1, widest);
    if q == 0 {
      assert (h + 1) * widest == 2 * widest;
    }
  }

  /** Tiles of equal size: the number for 2^k at most. */
  function UniformCount(sb: nat, k: nat): nat {
    CeilDiv(sb, UniformSize(sb, k))
  }

  function UniformTileLayout(f: Frame, colsLog2: nat, rowsLog2: nat): TileLayout {
    TileLayout(UniformCount(f.sbCols, colsLog2), UniformCount(f.sbRows, rowsLog2), colsLog2, rowsLog2, 0, 1)
  }

  function ExplicitTileLayout(widths: seq<nat>, heights: seq<nat>): TileLayout {
    TileLayout(|widths|, |heights|, TileLog(1, |widths|), TileLog(1, |heights|), 0, 1)
  }

  function ParseUniform(s: Bits, f: Frame): Parsed<TileLayout> {
    var c := ParseLog2(s, Excess(f.minCols, f.maxCols));
    if c.NoBits? then NoBits
    else
      var colsLog2 := f.minCols + c.value;
      var d := ParseLog2(c.rest, Excess(f.MinRows(colsLog2), f.maxRows));
      if d.NoBits? then NoBits else Got(UniformTileLayout(f, colsLog2, f.MinRows(colsLog2) + d.value), d.rest)
  }

  function ParseExplicit(s: Bits, f: Frame): Parsed<TileLayout>
    requires f.maxWidth > 0
  {
    var w := ParseSizes(s, f.sbCols, f.maxWidth);
    if w.NoBits? then NoBits
    else
      var h := ParseSizes(w.rest, f.sbRows, f.MaxHeight(Largest(w.value)));
      if h.NoBits? then NoBits else Got(ExplicitTileLayout(w.value, h.value), h.rest)
  }

  /** context_update_tile_id and tile_size_bytes_minus_1, where there is more than one tile. */
  function ParseTail(s: Bits, t: TileLayout): Parsed<TileLayout> {
    var k := t.rowsLog2 + t.colsLog2;
    if k == 0 then Got(t, s)
    else if |s| < k + 2 then NoBits
    else Got(t.(contextUpdateTileId := Val(s[..k]), tileSizeBytes := Val(s[k..][..2]) + 1), s[k..][2..])
  }

  function ParseLayout(s: Bits, f: Frame): Parsed<TileLayout>
    requires f.maxWidth > 0
  {
    if s == [] then NoBits else if s[0] then ParseUniform(s[1..], f) else ParseExplicit(s[1..], f)
  }

  /** tile_info at the start of s. */
  function ParseTileInfo(s: Bits, f: Frame): Parsed<TileLayout>
    requires f.maxWidth > 0
  {
    var t := ParseLayout(s, f);
    if t.NoBits? then NoBits else ParseTail(t.rest, t.value)
  }

  // ----- layouts are parsed back -----

  /** The sizes from i on can be written one after the other. */
  predicate Runs(sizes: seq<nat>, i: nat, sb: nat, max: nat)
    decreases |sizes| - i
  {
    if i >= |sizes| then i == |sizes| && sb == 0
    else 1 <= sizes[i] <= Min(sb, max) && Runs(sizes, i + 1, sb - sizes[i], max)
  }

  lemma {:induction false} CutsRun(sizes: seq<nat>, i: nat, sb: nat, max: nat)
    requires i <= |sizes| && Cuts(sizes, max, Sum(sizes)) && Sum(sizes[..i]) + sb == Sum(sizes)
    ensures Runs(sizes, i, sb, max)
    decreases |sizes| - i
  {
    if i < |sizes| {
      SumMore(sizes, i);
      CutsRun(sizes, i + 1, sb - sizes[i], max);
    } else {
      assert sizes[..i] == sizes;
    }
  }

  lemma {:induction false} SumMore(sizes: seq<nat>, i: nat)
    requires i < |sizes|
    ensures Sum(sizes[..i]) + sizes[i] == Sum(sizes[..i + 1]) <= Sum(sizes)
    decreases |sizes| - i
  {
    assert sizes[..i + 1][..i] == sizes[..i];
    if i + 1 < |sizes| {
      SumMore(sizes, i + 1);
    } else {
      assert sizes[..i + 1] == sizes;
    }
  }

  function SizesBits(sizes: seq<nat>, i: nat, sb: nat, max: nat): Bits
    requires Runs(sizes, i, sb, max)
    decreases |sizes| - i
  {
    if i >= |sizes| then [] else NsBits(Min(sb, max), sizes[i] - 1) + SizesBits(sizes, i + 1, sb - sizes[i], max)
  }

  lemma {:induction false} SizesBack(sizes: seq<nat>, i: nat, sb: nat, max: nat, tail: Bits, s: Bits)
    requires 0 < max && Runs(sizes, i, sb, max) && s == SizesBits(sizes, i, sb, max) + tail
    ensures ParseSizes(s, sb, max) == Got(sizes[i..], tail)
    decreases |sizes| - i
  {
    hide ParseNs, NsBits;
    if i == |sizes| {
      assert s == tail;
    } else {
      var n, more := Min(sb, max), SizesBits(sizes, i + 1, sb - sizes[i], max);
      var code := NsBits(n, sizes[i] - 1);
      SizesBack(sizes, i + 1, sb - sizes[i], max, tail, more + tail);
      FirstSize(s, n, sizes[i] - 1, code, more + tail, more, tail);
      assert [sizes[i]] + sizes[i + 1..] == sizes[i..];
    }
  }

  lemma FirstSize(s: Bits, n: nat, x: nat, code: Bits, rest: Bits, more: Bits, tail: Bits)
    requires x < n && code == NsBits(n, x) && s == code + more + tail && rest == more + tail
    ensures ParseNs(s, n) == Got(x, rest)
  {
    assert s == code + rest;
    NsBack(n, x, rest, s);
  }

  function TailBits(t: TileLayout): Bits {
    var k := t.rowsLog2 + t.colsLog2;
    if k == 0 then []
    else BitsOf(t.contextUpdateTileId, k) + BitsOf(if t.tileSizeBytes == 0 then 0 else t.tileSizeBytes - 1, 2)
  }

  /** The fields after the layout have a value that can be written, or the default one where they are not. */
  predicate TailFits(t: TileLayout) {
    var k := t.rowsLog2 + t.colsLog2;
    if k == 0 then t.contextUpdateTileId == 0 && t.tileSizeBytes == 1
    else t.contextUpdateTileId < Pow2(k) && 1 <= t.tileSizeBytes <= 4
  }

  lemma TailBack(t: TileLayout, u: TileLayout, tail: Bits, s: Bits)
    requires TailFits(t) && u == t.(contextUpdateTileId := 0, tileSizeBytes := 1) && s == TailBits(t) + tail
    ensures ParseTail(s, u) == Got(t, tail)
  {
    var k := t.rowsLog2 + t.colsLog2;
    if k == 0 {
      assert s == tail;
    } else {
      var two := BitsOf(t.tileSizeBytes - 1, 2);
      assert s == BitsOf(t.contextUpdateTileId, k) + (two + tail);
      NsPrefix(t.contextUpdateTileId, k, s, two + tail);
      assert s[k..] == two + tail;
      assert Pow2(2) == 4;
      NsPrefix(t.tileSizeBytes - 1, 2, s[k..], tail);
    }
  }

  /** The uniform layout t, after c and d increments of the minimal logarithms. */
  function UniformBits(f: Frame, c: nat, d: nat, t: TileLayout): Bits
    requires c <= Excess(f.minCols, f.maxCols) && d <= Excess(f.MinRows(f.minCols + c), f.maxRows)
  {
    [true] + (Log2Bits(c, Excess(f.minCols, f.maxCols))
              + (Log2Bits(d, Excess(f.MinRows(f.minCols + c), f.maxRows)) + TailBits(t)))
  }

  /** Every uniform layout that the increments can reach is parsed back. */
  lemma UniformBack(f: Frame, c: nat, d: nat, t: TileLayout, tail: Bits)
    requires f.maxWidth > 0 && TailFits(t)
    requires c <= Excess(f.minCols, f.maxCols) && d <= Excess(f.MinRows(f.minCols + c), f.maxRows)
    requires t.colsLog2 == f.minCols + c && t.rowsLog2 == f.MinRows(f.minCols + c) + d
    requires t.cols == UniformCount(f.sbCols, t.colsLog2) && t.rows == UniformCount(f.sbRows, t.rowsLog2)
    ensures ParseTileInfo(UniformBits(f, c, d, t) + tail, f) == Got(t, tail)
  {
    hide ParseLog2, Log2Bits, ParseTail, TailBits, UniformCount;
    var cols, rows := Log2Bits(c, Excess(f.minCols, f.maxCols)), Log2Bits(d, Excess(f.MinRows(t.colsLog2), f.maxRows));
    Regroup(true, cols, rows, TailBits(t), tail);
    Log2Back(c, Excess(f.minCols, f.maxCols), rows + (TailBits(t) + tail), (UniformBits(f, c, d, t) + tail)[1..]);
    Log2Back(d, Excess(f.MinRows(t.colsLog2), f.maxRows), TailBits(t) + tail, rows + (TailBits(t) + tail));
    TailBack(t, UniformTileLayout(f, t.colsLog2, t.rowsLog2), tail, TailBits(t) + tail);
  }

  lemma Regroup(b: bool, x: Bits, y: Bits, z: Bits, tail: Bits)
    ensures ([b] + (x + (y + z)) + tail)[1..] == x + (y + (z + tail))
  {
    assert [b] + (x + (y + z)) + tail == [b] + (x + (y + (z + tail)));
  }

  /** The layout t with explicit sizes. */
  function ExplicitBits(f: Frame, widths: seq<nat>, heights: seq<nat>, maxHeight: nat, t: TileLayout): Bits
    requires Runs(widths, 0, f.sbCols, f.maxWidth) && Runs(heights, 0, f.sbRows, maxHeight)
  {
    [false] + (SizesBits(widths, 0, f.sbCols, f.maxWidth) + (SizesBits(heights, 0, f.sbRows, maxHeight) + TailBits(t)))
  }

  /** Every layout with explicit sizes within the limits is parsed back. */
  lemma ExplicitBack(f: Frame, widths: seq<nat>, heights: seq<nat>, maxHeight: nat, t: TileLayout, tail: Bits)
    requires f.maxWidth > 0 && TailFits(t) && maxHeight == f.MaxHeight(Largest(widths))
    requires Runs(widths, 0, f.sbCols, f.maxWidth) && Runs(heights, 0, f.sbRows, maxHeight)
    requires t.cols == |widths| && t.colsLog2 == TileLog(1, |widths|)
    requires t.rows == |heights| && t.rowsLog2 == TileLog(1, |heights|)
    ensures ParseTileInfo(ExplicitBits(f, widths, heights, maxHeight, t) + tail, f) == Got(t, tail)
  {
    hide ParseSizes, SizesBits, ParseTail, TailBits, TileLog, Largest, Runs;
    var ws, hs := SizesBits(widths, 0, f.sbCols, f.maxWidth), SizesBits(heights, 0, f.sbRows, maxHeight);
    assert widths[0..] == widths && heights[0..] == heights;
    Regroup(false, ws, hs, TailBits(t), tail);
    SizesBack(widths, 0, f.sbCols, f.maxWidth, hs + (TailBits(t) + tail), ws + (hs + (TailBits(t) + tail)));
    SizesBack(heights, 0, f.sbRows, maxHeight, TailBits(t) + tail, hs + (TailBits(t) + tail));
    TailBack(t, ExplicitTileLayout(widths, heights), tail, TailBits(t) + tail);
  }

  // ----- reading it -----

  /** The sizes of n tiles of t superblocks in sb, the last one the rest. */
  ghost predicate CutsInto(sb: nat, n: nat, t: nat) {
    n * t >= sb && (sb > 0 ==> n > 0 && (n - 1) * t < sb)
  }

  /** What holds of the tiles of one direction: there are n of them, at most 2^k, and none is wider than max. */
  ghost predicate Direction(sb: nat, n: nat, k: nat, max: nat, uniform: bool, size: nat, sizes: seq<nat>) {
    && n <= Pow2(k)
    && (uniform ==> size <= max && CutsInto(sb, n, size))
    && (!uniform ==> n == |sizes| && Cuts(sizes, max, sb))
  }

  /** One direction with uniform spacing. */
  method ReadUniform(r: Reader, sb: nat, min: nat, max: nat, ghost tileLog2Min: nat, ghost maxSb: nat)
    returns (k: nat, n: nat, size: nat)
    requires r.Valid() && tileLog2Min <= min && Shl(maxSb, tileLog2Min) >= sb
    modifies r
    ensures r.Valid() && (old(r.err) ==> r.err)
    ensures min <= k && (k == min || k <= max) && n == UniformCount(sb, k)
    ensures Direction(sb, n, k, maxSb, true, size, [])
    ensures Gives(r, old(r.err), ParseLog2(old(r.Rest()), Excess(min, max)), k - min)
  {
    k := ReadLog2(r, min, max);
    size := UniformSize(sb, k);
    n := CeilDiv(sb, size);
    UniformTiles(sb, k, size, n, tileLog2Min, maxSb);
  }

  /** One direction with explicit sizes. */
  method ReadExplicit(r: Reader, sb: nat, maxSb: nat) returns (k: nat, n: nat, widest: nat, ghost sizes: seq<nat>)
    requires r.Valid() && 0 < maxSb && sb < 0x800_0000
    modifies r
    ensures r.Valid() && (old(r.err) ==> r.err)
    ensures Direction(sb, n, k, maxSb, false, 0, sizes) && widest == Largest(sizes)
    ensures k == TileLog(1, |sizes|) <= 27
    ensures Gives(r, old(r.err), ParseSizes(old(r.Rest()), sb, maxSb), sizes)
  {
    n, widest, sizes := ReadSizes(r, sb, maxSb);
    k := TileLog2(1, n);
    ShlIsProduct(1, k);
    FewSizes(sizes, maxSb, sb);
    Pow27();
    SmallTileLog(1, n, 27);
  }

  lemma {:induction false} FewSizes(sizes: seq<nat>, max: nat, sb: nat)
    requires Cuts(sizes, max, sb)
    ensures |sizes| <= sb
  {
    if sizes != [] {
      FewSizes(sizes[..|sizes| - 1], max, sb - sizes[|sizes| - 1]);
    }
  }

  lemma SmallTileLog(x: nat, target: nat, k: nat)
    requires x > 0 && target <= Pow2(k)
    ensures TileLog(x, target) <= k
  {
    ShlIsProduct(x, k);
    ProductMono(1, x, Pow2(k));
    TileLogLeast(x, target, k);
  }

  lemma Pow27()
    ensures Pow2(27) == 0x800_0000
  {
    Pow2Add(16, 11);
    Pow2Add(8, 3);
    Pow2Known();
  }

  /** The limits that the source computes first. */
  method Limits(use128: bool, sbCols: nat, sbRows: nat) returns (f: Frame)
    requires sbCols < 0x800_0000 && sbRows < 0x800_0000
    ensures f == FrameOf(use128, sbCols, sbRows) && f.Valid() && f.maxWidth == MaxWidthSb(use128)
  {
    hide TileLog, Pow2, Shl, MaxWidthSb, MaxAreaSb;
    var maxTileWidthSb, maxTileAreaSb := MaxWidthSb(use128), MaxAreaSb(use128);
    var minLog2TileCols := SmallTileLog2(maxTileWidthSb, sbCols, 27);
    var maxLog2TileCols := SmallTileLog2(1, Min(sbCols, MAX_TILE_COLS), 27);
    var maxLog2TileRows := SmallTileLog2(1, Min(sbRows, MAX_TILE_ROWS), 27);
    var areaLog2 := AreaLog2(maxTileAreaSb, sbRows, sbCols);
    f := Frame(sbCols, sbRows, maxTileWidthSb, minLog2TileCols, maxLog2TileCols, maxLog2TileRows,
               Max(minLog2TileCols, areaLog2));
  }

  method AreaLog2(x: nat, sbRows: nat, sbCols: nat) returns (k: nat)
    requires x > 0 && sbCols < 0x800_0000 && sbRows < 0x800_0000
    ensures k == TileLog(x, sbRows * sbCols) <= 54
  {
    AreaFits(sbRows, sbCols, sbRows * sbCols);
    k := SmallTileLog2(x, sbRows * sbCols, 54);
  }

  lemma AreaFits(sbRows: nat, sbCols: nat, area: nat)
    requires sbCols < 0x800_0000 && sbRows < 0x800_0000 && area == sbRows * sbCols
    ensures area <= Pow2(54)
  {
    Pow27();
    ProductBound(sbRows, sbCols, 27, 27);
  }

  method SmallTileLog2(x: nat, target: nat, ghost bound: nat) returns (k: nat)
    requires x > 0 && ((target < 0x800_0000 && bound == 27) || target <= Pow2(bound))
    ensures k == TileLog(x, target) <= bound && Shl(x, k) >= target
  {
    Pow27();
    SmallTileLog(x, target, bound);
    k := TileLog2(x, target);
  }

  /** The uniform branch. */
  method UniformLayout(r: Reader, f: Frame) returns (t: TileLayout, width: nat, height: nat)
    requires r.Valid() && f.Valid()
    modifies r
    ensures r.Valid() && (old(r.err) ==> r.err)
    ensures Direction(f.sbCols, t.cols, t.colsLog2, f.maxWidth, true, width, [])
    ensures Direction(f.sbRows, t.rows, t.rowsLog2, f.sbRows, true, height, [])
    ensures t.colsLog2 + t.rowsLog2 <= 54 && t.contextUpdateTileId == 0 && t.tileSizeBytes == 1
    ensures Gives(r, old(r.err), ParseUniform(old(r.Rest()), f), t)
  {
    hide ParseLog2, UniformSize, CeilDiv;
    var colsLog2, cols, w := ReadUniform(r, f.sbCols, f.minCols, f.maxCols, f.minCols, f.maxWidth);
    var minLog2TileRows := Max(f.minTiles - colsLog2, 0);
    var rowsLog2, rows, h := ReadUniform(r, f.sbRows, minLog2TileRows, f.maxRows, 0, f.sbRows);
    t, width, height := TileLayout(cols, rows, colsLog2, rowsLog2, 0, 1), w, h;
  }

  /** The branch with explicit sizes; tiles as high as allowed and as wide as the widest one keep the area limit. */
  method ExplicitLayout(r: Reader, f: Frame)
    returns (t: TileLayout, ghost widths: seq<nat>, ghost heights: seq<nat>, ghost maxHeight: nat)
    requires r.Valid() && f.Valid()
    modifies r
    ensures r.Valid() && (old(r.err) ==> r.err)
    ensures Direction(f.sbCols, t.cols, t.colsLog2, f.maxWidth, false, 0, widths)
    ensures Direction(f.sbRows, t.rows, t.rowsLog2, maxHeight, false, 0, heights)
    ensures maxHeight * Largest(widths) <= f.sbRows * f.sbCols || maxHeight == 1
    ensures t.colsLog2 + t.rowsLog2 <= 54 && t.contextUpdateTileId == 0 && t.tileSizeBytes == 1
    ensures Gives(r, old(r.err), ParseExplicit(old(r.Rest()), f), t)
  {
    hide ParseSizes, TileLog, Largest, Sum;
    var minLog2Tiles := f.minTiles;
    var colsLog2, cols, widestTileSb, ws := ReadExplicit(r, f.sbCols, f.maxWidth);
    var maxTileAreaSb2 :=
      if minLog2Tiles > 0 then Shr(f.sbRows * f.sbCols, minLog2Tiles + 1) else f.sbRows * f.sbCols;
    var maxTileHeightSb := Max(maxTileAreaSb2 / Max(widestTileSb, 1), 1);
    AreaBound(maxTileAreaSb2, widestTileSb, f.sbRows * f.sbCols, minLog2Tiles + 1, maxTileHeightSb);
    var rowsLog2, rows, highestTileSb, hs := ReadExplicit(r, f.sbRows, maxTileHeightSb);
    t := TileLayout(cols, rows, colsLog2, rowsLog2, 0, 1);
    widths, heights, maxHeight := ws, hs, maxTileHeightSb;
  }

  /** What holds of the layout in each of the branches. */
  ghost predicate Laid(t: TileLayout, f: Frame, uniform: bool, width: nat, height: nat,
                       widths: seq<nat>, heights: seq<nat>, maxHeight: nat)
  {
    && Direction(f.sbCols, t.cols, t.colsLog2, f.maxWidth, uniform, width, widths)
    && Direction(f.sbRows, t.rows, t.rowsLog2, maxHeight, uniform, height, heights)
    && t.cols * t.rows <= Pow2(t.colsLog2 + t.rowsLog2) && 1 <= t.tileSizeBytes <= 4
    && (!uniform ==> maxHeight * Largest(widths) <= f.sbRows * f.sbCols || maxHeight == 1)
  }

  /** tile_info: for any bits, also after a read error, the tiles cover the frame, are at most 2^(colsLog2 + rowsLog2),
      and stay within their maximal width; with explicit sizes also within the maximal height. Reading fails if and only
      if the bits are too few, and otherwise gives what ParseTileInfo says.
    */
  method TileInfo(r: Reader, use128: bool, frameWidth: nat, frameHeight: nat)
    returns (t: TileLayout, uniform: bool, ghost width: nat, ghost height: nat, ghost widths: seq<nat>,
             ghost heights: seq<nat>, ghost maxHeight: nat)
    requires r.Valid() && frameWidth < 0x1_0000_0000 && frameHeight < 0x1_0000_0000
    modifies r
    ensures r.Valid() && (old(r.err) ==> r.err)
    ensures var f := FrameOf(use128, Superblocks(use128, frameWidth), Superblocks(use128, frameHeight));
            && f.maxWidth == MaxWidthSb(use128) > 0 && Laid(t, f, uniform, width, height, widths, heights, maxHeight)
            && Gives(r, old(r.err), ParseTileInfo(old(r.Rest()), f), t)
  {
    hide ParseLayout, ParseTail, Direction, Pow2, FrameOf, Largest;
    var f := Limits(use128, Superblocks(use128, frameWidth), Superblocks(use128, frameHeight));
    t, uniform, width, height, widths, heights, maxHeight := ReadLayout(r, f);
    t := ReadTail(r, t);
  }

  /** The flag and the layout that it announces. */
  method ReadLayout(r: Reader, f: Frame)
    returns (t: TileLayout, uniform: bool, ghost width: nat, ghost height: nat, ghost widths: seq<nat>,
             ghost heights: seq<nat>, ghost maxHeight: nat)
    requires r.Valid() && f.Valid()
    modifies r
    ensures r.Valid() && (old(r.err) ==> r.err)
    ensures t.colsLog2 + t.rowsLog2 <= 54 && t.contextUpdateTileId == 0 && t.tileSizeBytes == 1
    ensures Laid(t, f, uniform, width, height, widths, heights, maxHeight)
    ensures Gives(r, old(r.err), ParseLayout(old(r.Rest()), f), t)
  {
    hide ParseUniform, ParseExplicit, Largest, Sum, CutsInto, Cuts, Pow2;
    width, height, widths, heights := 0, 0, [], [];
    uniform := r.ReadFlag();
    if uniform {
      var w, h;
      t, w, h := UniformLayout(r, f);
      width, height, maxHeight := w, h, f.sbRows;
    } else {
      t, widths, heights, maxHeight := ExplicitLayout(r, f);
    }
    ProductBound(t.cols, t.rows, t.colsLog2, t.rowsLog2);
  }

  /** The fields behind the layout. */
  method ReadTail(r: Reader, layout: TileLayout) returns (t: TileLayout)
    requires r.Valid() && layout.colsLog2 + layout.rowsLog2 <= 57
    requires layout.contextUpdateTileId == 0 && layout.tileSizeBytes == 1
    modifies r
    ensures r.Valid() && (old(r.err) ==> r.err)
    ensures Gives(r, old(r.err), ParseTail(old(r.Rest()), layout), t)
    ensures t == layout.(contextUpdateTileId := t.contextUpdateTileId, tileSizeBytes := t.tileSizeBytes)
    ensures 1 <= t.tileSizeBytes <= 4
  {
    hide Val, Pow2, BitsOf, ToBits;
    t := layout;
    if t.colsLog2 > 0 || t.rowsLog2 > 0 {
      var contextUpdateTileId := r.Read(t.rowsLog2 + t.colsLog2);
      var tileSizeBytes := ReadTwoBits(r);
      t := t.(contextUpdateTileId := contextUpdateTileId, tileSizeBytes := tileSizeBytes + 1);
    }
  }

  method ReadTwoBits(r: Reader) returns (x: nat)
    requires r.Valid()
    modifies r
    ensures r.Valid() && (old(r.err) ==> r.err)
    ensures x < 4
    ensures !old(r.err) ==> (r.err <==> |old(r.Rest())| < 2)
    ensures !r.err ==> r.Rest() == old(r.Rest())[2..] && x == Val(old(r.Rest())[..2])
  {
    ghost var rest := r.Rest();
    x := r.Read(2);
    if !r.err {
      ValBound(rest[..2]);
      assert Pow2(2) == 4;
    }
  }

  lemma ProductMono(a: nat, b: nat, c: nat)
    requires a <= b
    ensures a * c <= b * c
  {
  }

  lemma ProductBound(a: nat, b: nat, j: nat, k: nat)
    requires a <= Pow2(j) && b <= Pow2(k)
    ensures a * b <= Pow2(j + k)
  {
    Pow2Add(j, k);
    ProductMono(a, Pow2(j), b);
    ProductMono(b, Pow2(k), Pow2(j));
  }

  lemma {:induction false} ShrSmaller(x: nat, k: nat)
    ensures Shr(x, k) <= x
  {
    if k > 0 {
      ShrSmaller(x / 2, k - 1);
    }
  }

  lemma AreaBound(area2: nat, widest: nat, area: nat, k: nat, h: nat)
    requires area2 == area || area2 == Shr(area, k)
    requires h == Max(area2 / Max(widest, 1), 1)
    ensures h * widest <= area || h == 1
  {
    ShrSmaller(area, k);
    if widest > 0 && h > 1 {
      assert area2 == area2 / widest * widest + area2 % widest;
    }
  }

  // ----- decode_subexp -----

  /** The width of the code in round i. */
  function SubexpWidth(i: nat): nat {
    if i == 0 then 3 else 3 + i - 1
  }

  /** What follows a decode_subexp code at the start of s, from round i on. */
  function AfterSubexp(s: Bits, i: nat, mk: nat, numSyms: nat): Option<Bits>
    requires mk < numSyms
    decreases numSyms - mk
  {
    var b2 := SubexpWidth(i);
    if numSyms <= mk + 3 * Pow2(b2) then
      var x := ParseNs(s, numSyms - mk);
      if x.NoBits? then None else Some(x.rest)
    else if s == [] then None
    else if s[0] then AfterSubexp(s[1..], i + 1, mk + Pow2(b2), numSyms)
    else if |s| < 1 + b2 then None
    else Some(s[1..][b2..])
  }

  /** The code of x, from round i on. */
  function SubexpBits(x: nat, i: nat, mk: nat, numSyms: nat): Bits
    requires mk <= x < numSyms
    decreases numSyms - mk
  {
    var b2 := SubexpWidth(i);
    if numSyms <= mk + 3 * Pow2(b2) then NsBits(numSyms - mk, x - mk)
    else if x < mk + Pow2(b2) then [false] + BitsOf(x - mk, b2)
    else [true] + SubexpBits(x, i + 1, mk + Pow2(b2), numSyms)
  }

  /** Of every code exactly its own bits are consumed. */
  lemma {:induction false} SubexpBack(x: nat, i: nat, mk: nat, numSyms: nat, tail: Bits, s: Bits)
    requires mk <= x < numSyms && s == SubexpBits(x, i, mk, numSyms) + tail
    ensures AfterSubexp(s, i, mk, numSyms) == Some(tail)
    decreases numSyms - mk
  {
    hide ParseNs, NsBits, BitsOf, Pow2;
    var b2 := SubexpWidth(i);
    if numSyms <= mk + 3 * Pow2(b2) {
      NsBack(numSyms - mk, x - mk, tail, s);
    } else if x < mk + Pow2(b2) {
      assert s[1..] == BitsOf(x - mk, b2) + tail;
    } else {
      SubexpBack(x, i + 1, mk + Pow2(b2), numSyms, tail, s[1..]);
    }
  }

  /** decode_subexp for its bit consumption: ends for any bits, also after a read error, and the rest it asks ns for is
      never empty.
    */
  method DecodeSubexp(r: Reader, numSyms: nat)
    requires r.Valid() && 0 < numSyms < 0x1_0000_0000
    modifies r
    ensures r.Valid() && (old(r.err) ==> r.err)
    ensures !old(r.err) ==> (r.err <==> AfterSubexp(old(r.Rest()), 0, 0, numSyms).None?)
    ensures !r.err ==> AfterSubexp(old(r.Rest()), 0, 0, numSyms) == Some(r.Rest())
  {
    hide ParseNs, Val, BitsOf, ToBits, Pow2;
    var i: nat, mk: nat, k: nat := 0, 0, 3;
    ghost var goal, bad := AfterSubexp(r.Rest(), 0, 0, numSyms), r.err;
    while true
      invariant r.Valid() && mk < numSyms
      invariant if bad then r.err else !r.err && goal == AfterSubexp(r.Rest(), i, mk, numSyms)
      decreases numSyms - mk
    {
      var b2: nat := k;
      if i != 0 {
        b2 := k + i - 1;
      }
      var a := Pow2(b2);
      if numSyms <= mk + 3 * a {
        var bits := ReadNS(r, numSyms - mk);
        return;
      }
      var more := r.ReadFlag();
      if more {
        i := i + 1;
        mk := mk + a;
      } else {
        var bits := r.Read(b2);
        return;
      }
    }
  }
}
