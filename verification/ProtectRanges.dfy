/** The ranges of a sample that common encryption protects (GetAVCProtectRanges, GetHEVCProtectRanges,
    GetAV1ProtectRanges and AppendProtectRange in mp4/crypto.go). A pattern list is read as a mask over the bytes of
    the sample.
  */
module ProtectRanges {
  import opened BitStrings
  import opened ByteStream
  import opened SampleCrypt
  import AnnexBRoundTrip

  // ----- masks -----

  /** One true for each protected byte of the first j patterns, one false for each clear one. */
  function Mask(pats: seq<Pattern>, j: nat): seq<bool>
    requires j <= |pats|
  {
    if j == 0 then [] else Mask(pats, j - 1) + Repeat(false, pats[j - 1].clear) + Repeat(true, pats[j - 1].prot)
  }

  /** The mask is as long as what the patterns cover, and says which bytes are encrypted. */
  lemma {:induction false} MaskIsCovered(pats: seq<Pattern>, j: nat)
    requires j <= |pats|
    ensures |Mask(pats, j)| == Start(pats, j)
    ensures forall p :: 0 <= p < Start(pats, j) ==> Mask(pats, j)[p] == Covered(pats, j, p)
  {
    if j > 0 {
      MaskIsCovered(pats, j - 1);
      forall p | 0 <= p < Start(pats, j) ensures Mask(pats, j)[p] == Covered(pats, j, p) {
        if Start(pats, j - 1) <= p {
          BehindStart(pats, j - 1, p);
        }
      }
    }
  }

  lemma {:induction false} MaskPrefix(pats: seq<Pattern>, more: seq<Pattern>, j: nat)
    requires j <= |pats|
    ensures Mask(pats + more, j) == Mask(pats, j)
  {
    if j > 0 {
      MaskPrefix(pats, more, j - 1);
    }
  }

  lemma MaskAppend(pats: seq<Pattern>, x: Pattern)
    ensures Mask(pats + [x], |pats| + 1) == Mask(pats, |pats|) + Repeat(false, x.clear) + Repeat(true, x.prot)
  {
    MaskPrefix(pats, [x], |pats|);
  }

  lemma RunSplit(b: bool, m: nat, n: nat)
    ensures Repeat(b, m) + Repeat(b, n) == Repeat(b, m + n)
  {
  }

  /** No new pattern protects anything but nrProtected bytes. */
  ghost predicate AddsOnly(before: seq<Pattern>, after: seq<Pattern>, nrProtected: nat) {
    && |before| <= |after| && after[..|before|] == before
    && forall i :: |before| <= i < |after| ==> after[i].prot == 0 || after[i].prot == nrProtected
  }

  /** All protected counts are multiples of 16. */
  predicate WholeBlocksOnly(ssps: seq<Pattern>) {
    forall i :: 0 <= i < |ssps| ==> ssps[i].prot % 16 == 0
  }

  lemma StillWhole(before: seq<Pattern>, after: seq<Pattern>, nrProtected: nat)
    requires WholeBlocksOnly(before) && AddsOnly(before, after, nrProtected) && nrProtected % 16 == 0
    ensures WholeBlocksOnly(after)
  {
    forall i | 0 <= i < |after| ensures after[i].prot % 16 == 0 {
      if i < |before| {
        assert after[i] == before[i];
      }
    }
  }

  /** Appends a range, in several patterns where the clear count does not fit 16 bits. */
  method AppendProtectRange(ssps: seq<Pattern>, nrClear: nat, nrProtected: uint32) returns (r: seq<Pattern>)
    ensures Mask(r, |r|) == Mask(ssps, |ssps|) + Repeat(false, nrClear) + Repeat(true, nrProtected)
    ensures AddsOnly(ssps, r, nrProtected) && |ssps| < |r|
    ensures WholeBlocksOnly(ssps) && nrProtected % 16 == 0 ==> WholeBlocksOnly(r)
  {
    r := ssps;
    var left: nat := nrClear;
    assert Mask(ssps, |ssps|) + Repeat(false, 0) == Mask(ssps, |ssps|);
    while left >= 65536
      invariant left <= nrClear && AddsOnly(ssps, r, nrProtected)
      invariant Mask(r, |r|) == Mask(ssps, |ssps|) + Repeat(false, nrClear - left)
    {
      MaskAppend(r, Pattern(65535, 0));
      Assoc(Mask(ssps, |ssps|), Repeat(false, nrClear - left), Repeat(false, 65535));
      RunSplit(false, nrClear - left, 65535);
      r := r + [Pattern(65535, 0)];
      left := left - 65535;
    }
    MaskAppend(r, Pattern(left, nrProtected));
    Assoc(Mask(ssps, |ssps|), Repeat(false, nrClear - left), Repeat(false, left));
    RunSplit(false, nrClear - left, left);
    r := r + [Pattern(left, nrProtected)];
    if WholeBlocksOnly(ssps) && nrProtected % 16 == 0 {
      StillWhole(ssps, r, nrProtected);
    }
  }

  // ----- AVC and HEVC -----

  datatype Codec = Avc | Hevc

  /** By the byte after the length field: types up to 5 in AVC, up to 31 in HEVC. */
  predicate IsVideo(codec: Codec, b: byte) {
    match codec
    case Avc => b % 32 <= 5
    case Hevc => b / 2 % 64 <= 31
  }

  /** The slice-header length of a NAL unit by its parser, which is within the unit; None is an error. */
  type SliceHeaderSize = size: seq<byte> -> Option<nat> | Within(size) witness u => None

  ghost predicate Within(size: seq<byte> -> Option<nat>) {
    forall u: seq<byte> :: size(u).Some? ==> size(u).value <= |u|
  }

  /** How many bytes at the end of a NAL unit are protected; b is the byte after the length field. */
  function BytesToProtect(codec: Codec, scheme: string, size: SliceHeaderSize, b: byte, u: seq<byte>): Option<nat> {
    if !IsVideo(codec, b) then Some(0)
    else if scheme == "cenc" then Some(if |u| + 4 >= 96 + 16 then (|u| + 4 - 96) / 16 * 16 else 0)
    else if scheme == "cbcs" then
      match size(u)
      case None => None
      case Some(h) => Some(|u| - h)
    else None
  }

  /** The mask of n bytes of which the last p are protected. */
  function TailMask(n: nat, p: nat): (m: seq<bool>)
    requires p <= n
    ensures |m| == n
  {
    Repeat(false, n - p) + Repeat(true, p)
  }

  lemma BytesToProtectFit(codec: Codec, scheme: string, size: SliceHeaderSize, b: byte, u: seq<byte>)
    requires BytesToProtect(codec, scheme, size, b, u).Some?
    ensures BytesToProtect(codec, scheme, size, b, u).value <= |u|
    ensures scheme == "cenc" ==> BytesToProtect(codec, scheme, size, b, u).value % 16 == 0
  {
  }

  /** The mask of the units from pos on; None where a length is bad or a slice header is. */
  function Walk(codec: Codec, scheme: string, size: SliceHeaderSize, s: seq<byte>, pos: nat): Option<seq<bool>>
    decreases |s| - pos
  {
    if pos + 4 >= |s| then Some([])
    else
      var end := AnnexBRoundTrip.Next(s, pos);
      if end > |s| then None
      else
        match BytesToProtect(codec, scheme, size, s[pos + 4], s[pos + 4..end])
        case None => None
        case Some(p) =>
          BytesToProtectFit(codec, scheme, size, s[pos + 4], s[pos + 4..end]);
          match Walk(codec, scheme, size, s, end)
          case None => None
          case Some(rest) => Some(TailMask(end - pos, p) + rest)
  }

  /** The uint32 additions of the loop do not wrap around. */
  predicate NoWrap(s: seq<byte>, pos: nat)
    decreases |s| - pos
  {
    pos + 4 >= |s| ||
    var next := AnnexBRoundTrip.Next(s, pos);
    next < 0x1_0000_0000 && (next <= |s| ==> NoWrap(s, next))
  }

  /** The bytes before pos have the mask of ssps, and then clear ones. */
  ghost predicate Masked(ssps: seq<Pattern>, clear: nat, rest: Option<seq<bool>>, goal: Option<seq<bool>>) {
    && rest.None? == goal.None?
    && (rest.Some? ==> Mask(ssps, |ssps|) + Repeat(false, clear) + rest.value == goal.value)
  }

  lemma Regroup(m: seq<bool>, x: seq<bool>, y: seq<bool>, xy: seq<bool>, z: seq<bool>, r: seq<bool>)
    requires xy == x + y
    ensures m + x + ((y + z) + r) == m + xy + z + r
  {
    Assoc(y, z, r);
    Assoc(m + x, y, z + r);
    Assoc(m, x, y);
    Assoc(m + xy, z, r);
  }

  /** What a round has to do for Masked to hold again at the end of the unit. */
  ghost predicate Grows(ssps: seq<Pattern>, clear: nat, p: nat, rest: Option<seq<bool>>, goal: Option<seq<bool>>) {
    && rest.None? == goal.None?
    && (rest.Some? ==> Mask(ssps, |ssps|) + Repeat(false, clear) + Repeat(true, p) + rest.value == goal.value)
  }

  /** walk gives the masks of what follows each position. */
  ghost predicate WalkAt(walk: nat -> Option<seq<bool>>, codec: Codec, scheme: string, size: SliceHeaderSize,
                         s: seq<byte>, pos: nat) {
    walk(pos) == Walk(codec, scheme, size, s, pos)
  }

  ghost predicate IsWalk(walk: nat -> Option<seq<bool>>, codec: Codec, scheme: string, size: SliceHeaderSize,
                         s: seq<byte>) {
    forall pos: nat :: WalkAt(walk, codec, scheme, size, s, pos)
  }

  lemma UnitStep(walk: nat -> Option<seq<bool>>, codec: Codec, scheme: string, size: SliceHeaderSize, s: seq<byte>,
                 ssps: seq<Pattern>, clear: nat, goal: Option<seq<bool>>, pos: nat, end: nat, p: Option<nat>)
    requires IsWalk(walk, codec, scheme, size, s) && Masked(ssps, clear, walk(pos), goal)
    requires pos + 4 < |s| && end == AnnexBRoundTrip.Next(s, pos)
    requires end <= |s| ==> p == BytesToProtect(codec, scheme, size, s[pos + 4], s[pos + 4..end])
    ensures end > |s| || p.None? ==> goal.None?
    ensures end <= |s| && p.Some? ==>
              p.value <= end - pos && Grows(ssps, clear + (end - pos) - p.value, p.value, walk(end), goal)
  {
    hide BytesToProtect, Mask, BigEndian32;
    assert WalkAt(walk, codec, scheme, size, s, pos) && WalkAt(walk, codec, scheme, size, s, end);
    if end <= |s| && p.Some? {
      BytesToProtectFit(codec, scheme, size, s[pos + 4], s[pos + 4..end]);
      var n, m, rest := end - pos, Mask(ssps, |ssps|), walk(end);
      if rest.Some? {
        RunSplit(false, clear, n - p.value);
        Regroup(m, Repeat(false, clear), Repeat(false, n - p.value), Repeat(false, clear + (n - p.value)),
                Repeat(true, p.value), rest.value);
      }
    }
  }

  lemma GrownClear(ssps: seq<Pattern>, clear: nat, rest: Option<seq<bool>>, goal: Option<seq<bool>>)
    requires Grows(ssps, clear, 0, rest, goal)
    ensures Masked(ssps, clear, rest, goal)
  {
    var m := Mask(ssps, |ssps|) + Repeat(false, clear);
    assert m + Repeat(true, 0) == m;
  }

  lemma GrownProtected(ssps: seq<Pattern>, ssps': seq<Pattern>, clear: nat, p: nat, rest: Option<seq<bool>>,
                       goal: Option<seq<bool>>)
    requires Grows(ssps, clear, p, rest, goal)
               && Mask(ssps', |ssps'|) == Mask(ssps, |ssps|) + Repeat(false, clear) + Repeat(true, p)
    ensures Masked(ssps', 0, rest, goal)
  {
    var m := Mask(ssps', |ssps'|);
    assert m + Repeat(false, 0) == m;
  }

  /** The pattern for the clear bytes so far and the protected tail of a unit, if it has one. */
  method AppendUnit(ssps0: seq<Pattern>, clear: nat, bytesToProtect: uint32,
                    ghost rest: Option<seq<bool>>, ghost goal: Option<seq<bool>>) returns (ssps: seq<Pattern>)
    requires Grows(ssps0, clear, bytesToProtect, rest, goal)
    ensures bytesToProtect > 0 ==> Masked(ssps, 0, rest, goal)
    ensures bytesToProtect == 0 ==> ssps == ssps0 && Masked(ssps, clear, rest, goal)
    ensures WholeBlocksOnly(ssps0) && bytesToProtect % 16 == 0 ==> WholeBlocksOnly(ssps)
  {
    if bytesToProtect > 0 {
      ssps := AppendProtectRange(ssps0, clear, bytesToProtect);
      GrownProtected(ssps0, ssps, clear, bytesToProtect, rest, goal);
    } else {
      ssps := ssps0;
      GrownClear(ssps, clear, rest, goal);
    }
  }

  /** One round of the loop; clearStart is where the bytes begin that are in no pattern yet. */
  method ProtectUnit(codec: Codec, scheme: string, size: SliceHeaderSize, s: seq<byte>, ssps0: seq<Pattern>,
                     clearStart0: nat,
                     pos0: nat, ghost goal: Option<seq<bool>>, ghost walk: nat -> Option<seq<bool>>)
    returns (ok: bool, ssps: seq<Pattern>, clearStart: nat, pos: nat)
    requires IsWalk(walk, codec, scheme, size, s) && pos0 + 4 < |s| < 0x1_0000_0000 && clearStart0 <= pos0
    requires Masked(ssps0, pos0 - clearStart0, walk(pos0), goal)
    requires scheme == "cenc" ==> WholeBlocksOnly(ssps0)
    ensures !ok ==> goal.None?
    ensures ok ==> clearStart <= pos <= |s| && pos == AnnexBRoundTrip.Next(s, pos0)
    ensures ok ==> Masked(ssps, pos - clearStart, walk(pos), goal)
    ensures ok && scheme == "cenc" ==> WholeBlocksOnly(ssps)
  {
    hide BytesToProtect, Masked, Grows, Walk, BigEndian32, WholeBlocksOnly;
    ok, ssps, clearStart, pos := false, ssps0, clearStart0, AnnexBRoundTrip.Next(s, pos0);
    var toProtect := None;
    if pos <= |s| {
      toProtect := BytesToProtect(codec, scheme, size, s[pos0 + 4], s[pos0 + 4..pos]);
    }
    UnitStep(walk, codec, scheme, size, s, ssps, pos0 - clearStart0, goal, pos0, pos, toProtect);
    if pos > |s| || toProtect.None? {
      return;
    }
    var bytesToProtect := toProtect.value;
    BytesToProtectFit(codec, scheme, size, s[pos0 + 4], s[pos0 + 4..pos]);
    var clearEnd := pos - bytesToProtect;
    ssps := AppendUnit(ssps0, clearEnd - clearStart, bytesToProtect, walk(pos), goal);
    if bytesToProtect > 0 {
      clearStart := pos;
    }
    ok := true;
  }

  /** Makes the loop's view of Walk. */
  function Walking(codec: Codec, scheme: string, size: SliceHeaderSize, s: seq<byte>): nat -> Option<seq<bool>> {
    (pos: nat) => Walk(codec, scheme, size, s, pos)
  }

  /** What the patterns of a sample say about its bytes; None is an error. A lone length field is clear. */
  function SampleMask(codec: Codec, scheme: string, size: SliceHeaderSize, s: seq<byte>): Option<seq<bool>> {
    if |s| < 4 then None
    else if |s| == 4 then Some(Repeat(false, 4))
    else Walk(codec, scheme, size, s, 0)
  }

  lemma SampleMaskIs(codec: Codec, scheme: string, size: SliceHeaderSize, s: seq<byte>)
    ensures var m, w := SampleMask(codec, scheme, size, s), Walk(codec, scheme, size, s, 0);
            if |s| < 4 then m == None
            else if |s| == 4 then m == Some(Repeat(false, 4)) && w == Some([]) else m == w && w != Some([])
  {
    hide BytesToProtect, BigEndian32;
  }

  lemma WalkStarts(codec: Codec, scheme: string, size: SliceHeaderSize, s: seq<byte>)
    ensures var goal, walk := Walk(codec, scheme, size, s, 0), Walking(codec, scheme, size, s);
            IsWalk(walk, codec, scheme, size, s) && Masked([], 0, walk(0), goal) && WholeBlocksOnly([])
  {
    hide Walk;
    var goal := Walk(codec, scheme, size, s, 0);
    assert goal.Some? ==> [] + Repeat(false, 0) + goal.value == goal.value;
  }

  lemma WalkEnds(walk: nat -> Option<seq<bool>>, codec: Codec, scheme: string, size: SliceHeaderSize, s: seq<byte>,
                 ssps: seq<Pattern>, clear: nat, goal: Option<seq<bool>>, pos: nat)
    requires IsWalk(walk, codec, scheme, size, s) && Masked(ssps, clear, walk(pos), goal) && pos + 4 >= |s|
    ensures goal.Some? && Masked(ssps, clear, Some([]), goal)
  {
    assert WalkAt(walk, codec, scheme, size, s, pos);
  }

  lemma ClearEnd(ssps: seq<Pattern>, clear: nat, m: seq<bool>)
    requires Masked(ssps, clear, Some([]), Some(m))
    ensures Mask(ssps, |ssps|) + Repeat(false, clear) + Repeat(true, 0) == m
    ensures clear == 0 ==> Mask(ssps, |ssps|) == m
    ensures clear == 0 && ssps == [] ==> m == []
  {
    var x := Mask(ssps, |ssps|);
    assert x + Repeat(false, clear) + [] == x + Repeat(false, clear) + Repeat(true, 0);
    assert clear == 0 ==> x + Repeat(false, 0) + [] == x;
  }

  /** GetAVCProtectRanges and GetHEVCProtectRanges, which differ in what a video unit is. In scheme cenc every protected
      count is a multiple of 16.
    */
  method GetProtectRanges(codec: Codec, scheme: string, size: SliceHeaderSize, sample: seq<byte>)
    returns (r: Option<seq<Pattern>>)
    requires |sample| < 0x1_0000_0000 && NoWrap(sample, 0)
    ensures r.None? == SampleMask(codec, scheme, size, sample).None? && r != Some([])
    ensures r.Some? ==> Some(Mask(r.value, |r.value|)) == SampleMask(codec, scheme, size, sample)
    ensures r.Some? && scheme == "cenc" ==> WholeBlocksOnly(r.value)
  {
    hide *;
    SampleMaskIs(codec, scheme, size, sample);
    var length := |sample|;
    if length < 4 {
      return None;
    }
    var ssps: seq<Pattern>, pos: nat, clearStart: nat := [], 0, 0;
    ghost var goal, walk := Walk(codec, scheme, size, sample, 0), Walking(codec, scheme, size, sample);
    WalkStarts(codec, scheme, size, sample);
    while pos + 4 < length
      invariant clearStart <= pos <= length && Masked(ssps, pos - clearStart, walk(pos), goal)
      invariant scheme == "cenc" ==> WholeBlocksOnly(ssps)
      invariant length == 4 ==> pos == 0 && ssps == []
      decreases length - pos
    {
      var ok;
      ok, ssps, clearStart, pos := ProtectUnit(codec, scheme, size, sample, ssps, clearStart, pos, goal, walk);
      if !ok {
        return None;
      }
    }
    WalkEnds(walk, codec, scheme, size, sample, ssps, pos - clearStart, goal, pos);
    ClearEnd(ssps, pos - clearStart, goal.value);
    if pos > clearStart {
      ssps := AppendProtectRange(ssps, pos - clearStart, 0);
    }
    if |ssps| == 0 {
      ssps := AppendProtectRange(ssps, length, 0);
      assert [] + Repeat(false, 4) + Repeat(true, 0) == Repeat(false, 4);
    }
    return Some(ssps);
  }

  // ----- samples made of units -----

  /** The mask of the units from k on: of each unit the last BytesToProtect bytes are protected. */
  function UnitMasks(codec: Codec, scheme: string, size: SliceHeaderSize, units: seq<seq<byte>>, k: nat): seq<bool>
    requires k <= |units| && Protectable(codec, scheme, size, units)
    decreases |units| - k
  {
    if k == |units| then []
    else UnitMask(codec, scheme, size, units[k]) + UnitMasks(codec, scheme, size, units, k + 1)
  }

  /** The units are not empty and, for cbcs, their slice headers can be read. */
  predicate Protectable(codec: Codec, scheme: string, size: SliceHeaderSize, units: seq<seq<byte>>) {
    forall i :: 0 <= i < |units| ==> ProtectableUnit(codec, scheme, size, units[i])
  }

  predicate ProtectableUnit(codec: Codec, scheme: string, size: SliceHeaderSize, u: seq<byte>) {
    0 < |u| < 0x1_0000_0000 && BytesToProtect(codec, scheme, size, u[0], u).Some?
  }

  /** The mask of a unit with its length field. */
  function UnitMask(codec: Codec, scheme: string, size: SliceHeaderSize, u: seq<byte>): (m: seq<bool>)
    requires ProtectableUnit(codec, scheme, size, u)
    ensures |m| == 4 + |u|
  {
    BytesToProtectFit(codec, scheme, size, u[0], u);
    TailMask(4 + |u|, BytesToProtect(codec, scheme, size, u[0], u).value)
  }

  /** Video units are those of types up to 5 in AVC and up to 31 in HEVC. In scheme cenc a unit that is not video stays
      clear, and so does a short one; any other video unit keeps 96 to 111 leading bytes clear, counting its length
      field, and protects a positive multiple of 16 up to its end.
    */
  lemma CencUnit(codec: Codec, size: SliceHeaderSize, u: seq<byte>, n: nat, clear: nat, video: bool)
    requires 0 < |u| < 0x1_0000_0000 && n == 4 + |u|
    requires video == match codec case Avc => u[0] % 32 <= 5 case Hevc => u[0] / 2 % 64 <= 31
    requires n >= 112 ==> clear == 96 + (n - 96) % 16
    ensures ProtectableUnit(codec, "cenc", size, u)
    ensures !video || n < 112 ==> UnitMask(codec, "cenc", size, u) == Repeat(false, n)
    ensures n >= 112 ==> 96 <= clear <= 111 && (n - clear) % 16 == 0 && n - clear >= 16
    ensures video && n >= 112 ==>
              UnitMask(codec, "cenc", size, u) == Repeat(false, clear) + Repeat(true, n - clear)
  {
    assert Repeat(false, n) + Repeat(true, 0) == Repeat(false, n);
  }

  /** In scheme cbcs a unit that is not video stays clear; a video unit keeps its length field and its slice header
      clear, and protects everything behind them. Where there is no slice header the unit is an error.
    */
  lemma CbcsUnit(codec: Codec, size: SliceHeaderSize, u: seq<byte>, n: nat, video: bool)
    requires 0 < |u| < 0x1_0000_0000 && n == 4 + |u|
    requires video == match codec case Avc => u[0] % 32 <= 5 case Hevc => u[0] / 2 % 64 <= 31
    ensures ProtectableUnit(codec, "cbcs", size, u) <==> !video || size(u).Some?
    ensures !video ==> UnitMask(codec, "cbcs", size, u) == Repeat(false, n)
    ensures video && size(u).Some? ==>
              var h := size(u).value;
              h <= |u| && UnitMask(codec, "cbcs", size, u) == Repeat(false, 4 + h) + Repeat(true, |u| - h)
  {
    assert Repeat(false, n) + Repeat(true, 0) == Repeat(false, n);
  }

  /** With any other scheme a video unit is an error. */
  lemma OtherScheme(codec: Codec, scheme: string, size: SliceHeaderSize, u: seq<byte>)
    requires 0 < |u| < 0x1_0000_0000 && scheme != "cenc" && scheme != "cbcs"
    ensures ProtectableUnit(codec, scheme, size, u)
       <==> match codec case Avc => u[0] % 32 > 5 case Hevc => u[0] / 2 % 64 > 31
  {
  }

  lemma WalkUnit(codec: Codec, scheme: string, size: SliceHeaderSize, s: seq<byte>, pos: nat, u: seq<byte>, end: nat,
                 rest: seq<bool>)
    requires pos + 4 < |s| && end == AnnexBRoundTrip.Next(s, pos) <= |s| && u == s[pos + 4..end] && end == pos + 4 + |u|
    requires ProtectableUnit(codec, scheme, size, u) && Walk(codec, scheme, size, s, end) == Some(rest)
    ensures Walk(codec, scheme, size, s, pos) == Some(UnitMask(codec, scheme, size, u) + rest)
  {
    assert s[pos + 4] == u[0];
  }

  lemma {:induction false} WalkUnits(codec: Codec, scheme: string, size: SliceHeaderSize, units: seq<seq<byte>>,
                                     s: seq<byte>, k: nat, pos: nat)
    requires k <= |units| && Protectable(codec, scheme, size, units)
    requires s == Prefixed(units) && |s| < 0x1_0000_0000 && pos == |PrefixedTo(units, k)|
    ensures NoWrap(s, pos)
    ensures Walk(codec, scheme, size, s, pos) == Some(UnitMasks(codec, scheme, size, units, k))
    ensures |UnitMasks(codec, scheme, size, units, k)| == |s| - pos
    decreases |units| - k
  {
    if k < |units| {
      var a, u, end := PrefixedTo(units, k), units[k], |PrefixedTo(units, k + 1)|;
      assert ProtectableUnit(codec, scheme, size, u);
      AnnexBRoundTrip.PrefixedPrefix(units, k + 1, |units|);
      AnnexBRoundTrip.FieldAfter(a, u, s, pos);
      WalkUnits(codec, scheme, size, units, s, k + 1, end);
      WalkUnit(codec, scheme, size, s, pos, u, end, UnitMasks(codec, scheme, size, units, k + 1));
    }
  }

  /** For a sample that is a sequence of non-empty units, the mask that GetProtectRanges returns as patterns is that of
      its units, one after the other; so clear and protected bytes add up to the sample.
    */
  lemma MaskOfUnits(codec: Codec, scheme: string, size: SliceHeaderSize, units: seq<seq<byte>>)
    requires units != [] && Protectable(codec, scheme, size, units) && |Prefixed(units)| < 0x1_0000_0000
    ensures NoWrap(Prefixed(units), 0)
    ensures SampleMask(codec, scheme, size, Prefixed(units)) == Some(UnitMasks(codec, scheme, size, units, 0))
    ensures |UnitMasks(codec, scheme, size, units, 0)| == |Prefixed(units)|
  {
    WalkUnits(codec, scheme, size, units, Prefixed(units), 0, 0);
    assert ProtectableUnit(codec, scheme, size, units[0]);
    AnnexBRoundTrip.PrefixedPrefix(units, 1, |units|);
    assert |PrefixedTo(units, 1)| == 4 + |units[0]|;
  }

  /** The bytes of a trailing empty unit after other units, which the loop stops before. */
  function Unvisited(units: seq<seq<byte>>, k: nat): nat {
    if k < |units| && AnnexBRoundTrip.LastEmpty(units) then 4 else 0
  }

  lemma {:induction false} WalkCoverage(codec: Codec, scheme: string, size: SliceHeaderSize, units: seq<seq<byte>>,
                                        s: seq<byte>, k: nat, pos: nat)
    requires k <= |units| && s == Prefixed(units) && |s| < 0x1_0000_0000 && pos == |PrefixedTo(units, k)|
    ensures NoWrap(s, pos)
    ensures var m := Walk(codec, scheme, size, s, pos); m.Some? ==> pos + |m.value| + Unvisited(units, k) == |s|
    decreases |units| - k
  {
    hide *;
    UnitsLeft(codec, scheme, size, units, s, k);
    if pos + 4 < |s| {
      var end := |PrefixedTo(units, k + 1)|;
      AnnexBRoundTrip.FieldIn(units, s, k);
      WalkCoverage(codec, scheme, size, units, s, k + 1, end);
      WalkStep(codec, scheme, size, s, pos, end);
    }
  }

  /** The loop ends behind the last unit, or before its length field if it is empty. */
  lemma UnitsLeft(codec: Codec, scheme: string, size: SliceHeaderSize, units: seq<seq<byte>>, s: seq<byte>, k: nat)
    requires k <= |units| && s == Prefixed(units)
    ensures var pos := |PrefixedTo(units, k)|;
            if pos + 4 < |s| then k < |units| && Unvisited(units, k + 1) == Unvisited(units, k)
            else
              NoWrap(s, pos) && Walk(codec, scheme, size, s, pos) == Some([]) && pos + Unvisited(units, k) == |s|
  {
    if k < |units| {
      MoreBehind(units, s, k);
    }
  }

  /** The loop goes on behind the length field of unit k, unless the unit is the last one and empty. */
  lemma MoreBehind(units: seq<seq<byte>>, s: seq<byte>, k: nat)
    requires k < |units| && s == Prefixed(units)
    ensures |PrefixedTo(units, k)| + 4 < |s| <==> units[k] != [] || k + 1 < |units|
    ensures |PrefixedTo(units, k)| + 4 <= |s|
  {
    AnnexBRoundTrip.PrefixedPrefix(units, k + 1, |units|);
    if k + 1 < |units| {
      AnnexBRoundTrip.PrefixedPrefix(units, k + 2, |units|);
    }
  }

  /** A round of the loop covers the unit with its length field. */
  lemma WalkStep(codec: Codec, scheme: string, size: SliceHeaderSize, s: seq<byte>, pos: nat, end: nat)
    requires pos + 4 < |s| < 0x1_0000_0000 && end == AnnexBRoundTrip.Next(s, pos) <= |s|
    ensures NoWrap(s, pos) == NoWrap(s, end)
    ensures var m, rest := Walk(codec, scheme, size, s, pos), Walk(codec, scheme, size, s, end);
            m.Some? ==> rest.Some? && |m.value| == end - pos + |rest.value|
  {
    hide BytesToProtect, BigEndian32;
  }

  /** For a sample of any units, empty ones too, the patterns cover all of it if and only if the last unit is not empty
      or is the only one; else its four bytes are in no pattern.
    */
  lemma CoverageExact(codec: Codec, scheme: string, size: SliceHeaderSize, units: seq<seq<byte>>)
    requires units != [] && |Prefixed(units)| < 0x1_0000_0000
    ensures NoWrap(Prefixed(units), 0)
    ensures var m := SampleMask(codec, scheme, size, Prefixed(units));
            m.Some? ==>
              && (|m.value| == |Prefixed(units)| <==> units[|units| - 1] != [] || |units| == 1)
              && (units[|units| - 1] == [] && |units| > 1 ==> |m.value| == |Prefixed(units)| - 4)
  {
    WalkCoverage(codec, scheme, size, units, Prefixed(units), 0, 0);
    AnnexBRoundTrip.PrefixedPrefix(units, 1, |units|);
    MoreBehind(units, Prefixed(units), 0);
  }

  // ----- AV1 -----

  datatype TileRange = TileRange(offset: nat, length: nat)

  /** The end of the last of the first k tiles. */
  function TilesEnd(tiles: seq<TileRange>, k: nat): nat
    requires k <= |tiles|
  {
    if k == 0 then 0 else tiles[k - 1].offset + tiles[k - 1].length
  }

  /** The first k tiles are in order and do not overlap. */
  predicate Ordered(tiles: seq<TileRange>, k: nat)
    requires k <= |tiles|
  {
    k == 0 || (TilesEnd(tiles, k - 1) <= tiles[k - 1].offset && Ordered(tiles, k - 1))
  }

  /** How many leading bytes of a tile are protected: whole 16-byte blocks for cenc, all of them for cbcs. */
  function TileProtected(scheme: string, t: TileRange): (p: nat)
    ensures p <= t.length && (scheme == "cenc" ==> p % 16 == 0)
  {
    if scheme == "cenc" then t.length - t.length % 16 else t.length
  }

  /** For cenc at most 15 bytes at the end of a tile stay clear, for cbcs none. */
  lemma TileRest(scheme: string, t: TileRange)
    ensures scheme == "cenc" ==>
              TileProtected(scheme, t) % 16 == 0 && TileProtected(scheme, t) <= t.length < TileProtected(scheme, t) + 16
    ensures scheme == "cbcs" ==> TileProtected(scheme, t) == t.length
  {
  }

  /** The mask of the bytes up to the end of tile k - 1. */
  function TileMask(scheme: string, tiles: seq<TileRange>, k: nat): seq<bool>
    requires k <= |tiles| && Ordered(tiles, k)
  {
    if k == 0 then []
    else
      var t := tiles[k - 1];
      TileMask(scheme, tiles, k - 1) + Repeat(false, t.offset - TilesEnd(tiles, k - 1))
        + Repeat(true, TileProtected(scheme, t)) + Repeat(false, t.length - TileProtected(scheme, t))
  }

  lemma {:induction false} OrderedPrefix(tiles: seq<TileRange>, i: nat, k: nat)
    requires i <= k <= |tiles| && Ordered(tiles, k)
    ensures Ordered(tiles, i) && TilesEnd(tiles, i) <= TilesEnd(tiles, k)
  {
    if i < k {
      OrderedPrefix(tiles, i, k - 1);
    }
  }

  /** Of each tile exactly the leading TileProtected bytes are protected. */
  lemma {:induction false} TileMaskAt(scheme: string, tiles: seq<TileRange>, k: nat, i: nat)
    requires i < k <= |tiles| && Ordered(tiles, k)
    ensures |TileMask(scheme, tiles, k)| == TilesEnd(tiles, k) && TilesEnd(tiles, i + 1) <= TilesEnd(tiles, k)
    ensures forall p :: tiles[i].offset <= p < TilesEnd(tiles, i + 1) ==>
                          TileMask(scheme, tiles, k)[p] == (p - tiles[i].offset < TileProtected(scheme, tiles[i]))
  {
    OrderedPrefix(tiles, i + 1, k);
    if k > 1 {
      TileMaskAt(scheme, tiles, k - 1, if i < k - 1 then i else 0);
    }
    hide Ordered;
  }

  /** And no byte outside the tiles is. */
  lemma {:induction false} TileMaskOutside(scheme: string, tiles: seq<TileRange>, k: nat, p: nat)
    requires k <= |tiles| && Ordered(tiles, k) && p < TilesEnd(tiles, k)
    requires forall i :: 0 <= i < k ==> !(tiles[i].offset <= p < tiles[i].offset + tiles[i].length)
    ensures |TileMask(scheme, tiles, k)| == TilesEnd(tiles, k) && !TileMask(scheme, tiles, k)[p]
  {
    TileMaskAt(scheme, tiles, k, k - 1);
    if p < TilesEnd(tiles, k - 1) {
      TileMaskOutside(scheme, tiles, k - 1, p);
    } else {
      assert p < tiles[k - 1].offset;
      if k > 1 {
        TileMaskAt(scheme, tiles, k - 1, 0);
      }
    }
  }

  /** A tile too small to protect anything: all clear. */
  lemma TileClear(m: seq<bool>, clear: nat, gap: nat, tail: nat, goal: seq<bool>)
    requires goal == m + Repeat(false, clear) + Repeat(false, gap) + Repeat(true, 0) + Repeat(false, tail)
    ensures goal == m + Repeat(false, clear + gap + tail)
  {
    TileProtect(m, clear, gap, 0, tail, goal, m + Repeat(false, clear + gap) + Repeat(true, 0));
    var x := m + Repeat(false, clear + gap);
    assert x + Repeat(true, 0) == x;
    Assoc(m, Repeat(false, clear + gap), Repeat(false, tail));
    RunSplit(false, clear + gap, tail);
  }

  lemma TileProtect(m: seq<bool>, clear: nat, gap: nat, p: nat, tail: nat, goal: seq<bool>, m': seq<bool>)
    requires goal == m + Repeat(false, clear) + Repeat(false, gap) + Repeat(true, p) + Repeat(false, tail)
    requires m' == m + Repeat(false, clear + gap) + Repeat(true, p)
    ensures goal == m' + Repeat(false, tail)
  {
    Assoc(m, Repeat(false, clear), Repeat(false, gap));
    RunSplit(false, clear, gap);
  }

  lemma TileGoal(scheme: string, tiles: seq<TileRange>, k: nat, m: seq<bool>, clear: nat, gap: nat, p: nat, tail: nat,
                 goal: seq<bool>)
    requires k < |tiles| && Ordered(tiles, k + 1) && m + Repeat(false, clear) == TileMask(scheme, tiles, k)
    requires gap == tiles[k].offset - TilesEnd(tiles, k) && p == TileProtected(scheme, tiles[k])
    requires tail == tiles[k].length - p && goal == TileMask(scheme, tiles, k + 1)
    ensures goal == m + Repeat(false, clear) + Repeat(false, gap) + Repeat(true, p) + Repeat(false, tail)
  {
  }

  /** The loop of GetAV1ProtectRanges over the tiles of a sample of n bytes. */
  method ProtectTiles(scheme: string, tiles: seq<TileRange>, n: nat) returns (r: Option<seq<Pattern>>)
    requires Ordered(tiles, |tiles|) && TilesEnd(tiles, |tiles|) <= n < 0x1_0000_0000
    ensures r.None? <==> scheme != "cenc" && scheme != "cbcs"
    ensures r.Some? ==>
              Mask(r.value, |r.value|) == TileMask(scheme, tiles, |tiles|) + Repeat(false, n - TilesEnd(tiles, |tiles|))
    ensures r.Some? ==> r.value != []
    ensures scheme == "cenc" ==> WholeBlocksOnly(r.value)
  {
    if scheme != "cenc" && scheme != "cbcs" {
      return None;
    }
    var ssps: seq<Pattern> := [];
    var clearAccum: nat, prevEnd: nat, k: nat := 0, 0, 0;
    assert [] + Repeat(false, 0) == [];
    while k < |tiles|
      invariant k <= |tiles| && Ordered(tiles, k) && prevEnd == TilesEnd(tiles, k)
      invariant Mask(ssps, |ssps|) + Repeat(false, clearAccum) == TileMask(scheme, tiles, k)
      invariant scheme == "cenc" ==> WholeBlocksOnly(ssps)
    {
      OrderedPrefix(tiles, k + 1, |tiles|);
      ssps, clearAccum := ProtectTile(scheme, tiles, k, ssps, clearAccum);
      prevEnd := tiles[k].offset + tiles[k].length;
      k := k + 1;
    }
    RunSplit(false, clearAccum, n - prevEnd);
    Assoc(Mask(ssps, |ssps|), Repeat(false, clearAccum), Repeat(false, n - prevEnd));
    clearAccum := clearAccum + (n - prevEnd);
    assert Mask(ssps, |ssps|) + Repeat(false, clearAccum) + Repeat(true, 0)
        == Mask(ssps, |ssps|) + Repeat(false, clearAccum);
    assert Mask(ssps, |ssps|) + Repeat(false, 0) == Mask(ssps, |ssps|);
    if clearAccum > 0 || |ssps| == 0 {
      ssps := AppendProtectRange(ssps, clearAccum, 0);
    }
    return Some(ssps);
  }

  /** One tile of the loop. */
  method ProtectTile(scheme: string, tiles: seq<TileRange>, k: nat, ssps0: seq<Pattern>, clear0: nat)
    returns (ssps: seq<Pattern>, clearAccum: nat)
    requires k < |tiles| && Ordered(tiles, k + 1) && TilesEnd(tiles, k + 1) < 0x1_0000_0000
    requires Mask(ssps0, |ssps0|) + Repeat(false, clear0) == TileMask(scheme, tiles, k)
    requires scheme == "cenc" ==> WholeBlocksOnly(ssps0)
    ensures Mask(ssps, |ssps|) + Repeat(false, clearAccum) == TileMask(scheme, tiles, k + 1)
    ensures scheme == "cenc" ==> WholeBlocksOnly(ssps)
  {
    ssps, clearAccum := ssps0, clear0;
    var t := tiles[k];
    var cipher, clearAtEnd: nat := t.length, 0;
    if scheme == "cenc" {
      clearAtEnd := cipher % 16;
      cipher := cipher - clearAtEnd;
    }
    assert cipher == TileProtected(scheme, t) && clearAtEnd == t.length - cipher;
    var gap := t.offset - TilesEnd(tiles, k);
    ghost var m, goal := Mask(ssps, |ssps|), TileMask(scheme, tiles, k + 1);
    TileGoal(scheme, tiles, k, m, clear0, gap, cipher, clearAtEnd, goal);
    clearAccum := clearAccum + gap;
    if cipher == 0 {
      TileClear(m, clear0, gap, clearAtEnd, goal);
      clearAccum := clearAccum + clearAtEnd;
    } else {
      ssps := AppendProtectRange(ssps, clearAccum, cipher);
      TileProtect(m, clear0, gap, cipher, clearAtEnd, goal, Mask(ssps, |ssps|));
      clearAccum := clearAtEnd;
    }
  }
}
