/** What the scanner finds in a stream made of NAL units, and the round trip between samples and
    byte streams (avc/annexb.go).
  */
module AnnexBRoundTrip {
  import opened BitStrings
  import opened AnnexB
  import opened ByteStream

  // ----- conversion of a sample to a byte stream -----

  const START_CODE: seq<byte> := [0, 0, 0, 1]

  /** The position after the unit whose length field is at pos. */
  function Next(s: seq<byte>, pos: nat): (n: nat)
    requires pos + 4 <= |s|
    ensures n >= pos + 4
  {
    pos + 4 + BigEndian32(s[pos..pos + 4])
  }

  /** Following the length fields from pos never reads a field that is cut off and never wraps the 32-bit position. The
      last length may be too large.
    */
  predicate Walkable(s: seq<byte>, pos: nat)
    decreases |s| - pos
  {
    pos >= |s| || (pos + 4 <= |s| && Next(s, pos) < 0x1_0000_0000 && Walkable(s, Next(s, pos)))
  }

  /** The byte stream: from pos on, every length field becomes a start code. */
  function Delimited(s: seq<byte>, pos: nat): seq<byte>
    requires Walkable(s, pos)
    decreases |s| - pos
  {
    if pos >= |s| then []
    else START_CODE + s[pos + 4..Min(Next(s, pos), |s|)] + Delimited(s, Next(s, pos))
  }

  /** Replaces the length fields in place. */
  method ConvertSampleToByteStream(sample: array<byte>)
    requires sample.Length < 0x1_0000_0000
    requires Walkable(sample[..], 0)
    modifies sample
    ensures sample[..] == Delimited(old(sample[..]), 0)
  {
    ghost var s := sample[..];
    var pos := 0;
    while pos < sample.Length
      invariant Converting(sample[..], s, pos)
      decreases sample.Length - pos
    {
      pos := ReplaceLength(sample, pos, s);
    }
  }

  /** Everything before pos is converted, everything from pos on is untouched. */
  ghost predicate Converting(now: seq<byte>, s: seq<byte>, pos: nat) {
    && |now| == |s|
    && Walkable(s, 0)
    && Walkable(s, pos)
    && (if pos < |s| then now[..pos] + Delimited(s, pos) else now) == Delimited(s, 0)
    && (pos < |s| ==> now[pos..] == s[pos..])
  }

  /** One round of the conversion loop, on values. */
  lemma DelimitedRound(now: seq<byte>, now': seq<byte>, s: seq<byte>, pos: nat)
    requires pos < |s| && Converting(now, s, pos)
    requires now' == now[..pos] + START_CODE + now[pos + 4..]
    ensures Next(now, pos) == Next(s, pos) && Converting(now', s, Next(s, pos))
  {
    var next := Next(s, pos);
    var b := Min(next, |s|);
    var left, unit, rest := now[..pos], s[pos + 4..b], Delimited(s, next);
    SliceFour(now, s, pos);
    OverwriteStep(now, now', s, pos, b, START_CODE);
    Regroup(left, START_CODE, unit, rest);
    assert (left + START_CODE + unit) + rest == Delimited(s, 0);
    if next >= |s| {
      assert now'[..b] == now' && rest == [];
    }
  }

  lemma Regroup(a: seq<byte>, b: seq<byte>, c: seq<byte>, d: seq<byte>)
    ensures a + (b + c + d) == (a + b + c) + d
  {
  }

  lemma SliceFour(now: seq<byte>, s: seq<byte>, pos: nat)
    requires pos + 4 <= |s| == |now| && now[pos..] == s[pos..]
    ensures now[pos..pos + 4] == s[pos..pos + 4]
  {
    assert now[pos..][..4] == now[pos..pos + 4] && s[pos..][..4] == s[pos..pos + 4];
  }

  /** The body of the conversion loop. */
  method ReplaceLength(sample: array<byte>, pos: nat, ghost s: seq<byte>) returns (next: nat)
    requires pos < sample.Length && Converting(sample[..], s, pos)
    modifies sample
    ensures next > pos && Converting(sample[..], s, next)
  {
    ghost var now := sample[..];
    next := Next(sample[..], pos);
    PutFour(sample, pos, START_CODE);
    DelimitedRound(now, sample[..], s, pos);
  }

  // ----- what the scanner finds in a stream of NAL units -----

  /** No 00 00 01 inside the unit. */
  predicate NoPattern(u: seq<byte>) {
    forall i :: 0 <= i && i + 2 < |u| ==> !(u[i] == 0 && u[i + 1] == 0 && u[i + 2] == 1)
  }

  predicate EndsInZero(u: seq<byte>) {
    u != [] && u[|u| - 1] == 0
  }

  /** No 00 00 01 inside the unit, but for one that ends it at the end of the stream. */
  predicate Quiet(u: seq<byte>, last: bool) {
    NoPattern(if last && u != [] then u[..|u| - 1] else u)
  }

  /** No unit has 00 00 01 inside, but for one that ends the last unit. */
  predicate AllQuiet(units: seq<seq<byte>>) {
    forall i :: 0 <= i < |units| ==> Quiet(units[i], i + 1 == |units|)
  }

  predicate StartCodes(scs: seq<seq<byte>>) {
    forall i :: 0 <= i < |scs| ==> IsStartCode(scs[i])
  }

  /** Units without an inner start code; a 3-byte code never follows a zero byte. */
  predicate Separable(units: seq<seq<byte>>, scs: seq<seq<byte>>)
    requires |units| == |scs|
  {
    && StartCodes(scs)
    && AllQuiet(units)
    && (forall i :: 0 <= i < |units| ==> EndsInZero(units[i]) && i + 1 < |units| ==> |scs[i + 1]| == 4)
  }

  /** What may follow a unit: the end of the stream or a start code. */
  predicate Boundary(t: seq<byte>) {
    t == [] || (|t| >= 2 && t[0] == 0 && t[1] == 0)
  }

  /** The start codes of the first k units. */
  function Inserted(units: seq<seq<byte>>, scs: seq<seq<byte>>, k: nat): (c: seq<ScNalu>)
    requires k <= |units| == |scs|
    ensures |c| == k
  {
    if k == 0 then []
    else Inserted(units, scs, k - 1) + [ScNalu(|scs[k - 1]|, |StreamTo(units, scs, k - 1)| + |scs[k - 1]|)]
  }

  lemma {:induction false} NoCodesIn(s: seq<byte>, lo: nat, hi: nat)
    requires forall i :: lo <= i < hi ==> !IsCode(s, i)
    ensures Codes(s, lo, hi) == []
    decreases hi
  {
    if lo < hi {
      NoCodesIn(s, lo, hi - 1);
    }
  }

  lemma OneCode(s: seq<byte>, lo: nat, c: nat, hi: nat)
    requires lo <= c < hi && IsCode(s, c)
    requires forall i :: lo <= i < hi && i != c ==> !IsCode(s, i)
    ensures Codes(s, lo, hi) == [CodeAt(s, c)]
  {
    CodesSplit(s, lo, c, hi);
    CodesSplit(s, c, c + 1, hi);
    NoCodesIn(s, lo, c);
    NoCodesIn(s, c + 1, hi);
    assert Codes(s, c, c + 1) == Codes(s, c, c) + [CodeAt(s, c)];
  }

  /** Nothing is found inside or across the end of a unit. */
  lemma NoCodeInUnit(a: seq<byte>, u: seq<byte>, t: seq<byte>, i: nat)
    requires Quiet(u, t == []) && Boundary(t)
    requires |a| <= i < |a| + |u|
    ensures !IsCode(a + u + t, i)
  {
    if t == [] && u != [] {
      NoCodeBeforeEnd(a, u, i);
      assert a + u + t == a + u;
    }
  }

  lemma NoCodeBeforeEnd(a: seq<byte>, u: seq<byte>, i: nat)
    requires u != [] && NoPattern(u[..|u| - 1]) && |a| <= i
    ensures !IsCode(a + u, i)
  {
    var v, j := u[..|u| - 1], i - |a|;
    if j + 2 < |v| {
      assert !(v[j] == 0 && v[j + 1] == 0 && v[j + 2] == 1);
    }
  }

  lemma AroundCode(s: seq<byte>, c: nat, i: int)
    requires c + 3 < |s| && s[c] == 0 && s[c + 1] == 0 && s[c + 2] == 1
    requires c - 1 <= i < c + 3 && i != c
    ensures !IsCode(s, i)
  {
  }

  /** One start code after a: the scanner finds it where it ends, with its own length. */
  lemma CodeFound(a: seq<byte>, sc: seq<byte>, rest: seq<byte>)
    requires IsStartCode(sc) && rest != [] && (EndsInZero(a) ==> |sc| == 4)
    ensures var s, c := a + sc + rest, |a| + |sc| - 3;
            && s[c] == 0 && s[c + 1] == 0 && s[c + 2] == 1
            && IsCode(s, c) && CodeAt(s, c) == ScNalu(|sc|, |a| + |sc|)
  {
    var s, c := a + sc + rest, |a| + |sc| - 3;
    assert s[|a| + |sc| - 1] == sc[|sc| - 1];
    assert s[|a| + |sc| - 2] == sc[|sc| - 2];
    assert s[|a| + |sc| - 3] == sc[|sc| - 3];
    if |sc| == 4 {
      assert s[|a|] == sc[0];
    } else if a != [] {
      assert s[|a| - 1] == a[|a| - 1];
    }
  }

  /** One start code and its unit, after a and before t: the scanner finds just this code. */
  lemma ScanUnit(a: seq<byte>, sc: seq<byte>, u: seq<byte>, t: seq<byte>, s: seq<byte>, hi: nat)
    requires Quiet(u, t == []) && Boundary(t) && IsStartCode(sc)
    requires u + t != [] && (EndsInZero(a) ==> |sc| == 4)
    requires s == a + sc + (u + t) && hi == |a| + |sc| + |u|
    ensures Codes(s, |a|, hi) == [ScNalu(|sc|, |a| + |sc|)]
  {
    var lo, c := |a|, |a| + |sc| - 3;
    CodeFound(a, sc, u + t);
    forall i | lo <= i < hi && i != c ensures !IsCode(s, i) {
      if i >= c + 3 {
        Assoc(a + sc, u, t);
        NoCodeInUnit(a + sc, u, t, i);
      } else {
        AroundCode(s, c, i);
      }
    }
    OneCode(s, lo, c, hi);
  }

  /** In a stream, up to any point where a start code or the end follows, the scanner finds exactly
      the inserted codes. */
  lemma {:induction false} ScanStream(units: seq<seq<byte>>, scs: seq<seq<byte>>, k: nat, t: seq<byte>)
    requires k <= |units| == |scs| && Separable(units, scs) && Boundary(t)
    requires k > 0 ==> units[k - 1] + t != [] && Quiet(units[k - 1], t == [])
    ensures Codes(StreamTo(units, scs, k) + t, 0, |StreamTo(units, scs, k)|) == Inserted(units, scs, k)
  {
    if k > 0 {
      var a, sc, u := StreamTo(units, scs, k - 1), scs[k - 1], units[k - 1];
      StreamEnd(units, scs, k - 1);
      assert k > 1 ==> Quiet(units[k - 2], false);
      ScanStream(units, scs, k - 1, sc + (u + t));
      ScanJoin(a, sc, u, t, Inserted(units, scs, k - 1));
    }
  }

  lemma ScanJoin(a: seq<byte>, sc: seq<byte>, u: seq<byte>, t: seq<byte>, before: seq<ScNalu>)
    requires Quiet(u, t == []) && Boundary(t) && IsStartCode(sc)
    requires u + t != [] && (EndsInZero(a) ==> |sc| == 4)
    requires Codes(a + (sc + (u + t)), 0, |a|) == before
    ensures Codes(a + sc + u + t, 0, |a + sc + u|) == before + [ScNalu(|sc|, |a| + |sc|)]
  {
    var s, lo, hi := a + sc + u + t, |a|, |a + sc + u|;
    Assoc(a + sc, u, t);
    Assoc(a, sc, u + t);
    ScanUnit(a, sc, u, t, s, hi);
    CodesSplit(s, 0, lo, hi);
  }

  lemma LastByte(a: seq<byte>, sc: seq<byte>, u: seq<byte>, s: seq<byte>)
    requires s == a + sc + u && IsStartCode(sc)
    ensures EndsInZero(s) ==> EndsInZero(u)
  {
    if u == [] {
      assert s == a + sc;
      assert s[|s| - 1] == sc[|sc| - 1];
    } else {
      assert s[|s| - 1] == u[|u| - 1];
    }
  }

  /** A stream so far ends in a zero only where its last unit does. */
  lemma StreamEnd(units: seq<seq<byte>>, scs: seq<seq<byte>>, k: nat)
    requires k < |units| == |scs| && Separable(units, scs)
    ensures EndsInZero(StreamTo(units, scs, k)) ==> |scs[k]| == 4
  {
    if k > 0 {
      LastByte(StreamTo(units, scs, k - 1), scs[k - 1], units[k - 1], StreamTo(units, scs, k));
    }
  }

  lemma {:induction false} InsertedAt(units: seq<seq<byte>>, scs: seq<seq<byte>>, k: nat, i: nat)
    requires i < k <= |units| == |scs|
    ensures Inserted(units, scs, k)[i] == ScNalu(|scs[i]|, |StreamTo(units, scs, i)| + |scs[i]|)
  {
    if i < k - 1 {
      InsertedAt(units, scs, k - 1, i);
    }
  }

  lemma {:induction false} StreamPrefix(units: seq<seq<byte>>, scs: seq<seq<byte>>, j: nat, k: nat)
    requires j <= k <= |units| == |scs|
    ensures StreamTo(units, scs, j) <= StreamTo(units, scs, k)
  {
    if j < k {
      StreamPrefix(units, scs, j, k - 1);
    }
  }

  lemma Tail(a: seq<byte>, u: seq<byte>, s: seq<byte>, from: nat, to: nat)
    requires a + u <= s && from == |a| && to == |a| + |u|
    ensures s[from..to] == u
  {
    assert s[..|a + u|] == a + u;
  }

  /** Where the inserted codes put unit i. */
  lemma UnitEndInStream(units: seq<seq<byte>>, scs: seq<seq<byte>>, s: seq<byte>, c: seq<ScNalu>, i: nat)
    requires i < |units| == |scs|
    requires s == Stream(units, scs) && c == Inserted(units, scs, |units|)
    ensures c[i] == ScNalu(|scs[i]|, |StreamTo(units, scs, i)| + |scs[i]|)
    ensures UnitEnd(s, c, i) == |StreamTo(units, scs, i + 1)| <= |s|
  {
    InsertedAt(units, scs, |units|, i);
    StreamPrefix(units, scs, i + 1, |units|);
    if i + 1 < |units| {
      InsertedAt(units, scs, |units|, i + 1);
    }
  }

  /** Unit i stands where the inserted codes say. */
  lemma UnitInStream(units: seq<seq<byte>>, scs: seq<seq<byte>>, s: seq<byte>, c: seq<ScNalu>, i: nat)
    requires i < |units| == |scs| && Separable(units, scs)
    requires s == Stream(units, scs) && c == Inserted(units, scs, |units|)
    ensures DelimitsAt(s, c, i) && UnitAt(s, c, i) == units[i]
  {
    UnitEndInStream(units, scs, s, c, i);
    StreamPrefix(units, scs, i + 1, |units|);
    Tail(StreamTo(units, scs, i) + scs[i], units[i], s, c[i].startPos, UnitEnd(s, c, i));
  }

  /** The scanner recovers the start codes and the units of every stream of proper units. */
  lemma StreamScan(units: seq<seq<byte>>, scs: seq<seq<byte>>)
    requires |units| == |scs| && Separable(units, scs)
    requires units != [] ==> units[|units| - 1] != []
    ensures var s := Stream(units, scs);
            && NaiveScan(s) == Inserted(units, scs, |units|)
            && Delimiting(s, NaiveScan(s))
            && Units(s, NaiveScan(s)) == units
            && Head(s, NaiveScan(s)) == []
  {
    assert units != [] ==> Quiet(units[|units| - 1], true);
    hide Separable, Quiet, Codes, StreamTo;
    var s, c := Stream(units, scs), Inserted(units, scs, |units|);
    ScanStream(units, scs, |units|, []);
    assert s + [] == s;
    forall i | 0 <= i < |units| ensures DelimitsAt(s, c, i) && UnitAt(s, c, i) == units[i] {
      UnitInStream(units, scs, s, c, i);
    }
    assert Units(s, c) == units;
    if units != [] {
      InsertedAt(units, scs, |units|, 0);
    }
  }

  // ----- round trip of samples -----

  lemma {:induction false} PrefixedPrefix(units: seq<seq<byte>>, j: nat, k: nat)
    requires j <= k <= |units|
    ensures PrefixedTo(units, j) <= PrefixedTo(units, k)
  {
    if j < k {
      PrefixedPrefix(units, j, k - 1);
    }
  }

  /** The length field and the unit after a in a sample. */
  lemma FieldAfter(a: seq<byte>, u: seq<byte>, s: seq<byte>, pos: nat)
    requires a + LengthField(|u|) + u <= s && pos == |a| && |u| < 0x1_0000_0000
    ensures pos + 4 <= |s| && Next(s, pos) == pos + 4 + |u| <= |s|
    ensures s[pos + 4..Next(s, pos)] == u
  {
    var f := LengthField(|u|);
    assert s[..|a + f + u|] == a + f + u;
    assert s[pos..pos + 4] == f;
    LengthFieldExact(|u|);
  }

  ghost predicate AllLong(scs: seq<seq<byte>>) {
    forall i :: 0 <= i < |scs| ==> scs[i] == START_CODE
  }

  /** Converting a sample gives the stream of its units. */
  lemma {:induction false} DelimitPrefixed(units: seq<seq<byte>>, scs: seq<seq<byte>>, s: seq<byte>, k: nat, pos: nat)
    requires k <= |units| == |scs| && AllLong(scs)
    requires s == Prefixed(units) && |s| < 0x1_0000_0000 && pos == |PrefixedTo(units, k)|
    ensures Walkable(s, pos) && StreamTo(units, scs, k) + Delimited(s, pos) == Stream(units, scs)
    decreases |units| - k
  {
    if k < |units| {
      var a, u, next := PrefixedTo(units, k), units[k], |PrefixedTo(units, k + 1)|;
      PrefixedPrefix(units, k + 1, |units|);
      FieldAfter(a, u, s, pos);
      DelimitPrefixed(units, scs, s, k + 1, next);
      DelimitedAt(s, pos, u, next);
      Regroup(StreamTo(units, scs, k), scs[k], u, Delimited(s, next));
    }
  }

  lemma DelimitedAt(s: seq<byte>, pos: nat, u: seq<byte>, next: nat)
    requires pos + 4 <= |s| < 0x1_0000_0000 && next == Next(s, pos) <= |s| && u == s[pos + 4..next]
    requires Walkable(s, next)
    ensures Walkable(s, pos) && Delimited(s, pos) == START_CODE + u + Delimited(s, next)
  {
  }

  function LongCodes(n: nat): (scs: seq<seq<byte>>)
    ensures |scs| == n && AllLong(scs)
  {
    seq(n, _ => START_CODE)
  }

  lemma {:induction false} InsertedLong(units: seq<seq<byte>>, scs: seq<seq<byte>>, k: nat)
    requires k <= |units| == |scs| && AllLong(scs)
    ensures MinLength(Inserted(units, scs, k)) == 4
  {
    forall i | 0 <= i < k ensures Inserted(units, scs, k)[i].startCodeLength == 4 {
      InsertedAt(units, scs, k, i);
    }
  }

  lemma LongSeparable(units: seq<seq<byte>>, scs: seq<seq<byte>>)
    requires |units| == |scs| && AllLong(scs)
    ensures StartCodes(scs) && (Separable(units, scs) <==> AllQuiet(units))
  {
    assert IsStartCode(START_CODE);
  }

  // ----- an empty last unit -----

  predicate LastEmpty(units: seq<seq<byte>>) {
    units != [] && units[|units| - 1] == []
  }

  /** A stream whose last unit is empty ends in the 1 of its last start code, and the sample in a 0. */
  lemma EmptyLastEnds(units: seq<seq<byte>>, scs: seq<seq<byte>>)
    requires |units| == |scs| && LastEmpty(units) && IsStartCode(scs[|scs| - 1])
    ensures var s, t := Stream(units, scs), Prefixed(units);
            s != [] && s[|s| - 1] == 1 && t != [] && t[|t| - 1] == 0
  {
    var n := |units| - 1;
    assert StreamTo(units, scs, n + 1) == StreamTo(units, scs, n) + scs[n];
    assert PrefixedTo(units, n + 1) == PrefixedTo(units, n) + LengthField(0);
  }

  /** The last unit that is found holds the last byte of the stream. */
  lemma LastFound(s: seq<byte>)
    requires NaiveScan(s) != [] && Delimiting(s, NaiveScan(s))
    ensures var u := Units(s, NaiveScan(s));
            u[|u| - 1] != [] && u[|u| - 1][|u[|u| - 1]| - 1] == s[|s| - 1]
  {
    var c := NaiveScan(s);
    var i := |c| - 1;
    CodesSound(s, 0, |s|);
    assert c[i] in c && DelimitsAt(s, c, i);
    assert UnitAt(s, c, i) == s[c[i].startPos..|s|];
  }

  /** So an empty last unit is lost, whatever the other units are: its start code ends the stream, where the scanner
      does not look. Neither of the two ways of conversion gives the sample of the units.
    */
  lemma EmptyLastUnitLost(units: seq<seq<byte>>, scs: seq<seq<byte>>)
    requires |units| == |scs| && LastEmpty(units) && IsStartCode(scs[|scs| - 1])
    ensures var s := Stream(units, scs);
            var c := NaiveScan(s);
            && Delimiting(s, c)
            && Prefixed(Units(s, c)) != Prefixed(units)
            && Head(s, c) + Prefixed(Units(s, c)) != Prefixed(units)
  {
    var s := Stream(units, scs);
    var c := NaiveScan(s);
    NaiveScanDelimits(s);
    EmptyLastEnds(units, scs);
    if c == [] {
      assert Prefixed(Units(s, c)) == [] && s + [] == s;
    } else {
      LastFound(s);
      var u := Units(s, c);
      var n := |u| - 1;
      assert PrefixedTo(u, n + 1) == PrefixedTo(u, n) + LengthField(|u[n]|) + u[n];
    }
  }

  // ----- what the round trip needs -----

  /** Unit j stands behind its length field. */
  lemma FieldIn(u: seq<seq<byte>>, s: seq<byte>, j: nat)
    requires j < |u| && s == Prefixed(u) && |s| < 0x1_0000_0000
    ensures var pos := |PrefixedTo(u, j)|;
            pos + 4 <= |s| && Next(s, pos) == |PrefixedTo(u, j + 1)| <= |s| && s[pos + 4..Next(s, pos)] == u[j]
  {
    PrefixedPrefix(u, j + 1, |u|);
    FieldAfter(PrefixedTo(u, j), u[j], s, |PrefixedTo(u, j)|);
  }

  /** Samples of fewer than 2^32 bytes say what their units are. */
  lemma {:induction false} SamePrefixedTo(u: seq<seq<byte>>, v: seq<seq<byte>>, s: seq<byte>, k: nat)
    requires k <= |u| && k <= |v| && s == Prefixed(u) == Prefixed(v) && |s| < 0x1_0000_0000
    ensures u[..k] == v[..k] && |PrefixedTo(u, k)| == |PrefixedTo(v, k)|
  {
    hide Next;
    if k > 0 {
      var j := k - 1;
      SamePrefixedTo(u, v, s, j);
      FieldIn(u, s, j);
      FieldIn(v, s, j);
      assert u[..k] == u[..j] + [u[j]] && v[..k] == v[..j] + [v[j]];
    }
  }

  lemma SamePrefixed(u: seq<seq<byte>>, v: seq<seq<byte>>)
    requires Prefixed(u) == Prefixed(v) && |Prefixed(u)| < 0x1_0000_0000
    ensures u == v
  {
    var k := Min(|u|, |v|);
    SamePrefixedTo(u, v, Prefixed(u), k);
    if k < |u| {
      PrefixedPrefix(u, k + 1, |u|);
    }
    if k < |v| {
      PrefixedPrefix(v, k + 1, |v|);
    }
  }

  /** The scanner finds the first start code of a stream. */
  lemma FirstCode(units: seq<seq<byte>>, scs: seq<seq<byte>>, s: seq<byte>)
    requires |units| == |scs| > 0 && StartCodes(scs) && s == Stream(units, scs) && !LastEmpty(units)
    ensures NaiveScan(s) != [] && NaiveScan(s)[0] == ScNalu(|scs[0]|, |scs[0]|)
  {
    var sc := scs[0];
    var c := |sc| - 3;
    StreamPrefix(units, scs, 1, |units|);
    assert StreamTo(units, scs, 1) == sc + units[0];
    CodeInStream(units, scs, s, 0);
    assert forall i :: 0 <= i < c ==> !IsCode(s, i);
    CodesSplit(s, 0, c + 1, |s|);
    OneCode(s, 0, c, c + 1);
  }

  /** Where start code i stands in the stream, a code is found if bytes follow. */
  lemma CodeInStream(units: seq<seq<byte>>, scs: seq<seq<byte>>, s: seq<byte>, i: nat)
    requires i < |units| == |scs| && StartCodes(scs) && s == Stream(units, scs) && !LastEmpty(units)
    ensures var a := |StreamTo(units, scs, i)|;
            a + |scs[i]| < |s| && s[a..a + |scs[i]|] == scs[i] && IsCode(s, a + |scs[i]| - 3)
  {
    StreamPrefix(units, scs, i + 1, |units|);
    BytesBehind(units, scs, s, i);
    hide *;
    CodeBehind(StreamTo(units, scs, i), scs[i], units[i], s);
    CodeStands(s, |StreamTo(units, scs, i)|, scs[i]);
  }

  lemma BytesBehind(units: seq<seq<byte>>, scs: seq<seq<byte>>, s: seq<byte>, i: nat)
    requires i < |units| == |scs| && StartCodes(scs) && s == Stream(units, scs) && !LastEmpty(units)
    ensures |StreamTo(units, scs, i)| + |scs[i]| < |s|
    ensures StreamTo(units, scs, i + 1) == StreamTo(units, scs, i) + scs[i] + units[i]
  {
    assert i + 1 < |scs| ==> |scs[i + 1]| > 0;
    hide StartCodes, IsStartCode;
    if i + 1 < |units| {
      StreamPrefix(units, scs, i + 2, |units|);
    }
  }

  lemma CodeBehind(a: seq<byte>, sc: seq<byte>, u: seq<byte>, s: seq<byte>)
    requires a + sc + u <= s
    ensures s[|a|..|a| + |sc|] == sc
  {
    assert s[..|a + sc + u|] == a + sc + u;
  }

  lemma CodeStands(s: seq<byte>, a: nat, sc: seq<byte>)
    requires IsStartCode(sc) && a + |sc| < |s| && s[a..a + |sc|] == sc
    ensures IsCode(s, a + |sc| - 3)
  {
    var b := s[a..a + |sc|];
    assert b[|sc| - 1] == 1 && b[|sc| - 2] == 0 && b[|sc| - 3] == 0;
  }

  /** A found code and an inserted one that begin at the same place are the same. */
  lemma SameStart(s: seq<byte>, a: nat, sc: seq<byte>, x: ScNalu)
    requires IsStartCode(sc) && a + |sc| < |s| && s[a..a + |sc|] == sc
    requires x.startPos >= 3 && IsCode(s, x.startPos - 3) && x == CodeAt(s, x.startPos - 3)
    requires x.startPos - x.startCodeLength == a
    ensures x == ScNalu(|sc|, a + |sc|)
  {
    assert s[a + 2] == s[a..a + |sc|][2] == sc[2];
  }

  /** Where the next code begins if unit j is found at from. */
  lemma FoundEnd(s: seq<byte>, c: seq<ScNalu>, units: seq<seq<byte>>, j: nat, from: nat, to: nat)
    requires Delimiting(s, c) && Units(s, c) == units && j + 1 < |c|
    requires c[j].startPos == from && to == from + |units[j]|
    ensures c[j + 1].startPos - c[j + 1].startCodeLength == to
  {
    assert DelimitsAt(s, c, j) && Units(s, c)[j] == UnitAt(s, c, j);
  }

  lemma EntrySound(s: seq<byte>, c: seq<ScNalu>, k: nat)
    requires c == NaiveScan(s) && k < |c|
    ensures c[k].startPos >= 3 && IsCode(s, c[k].startPos - 3) && c[k] == CodeAt(s, c[k].startPos - 3)
  {
    CodesSound(s, 0, |s|);
    assert c[k] in c;
  }

  /** If the units that are found are those of the stream, so are the codes. */
  lemma {:induction false} FoundAreInserted(units: seq<seq<byte>>, scs: seq<seq<byte>>, s: seq<byte>, c: seq<ScNalu>,
                                            k: nat)
    requires k < |units| == |scs| && StartCodes(scs) && s == Stream(units, scs) && !LastEmpty(units)
    requires c == NaiveScan(s) && Delimiting(s, c) && Units(s, c) == units
    ensures c[k] == ScNalu(|scs[k]|, |StreamTo(units, scs, k)| + |scs[k]|)
  {
    hide IsCode, IsStartCode, Units, NaiveScan, CodeAt, Stream;
    if k == 0 {
      FirstCode(units, scs, s);
    } else {
      var j := k - 1;
      FoundAreInserted(units, scs, s, c, j);
      var a := |StreamTo(units, scs, k)|;
      FoundEnd(s, c, units, j, |StreamTo(units, scs, j)| + |scs[j]|, a);
      CodeInStream(units, scs, s, k);
      EntrySound(s, c, k);
      SameStart(s, a, scs[k], c[k]);
    }
  }

  /** Then no other code is seen: the units are separable. */
  lemma FoundSeparable(units: seq<seq<byte>>, scs: seq<seq<byte>>, s: seq<byte>, c: seq<ScNalu>)
    requires |units| == |scs| && StartCodes(scs) && s == Stream(units, scs) && !LastEmpty(units)
    requires c == NaiveScan(s) && Delimiting(s, c) && Units(s, c) == units
    ensures Separable(units, scs)
  {
    forall k | 0 <= k < |units|
      ensures Quiet(units[k], k + 1 == |units|)
      ensures EndsInZero(units[k]) && k + 1 < |units| ==> |scs[k + 1]| == 4
    {
      FoundQuiet(units, scs, s, c, k);
      if k + 1 < |units| {
        FoundLong(units, scs, s, c, k);
      }
    }
  }

  lemma UnitFound(units: seq<seq<byte>>, scs: seq<seq<byte>>, s: seq<byte>, c: seq<ScNalu>, k: nat)
    requires k < |units| == |scs| && StartCodes(scs) && s == Stream(units, scs) && !LastEmpty(units)
    requires c == NaiveScan(s) && Delimiting(s, c) && Units(s, c) == units
    ensures DelimitsAt(s, c, k) && UnitAt(s, c, k) == units[k]
    ensures UnitEnd(s, c, k) == |StreamTo(units, scs, k + 1)|
    ensures k + 1 < |units| ==> UnitEnd(s, c, k) + 3 < |s|
  {
    assert DelimitsAt(s, c, k) && Units(s, c)[k] == UnitAt(s, c, k);
    FoundAreInserted(units, scs, s, c, k);
    if k + 1 < |units| {
      CodeInStream(units, scs, s, k + 1);
    }
  }

  /** A pattern inside a unit would be a code that was not found. */
  lemma FoundQuiet(units: seq<seq<byte>>, scs: seq<seq<byte>>, s: seq<byte>, c: seq<ScNalu>, k: nat)
    requires k < |units| == |scs| && StartCodes(scs) && s == Stream(units, scs) && !LastEmpty(units)
    requires c == NaiveScan(s) && Delimiting(s, c) && Units(s, c) == units
    ensures Quiet(units[k], k + 1 == |units|)
  {
    var u := units[k];
    UnitFound(units, scs, s, c, k);
    var limit := if k + 1 == |units| && u != [] then |u| - 1 else |u|;
    forall i | 0 <= i && i + 2 < limit ensures !(u[i] == 0 && u[i + 1] == 0 && u[i + 2] == 1) {
      NoCodeBetween(s, c, k, c[k].startPos + i);
    }
  }

  /** No code begins inside a unit that was found. */
  lemma NoCodeBetween(s: seq<byte>, c: seq<ScNalu>, k: nat, p: nat)
    requires c == NaiveScan(s) && Delimiting(s, c) && k < |c|
    requires c[k].startPos <= p && p + 3 <= UnitEnd(s, c, k)
    ensures !IsCode(s, p)
  {
    CodesSound(s, 0, |s|);
    assert DelimitsAt(s, c, k);
    if k + 1 < |c| {
      assert DelimitsAt(s, c, k + 1);
    }
    if IsCode(s, p) {
      CodesComplete(s, 0, |s|, p);
      var m :| 0 <= m < |c| && c[m] == CodeAt(s, p);
    }
  }

  /** A zero before a 3-byte code would have made it a 4-byte one. */
  lemma FoundLong(units: seq<seq<byte>>, scs: seq<seq<byte>>, s: seq<byte>, c: seq<ScNalu>, k: nat)
    requires k + 1 < |units| == |scs| && StartCodes(scs) && s == Stream(units, scs) && !LastEmpty(units)
    requires c == NaiveScan(s) && Delimiting(s, c) && Units(s, c) == units
    ensures EndsInZero(units[k]) ==> |scs[k + 1]| == 4
  {
    hide *;
    UnitFound(units, scs, s, c, k);
    FoundAreInserted(units, scs, s, c, k + 1);
    EntrySound(s, c, k + 1);
    ZeroBefore(s, c, k, units[k], |scs[k + 1]|);
  }

  lemma ZeroBefore(s: seq<byte>, c: seq<ScNalu>, k: nat, u: seq<byte>, n: nat)
    requires k + 1 < |c| && DelimitsAt(s, c, k) && UnitAt(s, c, k) == u
    requires c[k + 1].startPos >= 3 && IsCode(s, c[k + 1].startPos - 3)
    requires c[k + 1] == CodeAt(s, c[k + 1].startPos - 3) && c[k + 1] == ScNalu(n, UnitEnd(s, c, k) + n)
    ensures EndsInZero(u) ==> n == 4
  {
    var e := UnitEnd(s, c, k);
    if EndsInZero(u) {
      assert s[e - 1] == u[|u| - 1] == 0;
    }
  }

  /** The conversion of a stream to a sample recovers the units exactly if they are separable and the last one is not
      empty.
    */
  lemma RecoversExact(units: seq<seq<byte>>, scs: seq<seq<byte>>)
    requires |units| == |scs| && StartCodes(scs)
    ensures var s := Stream(units, scs);
            var c := NaiveScan(s);
            && Delimiting(s, c)
            && (Separable(units, scs) && !LastEmpty(units) ==> Units(s, c) == units && Head(s, c) == [])
            && (LastEmpty(units) || (!Separable(units, scs) && |Prefixed(units)| < 0x1_0000_0000) ==>
                  Prefixed(Units(s, c)) != Prefixed(units) && Head(s, c) + Prefixed(Units(s, c)) != Prefixed(units))
  {
    var s := Stream(units, scs);
    var c := NaiveScan(s);
    NaiveScanDelimits(s);
    if LastEmpty(units) {
      EmptyLastUnitLost(units, scs);
    } else if Separable(units, scs) {
      StreamScan(units, scs);
    } else {
      FirstCode(units, scs, s);
      assert Head(s, c) == [] && [] + Prefixed(Units(s, c)) == Prefixed(Units(s, c));
      if Prefixed(Units(s, c)) == Prefixed(units) && |Prefixed(units)| < 0x1_0000_0000 {
        SamePrefixed(units, Units(s, c));
        FoundSeparable(units, scs, s, c);
      }
    }
  }

  // ----- both ways -----

  /** A sample becomes a byte stream and, from there, the same sample again if and only if its last unit is not empty
      and none has 00 00 01 inside, except that the last one may end in it; then both times in place.
    */
  method SampleRoundTrip(sample: array<byte>, ghost units: seq<seq<byte>>) returns (back: array<byte>)
    requires sample.Length < 0x1_0000_0000 && sample[..] == Prefixed(units)
    modifies sample
    ensures back[..] == old(sample[..]) <==> !LastEmpty(units) && AllQuiet(units)
    ensures back[..] == old(sample[..]) ==> back == sample
  {
    ghost var scs := LongCodes(|units|);
    DelimitPrefixed(units, scs, sample[..], 0, 0);
    assert [] + Delimited(sample[..], 0) == Delimited(sample[..], 0);
    LongSeparable(units, scs);
    RecoversExact(units, scs);
    if Separable(units, scs) && !LastEmpty(units) {
      StreamScan(units, scs);
      InsertedLong(units, scs, |units|);
    }
    ConvertSampleToByteStream(sample);
    back := ConvertByteStreamToNaluSample(sample);
  }

  /** A byte stream with start codes of either length becomes the sample of its units if and only if the last one is not
      empty, none has 00 00 01 inside, except that the last one may end in it, and no 3-byte code follows a zero byte;
      from 2^32 bytes on, where a length field does not hold every length, the last two are only sufficient.
    */
  method StreamToSample(stream: array<byte>, ghost units: seq<seq<byte>>, ghost scs: seq<seq<byte>>)
    returns (sample: array<byte>)
    requires |units| == |scs| && StartCodes(scs) && stream[..] == Stream(units, scs)
    modifies stream
    ensures !LastEmpty(units) && Separable(units, scs) ==> sample[..] == Prefixed(units)
    ensures LastEmpty(units) ==> sample[..] != Prefixed(units)
    ensures !Separable(units, scs) && |Prefixed(units)| < 0x1_0000_0000 ==> sample[..] != Prefixed(units)
  {
    RecoversExact(units, scs);
    assert [] + Prefixed(units) == Prefixed(units);
    sample := ConvertByteStreamToNaluSample(stream);
  }
}
