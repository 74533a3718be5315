/** avc/annexb.go: the start-code scanner and the conversions between byte streams (Annex B of
    ITU-T H.264) and samples with 4-byte length fields. A Go `uint` has 64 bits.
  */
module AnnexB {
  import opened BitStrings

  /** A found start code: its length and the position of the byte after it. */
  datatype ScNalu = ScNalu(startCodeLength: nat, startPos: nat)

  // ----- the naive scan, as the specification -----

  /** A start code 00 00 01 at i with at least one byte after it. */
  predicate IsCode(s: seq<byte>, i: int) {
    0 <= i && i + 3 < |s| && s[i] == 0 && s[i + 1] == 0 && s[i + 2] == 1
  }

  /** The entry for the start code at i: a zero byte before it makes it a 4-byte code. */
  function CodeAt(s: seq<byte>, i: nat): ScNalu
    requires IsCode(s, i)
  {
    ScNalu(if i >= 1 && s[i - 1] == 0 then 4 else 3, i + 3)
  }

  /** The start codes that begin in [lo, hi), in order. */
  function Codes(s: seq<byte>, lo: nat, hi: nat): seq<ScNalu>
    decreases hi
  {
    if hi <= lo then []
    else Codes(s, lo, hi - 1) + (if IsCode(s, hi - 1) then [CodeAt(s, hi - 1)] else [])
  }

  function NaiveScan(s: seq<byte>): seq<ScNalu> {
    Codes(s, 0, |s|)
  }

  predicate HasShort(codes: seq<ScNalu>) {
    exists k :: 0 <= k < |codes| && codes[k].startCodeLength < 4
  }

  /** The least start code length, 4 when there is none. */
  function MinLength(codes: seq<ScNalu>): nat {
    if HasShort(codes) then 3 else 4
  }

  lemma {:induction false} CodesSplit(s: seq<byte>, lo: nat, mid: nat, hi: nat)
    requires lo <= mid <= hi
    ensures Codes(s, lo, hi) == Codes(s, lo, mid) + Codes(s, mid, hi)
    decreases hi
  {
    if mid < hi {
      CodesSplit(s, lo, mid, hi - 1);
    }
  }

  /** Every entry stands for a start code in the range, and the entries are ordered. */
  lemma {:induction false} CodesSound(s: seq<byte>, lo: nat, hi: nat)
    ensures var c := Codes(s, lo, hi);
            && (forall x :: x in c ==>
                              lo + 3 <= x.startPos < hi + 3 && IsCode(s, x.startPos - 3)
                              && x == CodeAt(s, x.startPos - 3))
            && (forall j, k :: 0 <= j < k < |c| ==> c[j].startPos < c[k].startPos)
    decreases hi
  {
    if lo < hi {
      CodesSound(s, lo, hi - 1);
      var c, c' := Codes(s, lo, hi), Codes(s, lo, hi - 1);
      assert forall k :: 0 <= k < |c'| ==> c[k] == c'[k];
      assert |c| > |c'| ==> IsCode(s, hi - 1) && c[|c'|] == CodeAt(s, hi - 1);
    }
  }

  /** No start code is missed. */
  lemma {:induction false} CodesComplete(s: seq<byte>, lo: nat, hi: nat, i: nat)
    requires lo <= i < hi && IsCode(s, i)
    ensures CodeAt(s, i) in Codes(s, lo, hi)
    decreases hi
  {
    var c' := Codes(s, lo, hi - 1);
    if i < hi - 1 {
      CodesComplete(s, lo, hi - 1, i);
    } else {
      assert Codes(s, lo, hi)[|c'|] == CodeAt(s, i);
    }
  }

  // ----- the word trick -----

  const UINT_SIZE := 8
  const MAGIC_LEFT: bv64 := 0x0101010101010101
  const MAGIC_RIGHT: bv64 := 0x8080808080808080

  predicate HasZeroByte(x: bv64) {
    ((x - MAGIC_LEFT) & (!x) & MAGIC_RIGHT) != 0
  }

  function Pack(b0: bv8, b1: bv8, b2: bv8, b3: bv8, b4: bv8, b5: bv8, b6: bv8, b7: bv8): bv64 {
    (b0 as bv64) | ((b1 as bv64) << 8) | ((b2 as bv64) << 16) | ((b3 as bv64) << 24) |
    ((b4 as bv64) << 32) | ((b5 as bv64) << 40) | ((b6 as bv64) << 48) | ((b7 as bv64) << 56)
  }

  /** The eight bytes from i, read through a pointer to uint (least significant first; the trick is
      indifferent to the order). */
  function LoadWord(s: seq<byte>, i: nat): bv64
    requires i + 8 <= |s|
  {
    Pack(s[i] as bv8, s[i + 1] as bv8, s[i + 2] as bv8, s[i + 3] as bv8,
         s[i + 4] as bv8, s[i + 5] as bv8, s[i + 6] as bv8, s[i + 7] as bv8)
  }

  lemma PackZero(b0: bv8, b1: bv8, b2: bv8, b3: bv8, b4: bv8, b5: bv8, b6: bv8, b7: bv8)
    ensures HasZeroByte(Pack(b0, b1, b2, b3, b4, b5, b6, b7)) <==>
            b0 == 0 || b1 == 0 || b2 == 0 || b3 == 0 || b4 == 0 || b5 == 0 || b6 == 0 || b7 == 0
  {
  }

  lemma ByteZero(b: byte)
    ensures b as bv8 == 0 <==> b == 0
  {
  }

  /** The bit trick finds a zero byte just when there is one. */
  lemma ZeroByteExact(s: seq<byte>, i: nat)
    requires i + 8 <= |s|
    ensures HasZeroByte(LoadWord(s, i)) <==> exists k :: i <= k < i + 8 && s[k] == 0
  {
    PackZero(s[i] as bv8, s[i + 1] as bv8, s[i + 2] as bv8, s[i + 3] as bv8,
             s[i + 4] as bv8, s[i + 5] as bv8, s[i + 6] as bv8, s[i + 7] as bv8);
    forall k | i <= k < i + 8 ensures s[k] as bv8 == 0 <==> s[k] == 0 {
      ByteZero(s[k]);
    }
  }

  lemma {:induction false} NoZeroNoCode(s: seq<byte>, lo: nat, hi: nat)
    requires forall k :: lo <= k < hi && k < |s| ==> s[k] != 0
    ensures Codes(s, lo, hi) == []
    decreases hi
  {
    if lo < hi {
      NoZeroNoCode(s, lo, hi - 1);
    }
  }

  // ----- the scanner -----

  /** The running minimum after found, a list of at most one code of length 3 or 4. */
  function Lower(min: nat, found: seq<ScNalu>): nat {
    if found != [] && found[0].startCodeLength < min then found[0].startCodeLength else min
  }

  lemma LowerIsMin(c: seq<ScNalu>, found: seq<ScNalu>)
    requires |found| <= 1
    requires found != [] ==> 3 <= found[0].startCodeLength <= 4
    ensures Lower(MinLength(c), found) == MinLength(c + found)
  {
    if HasShort(c) {
      var k :| 0 <= k < |c| && c[k].startCodeLength < 4;
      assert (c + found)[k] == c[k];
    } else if found != [] {
      assert (c + found)[|c|] == found[0];
    } else {
      assert c + found == c;
    }
  }

  /** The code at i, if there is one. */
  function FoundAt(s: seq<byte>, i: nat): seq<ScNalu> {
    if IsCode(s, i) then [CodeAt(s, i)] else []
  }

  /** The code that begins at one of the two positions that the byte at j decides about. */
  function FoundAround(s: seq<byte>, j: nat): seq<ScNalu>
    requires j >= 1
  {
    if IsCode(s, j - 1) then [CodeAt(s, j - 1)] else FoundAt(s, j)
  }

  lemma CodesOne(s: seq<byte>, lo: nat, i: nat)
    requires lo <= i
    ensures Codes(s, lo, i + 1) == Codes(s, lo, i) + FoundAt(s, i)
    ensures MinLength(Codes(s, lo, i + 1)) == Lower(MinLength(Codes(s, lo, i)), FoundAt(s, i))
  {
    LowerIsMin(Codes(s, lo, i), FoundAt(s, i));
  }

  lemma CodesTwo(s: seq<byte>, lo: nat, j: nat)
    requires lo < j
    ensures Codes(s, lo, j + 1) == Codes(s, lo, j - 1) + FoundAround(s, j)
    ensures MinLength(Codes(s, lo, j + 1)) == Lower(MinLength(Codes(s, lo, j - 1)), FoundAround(s, j))
  {
    CodesOne(s, lo, j - 1);
    CodesOne(s, lo, j);
    LowerIsMin(Codes(s, lo, j - 1), FoundAround(s, j));
  }

  /** The word-loop's look at the byte at j and its neighbours. */
  method CheckOddByte(stream: array<byte>, j: nat, min: nat) returns (found: seq<ScNalu>, min': nat)
    requires 1 <= j && j + 3 < stream.Length
    ensures found == FoundAround(stream[..], j) && min' == Lower(min, found)
  {
    found, min' := [], min;
    if stream[j] == 0 {
      var startPos, startCodeLength := 0, 3;
      if stream[j - 1] == 0 && stream[j + 1] == 1 {
        if j - 2 >= 0 && stream[j - 2] == 0 {
          startCodeLength := startCodeLength + 1;
        }
        startPos := j + 2;
      } else if stream[j + 1] == 0 && stream[j + 2] == 1 {
        if j - 1 >= 0 && stream[j - 1] == 0 {
          startCodeLength := startCodeLength + 1;
        }
        startPos := j + 3;
      }
      if startPos != 0 {
        if startCodeLength < min {
          min' := startCodeLength;
        }
        found := [ScNalu(startCodeLength, startPos)];
      }
    }
  }

  /** The tail-loop's look at the bytes from i. */
  method CheckTailByte(stream: array<byte>, i: nat, min: nat) returns (found: seq<ScNalu>, min': nat)
    requires i + 3 < stream.Length
    ensures found == FoundAt(stream[..], i) && min' == Lower(min, found)
  {
    found, min' := [], min;
    if stream[i] == 0 && stream[i + 1] == 0 && stream[i + 2] == 1 {
      var startCodeLength := 3;
      var startPos := i + 3;
      if i - 1 >= 0 && stream[i - 1] == 0 {
        startCodeLength := startCodeLength + 1;
      }
      if startCodeLength < min {
        min' := startCodeLength;
      }
      found := [ScNalu(startCodeLength, startPos)];
    }
  }

  /** The word-loop's inner loop over the odd bytes of the word at i. */
  method CheckOddBytes(stream: array<byte>, i: nat, scNalus: seq<ScNalu>, min: nat)
    returns (scNalus': seq<ScNalu>, min': nat)
    requires i + 10 < stream.Length
    requires scNalus == Codes(stream[..], 0, i) && min == MinLength(scNalus)
    ensures scNalus' == Codes(stream[..], 0, i + 8) && min' == MinLength(scNalus')
  {
    scNalus', min' := scNalus, min;
    var j := i + 1;
    ghost var o := 0;
    while j < i + UINT_SIZE
      invariant j == i + 1 + 2 * o && 0 <= o <= 4
      invariant scNalus' == Codes(stream[..], 0, j - 1) && min' == MinLength(scNalus')
    {
      CodesTwo(stream[..], 0, j);
      var found;
      found, min' := CheckOddByte(stream, j, min');
      scNalus' := scNalus' + found;
      j, o := j + 2, o + 1;
    }
  }

  lemma NoZeroSkip(s: seq<byte>, i: nat)
    requires i + 8 <= |s| && !HasZeroByte(LoadWord(s, i))
    ensures Codes(s, 0, i + 8) == Codes(s, 0, i)
  {
    ZeroByteExact(s, i);
    NoZeroNoCode(s, i, i + 8);
    CodesSplit(s, 0, i, i + 8);
  }

  /** getStartCodePositions: whole words first, looking only at odd bytes, then byte by byte. */
  method GetStartCodePositions(stream: array<byte>) returns (scNalus: seq<ScNalu>, minStartCodeLength: nat)
    ensures scNalus == NaiveScan(stream[..])
    ensures minStartCodeLength == MinLength(scNalus)
  {
    var streamLen := stream.Length;
    var streamLenLim := streamLen - streamLen % UINT_SIZE - UINT_SIZE;
    ghost var words := streamLen / 8 - 1;
    minStartCodeLength := 4;
    scNalus := [];
    var i := 0;
    ghost var w := 0;
    while i < streamLenLim
      invariant i == 8 * w && 0 <= w && (w == 0 || w <= words)
      invariant scNalus == Codes(stream[..], 0, i) && minStartCodeLength == MinLength(scNalus)
    {
      if HasZeroByte(LoadWord(stream[..], i)) {
        scNalus, minStartCodeLength := CheckOddBytes(stream, i, scNalus, minStartCodeLength);
      } else {
        NoZeroSkip(stream[..], i);
      }
      i, w := i + UINT_SIZE, w + 1;
    }
    while i < streamLen - 3
      invariant 0 <= i <= streamLen && (i <= streamLen - 3 || i == 0)
      invariant scNalus == Codes(stream[..], 0, i) && minStartCodeLength == MinLength(scNalus)
    {
      CodesOne(stream[..], 0, i);
      var found;
      found, minStartCodeLength := CheckTailByte(stream, i, minStartCodeLength);
      scNalus := scNalus + found;
      i := i + 1;
    }
    CodesEnd(stream[..], i);
  }

  lemma {:induction false} NoLateCodes(s: seq<byte>, lo: nat, hi: nat)
    requires lo + 3 >= |s|
    ensures Codes(s, lo, hi) == []
    decreases hi
  {
    if lo < hi {
      NoLateCodes(s, lo, hi - 1);
    }
  }

  lemma CodesEnd(s: seq<byte>, i: nat)
    requires i <= |s| <= i + 3
    ensures Codes(s, 0, i) == NaiveScan(s)
  {
    CodesSplit(s, 0, i, |s|);
    NoLateCodes(s, i, |s|);
  }
}
