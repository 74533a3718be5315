/** Which counter blocks a run of samples encrypted with scheme cenc uses (incrementIV and EncryptFragment in
    mp4/crypto.go; section 9.5 of ISO/IEC 23001-7).
  */
module CencCounters {
  import opened BitStrings
  import opened BigEndian
  import opened BlockCipher
  import opened SampleCrypt
  import opened CencRun
  import ProtectRanges

  /** The number of bytes of a sample that meet the key stream. */
  function KeyBytes(pats: seq<Pattern>, n: nat): nat {
    if pats == [] then n else Used(pats, |pats|)
  }

  /** The number of counter blocks that so many bytes need. */
  function Needed(bytes: nat): nat {
    (bytes + 15) / 16
  }

  /** Every protected range consists of whole blocks. */
  predicate WholeRanges(pats: seq<Pattern>, j: nat)
    requires j <= |pats|
  {
    j == 0 || (pats[j - 1].prot % 16 == 0 && WholeRanges(pats, j - 1))
  }

  lemma {:induction false} BlocksOfRanges(pats: seq<Pattern>, j: nat)
    requires j <= |pats|
    ensures 16 * BlocksTo(pats, j) <= Used(pats, j)
    ensures 16 * BlocksTo(pats, j) == Used(pats, j) <==> WholeRanges(pats, j)
  {
    if j > 0 {
      BlocksOfRanges(pats, j - 1);
      var x := pats[j - 1].prot;
      assert x == 16 * (x / 16) + x % 16;
    }
  }

  /** incrementIV moves the counter past all the blocks that the sample used if and only if every protected range
      consists of whole blocks (or there are no ranges); otherwise it moves it less.
    */
  lemma BlocksExact(pats: seq<Pattern>, n: nat)
    ensures Blocks(pats, n) <= Needed(KeyBytes(pats, n))
    ensures Blocks(pats, n) == Needed(KeyBytes(pats, n)) <==> WholeRanges(pats, |pats|)
  {
    BlocksOfRanges(pats, |pats|);
  }

  /** The counter steps of the first k samples, in 16-byte mode. */
  function BlocksUpTo(pats: seq<seq<Pattern>>, d: seq<seq<byte>>, k: nat): nat
    requires k <= |pats| == |d|
  {
    if k == 0 then 0 else BlocksUpTo(pats, d, k - 1) + Blocks(pats[k - 1], |d[k - 1]|)
  }

  lemma {:induction false} BlocksUpToMono(pats: seq<seq<Pattern>>, d: seq<seq<byte>>, i: nat, j: nat)
    requires i <= j <= |pats| == |d|
    ensures BlocksUpTo(pats, d, i) <= BlocksUpTo(pats, d, j)
  {
    if i < j {
      BlocksUpToMono(pats, d, i, j - 1);
    }
  }

  /** With 16-byte vectors each sample starts where the steps of all earlier ones end. */
  lemma {:induction false} IVIsCounter(p: Protection, ivs: seq<seq<byte>>, pats: seq<seq<Pattern>>, d: seq<seq<byte>>,
                                       k: nat)
    requires Chained(p, ivs, pats, d) && k <= |d| && p.scheme.SchemeCenc? && !p.Iv8Mode()
    ensures ivs[k] == AddBE(ivs[0], BlocksUpTo(pats, d, k))
  {
    if k == 0 {
      AddBEZero(ivs[0]);
    } else {
      IVIsCounter(p, ivs, pats, d, k - 1);
      assert ChainedAt(p, ivs, pats, d, k - 1);
      AddBEAdd(ivs[0], BlocksUpTo(pats, d, k - 1), Blocks(pats[k - 1], |d[k - 1]|));
    }
  }

  /** The counter block for byte x of the protected bytes of a sample with vector v, as KeyByte takes it. */
  function CounterOf(v: seq<byte>, x: nat): (c: seq<byte>)
    ensures |c| == 16
  {
    AddBE(Pad16(v), x / 16)
  }

  lemma CounterValue(p: Protection, ivs: seq<seq<byte>>, pats: seq<seq<Pattern>>, d: seq<seq<byte>>, k: nat, x: nat,
                     v: seq<byte>, n: nat, c: seq<byte>)
    requires Chained(p, ivs, pats, d) && k <= |d| && p.scheme.SchemeCenc? && !p.Iv8Mode() && v == ivs[0] && |v| == 16
    requires n == BlocksUpTo(pats, d, k) + x / 16 && c == CounterOf(ivs[k], x)
    ensures c == AddBE(v, n)
  {
    IVIsCounter(p, ivs, pats, d, k);
    AddBEAdd(v, BlocksUpTo(pats, d, k), x / 16);
  }

  ghost predicate WholeAt(pats: seq<seq<Pattern>>, k: nat) {
    k < |pats| ==> WholeRanges(pats[k], |pats[k]|)
  }

  /** The protected ranges of all samples consist of whole blocks. */
  ghost predicate AllWhole(pats: seq<seq<Pattern>>) {
    forall k: nat :: WholeAt(pats, k)
  }

  lemma InsideSample(pats: seq<seq<Pattern>>, d: seq<seq<byte>>, k: nat, x: nat)
    requires k < |pats| == |d| && WholeRanges(pats[k], |pats[k]|) && x < KeyBytes(pats[k], |d[k]|)
    ensures BlocksUpTo(pats, d, k) + x / 16 < BlocksUpTo(pats, d, k + 1) <= BlocksUpTo(pats, d, |d|)
  {
    hide KeyBytes, Needed, WholeRanges;
    BlocksExact(pats[k], |d[k]|);
    InNeeded(x, KeyBytes(pats[k], |d[k]|));
    BlocksUpToMono(pats, d, k + 1, |d|);
  }

  lemma DifferentCounters(iv: seq<byte>, a: nat, b: nat, p: nat, c: seq<byte>, c': seq<byte>)
    requires c == AddBE(iv, a) && c' == AddBE(iv, b) && p == Pow256(|iv|) && a < b < a + p
    ensures c != c'
  {
    AddBEInjective(iv, a, b);
  }

  lemma SameCounter(iv: seq<byte>, a: nat, b: nat, p: nat, c: seq<byte>, c': seq<byte>)
    requires c == AddBE(iv, a) && c' == AddBE(iv, b) && p == Pow256(|iv|) && a < b + p && b < a + p
    ensures c == c' <==> a == b
  {
    if a < b {
      DifferentCounters(iv, a, b, p, c, c');
    } else if b < a {
      DifferentCounters(iv, b, a, p, c', c);
    }
  }

  lemma SpansApart(pats: seq<seq<Pattern>>, d: seq<seq<byte>>, i: nat, x: nat, j: nat, y: nat)
    requires |pats| == |d| && AllWhole(pats)
    requires i < |d| && x < KeyBytes(pats[i], |d[i]|) && j < |d| && y < KeyBytes(pats[j], |d[j]|)
    requires i < j || (i == j && x / 16 < y / 16)
    ensures BlocksUpTo(pats, d, i) + x / 16 < BlocksUpTo(pats, d, j) + y / 16 < BlocksUpTo(pats, d, |d|)
  {
    hide BlocksUpTo, KeyBytes, WholeRanges;
    assert WholeAt(pats, i) && WholeAt(pats, j);
    InsideSample(pats, d, i, x);
    InsideSample(pats, d, j, y);
    if i < j {
      BlocksUpToMono(pats, d, i + 1, j);
    }
  }

  /** No counter block is used for two blocks of data: for whole ranges, and as long as the steps of the whole run do
      not exceed 2^128 (256^16).
    */
  lemma CountersDistinct(p: Protection, ivs: seq<seq<byte>>, pats: seq<seq<Pattern>>, d: seq<seq<byte>>,
                         i: nat, x: nat, j: nat, y: nat)
    requires Chained(p, ivs, pats, d) && p.scheme.SchemeCenc? && !p.Iv8Mode() && |ivs[0]| == 16
    requires AllWhole(pats)
    requires BlocksUpTo(pats, d, |d|) <= Pow256(|ivs[0]|)
    requires i < |d| && x < KeyBytes(pats[i], |d[i]|) && j < |d| && y < KeyBytes(pats[j], |d[j]|)
    requires i < j || (i == j && x / 16 < y / 16)
    ensures CounterOf(ivs[i], x) != CounterOf(ivs[j], y)
  {
    var a, b := BlocksUpTo(pats, d, i) + x / 16, BlocksUpTo(pats, d, j) + y / 16;
    SpansApart(pats, d, i, x, j, y);
    var v, c, c' := ivs[0], CounterOf(ivs[i], x), CounterOf(ivs[j], y);
    CounterValue(p, ivs, pats, d, i, x, v, a, c);
    CounterValue(p, ivs, pats, d, j, y, v, b, c');
    DifferentCounters(v, a, b, Pow256(|v|), c, c');
  }

  /** Byte x of the protected bytes of sample k shares its counter block with the start of the next sample. */
  ghost predicate Reuses(ivs: seq<seq<byte>>, k: nat, x: nat)
    requires k + 1 < |ivs|
  {
    CounterOf(ivs[k], x) == CounterOf(ivs[k + 1], 0)
  }

  lemma ReuseAt(p: Protection, ivs: seq<seq<byte>>, pats: seq<seq<Pattern>>, d: seq<seq<byte>>, k: nat, x: nat)
    requires Chained(p, ivs, pats, d) && p.scheme.SchemeCenc? && !p.Iv8Mode() && |ivs[0]| == 16 && k < |d|
    requires x / 16 < Pow256(|ivs[0]|) && Blocks(pats[k], |d[k]|) < Pow256(|ivs[0]|)
    ensures Reuses(ivs, k, x) <==> x / 16 == Blocks(pats[k], |d[k]|)
  {
    hide AddBE, Pow256, Pad16, Blocks, ChainedAt;
    var s, n, c, c' := BlocksUpTo(pats, d, k), Blocks(pats[k], |d[k]|), CounterOf(ivs[k], x), CounterOf(ivs[k + 1], 0);
    var a, b, v := s + x / 16, s + n, ivs[0];
    CounterValue(p, ivs, pats, d, k, x, v, a, c);
    CounterValue(p, ivs, pats, d, k + 1, 0, v, b, c');
    SameCounter(v, a, b, Pow256(|v|), c, c');
  }

  /** Without that premise the property fails: the counter that is left for the next sample was already used by sample k
      if and only if one of the ranges of sample k has a partial block.
    */
  lemma ReuseExact(p: Protection, ivs: seq<seq<byte>>, pats: seq<seq<Pattern>>, d: seq<seq<byte>>, k: nat)
    requires Chained(p, ivs, pats, d) && p.scheme.SchemeCenc? && !p.Iv8Mode() && |ivs[0]| == 16 && k < |d|
    requires Needed(KeyBytes(pats[k], |d[k]|)) < Pow256(|ivs[0]|)
    ensures !WholeRanges(pats[k], |pats[k]|) <==> exists x: nat :: x < KeyBytes(pats[k], |d[k]|) && Reuses(ivs, k, x)
  {
    var n, t := Blocks(pats[k], |d[k]|), KeyBytes(pats[k], |d[k]|);
    BlocksExact(pats[k], |d[k]|);
    if WholeRanges(pats[k], |pats[k]|) {
      forall x: nat | x < t ensures !Reuses(ivs, k, x) {
        ReuseAt(p, ivs, pats, d, k, x);
      }
    } else {
      ReuseAt(p, ivs, pats, d, k, 16 * n);
      assert 16 * n < t && Reuses(ivs, k, 16 * n);
    }
  }

  // ----- whole runs -----

  /** The counter blocks that the first k samples need. */
  function NeededUpTo(pats: seq<seq<Pattern>>, d: seq<seq<byte>>, k: nat): nat
    requires k <= |d| == |pats|
  {
    if k == 0 then 0 else NeededUpTo(pats, d, k - 1) + Needed(KeyBytes(pats[k - 1], |d[k - 1]|))
  }

  lemma {:induction false} NeededCovers(pats: seq<seq<Pattern>>, d: seq<seq<byte>>, j: nat, k: nat)
    requires j <= k <= |d| == |pats|
    ensures BlocksUpTo(pats, d, j) <= NeededUpTo(pats, d, j) <= NeededUpTo(pats, d, k)
  {
    if j < k {
      NeededCovers(pats, d, j, k - 1);
    } else if k > 0 {
      NeededCovers(pats, d, k - 1, k - 1);
      BlocksExact(pats[k - 1], |d[k - 1]|);
    }
  }

  /** Protected bytes x of sample i and y of sample j, which lie in different blocks of data, share a counter block. */
  ghost predicate Shared(ivs: seq<seq<byte>>, pats: seq<seq<Pattern>>, d: seq<seq<byte>>, i: nat, x: nat, j: nat,
                         y: nat)
    requires |ivs| > |d| == |pats|
  {
    && i < |d| && x < KeyBytes(pats[i], |d[i]|) && j < |d| && y < KeyBytes(pats[j], |d[j]|)
    && (i < j || (i == j && x / 16 < y / 16))
    && CounterOf(ivs[i], x) == CounterOf(ivs[j], y)
  }

  /** Sample i has a range with a partial block, and sample j, somewhere behind it, has protected bytes. */
  ghost predicate PartialBefore(pats: seq<seq<Pattern>>, d: seq<seq<byte>>, i: nat, j: nat)
    requires |d| == |pats|
  {
    i < j < |d| && !WholeRanges(pats[i], |pats[i]|) && KeyBytes(pats[j], |d[j]|) > 0
  }

  lemma {:induction false} FirstBehind(pats: seq<seq<Pattern>>, d: seq<seq<byte>>, i: nat, j: nat) returns (j': nat)
    requires |d| == |pats| && PartialBefore(pats, d, i, j)
    ensures PartialBefore(pats, d, i, j') && BlocksUpTo(pats, d, j') == BlocksUpTo(pats, d, i + 1)
    decreases j
  {
    if k: nat :| i < k < j && KeyBytes(pats[k], |d[k]|) > 0 {
      j' := FirstBehind(pats, d, i, k);
    } else {
      j' := j;
      NoSteps(pats, d, i + 1, j);
    }
  }

  lemma {:induction false} NoSteps(pats: seq<seq<Pattern>>, d: seq<seq<byte>>, i: nat, j: nat)
    requires i <= j <= |d| == |pats| && forall k :: i <= k < j ==> KeyBytes(pats[k], |d[k]|) == 0
    ensures BlocksUpTo(pats, d, j) == BlocksUpTo(pats, d, i)
  {
    if i < j {
      NoSteps(pats, d, i, j - 1);
      BlocksExact(pats[j - 1], |d[j - 1]|);
    }
  }

  lemma {:induction false} WholeSteps(pats: seq<seq<Pattern>>, d: seq<seq<byte>>, i: nat, x: nat, j: nat)
    requires i < j <= |d| == |pats| && x < KeyBytes(pats[i], |d[i]|) && WholeRanges(pats[i], |pats[i]|)
    ensures BlocksUpTo(pats, d, i) + x / 16 < BlocksUpTo(pats, d, j)
  {
    BlocksExact(pats[i], |d[i]|);
    assert x / 16 < Needed(KeyBytes(pats[i], |d[i]|));
    BlocksUpToMono(pats, d, i + 1, j);
  }

  /** Some counter block of a run is used twice if and only if a sample with a partial block in one of its ranges is
      followed, at whatever distance, by a sample with protected bytes. This holds for up to 2^128 (256^16) blocks.
    */
  lemma RunReuseExact(p: Protection, ivs: seq<seq<byte>>, pats: seq<seq<Pattern>>, d: seq<seq<byte>>)
    requires Chained(p, ivs, pats, d) && p.scheme.SchemeCenc? && !p.Iv8Mode() && |ivs[0]| == 16
    requires NeededUpTo(pats, d, |d|) <= Pow256(|ivs[0]|)
    ensures (exists i: nat, x: nat, j: nat, y: nat :: Shared(ivs, pats, d, i, x, j, y))
       <==> exists i: nat, j: nat :: PartialBefore(pats, d, i, j)
  {
    if i: nat, j: nat :| PartialBefore(pats, d, i, j) {
      var x, j' := PartialShares(p, ivs, pats, d, i, j);
      assert Shared(ivs, pats, d, i, x, j', 0);
    }
    if i: nat, x: nat, j: nat, y: nat :| Shared(ivs, pats, d, i, x, j, y) {
      var i' := SharedNeedsPartial(p, ivs, pats, d, i, x, j, y);
      assert PartialBefore(pats, d, i', j);
    }
  }

  lemma PartialShares(p: Protection, ivs: seq<seq<byte>>, pats: seq<seq<Pattern>>, d: seq<seq<byte>>, i: nat, j: nat)
    returns (x: nat, j': nat)
    requires Chained(p, ivs, pats, d) && p.scheme.SchemeCenc? && !p.Iv8Mode() && |ivs[0]| == 16
    requires PartialBefore(pats, d, i, j)
    ensures Shared(ivs, pats, d, i, x, j', 0)
  {
    j' := FirstBehind(pats, d, i, j);
    var n, v := Blocks(pats[i], |d[i]|), ivs[0];
    BlocksExact(pats[i], |d[i]|);
    x := 16 * n;
    var a := BlocksUpTo(pats, d, i) + n;
    CounterValue(p, ivs, pats, d, i, x, v, a, CounterOf(ivs[i], x));
    CounterValue(p, ivs, pats, d, j', 0, v, a, CounterOf(ivs[j'], 0));
  }

  lemma SharedNeedsPartial(p: Protection, ivs: seq<seq<byte>>, pats: seq<seq<Pattern>>, d: seq<seq<byte>>,
                           i: nat, x: nat, j: nat, y: nat) returns (i': nat)
    requires Chained(p, ivs, pats, d) && p.scheme.SchemeCenc? && !p.Iv8Mode() && |ivs[0]| == 16
    requires NeededUpTo(pats, d, |d|) <= Pow256(|ivs[0]|) && Shared(ivs, pats, d, i, x, j, y)
    ensures PartialBefore(pats, d, i', j)
  {
    hide AddBE, NeededUpTo, BlocksUpTo, Pow256, Pad16, KeyBytes, WholeRanges, ChainedAt;
    i' := i;
    if !PartialBefore(pats, d, i, j) {
      var a, b, v := BlocksUpTo(pats, d, i) + x / 16, BlocksUpTo(pats, d, j) + y / 16, ivs[0];
      StepsApart(pats, d, i, x, j, y, Pow256(|v|));
      CounterValue(p, ivs, pats, d, i, x, v, a, CounterOf(ivs[i], x));
      CounterValue(p, ivs, pats, d, j, y, v, b, CounterOf(ivs[j], y));
      DifferentCounters(v, a, b, Pow256(|v|), CounterOf(ivs[i], x), CounterOf(ivs[j], y));
      assert false;
    }
  }

  lemma StepsApart(pats: seq<seq<Pattern>>, d: seq<seq<byte>>, i: nat, x: nat, j: nat, y: nat, most: nat)
    requires |pats| == |d| && NeededUpTo(pats, d, |d|) <= most && !PartialBefore(pats, d, i, j)
    requires i < |d| && x < KeyBytes(pats[i], |d[i]|) && j < |d| && y < KeyBytes(pats[j], |d[j]|)
    requires i < j || (i == j && x / 16 < y / 16)
    ensures BlocksUpTo(pats, d, i) + x / 16 < BlocksUpTo(pats, d, j) + y / 16 < most
  {
    hide BlocksUpTo, KeyBytes, Needed, WholeRanges;
    if i < j {
      WholeSteps(pats, d, i, x, j);
    }
    InNeeded(y, KeyBytes(pats[j], |d[j]|));
    NeededCovers(pats, d, j, j);
    NeededCovers(pats, d, j + 1, |d|);
  }

  lemma InNeeded(x: nat, bytes: nat)
    requires x < bytes
    ensures x / 16 < Needed(bytes)
  {
  }

  /** Two ranges of 8 bytes each: one counter block is used, but the counter does not move. */
  lemma ReuseExample(n: nat)
    ensures var pats := [Pattern(0, 8), Pattern(0, 8)];
            Needed(KeyBytes(pats, n)) == 1 && Blocks(pats, n) == 0 && !WholeRanges(pats, |pats|)
  {
    var pats := [Pattern(0, 8), Pattern(0, 8)];
    assert Used(pats, 1) == 8 && BlocksTo(pats, 1) == 0;
  }

  /** The ranges that the protectors give for scheme cenc are whole, and they cover the sample that their mask is for;
      so they meet the premises of CountersDistinct and of EncryptFragment.
    */
  lemma {:induction false} ProtectedRanges(pats: seq<Pattern>, j: nat)
    requires j <= |pats| && ProtectRanges.WholeBlocksOnly(pats)
    ensures WholeRanges(pats, j) && Start(pats, j) == |ProtectRanges.Mask(pats, j)|
  {
    ProtectRanges.MaskIsCovered(pats, j);
    if j > 0 {
      ProtectedRanges(pats, j - 1);
    }
  }

  // ----- 8-byte vectors -----

  lemma NestedDivision(f: nat, l: nat, p: nat, n: nat)
    requires p > 0 && l < 256 && n == 256 * f + l
    ensures n / (256 * p) == f / p
  {
    var q, r := f / p, f % p;
    Scale(q, p);
    DivModUnique(n, 256 * p, q, 256 * r + l);
  }

  lemma NoBytes(t: seq<byte>)
    requires t == []
    ensures FromBE(t) == 0 && Pow256(|t|) == 1
  {
  }

  lemma AddBEStep(s: seq<byte>, k: nat)
    requires s != []
    ensures var n, sum := |s| - 1, s[|s| - 1] + k;
            AddBE(s, k) == AddBE(s[..n], sum / 256) + [sum % 256]
  {
  }

  lemma FromBEStep(t: seq<byte>)
    requires t != []
    ensures var n := |t| - 1;
            FromBE(t) == 256 * FromBE(t[..n]) + t[n] && Pow256(|t|) == 256 * Pow256(n)
  {
  }

  /** The upper part of a counter takes the carry of the lower part t. */
  lemma {:induction false} UpperPart(s: seq<byte>, t: seq<byte>, st: seq<byte>, k: nat, q: nat)
    requires st == s + t && q == (FromBE(t) + k) / Pow256(|t|)
    ensures AddBE(st, k)[..|s|] == AddBE(s, q)
  {
    hide AddBE, FromBE, Pow256;
    if t == [] {
      assert st == s;
      NoBytes(t);
    } else {
      var u, l := t[..|t| - 1], t[|t| - 1];
      var su, carry := s + u, (l + k) / 256;
      assert st[..|st| - 1] == su && st[|st| - 1] == l;
      AddBEStep(st, k);
      FromBEStep(t);
      NestedDivision(FromBE(u) + carry, (l + k) % 256, Pow256(|u|), FromBE(t) + k);
      UpperPart(s, u, su, carry, q);
      assert AddBE(st, k)[..|s|] == AddBE(su, carry)[..|s|];
    }
  }

  lemma {:induction false} ZeroCounter(n: nat)
    ensures FromBE(seq(n, _ => 0)) == 0
  {
    if n > 0 {
      var z: seq<byte> := seq(n, _ => 0);
      assert z[..n - 1] == seq(n - 1, _ => 0);
      ZeroCounter(n - 1);
    }
  }

  lemma {:induction false} Iv8Counter(p: Protection, ivs: seq<seq<byte>>, pats: seq<seq<Pattern>>, d: seq<seq<byte>>,
                                      k: nat)
    requires Chained(p, ivs, pats, d) && k <= |d| && p.Iv8Mode()
    ensures ivs[k] == AddBE(ivs[0], k)
  {
    if k == 0 {
      AddBEZero(ivs[0]);
    } else {
      Iv8Counter(p, ivs, pats, d, k - 1);
      assert ChainedAt(p, ivs, pats, d, k - 1);
      AddBEAdd(ivs[0], k - 1, 1);
    }
  }

  lemma SmallQuotient(k: nat, p: nat)
    requires k < p
    ensures k / p == 0
  {
  }

  /** Counters that extend s by zeros begin with s until the lower half overflows. */
  lemma UpperHalf(s: seq<byte>, z: seq<byte>, c: seq<byte>, k: nat, p: nat)
    requires c == s + z && FromBE(z) == 0 && p == Pow256(|z|) && k < p
    ensures AddBE(c, k)[..|s|] == s
  {
    SmallQuotient(k, p);
    UpperPart(s, z, c, k, 0);
    AddBEZero(s);
  }

  /** The counter blocks of a sample with an 8-byte vector all begin with the vector while the lower half, 8 bytes, does
      not overflow.
    */
  lemma Iv8Upper(v: seq<byte>, x: nat)
    requires |v| == 8 && x / 16 < Pow256(|v|)
    ensures CounterOf(v, x)[..8] == v
  {
    var z: seq<byte> := seq(16 - |v|, _ => 0);
    ZeroCounter(16 - |v|);
    UpperHalf(v, z, Pad16(v), x / 16, Pow256(|v|));
  }

  /** So no two of the samples share one, for up to 2^64 samples, whatever their ranges are. */
  lemma Iv8CountersDistinct(p: Protection, ivs: seq<seq<byte>>, pats: seq<seq<Pattern>>, d: seq<seq<byte>>,
                            i: nat, x: nat, j: nat, y: nat)
    requires Chained(p, ivs, pats, d) && p.Iv8Mode() && |ivs[0]| == 8 && |d| <= Pow256(|ivs[0]|)
    requires i < j < |d| && x / 16 < Pow256(|ivs[0]|) && y / 16 < Pow256(|ivs[0]|)
    ensures CounterOf(ivs[i], x) != CounterOf(ivs[j], y)
  {
    Iv8Counter(p, ivs, pats, d, i);
    Iv8Counter(p, ivs, pats, d, j);
    DifferentCounters(ivs[0], i, j, Pow256(|ivs[0]|), ivs[i], ivs[j]);
    Iv8Upper(ivs[i], x);
    Iv8Upper(ivs[j], y);
  }
}
