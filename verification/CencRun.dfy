/** Encrypting the samples of a fragment and decrypting them again (FragmentEncryptor.EncryptFragment and
    decryptSamplesInPlace in mp4/crypto.go, SencBox.AddSample in mp4/senc.go): which initialization vector each sample
    gets, that recorded ones stay as they are, and that decryption restores every sample.
  */
module CencRun {
  import opened BitStrings
  import opened BigEndian
  import opened BlockCipher
  import opened SampleCrypt
  import ByteStream
  import Saiz

  datatype Scheme = SchemeCenc | SchemeCbcs

  /** What protects a track: key, scheme, and the fields of the tenc box. */
  datatype Protection = Protection(c: Cipher, scheme: Scheme, perSampleIVSize: nat, constantIV: seq<byte>,
                                   cryptByteBlock: nat, skipByteBlock: nat)
  {
    predicate Iv8Mode() {
      scheme.SchemeCenc? && perSampleIVSize == 8
    }

    /** IVs are sent with the samples. */
    predicate Sends() {
      scheme.SchemeCenc?
    }

    function Stripe(enc: bool, iv: seq<byte>): RangeCrypt {
      Striping(Cbc(c, enc), iv, cryptByteBlock * 16, skipByteBlock * 16)
    }
  }

  // ----- initialization vectors -----

  /** The number of whole 16-byte blocks in each of the first j protected ranges, summed up. */
  function BlocksTo(pats: seq<Pattern>, j: nat): nat
    requires j <= |pats|
  {
    if j == 0 then 0 else BlocksTo(pats, j - 1) + pats[j - 1].prot / 16
  }

  /** By how much incrementIV moves the counter after a sample of n bytes. */
  function Blocks(pats: seq<Pattern>, n: nat): nat {
    if pats == [] then (n + 15) / 16 else BlocksTo(pats, |pats|)
  }

  /** incrementIV: a new array, so that what the old one is recorded in keeps its value. */
  method IncrementIV(inIV: array<byte>, pats: seq<Pattern>, n: nat) returns (iv: array<byte>)
    ensures fresh(iv) && iv[..] == AddBE(inIV[..], Blocks(pats, n))
  {
    var nrEncBlocks: nat := 0;
    if |pats| == 0 {
      nrEncBlocks := (n + 15) / 16;
    } else {
      var j: nat := 0;
      while j < |pats|
        invariant j <= |pats| && nrEncBlocks == BlocksTo(pats, j)
      {
        nrEncBlocks := nrEncBlocks + pats[j].prot / 16;
        j := j + 1;
      }
    }
    iv := Copied(inIV);
    IncrementIVInPlace(iv, nrEncBlocks);
  }

  method Copied(a: array<byte>) returns (b: array<byte>)
    ensures fresh(b) && b[..] == a[..]
  {
    b := new byte[a.Length](i requires 0 <= i < a.Length reads a => a[i]);
  }

  /** iv := make([]byte, 16); copy(iv, s) */
  function Pad16(s: seq<byte>): (r: seq<byte>)
    ensures |r| == 16
  {
    if |s| == 16 then s else if |s| > 16 then s[..16] else s + seq(16 - |s|, _ => 0)
  }

  /** A shorter vector is followed by zeros, a longer one cut off. */
  lemma PaddedAt(s: seq<byte>, i: nat)
    requires i < 16
    ensures Pad16(s)[i] == if i < |s| then s[i] else 0
  {
  }

  /** The IV of the sample after one with patterns pats and n bytes. */
  function NextIV(p: Protection, iv: seq<byte>, pats: seq<Pattern>, n: nat): seq<byte> {
    if p.scheme.SchemeCbcs? then iv
    else if p.Iv8Mode() then AddBE(iv, 1)
    else AddBE(iv, Blocks(pats, n))
  }

  /** The IV of sample k. */
  function IVAt(p: Protection, iv: seq<byte>, pats: seq<seq<Pattern>>, d: seq<seq<byte>>, k: nat): (r: seq<byte>)
    requires k <= |pats| == |d|
    ensures |r| == |iv|
  {
    if k == 0 then iv else NextIV(p, IVAt(p, iv, pats, d, k - 1), pats[k - 1], |d[k - 1]|)
  }

  /** A sample d encrypted, or decrypted, under the IV iv; the patterns have to fit it. */
  function Crypted(p: Protection, enc: bool, iv: seq<byte>, pats: seq<Pattern>, d: seq<byte>): seq<byte> {
    if Total(pats) > |d| then []
    else if p.scheme.SchemeCenc? then CencSample(CtrKeys(p.c, Pad16(iv)), pats, d)
    else CbcsSample(p.Stripe(enc, Pad16(iv)), pats, d)
  }

  /** Decryption restores a sample from the same IV and patterns. */
  lemma CryptedInverse(p: Protection, iv: seq<byte>, pats: seq<Pattern>, d: seq<byte>)
    requires p.c.Permutes() && Total(pats) <= |d|
    ensures |Crypted(p, true, iv, pats, d)| == |d|
    ensures Crypted(p, false, iv, pats, Crypted(p, true, iv, pats, d)) == d
  {
    if p.scheme.SchemeCenc? {
      CencSampleTwice(CtrKeys(p.c, Pad16(iv)), pats, d);
    } else {
      CbcLaws(p.c);
      StripingLaws(Cbc(p.c, true), Cbc(p.c, false), Pad16(iv), p.cryptByteBlock * 16, p.skipByteBlock * 16);
      CbcsSampleInverse(p.Stripe(true, Pad16(iv)), p.Stripe(false, Pad16(iv)), pats, d, Crypted(p, true, iv, pats, d));
    }
  }

  /** What becomes of protected range j of a cbcs sample, and of the clear bytes before it; without patterns all of the
      sample is one range.
    */
  lemma CbcsCrypted(p: Protection, enc: bool, iv: seq<byte>, pats: seq<Pattern>, d: seq<byte>, e: seq<byte>, j: nat,
                    s: nat, a: nat, b: nat)
    requires p.c.Permutes() && p.scheme.SchemeCbcs? && Total(pats) <= |d| && e == Crypted(p, enc, iv, pats, d)
    requires if pats == [] then s == a == 0 && b == |d|
             else j < |pats| && s == Start(pats, j) && a == s + pats[j].clear && b == Start(pats, j + 1)
    ensures |e| == |d| && s <= a <= b <= |d| && e[s..a] == d[s..a]
    ensures e[a..b] == Striping(Cbc(p.c, enc), Pad16(iv), 16 * p.cryptByteBlock, 16 * p.skipByteBlock)(d, a, b)
  {
    var m, f, cr, sk := Cbc(p.c, enc), p.Stripe(enc, Pad16(iv)), 16 * p.cryptByteBlock, 16 * p.skipByteBlock;
    assert e == CbcsSample(f, pats, d) && f == Striping(m, Pad16(iv), cr, sk);
    hide *;
    CbcLaws(p.c);
    RangesKeepLengths(m, Pad16(iv), cr, sk);
    if pats == [] {
      OneRange(f, pats, d, e);
    } else {
      CbcsRangeAt(f, pats, d, e, j, s, a, b);
    }
  }

  lemma OneRange(f: RangeCrypt, pats: seq<Pattern>, d: seq<byte>, e: seq<byte>)
    requires KeepsLengths(f) && pats == [] && e == CbcsSample(f, pats, d)
    ensures |e| == |d| && e[0..|d|] == f(d, 0, |d|) && e[0..0] == d[0..0]
  {
    assert LengthAt(f, d, 0, |d|);
  }

  lemma RangesKeepLengths(m: Mode, iv: seq<byte>, cr: nat, sk: nat)
    requires m.KeepsLengths() && |iv| == 16
    ensures KeepsLengths(Striping(m, iv, cr, sk))
  {
    forall d: seq<byte>, lo: nat, hi: nat ensures LengthAt(Striping(m, iv, cr, sk), d, lo, hi) {
      if lo <= hi <= |d| {
        RangeLength(m, iv, d, lo, hi, cr, sk);
      }
    }
  }

  /** Block i of the encrypted bytes of a range of a cbcs sample, which are cryptByteBlock blocks and then not the next
      skipByteBlock ones, or without skipping all whole blocks: what the cipher makes of the old block joined to the
      encrypted block before it, or to the constant vector. Decrypted, it is what the inverse cipher makes of the block,
      joined to the encrypted block before it.
    */
  lemma CbcsBlock(p: Protection, enc: bool, iv: seq<byte>, pats: seq<Pattern>, d: seq<byte>, e: seq<byte>, j: nat,
                  s: nat, a: nat, b: nat, cr: nat, sk: nat, i: nat)
    requires p.c.Permutes() && p.scheme.SchemeCbcs? && Total(pats) <= |d| && e == Crypted(p, enc, iv, pats, d)
    requires if pats == [] then s == a == 0 && b == |d|
             else j < |pats| && s == Start(pats, j) && a == s + pats[j].clear && b == Start(pats, j + 1)
    requires cr == 16 * p.cryptByteBlock && sk == 16 * p.skipByteBlock
    ensures a <= b <= |d| == |e|
    ensures var m, m', v := StripedRange(d, a, b, cr, sk), StripedRange(e, a, b, cr, sk), Pad16(iv);
            && |m'| == |m|
            && (16 * i + 16 <= |m| ==>
                  BlockAt(m', i)
                  == if enc then p.c.enc(XorSeq(BlockAt(m, i), BlockBefore(v, m', i)))
                     else XorSeq(p.c.dec(BlockAt(m, i)), BlockBefore(v, m, i)))
  {
    hide Crypted, Pad16, StripedRange, Cbc, Striping;
    CbcsCrypted(p, enc, iv, pats, d, e, j, s, a, b);
    if enc {
      CbcsEncrypts(p.c, Pad16(iv), d, e, a, b, cr, sk, i);
    } else {
      CbcsDecrypts(p.c, Pad16(iv), d, e, a, b, cr, sk, i);
    }
  }

  // ----- the senc box -----

  class SencBox {
    var sampleCount: nat
    var perSampleIVSize: nat
    var ivs: seq<array<byte>>
    var subSamples: seq<seq<Pattern>>

    /** The subsample lists stay aligned with the samples once there is one. */
    ghost predicate Valid()
      reads this
    {
      subSamples == [] || |subSamples| == sampleCount
    }

    constructor ()
      ensures Valid() && sampleCount == 0 && ivs == [] && subSamples == []
    {
      sampleCount, perSampleIVSize, ivs, subSamples := 0, 0, [], [];
    }

    /** The pattern lists, one for each sample; as long as none is recorded, they are all empty. */
    ghost function Patterns(): seq<seq<Pattern>>
      reads this
    {
      if subSamples == [] then Empties(sampleCount) else subSamples
    }

    /** iv is empty where the IV is not sent. */
    method AddSample(iv: array<byte>, pats: seq<Pattern>) returns (ok: bool)
      requires Valid()
      modifies this
      ensures Valid()
      ensures ok == (iv.Length == 0 || old(sampleCount) == 0 || iv.Length == old(perSampleIVSize))
      ensures ok ==> sampleCount == old(sampleCount) + 1 && Patterns() == old(Patterns()) + [pats]
      ensures ok ==> ivs == old(ivs) + (if iv.Length == 0 then [] else [iv])
      ensures ok ==> perSampleIVSize == if iv.Length == 0 then old(perSampleIVSize) else iv.Length
      ensures !ok ==> sampleCount == old(sampleCount) && ivs == old(ivs) && subSamples == old(subSamples)
    {
      if iv.Length != 0 {
        if sampleCount == 0 {
          perSampleIVSize := iv.Length;
        } else if iv.Length != perSampleIVSize {
          return false;
        }
        ivs := ivs + [iv];
      }
      if |pats| > 0 {
        while |subSamples| < sampleCount
          invariant subSamples == old(subSamples) || (old(subSamples) == [] && subSamples == Empties(|subSamples|))
          invariant |subSamples| <= sampleCount
          modifies this`subSamples
        {
          assert Empties(|subSamples| + 1) == Empties(|subSamples|) + [[]];
          subSamples := subSamples + [[]];
        }
        subSamples := subSamples + [pats];
      } else if |subSamples| > 0 {
        subSamples := subSamples + [[]];
      }
      sampleCount := sampleCount + 1;
      assert Empties(sampleCount) == Empties(sampleCount - 1) + [[]];
      return true;
    }
  }

  function Empties(n: nat): (e: seq<seq<Pattern>>)
    ensures |e| == n
  {
    seq(n, _ => [])
  }

  // ----- the entries of the senc box, and their sizes in the saiz box -----

  /** The first k patterns as the senc box writes them: two bytes and four bytes each. */
  function PatternBytes(pats: seq<Pattern>, k: nat): (s: seq<byte>)
    requires k <= |pats|
    ensures |s| == 6 * k
  {
    if k == 0 then []
    else
      PatternBytes(pats, k - 1) + [pats[k - 1].clear / 256, pats[k - 1].clear % 256]
        + ByteStream.LengthField(pats[k - 1].prot)
  }

  /** What the senc box writes for a sample; once a sample has patterns, every sample has a count of them. */
  function SencEntry(iv: seq<byte>, pats: seq<Pattern>, counted: bool): seq<byte> {
    iv + (if counted then [|pats| / 256 % 256, |pats| % 256] + PatternBytes(pats, |pats|) else [])
  }

  ghost predicate SomePatterns(pats: seq<seq<Pattern>>) {
    exists k :: 0 <= k < |pats| && pats[k] != []
  }

  /** All samples have patterns, or none has. */
  ghost predicate AllOrNone(pats: seq<seq<Pattern>>) {
    (forall k :: 0 <= k < |pats| ==> pats[k] != []) || (forall k :: 0 <= k < |pats| ==> pats[k] == [])
  }

  /** The saiz box gives the size of the entry that the senc box writes for sample k. */
  ghost predicate EntrySized(ivs: seq<seq<byte>>, pats: seq<seq<Pattern>>, k: nat)
    requires k < |ivs| && k < |pats|
  {
    |SencEntry(ivs[k], pats[k], SomePatterns(pats))| == Saiz.InfoSize(|ivs[k]|, |pats[k]|)
  }

  /** The saiz box gives the right size for every sample if and only if all samples have patterns or none has. */
  lemma EntriesExact(ivs: seq<seq<byte>>, pats: seq<seq<Pattern>>)
    requires |ivs| == |pats|
    ensures (forall k :: 0 <= k < |pats| ==> EntrySized(ivs, pats, k)) <==> AllOrNone(pats)
  {
    forall k | 0 <= k < |pats| ensures EntrySized(ivs, pats, k) <==> SomePatterns(pats) == (pats[k] != []) {
    }
  }

  // ----- encryption of one sample -----

  /** The length of the IV that is sent for each sample. */
  function SentLength(p: Protection): nat {
    if p.scheme.SchemeCbcs? then 0 else if p.Iv8Mode() then 8 else 16
  }

  ghost predicate FitsIV(p: Protection, iv: seq<byte>) {
    |iv| == if p.Iv8Mode() then 8 else 16
  }

  /** The cenc branch for one sample; next is the IV for the next one. */
  method EncryptCenc(p: Protection, sample: array<byte>, iv: array<byte>, pats: seq<Pattern>,
                     senc: SencBox, saiz: Saiz.SaizBox) returns (ok: bool, next: array<byte>)
    requires p.scheme.SchemeCenc? && FitsIV(p, iv[..]) && sample != iv && Total(pats) <= sample.Length
    requires senc.Valid() && saiz.Valid() && (senc.sampleCount > 0 ==> senc.perSampleIVSize == iv.Length)
    modifies sample, senc, saiz
    ensures senc.Valid() && saiz.Valid()
    ensures sample[..] == Crypted(p, true, iv[..], pats, old(sample[..]))
    ensures ok == (Saiz.InfoSize(iv.Length, |pats|) <= 255)
    ensures ok ==> senc.sampleCount == old(senc.sampleCount) + 1 && senc.perSampleIVSize == iv.Length
    ensures ok ==> senc.ivs == old(senc.ivs) + [iv] && senc.Patterns() == old(senc.Patterns()) + [pats]
    ensures ok ==> fresh(next) && next[..] == NextIV(p, iv[..], pats, sample.Length)
  {
    next := iv;
    CryptSampleCenc(p.c, Pad16(iv[..]), sample, pats);
    ok := senc.AddSample(iv, pats);
    ok := saiz.AddSampleInfo(iv.Length, |pats|);
    if !ok {
      return;
    }
    if p.Iv8Mode() {
      next := Copied(iv);
      IncrementIVInPlace(next, 1);
    } else {
      next := IncrementIV(iv, pats, sample.Length);
    }
  }

  /** The cbcs branch for one sample: the IV is constant and not recorded. */
  method EncryptCbcs(p: Protection, sample: array<byte>, iv: array<byte>, pats: seq<Pattern>,
                     senc: SencBox, saiz: Saiz.SaizBox) returns (ok: bool)
    requires p.c.Permutes() && p.scheme.SchemeCbcs? && iv.Length == 16 && sample != iv && Total(pats) <= sample.Length
    requires senc.Valid() && saiz.Valid()
    modifies sample, senc, saiz
    ensures senc.Valid() && saiz.Valid()
    ensures sample[..] == Crypted(p, true, iv[..], pats, old(sample[..]))
    ensures ok == (Saiz.InfoSize(0, |pats|) <= 255)
    ensures ok ==> senc.sampleCount == old(senc.sampleCount) + 1 && senc.ivs == old(senc.ivs)
    ensures ok ==> senc.Patterns() == old(senc.Patterns()) + [pats]
  {
    CbcLaws(p.c);
    CryptSampleCbcs(Cbc(p.c, true), sample, iv[..], pats, p.cryptByteBlock, p.skipByteBlock);
    var none := new byte[0];
    ok := senc.AddSample(none, pats);
    ok := saiz.AddSampleInfo(0, |pats|);
  }

  // ----- encryption of a fragment -----

  ghost predicate Differ(samples: seq<array<byte>>, i: nat, j: nat) {
    i < |samples| && j < |samples| && i != j ==> samples[i] != samples[j]
  }

  /** a is none of the samples. */
  ghost predicate Outside(a: array<byte>, samples: seq<array<byte>>) {
    forall j: nat :: NotAt(a, samples, j)
  }

  ghost predicate NotAt(a: array<byte>, samples: seq<array<byte>>, j: nat) {
    j < |samples| ==> samples[j] != a
  }

  /** The samples are distinct arrays. */
  ghost predicate Distinct(samples: seq<array<byte>>) {
    forall i: nat, j: nat :: Differ(samples, i, j)
  }

  /** The bytes of all samples. */
  ghost function Data(samples: seq<array<byte>>): (d: seq<seq<byte>>)
    reads samples
    ensures |d| == |samples|
  {
    seq(|samples|, i requires 0 <= i < |samples| reads samples => samples[i][..])
  }

  ghost predicate FitsAt(pats: seq<seq<Pattern>>, d: seq<seq<byte>>, k: nat) {
    k < |pats| && k < |d| ==> Total(pats[k]) <= |d[k]|
  }

  /** Every pattern list fits its sample. */
  ghost predicate Fitting(pats: seq<seq<Pattern>>, d: seq<seq<byte>>) {
    |pats| == |d| && forall k: nat :: FitsAt(pats, d, k)
  }

  /** ivs[k] is the IV of sample k, and the last of them is left for what comes next. */
  ghost predicate Chained(p: Protection, ivs: seq<seq<byte>>, pats: seq<seq<Pattern>>, d: seq<seq<byte>>) {
    |ivs| == |d| + 1 == |pats| + 1 && forall k :: 0 <= k < |d| ==> ChainedAt(p, ivs, pats, d, k)
  }

  ghost predicate ChainedAt(p: Protection, ivs: seq<seq<byte>>, pats: seq<seq<Pattern>>, d: seq<seq<byte>>, k: nat)
    requires k < |d| == |pats| && k + 1 < |ivs|
  {
    ivs[k + 1] == NextIV(p, ivs[k], pats[k], |d[k]|)
  }

  /** The IVs that follow from iv. */
  function IVs(p: Protection, iv: seq<byte>, pats: seq<seq<Pattern>>, d: seq<seq<byte>>): (r: seq<seq<byte>>)
    requires |pats| == |d|
    ensures |r| == |d| + 1
  {
    seq(|d| + 1, k requires 0 <= k <= |d| => IVAt(p, iv, pats, d, k))
  }

  lemma IVsChained(p: Protection, iv: seq<byte>, pats: seq<seq<Pattern>>, d: seq<seq<byte>>)
    requires |pats| == |d|
    ensures Chained(p, IVs(p, iv, pats, d), pats, d) && IVs(p, iv, pats, d)[0] == iv
  {
    var ivs := IVs(p, iv, pats, d);
    forall k | 0 <= k < |d| ensures ChainedAt(p, ivs, pats, d, k) {
      assert ivs[k + 1] == NextIV(p, IVAt(p, iv, pats, d, k), pats[k], |d[k]|);
    }
  }

  /** All samples, encrypted or decrypted from their IVs. */
  function CryptedAll(p: Protection, enc: bool, ivs: seq<seq<byte>>, pats: seq<seq<Pattern>>, d: seq<seq<byte>>)
    : (r: seq<seq<byte>>)
    requires |d| == |pats| <= |ivs|
    ensures |r| == |d|
  {
    seq(|d|, k requires 0 <= k < |d| => Crypted(p, enc, ivs[k], pats[k], d[k]))
  }

  /** The IVs of the first k samples as far as they are sent. */
  function SentIVs(p: Protection, ivs: seq<seq<byte>>, k: nat): seq<seq<byte>>
    requires k <= |ivs|
  {
    if p.Sends() then ivs[..k] else []
  }

  /** After k samples, which become outs: iv is the current vector, now the samples, recorded and patterns are in the
      senc box.
    */
  ghost predicate Halfway(p: Protection, ivs: seq<seq<byte>>, iv: seq<byte>, pats: seq<seq<Pattern>>, d: seq<seq<byte>>,
                          outs: seq<seq<byte>>, now: seq<seq<byte>>, recorded: seq<seq<byte>>,
                          patterns: seq<seq<Pattern>>, k: nat)
  {
    && k <= |d| == |pats| == |outs| && |ivs| == |d| + 1 && iv == ivs[k] && FitsIV(p, iv)
    && now == outs[..k] + d[k..]
    && recorded == SentIVs(p, ivs, k) && patterns == pats[..k]
  }

  lemma HalfwayStep(p: Protection, ivs: seq<seq<byte>>, iv: seq<byte>, pats: seq<seq<Pattern>>, d: seq<seq<byte>>,
                    outs: seq<seq<byte>>, now: seq<seq<byte>>, recorded: seq<seq<byte>>, patterns: seq<seq<Pattern>>,
                    k: nat, now': seq<seq<byte>>, sent: seq<seq<byte>>)
    requires Halfway(p, ivs, iv, pats, d, outs, now, recorded, patterns, k) && k < |d|
    requires |now| == |d| && now' == now[k := outs[k]] && FitsIV(p, ivs[k + 1])
    requires sent == if p.Sends() then [iv] else []
    ensures Halfway(p, ivs, ivs[k + 1], pats, d, outs, now', recorded + sent, patterns + [pats[k]], k + 1)
  {
    assert pats[..k + 1] == pats[..k] + [pats[k]];
    assert ivs[..k + 1] == ivs[..k] + [ivs[k]];
    assert now' == outs[..k + 1] + d[k + 1..];
  }

  /** No sample is one of the arrays that hold IVs. */
  ghost predicate Apart(samples: seq<array<byte>>, iv: array<byte>, ivs: seq<array<byte>>) {
    Outside(iv, samples) && Disjoint(ivs, samples)
  }

  ghost predicate Disjoint(ivs: seq<array<byte>>, samples: seq<array<byte>>) {
    forall i: nat :: OutsideAt(ivs, samples, i)
  }

  ghost predicate OutsideAt(ivs: seq<array<byte>>, samples: seq<array<byte>>, i: nat) {
    i < |ivs| ==> Outside(ivs[i], samples)
  }

  /** A new array is none of the samples. */
  lemma NewOutside(a: array<byte>, samples: seq<array<byte>>)
    requires a !in samples
    ensures Outside(a, samples)
  {
    forall j: nat ensures NotAt(a, samples, j) {
    }
  }

  lemma DataUpdate(was: seq<seq<byte>>, samples: seq<array<byte>>, k: nat)
    requires k < |samples| == |was|
    requires forall i :: 0 <= i < |samples| && i != k ==> samples[i][..] == was[i]
    ensures Data(samples) == was[k := samples[k][..]]
  {
  }

  lemma StillApart(samples: seq<array<byte>>, iv: array<byte>, ivs: seq<array<byte>>, next: array<byte>,
                   ivs': seq<array<byte>>)
    requires Apart(samples, iv, ivs) && (next == iv || next !in samples)
    requires ivs' == ivs || ivs' == ivs + [iv]
    ensures Apart(samples, next, ivs')
  {
    if next != iv {
      NewOutside(next, samples);
    }
    forall i: nat ensures OutsideAt(ivs', samples, i) {
      assert OutsideAt(ivs, samples, i);
    }
  }

  lemma DataIs(arrays: seq<array<byte>>, values: seq<seq<byte>>)
    requires |arrays| == |values| && forall i :: 0 <= i < |arrays| ==> arrays[i][..] == values[i]
    ensures Data(arrays) == values
  {
  }

  /** The first n entries of the saiz box fit one byte. */
  ghost predicate SmallEntries(p: Protection, pats: seq<seq<Pattern>>, n: nat) {
    forall k :: 0 <= k < n ==> SmallAt(p, pats, k)
  }

  ghost predicate SmallAt(p: Protection, pats: seq<seq<Pattern>>, k: nat) {
    k < |pats| ==> Saiz.InfoSize(SentLength(p), |pats[k]|) <= 255
  }

  lemma SmallStep(p: Protection, pats: seq<seq<Pattern>>, k: nat)
    requires SmallEntries(p, pats, k) && k < |pats|
    ensures SmallAt(p, pats, k) ==> SmallEntries(p, pats, k + 1)
    ensures !SmallAt(p, pats, k) ==> !SmallEntries(p, pats, |pats|)
  {
  }

  /** Between two rounds of the loop in EncryptFragment. */
  ghost predicate Running(p: Protection, samples: seq<array<byte>>, k: nat, iv: array<byte>, pats: seq<seq<Pattern>>,
                          senc: SencBox, saiz: Saiz.SaizBox, ivs: seq<seq<byte>>, d: seq<seq<byte>>,
                          outs: seq<seq<byte>>)
    reads iv, samples, senc, senc.ivs, saiz
  {
    && Apart(samples, iv, senc.ivs) && saiz.Valid() && senc.Valid() && senc.sampleCount == k
    && (p.Sends() && k > 0 ==> senc.perSampleIVSize == SentLength(p))
    && |d| == |samples| && Halfway(p, ivs, iv[..], pats, d, outs, Data(samples), Data(senc.ivs), senc.Patterns(), k)
  }

  /** Round k of the loop in EncryptFragment. */
  method EncryptSample(p: Protection, samples: seq<array<byte>>, k: nat, iv: array<byte>, pats: seq<seq<Pattern>>,
                       senc: SencBox, saiz: Saiz.SaizBox,
                       ghost ivs: seq<seq<byte>>, ghost d: seq<seq<byte>>, ghost outs: seq<seq<byte>>)
    returns (ok: bool, next: array<byte>)
    requires p.c.Permutes() && Distinct(samples) && Running(p, samples, k, iv, pats, senc, saiz, ivs, d, outs)
    requires k < |samples| && FitsAt(pats, d, k) && ChainedAt(p, ivs, pats, d, k) && Data(samples)[k] == d[k]
    requires outs[k] == Crypted(p, true, ivs[k], pats[k], d[k])
    modifies samples[k], senc, saiz
    ensures ok == SmallAt(p, pats, k)
    ensures ok ==> Running(p, samples, k + 1, next, pats, senc, saiz, ivs, d, outs) && (next == iv || fresh(next))
    ensures ok ==> senc.ivs == old(senc.ivs) || senc.ivs == old(senc.ivs) + [iv]
  {
    ghost var was, recorded, patterns, ivWas := Data(samples), Data(senc.ivs), senc.Patterns(), iv[..];
    assert NotAt(iv, samples, k);
    ghost var sent: seq<seq<byte>> := [];
    ghost var arrays := senc.ivs;
    if p.scheme.SchemeCenc? {
      ok, next := EncryptCenc(p, samples[k], iv, pats[k], senc, saiz);
      sent := [ivWas];
    } else {
      ok := EncryptCbcs(p, samples[k], iv, pats[k], senc, saiz);
      next := iv;
    }
    if ok {
      forall i | 0 <= i < |samples| && i != k ensures samples[i][..] == was[i] {
        assert Differ(samples, i, k);
      }
      DataUpdate(was, samples, k);
      HalfwayStep(p, ivs, ivWas, pats, d, outs, was, recorded, patterns, k, Data(samples), sent);
      forall i | 0 <= i < |arrays| ensures arrays[i][..] == recorded[i] {
        assert OutsideAt(arrays, samples, i) && NotAt(arrays[i], samples, k);
      }
      DataIs(senc.ivs, recorded + sent);
      StillApart(samples, iv, arrays, next, senc.ivs);
    }
  }

  method NewBoxes(p: Protection, samples: seq<array<byte>>, iv: array<byte>, pats: seq<seq<Pattern>>,
                  ghost ivs: seq<seq<byte>>, ghost d: seq<seq<byte>>, ghost outs: seq<seq<byte>>)
    returns (senc: SencBox, saiz: Saiz.SaizBox)
    requires Apart(samples, iv, []) && FitsIV(p, iv[..]) && d == Data(samples) && |pats| == |d|
    requires |ivs| == |d| + 1 && ivs[0] == iv[..]
    requires |outs| == |d|
    ensures fresh(senc) && fresh(saiz) && Running(p, samples, 0, iv, pats, senc, saiz, ivs, d, outs) && senc.ivs == []
  {
    saiz := new Saiz.SaizBox();
    senc := new SencBox();
  }

  lemma Ready(p: Protection, samples: seq<array<byte>>, k: nat, iv: array<byte>, pats: seq<seq<Pattern>>,
              senc: SencBox, saiz: Saiz.SaizBox, ivs: seq<seq<byte>>, d: seq<seq<byte>>, outs: seq<seq<byte>>)
    requires Running(p, samples, k, iv, pats, senc, saiz, ivs, d, outs) && Chained(p, ivs, pats, d) && Fitting(pats, d)
    requires k < |samples|
    requires outs == CryptedAll(p, true, ivs, pats, d)
    ensures FitsAt(pats, d, k) && ChainedAt(p, ivs, pats, d, k) && Data(samples)[k] == d[k]
    ensures outs[k] == Crypted(p, true, ivs[k], pats[k], d[k])
  {
  }

  lemma Finished(p: Protection, samples: seq<array<byte>>, iv: array<byte>, pats: seq<seq<Pattern>>,
                 senc: SencBox, saiz: Saiz.SaizBox, ivs: seq<seq<byte>>, d: seq<seq<byte>>, outs: seq<seq<byte>>)
    requires Running(p, samples, |samples|, iv, pats, senc, saiz, ivs, d, outs)
    ensures Data(samples) == outs && iv[..] == ivs[|samples|] && FitsIV(p, iv[..])
    ensures senc.Valid() && senc.Patterns() == pats && (senc.subSamples == [] ==> pats == Empties(|pats|))
    ensures Data(senc.ivs) == SentIVs(p, ivs, |samples|)
  {
    assert pats[..|samples|] == pats;
  }

  class FragmentEncryptor {
    const p: Protection
    var iv: array<byte>

    ghost predicate Valid()
      reads this, iv
    {
      p.c.Permutes() && FitsIV(p, iv[..])
    }

    /** NewFragmentEncryptor copies the vector it is given. */
    constructor (p: Protection, iv: array<byte>)
      requires p.c.Permutes() && FitsIV(p, iv[..])
      ensures Valid() && this.p == p && fresh(this.iv) && this.iv[..] == old(iv[..])
    {
      this.p := p;
      this.iv := new byte[iv.Length](i requires 0 <= i < iv.Length reads iv => iv[i]);
    }

    /** The loop over the samples. */
    method EncryptSamples(samples: seq<array<byte>>, pats: seq<seq<Pattern>>, ghost all: seq<array<byte>>,
                          ghost ivs: seq<seq<byte>>, ghost d: seq<seq<byte>>, ghost outs: seq<seq<byte>>)
      returns (ok: bool, iv': array<byte>, box: SencBox)
      requires Valid() && Distinct(samples) && Apart(samples, iv, []) && Apart(all, iv, []) && d == Data(samples)
      requires Chained(p, ivs, pats, d) && Fitting(pats, d) && ivs[0] == iv[..]
      requires outs == CryptedAll(p, true, ivs, pats, d)
      modifies samples
      ensures ok == SmallEntries(p, pats, |pats|)
      ensures ok ==> Data(samples) == outs
      ensures ok ==> iv'[..] == ivs[|samples|] && FitsIV(p, iv'[..]) && (iv' == iv || fresh(iv'))
      ensures ok ==> box.Valid() && box.Patterns() == pats && (box.subSamples == [] ==> pats == Empties(|pats|))
      ensures ok ==> fresh(box) && Data(box.ivs) == SentIVs(p, ivs, |samples|) && Apart(samples, iv', box.ivs)
      ensures ok ==> Apart(all, iv', box.ivs)
    {
      assert p.c.Permutes() && FitsIV(p, iv[..]) && |ivs| == |d| + 1 == |pats| + 1 && SmallEntries(p, pats, 0);
      hide *;
      var saiz;
      box, saiz := NewBoxes(p, samples, iv, pats, ivs, d, outs);
      iv' := iv;
      var k: nat := 0;
      while k < |samples|
        invariant k <= |samples| && Running(p, samples, k, iv', pats, box, saiz, ivs, d, outs)
        invariant SmallEntries(p, pats, k) && (iv' == iv || fresh(iv')) && fresh(box) && fresh(saiz)
        invariant Apart(all, iv', box.ivs)
      {
        Ready(p, samples, k, iv', pats, box, saiz, ivs, d, outs);
        SmallStep(p, pats, k);
        ghost var before, recorded := iv', box.ivs;
        ok, iv' := EncryptSample(p, samples, k, iv', pats, box, saiz, ivs, d, outs);
        if !ok {
          return;
        }
        StillApart(all, before, recorded, iv', box.ivs);
        k := k + 1;
      }
      Finished(p, samples, iv', pats, box, saiz, ivs, d, outs);
      ok := true;
    }

    /** Encrypts the samples in place; pats are the ranges to protect. No array but the samples is written, so IVs
        recorded earlier keep their values. The samples of the fragment are some of all samples, and none of these holds
        an IV.
      */
    method EncryptFragment(samples: seq<array<byte>>, pats: seq<seq<Pattern>>, ghost all: seq<array<byte>>)
      returns (ok: bool, senc: SencBox?, ghost ivs: seq<seq<byte>>)
      requires Valid() && Distinct(samples) && Apart(samples, iv, []) && Apart(all, iv, [])
      requires Fitting(pats, Data(samples))
      modifies this`iv, samples
      ensures ivs == IVs(p, old(iv[..]), pats, old(Data(samples)))
      ensures ok == SmallEntries(p, pats, |pats|)
      ensures !ok ==> iv == old(iv)
      ensures ok ==> Data(samples) == CryptedAll(p, true, ivs, pats, old(Data(samples)))
      ensures ok ==> Valid() && iv[..] == ivs[|samples|] && (iv == old(iv) || fresh(iv))
      ensures ok && senc == null ==> SentIVs(p, ivs, |samples|) == [] && pats == Empties(|pats|)
      ensures ok && senc != null ==>
                && fresh(senc) && senc.Valid() && senc.Patterns() == pats
                && Data(senc.ivs) == SentIVs(p, ivs, |samples|) && Apart(samples, iv, senc.ivs)
                && Apart(all, iv, senc.ivs)
    {
      hide CryptedAll, SmallEntries, Chained, Apart, Empties, IVs, Distinct;
      ghost var d := Data(samples);
      ivs := IVs(p, iv[..], pats, d);
      IVsChained(p, iv[..], pats, d);
      var iv', box;
      ok, iv', box := EncryptSamples(samples, pats, all, ivs, d, CryptedAll(p, true, ivs, pats, d));
      senc := null;
      if !ok {
        return;
      }
      iv := iv';
      if |box.ivs| == 0 && |box.subSamples| == 0 {
        return;
      }
      senc := box;
    }
  }

  /** NewFragmentEncryptor: null, its error, for a vector of the wrong length. Outside the 8-byte mode a vector of 8
      bytes is extended by zeros.
    */
  method NewFragmentEncryptor(p: Protection, iv: array<byte>) returns (e: FragmentEncryptor?)
    requires p.c.Permutes()
    ensures e != null <==> iv.Length == 8 || (iv.Length == 16 && !p.Iv8Mode())
    ensures e != null ==>
              && fresh(e) && fresh(e.iv) && e.Valid() && e.p == p
              && e.iv[..] == if p.Iv8Mode() then iv[..] else Pad16(iv[..])
  {
    if p.Iv8Mode() {
      if iv.Length != 8 {
        return null;
      }
      e := new FragmentEncryptor(p, iv);
      return;
    }
    var iv16 := iv;
    if iv.Length == 8 {
      iv16 := new byte[16](i requires 0 <= i < 16 reads iv => if i < iv.Length then iv[i] else 0);
      assert iv16[..] == Pad16(iv[..]);
    }
    if iv16.Length != 16 {
      return null;
    }
    assert Pad16(iv16[..]) == iv16[..];
    e := new FragmentEncryptor(p, iv16);
  }

  // ----- decryption -----

  /** copy(iv, s), after clearing iv where s is shorter. */
  method LoadIV(iv: array<byte>, s: array<byte>)
    requires iv.Length == 16 && iv != s
    modifies iv
    ensures iv[..] == Pad16(s[..])
  {
    if s.Length < 16 {
      forall i | 0 <= i < 16 {
        iv[i] := 0;
      }
    }
    forall i | 0 <= i < 16 && i < s.Length {
      iv[i] := s[i];
    }
  }

  /** What decryption takes as IVs of n samples: the recorded ones, or the constant one for all. */
  function UsedIVs(p: Protection, recorded: seq<seq<byte>>, n: nat): (ivs: seq<seq<byte>>)
    ensures |ivs| == n
  {
    if |recorded| == n then recorded else seq(n, _ => p.constantIV)
  }

  ghost predicate SencData(senc: SencBox?, recorded: seq<seq<byte>>, pats: seq<seq<Pattern>>)
    reads senc, if senc == null then [] else senc.ivs
  {
    if senc == null then recorded == [] && pats == Empties(|pats|)
    else senc.Valid() && recorded == Data(senc.ivs) && pats == senc.Patterns()
  }

  /** One sample of the loop in decryptSamplesInPlace; iv is already loaded. */
  method DecryptSample(p: Protection, sample: array<byte>, iv: array<byte>, pats: seq<Pattern>)
    requires p.c.Permutes() && iv.Length == 16 && Total(pats) <= sample.Length
    modifies sample
    ensures sample[..] == Crypted(p, false, old(iv[..]), pats, old(sample[..]))
  {
    match p.scheme
    case SchemeCenc =>
      CryptSampleCenc(p.c, iv[..], sample, pats);
    case SchemeCbcs =>
      CbcLaws(p.c);
      CryptSampleCbcs(Cbc(p.c, false), sample, iv[..], pats, p.cryptByteBlock, p.skipByteBlock);
  }

  /** Between two rounds: k samples became outs. */
  ghost predicate Decrypting(samples: seq<array<byte>>, d: seq<seq<byte>>, outs: seq<seq<byte>>, k: nat)
    reads samples
  {
    Distinct(samples) && k <= |d| == |outs| == |samples| && Data(samples) == outs[..k] + d[k..]
  }

  method DecryptNext(p: Protection, samples: seq<array<byte>>, k: nat, iv: array<byte>, pats: seq<Pattern>,
                     ghost d: seq<seq<byte>>, ghost outs: seq<seq<byte>>)
    requires p.c.Permutes() && iv.Length == 16 && k < |samples| && Outside(iv, samples)
    requires Decrypting(samples, d, outs, k) && Total(pats) <= |d[k]|
               && outs[k] == Crypted(p, false, iv[..], pats, d[k])
    modifies samples[k]
    ensures Decrypting(samples, d, outs, k + 1)
  {
    ghost var was := Data(samples);
    assert samples[k][..] == was[k] == d[k] && NotAt(iv, samples, k);
    DecryptSample(p, samples[k], iv, pats);
    forall i | 0 <= i < |samples| && i != k ensures samples[i][..] == was[i] {
      assert Differ(samples, i, k);
    }
    DataUpdate(was, samples, k);
    UpdateNext(outs, d, k, was);
  }

  lemma UpdateNext<T>(outs: seq<T>, d: seq<T>, k: nat, now: seq<T>)
    requires k < |d| == |outs| && now == outs[..k] + d[k..]
    ensures now[k := outs[k]] == outs[..k + 1] + d[k + 1..]
  {
  }

  /** iv := make([]byte, 16); copy(iv, tenc.DefaultConstantIV) */
  method ConstantIV(p: Protection) returns (iv: array<byte>)
    ensures fresh(iv) && iv[..] == Pad16(p.constantIV)
  {
    var constIV := new byte[|p.constantIV|](i requires 0 <= i < |p.constantIV| => p.constantIV[i]);
    assert constIV[..] == p.constantIV;
    iv := new byte[16];
    LoadIV(iv, constIV);
  }

  /** The start of one round: the IV and the patterns of sample k of n. */
  method PickSample(p: Protection, senc: SencBox?, k: nat, n: nat, iv: array<byte>,
                    ghost recorded: seq<seq<byte>>, ghost pats: seq<seq<Pattern>>) returns (subs: seq<Pattern>)
    requires SencData(senc, recorded, pats) && k < n == |pats| && iv.Length == 16
    requires senc != null ==> iv !in senc.ivs
    requires |recorded| == n || iv[..] == Pad16(p.constantIV)
    modifies iv
    ensures iv[..] == Pad16(UsedIVs(p, recorded, n)[k]) && subs == pats[k]
  {
    if senc != null && |senc.ivs| == n {
      assert senc.ivs[k] != iv && recorded[k] == senc.ivs[k][..];
      LoadIV(iv, senc.ivs[k]);
    }
    subs := [];
    if senc != null && |senc.subSamples| != 0 {
      subs := senc.subSamples[k];
    }
  }

  /** One round of the loop; the senc box keeps what it holds. */
  method DecryptRound(p: Protection, samples: seq<array<byte>>, senc: SencBox?, k: nat, iv: array<byte>,
                      ghost recorded: seq<seq<byte>>, ghost pats: seq<seq<Pattern>>,
                      ghost d: seq<seq<byte>>, ghost outs: seq<seq<byte>>)
    requires p.c.Permutes() && iv.Length == 16 && Outside(iv, samples)
    requires SencData(senc, recorded, pats) && k < |samples| == |pats|
    requires senc != null ==> iv !in senc.ivs && Disjoint(senc.ivs, samples)
    requires |recorded| == |samples| || iv[..] == Pad16(p.constantIV)
    requires Decrypting(samples, d, outs, k) && Total(pats[k]) <= |d[k]|
    requires outs[k] == Crypted(p, false, Pad16(UsedIVs(p, recorded, |samples|)[k]), pats[k], d[k])
    modifies samples[k], iv
    ensures Decrypting(samples, d, outs, k + 1) && SencData(senc, recorded, pats)
    ensures |recorded| == |samples| || iv[..] == Pad16(p.constantIV)
  {
    var subs := PickSample(p, senc, k, |samples|, iv, recorded, pats);
    forall i | 0 <= i < |samples| ensures samples[i][..] == old(samples[i][..]) {
      assert NotAt(iv, samples, i);
    }
    assert Data(samples) == old(Data(samples)) && NotAt(iv, samples, k);
    DecryptNext(p, samples, k, iv, subs, d, outs);
    if senc != null {
      ghost var arrays := senc.ivs;
      forall i | 0 <= i < |arrays| ensures arrays[i][..] == recorded[i] {
        assert OutsideAt(arrays, samples, i) && NotAt(arrays[i], samples, k);
        assert arrays[i] in arrays;
        assert recorded[i] == old(arrays[i][..]);
      }
      DataIs(arrays, recorded);
    }
  }

  lemma PaddedTwice(p: Protection, enc: bool, iv: seq<byte>, pats: seq<Pattern>, d: seq<byte>)
    ensures Crypted(p, enc, Pad16(iv), pats, d) == Crypted(p, enc, iv, pats, d)
  {
    assert Pad16(Pad16(iv)) == Pad16(iv);
  }

  /** decryptSamplesInPlace, for what is in the senc box, if there is one. */
  method DecryptSamplesInPlace(p: Protection, samples: seq<array<byte>>, senc: SencBox?,
                               ghost recorded: seq<seq<byte>>, ghost pats: seq<seq<Pattern>>)
    requires p.c.Permutes() && Distinct(samples) && Fitting(pats, Data(samples))
    requires SencData(senc, recorded, pats)
    requires senc != null ==> Disjoint(senc.ivs, samples)
    modifies samples
    ensures Data(samples) == CryptedAll(p, false, UsedIVs(p, recorded, |samples|), pats, old(Data(samples)))
  {
    assert |pats| == |samples|;
    hide *;
    ghost var d, ivs := Data(samples), UsedIVs(p, recorded, |samples|);
    ghost var outs := CryptedAll(p, false, ivs, pats, d);
    NoneDecrypted(samples, d, outs);
    var iv := ConstantIV(p);
    NewOutside(iv, samples);
    var k: nat := 0;
    while k < |samples|
      invariant k <= |samples| && Decrypting(samples, d, outs, k)
      invariant fresh(iv) && (|recorded| == |samples| || iv[..] == Pad16(p.constantIV))
      invariant SencData(senc, recorded, pats)
    {
      SampleOut(p, ivs, pats, d, outs, k);
      DecryptRound(p, samples, senc, k, iv, recorded, pats, d, outs);
      k := k + 1;
    }
    AllDecrypted(samples, d, outs);
  }

  lemma SampleOut(p: Protection, ivs: seq<seq<byte>>, pats: seq<seq<Pattern>>, d: seq<seq<byte>>, outs: seq<seq<byte>>,
                  k: nat)
    requires Fitting(pats, d) && k < |d| == |ivs| && outs == CryptedAll(p, false, ivs, pats, d)
    ensures Total(pats[k]) <= |d[k]| && outs[k] == Crypted(p, false, Pad16(ivs[k]), pats[k], d[k])
  {
    assert FitsAt(pats, d, k);
    PaddedTwice(p, false, ivs[k], pats[k], d[k]);
  }

  lemma NoneDecrypted(samples: seq<array<byte>>, d: seq<seq<byte>>, outs: seq<seq<byte>>)
    requires Distinct(samples) && d == Data(samples) && |outs| == |d|
    ensures Decrypting(samples, d, outs, 0)
  {
    assert outs[..0] + d[0..] == d;
  }

  lemma AllDecrypted(samples: seq<array<byte>>, d: seq<seq<byte>>, outs: seq<seq<byte>>)
    requires Decrypting(samples, d, outs, |samples|)
    ensures Data(samples) == outs
  {
  }

  // ----- there and back -----

  /** For cbcs the vector never moves. */
  lemma {:induction false} ConstantIVs(p: Protection, iv: seq<byte>, pats: seq<seq<Pattern>>, d: seq<seq<byte>>, k: nat)
    requires k <= |pats| == |d| && p.scheme.SchemeCbcs?
    ensures IVAt(p, iv, pats, d, k) == iv
  {
    if k > 0 {
      ConstantIVs(p, iv, pats, d, k - 1);
    }
  }

  /** Decryption from vectors that agree with those of the encryption restores all samples. */
  lemma RunInverse(p: Protection, ivs: seq<seq<byte>>, used: seq<seq<byte>>, pats: seq<seq<Pattern>>,
                   d: seq<seq<byte>>, e: seq<seq<byte>>)
    requires p.c.Permutes() && Fitting(pats, d) && |used| == |d| <= |ivs|
    requires forall k :: 0 <= k < |d| ==> Pad16(used[k]) == Pad16(ivs[k])
    requires e == CryptedAll(p, true, ivs, pats, d)
    ensures Fitting(pats, e) && CryptedAll(p, false, used, pats, e) == d
  {
    forall k: nat ensures FitsAt(pats, e, k) {
      assert FitsAt(pats, d, k);
      if k < |d| {
        CryptedInverse(p, ivs[k], pats[k], d[k]);
      }
    }
    forall k | 0 <= k < |d| ensures Crypted(p, false, used[k], pats[k], e[k]) == d[k] {
      assert FitsAt(pats, d, k);
      CryptedInverse(p, ivs[k], pats[k], d[k]);
      PaddedTwice(p, false, used[k], pats[k], e[k]);
      PaddedTwice(p, false, ivs[k], pats[k], e[k]);
    }
  }

  /** The vectors that decryption uses after EncryptFragment. */
  lemma UsedAgree(p: Protection, iv: seq<byte>, pats: seq<seq<Pattern>>, d: seq<seq<byte>>, used: seq<seq<byte>>)
    requires |pats| == |d| && used == UsedIVs(p, SentIVs(p, IVs(p, iv, pats, d), |d|), |d|)
    requires p.scheme.SchemeCbcs? ==> Pad16(p.constantIV) == Pad16(iv)
    ensures forall k :: 0 <= k < |d| ==> Pad16(used[k]) == Pad16(IVs(p, iv, pats, d)[k])
  {
    forall k | 0 <= k < |d| ensures Pad16(used[k]) == Pad16(IVs(p, iv, pats, d)[k]) {
      if p.scheme.SchemeCbcs? {
        ConstantIVs(p, iv, pats, d, k);
      }
    }
  }

  /** What EncryptFragment encrypted, decryptSamplesInPlace restores from what is in the boxes, in each of the three
      modes: cenc with vectors of 8 or 16 bytes, and cbcs with a constant vector, which the tenc box must then hold.
    */
  method EncryptAndDecrypt(e: FragmentEncryptor, samples: seq<array<byte>>, pats: seq<seq<Pattern>>) returns (ok: bool)
    requires e.Valid() && Distinct(samples) && Apart(samples, e.iv, []) && Fitting(pats, Data(samples))
    requires e.p.scheme.SchemeCbcs? ==> Pad16(e.p.constantIV) == Pad16(e.iv[..])
    modifies e`iv, samples
    ensures ok == SmallEntries(e.p, pats, |pats|)
    ensures ok ==> Data(samples) == old(Data(samples))
  {
    ghost var d, iv := Data(samples), e.iv[..];
    var senc;
    ghost var ivs;
    ok, senc, ivs := e.EncryptFragment(samples, pats, samples);
    if !ok {
      return;
    }
    ghost var recorded := SentIVs(e.p, ivs, |samples|);
    ghost var used := UsedIVs(e.p, recorded, |samples|);
    UsedAgree(e.p, iv, pats, d, used);
    RunInverse(e.p, ivs, used, pats, d, Data(samples));
    DecryptSamplesInPlace(e.p, samples, senc, recorded, pats);
  }
}
