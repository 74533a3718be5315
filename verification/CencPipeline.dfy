/** Common encryption from end to end (EncryptFragments in mp4/crypto.go): the ranges of all samples of a sequence, the
    encryption of its fragments by one FragmentEncryptor, and the decryption of the fragments one by one.
  */
module CencPipeline {
  import opened BitStrings
  import opened BigEndian
  import opened BlockCipher
  import opened SampleCrypt
  import opened CencRun
  import opened CencCounters
  import opened ProtectRanges
  import AnnexBRoundTrip
  import Av1Tiles
  import ByteStream

  // ----- the counters of a run -----

  lemma {:induction false} PowLarge(n: nat)
    requires n >= 8
    ensures Pow256(n) >= 0x1_0000_0000_0000_0000
  {
    if n == 8 {
      assert Pow256(2) == 0x1_0000;
      assert Pow256(4) == 0x1_0000_0000;
      assert Pow256(6) == 0x1_0000_0000_0000;
    } else {
      PowLarge(n - 1);
    }
  }

  /** A sample of fewer than 2^32 bytes. */
  ghost predicate SmallSample(d: seq<seq<byte>>, k: nat) {
    k < |d| ==> |d[k]| < 0x1_0000_0000
  }

  /** At most 2^32 samples of fewer than 2^32 bytes. */
  ghost predicate SmallRun(d: seq<seq<byte>>) {
    |d| <= 0x1_0000_0000 && forall k: nat :: SmallSample(d, k)
  }

  lemma {:induction false} UsedFits(pats: seq<Pattern>, j: nat)
    requires j <= |pats|
    ensures Used(pats, j) <= Start(pats, j)
  {
    if j > 0 {
      UsedFits(pats, j - 1);
    }
  }

  lemma KeyBytesFit(pats: seq<Pattern>, n: nat)
    requires Total(pats) <= n
    ensures KeyBytes(pats, n) <= n
  {
    UsedFits(pats, |pats|);
  }

  /** A sample moves the counter by at most 2^28. */
  lemma {:induction false} FewSteps(pats: seq<seq<Pattern>>, d: seq<seq<byte>>, k: nat)
    requires k <= |d| && Fitting(pats, d) && SmallRun(d)
    ensures BlocksUpTo(pats, d, k) <= k * 0x1000_0000
  {
    if k > 0 {
      FewSteps(pats, d, k - 1);
      assert FitsAt(pats, d, k - 1) && SmallSample(d, k - 1);
      KeyBytesFit(pats[k - 1], |d[k - 1]|);
      BlocksExact(pats[k - 1], |d[k - 1]|);
    }
  }

  /** The bytes of one sample meet different counters in different blocks. */
  lemma SameSample(v: seq<byte>, x: nat, y: nat)
    requires x / 16 < y / 16 && y < 0x1_0000_0000
    ensures CounterOf(v, x) != CounterOf(v, y)
  {
    PowLarge(|Pad16(v)|);
    DifferentCounters(Pad16(v), x / 16, y / 16, Pow256(|Pad16(v)|), CounterOf(v, x), CounterOf(v, y));
  }

  lemma NotShared(p: Protection, ivs: seq<seq<byte>>, pats: seq<seq<Pattern>>, d: seq<seq<byte>>,
                   i: nat, x: nat, j: nat, y: nat)
    requires Chained(p, ivs, pats, d) && p.Sends() && FitsIV(p, ivs[0]) && Fitting(pats, d) && SmallRun(d)
    requires p.Iv8Mode() || AllWhole(pats)
    ensures !Shared(ivs, pats, d, i, x, j, y)
  {
    if i < |d| && x < KeyBytes(pats[i], |d[i]|) && j < |d| && y < KeyBytes(pats[j], |d[j]|)
       && (i < j || (i == j && x / 16 < y / 16)) {
      assert FitsAt(pats, d, i) && SmallSample(d, i) && FitsAt(pats, d, j) && SmallSample(d, j);
      KeyBytesFit(pats[i], |d[i]|);
      KeyBytesFit(pats[j], |d[j]|);
      PowLarge(|ivs[0]|);
      hide Pow256, KeyBytes, Chained, Fitting, SmallRun, CounterOf, AllWhole;
      if i == j {
        SameSample(ivs[i], x, y);
      } else if p.Iv8Mode() {
        Iv8CountersDistinct(p, ivs, pats, d, i, x, j, y);
      } else {
        FewSteps(pats, d, |d|);
        CountersDistinct(p, ivs, pats, d, i, x, j, y);
      }
    }
  }

  /** t is the counter for byte x of the protected bytes of sample i. */
  ghost predicate CounterFor(ivs: seq<seq<byte>>, pats: seq<seq<Pattern>>, d: seq<seq<byte>>, i: nat, x: nat,
                             t: seq<byte>)
    requires |ivs| > |d| == |pats|
  {
    i < |d| && x < KeyBytes(pats[i], |d[i]|) && IsCounter(t, Pad16(ivs[i]), x / 16)
  }

  /** Byte x of sample i belongs to an earlier block of protected data than byte y of sample j. */
  predicate Earlier(i: nat, x: nat, j: nat, y: nat) {
    i < j || (i == j && x / 16 < y / 16)
  }

  /** Byte x of the message m became that of m' by what the cipher makes of the block t. */
  ghost predicate Meets(c: Cipher, m: seq<byte>, m': seq<byte>, x: nat, t: seq<byte>) {
    x < |m| == |m'| && |t| == |c.enc(t)| == 16 && m'[x] == Xor(m[x], c.enc(t)[x % 16])
  }

  lemma ProtectedLength(pats: seq<Pattern>, d: seq<byte>)
    requires Total(pats) <= |d|
    ensures |ProtectedBytes(pats, d)| == KeyBytes(pats, |d|)
  {
    JoinedLength(pats, |pats|, d);
  }

  /** The cipher is given the counter for a byte, and what it makes of it encrypts the byte. */
  lemma CounterMet(p: Protection, iv: seq<byte>, pats: seq<Pattern>, d: seq<byte>, e: seq<byte>, x: nat, t: seq<byte>)
    requires p.c.Permutes() && p.Sends() && Total(pats) <= |d| && e == Crypted(p, true, iv, pats, d)
    requires x < KeyBytes(pats, |d|) && IsCounter(t, Pad16(iv), x / 16)
    ensures |e| == |d| && Meets(p.c, ProtectedBytes(pats, d), ProtectedBytes(pats, e), x, t)
  {
    hide Xor, AddBE, FromBE, Pow256, CencTo;
    ProtectedLength(pats, d);
    CencJoined(CtrKeys(p.c, Pad16(iv)), pats, d);
    KeyIsCounter(p.c, Pad16(iv), x, t);
  }

  /** In a run with scheme cenc the cipher is never given one block for two blocks of data: with vectors of 8 bytes
      always, with vectors of 16 bytes if all ranges consist of whole blocks.
    */
  lemma NoneShared(p: Protection, ivs: seq<seq<byte>>, pats: seq<seq<Pattern>>, d: seq<seq<byte>>,
                   i: nat, x: nat, t: seq<byte>, j: nat, y: nat, u: seq<byte>)
    requires Chained(p, ivs, pats, d) && p.Sends() && FitsIV(p, ivs[0]) && Fitting(pats, d) && SmallRun(d)
    requires p.Iv8Mode() || AllWhole(pats)
    requires CounterFor(ivs, pats, d, i, x, t) && CounterFor(ivs, pats, d, j, y, u)
    requires Earlier(i, x, j, y)
    ensures t != u
  {
    hide KeyBytes, AddBE, FromBE, Pow256, IsCounter, Fitting, SmallRun, AllWhole;
    CounterIs(t, Pad16(ivs[i]), x / 16);
    CounterIs(u, Pad16(ivs[j]), y / 16);
    NotShared(p, ivs, pats, d, i, x, j, y);
  }

  // ----- a part of a run -----

  /** A run goes on from sample a as from its start. */
  lemma {:induction false} IVShift(p: Protection, iv: seq<byte>, pats: seq<seq<Pattern>>, d: seq<seq<byte>>,
                                   a: nat, b: nat, k: nat)
    requires a <= b <= |d| == |pats| && k <= b - a
    ensures IVAt(p, IVAt(p, iv, pats, d, a), pats[a..b], d[a..b], k) == IVAt(p, iv, pats, d, a + k)
  {
    if k > 0 {
      IVShift(p, iv, pats, d, a, b, k - 1);
    }
  }

  lemma IVsPart(p: Protection, iv: seq<byte>, pats: seq<seq<Pattern>>, d: seq<seq<byte>>, ivs: seq<seq<byte>>,
                a: nat, b: nat)
    requires a <= b <= |d| == |pats| && ivs == IVs(p, iv, pats, d)
    ensures IVs(p, ivs[a], pats[a..b], d[a..b]) == ivs[a..b + 1]
  {
    forall k | 0 <= k <= b - a ensures IVs(p, ivs[a], pats[a..b], d[a..b])[k] == ivs[a + k] {
      IVShift(p, iv, pats, d, a, b, k);
    }
  }

  lemma CryptedPart(p: Protection, enc: bool, ivs: seq<seq<byte>>, pats: seq<seq<Pattern>>, d: seq<seq<byte>>,
                    a: nat, b: nat)
    requires a <= b <= |d| == |pats| < |ivs|
    ensures CryptedAll(p, enc, ivs[a..b + 1], pats[a..b], d[a..b]) == CryptedAll(p, enc, ivs, pats, d)[a..b]
  {
  }

  lemma FittingPart(pats: seq<seq<Pattern>>, d: seq<seq<byte>>, a: nat, b: nat)
    requires Fitting(pats, d) && a <= b <= |d|
    ensures Fitting(pats[a..b], d[a..b])
  {
    forall k: nat ensures FitsAt(pats[a..b], d[a..b], k) {
      assert FitsAt(pats, d, a + k);
    }
  }

  lemma SamplesPart(all: seq<array<byte>>, iv: array<byte>, a: nat, b: nat)
    requires Distinct(all) && Apart(all, iv, []) && a <= b <= |all|
    ensures Distinct(all[a..b]) && Apart(all[a..b], iv, []) && Data(all[a..b]) == Data(all)[a..b]
  {
    forall i: nat, j: nat ensures Differ(all[a..b], i, j) {
      assert Differ(all, a + i, a + j);
    }
    forall j: nat ensures NotAt(iv, all[a..b], j) {
      assert NotAt(iv, all, a + j);
    }
    forall i: nat ensures OutsideAt([], all[a..b], i) {
    }
  }

  lemma SmallParts(p: Protection, pats: seq<seq<Pattern>>, a: nat, b: nat)
    requires a <= b <= |pats| && SmallEntries(p, pats, a)
    ensures SmallEntries(p, pats[a..b], b - a) == SmallEntries(p, pats, b)
  {
    if SmallEntries(p, pats, b) {
      forall k | 0 <= k < b - a ensures SmallAt(p, pats[a..b], k) {
        assert SmallAt(p, pats, a + k);
      }
    }
    if SmallEntries(p, pats[a..b], b - a) {
      forall k | 0 <= k < b ensures SmallAt(p, pats, k) {
        assert k >= a ==> SmallAt(p, pats[a..b], k - a);
      }
    }
  }

  // ----- the fragments of a sequence -----

  /** The first g + 1 cuts are in order: fragment g has the samples from cuts[g] to cuts[g + 1]. */
  predicate Cuts(cuts: seq<nat>, g: nat)
    requires g < |cuts|
  {
    if g == 0 then cuts[0] == 0 else cuts[g - 1] <= cuts[g] && Cuts(cuts, g - 1)
  }

  lemma {:induction false} CutsOrdered(cuts: seq<nat>, f: nat, g: nat)
    requires f <= g < |cuts| && Cuts(cuts, g)
    ensures Cuts(cuts, f) && cuts[f] <= cuts[g]
  {
    if f < g {
      CutsOrdered(cuts, f, g - 1);
    }
  }

  /** The samples up to a are x, those from a on y. */
  ghost predicate Mixed(now: seq<seq<byte>>, x: seq<seq<byte>>, y: seq<seq<byte>>, a: nat) {
    a <= |now| == |x| == |y| && now == x[..a] + y[a..]
  }

  /** Outside a part the samples are what they were. */
  ghost predicate SameOutside(all: seq<array<byte>>, now: seq<seq<byte>>, a: nat, b: nat)
    reads all
  {
    |all| == |now| && forall i :: 0 <= i < |all| && !(a <= i < b) ==> all[i][..] == now[i]
  }

  lemma MixedStep(now: seq<seq<byte>>, now': seq<seq<byte>>, x: seq<seq<byte>>, y: seq<seq<byte>>, a: nat, b: nat)
    requires a <= b <= |x| == |y| && now == x[..a] + y[a..] && |now'| == |now|
    requires now'[a..b] == x[a..b] && forall i :: 0 <= i < |now| && !(a <= i < b) ==> now'[i] == now[i]
    ensures now' == x[..b] + y[b..]
  {
    assert forall i :: a <= i < b ==> now'[i] == now'[a..b][i - a] == x[a..b][i - a];
  }

  /** The senc box of a fragment holds the vectors and ranges of its samples, in arrays that are none of the samples. */
  ghost predicate Boxed(p: Protection, senc: SencBox?, all: seq<array<byte>>, ivs: seq<seq<byte>>,
                        pats: seq<seq<Pattern>>, a: nat, b: nat)
    reads senc, if senc == null then [] else senc.ivs
  {
    && a <= b <= |pats| < |ivs|
    && SencData(senc, SentIVs(p, ivs[a..b + 1], b - a), pats[a..b])
    && (senc != null ==> Disjoint(senc.ivs, all))
  }

  lemma BoxHolds(p: Protection, senc: SencBox?, all: seq<array<byte>>, ivs: seq<seq<byte>>, part: seq<seq<byte>>,
                 pats: seq<seq<Pattern>>, fragPats: seq<seq<Pattern>>, a: nat, b: nat, iv: array<byte>)
    requires a <= b <= |pats| < |ivs| && part == ivs[a..b + 1] && fragPats == pats[a..b]
    requires senc == null ==> SentIVs(p, part, b - a) == [] && fragPats == Empties(b - a)
    requires senc != null ==>
               && senc.Valid() && senc.Patterns() == fragPats && Apart(all, iv, senc.ivs)
               && Data(senc.ivs) == SentIVs(p, part, b - a)
    ensures Boxed(p, senc, all, ivs, pats, a, b)
  {
  }

  /** ivs are the vectors of the samples d of a run from its first vector on, outs the samples encrypted. */
  ghost predicate IsRun(p: Protection, pats: seq<seq<Pattern>>, ivs: seq<seq<byte>>, d: seq<seq<byte>>,
                        outs: seq<seq<byte>>)
  {
    && Fitting(pats, d) && |ivs| == |d| + 1 == |outs| + 1
    && ivs == IVs(p, ivs[0], pats, d) && outs == CryptedAll(p, true, ivs, pats, d)
  }

  /** What EncryptFragment asks for: part are the vectors of the samples of a fragment, goal the samples encrypted. */
  ghost predicate Ready(p: Protection, frag: seq<array<byte>>, iv: array<byte>, pats: seq<seq<Pattern>>,
                        part: seq<seq<byte>>, goal: seq<seq<byte>>)
    reads iv, frag
  {
    && Distinct(frag) && Apart(frag, iv, []) && Fitting(pats, Data(frag))
    && part == IVs(p, iv[..], pats, Data(frag)) && goal == CryptedAll(p, true, part, pats, Data(frag))
  }

  lemma RestOf(now: seq<seq<byte>>, x: seq<seq<byte>>, y: seq<seq<byte>>, a: nat, b: nat)
    requires Mixed(now, x, y, a) && a <= b <= |now|
    ensures now[a..b] == y[a..b]
  {
    forall i | a <= i < b ensures now[i] == y[i] {
    }
  }

  /** The samples from a to b of a run are a fragment. */
  lemma PartReady(p: Protection, all: seq<array<byte>>, iv: array<byte>, pats: seq<seq<Pattern>>, a: nat, b: nat,
                  ivs: seq<seq<byte>>, d: seq<seq<byte>>, outs: seq<seq<byte>>)
    requires Distinct(all) && Apart(all, iv, []) && IsRun(p, pats, ivs, d, outs) && a <= b <= |d|
    requires Mixed(Data(all), outs, d, a) && iv[..] == ivs[a]
    ensures |all| == |pats| == |d| == |outs| == |ivs| - 1
    ensures Ready(p, all[a..b], iv, pats[a..b], ivs[a..b + 1], outs[a..b])
  {
    RestOf(Data(all), outs, d, a, b);
    hide IVs, CryptedAll, Mixed, Distinct, Apart, Fitting;
    SamplesPart(all, iv, a, b);
    FittingPart(pats, d, a, b);
    IVsPart(p, ivs[0], pats, d, ivs, a, b);
    CryptedPart(p, true, ivs, pats, d, a, b);
  }

  /** The arrays outside a part are none of the part. */
  lemma Elsewhere(all: seq<array<byte>>, a: nat, b: nat, i: nat)
    requires Distinct(all) && a <= b <= |all| && i < |all| && !(a <= i < b)
    ensures all[i] !in all[a..b]
  {
    forall j | a <= j < b ensures all[i] != all[j] {
      assert Differ(all, i, j);
    }
  }

  lemma PartDone(all: seq<array<byte>>, frag: seq<array<byte>>, now: seq<seq<byte>>, x: seq<seq<byte>>,
                 y: seq<seq<byte>>, goal: seq<seq<byte>>, a: nat, b: nat)
    requires a <= b <= |all| && Mixed(now, x, y, a) && SameOutside(all, now, a, b)
    requires frag == all[a..b] && goal == x[a..b] && Data(frag) == goal
    ensures Mixed(Data(all), x, y, b)
  {
    assert Data(all)[a..b] == Data(frag);
    MixedStep(now, Data(all), x, y, a, b);
  }

  lemma Unchanged(all: seq<array<byte>>, now: seq<seq<byte>>, a: nat, b: nat)
    requires |all| == |now| && forall i :: 0 <= i < |all| && !(a <= i < b) ==> all[i][..] == now[i]
    ensures SameOutside(all, now, a, b)
  {
  }

  /** EncryptFragment for frag, which are the samples from a to b; part are its vectors, goal its samples encrypted. */
  method EncryptFrom(e: FragmentEncryptor, all: seq<array<byte>>, frag: seq<array<byte>>, pats: seq<seq<Pattern>>,
                     a: nat, b: nat, ghost now: seq<seq<byte>>, ghost part: seq<seq<byte>>, ghost goal: seq<seq<byte>>)
    returns (ok: bool, senc: SencBox?)
    requires e.Valid() && Distinct(all) && a <= b <= |all| && frag == all[a..b] && now == Data(all)
    requires Apart(all, e.iv, []) && Ready(e.p, frag, e.iv, pats, part, goal) && |part| == |frag| + 1 == |pats| + 1
    modifies e`iv, frag
    ensures ok == SmallEntries(e.p, pats, |pats|)
    ensures ok ==> e.Valid() && Apart(all, e.iv, []) && (e.iv == old(e.iv) || fresh(e.iv))
    ensures ok ==> Data(frag) == goal && e.iv[..] == part[|frag|]
    ensures ok ==> SameOutside(all, now, a, b)
    ensures ok && senc == null ==> SentIVs(e.p, part, |frag|) == [] && pats == Empties(|pats|)
    ensures ok && senc != null ==>
              && fresh(senc) && senc.Valid() && senc.Patterns() == pats
              && Data(senc.ivs) == SentIVs(e.p, part, |frag|) && Apart(all, e.iv, senc.ivs)
  {
    assert forall i :: 0 <= i < |all| ==> all[i][..] == now[i];
    assert Distinct(frag) && Apart(frag, e.iv, []) && Fitting(pats, Data(frag));
    assert part == IVs(e.p, e.iv[..], pats, Data(frag)) && goal == CryptedAll(e.p, true, part, pats, Data(frag));
    hide *;
    ghost var iv := e.iv;
    ghost var ivs;
    ok, senc, ivs := e.EncryptFragment(frag, pats, all);
    if ok {
      forall i | 0 <= i < |all| && !(a <= i < b) ensures all[i][..] == now[i] {
        Elsewhere(all, a, b, i);
      }
      Unchanged(all, now, a, b);
      if e.iv != iv {
        StillApart(all, iv, [], e.iv, []);
      }
    }
  }

  /** EncryptFragment for the fragment with the samples from a to b. */
  method EncryptPart(e: FragmentEncryptor, all: seq<array<byte>>, pats: seq<seq<Pattern>>, a: nat, b: nat,
                     ghost ivs: seq<seq<byte>>, ghost d: seq<seq<byte>>, ghost outs: seq<seq<byte>>)
    returns (ok: bool, senc: SencBox?)
    requires e.Valid() && Distinct(all) && Apart(all, e.iv, []) && IsRun(e.p, pats, ivs, d, outs) && a <= b <= |d|
    requires Mixed(Data(all), outs, d, a) && e.iv[..] == ivs[a]
    modifies e`iv, all
    ensures ok == SmallEntries(e.p, pats[a..b], b - a)
    ensures ok ==> e.Valid() && Apart(all, e.iv, []) && (e.iv == old(e.iv) || fresh(e.iv))
    ensures ok ==> Mixed(Data(all), outs, d, b) && e.iv[..] == ivs[b]
    ensures ok ==> Boxed(e.p, senc, all, ivs, pats, a, b) && (senc != null ==> fresh(senc))
  {
    hide *;
    ghost var now := Data(all);
    PartReady(e.p, all, e.iv, pats, a, b, ivs, d, outs);
    ok, senc := EncryptFrom(e, all, all[a..b], pats[a..b], a, b, now, ivs[a..b + 1], outs[a..b]);
    if ok {
      PartDone(all, all[a..b], now, outs, d, outs[a..b], a, b);
      BoxHolds(e.p, senc, all, ivs, ivs[a..b + 1], pats, pats[a..b], a, b, e.iv);
    }
  }

  /** Nothing that is recorded in one of the boxes is a sample. */
  lemma NoSamples(p: Protection, boxes: seq<SencBox?>, all: seq<array<byte>>, ivs: seq<seq<byte>>,
                  pats: seq<seq<Pattern>>, cuts: seq<nat>, lo: nat, hi: nat)
    requires lo <= hi <= |boxes| && hi < |cuts|
    requires forall g :: lo <= g < hi ==> Boxed(p, boxes[g], all, ivs, pats, cuts[g], cuts[g + 1])
    ensures forall g :: lo <= g < hi && boxes[g] != null ==>
                          forall i :: 0 <= i < |boxes[g].ivs| ==> boxes[g].ivs[i] !in all
  {
    forall g, i | lo <= g < hi && boxes[g] != null && 0 <= i < |boxes[g].ivs| ensures boxes[g].ivs[i] !in all {
      assert Boxed(p, boxes[g], all, ivs, pats, cuts[g], cuts[g + 1]) && OutsideAt(boxes[g].ivs, all, i);
      NotThere(boxes[g].ivs[i], all);
    }
  }

  lemma NotThere(x: array<byte>, all: seq<array<byte>>)
    requires Outside(x, all)
    ensures x !in all
  {
    forall j: nat | j < |all| ensures all[j] != x {
      assert NotAt(x, all, j);
    }
  }

  lemma ApartIsNotThere(all: seq<array<byte>>, iv: array<byte>)
    requires Apart(all, iv, [])
    ensures iv !in all
  {
    NotThere(iv, all);
  }

  /** Where the fragments of a sequence begin and end. */
  predicate Fragmented(cuts: seq<nat>, n: nat) {
    cuts != [] && Cuts(cuts, |cuts| - 1) && cuts[|cuts| - 1] == n
  }

  lemma CutsWithin(cuts: seq<nat>, n: nat, f: nat)
    requires Fragmented(cuts, n) && f < |cuts|
    ensures cuts[0] == 0 && cuts[|cuts| - 1] == n && cuts[f] <= n && (f + 1 < |cuts| ==> cuts[f] <= cuts[f + 1] <= n)
  {
    CutsOrdered(cuts, 0, |cuts| - 1);
    CutsOrdered(cuts, f, |cuts| - 1);
    if f + 1 < |cuts| {
      CutsOrdered(cuts, f + 1, |cuts| - 1);
    }
  }

  lemma RunStarts(p: Protection, iv: seq<byte>, pats: seq<seq<Pattern>>, ivs: seq<seq<byte>>, d: seq<seq<byte>>,
                  outs: seq<seq<byte>>)
    requires Fitting(pats, d) && ivs == IVs(p, iv, pats, d) && outs == CryptedAll(p, true, ivs, pats, d)
    ensures IsRun(p, pats, ivs, d, outs) && Mixed(d, outs, d, 0) && ivs[0] == iv && SmallEntries(p, pats, 0)
  {
    assert outs[..0] + d[0..] == d;
  }

  lemma MixedEnd(now: seq<seq<byte>>, x: seq<seq<byte>>, y: seq<seq<byte>>)
    requires Mixed(now, x, y, |now|)
    ensures now == x
  {
  }

  /** Between two rounds of the loop in EncryptFragments: f fragments are encrypted. */
  ghost predicate Encrypting(e: FragmentEncryptor, all: seq<array<byte>>, pats: seq<seq<Pattern>>, n: nat,
                             ivs: seq<seq<byte>>, d: seq<seq<byte>>, outs: seq<seq<byte>>)
    reads e, e.iv, all
  {
    && e.Valid() && Apart(all, e.iv, []) && n <= |all| == |pats| < |ivs| && e.iv[..] == ivs[n]
    && Mixed(Data(all), outs, d, n) && SmallEntries(e.p, pats, n)
  }

  method EncryptStep(e: FragmentEncryptor, all: seq<array<byte>>, pats: seq<seq<Pattern>>, a: nat, b: nat,
                     ghost ivs: seq<seq<byte>>, ghost d: seq<seq<byte>>, ghost outs: seq<seq<byte>>)
    returns (ok: bool, senc: SencBox?)
    requires Distinct(all) && IsRun(e.p, pats, ivs, d, outs) && a <= b <= |all|
    requires Encrypting(e, all, pats, a, ivs, d, outs)
    modifies e`iv, all
    ensures ok == SmallEntries(e.p, pats, b)
    ensures ok ==> Encrypting(e, all, pats, b, ivs, d, outs) && (senc != null ==> fresh(senc))
    ensures ok ==> Boxed(e.p, senc, all, ivs, pats, a, b)
  {
    SmallParts(e.p, pats, a, b);
    assert |d| == |all|;
    hide Distinct, Apart, IsRun, Mixed, Boxed, SmallEntries, Data, FragmentEncryptor.Valid;
    ok, senc := EncryptPart(e, all, pats, a, b, ivs, d, outs);
  }

  /** One round of the loop. */
  method EncryptNext(e: FragmentEncryptor, all: seq<array<byte>>, pats: seq<seq<Pattern>>, cuts: seq<nat>, f: nat,
                     boxes0: seq<SencBox?>, ghost ivs: seq<seq<byte>>, ghost d: seq<seq<byte>>,
                     ghost outs: seq<seq<byte>>)
    returns (ok: bool, boxes: seq<SencBox?>)
    requires Distinct(all) && IsRun(e.p, pats, ivs, d, outs) && f + 1 < |cuts| && cuts[f] <= cuts[f + 1] <= |all|
    requires Encrypting(e, all, pats, cuts[f], ivs, d, outs) && |boxes0| == f
    requires forall g :: 0 <= g < f ==> Boxed(e.p, boxes0[g], all, ivs, pats, cuts[g], cuts[g + 1])
    modifies e`iv, all
    ensures ok == SmallEntries(e.p, pats, cuts[f + 1])
    ensures ok ==> Encrypting(e, all, pats, cuts[f + 1], ivs, d, outs) && |boxes| == f + 1
    ensures ok ==> forall g :: 0 <= g < f + 1 ==> Boxed(e.p, boxes[g], all, ivs, pats, cuts[g], cuts[g + 1])
  {
    assert |pats| == |all|;
    hide *;
    NoSamples(e.p, boxes0, all, ivs, pats, cuts, 0, f);
    var senc;
    ok, senc := EncryptStep(e, all, pats, cuts[f], cuts[f + 1], ivs, d, outs);
    boxes := boxes0 + [senc];
  }

  /** EncryptFragments: fragment g has the samples from cuts[g] to cuts[g + 1]. However a sequence is cut into
      fragments, its samples are encrypted as in one single fragment, under one chain of vectors; each fragment gets
      its own senc box.
    */
  method EncryptFragments(e: FragmentEncryptor, all: seq<array<byte>>, pats: seq<seq<Pattern>>, cuts: seq<nat>)
    returns (ok: bool, boxes: seq<SencBox?>, ghost ivs: seq<seq<byte>>)
    requires e.Valid() && Distinct(all) && Apart(all, e.iv, []) && Fitting(pats, Data(all)) && Fragmented(cuts, |all|)
    modifies e`iv, all
    ensures ivs == IVs(e.p, old(e.iv[..]), pats, old(Data(all)))
    ensures ok == SmallEntries(e.p, pats, |pats|)
    ensures ok ==> Data(all) == CryptedAll(e.p, true, ivs, pats, old(Data(all)))
    ensures ok ==> e.Valid() && Apart(all, e.iv, []) && e.iv[..] == ivs[|all|]
    ensures ok ==> |boxes| == |cuts| - 1
    ensures ok ==> forall g :: 0 <= g < |boxes| ==> Boxed(e.p, boxes[g], all, ivs, pats, cuts[g], cuts[g + 1])
  {
    ghost var d := Data(all);
    ivs := IVs(e.p, e.iv[..], pats, d);
    ghost var outs := CryptedAll(e.p, true, ivs, pats, d);
    RunStarts(e.p, e.iv[..], pats, ivs, d, outs);
    CutsWithin(cuts, |all|, 0);
    assert Encrypting(e, all, pats, 0, ivs, d, outs);
    hide *;
    boxes := [];
    var f := 0;
    while f + 1 < |cuts|
      invariant |boxes| == f < |cuts| && Encrypting(e, all, pats, cuts[f], ivs, d, outs)
      invariant forall g :: 0 <= g < f ==> Boxed(e.p, boxes[g], all, ivs, pats, cuts[g], cuts[g + 1])
    {
      CutsWithin(cuts, |all|, f);
      ok, boxes := EncryptNext(e, all, pats, cuts, f, boxes, ivs, d, outs);
      if !ok {
        NotAllSmall(e.p, pats, cuts[f + 1]);
        return;
      }
      f := f + 1;
    }
    AllEncrypted(e, all, pats, ivs, d, outs);
    ok := true;
  }

  lemma NotAllSmall(p: Protection, pats: seq<seq<Pattern>>, n: nat)
    requires n <= |pats| && !SmallEntries(p, pats, n)
    ensures !SmallEntries(p, pats, |pats|)
  {
  }

  lemma AllEncrypted(e: FragmentEncryptor, all: seq<array<byte>>, pats: seq<seq<Pattern>>, ivs: seq<seq<byte>>,
                     d: seq<seq<byte>>, outs: seq<seq<byte>>)
    requires Encrypting(e, all, pats, |all|, ivs, d, outs)
    ensures e.Valid() && Apart(all, e.iv, []) && |all| == |pats| < |ivs| && e.iv[..] == ivs[|all|]
    ensures Data(all) == outs && SmallEntries(e.p, pats, |pats|)
  {
    MixedEnd(Data(all), outs, d);
  }

  // ----- decryption of the fragments -----

  /** What decryption of a fragment asks for, and that it gives goal. */
  ghost predicate Back(p: Protection, frag: seq<array<byte>>, pats: seq<seq<Pattern>>, recorded: seq<seq<byte>>,
                       goal: seq<seq<byte>>)
    reads frag
  {
    && p.c.Permutes() && Distinct(frag) && Fitting(pats, Data(frag))
    && CryptedAll(p, false, UsedIVs(p, recorded, |frag|), pats, Data(frag)) == goal
  }

  /** The constant vector of the tenc box is the one that cbcs was run with. */
  predicate ConstantKnown(p: Protection, iv: seq<byte>) {
    p.scheme.SchemeCbcs? ==> Pad16(p.constantIV) == Pad16(iv)
  }

  lemma PartBack(p: Protection, ivs: seq<seq<byte>>, pats: seq<seq<Pattern>>, d: seq<seq<byte>>, outs: seq<seq<byte>>,
                 a: nat, b: nat, part: seq<seq<byte>>, used: seq<seq<byte>>)
    requires p.c.Permutes() && IsRun(p, pats, ivs, d, outs) && a <= b <= |d| && ConstantKnown(p, ivs[0])
    requires part == ivs[a..b + 1] && used == UsedIVs(p, SentIVs(p, part, b - a), b - a)
    ensures Fitting(pats[a..b], outs[a..b]) && CryptedAll(p, false, used, pats[a..b], outs[a..b]) == d[a..b]
  {
    IVsPart(p, ivs[0], pats, d, ivs, a, b);
    CryptedPart(p, true, ivs, pats, d, a, b);
    FittingPart(pats, d, a, b);
    if p.scheme.SchemeCbcs? {
      ConstantIVs(p, ivs[0], pats, d, a);
    }
    hide Fitting, IVs, CryptedAll, SentIVs, UsedIVs, Pad16;
    UsedAgree(p, ivs[a], pats[a..b], d[a..b], used);
    RunInverse(p, part, used, pats[a..b], d[a..b], outs[a..b]);
  }

  lemma BackReady(p: Protection, all: seq<array<byte>>, pats: seq<seq<Pattern>>, a: nat, b: nat, ivs: seq<seq<byte>>,
                  d: seq<seq<byte>>, outs: seq<seq<byte>>)
    requires p.c.Permutes() && Distinct(all) && IsRun(p, pats, ivs, d, outs) && a <= b <= |d|
    requires ConstantKnown(p, ivs[0]) && Mixed(Data(all), d, outs, a)
    ensures |all| == |pats| == |d| == |outs| == |ivs| - 1
    ensures Back(p, all[a..b], pats[a..b], SentIVs(p, ivs[a..b + 1], b - a), d[a..b])
  {
    RestOf(Data(all), d, outs, a, b);
    hide CryptedAll, Mixed, Distinct, Fitting, UsedIVs, SentIVs;
    PartDistinct(all, a, b);
    var part := ivs[a..b + 1];
    PartBack(p, ivs, pats, d, outs, a, b, part, UsedIVs(p, SentIVs(p, part, b - a), b - a));
  }

  lemma PartDistinct(all: seq<array<byte>>, a: nat, b: nat)
    requires Distinct(all) && a <= b <= |all|
    ensures Distinct(all[a..b]) && Data(all[a..b]) == Data(all)[a..b]
  {
    forall i: nat, j: nat ensures Differ(all[a..b], i, j) {
      assert Differ(all, a + i, a + j);
    }
  }

  lemma BoxOfPart(p: Protection, senc: SencBox?, all: seq<array<byte>>, ivs: seq<seq<byte>>, pats: seq<seq<Pattern>>,
                  a: nat, b: nat)
    requires Boxed(p, senc, all, ivs, pats, a, b) && b <= |all|
    ensures SencData(senc, SentIVs(p, ivs[a..b + 1], b - a), pats[a..b])
    ensures senc != null ==> Disjoint(senc.ivs, all[a..b])
  {
    if senc != null {
      forall i: nat ensures OutsideAt(senc.ivs, all[a..b], i) {
        assert OutsideAt(senc.ivs, all, i);
        if i < |senc.ivs| {
          forall j: nat ensures NotAt(senc.ivs[i], all[a..b], j) {
            assert NotAt(senc.ivs[i], all, a + j);
          }
        }
      }
    }
  }

  /** decryptSamplesInPlace for frag, which are the samples from a to b. */
  method DecryptFrom(p: Protection, all: seq<array<byte>>, frag: seq<array<byte>>, senc: SencBox?, a: nat, b: nat,
                     ghost now: seq<seq<byte>>, ghost pats: seq<seq<Pattern>>, ghost recorded: seq<seq<byte>>,
                     ghost goal: seq<seq<byte>>)
    requires Distinct(all) && a <= b <= |all| && frag == all[a..b] && now == Data(all)
    requires Back(p, frag, pats, recorded, goal) && SencData(senc, recorded, pats)
    requires senc != null ==> Disjoint(senc.ivs, frag)
    modifies frag
    ensures Data(frag) == goal && SameOutside(all, now, a, b)
  {
    assert forall i :: 0 <= i < |all| ==> all[i][..] == now[i];
    assert p.c.Permutes() && Distinct(frag) && Fitting(pats, Data(frag)) && |pats| == |frag|;
    assert CryptedAll(p, false, UsedIVs(p, recorded, |frag|), pats, Data(frag)) == goal;
    hide *;
    DecryptSamplesInPlace(p, frag, senc, recorded, pats);
    forall i | 0 <= i < |all| && !(a <= i < b) ensures all[i][..] == now[i] {
      Elsewhere(all, a, b, i);
    }
    Unchanged(all, now, a, b);
  }

  /** Between two rounds of the decryption: the first n samples are restored. */
  ghost predicate Restoring(p: Protection, all: seq<array<byte>>, pats: seq<seq<Pattern>>, n: nat,
                            ivs: seq<seq<byte>>, d: seq<seq<byte>>, outs: seq<seq<byte>>)
    reads all
  {
    && p.c.Permutes() && Distinct(all) && IsRun(p, pats, ivs, d, outs) && n <= |d| && ConstantKnown(p, ivs[0])
    && Mixed(Data(all), d, outs, n)
  }

  lemma RestoringStep(p: Protection, all: seq<array<byte>>, now: seq<seq<byte>>, pats: seq<seq<Pattern>>, a: nat,
                      b: nat, ivs: seq<seq<byte>>, d: seq<seq<byte>>, outs: seq<seq<byte>>)
    requires p.c.Permutes() && Distinct(all) && IsRun(p, pats, ivs, d, outs) && a <= b <= |d| == |all|
    requires ConstantKnown(p, ivs[0]) && Mixed(now, d, outs, a) && SameOutside(all, now, a, b)
    requires Data(all[a..b]) == d[a..b]
    ensures Restoring(p, all, pats, b, ivs, d, outs)
  {
    PartDone(all, all[a..b], now, d, outs, d[a..b], a, b);
  }

  /** DecryptFragment for the fragment with the samples from a to b. */
  method DecryptPart(p: Protection, all: seq<array<byte>>, senc: SencBox?, a: nat, b: nat,
                     ghost pats: seq<seq<Pattern>>, ghost ivs: seq<seq<byte>>, ghost d: seq<seq<byte>>,
                     ghost outs: seq<seq<byte>>)
    requires Restoring(p, all, pats, a, ivs, d, outs) && Boxed(p, senc, all, ivs, pats, a, b) && b <= |all|
    modifies all
    ensures Restoring(p, all, pats, b, ivs, d, outs)
  {
    assert p.c.Permutes() && Distinct(all) && IsRun(p, pats, ivs, d, outs) && ConstantKnown(p, ivs[0]);
    assert a <= b <= |all| == |d| == |pats| && |ivs| == |d| + 1 && Mixed(Data(all), d, outs, a);
    hide *;
    ghost var now := Data(all);
    BackReady(p, all, pats, a, b, ivs, d, outs);
    BoxOfPart(p, senc, all, ivs, pats, a, b);
    DecryptFrom(p, all, all[a..b], senc, a, b, now, pats[a..b], SentIVs(p, ivs[a..b + 1], b - a), d[a..b]);
    RestoringStep(p, all, now, pats, a, b, ivs, d, outs);
  }

  /** One round of the decryption of a sequence; the other boxes stay. */
  method DecryptNext(p: Protection, all: seq<array<byte>>, boxes: seq<SencBox?>, cuts: seq<nat>, f: nat,
                     ghost pats: seq<seq<Pattern>>, ghost ivs: seq<seq<byte>>, ghost d: seq<seq<byte>>,
                     ghost outs: seq<seq<byte>>)
    requires f < |boxes| == |cuts| - 1 && cuts[f] <= cuts[f + 1] <= |all|
    requires Restoring(p, all, pats, cuts[f], ivs, d, outs)
    requires forall g :: f <= g < |boxes| ==> Boxed(p, boxes[g], all, ivs, pats, cuts[g], cuts[g + 1])
    modifies all
    ensures Restoring(p, all, pats, cuts[f + 1], ivs, d, outs)
    ensures forall g :: f < g < |boxes| ==> Boxed(p, boxes[g], all, ivs, pats, cuts[g], cuts[g + 1])
  {
    hide *;
    NoSamples(p, boxes, all, ivs, pats, cuts, f, |boxes|);
    DecryptPart(p, all, boxes[f], cuts[f], cuts[f + 1], pats, ivs, d, outs);
  }

  /** Each fragment decrypted by its own senc box: the samples of the whole sequence come back. */
  method DecryptFragments(p: Protection, all: seq<array<byte>>, boxes: seq<SencBox?>, cuts: seq<nat>,
                          ghost pats: seq<seq<Pattern>>, ghost ivs: seq<seq<byte>>, ghost d: seq<seq<byte>>)
    requires p.c.Permutes() && Distinct(all) && Fitting(pats, d) && Fragmented(cuts, |all|) && |boxes| == |cuts| - 1
    requires ivs != [] && ivs == IVs(p, ivs[0], pats, d) && ConstantKnown(p, ivs[0])
    requires Data(all) == CryptedAll(p, true, ivs, pats, d)
    requires forall g :: 0 <= g < |boxes| ==> Boxed(p, boxes[g], all, ivs, pats, cuts[g], cuts[g + 1])
    modifies all
    ensures Data(all) == d
  {
    hide *;
    ghost var outs := Data(all);
    CutsWithin(cuts, |all|, 0);
    RestoringStarts(p, all, pats, ivs, d, outs);
    var f := 0;
    while f + 1 < |cuts|
      invariant f < |cuts| && Restoring(p, all, pats, cuts[f], ivs, d, outs)
      invariant forall g :: f <= g < |boxes| ==> Boxed(p, boxes[g], all, ivs, pats, cuts[g], cuts[g + 1])
    {
      CutsWithin(cuts, |all|, f);
      DecryptNext(p, all, boxes, cuts, f, pats, ivs, d, outs);
      f := f + 1;
    }
    AllRestored(p, all, pats, ivs, d, outs);
  }

  lemma RestoringStarts(p: Protection, all: seq<array<byte>>, pats: seq<seq<Pattern>>, ivs: seq<seq<byte>>,
                        d: seq<seq<byte>>, outs: seq<seq<byte>>)
    requires p.c.Permutes() && Distinct(all) && Fitting(pats, d) && ivs != [] && ivs == IVs(p, ivs[0], pats, d)
    requires ConstantKnown(p, ivs[0]) && outs == Data(all) == CryptedAll(p, true, ivs, pats, d)
    ensures Restoring(p, all, pats, 0, ivs, d, outs)
  {
    assert d[..0] + outs[0..] == outs;
  }

  lemma AllRestored(p: Protection, all: seq<array<byte>>, pats: seq<seq<Pattern>>, ivs: seq<seq<byte>>,
                    d: seq<seq<byte>>, outs: seq<seq<byte>>)
    requires Restoring(p, all, pats, |all|, ivs, d, outs)
    ensures Data(all) == d
  {
    MixedEnd(Data(all), d, outs);
  }

  lemma FirstIV(p: Protection, iv: seq<byte>, pats: seq<seq<Pattern>>, d: seq<seq<byte>>)
    requires |pats| == |d|
    ensures IVs(p, iv, pats, d)[0] == iv
  {
  }

  /** A sequence cut into fragments in any way, encrypted by one FragmentEncryptor and decrypted fragment by fragment:
      sent are its samples encrypted under one chain of vectors, and all of them come back.
    */
  method EncryptAndDecryptFragments(e: FragmentEncryptor, all: seq<array<byte>>, pats: seq<seq<Pattern>>,
                                    cuts: seq<nat>)
    returns (ok: bool, ghost ivs: seq<seq<byte>>, ghost sent: seq<seq<byte>>)
    requires e.Valid() && Distinct(all) && Apart(all, e.iv, []) && Fitting(pats, Data(all)) && Fragmented(cuts, |all|)
    requires ConstantKnown(e.p, e.iv[..])
    modifies e`iv, all
    ensures ivs == IVs(e.p, old(e.iv[..]), pats, old(Data(all)))
    ensures ok == SmallEntries(e.p, pats, |pats|)
    ensures ok ==> sent == CryptedAll(e.p, true, ivs, pats, old(Data(all))) && e.iv[..] == ivs[|all|]
    ensures ok ==> Data(all) == old(Data(all))
  {
    assert e.p.c.Permutes() && |pats| == |all|;
    hide *;
    ghost var d, iv := Data(all), e.iv[..];
    var boxes;
    ok, boxes, ivs := EncryptFragments(e, all, pats, cuts);
    sent := Data(all);
    if ok {
      FirstIV(e.p, iv, pats, d);
      ApartIsNotThere(all, e.iv);
      DecryptFragments(e.p, all, boxes, cuts, pats, ivs, d);
    }
  }

  // ----- protection, encryption and decryption -----

  /** A sampleProtector: stateless for audio, AVC and HEVC, with the decoder of frame headers for AV1. */
  datatype Protector =
    | Audio
    | Nal(codec: Codec, size: SliceHeaderSize)
    | Av1(dec: Av1Tiles.FrameHeaderDecoder)
  {
    ghost predicate Valid()
      reads Repr()
    {
      Av1? ==> dec.Valid()
    }

    function Repr(): set<object> {
      if Av1? then {dec} else {}
    }

    /** What it remembers of the samples before. */
    ghost function Now(): Av1Tiles.State
      reads Repr()
    {
      if Av1? then dec.Now() else Av1Tiles.State([], None)
    }
  }

  function SchemeName(p: Protection): string {
    match p.scheme
    case SchemeCenc => "cenc"
    case SchemeCbcs => "cbcs"
  }

  lemma {:induction false} WalkFits(codec: Codec, scheme: string, size: SliceHeaderSize, s: seq<byte>, pos: nat)
    requires pos <= |s|
    ensures var m := Walk(codec, scheme, size, s, pos); m.Some? ==> |m.value| <= |s| - pos
    decreases |s| - pos
  {
    hide BytesToProtect, ByteStream.BigEndian32;
    if pos + 4 < |s| && AnnexBRoundTrip.Next(s, pos) <= |s| {
      WalkFits(codec, scheme, size, s, AnnexBRoundTrip.Next(s, pos));
    }
  }

  /** A sample that a protector takes: its length has 32 bits, and so have the positions of its units. */
  ghost predicate Takes(pr: Protector, s: seq<byte>) {
    |s| < 0x1_0000_0000 && (pr.Nal? ==> NoWrap(s, 0))
  }

  /** Which bytes of samples are protected, and what the protector then remembers. */
  datatype Marked<M> = Marked(mask: M, st: Av1Tiles.State)

  /** The mask of a sample after st; None is an error. An audio sample has no ranges, and so is protected as a whole. */
  ghost function MaskOf(pr: Protector, scheme: string, st: Av1Tiles.State, s: seq<byte>): Option<Marked<seq<bool>>> {
    match pr
    case Audio => Some(Marked([], st))
    case Nal(codec, size) =>
      (match SampleMask(codec, scheme, size, s)
       case None => None
       case Some(m) => Some(Marked(m, st)))
    case Av1(dec) =>
      match Av1Tiles.RangesFrom(dec.parse, st, s, 0)
      case Failed => None
      case Step(tiles, next) =>
        var n := |tiles|;
        if Ordered(tiles, n) && TilesEnd(tiles, n) <= |s|
        then Some(Marked(TileMask(scheme, tiles, n) + Repeat(false, |s| - TilesEnd(tiles, n)), next))
        else None
  }

  /** The masks of the first k samples of a sequence, in decode order; None if there is an error among them. */
  ghost function MasksOf(pr: Protector, scheme: string, st: Av1Tiles.State, d: seq<seq<byte>>, k: nat)
    : Option<Marked<seq<seq<bool>>>>
    requires k <= |d|
  {
    if k == 0 then Some(Marked([], st))
    else
      match MasksOf(pr, scheme, st, d, k - 1)
      case None => None
      case Some(before) =>
        match MaskOf(pr, scheme, before.st, d[k - 1])
        case None => None
        case Some(m) => Some(Marked(before.mask + [m.mask], m.st))
  }

  /** For audio there is no error. */
  lemma {:induction false} AudioMasks(scheme: string, st: Av1Tiles.State, d: seq<seq<byte>>, k: nat)
    requires k <= |d|
    ensures MasksOf(Audio, scheme, st, d, k) == Some(Marked(Repeat([], k), st))
  {
    if k > 0 {
      AudioMasks(scheme, st, d, k - 1);
      assert Repeat<seq<bool>>([], k - 1) + [[]] == Repeat([], k);
    }
  }

  /** The ranges of a sample have the mask m; they fit the sample, and for cenc they are whole blocks. */
  ghost predicate FitsMask(p: Protection, s: seq<byte>, pats: seq<Pattern>, m: seq<bool>) {
    Mask(pats, |pats|) == m && Total(pats) <= |s| && (p.scheme.SchemeCenc? ==> WholeRanges(pats, |pats|))
  }

  /** protectRanges */
  method ProtectSample(pr: Protector, p: Protection, s: seq<byte>) returns (r: Option<seq<Pattern>>)
    requires pr.Valid() && Takes(pr, s)
    modifies pr.Repr()
    ensures pr.Valid()
    ensures var m := MaskOf(pr, SchemeName(p), old(pr.Now()), s);
            if r.None? then m.None? else m.Some? && m.value.st == pr.Now() && FitsMask(p, s, r.value, m.value.mask)
    ensures r == Some([]) ==> pr.Audio?
    ensures r.Some? && pr.Audio? ==> r.value == []
  {
    match pr {
      case Audio =>
        r := Some([]);
      case Nal(codec, size) =>
        r := GetProtectRanges(codec, SchemeName(p), size, s);
        WalkFits(codec, SchemeName(p), size, s, 0);
        if r.Some? {
          MaskIsCovered(r.value, |r.value|);
        }
      case Av1(dec) =>
        ghost var tiles;
        r, tiles := Av1Tiles.GetAV1ProtectRanges(dec, s, SchemeName(p));
    }
    if r.Some? && p.scheme.SchemeCenc? {
      ProtectedRanges(r.value, |r.value|);
    }
  }

  /** The first k samples have ranges with the masks m. */
  ghost predicate Protected(p: Protection, d: seq<seq<byte>>, pats: seq<seq<Pattern>>, m: seq<seq<bool>>, k: nat) {
    k <= |d| && k <= |pats| && k <= |m| && forall i :: 0 <= i < k ==> FitsMask(p, d[i], pats[i], m[i])
  }

  ghost predicate TakesAll(pr: Protector, d: seq<seq<byte>>) {
    |d| <= 0x1_0000_0000 && forall i :: 0 <= i < |d| ==> Takes(pr, d[i])
  }

  lemma SampleTaken(pr: Protector, all: seq<array<byte>>, d: seq<seq<byte>>, k: nat)
    requires TakesAll(pr, d) && k < |d| && Data(all) == d
    ensures d[k] == all[k][..] && Takes(pr, d[k])
  {
  }

  /** The first k samples got the ranges pats, and the protector remembers now. */
  ghost predicate Protecting(pr: Protector, p: Protection, st: Av1Tiles.State, d: seq<seq<byte>>,
                             pats: seq<seq<Pattern>>, k: nat, now: Av1Tiles.State)
  {
    && k <= |d| && |pats| == k
    && var m := MasksOf(pr, SchemeName(p), st, d, k);
    m.Some? && m.value.st == now && |m.value.mask| == k && Protected(p, d, pats, m.value.mask, k)
  }

  lemma ProtectingStep(pr: Protector, p: Protection, st: Av1Tiles.State, d: seq<seq<byte>>, pats: seq<seq<Pattern>>,
                       r: Option<seq<Pattern>>, k: nat, now: Av1Tiles.State, next: Av1Tiles.State)
    requires k < |d| && Protecting(pr, p, st, d, pats, k, now)
    requires var m := MaskOf(pr, SchemeName(p), now, d[k]);
             if r.None? then m.None? else m.Some? && m.value.st == next && FitsMask(p, d[k], r.value, m.value.mask)
    ensures r.Some? ==> Protecting(pr, p, st, d, pats + [r.value], k + 1, next)
    ensures r.None? ==> MasksOf(pr, SchemeName(p), st, d, |d|).None?
  {
    hide MaskOf, FitsMask;
    if r.None? {
      NoMasks(pr, SchemeName(p), st, d, k + 1, |d|);
    } else {
      var m, m' := MasksOf(pr, SchemeName(p), st, d, k).value.mask, MasksOf(pr, SchemeName(p), st, d, k + 1).value.mask;
      forall i | 0 <= i < k + 1 ensures FitsMask(p, d[i], (pats + [r.value])[i], m'[i]) {
        assert i < k ==> FitsMask(p, d[i], pats[i], m[i]);
      }
    }
  }

  lemma {:induction false} NoMasks(pr: Protector, scheme: string, st: Av1Tiles.State, d: seq<seq<byte>>, i: nat, k: nat)
    requires i <= k <= |d| && MasksOf(pr, scheme, st, d, i).None?
    ensures MasksOf(pr, scheme, st, d, k).None?
  {
    hide MaskOf;
    if i < k {
      NoMasks(pr, scheme, st, d, i, k - 1);
    }
  }

  /** One round of the loop over the samples. */
  method ProtectNext(pr: Protector, p: Protection, all: seq<array<byte>>, k: nat, ghost pats: seq<seq<Pattern>>,
                     ghost st: Av1Tiles.State, ghost d: seq<seq<byte>>) returns (r: Option<seq<Pattern>>)
    requires pr.Valid() && TakesAll(pr, d) && k < |all| && Data(all) == d
    requires Protecting(pr, p, st, d, pats, k, pr.Now())
    modifies pr.Repr()
    ensures pr.Valid() && Data(all) == d
    ensures r.None? ==> MasksOf(pr, SchemeName(p), st, d, |d|).None?
    ensures r.Some? ==> Protecting(pr, p, st, d, pats + [r.value], k + 1, pr.Now())
    ensures r.Some? ==> (r.value == [] <==> pr.Audio?)
  {
    hide TakesAll, Takes, Protecting, Data, MasksOf, MaskOf, FitsMask;
    SampleTaken(pr, all, d, k);
    ghost var now := pr.Now();
    r := ProtectSample(pr, p, all[k][..]);
    ProtectingStep(pr, p, st, d, pats, r, k, now, pr.Now());
  }

  /** The ranges of all samples of a sequence, in decode order, or the first error. */
  method ProtectAll(pr: Protector, p: Protection, all: seq<array<byte>>) returns (r: Option<seq<seq<Pattern>>>)
    requires pr.Valid() && TakesAll(pr, Data(all))
    modifies pr.Repr()
    ensures pr.Valid()
    ensures var m := MasksOf(pr, SchemeName(p), old(pr.Now()), Data(all), |all|);
            if r.None? then m.None?
            else m.Some? && |r.value| == |all| && Protected(p, Data(all), r.value, m.value.mask, |all|)
    ensures r.Some? ==> AllOrNone(r.value)
  {
    ghost var d, st := Data(all), pr.Now();
    var pats: seq<seq<Pattern>> := [];
    hide *;
    NoneProtected(pr, p, st, d);
    var k: nat := 0;
    while k < |all|
      invariant k <= |all| && pr.Valid() && Protecting(pr, p, st, d, pats, k, pr.Now()) && Data(all) == d
      invariant forall i :: 0 <= i < |pats| ==> (pats[i] == [] <==> pr.Audio?)
    {
      var ranges := ProtectNext(pr, p, all, k, pats, st, d);
      if ranges.None? {
        return None;
      }
      pats := pats + [ranges.value];
      k := k + 1;
    }
    AllProtected(pr, p, st, d, pats, pr.Now());
    AllAlike(pr, pats);
    return Some(pats);
  }

  lemma NoneProtected(pr: Protector, p: Protection, st: Av1Tiles.State, d: seq<seq<byte>>)
    ensures Protecting(pr, p, st, d, [], 0, st)
  {
  }

  lemma AllAlike(pr: Protector, pats: seq<seq<Pattern>>)
    requires forall i :: 0 <= i < |pats| ==> (pats[i] == [] <==> pr.Audio?)
    ensures AllOrNone(pats)
  {
  }

  lemma AllProtected(pr: Protector, p: Protection, st: Av1Tiles.State, d: seq<seq<byte>>, pats: seq<seq<Pattern>>,
                     now: Av1Tiles.State)
    requires Protecting(pr, p, st, d, pats, |d|, now)
    ensures var m := MasksOf(pr, SchemeName(p), st, d, |d|);
            m.Some? && |pats| == |d| && Protected(p, d, pats, m.value.mask, |d|)
  {
  }

  lemma ProtectedRun(pr: Protector, p: Protection, d: seq<seq<byte>>, pats: seq<seq<Pattern>>, m: seq<seq<bool>>)
    requires |pats| == |d| && TakesAll(pr, d) && Protected(p, d, pats, m, |d|)
    ensures Fitting(pats, d) && SmallRun(d) && (p.Sends() ==> AllWhole(pats))
  {
    forall k: nat ensures FitsAt(pats, d, k) && SmallSample(d, k) && (p.Sends() ==> WholeAt(pats, k)) {
      assert k < |d| ==> FitsMask(p, d[k], pats[k], m[k]) && Takes(pr, d[k]);
    }
  }

  /** Every protected byte of a run was encrypted by what the cipher makes of its counter, and no two blocks of
      protected data, in one sample or in two, have the same counter.
    */
  ghost predicate NoReuse(c: Cipher, ivs: seq<seq<byte>>, pats: seq<seq<Pattern>>, d: seq<seq<byte>>,
                          sent: seq<seq<byte>>)
    requires |ivs| > |d| == |pats| == |sent|
  {
    && (forall i: nat, x: nat, t: seq<byte> ::
          CounterFor(ivs, pats, d, i, x, t) ==> MeetsAt(c, pats, d, sent, i, x, t))
    && (forall i: nat, x: nat, t: seq<byte>, j: nat, y: nat, u: seq<byte> ::
          CounterFor(ivs, pats, d, i, x, t) && CounterFor(ivs, pats, d, j, y, u) && Earlier(i, x, j, y) ==> t != u)
  }

  ghost predicate MeetsAt(c: Cipher, pats: seq<seq<Pattern>>, d: seq<seq<byte>>, sent: seq<seq<byte>>, i: nat, x: nat,
                          t: seq<byte>)
    requires i < |d| == |pats| == |sent|
  {
    && Total(pats[i]) <= |d[i]| == |sent[i]|
    && Meets(c, ProtectedBytes(pats[i], d[i]), ProtectedBytes(pats[i], sent[i]), x, t)
  }

  lemma NoReuseInRun(p: Protection, iv: seq<byte>, ivs: seq<seq<byte>>, pats: seq<seq<Pattern>>, d: seq<seq<byte>>,
                     sent: seq<seq<byte>>)
    requires p.c.Permutes() && Fitting(pats, d) && SmallRun(d) && AllWhole(pats) && FitsIV(p, iv) && p.Sends()
    requires ivs == IVs(p, iv, pats, d) && sent == CryptedAll(p, true, ivs, pats, d)
    ensures NoReuse(p.c, ivs, pats, d, sent)
  {
    IVsChained(p, iv, pats, d);
    FirstIV(p, iv, pats, d);
    forall i: nat, x: nat, t: seq<byte> | CounterFor(ivs, pats, d, i, x, t)
      ensures MeetsAt(p.c, pats, d, sent, i, x, t)
    {
      InRun(p, ivs, pats, d, sent, i, x, t);
    }
    hide Fitting, SmallRun, AllWhole, Chained, IVs, CounterFor, MeetsAt, CryptedAll;
    forall i: nat, x: nat, t: seq<byte>, j: nat, y: nat, u: seq<byte> |
        CounterFor(ivs, pats, d, i, x, t) && CounterFor(ivs, pats, d, j, y, u) && Earlier(i, x, j, y)
      ensures t != u
    {
      NoneShared(p, ivs, pats, d, i, x, t, j, y, u);
    }
  }

  lemma InRun(p: Protection, ivs: seq<seq<byte>>, pats: seq<seq<Pattern>>, d: seq<seq<byte>>, sent: seq<seq<byte>>,
              i: nat, x: nat, t: seq<byte>)
    requires p.c.Permutes() && p.Sends() && Fitting(pats, d) && |d| < |ivs|
    requires sent == CryptedAll(p, true, ivs, pats, d) && CounterFor(ivs, pats, d, i, x, t)
    ensures MeetsAt(p.c, pats, d, sent, i, x, t)
  {
    hide KeyBytes, Xor, IsCounter, Crypted;
    assert FitsAt(pats, d, i);
    CounterMet(p, ivs[i], pats[i], d[i], sent[i], x, t);
  }

  /** A sequence of samples of audio, AVC, HEVC or AV1, cut into fragments in any way: the ranges of its samples, the
      encryption of its fragments by one FragmentEncryptor, and their decryption, each by its own senc box. It succeeds
      if and only if the ranges of all samples are found and fit the saiz box. Then sent is every sample encrypted in
      its ranges under one chain of vectors, all samples come back, and with scheme cenc the cipher is never given
      one counter for two blocks of data, neither within a fragment nor across fragments.
    */
  method ProtectEncryptDecrypt(e: FragmentEncryptor, pr: Protector, all: seq<array<byte>>, cuts: seq<nat>)
    returns (ok: bool, ghost pats: seq<seq<Pattern>>, ghost ivs: seq<seq<byte>>, ghost sent: seq<seq<byte>>)
    requires e.Valid() && Distinct(all) && Apart(all, e.iv, []) && Fragmented(cuts, |all|)
    requires pr.Valid() && TakesAll(pr, Data(all)) && ConstantKnown(e.p, e.iv[..])
    modifies e`iv, all, pr.Repr()
    ensures var m := MasksOf(pr, SchemeName(e.p), old(pr.Now()), old(Data(all)), |all|);
            if m.None? then !ok
            else
              && |pats| == |all| && Protected(e.p, old(Data(all)), pats, m.value.mask, |all|)
              && ok == SmallEntries(e.p, pats, |pats|) && AllOrNone(pats)
    ensures ok ==> ivs == IVs(e.p, old(e.iv[..]), pats, old(Data(all))) && e.iv[..] == ivs[|all|]
    ensures ok ==> sent == CryptedAll(e.p, true, ivs, pats, old(Data(all)))
    ensures ok ==> Data(all) == old(Data(all))
    ensures ok && e.p.Sends() ==> NoReuse(e.p.c, ivs, pats, old(Data(all)), sent)
  {
    assert FitsIV(e.p, e.iv[..]) && e.p.c.Permutes();
    hide IVs, CryptedAll, Fitting, Distinct, Apart, Fragmented, Protected, TakesAll, NoReuse, SmallEntries, Data;
    hide ConstantKnown, FragmentEncryptor.Valid, SmallRun, AllWhole, FitsIV, MasksOf, Protection.Sends, Protector.Now;
    ghost var d, iv, st := Data(all), e.iv[..], pr.Now();
    ghost var m := MasksOf(pr, SchemeName(e.p), st, d, |all|);
    var ranges := ProtectAll(pr, e.p, all);
    if ranges.None? {
      return false, [], [], d;
    }
    pats := ranges.value;
    ProtectedRun(pr, e.p, d, pats, m.value.mask);
    ok, ivs, sent := EncryptAndDecryptFragments(e, all, ranges.value, cuts);
    if ok && e.p.Sends() {
      NoReuseInRun(e.p, iv, ivs, pats, d, sent);
    }
  }
}
