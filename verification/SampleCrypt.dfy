/** Encrypting and decrypting one sample in place (CryptSampleCenc, cryptSampleCbcs and cbcsCrypt in mp4/crypto.go;
    sections 9.5, 10.1 and 10.4 of ISO/IEC 23001-7).
  */
module SampleCrypt {
  import opened BitStrings
  import opened BigEndian
  import opened BlockCipher

  type uint16 = i: int | 0 <= i < 0x1_0000
  type uint32 = i: int | 0 <= i < 0x1_0000_0000

  /** SubSamplePattern: a number of clear bytes, then a number of protected ones. */
  datatype Pattern = Pattern(clear: uint16, prot: uint32)

  /** Where pattern j starts in the sample. */
  function Start(pats: seq<Pattern>, j: nat): nat
    requires j <= |pats|
  {
    if j == 0 then 0 else Start(pats, j - 1) + pats[j - 1].clear + pats[j - 1].prot
  }

  function Total(pats: seq<Pattern>): nat {
    Start(pats, |pats|)
  }

  // ----- scheme cenc -----

  /** The number of protected bytes of the first j patterns. */
  function Used(pats: seq<Pattern>, j: nat): nat
    requires j <= |pats|
  {
    if j == 0 then 0 else Used(pats, j - 1) + pats[j - 1].prot
  }

  /** Byte p lies in the protected range of one of the first j patterns. */
  predicate Covered(pats: seq<Pattern>, j: nat, p: nat)
    requires j <= |pats|
  {
    j > 0 && (Start(pats, j - 1) + pats[j - 1].clear <= p < Start(pats, j) || Covered(pats, j - 1, p))
  }

  /** The number of protected bytes of the first j patterns that come before byte p. */
  function Rank(pats: seq<Pattern>, j: nat, p: nat): nat
    requires j <= |pats|
  {
    if j == 0 then 0
    else
      var a := Start(pats, j - 1) + pats[j - 1].clear;
      Rank(pats, j - 1, p) + (if p <= a then 0 else if p - a < pats[j - 1].prot then p - a else pats[j - 1].prot)
  }

  /** Byte p of a sample after the first j patterns: protected byte number k meets key byte k, and no other byte
      changes.
    */
  function CencByte(keys: nat -> byte, pats: seq<Pattern>, j: nat, p: nat, x: byte): byte
    requires j <= |pats|
  {
    if Covered(pats, j, p) then Xor(x, keys(Rank(pats, j, p))) else x
  }

  function CencTo(keys: nat -> byte, pats: seq<Pattern>, j: nat, d: seq<byte>): (r: seq<byte>)
    requires j <= |pats|
    ensures |r| == |d|
  {
    seq(|d|, p requires 0 <= p < |d| => CencByte(keys, pats, j, p, d[p]))
  }

  /** What CryptSampleCenc makes of d; without patterns all of it is protected. */
  function CencSample(keys: nat -> byte, pats: seq<Pattern>, d: seq<byte>): (r: seq<byte>)
    ensures |r| == |d|
  {
    if pats == [] then Keyed(keys, d, 0) else CencTo(keys, pats, |pats|, d)
  }

  /** Counter mode is its own inverse, over scattered ranges too. */
  lemma CencSampleTwice(keys: nat -> byte, pats: seq<Pattern>, d: seq<byte>)
    ensures CencSample(keys, pats, CencSample(keys, pats, d)) == d
  {
    forall p | 0 <= p < |d|
      ensures Xor(Xor(d[p], keys(p)), keys(p)) == d[p]
      ensures CencByte(keys, pats, |pats|, p, CencByte(keys, pats, |pats|, p, d[p])) == d[p]
    {
      XorTwice(d[p], keys(p));
      XorTwice(d[p], keys(Rank(pats, |pats|, p)));
    }
  }

  lemma {:induction false} StartMono(pats: seq<Pattern>, i: nat, j: nat)
    requires i <= j <= |pats|
    ensures Start(pats, i) <= Start(pats, j)
  {
    if i < j {
      StartMono(pats, i, j - 1);
    }
  }

  /** Nothing behind pattern j is covered yet. */
  lemma {:induction false} BehindStart(pats: seq<Pattern>, j: nat, p: nat)
    requires j <= |pats| && Start(pats, j) <= p
    ensures !Covered(pats, j, p) && Rank(pats, j, p) == Used(pats, j)
  {
    if j > 0 {
      BehindStart(pats, j - 1, p);
    }
  }

  lemma {:induction false} BeforeStart(pats: seq<Pattern>, j: nat, p: nat)
    requires j < |pats| && p < Start(pats, j) + pats[j].clear
    ensures Covered(pats, j + 1, p) == Covered(pats, j, p) && Rank(pats, j + 1, p) == Rank(pats, j, p)
  {
  }

  /** What pattern j does to one byte. */
  lemma CencByteStep(keys: nat -> byte, pats: seq<Pattern>, j: nat, a: nat, b: nat, p: nat, x: byte)
    requires j < |pats| && a == Start(pats, j) + pats[j].clear && b == a + pats[j].prot
    ensures CencByte(keys, pats, j + 1, p, x)
         == if a <= p < b then Xor(x, keys(Used(pats, j) + p - a)) else CencByte(keys, pats, j, p, x)
    ensures p >= a ==> CencByte(keys, pats, j, p, x) == x
  {
    if p < a {
      BeforeStart(pats, j, p);
    } else {
      BehindStart(pats, j, p);
    }
  }

  lemma CencStep(keys: nat -> byte, pats: seq<Pattern>, j: nat, a: nat, b: nat, d: seq<byte>, now: seq<byte>)
    requires j < |pats| && a == Start(pats, j) + pats[j].clear && b == a + pats[j].prot <= |d|
    requires now == CencTo(keys, pats, j, d)
    ensures CencTo(keys, pats, j + 1, d) == now[..a] + Keyed(keys, now[a..b], Used(pats, j)) + now[b..]
  {
    var next, mid := CencTo(keys, pats, j + 1, d), Keyed(keys, now[a..b], Used(pats, j));
    forall p | 0 <= p < |d| ensures next[p] == (now[..a] + mid + now[b..])[p] {
      CencByteStep(keys, pats, j, a, b, p, d[p]);
    }
  }

  lemma CencSkip(keys: nat -> byte, pats: seq<Pattern>, j: nat, d: seq<byte>)
    requires j < |pats| && pats[j].prot == 0
    ensures CencTo(keys, pats, j + 1, d) == CencTo(keys, pats, j, d)
  {
    var a := Start(pats, j) + pats[j].clear;
    forall p | 0 <= p < |d| ensures CencByte(keys, pats, j + 1, p, d[p]) == CencByte(keys, pats, j, p, d[p]) {
      CencByteStep(keys, pats, j, a, a, p, d[p]);
    }
  }

  // ----- what counter mode makes of a sample, block by block -----

  /** The protected bytes of the first j patterns, joined. */
  function Joined(pats: seq<Pattern>, j: nat, d: seq<byte>): seq<byte>
    requires j <= |pats| && Start(pats, j) <= |d|
  {
    if j == 0 then [] else Joined(pats, j - 1, d) + d[Start(pats, j - 1) + pats[j - 1].clear..Start(pats, j)]
  }

  /** The protected bytes of a sample, in order; without patterns all of its bytes. */
  function ProtectedBytes(pats: seq<Pattern>, d: seq<byte>): seq<byte>
    requires Total(pats) <= |d|
  {
    if pats == [] then d else Joined(pats, |pats|, d)
  }

  lemma {:induction false} JoinedLength(pats: seq<Pattern>, j: nat, d: seq<byte>)
    requires j <= |pats| && Start(pats, j) <= |d|
    ensures |Joined(pats, j, d)| == Used(pats, j)
  {
    if j > 0 {
      JoinedLength(pats, j - 1, d);
    }
  }

  /** A byte of range j meets the key byte that is as far behind those of the earlier ranges, and a clear byte none. */
  lemma {:induction false} CencByteAt(keys: nat -> byte, pats: seq<Pattern>, n: nat, j: nat, p: nat, x: byte)
    requires j < n <= |pats| && Start(pats, j) <= p < Start(pats, j + 1)
    ensures var a := Start(pats, j) + pats[j].clear;
            CencByte(keys, pats, n, p, x) == if a <= p then Xor(x, keys(Used(pats, j) + p - a)) else x
    decreases n
  {
    if n == j + 1 {
      BehindStart(pats, j, p);
    } else {
      StartMono(pats, j + 1, n - 1);
      BeforeStart(pats, n - 1, p);
      CencByteAt(keys, pats, n - 1, j, p, x);
    }
  }

  /** Range j of the encrypted sample, and the clear bytes before it. */
  lemma CencRangeAt(keys: nat -> byte, pats: seq<Pattern>, d: seq<byte>, e: seq<byte>, j: nat, s: nat, a: nat, b: nat)
    requires j < |pats| && s == Start(pats, j) && a == s + pats[j].clear && b == Start(pats, j + 1) <= |d|
    requires e == CencTo(keys, pats, |pats|, d)
    ensures e[s..a] == d[s..a] && e[a..b] == Keyed(keys, d[a..b], Used(pats, j))
  {
    forall p | s <= p < b ensures e[p] == if a <= p then Xor(d[p], keys(Used(pats, j) + p - a)) else d[p] {
      CencByteAt(keys, pats, |pats|, j, p, d[p]);
    }
  }

  lemma KeyedJoin(keys: nat -> byte, x: seq<byte>, y: seq<byte>)
    ensures Keyed(keys, x + y, 0) == Keyed(keys, x, 0) + Keyed(keys, y, |x|)
  {
  }

  lemma {:induction false} CencJoinedTo(keys: nat -> byte, pats: seq<Pattern>, d: seq<byte>, e: seq<byte>, j: nat)
    requires j <= |pats| && Total(pats) <= |d| && e == CencTo(keys, pats, |pats|, d)
    ensures Start(pats, j) <= |d| && Joined(pats, j, e) == Keyed(keys, Joined(pats, j, d), 0)
  {
    StartMono(pats, j, |pats|);
    if j > 0 {
      var s, b := Start(pats, j - 1), Start(pats, j);
      var a := s + pats[j - 1].clear;
      CencJoinedTo(keys, pats, d, e, j - 1);
      CencRangeAt(keys, pats, d, e, j - 1, s, a, b);
      JoinedLength(pats, j - 1, d);
      KeyedJoin(keys, Joined(pats, j - 1, d), d[a..b]);
    }
  }

  /** The protected bytes, joined, are one message in counter mode. */
  lemma CencJoined(keys: nat -> byte, pats: seq<Pattern>, d: seq<byte>)
    requires Total(pats) <= |d|
    ensures ProtectedBytes(pats, CencSample(keys, pats, d)) == Keyed(keys, ProtectedBytes(pats, d), 0)
  {
    if pats != [] {
      CencJoinedTo(keys, pats, d, CencSample(keys, pats, d), |pats|);
    }
  }

  /** Every other byte stays: the clear ones before each range and what is left behind the last. */
  lemma CencClear(keys: nat -> byte, pats: seq<Pattern>, d: seq<byte>, j: nat)
    requires j < |pats| && Total(pats) <= |d|
    ensures var e, s := CencSample(keys, pats, d), Start(pats, j);
            && s + pats[j].clear <= Total(pats)
            && e[s..s + pats[j].clear] == d[s..s + pats[j].clear] && e[Total(pats)..] == d[Total(pats)..]
  {
    var e, s := CencSample(keys, pats, d), Start(pats, j);
    StartMono(pats, j + 1, |pats|);
    CencRangeAt(keys, pats, d, e, j, s, s + pats[j].clear, Start(pats, j + 1));
    forall p | Total(pats) <= p < |d| ensures e[p] == d[p] {
      BehindStart(pats, |pats|, p);
    }
  }

  /** Block j of the protected bytes: what it was, joined by exclusive or to what the cipher makes of the 16-byte
      counter t that is j steps after iv. So CryptSampleCenc is counter mode over the protected bytes.
    */
  lemma CencBlock(c: Cipher, iv: seq<byte>, pats: seq<Pattern>, d: seq<byte>, j: nat, t: seq<byte>, lo: nat, hi: nat)
    requires c.Permutes() && |iv| == 16 && IsCounter(t, iv, j) && Total(pats) <= |d|
    requires lo == 16 * j < |ProtectedBytes(pats, d)| && hi == Min(lo + 16, |ProtectedBytes(pats, d)|)
    ensures var m, m' := ProtectedBytes(pats, d), ProtectedBytes(pats, CencSample(CtrKeys(c, iv), pats, d));
            |m'| == |m| && |c.enc(t)| == 16 && m'[lo..hi] == XorSeq(m[lo..hi], c.enc(t)[..hi - lo])
  {
    hide *;
    CencJoined(CtrKeys(c, iv), pats, d);
    KeyedBlock(c, iv, ProtectedBytes(pats, d), j, t, lo, hi);
  }

  // ----- the loop -----

  method CryptSampleCenc(c: Cipher, iv: seq<byte>, data: array<byte>, pats: seq<Pattern>)
    requires Total(pats) <= data.Length
    modifies data
    ensures data[..] == CencSample(CtrKeys(c, iv), pats, old(data[..]))
  {
    ghost var d := data[..];
    var stream := new CtrStream(CtrKeys(c, iv));
    if |pats| != 0 {
      CryptRanges(stream, data, pats);
    } else {
      stream.XORKeyStream(data, 0, data.Length);
      assert d[0..|d|] == d;
    }
  }

  /** The loop over the patterns. */
  method CryptRanges(stream: CtrStream, data: array<byte>, pats: seq<Pattern>)
    requires Total(pats) <= data.Length && stream.used == 0
    modifies stream, data
    ensures data[..] == CencTo(stream.keys, pats, |pats|, old(data[..]))
  {
    ghost var d := data[..];
    var pos: nat := 0;
    var j: nat := 0;
    assert d == CencTo(stream.keys, pats, 0, d);
    while j < |pats|
      invariant j <= |pats| && pos == Start(pats, j) && stream.used == Used(pats, j)
      invariant data[..] == CencTo(stream.keys, pats, j, d)
    {
      pos := CryptRange(stream, data, pats, j, pos, d);
      j := j + 1;
    }
  }

  /** The range of pattern j, which starts at pos0. */
  method CryptRange(stream: CtrStream, data: array<byte>, pats: seq<Pattern>, j: nat, pos0: nat, ghost d: seq<byte>)
    returns (pos: nat)
    requires j < |pats| && pos0 == Start(pats, j) && stream.used == Used(pats, j)
    requires Total(pats) <= data.Length == |d| && data[..] == CencTo(stream.keys, pats, j, d)
    modifies stream, data
    ensures pos == Start(pats, j + 1) && stream.used == Used(pats, j + 1)
    ensures data[..] == CencTo(stream.keys, pats, j + 1, d)
  {
    pos := pos0;
    StartMono(pats, j + 1, |pats|);
    var nrClear := pats[j].clear;
    if nrClear > 0 {
      pos := pos + nrClear;
    }
    var nrEnc := pats[j].prot;
    if nrEnc > 0 {
      CencStep(stream.keys, pats, j, pos, pos + nrEnc, d, data[..]);
      stream.XORKeyStream(data, pos, pos + nrEnc);
      pos := pos + nrEnc;
    } else {
      CencSkip(stream.keys, pats, j, d);
    }
  }

  // ----- scheme cbcs -----

  /** d[lo..hi] in stripes of cr encrypted and sk skipped bytes, chained from one to the next. */
  function Stripes(m: Mode, chain: seq<byte>, d: seq<byte>, lo: nat, hi: nat, cr: nat, sk: nat): seq<byte>
    requires sk > 0 && lo <= hi <= |d|
    decreases hi - lo
  {
    if hi - lo < cr then d[lo..hi]
    else if hi - lo - cr < sk then m.crypt(chain, d[lo..lo + cr]) + d[lo + cr..hi]
    else
      m.crypt(chain, d[lo..lo + cr]) + d[lo + cr..lo + cr + sk]
        + Stripes(m, m.after(chain, d[lo..lo + cr]), d, lo + cr + sk, hi, cr, sk)
  }

  /** The whole 16-byte blocks of n bytes. */
  function WholeBlocks(n: nat): (m: nat)
    ensures m <= n < m + 16 && m % 16 == 0
  {
    n - n % 16
  }

  /** What cbcsCrypt makes of the protected range d[lo..hi]. */
  function CbcsRange(m: Mode, iv: seq<byte>, d: seq<byte>, lo: nat, hi: nat, cr: nat, sk: nat): seq<byte>
    requires lo <= hi <= |d|
  {
    if sk == 0 then m.crypt(iv, d[lo..lo + WholeBlocks(hi - lo)]) + d[lo + WholeBlocks(hi - lo)..hi]
    else Stripes(m, iv, d, lo, hi, cr, sk)
  }

  lemma {:induction false} StripesLength(m: Mode, chain: seq<byte>, d: seq<byte>, lo: nat, hi: nat, cr: nat, sk: nat)
    requires m.KeepsLengths() && |chain| == 16 && sk > 0 && lo <= hi <= |d|
    ensures |Stripes(m, chain, d, lo, hi, cr, sk)| == hi - lo
    decreases hi - lo
  {
    if hi - lo >= cr {
      if hi - lo - cr >= sk {
        StripesLength(m, m.after(chain, d[lo..lo + cr]), d, lo + cr + sk, hi, cr, sk);
      }
    }
  }

  lemma RangeLength(m: Mode, iv: seq<byte>, d: seq<byte>, lo: nat, hi: nat, cr: nat, sk: nat)
    requires m.KeepsLengths() && |iv| == 16 && lo <= hi <= |d|
    ensures |CbcsRange(m, iv, d, lo, hi, cr, sk)| == hi - lo
  {
    if sk == 0 {
    } else {
      StripesLength(m, iv, d, lo, hi, cr, sk);
    }
  }

  /** e holds x + y + z from lo on. */
  lemma Parts(e: seq<byte>, lo: nat, hi: nat, x: seq<byte>, y: seq<byte>, z: seq<byte>, a: nat, b: nat)
    requires lo <= hi <= |e| && e[lo..hi] == x + y + z && a == lo + |x| && b == a + |y|
    ensures a <= b <= hi && e[lo..a] == x && e[a..b] == y && e[b..hi] == z
  {
    var s := e[lo..hi];
    assert |s| == |x| + |y| + |z|;
    forall i | 0 <= i < hi - lo ensures e[lo + i] == s[i] {
    }
    assert e[lo..a] == s[..|x|];
    assert e[a..b] == s[|x|..|x| + |y|];
    assert e[b..hi] == s[|x| + |y|..];
  }

  lemma Unparts(d: seq<byte>, lo: nat, a: nat, b: nat, hi: nat)
    requires lo <= a <= b <= hi <= |d|
    ensures d[lo..a] + d[a..b] + d[b..hi] == d[lo..hi]
  {
  }

  /** One stripe and what is skipped after it, decrypted. */
  lemma StripeBack(m: Mode, that: Mode, chain: seq<byte>, d: seq<byte>, e: seq<byte>,
                   lo: nat, a: nat, b: nat, hi: nat, x: seq<byte>, rest: seq<byte>)
    requires m.KeepsLengths() && m.UndoneBy(that) && |chain| == 16 && lo <= a <= b <= hi <= |d| == |e|
    requires x == m.crypt(chain, d[lo..a]) && e[lo..hi] == x + d[a..b] + rest
    ensures |m.after(chain, d[lo..a])| == 16
    ensures that.crypt(chain, e[lo..a]) == d[lo..a] && that.after(chain, e[lo..a]) == m.after(chain, d[lo..a])
    ensures e[a..b] == d[a..b] && e[b..hi] == rest
  {
    Parts(e, lo, hi, x, d[a..b], rest, a, b);
  }

  /** Decrypting what striped encryption left in e gives d. */
  lemma {:induction false} StripesInverse(m: Mode, that: Mode, chain: seq<byte>, d: seq<byte>, e: seq<byte>,
                                          lo: nat, hi: nat, cr: nat, sk: nat)
    requires m.KeepsLengths() && m.UndoneBy(that) && |chain| == 16 && sk > 0 && lo <= hi <= |d| == |e|
    requires e[lo..hi] == Stripes(m, chain, d, lo, hi, cr, sk)
    ensures Stripes(that, chain, e, lo, hi, cr, sk) == d[lo..hi]
    decreases hi - lo
  {
    var a := lo + cr;
    if hi < a {
    } else if hi - a < sk {
      var x := m.crypt(chain, d[lo..a]);
      StripeBack(m, that, chain, d, e, lo, a, hi, hi, x, []) by {
        assert e[lo..hi] == x + d[a..hi] + [];
      }
      assert d[lo..a] + d[a..hi] == d[lo..hi];
    } else {
      var b, chain' := a + sk, m.after(chain, d[lo..a]);
      StripeBack(m, that, chain, d, e, lo, a, b, hi, m.crypt(chain, d[lo..a]), Stripes(m, chain', d, b, hi, cr, sk));
      StripesInverse(m, that, chain', d, e, b, hi, cr, sk);
      Unparts(d, lo, a, b, hi);
    }
  }

  lemma RangeInverse(m: Mode, that: Mode, iv: seq<byte>, d: seq<byte>, e: seq<byte>, lo: nat, hi: nat, cr: nat, sk: nat)
    requires m.KeepsLengths() && m.UndoneBy(that) && |iv| == 16 && lo <= hi <= |d| == |e|
    requires e[lo..hi] == CbcsRange(m, iv, d, lo, hi, cr, sk)
    ensures CbcsRange(that, iv, e, lo, hi, cr, sk) == d[lo..hi]
  {
    if sk == 0 {
      var w := lo + WholeBlocks(hi - lo);
      var x := m.crypt(iv, d[lo..w]);
      StripeBack(m, that, iv, d, e, lo, w, hi, hi, x, []) by {
        assert e[lo..hi] == x + d[w..hi] + [];
      }
      assert d[lo..w] + d[w..hi] == d[lo..hi];
    } else {
      StripesInverse(m, that, iv, d, e, lo, hi, cr, sk);
    }
  }

  // ----- which bytes the stripes are -----

  /** Byte p of the range from lo to hi lies in an encrypted stripe: in the first cr bytes of its period, and the
      stripe is complete.
    */
  predicate InStripe(lo: nat, hi: nat, cr: nat, sk: nat, p: nat)
    requires sk > 0 && lo <= p
  {
    var o := (p - lo) % (cr + sk);
    o < cr && p - o + cr <= hi
  }

  lemma PeriodBack(x: nat, n: nat)
    requires n > 0
    ensures x < n ==> x % n == x
    ensures x >= n ==> x % n == (x - n) % n
  {
    if x >= n {
      Distribute((x - n) / n, 1, n);
      DivModUnique(x, n, (x - n) / n + 1, (x - n) % n);
    }
  }

  /** Bytes outside the stripes stay as they are, in either direction. */
  lemma {:induction false} OutsideStripes(m: Mode, chain: seq<byte>, d: seq<byte>, lo: nat, hi: nat, cr: nat, sk: nat,
                                          p: nat)
    requires m.KeepsLengths() && |chain| == 16 && sk > 0 && lo <= p < hi <= |d|
    requires !InStripe(lo, hi, cr, sk, p)
    ensures |Stripes(m, chain, d, lo, hi, cr, sk)| == hi - lo
    ensures Stripes(m, chain, d, lo, hi, cr, sk)[p - lo] == d[p]
    decreases hi - lo
  {
    StripesLength(m, chain, d, lo, hi, cr, sk);
    PeriodBack(p - lo, cr + sk);
    var b := lo + cr + sk;
    if b <= p {
      OutsideStripes(m, m.after(chain, d[lo..lo + cr]), d, b, hi, cr, sk, p);
      StripesLength(m, m.after(chain, d[lo..lo + cr]), d, b, hi, cr, sk);
    }
  }

  /** The bytes of all stripes of d[lo..hi], joined. */
  function Striped(d: seq<byte>, lo: nat, hi: nat, cr: nat, sk: nat): seq<byte>
    requires sk > 0 && lo <= hi <= |d|
    decreases hi - lo
  {
    if hi - lo < cr then []
    else if hi - lo - cr < sk then d[lo..lo + cr]
    else d[lo..lo + cr] + Striped(d, lo + cr + sk, hi, cr, sk)
  }

  lemma PeriodStep(k: nat, cr: nat)
    requires cr > 0
    ensures k < cr ==> k / cr == 0 && k % cr == k
    ensures k >= cr ==> k / cr == (k - cr) / cr + 1 && k % cr == (k - cr) % cr
  {
    if k >= cr {
      Distribute((k - cr) / cr, 1, cr);
      DivModUnique(k, cr, (k - cr) / cr + 1, (k - cr) % cr);
    }
  }

  /** Where byte k of the joined stripes stands in the range: k / cr periods of cr + sk bytes before it, and k % cr
      bytes into its stripe.
    */
  function StripePlace(lo: nat, cr: nat, sk: nat, k: nat): nat
    requires cr > 0
  {
    lo + k / cr * (cr + sk) + k % cr
  }

  lemma StripePlaceStep(lo: nat, cr: nat, sk: nat, k: nat)
    requires cr > 0
    ensures k < cr ==> StripePlace(lo, cr, sk, k) == lo + k
    ensures k >= cr ==> StripePlace(lo, cr, sk, k) == StripePlace(lo + cr + sk, cr, sk, k - cr)
  {
    PeriodStep(k, cr);
    Distribute((k - cr) / cr, 1, cr + sk);
  }

  /** The joined stripes are the first cr bytes of each period, as many as are complete. */
  lemma {:induction false} StripedAt(d: seq<byte>, lo: nat, hi: nat, cr: nat, sk: nat, k: nat)
    requires cr > 0 && sk > 0 && lo <= hi <= |d|
    ensures |Striped(d, lo, hi, cr, sk)| == (hi - lo + sk) / (cr + sk) * cr
    ensures k < |Striped(d, lo, hi, cr, sk)| ==>
              var p := StripePlace(lo, cr, sk, k);
              p < hi && Striped(d, lo, hi, cr, sk)[k] == d[p]
    decreases hi - lo
  {
    hide StripePlace;
    var n := hi - lo + sk;
    PeriodStep(n, cr + sk);
    StripePlaceStep(lo, cr, sk, k);
    if hi - lo >= cr + sk {
      StripedAt(d, lo + cr + sk, hi, cr, sk, if k < cr then 0 else k - cr);
      Distribute((n - (cr + sk)) / (cr + sk), 1, cr);
    } else if hi - lo >= cr {
      PeriodStep(n - (cr + sk), cr + sk);
    }
  }

  /** The stripes of one range are one message: the chain runs on across the skipped bytes. */
  lemma {:induction false} StripesAreOneMessage(m: Mode, chain: seq<byte>, d: seq<byte>, e: seq<byte>,
                                                lo: nat, hi: nat, cr: nat, sk: nat)
    requires m.KeepsLengths() && m.Chains() && |chain| == 16 && cr % 16 == 0 && sk > 0 && lo <= hi <= |d| == |e|
    requires e[lo..hi] == Stripes(m, chain, d, lo, hi, cr, sk)
    ensures Striped(e, lo, hi, cr, sk) == m.crypt(chain, Striped(d, lo, hi, cr, sk))
    decreases hi - lo
  {
    hide InStripe, WholeBlocks;
    var a := lo + cr;
    if hi < a {
      assert |m.crypt(chain, [])| == 0;
    } else {
      var x := m.crypt(chain, d[lo..a]);
      if hi - a < sk {
        assert e[lo..hi] == x + d[a..hi] + [];
        Parts(e, lo, hi, x, d[a..hi], [], a, hi);
      } else {
        var b, chain' := a + sk, m.after(chain, d[lo..a]);
        Parts(e, lo, hi, x, d[a..b], Stripes(m, chain', d, b, hi, cr, sk), a, b);
        StripesAreOneMessage(m, chain', d, e, b, hi, cr, sk);
      }
    }
  }

  // ----- the protected ranges of a sample -----

  /** What becomes of the bytes of d from lo to hi. */
  type RangeCrypt = (seq<byte>, nat, nat) -> seq<byte>

  function Striping(m: Mode, iv: seq<byte>, cr: nat, sk: nat): RangeCrypt {
    (d: seq<byte>, lo: nat, hi: nat) => if lo <= hi <= |d| then CbcsRange(m, iv, d, lo, hi, cr, sk) else []
  }

  ghost predicate LengthAt(f: RangeCrypt, d: seq<byte>, lo: nat, hi: nat) {
    lo <= hi <= |d| ==> |f(d, lo, hi)| == hi - lo
  }

  ghost predicate KeepsLengths(f: RangeCrypt) {
    forall d: seq<byte>, lo: nat, hi: nat :: LengthAt(f, d, lo, hi)
  }

  ghost predicate BackAt(g: RangeCrypt, f: RangeCrypt, d: seq<byte>, e: seq<byte>, lo: nat, hi: nat) {
    lo <= hi <= |d| == |e| && e[lo..hi] == f(d, lo, hi) ==> g(e, lo, hi) == d[lo..hi]
  }

  /** Where e holds what f made of d, g gives d. */
  ghost predicate Undoes(g: RangeCrypt, f: RangeCrypt) {
    forall d: seq<byte>, e: seq<byte>, lo: nat, hi: nat :: BackAt(g, f, d, e, lo, hi)
  }

  ghost predicate StripingAt(f: RangeCrypt, m: Mode, iv: seq<byte>, cr: nat, sk: nat, d: seq<byte>, lo: nat, hi: nat) {
    lo <= hi <= |d| ==> f(d, lo, hi) == CbcsRange(m, iv, d, lo, hi, cr, sk)
  }

  ghost predicate IsStriping(f: RangeCrypt, m: Mode, iv: seq<byte>, cr: nat, sk: nat) {
    forall d: seq<byte>, lo: nat, hi: nat :: StripingAt(f, m, iv, cr, sk, d, lo, hi)
  }

  lemma StripingLaws(m: Mode, that: Mode, iv: seq<byte>, cr: nat, sk: nat)
    requires m.KeepsLengths() && m.UndoneBy(that) && |iv| == 16
    ensures KeepsLengths(Striping(m, iv, cr, sk))
    ensures Undoes(Striping(that, iv, cr, sk), Striping(m, iv, cr, sk))
  {
    forall d: seq<byte>, lo: nat, hi: nat ensures LengthAt(Striping(m, iv, cr, sk), d, lo, hi) {
      if lo <= hi <= |d| {
        RangeLength(m, iv, d, lo, hi, cr, sk);
      }
    }
    forall d: seq<byte>, e: seq<byte>, lo: nat, hi: nat
      ensures BackAt(Striping(that, iv, cr, sk), Striping(m, iv, cr, sk), d, e, lo, hi)
    {
      if lo <= hi <= |d| == |e| && e[lo..hi] == CbcsRange(m, iv, d, lo, hi, cr, sk) {
        RangeInverse(m, that, iv, d, e, lo, hi, cr, sk);
      }
    }
  }

  /** The first j patterns: f is applied to each protected range. */
  function RangesTo(f: RangeCrypt, pats: seq<Pattern>, j: nat, d: seq<byte>): seq<byte>
    requires j <= |pats| && Start(pats, j) <= |d|
  {
    if j == 0 then []
    else
      var a := Start(pats, j - 1) + pats[j - 1].clear;
      RangesTo(f, pats, j - 1, d) + d[Start(pats, j - 1)..a] + f(d, a, Start(pats, j))
  }

  /** What cryptSampleCbcs makes of d; without patterns all of it is one range. */
  function CbcsSample(f: RangeCrypt, pats: seq<Pattern>, d: seq<byte>): seq<byte>
    requires Total(pats) <= |d|
  {
    if pats == [] then f(d, 0, |d|) else RangesTo(f, pats, |pats|, d) + d[Total(pats)..]
  }

  lemma {:induction false} RangesLength(f: RangeCrypt, pats: seq<Pattern>, j: nat, d: seq<byte>)
    requires KeepsLengths(f) && j <= |pats| && Start(pats, j) <= |d|
    ensures |RangesTo(f, pats, j, d)| == Start(pats, j)
  {
    if j > 0 {
      RangesLength(f, pats, j - 1, d);
      assert LengthAt(f, d, Start(pats, j - 1) + pats[j - 1].clear, Start(pats, j));
    }
  }

  lemma RangesStep(f: RangeCrypt, pats: seq<Pattern>, j: nat, d: seq<byte>, s: nat, a: nat, b: nat, done: seq<byte>)
    requires j < |pats| && s == Start(pats, j) && a == s + pats[j].clear && b == a + pats[j].prot <= |d|
    requires done == RangesTo(f, pats, j, d) + d[s..a]
    ensures RangesTo(f, pats, j + 1, d) == done + f(d, a, b)
  {
    assert Start(pats, j + 1) == b;
    hide Start;
  }

  lemma RangeBack(f: RangeCrypt, g: RangeCrypt, d: seq<byte>, e: seq<byte>, s: nat, a: nat, b: nat, x: seq<byte>)
    requires KeepsLengths(f) && Undoes(g, f) && s <= a <= b <= |d| == |e| && |x| == s
    requires e[0..b] == x + d[s..a] + f(d, a, b)
    ensures e[0..s] == x && e[s..a] == d[s..a] && g(e, a, b) == d[a..b]
  {
    assert LengthAt(f, d, a, b) && BackAt(g, f, d, e, a, b);
    Parts(e, 0, b, x, d[s..a], f(d, a, b), s, a);
  }

  /** Decrypting what encryption left in e gives d. */
  lemma {:induction false} RangesBack(f: RangeCrypt, g: RangeCrypt, pats: seq<Pattern>, j: nat, d: seq<byte>,
                                      e: seq<byte>,
                                      t: nat)
    requires KeepsLengths(f) && Undoes(g, f) && j <= |pats| && t == Start(pats, j) <= |d| == |e|
    requires e[0..t] == RangesTo(f, pats, j, d)
    ensures RangesTo(g, pats, j, e) == d[0..t]
  {
    if j > 0 {
      var s := Start(pats, j - 1);
      var a, x := s + pats[j - 1].clear, RangesTo(f, pats, j - 1, d);
      RangesLength(f, pats, j - 1, d);
      RangesStep(f, pats, j - 1, d, s, a, t, x + d[s..a]);
      RangeBack(f, g, d, e, s, a, t, x);
      RangesBack(f, g, pats, j - 1, d, e, s);
      RangesStep(g, pats, j - 1, e, s, a, t, d[0..s] + d[s..a]);
      Unparts(d, 0, s, a, t);
    }
  }

  /** Decryption undoes encryption of the whole sample. */
  lemma CbcsSampleInverse(f: RangeCrypt, g: RangeCrypt, pats: seq<Pattern>, d: seq<byte>, e: seq<byte>)
    requires KeepsLengths(f) && Undoes(g, f) && Total(pats) <= |d| && e == CbcsSample(f, pats, d)
    ensures |e| == |d| && CbcsSample(g, pats, e) == d
  {
    if pats == [] {
      assert LengthAt(f, d, 0, |d|) && BackAt(g, f, d, e, 0, |d|);
      assert e[0..|d|] == e && d[0..|d|] == d;
    } else {
      var t := Total(pats);
      RangesLength(f, pats, |pats|, d);
      assert e[0..t] == RangesTo(f, pats, |pats|, d) && e[t..] == d[t..];
      RangesBack(f, g, pats, |pats|, d, e, t);
      assert d == d[0..t] + d[t..];
    }
  }

  // ----- what CBC makes of a sample, block by block -----

  /** Range j of what RangesTo makes of d, and the clear bytes before it. */
  lemma {:induction false} RangesAt(f: RangeCrypt, pats: seq<Pattern>, d: seq<byte>, n: nat, j: nat, s: nat, a: nat,
                                    b: nat)
    requires KeepsLengths(f) && j < n <= |pats| && Start(pats, n) <= |d|
    requires s == Start(pats, j) && a == s + pats[j].clear && b == Start(pats, j + 1)
    ensures b <= Start(pats, n) == |RangesTo(f, pats, n, d)|
    ensures RangesTo(f, pats, n, d)[s..a] == d[s..a] && RangesTo(f, pats, n, d)[a..b] == f(d, a, b)
    decreases n
  {
    RangesLength(f, pats, n, d);
    StartMono(pats, j + 1, n);
    StartMono(pats, n - 1, n);
    RangesLength(f, pats, n - 1, d);
    var x, y, z := RangesTo(f, pats, n - 1, d), RangesTo(f, pats, n, d), Start(pats, n - 1) + pats[n - 1].clear;
    RangesStep(f, pats, n - 1, d, Start(pats, n - 1), z, Start(pats, n), x + d[Start(pats, n - 1)..z]);
    assert LengthAt(f, d, z, Start(pats, n));
    hide *;
    if n == j + 1 {
      EndParts(x, d[s..a], f(d, a, b), y, s, a, b);
    } else {
      RangesAt(f, pats, d, n - 1, j, s, a, b);
      Assoc(x, d[Start(pats, n - 1)..z], f(d, z, Start(pats, n)));
      PrefixParts(x, y, s, a, b);
    }
  }

  lemma EndParts(x: seq<byte>, u: seq<byte>, v: seq<byte>, y: seq<byte>, s: nat, a: nat, b: nat)
    requires y == x + u + v && s == |x| && a == s + |u| && b == a + |v|
    ensures y[s..a] == u && y[a..b] == v
  {
  }

  lemma PrefixParts(x: seq<byte>, y: seq<byte>, s: nat, a: nat, b: nat)
    requires x <= y && s <= a <= b <= |x|
    ensures y[s..a] == x[s..a] && y[a..b] == x[a..b]
  {
  }

  /** Each protected range of the sample is encrypted from the same vector on, whatever precedes it; every other byte
      stays.
    */
  lemma CbcsRangeAt(f: RangeCrypt, pats: seq<Pattern>, d: seq<byte>, e: seq<byte>, j: nat, s: nat, a: nat, b: nat)
    requires KeepsLengths(f) && j < |pats| && Total(pats) <= |d| && e == CbcsSample(f, pats, d)
    requires s == Start(pats, j) && a == s + pats[j].clear && b == Start(pats, j + 1)
    ensures |e| == |d| && b <= |d| && e[s..a] == d[s..a] && e[a..b] == f(d, a, b)
    ensures e[Total(pats)..] == d[Total(pats)..]
  {
    RangesAt(f, pats, d, |pats|, j, s, a, b);
    var x := RangesTo(f, pats, |pats|, d);
    assert |x| == Total(pats) && e == x + d[|x|..];
    hide *;
    PrefixParts(x, e, s, a, b);
  }

  /** The bytes of the range from lo to hi that are encrypted: its stripes, or without skipping its whole blocks. */
  function StripedRange(d: seq<byte>, lo: nat, hi: nat, cr: nat, sk: nat): seq<byte>
    requires lo <= hi <= |d|
  {
    if sk == 0 then d[lo..lo + WholeBlocks(hi - lo)] else Striped(d, lo, hi, cr, sk)
  }

  /** They are one message under the mode, from the vector on. */
  lemma RangeIsMessage(m: Mode, iv: seq<byte>, d: seq<byte>, e: seq<byte>, lo: nat, hi: nat, cr: nat, sk: nat)
    requires m.KeepsLengths() && m.Chains() && |iv| == 16 && cr % 16 == 0 && lo <= hi <= |d| == |e|
    requires e[lo..hi] == CbcsRange(m, iv, d, lo, hi, cr, sk)
    ensures StripedRange(e, lo, hi, cr, sk) == m.crypt(iv, StripedRange(d, lo, hi, cr, sk))
  {
    if sk == 0 {
      var w := lo + WholeBlocks(hi - lo);
      var x := m.crypt(iv, d[lo..w]);
      assert e[lo..hi] == x + d[w..hi] + [];
      Parts(e, lo, hi, x, d[w..hi], [], w, hi);
    } else {
      StripesAreOneMessage(m, iv, d, e, lo, hi, cr, sk);
    }
  }

  /** Block i of the encrypted bytes of a range: what the cipher makes of the old block joined to the encrypted block
      before it, across skipped bytes too. The first one is joined to the vector.
    */
  lemma CbcsEncrypts(c: Cipher, iv: seq<byte>, d: seq<byte>, e: seq<byte>, lo: nat, hi: nat, cr: nat, sk: nat, i: nat)
    requires c.Permutes() && |iv| == 16 && cr % 16 == 0 && lo <= hi <= |d| == |e|
    requires e[lo..hi] == Striping(Cbc(c, true), iv, cr, sk)(d, lo, hi)
    ensures var m, m' := StripedRange(d, lo, hi, cr, sk), StripedRange(e, lo, hi, cr, sk);
            && |m'| == |m|
            && (16 * i + 16 <= |m| ==> BlockAt(m', i) == c.enc(XorSeq(BlockAt(m, i), BlockBefore(iv, m', i))))
  {
    CbcLaws(c);
    CbcChains(c, true);
    RangeIsMessage(Cbc(c, true), iv, d, e, lo, hi, cr, sk);
    CbcEncrypts(c, iv, StripedRange(d, lo, hi, cr, sk), StripedRange(e, lo, hi, cr, sk), i);
  }

  /** And decrypted: what the inverse cipher makes of it, joined to the encrypted block before it. */
  lemma CbcsDecrypts(c: Cipher, iv: seq<byte>, d: seq<byte>, e: seq<byte>, lo: nat, hi: nat, cr: nat, sk: nat, i: nat)
    requires c.Permutes() && |iv| == 16 && cr % 16 == 0 && lo <= hi <= |d| == |e|
    requires e[lo..hi] == Striping(Cbc(c, false), iv, cr, sk)(d, lo, hi)
    ensures var m, m' := StripedRange(d, lo, hi, cr, sk), StripedRange(e, lo, hi, cr, sk);
            && |m'| == |m|
            && (16 * i + 16 <= |m| ==> BlockAt(m', i) == XorSeq(c.dec(BlockAt(m, i)), BlockBefore(iv, m, i)))
  {
    CbcLaws(c);
    CbcChains(c, false);
    RangeIsMessage(Cbc(c, false), iv, d, e, lo, hi, cr, sk);
    CbcDecrypts(c, iv, StripedRange(d, lo, hi, cr, sk), StripedRange(e, lo, hi, cr, sk), i);
  }

  // ----- the loops -----

  /** The first pos bytes of d became done, the others are as they were. */
  ghost predicate Reached(d: seq<byte>, now: seq<byte>, done: seq<byte>, pos: nat) {
    |done| == pos <= |d| && now == done + d[pos..]
  }

  lemma Skip(d: seq<byte>, now: seq<byte>, done: seq<byte>, pos: nat, a: nat)
    requires Reached(d, now, done, pos) && pos <= a <= |d|
    ensures Reached(d, now, done + d[pos..a], a)
  {
    assert d[pos..] == d[pos..a] + d[a..];
    Assoc(done, d[pos..a], d[a..]);
  }

  /** cph.CryptBlocks on what follows the bytes done. */
  method CryptNext(cph: BlockMode, data: array<byte>, pos: nat, a: nat, ghost d: seq<byte>, ghost done: seq<byte>)
    requires cph.m.KeepsLengths() && |cph.chain| == 16 && pos <= a <= |d| && (a - pos) % 16 == 0
    requires Reached(d, data[..], done, pos)
    modifies cph`chain, data
    ensures Reached(d, data[..], done + cph.m.crypt(old(cph.chain), d[pos..a]), a)
    ensures cph.chain == cph.m.after(old(cph.chain), d[pos..a]) && |cph.chain| == 16
  {
    ghost var was := data[..];
    assert was[..pos] == done && was[pos..a] == d[pos..a] && was[a..] == d[a..];
    cph.CryptBlocks(data, pos, a);
  }

  /** done and what the stripes make of the rest of the range give goal. */
  ghost predicate Leads(m: Mode, chain: seq<byte>, d: seq<byte>, done: seq<byte>, pos: nat, hi: nat, cr: nat, sk: nat,
                        goal: seq<byte>)
    requires sk > 0 && pos <= hi <= |d|
  {
    done + Stripes(m, chain, d, pos, hi, cr, sk) == goal
  }

  lemma LeadsOn(m: Mode, chain: seq<byte>, d: seq<byte>, done: seq<byte>, pos: nat, a: nat, hi: nat, cr: nat, sk: nat,
                goal: seq<byte>, x: seq<byte>, chain': seq<byte>)
    requires sk > 0 && a == pos + cr <= hi <= |d| && Leads(m, chain, d, done, pos, hi, cr, sk, goal)
    requires x == m.crypt(chain, d[pos..a]) && chain' == m.after(chain, d[pos..a])
    ensures hi - a < sk ==> (done + x) + d[a..hi] == goal
    ensures hi - a >= sk ==> Leads(m, chain', d, (done + x) + d[a..a + sk], a + sk, hi, cr, sk, goal)
  {
    if hi - a < sk {
      Assoc(done, x, d[a..hi]);
    } else {
      var rest := Stripes(m, chain', d, a + sk, hi, cr, sk);
      Assoc(done, x + d[a..a + sk], rest);
      Assoc(done, x, d[a..a + sk]);
    }
  }

  /** The stripe loop on data[lo:hi], where sk > 0. */
  method StripeLoop(cph: BlockMode, data: array<byte>, lo: nat, hi: nat, cr: nat, sk: nat,
                    ghost d: seq<byte>, ghost before: seq<byte>)
    requires cph.m.KeepsLengths() && |cph.chain| == 16 && cr % 16 == 0 && sk > 0 && lo <= hi <= |d|
    requires Reached(d, data[..], before, lo)
    modifies cph`chain, data
    ensures Reached(d, data[..], before + Stripes(cph.m, old(cph.chain), d, lo, hi, cr, sk), hi)
  {
    ghost var done, goal := before, before + Stripes(cph.m, cph.chain, d, lo, hi, cr, sk);
    var pos := lo;
    while hi - pos >= cr
      invariant |cph.chain| == 16 && lo <= pos <= hi
      invariant Reached(d, data[..], done, pos) && Leads(cph.m, cph.chain, d, done, pos, hi, cr, sk, goal)
      decreases hi - pos
    {
      var more: bool;
      pos, more, done := CryptStripe(cph, data, pos, hi, cr, sk, d, done, goal);
      if !more {
        break;
      }
    }
    Skip(d, data[..], done, pos, hi);
  }

  /** One round of the loop: a crypt stripe, and the bytes to skip unless there are too few of them. */
  method CryptStripe(cph: BlockMode, data: array<byte>, pos0: nat, hi: nat, cr: nat, sk: nat,
                     ghost d: seq<byte>, ghost done: seq<byte>, ghost goal: seq<byte>)
    returns (pos: nat, more: bool, ghost done': seq<byte>)
    requires cph.m.KeepsLengths() && |cph.chain| == 16 && cr % 16 == 0 && sk > 0 && pos0 + cr <= hi <= |d|
    requires Reached(d, data[..], done, pos0) && Leads(cph.m, cph.chain, d, done, pos0, hi, cr, sk, goal)
    modifies cph`chain, data
    ensures |cph.chain| == 16 && pos0 <= pos <= hi && Reached(d, data[..], done', pos)
    ensures !more ==> done' + d[pos..hi] == goal
    ensures more ==> pos0 < pos && Leads(cph.m, cph.chain, d, done', pos, hi, cr, sk, goal)
  {
    ghost var a := pos0 + cr;
    ghost var x, chain' := cph.m.crypt(cph.chain, d[pos0..a]), cph.m.after(cph.chain, d[pos0..a]);
    LeadsOn(cph.m, cph.chain, d, done, pos0, a, hi, cr, sk, goal, x, chain');
    CryptNext(cph, data, pos0, pos0 + cr, d, done);
    pos, more, done' := pos0 + cr, true, done + x;
    if hi - pos < sk {
      more := false;
      return;
    }
    Skip(d, data[..], done', pos, pos + sk);
    done' := done' + d[pos..pos + sk];
    pos := pos + sk;
  }

  /** cbcsCrypt(dir, data[lo:hi], key, iv, cr, sk) */
  method CbcsCrypt(m: Mode, data: array<byte>, lo: nat, hi: nat, iv: seq<byte>, cr: nat, sk: nat,
                   ghost f: RangeCrypt, ghost d: seq<byte>, ghost before: seq<byte>)
    requires m.KeepsLengths() && |iv| == 16 && cr % 16 == 0 && lo <= hi <= |d| && Reached(d, data[..], before, lo)
    requires IsStriping(f, m, iv, cr, sk)
    modifies data
    ensures Reached(d, data[..], before + f(d, lo, hi), hi)
  {
    assert StripingAt(f, m, iv, cr, sk, d, lo, hi);
    var cph := new BlockMode(m, iv);
    if sk == 0 {
      var nrToCrypt := WholeBlocks(hi - lo);
      ghost var x := m.crypt(iv, d[lo..lo + nrToCrypt]);
      CryptNext(cph, data, lo, lo + nrToCrypt, d, before);
      Skip(d, data[..], before + x, lo + nrToCrypt, hi);
      Assoc(before, x, d[lo + nrToCrypt..hi]);
      return;
    }
    StripeLoop(cph, data, lo, hi, cr, sk, d, before);
  }

  lemma EmptyRange(f: RangeCrypt, m: Mode, iv: seq<byte>, d: seq<byte>, a: nat, cr: nat, sk: nat, done: seq<byte>)
    requires m.KeepsLengths() && |iv| == 16 && IsStriping(f, m, iv, cr, sk) && a <= |d|
    ensures done + f(d, a, a) == done
  {
    assert StripingAt(f, m, iv, cr, sk, d, a, a);
    RangeLength(m, iv, d, a, a, cr, sk);
  }

  /** Pattern j, which starts at pos0. */
  method CryptPattern(m: Mode, data: array<byte>, pats: seq<Pattern>, j: nat, pos0: nat, iv: seq<byte>,
                      cr: nat, sk: nat, ghost f: RangeCrypt, ghost d: seq<byte>) returns (pos: nat)
    requires m.KeepsLengths() && |iv| == 16 && cr % 16 == 0 && IsStriping(f, m, iv, cr, sk)
    requires j < |pats| && pos0 == Start(pats, j) && Start(pats, j + 1) <= |d|
    requires Reached(d, data[..], RangesTo(f, pats, j, d), pos0)
    modifies data
    ensures pos == Start(pats, j + 1) && Reached(d, data[..], RangesTo(f, pats, j + 1, d), pos)
  {
    ghost var a, b := pos0 + pats[j].clear, Start(pats, j + 1);
    ghost var done := RangesTo(f, pats, j, d) + d[pos0..a];
    Skip(d, data[..], RangesTo(f, pats, j, d), pos0, a);
    RangesStep(f, pats, j, d, pos0, a, b, done);
    pos := pos0 + pats[j].clear;
    if pats[j].prot > 0 {
      CbcsCrypt(m, data, pos, pos + pats[j].prot, iv, cr, sk, f, d, done);
    } else {
      EmptyRange(f, m, iv, d, a, cr, sk, done);
    }
    pos := pos + pats[j].prot;
  }

  /** The loop over the patterns. */
  method CryptPatterns(m: Mode, data: array<byte>, iv: seq<byte>, pats: seq<Pattern>, cr: nat, sk: nat,
                       ghost f: RangeCrypt)
    requires m.KeepsLengths() && |iv| == 16 && cr % 16 == 0 && IsStriping(f, m, iv, cr, sk)
               && Total(pats) <= data.Length
    modifies data
    ensures Reached(old(data[..]), data[..], RangesTo(f, pats, |pats|, old(data[..])), Total(pats))
  {
    ghost var d := data[..];
    var pos, j: nat := 0, 0;
    while j < |pats|
      invariant j <= |pats| && pos == Start(pats, j) <= |d|
      invariant Reached(d, data[..], RangesTo(f, pats, j, d), pos)
    {
      StartMono(pats, j + 1, |pats|);
      pos := CryptPattern(m, data, pats, j, pos, iv, cr, sk, f, d);
      j := j + 1;
    }
  }

  /** cryptByteBlock and skipByteBlock are the pattern of the tenc box. */
  method CryptSampleCbcs(m: Mode, data: array<byte>, iv: seq<byte>, pats: seq<Pattern>,
                         cryptByteBlock: nat, skipByteBlock: nat)
    requires m.KeepsLengths() && |iv| == 16 && Total(pats) <= data.Length
    modifies data
    ensures data[..] == CbcsSample(Striping(m, iv, cryptByteBlock * 16, skipByteBlock * 16), pats, old(data[..]))
  {
    var cr, sk := cryptByteBlock * 16, skipByteBlock * 16;
    ghost var f, d := Striping(m, iv, cr, sk), data[..];
    assert IsStriping(f, m, iv, cr, sk);
    if |pats| != 0 {
      CryptPatterns(m, data, iv, pats, cr, sk, f);
    } else {
      CbcsCrypt(m, data, 0, data.Length, iv, cr, sk, f, d, []);
    }
  }
}
