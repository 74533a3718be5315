/** The modes of operation that common encryption uses, over an abstract block cipher: a permutation
    of 16-byte blocks with its inverse stands for AES under some key.
  */
module BlockCipher {
  import opened BitStrings
  import opened BigEndian

  datatype Cipher = Cipher(enc: seq<byte> -> seq<byte>, dec: seq<byte> -> seq<byte>)
  {
    /** enc permutes blocks and dec undoes it. */
    ghost predicate Permutes() {
      forall b: seq<byte> :: |b| == 16 ==> |enc(b)| == 16 && |dec(b)| == 16 && dec(enc(b)) == b
    }
  }

  // ----- exclusive or -----

  function XorBits(a: nat, b: nat, n: nat): (x: nat)
    ensures x < Pow2(n)
  {
    if n == 0 then 0 else 2 * XorBits(a / 2, b / 2, n - 1) + (if a % 2 != b % 2 then 1 else 0)
  }

  function Xor(a: byte, b: byte): byte {
    Pow2Known();
    XorBits(a, b, 8)
  }

  lemma {:induction false} XorBitsTwice(a: nat, b: nat, n: nat)
    requires a < Pow2(n)
    ensures XorBits(XorBits(a, b, n), b, n) == a
  {
    if n > 0 {
      var x := XorBits(a, b, n);
      assert x / 2 == XorBits(a / 2, b / 2, n - 1);
      XorBitsTwice(a / 2, b / 2, n - 1);
    }
  }

  lemma XorTwice(a: byte, b: byte)
    ensures Xor(Xor(a, b), b) == a
  {
    Pow2Known();
    XorBitsTwice(a, b, 8);
  }

  /** Bit by bit it is inequality. */
  lemma {:induction false} XorBitsAt(a: nat, b: nat, n: nat, i: nat)
    requires i < n
    ensures BitsOf(XorBits(a, b, n), n)[i] == (BitsOf(a, n)[i] != BitsOf(b, n)[i])
  {
    var x := XorBits(a, b, n);
    assert x / 2 == XorBits(a / 2, b / 2, n - 1) && x % 2 == (if a % 2 != b % 2 then 1 else 0);
    if i < n - 1 {
      XorBitsAt(a / 2, b / 2, n - 1, i);
    }
  }

  /** Exclusive or of two bytes: a bit is set if and only if it is set in just one of them. */
  lemma XorIsBitwise(a: byte, b: byte, i: nat)
    requires i < 8
    ensures BitsOf(Xor(a, b), 8)[i] == (BitsOf(a, 8)[i] != BitsOf(b, 8)[i])
  {
    XorBitsAt(a, b, 8, i);
  }

  function XorSeq(a: seq<byte>, b: seq<byte>): (x: seq<byte>)
    requires |a| == |b|
    ensures |x| == |a|
  {
    seq(|a|, i requires 0 <= i < |a| => Xor(a[i], b[i]))
  }

  lemma XorSeqTwice(a: seq<byte>, b: seq<byte>)
    requires |a| == |b|
    ensures XorSeq(XorSeq(a, b), b) == a
  {
    forall i | 0 <= i < |a| ensures Xor(Xor(a[i], b[i]), b[i]) == a[i] {
      XorTwice(a[i], b[i]);
    }
  }

  /** copy(data[lo:], x) */
  method PutBytes(data: array<byte>, lo: nat, x: seq<byte>)
    requires lo + |x| <= data.Length
    modifies data
    ensures data[..] == old(data[..])[..lo] + x + old(data[..])[lo + |x|..]
  {
    forall j | 0 <= j < |x| {
      data[lo + j] := x[j];
    }
  }

  // ----- counter mode -----

  /** Byte k of the key stream: byte k % 16 of the encryption of counter block k / 16. */
  function KeyByte(c: Cipher, iv: seq<byte>, k: nat): byte {
    var block := c.enc(AddBE(iv, k / 16));
    if k % 16 < |block| then block[k % 16] else 0
  }

  /** The key stream that a fresh counter-mode stream produces (cipher.NewCTR). */
  function CtrKeys(c: Cipher, iv: seq<byte>): nat -> byte {
    k => KeyByte(c, iv, k)
  }

  /** d under the key stream from byte used on. */
  function Keyed(keys: nat -> byte, d: seq<byte>, used: nat): (r: seq<byte>)
    ensures |r| == |d|
  {
    seq(|d|, i requires 0 <= i < |d| => Xor(d[i], keys(used + i)))
  }

  /** t is the 16-byte counter that is n steps after iv. */
  ghost predicate IsCounter(t: seq<byte>, iv: seq<byte>, n: nat) {
    |t| == |iv| == 16 && FromBE(t) == (FromBE(iv) + n) % Pow256(|iv|)
  }

  lemma CounterIs(t: seq<byte>, iv: seq<byte>, n: nat)
    requires |iv| == 16
    ensures IsCounter(t, iv, n) <==> t == AddBE(iv, n)
  {
    AddBEIsAddition(iv, n);
    hide AddBE, FromBE, Pow256;
    if |t| == 16 && FromBE(t) == FromBE(AddBE(iv, n)) {
      FromBEInjective(t, AddBE(iv, n));
    }
  }

  /** Key byte k is byte k % 16 of what the cipher makes of the counter that is k / 16 steps after iv. */
  lemma KeyIsCounter(c: Cipher, iv: seq<byte>, k: nat, t: seq<byte>)
    requires c.Permutes() && |iv| == 16 && IsCounter(t, iv, k / 16)
    ensures |c.enc(t)| == 16 && CtrKeys(c, iv)(k) == c.enc(t)[k % 16]
  {
    CounterIs(t, iv, k / 16);
  }

  lemma KeyInBlock(c: Cipher, iv: seq<byte>, j: nat, t: seq<byte>, i: nat, p: nat)
    requires c.Permutes() && |iv| == 16 && IsCounter(t, iv, j) && i < 16 && p == 16 * j + i
    ensures |c.enc(t)| == 16 && CtrKeys(c, iv)(p) == c.enc(t)[i]
  {
    assert p / 16 == j && p % 16 == i;
    KeyIsCounter(c, iv, p, t);
  }

  /** Block j of a message in counter mode, from lo to hi: the old block, and what the cipher makes of the counter that
      is j steps after iv, joined by exclusive or. The last block may be shorter.
    */
  lemma KeyedBlock(c: Cipher, iv: seq<byte>, d: seq<byte>, j: nat, t: seq<byte>, lo: nat, hi: nat)
    requires c.Permutes() && |iv| == 16 && IsCounter(t, iv, j) && lo == 16 * j < |d| && hi == Min(lo + 16, |d|)
    ensures |c.enc(t)| == 16
    ensures Keyed(CtrKeys(c, iv), d, 0)[lo..hi] == XorSeq(d[lo..hi], c.enc(t)[..hi - lo])
  {
    var keys, k := CtrKeys(c, iv), c.enc(t);
    assert |k| == 16;
    hide *;
    forall i | 0 <= i < hi - lo ensures keys(lo + i) == k[i] {
      KeyInBlock(c, iv, j, t, i, lo + i);
    }
    KeyedPart(keys, d, lo, hi - lo, k[..hi - lo]);
  }

  lemma KeyedPart(keys: nat -> byte, d: seq<byte>, lo: nat, n: nat, k: seq<byte>)
    requires lo + n <= |d| && |k| == n && forall i :: 0 <= i < n ==> keys(lo + i) == k[i]
    ensures Keyed(keys, d, 0)[lo..lo + n] == XorSeq(d[lo..lo + n], k)
  {
    hide Xor;
    var e := Keyed(keys, d, 0);
    forall i | 0 <= i < n ensures e[lo + i] == Xor(d[lo + i], k[i]) {
    }
  }

  /** A key stream with its position. */
  class CtrStream {
    const keys: nat -> byte
    var used: nat

    constructor (keys: nat -> byte)
      ensures this.keys == keys && used == 0
    {
      this.keys, used := keys, 0;
    }

    /** stream.XORKeyStream(data[lo:hi], data[lo:hi]) */
    method XORKeyStream(data: array<byte>, lo: nat, hi: nat)
      requires lo <= hi <= data.Length
      modifies this`used, data
      ensures used == old(used) + (hi - lo)
      ensures data[..] == old(data[..])[..lo] + Keyed(keys, old(data[..])[lo..hi], old(used)) + old(data[..])[hi..]
    {
      PutBytes(data, lo, Keyed(keys, data[..][lo..hi], used));
      used := used + (hi - lo);
    }
  }

  // ----- cipher block chaining -----

  /** A chaining block mode: what becomes of one block, and the block that the next one is chained to. */
  datatype Step = Step(block: (seq<byte>, seq<byte>) -> seq<byte>, next: (seq<byte>, seq<byte>) -> seq<byte>)
  {
    ghost predicate KeepsLengths() {
      forall chain: seq<byte>, b: seq<byte> ::
        |chain| == |b| == 16 ==> |block(chain, b)| == |next(chain, b)| == 16
    }

    /** that undoes this, and goes on from the same chaining block. */
    ghost predicate UndoneBy(that: Step) {
      forall chain: seq<byte>, b: seq<byte> ::
        |chain| == |b| == 16 ==>
          that.block(chain, block(chain, b)) == b && that.next(chain, block(chain, b)) == next(chain, b)
    }
  }

  /** cipher.NewCBCEncrypter and cipher.NewCBCDecrypter: both chain to the previous cipher block. */
  function CbcStep(c: Cipher, enc: bool): Step {
    if enc then Step((chain, b) => c.enc(XorPad(b, chain)), (chain, b) => c.enc(XorPad(b, chain)))
    else Step((chain, b) => XorPad(c.dec(b), chain), (chain, b) => b)
  }

  /** XorSeq as a total function. */
  function XorPad(a: seq<byte>, b: seq<byte>): seq<byte> {
    if |a| == |b| then XorSeq(a, b) else []
  }

  lemma CbcStepLaws(c: Cipher)
    requires c.Permutes()
    ensures CbcStep(c, true).KeepsLengths() && CbcStep(c, false).KeepsLengths()
    ensures CbcStep(c, true).UndoneBy(CbcStep(c, false))
  {
    forall chain: seq<byte>, b: seq<byte> | |chain| == |b| == 16
      ensures XorPad(c.dec(c.enc(XorPad(b, chain))), chain) == b
    {
      XorSeqTwice(b, chain);
    }
  }

  /** The whole blocks of d, one after the other. */
  function Crypt(m: Step, chain: seq<byte>, d: seq<byte>): seq<byte>
    decreases |d|
  {
    if |d| < 16 then d else m.block(chain, d[..16]) + Crypt(m, m.next(chain, d[..16]), d[16..])
  }

  /** What the block after d is chained to. */
  function After(m: Step, chain: seq<byte>, d: seq<byte>): seq<byte>
    decreases |d|
  {
    if |d| < 16 then chain else After(m, m.next(chain, d[..16]), d[16..])
  }

  lemma {:induction false} CryptLength(m: Step, chain: seq<byte>, d: seq<byte>)
    requires m.KeepsLengths() && |chain| == 16
    ensures |Crypt(m, chain, d)| == |d| && |After(m, chain, d)| == 16
    decreases |d|
  {
    if |d| >= 16 {
      CryptLength(m, m.next(chain, d[..16]), d[16..]);
    }
  }

  lemma CryptCons(m: Step, chain: seq<byte>, b: seq<byte>, rest: seq<byte>, s: seq<byte>)
    requires |b| == 16 && s == b + rest
    ensures Crypt(m, chain, s) == m.block(chain, b) + Crypt(m, m.next(chain, b), rest)
    ensures After(m, chain, s) == After(m, m.next(chain, b), rest)
  {
    assert s[..16] == b && s[16..] == rest;
  }

  /** The inverse block by block is the inverse of the whole. */
  lemma {:induction false} CryptInverse(m: Step, that: Step, chain: seq<byte>, d: seq<byte>)
    requires m.KeepsLengths() && m.UndoneBy(that) && |chain| == 16
    ensures Crypt(that, chain, Crypt(m, chain, d)) == d
    ensures After(that, chain, Crypt(m, chain, d)) == After(m, chain, d)
    decreases |d|
  {
    if |d| >= 16 {
      var b, rest := d[..16], d[16..];
      var x, chain' := m.block(chain, b), m.next(chain, b);
      CryptInverse(m, that, chain', rest);
      CryptCons(that, chain, x, Crypt(m, chain', rest), Crypt(m, chain, d));
      assert d == b + rest;
    }
  }

  /** A message may be split at a block boundary, the second part chained to the first. */
  lemma {:induction false} CryptConcat(m: Step, chain: seq<byte>, a: seq<byte>, b: seq<byte>, s: seq<byte>)
    requires |a| % 16 == 0 && s == a + b
    ensures Crypt(m, chain, s) == Crypt(m, chain, a) + Crypt(m, After(m, chain, a), b)
    decreases |a|
  {
    if a == [] {
      assert s == b;
    } else {
      var h, t := a[..16], a[16..];
      var tb, chain' := t + b, m.next(chain, h);
      assert a == h + t;
      Assoc(h, t, b);
      CryptCons(m, chain, h, tb, s);
      CryptConcat(m, chain', t, b, tb);
      Assoc(m.block(chain, h), Crypt(m, chain', t), Crypt(m, After(m, chain, a), b));
    }
  }

  /** A mode of operation on whole messages: what becomes of one, and the block that a next one is chained to. */
  datatype Mode = Mode(crypt: (seq<byte>, seq<byte>) -> seq<byte>, after: (seq<byte>, seq<byte>) -> seq<byte>)
  {
    ghost predicate KeepsLengths() {
      forall chain: seq<byte>, d: seq<byte> ::
        |chain| == 16 ==> |crypt(chain, d)| == |d| && |after(chain, d)| == 16
    }

    ghost predicate UndoneBy(that: Mode) {
      forall chain: seq<byte>, d: seq<byte> ::
        |chain| == 16 ==>
          that.crypt(chain, crypt(chain, d)) == d && that.after(chain, crypt(chain, d)) == after(chain, d)
    }

    /** Messages may be split at block boundaries. */
    ghost predicate Chains() {
      forall chain: seq<byte>, a: seq<byte>, b: seq<byte> ::
        |a| % 16 == 0 ==> crypt(chain, a + b) == crypt(chain, a) + crypt(after(chain, a), b)
    }
  }

  /** CBC encryption or decryption of messages. */
  function Cbc(c: Cipher, enc: bool): Mode {
    Mode((chain, d) => Crypt(CbcStep(c, enc), chain, d), (chain, d) => After(CbcStep(c, enc), chain, d))
  }

  /** What makes CBC fit for encryption: decryption is the inverse and leaves the same block to chain to. */
  lemma CbcLaws(c: Cipher)
    requires c.Permutes()
    ensures Cbc(c, true).KeepsLengths() && Cbc(c, false).KeepsLengths()
    ensures Cbc(c, true).UndoneBy(Cbc(c, false))
  {
    CbcStepLaws(c);
    forall chain: seq<byte>, d: seq<byte> | |chain| == 16
      ensures |Crypt(CbcStep(c, true), chain, d)| == |d| && |After(CbcStep(c, true), chain, d)| == 16
      ensures |Crypt(CbcStep(c, false), chain, d)| == |d| && |After(CbcStep(c, false), chain, d)| == 16
      ensures Cbc(c, false).crypt(chain, Cbc(c, true).crypt(chain, d)) == d
      ensures Cbc(c, false).after(chain, Cbc(c, true).crypt(chain, d)) == Cbc(c, true).after(chain, d)
    {
      CryptLength(CbcStep(c, true), chain, d);
      CryptLength(CbcStep(c, false), chain, d);
      CryptInverse(CbcStep(c, true), CbcStep(c, false), chain, d);
    }
  }

  lemma CbcChains(c: Cipher, enc: bool)
    ensures Cbc(c, enc).Chains()
  {
    forall chain: seq<byte>, a: seq<byte>, b: seq<byte> | |a| % 16 == 0
      ensures Cbc(c, enc).crypt(chain, a + b)
           == Cbc(c, enc).crypt(chain, a) + Cbc(c, enc).crypt(Cbc(c, enc).after(chain, a), b)
    {
      CryptConcat(CbcStep(c, enc), chain, a, b, a + b);
    }
  }

  // ----- what CBC is, block by block -----

  /** Block i of d. */
  function BlockAt(d: seq<byte>, i: nat): (b: seq<byte>)
    requires 16 * i + 16 <= |d|
    ensures |b| == 16
  {
    d[16 * i..16 * i + 16]
  }

  /** The block before block i: the initialization vector before the first one. */
  function BlockBefore(iv: seq<byte>, d: seq<byte>, i: nat): (b: seq<byte>)
    requires |iv| == 16 && 16 * i <= |d|
    ensures |b| == 16
  {
    if i == 0 then iv else BlockAt(d, i - 1)
  }

  lemma CryptHead(m: Step, chain: seq<byte>, d: seq<byte>)
    requires m.KeepsLengths() && |chain| == 16 && |d| >= 16
    ensures |Crypt(m, chain, d)| == |d| && Crypt(m, chain, d)[..16] == m.block(chain, d[..16])
    ensures Crypt(m, chain, d)[16..] == Crypt(m, m.next(chain, d[..16]), d[16..])
  {
    CryptLength(m, chain, d);
  }

  lemma LaterBlock(d: seq<byte>, rest: seq<byte>, i: nat)
    requires |d| >= 16 && rest == d[16..] && i > 0 && 16 * i + 16 <= |d|
    ensures BlockAt(d, i) == BlockAt(rest, i - 1)
  {
  }

  /** CBC encryption: each block is what the cipher makes of the block joined to the encrypted block before it. What is
      left behind the whole blocks stays.
    */
  lemma {:induction false} CbcEncrypts(c: Cipher, iv: seq<byte>, d: seq<byte>, e: seq<byte>, i: nat)
    requires c.Permutes() && |iv| == 16 && e == Cbc(c, true).crypt(iv, d)
    ensures |e| == |d| && e[|d| - |d| % 16..] == d[|d| - |d| % 16..]
    ensures 16 * i + 16 <= |d| ==> BlockAt(e, i) == c.enc(XorSeq(BlockAt(d, i), BlockBefore(iv, e, i)))
    decreases |d|
  {
    var m := CbcStep(c, true);
    CbcStepLaws(c);
    if |d| >= 16 {
      CryptHead(m, iv, d);
      var x, rest, e' := e[..16], d[16..], e[16..];
      CbcEncrypts(c, x, rest, e', if i > 0 then i - 1 else 0);
      EndsAlike(d, e, rest, e');
      if i > 0 && 16 * i + 16 <= |d| {
        LaterBlock(d, rest, i);
        LaterBlock(e, e', i);
        if i > 1 {
          LaterBlock(e, e', i - 1);
        }
      }
    }
  }

  lemma EndsAlike(d: seq<byte>, e: seq<byte>, rest: seq<byte>, e': seq<byte>)
    requires |d| == |e| >= 16 && rest == d[16..] && e' == e[16..]
    requires e'[|rest| - |rest| % 16..] == rest[|rest| - |rest| % 16..]
    ensures e[|d| - |d| % 16..] == d[|d| - |d| % 16..]
  {
    var n := |d| - |d| % 16;
    assert |rest| % 16 == |d| % 16;
    assert d[n..] == rest[n - 16..] && e[n..] == e'[n - 16..];
  }

  /** CBC decryption: each block is what the inverse cipher makes of it, joined to the encrypted block before it. */
  lemma {:induction false} CbcDecrypts(c: Cipher, iv: seq<byte>, d: seq<byte>, e: seq<byte>, i: nat)
    requires c.Permutes() && |iv| == 16 && e == Cbc(c, false).crypt(iv, d)
    ensures |e| == |d| && e[|d| - |d| % 16..] == d[|d| - |d| % 16..]
    ensures 16 * i + 16 <= |d| ==> BlockAt(e, i) == XorSeq(c.dec(BlockAt(d, i)), BlockBefore(iv, d, i))
    decreases |d|
  {
    var m := CbcStep(c, false);
    CbcStepLaws(c);
    if |d| >= 16 {
      CryptHead(m, iv, d);
      var x, rest, e' := d[..16], d[16..], e[16..];
      CbcDecrypts(c, x, rest, e', if i > 0 then i - 1 else 0);
      EndsAlike(d, e, rest, e');
      if i > 0 && 16 * i + 16 <= |d| {
        LaterBlock(d, rest, i);
        LaterBlock(e, e', i);
        if i > 1 {
          LaterBlock(d, rest, i - 1);
        }
      }
    }
  }

  /** A block mode object. */
  class BlockMode {
    const m: Mode
    var chain: seq<byte>

    constructor (m: Mode, iv: seq<byte>)
      ensures this.m == m && chain == iv
    {
      this.m, chain := m, iv;
    }

    /** cph.CryptBlocks(data[lo:hi], data[lo:hi]) */
    method CryptBlocks(data: array<byte>, lo: nat, hi: nat)
      requires lo <= hi <= data.Length && (hi - lo) % 16 == 0
      requires m.KeepsLengths() && |chain| == 16
      modifies this`chain, data
      ensures chain == m.after(old(chain), old(data[..])[lo..hi]) && |chain| == 16
      ensures data[..] == old(data[..])[..lo] + m.crypt(old(chain), old(data[..])[lo..hi]) + old(data[..])[hi..]
    {
      var d := data[..][lo..hi];
      PutBytes(data, lo, m.crypt(chain, d));
      chain := m.after(chain, d);
    }
  }
}
