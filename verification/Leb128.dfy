/** LEB128 integers, as av1/obu.go (section 4.10.5 of the AV1 specification) and iamf/iamf.go read and write them. */
module Leb128 {
  import opened BitStrings

  /** Seven bits a byte, the lowest first; all bytes but the last have their top bit set. */
  function Leb(v: nat): (s: seq<byte>)
    ensures |s| > 0
  {
    if v < 128 then [v] else [v % 128 + 128] + Leb(v / 128)
  }

  datatype LebError = Truncated | TooLong

  /** A value and the number of bytes it takes. */
  datatype LebResult = LebOk(value: nat, used: nat) | LebErr(error: LebError)

  /** The value at the start of s, in at most limit bytes. */
  function Parse(s: seq<byte>, limit: nat): (r: LebResult)
    ensures r.LebOk? ==> 0 < r.used <= limit && r.used <= |s|
  {
    if limit == 0 then LebErr(TooLong)
    else if s == [] then LebErr(Truncated)
    else if s[0] < 128 then LebOk(s[0], 1)
    else
      match Parse(s[1..], limit - 1)
      case LebErr(e) => LebErr(e)
      case LebOk(v, n) => LebOk(s[0] % 128 + 128 * v, n + 1)
  }

  function Pow128(n: nat): (p: nat)
    ensures p >= 1
  {
    if n == 0 then 1 else 128 * Pow128(n - 1)
  }

  /** A value below 128^n takes at most n bytes. */
  lemma {:induction false} LebLength(v: nat, n: nat)
    requires n > 0 && v < Pow128(n)
    ensures |Leb(v)| <= n
  {
    if v >= 128 {
      LebLength(v / 128, n - 1);
    }
  }

  /** Reading inverts writing, whatever follows. */
  lemma {:induction false} ParseLeb(v: nat, tail: seq<byte>, limit: nat)
    requires |Leb(v)| <= limit
    ensures Parse(Leb(v) + tail, limit) == LebOk(v, |Leb(v)|)
  {
    var s := Leb(v) + tail;
    if v >= 128 {
      assert s[1..] == Leb(v / 128) + tail;
      ParseLeb(v / 128, tail, limit - 1);
    }
  }

  /** The last byte holds the upper bits of the value. */
  lemma {:induction false} ParseBound(s: seq<byte>, limit: nat)
    requires Parse(s, limit).LebOk?
    ensures var r := Parse(s, limit);
            var last, p := s[r.used - 1], Pow128(r.used - 1);
            last < 128 && p * last <= r.value < p * (last + 1)
  {
    if s[0] >= 128 {
      ParseBound(s[1..], limit - 1);
      var q := Parse(s[1..], limit - 1);
      assert s[1..][q.used - 1] == s[q.used];
      Shifted(Pow128(q.used - 1), s[q.used], q.value, s[0] % 128);
    } else {
      assert Pow128(0) == 1;
    }
  }

  lemma Shifted(p: nat, last: nat, v: nat, b: nat)
    requires p * last <= v < p * (last + 1) && b < 128
    ensures 128 * p * last <= b + 128 * v < 128 * p * (last + 1)
  {
    assert 128 * p * last == 128 * (p * last) && 128 * p * (last + 1) == 128 * (p * (last + 1));
  }

  /** 8 bytes hold 56 bits, 10 bytes more than 64. */
  lemma Pow128Known()
    ensures Pow128(8) == 0x100_0000_0000_0000 && Pow128(9) == 0x8000_0000_0000_0000 && Pow128(10) > WORD
  {
    assert Pow128(4) == 0x1000_0000;
    assert Pow128(6) == 0x400_0000_0000;
  }

  /** appendLEB128 */
  method AppendLEB128(b: seq<byte>, value: nat) returns (r: seq<byte>)
    ensures r == b + Leb(value)
  {
    var v: nat := value;
    r := b;
    while true
      invariant r + Leb(v) == b + Leb(value)
      decreases v
    {
      var c: byte := v % 128;
      ghost var rest := Leb(v);
      v := v / 128;
      if v != 0 {
        c := c + 128;
      }
      assert rest == if v == 0 then [c] else [c] + Leb(v);
      r := r + [c];
      if v == 0 {
        return;
      }
    }
  }

  /** leb128Len */
  method Leb128Len(value: nat) returns (n: nat)
    ensures n == |Leb(value)|
  {
    var v: nat := value;
    n := 1;
    while v >= 0x80
      invariant n + |Leb(v)| == 1 + |Leb(value)|
    {
      v := v / 128;
      n := n + 1;
    }
  }

  /** Leb128Size of the IAMF package. */
  method Leb128Size(value: nat) returns (size: nat)
    ensures size == |Leb(value)|
  {
    if value == 0 {
      return 1;
    }
    var v: nat := value;
    size := 0;
    while v > 0
      invariant v > 0 ==> size + |Leb(v)| == |Leb(value)|
      invariant v == 0 ==> size == |Leb(value)|
    {
      size := size + 1;
      v := v / 128;
    }
  }

  /** i bytes are read and gave value; with what the others give it makes goal. */
  ghost predicate Reading(goal: LebResult, s: seq<byte>, i: nat, value: nat, limit: nat) {
    && i <= |s| && i <= limit
    && var q := Parse(s[i..], limit - i);
       goal == if q.LebErr? then q else LebOk(value + Pow128(i) * q.value, i + q.used)
  }

  lemma ReadingStep(goal: LebResult, s: seq<byte>, i: nat, value: nat, limit: nat, b: byte, t: seq<byte>, q: LebResult)
    requires Reading(goal, s, i, value, limit) && i < |s| && i < limit
    requires b == s[i] && t == s[i + 1..] && q == Parse(t, limit - (i + 1))
    ensures b < 128 ==> goal == LebOk(value + Pow128(i) * b, i + 1)
    ensures b >= 128 ==> Reading(goal, s, i + 1, value + Pow128(i) * (b % 128), limit)
  {
    assert s[i..] == [b] + t;
    if b >= 128 && q.LebOk? {
      Regroup(Pow128(i), b % 128, q.value, Pow128(i + 1));
    }
  }

  lemma Regroup(p: nat, b: nat, v: nat, p': nat)
    requires p' == 128 * p
    ensures p * (b + 128 * v) == p * b + p' * v
  {
  }

  /** One round of the loop in ReadLEB128. `value |= uint64(b&0x7f) << (7*i)` sets bits that are still 0, so it is
      written as an addition; the value stays below 2^56.
    */
  method OrByte(data: seq<byte>, i: nat, value: nat, ghost goal: LebResult, ghost limit: nat)
    returns (value': nat, last: bool)
    requires Reading(goal, data, i, value, limit) && i < |data| && i < limit
    ensures last ==> goal == LebOk(value', i + 1)
    ensures !last ==> Reading(goal, data, i + 1, value', limit)
  {
    var b := data[i];
    ReadingStep(goal, data, i, value, limit, b, data[i + 1..], Parse(data[i + 1..], limit - (i + 1)));
    value' := value + Pow128(i) * (b % 128);
    last := b < 128;
  }

  /** ReadLEB128, whose limit is 8 bytes. */
  method ReadLEB128(data: seq<byte>, limit: nat := 8) returns (r: LebResult)
    ensures r == Parse(data, limit)
  {
    var value: nat, i: nat := 0, 0;
    ghost var goal := Parse(data, limit);
    assert data[0..] == data;
    while i < limit
      invariant i <= limit && Reading(goal, data, i, value, limit)
    {
      if i >= |data| {
        return LebErr(Truncated);
      }
      var last: bool;
      value, last := OrByte(data, i, value, goal, limit);
      i := i + 1;
      if last {
        return LebOk(value, i);
      }
    }
    return LebErr(TooLong);
  }

  // ----- the IAMF version -----

  /** `result |= uint64(b&0x7f) << shift` on 64 bits, where shift is 7 * i: the bits of result from there on are 0. */
  function Or7(result: nat, b: byte, i: nat): nat {
    result + Pow128(i) * (b % 128) % WORD
  }

  lemma {:induction false} Pow128Mono(i: nat, j: nat)
    requires i <= j
    ensures Pow128(i) <= Pow128(j)
  {
    if i < j {
      Pow128Mono(i, j - 1);
    }
  }

  /** Only the tenth byte can lose bits, and what is left is the value modulo 2^64. */
  lemma Or7Exact(value: nat, b: byte, i: nat)
    requires i < 10 && value < Pow128(i)
    ensures Or7(value, b, i) == (value + Pow128(i) * (b % 128)) % WORD
    ensures i < 9 ==> Or7(value, b, i) == value + Pow128(i) * (b % 128) < Pow128(i + 1)
  {
    var x, p := b % 128, Pow128(i);
    Pow128Known();
    if i < 9 {
      Pow128Mono(i + 1, 9);
      Below128(p, x, value);
    } else {
      TopBit(value, x, p);
    }
  }

  lemma TopBit(value: nat, x: nat, p: nat)
    requires p == 0x8000_0000_0000_0000 && value < p
    ensures value + p * x % WORD == (value + p * x) % WORD
  {
    var low := x % 2 * p;
    assert p * x == x / 2 * WORD + low;
    DivModUnique(p * x, WORD, x / 2, low);
    DivModUnique(value + p * x, WORD, x / 2, value + low);
  }

  lemma Below128(p: nat, x: nat, v: nat)
    requires x < 128 && v < p
    ensures v + p * x < 128 * p
  {
    assert p * x <= p * 127;
  }

  /** What a 64-bit word keeps. */
  function Cut64(r: LebResult): LebResult {
    match r
    case LebErr(e) => LebErr(e)
    case LebOk(v, n) => LebOk(v % WORD, n)
  }

  /** Between two rounds, with the limit of 10 bytes. */
  ghost predicate Reading64(goal: LebResult, s: seq<byte>, i: nat, result: nat, limit: nat) {
    && i <= |s| && i <= limit
    && (i == limit ==> goal == LebErr(TooLong))
    && (i < limit ==> Reading(goal, s, i, result, limit) && result < Pow128(i))
  }

  lemma Reading64Step(goal: LebResult, s: seq<byte>, i: nat, result: nat, limit: nat, b: byte)
    requires Reading64(goal, s, i, result, limit) && i < limit == 10 && i < |s| && b == s[i]
    ensures b < 128 ==> Cut64(goal) == LebOk(Or7(result, b, i), i + 1)
    ensures b >= 128 ==> Reading64(goal, s, i + 1, Or7(result, b, i), limit)
  {
    Or7Exact(result, b, i);
    var q, x := Parse(s[i + 1..], limit - (i + 1)), result + Pow128(i) * (b % 128);
    ReadingStep(goal, s, i, result, limit, b, s[i + 1..], q);
    assert b < 128 ==> goal == LebOk(x, i + 1);
  }

  /** ReadLeb128: up to 10 bytes, as the shift must not exceed 63, on 64 bits. */
  method ReadLeb128(data: seq<byte>) returns (r: LebResult)
    ensures r == Cut64(Parse(data, 10))
  {
    hide Parse, Pow128, Or7;
    var result: nat, shift: nat, i: nat := 0, 0, 0;
    ghost var goal := Parse(data, 10);
    Reading64Start(data, 10);
    while true
      invariant shift == 7 * i && Reading64(goal, data, i, result, 10)
      decreases 10 - i
    {
      if shift > 63 {
        return LebErr(TooLong);
      }
      if i >= |data| {
        CutOff(goal, data, i, result, 10);
        return LebErr(Truncated);
      }
      var b := data[i];
      Reading64Step(goal, data, i, result, 10, b);
      result := Or7(result, b, i);
      i := i + 1;
      if b < 128 {
        return LebOk(result, i);
      }
      shift := shift + 7;
    }
  }

  lemma Reading64Start(data: seq<byte>, limit: nat)
    requires limit > 0
    ensures Reading64(Parse(data, limit), data, 0, 0, limit)
  {
    assert data[0..] == data;
  }

  lemma CutOff(goal: LebResult, s: seq<byte>, i: nat, result: nat, limit: nat)
    requires Reading64(goal, s, i, result, limit) && i < limit && i == |s|
    ensures goal == LebErr(Truncated)
  {
  }

  /** ReadLeb128 gives the value as it was written if and only if the code has fewer than ten bytes or its tenth byte is
      0 or 1.
    */
  lemma Cut64Exact(s: seq<byte>)
    requires Parse(s, 10).LebOk?
    ensures Cut64(Parse(s, 10)) == Parse(s, 10) <==> Parse(s, 10).used < 10 || s[9] <= 1
  {
    hide Parse, Pow128;
    ParseBound(s, 10);
    Pow128Known();
    var r := Parse(s, 10);
    if r.used < 10 {
      Pow128Mono(r.used, 9);
      TopByte(r.used, s[r.used - 1]);
    }
  }

  lemma TopByte(n: nat, last: nat)
    requires n > 0 && last < 128
    ensures Pow128(n - 1) * (last + 1) <= Pow128(n)
  {
    assert Pow128(n) == Pow128(n - 1) * 128;
  }

  /** Nine bytes 80 and then 02, which is 2^64, are read as 0. */
  lemma LosesBits(s: seq<byte>)
    requires s == Repeat(0x80, 9) + [0x02]
    ensures Parse(s, 10) == LebOk(WORD, 10) && Cut64(Parse(s, 10)) == LebOk(0, 10)
  {
    hide Parse, Pow128;
    Zeros80(s, 9, 10);
    Pow128Known();
  }

  /** The value of k bytes 80 and then 02. */
  lemma {:induction false} Zeros80(s: seq<byte>, k: nat, limit: nat)
    requires s == Repeat(0x80, k) + [0x02] && k < limit
    ensures Parse(s, limit) == LebOk(Pow128(k) * 2, k + 1)
  {
    if k > 0 {
      assert s[1..] == Repeat(0x80, k - 1) + [0x02];
      Zeros80(s[1..], k - 1, limit - 1);
    }
  }

  /** Every 64-bit value is read back as it was written, in the number of bytes that Leb128Size gives. */
  lemma Leb128RoundTrip(v: nat, tail: seq<byte>)
    requires v < WORD
    ensures Parse(Leb(v) + tail, 10) == LebOk(v, |Leb(v)|) && v % WORD == v
  {
    Pow128Known();
    LebLength(v, 10);
    ParseLeb(v, tail, 10);
  }
}
