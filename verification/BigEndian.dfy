/** Byte strings as big-endian counters (incrementIV and incrementIVInPlace in mp4/crypto.go). */
module BigEndian {
  import opened BitStrings

  function FromBE(s: seq<byte>): nat {
    if s == [] then 0 else 256 * FromBE(s[..|s| - 1]) + s[|s| - 1]
  }

  function Pow256(n: nat): (p: nat)
    ensures p >= 1
  {
    if n == 0 then 1 else 256 * Pow256(n - 1)
  }

  /** s + k as a counter of |s| bytes: carries run to the left and the last one is dropped. */
  function AddBE(s: seq<byte>, k: nat): (r: seq<byte>)
    ensures |r| == |s|
  {
    if s == [] then []
    else
      var sum := s[|s| - 1] + k;
      AddBE(s[..|s| - 1], sum / 256) + [sum % 256]
  }

  lemma {:induction false} FromBEBound(s: seq<byte>)
    ensures FromBE(s) < Pow256(|s|)
  {
    if s != [] {
      FromBEBound(s[..|s| - 1]);
    }
  }

  lemma {:induction false} FromBEInjective(s: seq<byte>, t: seq<byte>)
    requires |s| == |t| && FromBE(s) == FromBE(t)
    ensures s == t
  {
    if s != [] {
      FromBEInjective(s[..|s| - 1], t[..|t| - 1]);
      assert s == s[..|s| - 1] + [s[|s| - 1]];
      assert t == t[..|t| - 1] + [t[|t| - 1]];
    }
  }

  lemma {:induction false} AddBEValue(s: seq<byte>, k: nat) returns (q: nat)
    ensures FromBE(s) + k == q * Pow256(|s|) + FromBE(AddBE(s, k))
  {
    if s == [] {
      q := k;
    } else {
      var f, sum := s[..|s| - 1], s[|s| - 1] + k;
      q := AddBEValue(f, sum / 256);
      var r := AddBE(s, k);
      assert r[..|r| - 1] == AddBE(f, sum / 256);
      Scale(q, Pow256(|f|));
    }
  }

  lemma Scale(q: nat, p: nat)
    ensures q * (256 * p) == 256 * (q * p)
  {
  }

  /** Incrementing is addition modulo 256^length. */
  lemma AddBEIsAddition(s: seq<byte>, k: nat)
    ensures FromBE(AddBE(s, k)) == (FromBE(s) + k) % Pow256(|s|)
  {
    var q := AddBEValue(s, k);
    FromBEBound(AddBE(s, k));
    DivModUnique(FromBE(s) + k, Pow256(|s|), q, FromBE(AddBE(s, k)));
  }

  lemma {:induction false} AddBEZero(s: seq<byte>)
    ensures AddBE(s, 0) == s
  {
    if s != [] {
      AddBEZero(s[..|s| - 1]);
    }
  }

  lemma {:induction false} AddBEAdd(s: seq<byte>, a: nat, b: nat)
    ensures AddBE(AddBE(s, a), b) == AddBE(s, a + b)
  {
    if s != [] {
      var f, l := s[..|s| - 1], s[|s| - 1];
      var t := AddBE(s, a);
      assert t[..|t| - 1] == AddBE(f, (l + a) / 256);
      AddBEAdd(f, (l + a) / 256, ((l + a) % 256 + b) / 256);
      assert (l + a + b) / 256 == (l + a) / 256 + ((l + a) % 256 + b) / 256;
    }
  }

  lemma ModDiffers(x: nat, y: nat, p: nat)
    requires p > 0 && x < y < x + p
    ensures x % p != y % p
  {
    var qx, r := x / p, x % p + (y - x);
    if r < p {
      DivModUnique(y, p, qx, r);
    } else {
      Distribute(qx, 1, p);
      DivModUnique(y, p, qx + 1, r - p);
    }
  }

  /** Counters less than a full cycle apart are different. */
  lemma AddBEInjective(s: seq<byte>, a: nat, b: nat)
    requires a < b < a + Pow256(|s|)
    ensures AddBE(s, a) != AddBE(s, b)
  {
    AddBEIsAddition(s, a);
    AddBEIsAddition(s, b);
    ModDiffers(FromBE(s) + a, FromBE(s) + b, Pow256(|s|));
  }

  /** iv[i] = x, where t are the bytes after i. */
  method SetByte(iv: array<byte>, i: nat, x: byte, ghost s: seq<byte>, ghost t: seq<byte>)
    requires i < |s| && iv[..] == s[..i + 1] + t
    modifies iv
    ensures iv[..] == s[..i] + ([x] + t)
  {
    iv[i] := x;
  }

  /** Adds nrSteps to the counter in place. */
  method IncrementIVInPlace(iv: array<byte>, nrSteps: nat)
    modifies iv
    ensures iv[..] == AddBE(old(iv[..]), nrSteps)
  {
    hide AddBE;
    ghost var s, t: seq<byte> := iv[..], [];
    var rest: nat := nrSteps;
    var i := iv.Length - 1;
    assert s[..i + 1] == s;
    while i >= 0
      invariant -1 <= i < |s| == iv.Length
      invariant iv[..] == s[..i + 1] + t
      invariant AddBE(s[..i + 1], rest) + t == AddBE(s, nrSteps)
    {
      assert iv[i] == s[i];
      var sum: nat := iv[i] as int + rest;
      CarryStep(s, i, rest, t);
      if sum < 256 {
        SetByte(iv, i, sum, s, t);
        return;
      }
      SetByte(iv, i, sum % 256, s, t);
      rest := sum / 256;
      t := [sum % 256] + t;
      i := i - 1;
    }
  }

  lemma CarryStep(s: seq<byte>, i: nat, rest: nat, t: seq<byte>)
    requires i < |s|
    ensures var sum := s[i] + rest;
            && AddBE(s[..i + 1], rest) + t == AddBE(s[..i], sum / 256) + ([sum % 256] + t)
            && (sum < 256 ==> AddBE(s[..i], sum / 256) == s[..i])
  {
    assert s[..i + 1][..i] == s[..i];
    AddBEZero(s[..i]);
  }
}
