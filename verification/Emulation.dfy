/** Start-code emulation prevention (section 7.4.1 of ITU-T H.264), as the EBSP writer inserts it
    and the EBSP reader drops it. The state z is the number of zero bytes just passed.
  */
module Emulation {
  import opened BitStrings

  /** What the writer emits for payload byte b. */
  function EscapeByte(z: nat, b: byte): seq<byte> {
    if z == 2 && b <= 3 then [3, b] else [b]
  }

  /** The writer's zero counter after payload byte b. */
  function NextZeros(z: nat, b: byte): nat {
    if b != 0 then 0 else if z == 2 then 1 else z + 1
  }

  function EscapeFrom(p: seq<byte>, z: nat): seq<byte> {
    if p == [] then [] else EscapeByte(z, p[0]) + EscapeFrom(p[1..], NextZeros(z, p[0]))
  }

  function ZerosAfter(p: seq<byte>, z: nat): nat {
    if p == [] then z else ZerosAfter(p[1..], NextZeros(z, p[0]))
  }

  function Escape(p: seq<byte>): seq<byte> {
    EscapeFrom(p, 0)
  }

  /** What the reader makes of an escaped byte string, z zero bytes into it. A prevention byte at the
      very end of the data is dropped too. The byte after a prevention byte is taken as it is. */
  function UnescapeFrom(s: seq<byte>, z: nat): seq<byte> {
    if s == [] then []
    else if z == 2 && s[0] == 3 then
      if |s| == 1 then [] else [s[1]] + UnescapeFrom(s[2..], if s[1] == 0 then 1 else 0)
    else [s[0]] + UnescapeFrom(s[1..], if s[0] == 0 then z + 1 else 0)
  }

  lemma {:induction false} EscapeConcat(p: seq<byte>, q: seq<byte>, z: nat)
    ensures EscapeFrom(p + q, z) == EscapeFrom(p, z) + EscapeFrom(q, ZerosAfter(p, z))
    ensures ZerosAfter(p + q, z) == ZerosAfter(q, ZerosAfter(p, z))
  {
    if p == [] {
      assert p + q == q;
    } else {
      assert (p + q)[1..] == p[1..] + q;
      EscapeConcat(p[1..], q, NextZeros(z, p[0]));
    }
  }

  /** One more payload byte: the step of the writer's loop. */
  lemma EscapeAppend(p: seq<byte>, b: byte)
    ensures Escape(p + [b]) == Escape(p) + EscapeByte(ZerosAfter(p, 0), b)
    ensures ZerosAfter(p + [b], 0) == NextZeros(ZerosAfter(p, 0), b)
  {
    EscapeConcat(p, [b], 0);
    var z := ZerosAfter(p, 0);
    assert EscapeFrom([b], z) == EscapeByte(z, b) + EscapeFrom([], NextZeros(z, b));
  }

  lemma {:induction false} ZerosBound(p: seq<byte>, z: nat)
    requires z <= 2
    ensures ZerosAfter(p, z) <= 2
  {
    if p != [] {
      ZerosBound(p[1..], NextZeros(z, p[0]));
    }
  }

  lemma UnescapeByte(z: nat, b: byte, tail: seq<byte>)
    requires z <= 2
    ensures UnescapeFrom(EscapeByte(z, b) + tail, z) == [b] + UnescapeFrom(tail, NextZeros(z, b))
  {
    var s := EscapeByte(z, b) + tail;
    assert s[|EscapeByte(z, b)|..] == tail;
  }

  /** Reading back what the writer emitted gives the payload, whatever follows it: the two zero
      counters agree at every byte. */
  lemma {:induction false} UnescapeEscape(p: seq<byte>, z: nat, rest: seq<byte>)
    requires z <= 2
    ensures UnescapeFrom(EscapeFrom(p, z) + rest, z) == p + UnescapeFrom(rest, ZerosAfter(p, z))
  {
    hide UnescapeFrom, EscapeByte;
    if p == [] {
      assert EscapeFrom(p, z) + rest == rest;
    } else {
      var b, p', z' := p[0], p[1..], NextZeros(z, p[0]);
      var tail, u := EscapeFrom(p', z') + rest, UnescapeFrom(rest, ZerosAfter(p', z'));
      assert EscapeFrom(p, z) + rest == EscapeByte(z, b) + tail;
      assert UnescapeFrom(EscapeFrom(p, z) + rest, z) == [b] + UnescapeFrom(tail, z') by {
        UnescapeByte(z, b, tail);
      }
      assert UnescapeFrom(tail, z') == p' + u by {
        UnescapeEscape(p', z', rest);
      }
      assert [b] + (p' + u) == p + u;
    }
  }

  lemma EscapeRoundTrip(p: seq<byte>)
    ensures UnescapeFrom(Escape(p), 0) == p
  {
    UnescapeEscape(p, 0, []);
    assert Escape(p) + [] == Escape(p);
    assert p + [] == p;
  }

  /** s has no 00 00 00, 00 00 01 or 00 00 02, also when z zero bytes precede it. */
  predicate Clean(s: seq<byte>, z: nat) {
    && (z >= 2 && |s| >= 1 ==> s[0] > 2)
    && (z >= 1 && |s| >= 2 ==> !(s[0] == 0 && s[1] <= 2))
    && forall i :: 0 <= i && i + 2 < |s| ==> !(s[i] == 0 && s[i + 1] == 0 && s[i + 2] <= 2)
  }

  lemma CleanCons(b: byte, s: seq<byte>, z: nat)
    requires z <= 2 && (z == 2 ==> b > 2)
    requires Clean(s, if b == 0 then z + 1 else 0)
    ensures Clean([b] + s, z)
  {
    var t := [b] + s;
    forall i | 0 <= i && i + 2 < |t| ensures !(t[i] == 0 && t[i + 1] == 0 && t[i + 2] <= 2) {
      if i > 0 {
        assert t[i] == s[i - 1] && t[i + 1] == s[i] && t[i + 2] == s[i + 1];
      }
    }
  }

  /** The writer never emits a start code or another three-byte pattern that section 7.4.1 forbids. */
  lemma {:induction false} EscapeIsClean(p: seq<byte>, z: nat)
    requires z <= 2
    ensures Clean(EscapeFrom(p, z), z)
  {
    if p != [] {
      var b, z' := p[0], NextZeros(z, p[0]);
      var tail := EscapeFrom(p[1..], z');
      EscapeIsClean(p[1..], z');
      if z == 2 && b <= 3 {
        CleanCons(b, tail, 0);
        CleanCons(3, [b] + tail, z);
        assert EscapeFrom(p, z) == [3] + ([b] + tail);
      } else {
        CleanCons(b, tail, z);
      }
    }
  }

  /** Escaping keeps the last byte, so a payload closed by a stop bit does not end in a zero. */
  lemma {:induction false} EscapeLast(p: seq<byte>, z: nat)
    requires p != []
    ensures EscapeFrom(p, z) != []
    ensures EscapeFrom(p, z)[|EscapeFrom(p, z)| - 1] == p[|p| - 1]
  {
    if |p| > 1 {
      EscapeLast(p[1..], NextZeros(z, p[0]));
    } else {
      assert EscapeFrom(p[1..], NextZeros(z, p[0])) == [];
    }
  }

  // ----- prevention bytes only where they are needed -----

  /** s has no 00 00 followed by a byte of at most 3, also when z zero bytes precede it. */
  predicate Plain(s: seq<byte>, z: nat) {
    && (z >= 2 && |s| >= 1 ==> s[0] > 3)
    && (z >= 1 && |s| >= 2 ==> !(s[0] == 0 && s[1] <= 3))
    && forall i :: 0 <= i && i + 2 < |s| ==> !(s[i] == 0 && s[i + 1] == 0 && s[i + 2] <= 3)
  }

  /** A payload that needs no prevention byte gets none. */
  lemma {:induction false} EscapePlain(p: seq<byte>, z: nat)
    requires z <= 2 && Plain(p, z)
    ensures EscapeFrom(p, z) == p
  {
    if p != [] {
      EscapePlain(p[1..], NextZeros(z, p[0]));
    }
  }

  /** If there is a 00 00 03 at i, a byte of at most 3 follows it. */
  predicate NeededAt(s: seq<byte>, i: nat) {
    i + 2 < |s| && s[i] == 0 && s[i + 1] == 0 && s[i + 2] == 3 ==> i + 3 < |s| && s[i + 3] <= 3
  }

  /** Every 00 00 03 in s, also one that z zero bytes before it begin, is followed by a byte of at most 3. */
  ghost predicate Needed(s: seq<byte>, z: nat) {
    && (z >= 2 && |s| >= 1 && s[0] == 3 ==> |s| >= 2 && s[1] <= 3)
    && (z >= 1 && |s| >= 2 && s[0] == 0 && s[1] == 3 ==> |s| >= 3 && s[2] <= 3)
    && forall i: nat :: NeededAt(s, i)
  }

  lemma NeededCons(b: byte, s: seq<byte>, z: nat)
    requires z <= 2 && (z == 2 && b == 3 ==> s != [] && s[0] <= 3)
    requires Needed(s, if b == 0 then z + 1 else 0)
    ensures Needed([b] + s, z)
  {
    forall i: nat ensures NeededAt([b] + s, i) {
      if i > 0 {
        assert NeededAt(s, i - 1);
      }
    }
  }

  lemma NeededTail(s: seq<byte>, t: seq<byte>, z: nat, z': nat)
    requires s != [] && t == s[1..] && Needed(s, z) && z <= 2 && z' == if s[0] == 0 then z + 1 else 0
    ensures Needed(t, z')
  {
    assert NeededAt(s, 0);
    forall i: nat ensures NeededAt(t, i) {
      assert NeededAt(s, i + 1);
    }
  }

  lemma CleanTail(s: seq<byte>, t: seq<byte>, z: nat, z': nat)
    requires s != [] && t == s[1..] && Clean(s, z) && z <= 2 && z' == if s[0] == 0 then z + 1 else 0
    ensures Clean(t, z')
  {
    forall i | 0 <= i && i + 2 < |t| ensures !(t[i] == 0 && t[i + 1] == 0 && t[i + 2] <= 2) {
      assert t[i] == s[i + 1] && t[i + 1] == s[i + 2] && t[i + 2] == s[i + 3];
    }
  }

  /** The writer emits a prevention byte only before a byte of at most 3. */
  lemma {:induction false} EscapeIsNeeded(p: seq<byte>, z: nat)
    requires z <= 2
    ensures Needed(EscapeFrom(p, z), z)
  {
    hide Needed;
    if p == [] {
      NoneNeeded(z);
    } else {
      var b, z' := p[0], NextZeros(z, p[0]);
      var tail := EscapeFrom(p[1..], z');
      EscapeIsNeeded(p[1..], z');
      if z == 2 && b <= 3 {
        NeededCons(b, tail, 0);
        NeededCons(3, [b] + tail, z);
        assert EscapeFrom(p, z) == [3] + ([b] + tail);
      } else {
        NeededCons(b, tail, z);
      }
    }
  }

  lemma NoneNeeded(z: nat)
    ensures Needed([], z)
  {
  }

  /** There is just one byte string without the forbidden patterns, with prevention bytes only where they are needed,
      that is read as the payload: the one that the writer emits.
    */
  lemma {:induction false} EscapeUnique(s: seq<byte>, z: nat)
    requires z <= 2 && Clean(s, z) && Needed(s, z)
    ensures EscapeFrom(UnescapeFrom(s, z), z) == s
  {
    if s != [] {
      var t, z' := s[1..], if s[0] == 0 then z + 1 else 0;
      NeededTail(s, t, z, z');
      CleanTail(s, t, z, z');
      FirstByte(s, z);
      hide *;
      if z == 2 && s[0] == 3 {
        var u, z'' := t[1..], if t[0] == 0 then 1 else 0;
        NeededTail(t, u, 0, z'');
        CleanTail(t, u, 0, z'');
        EscapeUnique(u, z'');
        EscapePrevented(s, u, z'');
      } else {
        EscapeUnique(t, z');
        EscapePlainByte(s, t, z, z');
      }
    }
  }

  lemma FirstByte(s: seq<byte>, z: nat)
    requires s != [] && z <= 2 && Clean(s, z) && Needed(s, z)
    ensures z == 2 && s[0] != 3 ==> s[0] > 3
    ensures z == 2 && s[0] == 3 ==> |s| >= 2 && s[1] <= 3
  {
  }

  lemma EscapePrevented(s: seq<byte>, u: seq<byte>, z: nat)
    requires |s| >= 2 && s[0] == 3 && s[1] <= 3 && u == s[1..][1..] && z == (if s[1] == 0 then 1 else 0)
    requires EscapeFrom(UnescapeFrom(u, z), z) == u
    ensures EscapeFrom(UnescapeFrom(s, 2), 2) == s
  {
    assert s[2..] == u && s == [3, s[1]] + u;
    EscapeHead(s[1], UnescapeFrom(u, z), 2);
  }

  lemma EscapePlainByte(s: seq<byte>, t: seq<byte>, z: nat, z': nat)
    requires s != [] && t == s[1..] && z <= 2 && z' == (if s[0] == 0 then z + 1 else 0) && (z == 2 ==> s[0] > 3)
    requires EscapeFrom(UnescapeFrom(t, z'), z') == t
    ensures EscapeFrom(UnescapeFrom(s, z), z) == s
  {
    EscapeHead(s[0], UnescapeFrom(t, z'), z);
  }

  lemma EscapeHead(b: byte, p: seq<byte>, z: nat)
    ensures EscapeFrom([b] + p, z) == EscapeByte(z, b) + EscapeFrom(p, NextZeros(z, b))
  {
    assert ([b] + p)[1..] == p;
  }

  // ----- what the reader drops -----

  /** Byte i is a 3 behind exactly two zero bytes. */
  predicate Dropped(s: seq<byte>, i: nat)
    requires i < |s|
  {
    i >= 2 && s[i] == 3 && s[i - 1] == 0 && s[i - 2] == 0 && (i >= 3 ==> s[i - 3] != 0)
  }

  /** The first n bytes without those. */
  function Kept(s: seq<byte>, n: nat): seq<byte>
    requires n <= |s|
  {
    if n == 0 then [] else Kept(s, n - 1) + (if Dropped(s, n - 1) then [] else [s[n - 1]])
  }

  /** The zero bytes just before byte n. */
  function ZerosBefore(s: seq<byte>, n: nat): nat
    requires n <= |s|
  {
    if n == 0 || s[n - 1] != 0 then 0 else ZerosBefore(s, n - 1) + 1
  }

  lemma DroppedByZeros(s: seq<byte>, n: nat)
    requires n < |s|
    ensures Dropped(s, n) <==> ZerosBefore(s, n) == 2 && s[n] == 3
  {
    if n >= 1 && s[n - 1] == 0 {
      if n >= 2 && s[n - 2] == 0 {
        assert ZerosBefore(s, n - 2) == 0 <==> n == 2 || s[n - 3] != 0;
        assert ZerosBefore(s, n) == ZerosBefore(s, n - 1) + 1 == ZerosBefore(s, n - 2) + 2;
      } else {
        assert ZerosBefore(s, n - 1) == 0;
      }
    }
  }

  /** Unescaping drops these bytes and no others. */
  lemma {:induction false} UnescapeDrops(s: seq<byte>, n: nat)
    requires n <= |s|
    ensures Kept(s, n) + UnescapeFrom(s[n..], ZerosBefore(s, n)) == Kept(s, |s|)
    decreases |s| - n
  {
    if n < |s| {
      var z, rest := ZerosBefore(s, n), s[n..];
      DroppedByZeros(s, n);
      assert rest[1..] == s[n + 1..];
      if z == 2 && s[n] == 3 {
        if n + 1 < |s| {
          DroppedByZeros(s, n + 1);
          assert rest[2..] == s[n + 2..];
          UnescapeDrops(s, n + 2);
          Assoc(Kept(s, n), [s[n + 1]], UnescapeFrom(s[n + 2..], if s[n + 1] == 0 then 1 else 0));
        }
      } else {
        UnescapeDrops(s, n + 1);
        Assoc(Kept(s, n), [s[n]], UnescapeFrom(s[n + 1..], if s[n] == 0 then z + 1 else 0));
      }
    }
  }
}
