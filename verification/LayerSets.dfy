/** Layer dependencies in the extension of the HEVC video parameter set (hevc/vps.go; section F.7.4.3.1.1 of
    ITU-T H.265).
  */
module LayerSets {

  /** direct(i, j): layer i refers directly to layer j. */
  type Dependencies = (nat, nat) -> bool

  /** Direct dependencies go to lower layers only. */
  ghost predicate Downward(direct: Dependencies) {
    forall i: nat, j: nat :: direct(i, j) ==> j < i
  }

  /** A chain of direct dependencies. */
  ghost predicate Chain(direct: Dependencies, p: seq<nat>) {
    forall m :: 0 <= m && m + 1 < |p| ==> LinkAt(direct, p, m)
  }

  ghost predicate LinkAt(direct: Dependencies, p: seq<nat>, m: nat)
    requires m + 1 < |p|
  {
    direct(p[m], p[m + 1])
  }

  /** Layer i depends on layer j: there is a chain of one or more links from i to j. */
  ghost predicate Depends(direct: Dependencies, i: nat, j: nat) {
    exists p: seq<nat> :: |p| >= 2 && p[0] == i && p[|p| - 1] == j && Chain(direct, p)
  }

  lemma OneLink(direct: Dependencies, i: nat, j: nat)
    requires direct(i, j)
    ensures Depends(direct, i, j)
  {
    var p := [i, j];
    assert LinkAt(direct, p, 0);
    assert Chain(direct, p);
  }

  lemma JoinChains(direct: Dependencies, p: seq<nat>, q: seq<nat>)
    requires |p| >= 1 && |q| >= 1 && p[|p| - 1] == q[0] && Chain(direct, p) && Chain(direct, q)
    ensures Chain(direct, p + q[1..])
  {
    var r := p + q[1..];
    forall m | 0 <= m && m + 1 < |r| ensures LinkAt(direct, r, m) {
      if m + 1 < |p| {
        assert LinkAt(direct, p, m);
      } else {
        assert LinkAt(direct, q, m + 1 - |p|);
      }
    }
  }

  /** Dependency is transitive. */
  lemma Transitive(direct: Dependencies, i: nat, k: nat, j: nat)
    requires Depends(direct, i, k) && Depends(direct, k, j)
    ensures Depends(direct, i, j)
  {
    var p :| |p| >= 2 && p[0] == i && p[|p| - 1] == k && Chain(direct, p);
    var q :| |q| >= 2 && q[0] == k && q[|q| - 1] == j && Chain(direct, q);
    JoinChains(direct, p, q);
    var r := p + q[1..];
    assert r[0] == i && r[|r| - 1] == j;
  }

  /** It begins with a direct dependency: on j itself, or on a layer that depends on j. */
  lemma FirstLink(direct: Dependencies, i: nat, j: nat)
    requires Depends(direct, i, j)
    ensures direct(i, j) || exists k: nat :: direct(i, k) && Depends(direct, k, j)
  {
    var p :| |p| >= 2 && p[0] == i && p[|p| - 1] == j && Chain(direct, p);
    assert LinkAt(direct, p, 0);
    if |p| > 2 {
      var q := p[1..];
      forall m | 0 <= m && m + 1 < |q| ensures LinkAt(direct, q, m) {
        assert LinkAt(direct, p, m + 1);
      }
      assert Chain(direct, q) && q[0] == p[1] && q[|q| - 1] == j;
    }
  }

  /** Row i of the table is the transitive closure. */
  ghost predicate RowDone(direct: Dependencies, flags: array2<bool>, i: nat)
    requires i < flags.Length0
    reads flags
  {
    forall j :: 0 <= j < flags.Length1 ==> flags[i, j] == Depends(direct, i, j)
  }

  /** After the layers before k were looked at, flag says whether j was reached through one of them or directly. */
  ghost predicate Reached(direct: Dependencies, i: nat, j: nat, k: nat, flag: bool) {
    flag <==> direct(i, j) || exists m: nat :: m < k && direct(i, m) && Depends(direct, m, j)
  }

  lemma ReachedAll(direct: Dependencies, i: nat, j: nat, flag: bool)
    requires Downward(direct) && Reached(direct, i, j, i, flag)
    ensures flag == Depends(direct, i, j)
  {
    if flag {
      if direct(i, j) {
        OneLink(direct, i, j);
      } else {
        var m: nat :| m < i && direct(i, m) && Depends(direct, m, j);
        OneLink(direct, i, m);
        Transitive(direct, i, m, j);
      }
    }
    if Depends(direct, i, j) {
      FirstLink(direct, i, j);
    }
  }

  /** One entry of the table, given the rows above it. */
  method CloseEntry(direct: Dependencies, flags: array2<bool>, i: nat, j: nat)
    requires Downward(direct) && i < flags.Length0 <= flags.Length1 && j < flags.Length1
    requires forall r :: 0 <= r < i ==> RowDone(direct, flags, r)
    modifies flags
    ensures flags[i, j] == Depends(direct, i, j)
    ensures forall r, c :: 0 <= r < flags.Length0 && 0 <= c < flags.Length1 && (r != i || c != j) ==>
              flags[r, c] == old(flags[r, c])
  {
    flags[i, j] := direct(i, j);
    var k: nat := 0;
    while k < i
      invariant k <= i && Reached(direct, i, j, k, flags[i, j])
      invariant forall r, c :: 0 <= r < flags.Length0 && 0 <= c < flags.Length1 && (r != i || c != j) ==>
                  flags[r, c] == old(flags[r, c])
    {
      assert old(RowDone(direct, flags, k));
      assert flags[k, j] == Depends(direct, k, j);
      if direct(i, k) && flags[k, j] {
        flags[i, j] := true;
      }
      k := k + 1;
    }
    ReachedAll(direct, i, j, flags[i, j]);
  }

  method CloseRow(direct: Dependencies, flags: array2<bool>, i: nat)
    requires Downward(direct) && i < flags.Length0 <= flags.Length1
    requires forall r :: 0 <= r < i ==> RowDone(direct, flags, r)
    modifies flags
    ensures forall r :: 0 <= r <= i ==> RowDone(direct, flags, r)
  {
    var j: nat := 0;
    while j < flags.Length1
      invariant j <= flags.Length1 && forall r :: 0 <= r < i ==> RowDone(direct, flags, r)
      invariant forall c :: 0 <= c < j ==> flags[i, c] == Depends(direct, i, c)
    {
      label Before:
      CloseEntry(direct, flags, i, j);
      forall r | 0 <= r < i ensures RowDone(direct, flags, r) {
        assert old@Before(RowDone(direct, flags, r));
      }
      j := j + 1;
    }
  }

  /** The triple loop: the table of n layers becomes the transitive closure of the direct dependencies. */
  method DependencyClosure(direct: Dependencies, n: nat) returns (flags: array2<bool>)
    requires Downward(direct)
    ensures fresh(flags) && flags.Length0 == flags.Length1 == n
    ensures forall i, j :: 0 <= i < n && 0 <= j < n ==> flags[i, j] == Depends(direct, i, j)
  {
    flags := new bool[n, n]((i, j) => false);
    var i: nat := 0;
    while i < n
      invariant i <= n && forall r :: 0 <= r < i ==> RowDone(direct, flags, r)
    {
      CloseRow(direct, flags, i);
      i := i + 1;
    }
    forall i, j | 0 <= i < n && 0 <= j < n ensures flags[i, j] == Depends(direct, i, j) {
      assert RowDone(direct, flags, i);
    }
  }

  // ----- necessary layers -----

  /** Layer k of the set is needed by output layer j of the set. */
  ghost predicate NeededBy(direct: Dependencies, layers: seq<nat>, output: seq<bool>, k: nat, j: nat)
    requires j < |layers| == |output| && k < |layers|
  {
    output[j] && (k == j || (k < j && Depends(direct, layers[j], layers[k])))
  }

  /** Layer k is an output layer, or an output layer behind it in the set depends on it. */
  ghost predicate Necessary(direct: Dependencies, layers: seq<nat>, output: seq<bool>, k: nat)
    requires k < |layers| == |output|
  {
    exists j :: 0 <= j < |layers| && NeededBy(direct, layers, output, k, j)
  }

  /** The derivation of NecessaryLayerFlag for one output layer set; depends is the closed dependency table. */
  method NecessaryLayers(direct: Dependencies, depends: array2<bool>, layers: seq<nat>, output: seq<bool>)
    returns (necessary: seq<bool>)
    requires |layers| == |output|
    requires forall j :: 0 <= j < |layers| ==> layers[j] < depends.Length0 && layers[j] < depends.Length1
    requires forall i, j :: 0 <= i < depends.Length0 && 0 <= j < depends.Length1 ==>
               depends[i, j] == Depends(direct, i, j)
    ensures |necessary| == |layers|
    ensures forall k :: 0 <= k < |layers| ==> necessary[k] == Necessary(direct, layers, output, k)
  {
    necessary := seq(|layers|, _ => false);
    var j: nat := 0;
    while j < |layers|
      invariant j <= |layers| == |necessary|
      invariant forall k :: 0 <= k < |layers| ==>
                  (necessary[k] <==> exists i :: 0 <= i < j && NeededBy(direct, layers, output, k, i))
    {
      necessary := MarkNeeded(direct, depends, layers, output, j, necessary);
      j := j + 1;
    }
  }

  /** One round of the outer loop. */
  method MarkNeeded(direct: Dependencies, depends: array2<bool>, layers: seq<nat>, output: seq<bool>, j: nat,
                    before: seq<bool>)
    returns (necessary: seq<bool>)
    requires j < |layers| == |output| == |before|
    requires forall i :: 0 <= i < |layers| ==> layers[i] < depends.Length0 && layers[i] < depends.Length1
    requires forall a, b :: 0 <= a < depends.Length0 && 0 <= b < depends.Length1 ==>
               depends[a, b] == Depends(direct, a, b)
    requires forall k :: 0 <= k < |layers| ==>
               (before[k] <==> exists i :: 0 <= i < j && NeededBy(direct, layers, output, k, i))
    ensures |necessary| == |layers|
    ensures forall k :: 0 <= k < |layers| ==>
              (necessary[k] <==> exists i :: 0 <= i < j + 1 && NeededBy(direct, layers, output, k, i))
  {
    necessary := before;
    if output[j] {
      necessary := necessary[j := true];
      var k: nat := 0;
      while k < j
        invariant k <= j && |necessary| == |layers|
        invariant forall m :: 0 <= m < |layers| ==>
                    necessary[m] == (before[m] || ((m < k || m == j) && NeededBy(direct, layers, output, m, j)))
      {
        if depends[layers[j], layers[k]] {
          necessary := necessary[k := true];
        }
        k := k + 1;
      }
    }
    forall k | 0 <= k < |layers|
      ensures necessary[k] <==> exists i :: 0 <= i < j + 1 && NeededBy(direct, layers, output, k, i)
    {
      assert necessary[k] == (before[k] || NeededBy(direct, layers, output, k, j));
      if exists i :: 0 <= i < j + 1 && NeededBy(direct, layers, output, k, i) {
        var i :| 0 <= i < j + 1 && NeededBy(direct, layers, output, k, i);
        assert i < j || i == j;
      }
    }
  }

  /** The necessary layers contain the output layers, and with a layer all earlier ones that it depends on. */
  lemma NecessaryIsClosed(direct: Dependencies, layers: seq<nat>, output: seq<bool>, j: nat, k: nat)
    requires |layers| == |output| && j < |layers| && k < |layers|
    ensures output[j] ==> Necessary(direct, layers, output, j)
    ensures Necessary(direct, layers, output, j) && k < j && Depends(direct, layers[j], layers[k]) ==>
              Necessary(direct, layers, output, k)
  {
    if output[j] {
      assert NeededBy(direct, layers, output, j, j);
    }
    if Necessary(direct, layers, output, j) && k < j && Depends(direct, layers[j], layers[k]) {
      var i :| 0 <= i < |layers| && NeededBy(direct, layers, output, j, i);
      if i != j {
        Transitive(direct, layers[i], layers[j], layers[k]);
      }
      assert NeededBy(direct, layers, output, k, i);
    }
  }

  /** And they are the least such set: nothing else is in it. */
  lemma NecessaryIsLeast(direct: Dependencies, layers: seq<nat>, output: seq<bool>, other: seq<bool>, k: nat)
    requires |layers| == |output| == |other| && k < |layers|
    requires forall j :: 0 <= j < |layers| && output[j] ==> other[j]
    requires forall j, i :: 0 <= i < j < |layers| && other[j] && Depends(direct, layers[j], layers[i]) ==> other[i]
    ensures Necessary(direct, layers, output, k) ==> other[k]
  {
  }
}
