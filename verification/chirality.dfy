/**
 Per-tile chirality: the bonded edges of a tile become a 6-character bit
 string, reduced to the smallest of its 6 rotations and 6 reflected rotations,
 then looked up in the table of named patterns.
 */
module Chirality {
  import opened Wrappers
  import opened Hex
  import opened Tiles
  import opened Text
  import opened Sorting
  import opened Validity

  /** JavaScript's `%`: the remainder takes the sign of the dividend. */
  function JsRem(a: int, m: int): (r: int)
    requires m > 0
    ensures a >= 0 ==> r == a % m
  {
    if a >= 0 then a % m else -((-a) % m)
  }

  /** The numeric comparator `(a, b) => a - b`, read as "a may come first". */
  function NumLe(a: int, b: int): bool
  {
    a <= b
  }

  lemma NumLeIsTotalOrder()
    ensures TotalPreorder(NumLe) && Antisymmetric(NumLe)
  {
  }

  predicate InRange(edges: seq<int>)
  {
    forall j :: 0 <= j < |edges| ==> 0 <= edges[j] < 6
  }

  /**
   One pass of the loop over the connections: the tile the id map holds for
   `c`, then the table's edge index for the offset to it. There is an edge
   exactly when the target is present and adjacent, and it is the direction of
   the target as seen from `t`.
   */
  function EdgeTo(config: Config, t: Tile, c: int): (e: Option<nat>)
    ensures e.Some? <==> LookupById(config, c).Some? && Distance(t.Pos(), LookupById(config, c).value.Pos()) == 1
    ensures e.Some? ==> e == RelativeDirection(t.Pos(), LookupById(config, c).value.Pos())
  {
    match LookupById(config, c)
    case None => None
    case Some(target) => EdgeIndexOfDelta(Delta(t.Pos(), target.Pos()))
  }

  /** The edge index of every connection whose target is in the id map and adjacent, in connection order. */
  function FoundEdges(config: Config, t: Tile, conns: seq<int>): (r: seq<int>)
    ensures InRange(r) && |r| <= |conns|
    decreases |conns|
  {
    if |conns| == 0 then []
    else
      var rest := FoundEdges(config, t, conns[1..]);
      match EdgeTo(config, t, conns[0])
      case None => rest
      case Some(e) => [e] + rest
  }

  /** Each found edge is the edge of one connection, and every connection's edge is found. */
  lemma {:induction false} FoundEdgesMembers(config: Config, t: Tile, conns: seq<int>)
    ensures forall e :: e in FoundEdges(config, t, conns) <==>
      exists j :: 0 <= j < |conns| && EdgeTo(config, t, conns[j]) == Some(e)
    decreases |conns|
  {
    if |conns| > 0 {
      var rest := conns[1..];
      FoundEdgesMembers(config, t, rest);
      forall e | e in FoundEdges(config, t, conns)
        ensures exists j :: 0 <= j < |conns| && EdgeTo(config, t, conns[j]) == Some(e)
      {
        if EdgeTo(config, t, conns[0]) != Some(e) {
          var j :| 0 <= j < |rest| && EdgeTo(config, t, rest[j]) == Some(e);
          assert conns[j + 1] == rest[j];
        }
      }
      forall e, j | 0 <= j < |conns| && EdgeTo(config, t, conns[j]) == Some(e)
        ensures e in FoundEdges(config, t, conns)
      {
        if j > 0 {
          assert rest[j - 1] == conns[j];
        }
      }
    }
  }

  /** When every target is present and adjacent, every connection contributes an edge. */
  lemma {:induction false} FoundEdgesAll(config: Config, t: Tile, conns: seq<int>)
    requires forall j :: 0 <= j < |conns| ==> EdgeTo(config, t, conns[j]).Some?
    ensures |FoundEdges(config, t, conns)| == |conns|
    decreases |conns|
  {
    if |conns| > 0 {
      assert forall j :: 0 <= j < |conns| - 1 ==> conns[1..][j] == conns[j + 1];
      FoundEdgesAll(config, t, conns[1..]);
    }
  }

  /** `getBondedEdgeIndices`: the found edge indices, sorted ascending. */
  function BondedEdgeIndices(t: Tile, config: Config): (r: seq<int>)
    ensures InRange(r) && SortedBy(r, NumLe)
    ensures multiset(r) == multiset(FoundEdges(config, t, t.connections))
    ensures |r| <= |t.connections|
  {
    var found := FoundEdges(config, t, t.connections);
    NumLeIsTotalOrder();
    SortSorted(found, NumLe);
    var r := Sort(found, NumLe);
    assert forall j :: 0 <= j < |r| ==> r[j] in multiset(found);
    r
  }

  /**
   The sorted indices are exactly the directions of the connections whose
   target is present and adjacent.
   */
  lemma BondedEdgeMembers(t: Tile, config: Config)
    ensures forall e :: e in BondedEdgeIndices(t, config) <==>
      exists j :: 0 <= j < |t.connections| && EdgeTo(config, t, t.connections[j]) == Some(e)
  {
    SameMembers(BondedEdgeIndices(t, config), FoundEdges(config, t, t.connections));
    FoundEdgesMembers(config, t, t.connections);
  }

  /**
   In a configuration with valid geometry and distinct ids, every connection of
   a tile contributes one edge index.
   */
  lemma BondedEdgeCount(config: Config, k: nat)
    requires k < |config| && GeometryHolds(config) && DistinctIds(config)
    ensures |BondedEdgeIndices(config[k], config)| == |config[k].connections|
  {
    var t := config[k];
    assert TileEdgesOk(config, t);
    forall j | 0 <= j < |t.connections|
      ensures EdgeTo(config, t, t.connections[j]).Some?
    {
      LookupsAgreeAnyId(config, t.connections[j]);
      assert BondDirection(config, t, t.connections[j]).Some?;
    }
    var found := FoundEdges(config, t, t.connections);
    FoundEdgesAll(config, t, t.connections);
    assert |multiset(BondedEdgeIndices(t, config))| == |multiset(found)|;
  }

  lemma SameMembers(a: seq<int>, b: seq<int>)
    requires multiset(a) == multiset(b)
    ensures forall x :: x in a <==> x in b
  {
    forall x ensures x in a <==> x in b {
      assert x in a <==> x in multiset(a);
      assert x in b <==> x in multiset(b);
    }
  }

  /** The 6-character string whose character i is '1' exactly when i is among `edges`. */
  function BitString(edges: seq<int>): string
  {
    seq(6, i => if i in edges then '1' else '0')
  }

  predicate IsBitString(s: string)
  {
    |s| == 6 && forall i :: 0 <= i < 6 ==> s[i] == '0' || s[i] == '1'
  }

  /** `edges.map(e => (e + k) % 6)`. */
  function Rotate(edges: seq<int>, k: int): seq<int>
  {
    seq(|edges|, j requires 0 <= j < |edges| => JsRem(edges[j] + k, 6))
  }

  /** `edges.map(e => (6 - e) % 6)`, before sorting. */
  function Mirror(edges: seq<int>): seq<int>
  {
    seq(|edges|, j requires 0 <= j < |edges| => JsRem(6 - edges[j], 6))
  }

  /** The reflected edge list, sorted. */
  function Reflect(edges: seq<int>): (r: seq<int>)
    ensures forall x :: x in r <==> x in Mirror(edges)
  {
    var r := Sort(Mirror(edges), NumLe);
    assert forall x :: x in r <==> x in multiset(r);
    r
  }

  /** Rotation i of the reflected list: character idx is '1' when (idx + i) % 6 is reflected. */
  function ReflectedBits(reflected: seq<int>, i: nat): string
  {
    seq(6, idx => if JsRem(idx + i, 6) in reflected then '1' else '0')
  }

  /**
   The twelve strings the source compares, in its order: the input pattern,
   its rotations by 1..5, then the six rotations of the reflected pattern.
   */
  function Candidates(edges: seq<int>): (c: seq<string>)
    ensures |c| == 12
    ensures forall j :: 0 <= j < 12 ==> IsBitString(c[j])
  {
    [BitString(edges)]
    + seq(5, k requires 0 <= k < 5 => BitString(Rotate(edges, k + 1)))
    + seq(6, i requires 0 <= i < 6 => ReflectedBits(Reflect(edges), i))
  }

  /** The running minimum: a candidate replaces the current one only when strictly smaller. */
  function RunningMin(cands: seq<string>, acc: string): (m: string)
    ensures m == acc || m in cands
    ensures LexLe(m, acc)
    ensures forall j :: 0 <= j < |cands| ==> LexLe(m, cands[j])
    decreases |cands|
  {
    if |cands| == 0 then
      LexLessIrreflexive(acc);
      acc
    else
      var next := if LexLess(cands[0], acc) then cands[0] else acc;
      var m := RunningMin(cands[1..], next);
      assert LexLe(next, acc) && LexLe(next, cands[0]) by {
        LexLeTotal(cands[0], acc);
        LexLessIrreflexive(acc);
        LexLessIrreflexive(cands[0]);
        if LexLess(cands[0], acc) {
          LexLessTrichotomy(cands[0], acc);
        }
      }
      LexLeTransitive(m, next, acc);
      LexLeTransitive(m, next, cands[0]);
      assert forall j :: 1 <= j < |cands| ==> cands[1..][j - 1] == cands[j];
      m
  }

  /**
   `getCanonicalChiralityString`: "NONE" for no edges, "INVALID" for more than
   six, otherwise the smallest of the twelve candidate strings.
   */
  function CanonicalChiralityString(edges: seq<int>): (s: string)
    ensures |edges| == 0 ==> s == "NONE"
    ensures |edges| > 6 ==> s == "INVALID"
    ensures 0 < |edges| <= 6 ==> s in Candidates(edges)
    ensures 0 < |edges| <= 6 ==> forall j :: 0 <= j < 12 ==> LexLe(s, Candidates(edges)[j])
  {
    if |edges| == 0 then "NONE"
    else if |edges| > 6 then "INVALID"
    else
      var c := Candidates(edges);
      var s := RunningMin(c[1..], c[0]);
      assert forall j :: 1 <= j < 12 ==> c[1..][j - 1] == c[j];
      s
  }

  /** The named patterns of `chiralityMap`. */
  const ChiralityNames: map<string, string> :=
    map["100000" := "A", "110000" := "AB", "101000" := "AC", "100100" := "AD",
        "111000" := "ABC", "110100" := "ABD", "101010" := "ACE"]

  /** `getChiralityForTile`: the table's name for the canonical string, else "CUSTOM". */
  function ChiralityForTile(t: Tile, config: Config): string
  {
    var s := CanonicalChiralityString(BondedEdgeIndices(t, config));
    if s in ChiralityNames then ChiralityNames[s] else "CUSTOM"
  }

  // ---------------------------------------------------------------------------
  // Properties of the canonical string

  lemma RotateDependsOnMembers(a: seq<int>, b: seq<int>, k: int, x: int)
    requires forall y :: y in a <==> y in b
    requires x in Rotate(a, k)
    ensures x in Rotate(b, k)
  {
    var j :| 0 <= j < |a| && Rotate(a, k)[j] == x;
    assert a[j] in b;
    var j' :| 0 <= j' < |b| && b[j'] == a[j];
    assert Rotate(b, k)[j'] == x;
  }

  lemma MirrorDependsOnMembers(a: seq<int>, b: seq<int>, x: int)
    requires forall y :: y in a <==> y in b
    requires x in Mirror(a)
    ensures x in Mirror(b)
  {
    var j :| 0 <= j < |a| && Mirror(a)[j] == x;
    assert a[j] in b;
    var j' :| 0 <= j' < |b| && b[j'] == a[j];
    assert Mirror(b)[j'] == x;
  }

  /** The candidate strings see the edge list only through membership. */
  lemma CandidatesDependOnMembers(a: seq<int>, b: seq<int>)
    requires forall x :: x in a <==> x in b
    ensures Candidates(a) == Candidates(b)
  {
    forall k | 1 <= k < 6
      ensures BitString(Rotate(a, k)) == BitString(Rotate(b, k))
    {
      forall x
        ensures x in Rotate(a, k) <==> x in Rotate(b, k)
      {
        if x in Rotate(a, k) {
          RotateDependsOnMembers(a, b, k, x);
        }
        if x in Rotate(b, k) {
          RotateDependsOnMembers(b, a, k, x);
        }
      }
    }
    forall x
      ensures x in Mirror(a) <==> x in Mirror(b)
    {
      if x in Mirror(a) {
        MirrorDependsOnMembers(a, b, x);
      }
      if x in Mirror(b) {
        MirrorDependsOnMembers(b, a, x);
      }
    }
    assert BitString(a) == BitString(b);
    forall j | 0 <= j < 12
      ensures Candidates(a)[j] == Candidates(b)[j]
    {
      if 6 <= j {
        assert ReflectedBits(Reflect(a), j - 6) == ReflectedBits(Reflect(b), j - 6);
      }
    }
  }

  /** The canonical string depends only on which indices occur (and on the two length guards). */
  lemma CanonicalDependsOnlyOnMembers(a: seq<int>, b: seq<int>)
    requires forall x :: x in a <==> x in b
    requires (|a| == 0) == (|b| == 0) && (|a| > 6) == (|b| > 6)
    ensures CanonicalChiralityString(a) == CanonicalChiralityString(b)
  {
    CandidatesDependOnMembers(a, b);
  }

  /**
   For in-range edges, character idx of candidate j is '1' exactly when the
   index Source(j, idx) is an edge: rotation j reads idx - j, reflected
   rotation i reads -idx - i (all mod 6).
   */
  function Source(j: int, idx: int): int
  {
    if j < 6 then (idx - j) % 6 else (-idx - (j - 6)) % 6
  }

  function Image(edges: seq<int>, j: int): string
  {
    seq(6, idx => if Source(j, idx) in edges then '1' else '0')
  }

  lemma RotateMember(edges: seq<int>, k: nat, x: int)
    requires InRange(edges) && 0 <= x < 6
    ensures x in Rotate(edges, k) <==> (x - k) % 6 in edges
  {
    if x in Rotate(edges, k) {
      var j :| 0 <= j < |edges| && Rotate(edges, k)[j] == x;
      RotateStep(edges[j], k, x);
    }
    if (x - k) % 6 in edges {
      var j :| 0 <= j < |edges| && edges[j] == (x - k) % 6;
      RotateStep(edges[j], k, x);
      assert Rotate(edges, k)[j] == x;
    }
  }

  /** Adding k and taking the residue is undone by subtracting k. */
  lemma RotateStep(e: int, k: nat, x: int)
    requires 0 <= e < 6 && 0 <= x < 6
    ensures JsRem(e + k, 6) == x <==> e == (x - k) % 6
  {
    ModSub(e + k, k);
    ModSub(x - k, -(k as int));
  }

  lemma MirrorMember(edges: seq<int>, x: int)
    requires InRange(edges) && 0 <= x < 6
    ensures x in Mirror(edges) <==> (-x) % 6 in edges
  {
    if x in Mirror(edges) {
      var j :| 0 <= j < |edges| && Mirror(edges)[j] == x;
      assert edges[j] == (-x) % 6;
    }
    if (-x) % 6 in edges {
      var j :| 0 <= j < |edges| && edges[j] == (-x) % 6;
      assert Mirror(edges)[j] == x;
    }
  }

  lemma DivMod6(a: int)
    ensures a == 6 * (a / 6) + a % 6 && 0 <= a % 6 < 6
  {
  }

  /** Two integers that differ by 6q have the same residue. */
  lemma SameResidueBy(a: int, b: int, q: int)
    requires a - b == 6 * q
    ensures a % 6 == b % 6
  {
    DivMod6(a);
    DivMod6(b);
    var d := (a / 6) - (b / 6) - q;
    assert 6 * d == b % 6 - a % 6;
  }

  lemma ModSub(a: int, b: int)
    ensures ((a % 6) - b) % 6 == (a - b) % 6
  {
    DivMod6(a);
    SameResidueBy((a % 6) - b, a - b, -(a / 6));
  }

  lemma ModNeg(a: int)
    ensures (-(a % 6)) % 6 == (-a) % 6
  {
    DivMod6(a);
    SameResidueBy(-(a % 6), -a, a / 6);
  }

  lemma CandidateIsImage(edges: seq<int>, j: nat)
    requires InRange(edges) && j < 12
    ensures Candidates(edges)[j] == Image(edges, j)
  {
    if j == 0 {
      assert Candidates(edges)[0] == BitString(edges);
    } else if j < 6 {
      assert Candidates(edges)[j] == BitString(Rotate(edges, j));
      RotationIsImage(edges, j);
    } else {
      assert Candidates(edges)[j] == ReflectedBits(Reflect(edges), j - 6);
      ReflectionIsImage(edges, j);
    }
  }

  lemma RotationIsImage(edges: seq<int>, j: nat)
    requires InRange(edges) && 0 < j < 6
    ensures BitString(Rotate(edges, j)) == Image(edges, j)
  {
    forall idx | 0 <= idx < 6
      ensures BitString(Rotate(edges, j))[idx] == Image(edges, j)[idx]
    {
      RotateMember(edges, j, idx);
    }
  }

  lemma ReflectionIsImage(edges: seq<int>, j: nat)
    requires InRange(edges) && 6 <= j < 12
    ensures ReflectedBits(Reflect(edges), j - 6) == Image(edges, j)
  {
    var bits, image := ReflectedBits(Reflect(edges), j - 6), Image(edges, j);
    forall idx | 0 <= idx < 6
      ensures bits[idx] == image[idx]
    {
      ReflectedBitAt(edges, j - 6, idx);
    }
    assert |bits| == 6 && |image| == 6;
  }

  /** Bit idx of reflected rotation i reads edge -idx - i. */
  lemma ReflectedBitAt(edges: seq<int>, i: int, idx: int)
    requires InRange(edges) && 0 <= i < 6 && 0 <= idx < 6
    ensures ReflectedBits(Reflect(edges), i)[idx] == Image(edges, i + 6)[idx]
  {
    var y := (idx + i) % 6;
    assert JsRem(idx + i, 6) == y;
    MirrorMember(edges, y);
    ModNeg(idx + i);
    assert -(idx + i) == -idx - i;
    assert Source(i + 6, idx) == (-idx - i) % 6;
  }

  lemma CandidatesAreImages(edges: seq<int>)
    requires InRange(edges)
    ensures forall j :: 0 <= j < 12 ==> Candidates(edges)[j] == Image(edges, j)
  {
    forall j | 0 <= j < 12
      ensures Candidates(edges)[j] == Image(edges, j)
    {
      CandidateIsImage(edges, j);
    }
  }

  /** Candidate sets that contain each other's strings have the same minimum. */
  lemma SameCandidatesSameString(a: seq<int>, b: seq<int>)
    requires 0 < |a| <= 6 && 0 < |b| <= 6
    requires forall j :: 0 <= j < 12 ==> Candidates(a)[j] in Candidates(b)
    requires forall j :: 0 <= j < 12 ==> Candidates(b)[j] in Candidates(a)
    ensures CanonicalChiralityString(a) == CanonicalChiralityString(b)
  {
    var ca := CanonicalChiralityString(a);
    var cb := CanonicalChiralityString(b);
    var i :| 0 <= i < 12 && Candidates(a)[i] == ca;
    var i' :| 0 <= i' < 12 && Candidates(b)[i'] == ca;
    var k :| 0 <= k < 12 && Candidates(b)[k] == cb;
    var k' :| 0 <= k' < 12 && Candidates(a)[k'] == cb;
    assert LexLe(cb, ca);
    assert LexLe(ca, cb);
    LexLeAntisymmetric(ca, cb);
  }

  /** Rotation j of the rotated input is rotation j + k of the input (reflected rotations likewise). */
  function RotatedIndex(j: int, k: int): int
  {
    if j < 6 then (j + k) % 6 else 6 + (j - 6 + k) % 6
  }

  /** Reflecting the input swaps plain and reflected rotations. */
  function MirroredIndex(j: int): int
  {
    if j < 6 then 6 + (-j) % 6 else (-(j - 6)) % 6
  }

  lemma SourceAfterRotation(j: nat, idx: int, k: nat)
    requires j < 12
    ensures (Source(j, idx) - k) % 6 == Source(RotatedIndex(j, k), idx)
  {
    if j < 6 {
      var m := (j + k) % 6;
      assert RotatedIndex(j, k) == m && m < 6;
      assert Source(j, idx) == (idx - j) % 6;
      RotationOfRotation(j, idx, k);
    } else {
      var i: int := j - 6;
      var m := (i + k) % 6;
      assert RotatedIndex(j, k) == 6 + m && 6 + m >= 6;
      assert Source(6 + m, idx) == (-idx - m) % 6;
      assert Source(j, idx) == (-idx - i) % 6;
      RotationOfReflection(i, idx, k);
    }
  }

  lemma RotationOfRotation(j: int, idx: int, k: nat)
    requires 0 <= j < 6
    ensures ((idx - j) % 6 - k) % 6 == (idx - (j + k) % 6) % 6
  {
    ModSub(idx - j, k);
    DivMod6(j + k);
    SameResidueBy(idx - j - k, idx - (j + k) % 6, -((j + k) / 6));
  }

  lemma RotationOfReflection(i: int, idx: int, k: nat)
    requires 0 <= i < 6
    ensures ((-idx - i) % 6 - k) % 6 == (-idx - (i + k) % 6) % 6
  {
    ModSub(-idx - i, k);
    DivMod6(i + k);
    SameResidueBy(-idx - i - k, -idx - (i + k) % 6, -((i + k) / 6));
  }

  lemma ImageOfRotation(edges: seq<int>, k: nat, j: nat)
    requires InRange(edges) && j < 12
    ensures Image(Rotate(edges, k), j) == Image(edges, RotatedIndex(j, k))
  {
    forall idx | 0 <= idx < 6
      ensures Image(Rotate(edges, k), j)[idx] == Image(edges, RotatedIndex(j, k))[idx]
    {
      RotateMember(edges, k, Source(j, idx));
      SourceAfterRotation(j, idx, k);
    }
  }

  lemma RotatedIndexInverse(j: nat, k: nat)
    requires j < 12
    ensures 0 <= RotatedIndex(j, 6 - k % 6) < 12
    ensures RotatedIndex(RotatedIndex(j, 6 - k % 6), k) == j
  {
    var m := k % 6;
    DivMod6(k);
    var i := if j < 6 then j else j - 6;
    DivMod6(i + 6 - m);
    var b := (i + 6 - m) % 6;
    SameResidueBy(b + k, i, 1 - (i + 6 - m) / 6 + k / 6);
  }

  lemma ImagesOfRotation(edges: seq<int>, k: nat)
    requires InRange(edges)
    ensures forall j :: 0 <= j < 12 ==> Image(Rotate(edges, k), j) == Image(edges, RotatedIndex(j, k))
  {
    forall j | 0 <= j < 12
      ensures Image(Rotate(edges, k), j) == Image(edges, RotatedIndex(j, k))
    {
      ImageOfRotation(edges, k, j);
    }
  }

  lemma SourceAfterMirror(j: nat, idx: int)
    requires j < 12
    ensures (-Source(j, idx)) % 6 == Source(MirroredIndex(j), idx)
  {
    if j < 6 {
      var m := (-(j as int)) % 6;
      assert MirroredIndex(j) == 6 + m && 6 + m >= 6;
      assert Source(6 + m, idx) == (-idx - m) % 6;
      MirrorOfRotation(j, idx);
    } else {
      var i: int := j - 6;
      var m := (-i) % 6;
      assert MirroredIndex(j) == m && m < 6;
      assert Source(j, idx) == (-idx - i) % 6;
      MirrorOfReflection(i, idx);
    }
  }

  lemma MirrorOfRotation(j: int, idx: int)
    requires 0 <= j < 6
    ensures (-((idx - j) % 6)) % 6 == (-idx - (-j) % 6) % 6
  {
    var n: int := -j;
    ModNeg(idx - j);
    DivMod6(n);
    SameResidueBy(j - idx, -idx - n % 6, -(n / 6));
  }

  lemma MirrorOfReflection(i: int, idx: int)
    requires 0 <= i < 6
    ensures (-((-idx - i) % 6)) % 6 == (idx - (-i) % 6) % 6
  {
    var n: int := -i;
    ModNeg(-idx - i);
    DivMod6(n);
    SameResidueBy(idx + i, idx - n % 6, -(n / 6));
  }

  lemma MirroredIndexInvolution(j: nat)
    requires j < 12
    ensures 0 <= MirroredIndex(j) < 12 && MirroredIndex(MirroredIndex(j)) == j
  {
  }

  lemma ImagesOfMirror(edges: seq<int>)
    requires InRange(edges)
    ensures forall j :: 0 <= j < 12 ==> Image(Mirror(edges), j) == Image(edges, MirroredIndex(j))
  {
    forall j | 0 <= j < 12
      ensures Image(Mirror(edges), j) == Image(edges, MirroredIndex(j))
    {
      forall idx | 0 <= idx < 6
        ensures Image(Mirror(edges), j)[idx] == Image(edges, MirroredIndex(j))[idx]
      {
        MirrorMember(edges, Source(j, idx));
        SourceAfterMirror(j, idx);
      }
    }
  }

  /** Rotating every bonded edge by k leaves the canonical string unchanged. */
  lemma CanonicalRotationInvariant(edges: seq<int>, k: nat)
    requires InRange(edges)
    ensures CanonicalChiralityString(Rotate(edges, k)) == CanonicalChiralityString(edges)
  {
    var rot := Rotate(edges, k);
    if 0 < |edges| <= 6 {
      assert InRange(rot);
      CandidatesAreImages(edges);
      CandidatesAreImages(rot);
      ImagesOfRotation(edges, k);
      forall j | 0 <= j < 12
        ensures Candidates(rot)[j] in Candidates(edges)
      {
        assert Candidates(rot)[j] == Candidates(edges)[RotatedIndex(j, k)];
      }
      forall j | 0 <= j < 12
        ensures Candidates(edges)[j] in Candidates(rot)
      {
        var back := RotatedIndex(j, 6 - k % 6);
        RotatedIndexInverse(j, k);
        assert Candidates(edges)[j] == Candidates(rot)[back];
      }
      SameCandidatesSameString(rot, edges);
    }
  }

  /** Reflecting every bonded edge (e to (6 - e) % 6) leaves the canonical string unchanged. */
  lemma CanonicalReflectionInvariant(edges: seq<int>)
    requires InRange(edges)
    ensures CanonicalChiralityString(Mirror(edges)) == CanonicalChiralityString(edges)
  {
    var mir := Mirror(edges);
    if 0 < |edges| <= 6 {
      assert InRange(mir);
      CandidatesAreImages(edges);
      CandidatesAreImages(mir);
      ImagesOfMirror(edges);
      forall j | 0 <= j < 12
        ensures Candidates(mir)[j] in Candidates(edges)
      {
        MirroredIndexInvolution(j);
        assert Candidates(mir)[j] == Candidates(edges)[MirroredIndex(j)];
      }
      forall j | 0 <= j < 12
        ensures Candidates(edges)[j] in Candidates(mir)
      {
        MirroredIndexInvolution(j);
        MirroredIndexInvolution(MirroredIndex(j));
        assert Candidates(edges)[j] == Candidates(mir)[MirroredIndex(j)];
      }
      SameCandidatesSameString(mir, edges);
    }
  }

  /** A pattern with at least one free edge has a canonical string starting with '0'. */
  lemma NonFullStartsWithZero(edges: seq<int>, m: int)
    requires InRange(edges) && 0 < |edges| <= 6
    requires 0 <= m < 6 && m !in edges
    ensures CanonicalChiralityString(edges)[0] == '0'
  {
    var j := (-m) % 6;
    CandidateIsImage(edges, j);
    ModNeg(-m);
    assert Source(j, 0) == m;
    assert Candidates(edges)[j][0] == '0';
    var c := CanonicalChiralityString(edges);
    assert IsBitString(c);
    LexLeFirstChar(c, Candidates(edges)[j]);
  }

  /** With all six edges bonded every candidate, hence the minimum, is "111111". */
  lemma FullIsAllOnes(edges: seq<int>)
    requires InRange(edges) && 0 < |edges| <= 6
    requires forall m :: 0 <= m < 6 ==> m in edges
    ensures CanonicalChiralityString(edges) == "111111"
  {
    CandidatesAreImages(edges);
    forall j | 0 <= j < 12
      ensures Candidates(edges)[j] == "111111"
    {
      assert forall idx :: 0 <= idx < 6 ==> 0 <= Source(j, idx) < 6;
    }
  }

  /** Every named pattern starts with '1'; "111111", "NONE" and "INVALID" have no name. */
  lemma ChiralityNameKeys()
    ensures forall k :: k in ChiralityNames ==> |k| == 6 && k[0] == '1'
    ensures "111111" !in ChiralityNames && "NONE" !in ChiralityNames && "INVALID" !in ChiralityNames
  {
  }

  /**
   The table lookup never succeeds: the canonical string is the lexicographic
   minimum, which starts with '0' unless all six edges are bonded, while every
   named pattern starts with '1'. So every tile's chirality is "CUSTOM".
   */
  lemma ChiralityIsAlwaysCustom(t: Tile, config: Config)
    ensures ChiralityForTile(t, config) == "CUSTOM"
  {
    var edges := BondedEdgeIndices(t, config);
    var s := CanonicalChiralityString(edges);
    ChiralityNameKeys();
    if 0 < |edges| <= 6 {
      if m :| 0 <= m < 6 && m !in edges {
        NonFullStartsWithZero(edges, m);
      } else {
        FullIsAllOnes(edges);
      }
    }
  }
}
