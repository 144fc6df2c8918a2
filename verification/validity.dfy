/**
 The three structural checks of the validator: an even pip sum, satisfied
 valency (bond counts, presence, adjacency, no repeats, mutuality) and
 geometry (no overlap, bonds only along distinct hex edges). Each check is
 written as the source's loop and is proved equal to a declarative definition.
 */
module Validity {
  import opened Wrappers
  import opened Hex
  import opened Tiles

  /** Handshake-lemma test: the pips add up to an even number. */
  function IsValidPipSum(config: Config): (ok: bool)
    ensures ok <==> exists k :: PipSum(config) == 2 * k
  {
    var ok := PipSum(config) % 2 == 0;
    assert ok ==> PipSum(config) == 2 * (PipSum(config) / 2);
    ok
  }

  // ---------------------------------------------------------------------------
  // Valency

  predicate NoDuplicates(s: seq<int>)
  {
    forall i, j :: 0 <= i < j < |s| ==> s[i] != s[j]
  }

  /** One bond of `t` to id `c`: the target exists, is adjacent and bonds back. */
  predicate BondOk(config: Config, t: Tile, c: int)
  {
    var target := LookupById(config, c);
    && target.Some?
    && Distance(t.Pos(), target.value.Pos()) == 1
    && t.id in target.value.connections
  }

  predicate TileValencyOk(config: Config, t: Tile)
  {
    && |t.connections| == t.pips
    && NoDuplicates(t.connections)
    && forall j :: 0 <= j < |t.connections| ==> BondOk(config, t, t.connections[j])
  }

  /** Declarative valency: every tile's pips are used by present, adjacent, distinct, mutual bonds. */
  ghost predicate ValencyHolds(config: Config)
  {
    forall i :: 0 <= i < |config| ==> TileValencyOk(config, config[i])
  }

  /** The inner loop over one tile's connections, with the set of neighbours already bonded. */
  function CheckConnections(config: Config, t: Tile, conns: seq<int>, bonded: set<int>): (ok: bool)
    ensures ok <==> && NoDuplicates(conns)
                    && (forall j :: 0 <= j < |conns| ==> conns[j] !in bonded && BondOk(config, t, conns[j]))
    decreases |conns|
  {
    if |conns| == 0 then true
    else
      assert forall j :: 1 <= j < |conns| ==> conns[1..][j - 1] == conns[j];
      match LookupById(config, conns[0])
      case None => false
      case Some(target) =>
        if Distance(t.Pos(), target.Pos()) != 1 then false
        else if target.id in bonded then false
        else if t.id !in target.connections then false
        else CheckConnections(config, t, conns[1..], bonded + {target.id})
  }

  function CheckValency(config: Config, tiles: seq<Tile>): (ok: bool)
    ensures ok <==> forall i :: 0 <= i < |tiles| ==> TileValencyOk(config, tiles[i])
    decreases |tiles|
  {
    if |tiles| == 0 then true
    else
      assert forall i :: 1 <= i < |tiles| ==> tiles[1..][i - 1] == tiles[i];
      if |tiles[0].connections| != tiles[0].pips then false
      else CheckConnections(config, tiles[0], tiles[0].connections, {}) && CheckValency(config, tiles[1..])
  }

  /** `isValencySatisfied`: true exactly when the declarative valency condition holds. */
  function IsValencySatisfied(config: Config): (ok: bool)
    ensures ok <==> ValencyHolds(config)
  {
    CheckValency(config, config)
  }

  // ---------------------------------------------------------------------------
  // Geometry

  predicate DistinctPositions(config: Config)
  {
    forall i, j :: 0 <= i < j < |config| ==> config[i].Pos() != config[j].Pos()
  }

  /** The edge a bond to id `c` leaves `t` by, when the target is found (`config.find`) and adjacent. */
  function BondDirection(config: Config, t: Tile, c: int): Option<nat>
  {
    match FindById(config, c)
    case None => None
    case Some(target) => RelativeDirection(t.Pos(), target.Pos())
  }

  predicate TileEdgesOk(config: Config, t: Tile)
  {
    && (forall j :: 0 <= j < |t.connections| ==> BondDirection(config, t, t.connections[j]).Some?)
    && (forall j, k :: 0 <= j < k < |t.connections| ==>
          BondDirection(config, t, t.connections[j]) != BondDirection(config, t, t.connections[k]))
  }

  /** Declarative geometry: no overlap, every bond found and adjacent, distinct edges per tile. */
  ghost predicate GeometryHolds(config: Config)
  {
    && DistinctPositions(config)
    && forall i :: 0 <= i < |config| ==> TileEdgesOk(config, config[i])
  }

  /** The overlap loop over `occupiedSpaces`. */
  function NoOverlap(tiles: seq<Tile>, occupied: set<Coord>): (ok: bool)
    ensures ok <==> && DistinctPositions(tiles)
                    && forall i :: 0 <= i < |tiles| ==> tiles[i].Pos() !in occupied
    decreases |tiles|
  {
    if |tiles| == 0 then true
    else
      assert forall i :: 1 <= i < |tiles| ==> tiles[1..][i - 1] == tiles[i];
      if tiles[0].Pos() in occupied then false
      else NoOverlap(tiles[1..], occupied + {tiles[0].Pos()})
  }

  /** Every bond in `conns` is found and adjacent, on an edge not in `edges` and not shared with another bond. */
  predicate FreshEdges(config: Config, t: Tile, conns: seq<int>, edges: set<nat>)
  {
    && (forall j :: 0 <= j < |conns| ==> BondDirection(config, t, conns[j]).Some?)
    && (forall j :: 0 <= j < |conns| ==> BondDirection(config, t, conns[j]).value !in edges)
    && (forall j, k :: 0 <= j < k < |conns| ==>
          BondDirection(config, t, conns[j]) != BondDirection(config, t, conns[k]))
  }

  /** Adding a first bond on a fresh edge keeps `FreshEdges`. */
  lemma FreshEdgesCons(config: Config, t: Tile, conns: seq<int>, edges: set<nat>, e: nat)
    requires |conns| > 0 && BondDirection(config, t, conns[0]) == Some(e) && e !in edges
    ensures FreshEdges(config, t, conns[1..], edges + {e}) ==> FreshEdges(config, t, conns, edges)
  {
    if !FreshEdges(config, t, conns[1..], edges + {e}) {
      return;
    }
    forall j | 0 <= j < |conns|
      ensures BondDirection(config, t, conns[j]).Some? && BondDirection(config, t, conns[j]).value !in edges
    {
      if j > 0 {
        assert conns[j] == conns[1..][j - 1];
      }
    }
    forall j, k | 0 <= j < k < |conns|
      ensures BondDirection(config, t, conns[j]) != BondDirection(config, t, conns[k])
    {
      assert conns[k] == conns[1..][k - 1];
      if j > 0 {
        assert conns[j] == conns[1..][j - 1];
      }
    }
  }

  /** Dropping the first bond of a `FreshEdges` list marks its edge as used. */
  lemma FreshEdgesTail(config: Config, t: Tile, conns: seq<int>, edges: set<nat>)
    requires |conns| > 0
    ensures FreshEdges(config, t, conns, edges) ==>
            && BondDirection(config, t, conns[0]).Some?
            && BondDirection(config, t, conns[0]).value !in edges
            && FreshEdges(config, t, conns[1..], edges + {BondDirection(config, t, conns[0]).value})
  {
    if !FreshEdges(config, t, conns, edges) {
      return;
    }
    assert BondDirection(config, t, conns[0]).Some?;
    var e := BondDirection(config, t, conns[0]).value;
    forall j | 0 <= j < |conns[1..]|
      ensures BondDirection(config, t, conns[1..][j]).value !in edges + {e}
    {
      assert conns[1..][j] == conns[j + 1];
      assert BondDirection(config, t, conns[0]) != BondDirection(config, t, conns[j + 1]);
    }
    forall j, k | 0 <= j < k < |conns[1..]|
      ensures BondDirection(config, t, conns[1..][j]) != BondDirection(config, t, conns[1..][k])
    {
      assert conns[1..][j] == conns[j + 1] && conns[1..][k] == conns[k + 1];
    }
  }

  /**
   The loop over one tile's connections with `actualBondedEdges`: None when it
   returns false early, otherwise the final edge set. Missing targets are
   skipped, so they only show up as a set smaller than the connection count.
   */
  function CollectEdges(config: Config, t: Tile, conns: seq<int>, edges: set<nat>): (r: Option<set<nat>>)
    ensures r.Some? ==> edges <= r.value && |r.value| <= |edges| + |conns|
    ensures (r.Some? && |r.value| == |edges| + |conns|) <==> FreshEdges(config, t, conns, edges)
    decreases |conns|
  {
    if |conns| == 0 then Some(edges)
    else
      FreshEdgesTail(config, t, conns, edges);
      match FindById(config, conns[0])
      case None =>
        assert BondDirection(config, t, conns[0]).None?;
        CollectEdges(config, t, conns[1..], edges)
      case Some(target) =>
        match RelativeDirection(t.Pos(), target.Pos())
        case None => None
        case Some(e) =>
          assert BondDirection(config, t, conns[0]) == Some(e);
          if e in edges then None
          else
            FreshEdgesCons(config, t, conns, edges, e);
            CollectEdges(config, t, conns[1..], edges + {e})
  }

  function CheckEdges(config: Config, tiles: seq<Tile>): (ok: bool)
    ensures ok <==> forall i :: 0 <= i < |tiles| ==> TileEdgesOk(config, tiles[i])
    decreases |tiles|
  {
    if |tiles| == 0 then true
    else
      assert forall i :: 1 <= i < |tiles| ==> tiles[1..][i - 1] == tiles[i];
      match CollectEdges(config, tiles[0], tiles[0].connections, {})
      case None => false
      case Some(es) =>
        if |es| != |tiles[0].connections| then false
        else CheckEdges(config, tiles[1..])
  }

  /** `isGeometricallyValid`: true exactly when the declarative geometry condition holds. */
  function IsGeometricallyValid(config: Config): (ok: bool)
    ensures ok <==> GeometryHolds(config)
  {
    NoOverlap(config, {}) && CheckEdges(config, config)
  }
}
