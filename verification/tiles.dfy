/**
 Tiles and configurations. A tile is placed at an axial coordinate, carries a
 valence ("pips"), the ids of the tiles it is bonded to ("connections") and the
 search driver's bond counter. A configuration is an ordered sequence of tiles.
 */
module Tiles {
  import opened Wrappers
  import opened Hex

  datatype Tile = Tile(id: int, q: int, r: int, pips: int, connections: seq<int>, currentBonds: int)
  {
    function Pos(): Coord
    {
      Coord(q, r)
    }
  }

  type Config = seq<Tile>

  /**
   `new Map(config.map(t => [t.id, t])).get(id)`: when several tiles carry the
   id, the map keeps the LAST of them.
   */
  function LookupById(config: Config, id: int): (r: Option<Tile>)
    ensures r.None? <==> forall i :: 0 <= i < |config| ==> config[i].id != id
    ensures r.Some? ==> r.value.id == id && r.value in config
    ensures r.Some? ==> exists i :: 0 <= i < |config| && config[i] == r.value
                                    && forall j :: i < j < |config| ==> config[j].id != id
  {
    if |config| == 0 then None
    else if config[|config| - 1].id == id then Some(config[|config| - 1])
    else
      var rest := LookupById(config[..|config| - 1], id);
      assert forall i :: 0 <= i < |config| - 1 ==> config[..|config| - 1][i] == config[i];
      rest
  }

  /** `config.find(t => t.id === id)`: the FIRST tile carrying the id. */
  function FindById(config: Config, id: int): (r: Option<Tile>)
    ensures r.None? <==> forall i :: 0 <= i < |config| ==> config[i].id != id
    ensures r.Some? ==> r.value.id == id && r.value in config
    ensures r.Some? ==> exists i :: 0 <= i < |config| && config[i] == r.value
                                    && forall j :: 0 <= j < i ==> config[j].id != id
  {
    if |config| == 0 then None
    else if config[0].id == id then Some(config[0])
    else
      var rest := FindById(config[1..], id);
      assert forall i :: 1 <= i < |config| ==> config[1..][i - 1] == config[i];
      rest
  }

  predicate DistinctIds(config: Config)
  {
    forall i, j :: 0 <= i < j < |config| ==> config[i].id != config[j].id
  }

  function Ids(config: Config): set<int>
  {
    set i | 0 <= i < |config| :: config[i].id
  }

  /** With distinct ids the two lookups agree and find the tile itself. */
  lemma LookupsAgree(config: Config, k: nat)
    requires DistinctIds(config) && k < |config|
    ensures LookupById(config, config[k].id) == Some(config[k])
    ensures FindById(config, config[k].id) == Some(config[k])
  {
    var id := config[k].id;
    var l := LookupById(config, id);
    var i :| 0 <= i < |config| && config[i] == l.value;
    assert i == k;
    var f := FindById(config, id);
    var i' :| 0 <= i' < |config| && config[i'] == f.value;
    assert i' == k;
  }

  /** With distinct ids the map lookup and `find` return the same tile for every id. */
  lemma LookupsAgreeAnyId(config: Config, id: int)
    requires DistinctIds(config)
    ensures LookupById(config, id) == FindById(config, id)
  {
    var f := FindById(config, id);
    if f.Some? {
      var k :| 0 <= k < |config| && config[k] == f.value;
      LookupsAgree(config, k);
    }
  }

  /** The sum of the pips of all tiles. */
  function PipSum(config: Config): int
  {
    if |config| == 0 then 0 else PipSum(config[..|config| - 1]) + config[|config| - 1].pips
  }
}
