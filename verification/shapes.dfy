/**
 The shape classifier: per-tile degrees, the eight shape tests and the
 priority order in which `classifyShape` tries them. Tests that use the cycle
 search need every bond to name a tile (`Closed`), which valid configurations
 guarantee.
 */
module Shapes {
  import opened Wrappers
  import opened Hex
  import opened Tiles
  import opened Validity
  import opened BondGraph

  // ---------------------------------------------------------------------------
  // Degrees

  /** The distinct ids of a configuration in order of first occurrence (the key order of a JS Map). */
  function KeysInOrder(config: Config): (ks: seq<int>)
    ensures NoDuplicates(ks)
    ensures forall id :: id in ks <==> id in Ids(config)
  {
    if |config| == 0 then []
    else
      var front := config[..|config| - 1];
      var ks := KeysInOrder(front);
      assert Ids(config) == Ids(front) + {config[|config| - 1].id} by {
        forall id | id in Ids(config)
          ensures id in Ids(front) + {config[|config| - 1].id}
        {
          var i :| 0 <= i < |config| && config[i].id == id;
          if i < |config| - 1 {
            assert front[i] == config[i];
          }
        }
        forall id | id in Ids(front)
          ensures id in Ids(config)
        {
          var i :| 0 <= i < |front| && front[i].id == id;
          assert config[i] == front[i];
        }
      }
      if config[|config| - 1].id in ks then ks else ks + [config[|config| - 1].id]
  }

  /**
   `getNodeDegrees`: one entry per distinct id, in first-occurrence order,
   holding the connection count of the LAST tile with that id (a later
   `degrees.set` overwrites the value but keeps the key's position).
   */
  function NodeDegrees(config: Config): (ds: seq<nat>)
    ensures |ds| == |KeysInOrder(config)|
    ensures forall k :: 0 <= k < |ds| ==>
      var t := LookupById(config, KeysInOrder(config)[k]);
      t.Some? && ds[k] == |t.value.connections|
  {
    var ks := KeysInOrder(config);
    assert forall k :: 0 <= k < |ks| ==> LookupById(config, ks[k]).Some? by {
      forall k | 0 <= k < |ks|
        ensures LookupById(config, ks[k]).Some?
      {
        assert ks[k] in Ids(config);
        var i :| 0 <= i < |config| && config[i].id == ks[k];
      }
    }
    seq(|ks|, k requires 0 <= k < |ks| => |LookupById(config, ks[k]).value.connections|)
  }

  /** With distinct ids there is one degree per tile, in configuration order. */
  lemma {:induction false} KeysOfDistinct(config: Config)
    requires DistinctIds(config)
    ensures KeysInOrder(config) == seq(|config|, i requires 0 <= i < |config| => config[i].id)
  {
    if |config| > 0 {
      var front := config[..|config| - 1];
      assert DistinctIds(front);
      KeysOfDistinct(front);
      assert config[|config| - 1].id !in Ids(front);
    }
  }

  /** The connection count of every tile, in configuration order. */
  function PerTileDegrees(config: Config): (ds: seq<nat>)
    ensures |ds| == |config|
  {
    seq(|config|, i requires 0 <= i < |config| => |config[i].connections|)
  }

  /** With distinct ids the JS Map collapses nothing: one degree per tile, in configuration order. */
  lemma DegreesOfDistinct(config: Config)
    requires DistinctIds(config)
    ensures NodeDegrees(config) == PerTileDegrees(config)
  {
    KeysOfDistinct(config);
    forall i | 0 <= i < |config|
      ensures NodeDegrees(config)[i] == |config[i].connections|
    {
      LookupsAgree(config, i);
    }
  }

  /** How many degrees equal `v`. */
  function CountEq(ds: seq<nat>, v: nat): (n: nat)
    ensures n <= |ds|
    ensures n == |ds| <==> forall k :: 0 <= k < |ds| ==> ds[k] == v
    ensures n == 0 <==> forall k :: 0 <= k < |ds| ==> ds[k] != v
  {
    if |ds| == 0 then 0
    else
      assert forall k :: 1 <= k < |ds| ==> ds[1..][k - 1] == ds[k];
      (if ds[0] == v then 1 else 0) + CountEq(ds[1..], v)
  }

  /** How many degrees are at least `v`. */
  function CountAtLeast(ds: seq<nat>, v: nat): (n: nat)
    ensures n <= |ds|
    ensures n == |ds| <==> forall k :: 0 <= k < |ds| ==> ds[k] >= v
    ensures n == 0 <==> forall k :: 0 <= k < |ds| ==> ds[k] < v
  {
    if |ds| == 0 then 0
    else
      assert forall k :: 1 <= k < |ds| ==> ds[1..][k - 1] == ds[k];
      (if ds[0] >= v then 1 else 0) + CountAtLeast(ds[1..], v)
  }

  lemma {:induction false} CountAtLeastSplit(ds: seq<nat>, v: nat)
    ensures CountAtLeast(ds, v) == CountEq(ds, v) + CountAtLeast(ds, v + 1)
  {
    if |ds| > 0 {
      CountAtLeastSplit(ds[1..], v);
    }
  }

  // ---------------------------------------------------------------------------
  // The shape tests

  /** `isChain`: acyclic, exactly two degree-1 tiles, and every other tile of degree 2. */
  predicate IsChain(config: Config)
    requires Closed(config)
  {
    var ds := NodeDegrees(config);
    !HasCycle(config) && CountEq(ds, 1) == 2 && CountEq(ds, 1) + CountEq(ds, 2) == |config|
  }

  predicate IsTriangle(config: Config)
    requires Closed(config)
  {
    |config| == 3 && CountEq(NodeDegrees(config), 2) == |NodeDegrees(config)| && HasCycle(config)
  }

  predicate IsRing(config: Config)
    requires Closed(config)
  {
    |config| >= 4 && CountEq(NodeDegrees(config), 2) == |NodeDegrees(config)| && HasCycle(config)
  }

  /** `config.find(t => t.connections.length >= 3)`. */
  function FirstHub(config: Config): (r: Option<Tile>)
    ensures r.None? <==> forall i :: 0 <= i < |config| ==> |config[i].connections| < 3
    ensures r.Some? ==> |r.value.connections| >= 3 && r.value in config
  {
    if |config| == 0 then None
    else if |config[0].connections| >= 3 then Some(config[0])
    else
      assert forall i :: 1 <= i < |config| ==> config[1..][i - 1] == config[i];
      FirstHub(config[1..])
  }

  /**
   `isStar`: one degree of at least 3, every other degree 1, and every tile
   either shares the hub's id or is named in the hub's connections.
   */
  predicate IsStar(config: Config)
  {
    var ds := NodeDegrees(config);
    if |config| < 4 then false
    else if CountAtLeast(ds, 3) == 1 && CountEq(ds, 1) == |config| - 1 then
      match FirstHub(config)
      case None => false
      case Some(hub) => forall i :: 0 <= i < |config| ==> config[i].id == hub.id || config[i].id in hub.connections
    else false
  }

  /** `isSquare`: four tiles on a cycle with degrees 2:2:2:2, or with two of degree 2 and two of degree 3. */
  predicate IsSquare(config: Config)
    requires Closed(config)
  {
    var ds := NodeDegrees(config);
    if |config| != 4 then false
    else if CountEq(ds, 2) == |ds| && HasCycle(config) then true
    else CountEq(ds, 2) == 2 && CountEq(ds, 3) == 2 && HasCycle(config)
  }

  /** `isYShape`: three degree-1 tiles, one degree-3 tile, no cycle (no size test). */
  predicate IsYShape(config: Config)
    requires Closed(config)
  {
    var ds := NodeDegrees(config);
    CountEq(ds, 1) == 3 && CountEq(ds, 3) == 1 && !HasCycle(config)
  }

  /** `isArch`: acyclic, two degree-1 tiles, every other tile of degree at least 2. */
  predicate IsArch(config: Config)
    requires Closed(config)
  {
    var ds := NodeDegrees(config);
    !HasCycle(config) && CountEq(ds, 1) == 2 && CountEq(ds, 1) + CountAtLeast(ds, 2) == |config|
  }

  /** `isCluster`: more than three tiles and none of the other tests. */
  predicate IsCluster(config: Config)
    requires Closed(config)
  {
    |config| > 3
    && !IsChain(config) && !IsTriangle(config) && !IsRing(config) && !IsStar(config)
    && !IsSquare(config) && !IsYShape(config) && !IsArch(config)
  }

  const ShapeNames: set<string> := {"Triangle", "Chain", "Ring", "Star", "Square", "Y-Shape", "Arch", "Cluster", "Unknown"}

  /**
   `classifyShape`: the first test that holds, in the order Triangle, Chain,
   Ring, Star, Square, Y-Shape, Arch, Cluster.
   */
  function Classify(config: Config): (shape: string)
    requires Closed(config)
    ensures shape in ShapeNames
    ensures shape == "Unknown" ==> |config| <= 3
    ensures shape == "Square" ==>
      var ds := NodeDegrees(config);
      |config| == 4 && HasCycle(config) && CountEq(ds, 2) == 2 && CountEq(ds, 3) == 2
    ensures shape == "Arch" ==> !HasCycle(config) && CountAtLeast(NodeDegrees(config), 3) >= 1
    ensures shape == "Cluster" ==> |config| > 3
  {
    CountAtLeastSplit(NodeDegrees(config), 2);
    if IsTriangle(config) then "Triangle"
    else if IsChain(config) then "Chain"
    else if IsRing(config) then "Ring"
    else if IsStar(config) then "Star"
    else if IsSquare(config) then "Square"
    else if IsYShape(config) then "Y-Shape"
    else if IsArch(config) then "Arch"
    else if IsCluster(config) then "Cluster"
    else "Unknown"
  }

  // ---------------------------------------------------------------------------
  // Classification of valid configurations

  /** A valid bond from tile i is mirrored in the target's adjacency list. */
  lemma ValidBondMirrored(config: Config, i: nat, b: int)
    requires DistinctIds(config) && ValencyHolds(config)
    requires i < |config| && b in config[i].connections
    ensures b in BuildAdjacency(config) && config[i].id in BuildAdjacency(config)[b]
  {
    var j :| 0 <= j < |config[i].connections| && config[i].connections[j] == b;
    assert TileValencyOk(config, config[i]);
    assert BondOk(config, config[i], b);
    var target := LookupById(config, b).value;
    var k :| 0 <= k < |config| && config[k] == target;
    AdjacencyOfDistinct(config, k);
  }

  /** A valid bond never targets the tile itself: the target is at distance 1. */
  lemma ValidBondNotSelf(config: Config, i: nat)
    requires DistinctIds(config) && ValencyHolds(config) && i < |config|
    ensures config[i].id !in config[i].connections
  {
    LookupsAgree(config, i);
    assert Distance(config[i].Pos(), config[i].Pos()) == 0;
    assert TileValencyOk(config, config[i]);
    forall j | 0 <= j < |config[i].connections|
      ensures config[i].connections[j] != config[i].id
    {
      assert BondOk(config, config[i], config[i].connections[j]);
    }
  }

  /** Valid bonds (present, adjacent, mutual) between tiles with distinct ids form an undirected graph. */
  lemma ValidBondsUndirected(config: Config)
    requires DistinctIds(config) && ValencyHolds(config)
    ensures Closed(config) && Undirected(BuildAdjacency(config))
  {
    var adj := BuildAdjacency(config);
    forall i, j | 0 <= i < |config| && 0 <= j < |config[i].connections|
      ensures config[i].connections[j] in Ids(config)
    {
      assert TileValencyOk(config, config[i]);
      assert BondOk(config, config[i], config[i].connections[j]);
    }
    forall a, b | a in adj && b in adj[a]
      ensures b in adj && a in adj[b]
    {
      var i :| 0 <= i < |config| && config[i].id == a;
      AdjacencyOfDistinct(config, i);
      ValidBondMirrored(config, i, b);
    }
    forall a | a in adj
      ensures a !in adj[a]
    {
      var i :| 0 <= i < |config| && config[i].id == a;
      AdjacencyOfDistinct(config, i);
      ValidBondNotSelf(config, i);
    }
  }

  /**
   For a valid configuration of at least three tiles, the cycle test is exact
   on the first tile's component: true iff a cycle is reachable from it.
   */
  lemma ValidHasCycleIff(config: Config)
    requires DistinctIds(config) && ValencyHolds(config) && |config| >= 3
    ensures Closed(config)
    ensures HasCycle(config) <==>
      exists c, p :: IsCycle(BuildAdjacency(config), c) && Reaches(BuildAdjacency(config), config[0].id, c[0], p)
  {
    ValidBondsUndirected(config);
    HasCycleIff(config);
  }

  /**
   Four or more tiles on a found cycle, each with two bonds, are a Ring. With
   four tiles this is the 2,2,2,2 case that `isSquare` also accepts, so that
   case of `isSquare` is never the one that decides.
   */
  lemma RingBeforeSquare(config: Config)
    requires DistinctIds(config) && Closed(config) && |config| >= 4 && HasCycle(config)
    requires forall i :: 0 <= i < |config| ==> |config[i].connections| == 2
    ensures Classify(config) == "Ring"
  {
    DegreesOfDistinct(config);
    assert CountEq(NodeDegrees(config), 2) == |NodeDegrees(config)|;
  }

  // ---------------------------------------------------------------------------
  // A connected valid configuration is never an Arch

  /** Every tile can be reached from the first one along bonds. */
  ghost predicate Connected(config: Config)
  {
    forall i :: 0 <= i < |config| ==> exists p :: Reaches(BuildAdjacency(config), config[0].id, config[i].id, p)
  }

  function SumDegrees(ds: seq<nat>): nat
  {
    if |ds| == 0 then 0 else ds[0] + SumDegrees(ds[1..])
  }

  /** A degree d adds at least one for each of d >= 1, d >= 2 and d >= 3. */
  lemma {:induction false} SumAtLeastCounts(ds: seq<nat>)
    ensures SumDegrees(ds) >= CountAtLeast(ds, 1) + CountAtLeast(ds, 2) + CountAtLeast(ds, 3)
  {
    if |ds| > 0 {
      SumAtLeastCounts(ds[1..]);
    }
  }

  /** The bonds of a configuration as (tile id, target id) pairs. */
  function BondPairs(config: Config): set<(int, int)>
  {
    if |config| == 0 then {}
    else Tagged(config[0].id, config[0].connections) + BondPairs(config[1..])
  }

  function Tagged(id: int, s: seq<int>): set<(int, int)>
  {
    set w | w in s :: (id, w)
  }

  lemma {:induction false} TaggedCard(id: int, s: seq<int>)
    requires NoDuplicates(s)
    ensures |Tagged(id, s)| == |s|
  {
    if |s| > 0 {
      var rest := s[1..];
      assert NoDuplicates(rest) by {
        forall i, j | 0 <= i < j < |rest|
          ensures rest[i] != rest[j]
        {
          assert rest[i] == s[i + 1] && rest[j] == s[j + 1];
        }
      }
      TaggedCard(id, rest);
      assert s[0] !in rest by {
        forall j | 0 <= j < |rest|
          ensures rest[j] != s[0]
        {
          assert rest[j] == s[j + 1];
        }
      }
      assert Tagged(id, s) == Tagged(id, rest) + {(id, s[0])} by {
        assert s == [s[0]] + rest;
      }
    }
  }

  lemma {:induction false} BondPairsMember(config: Config, z: int, w: int)
    requires (z, w) in BondPairs(config)
    ensures exists i :: 0 <= i < |config| && config[i].id == z && w in config[i].connections
  {
    if (z, w) in Tagged(config[0].id, config[0].connections) {
      assert config[0].id == z && w in config[0].connections;
    } else {
      BondPairsMember(config[1..], z, w);
      var i :| 0 <= i < |config[1..]| && config[1..][i].id == z && w in config[1..][i].connections;
      assert config[i + 1] == config[1..][i];
    }
  }

  /** With distinct ids and no repeated bond in a tile, there are as many pairs as the degrees add up to. */
  lemma {:induction false} BondPairsCard(config: Config)
    requires DistinctIds(config)
    requires forall i :: 0 <= i < |config| ==> NoDuplicates(config[i].connections)
    ensures |BondPairs(config)| == SumDegrees(PerTileDegrees(config))
  {
    if |config| > 0 {
      var rest := config[1..];
      assert forall i :: 0 <= i < |rest| ==> rest[i] == config[i + 1];
      BondPairsCard(rest);
      TaggedCard(config[0].id, config[0].connections);
      assert PerTileDegrees(config)[1..] == PerTileDegrees(rest);
      forall w | (config[0].id, w) in BondPairs(rest)
        ensures false
      {
        BondPairsMember(rest, config[0].id, w);
      }
      assert Tagged(config[0].id, config[0].connections) !! BondPairs(rest);
    }
  }

  /** Each tile other than the root paired with its parent. */
  function UpPairs(kids: set<int>, par: map<int, int>): set<(int, int)>
    requires kids <= par.Keys
  {
    set z | z in kids :: (z, par[z])
  }

  /** Each parent paired with its child. */
  function DownPairs(kids: set<int>, par: map<int, int>): set<(int, int)>
    requires kids <= par.Keys
  {
    set w | w in kids :: (par[w], w)
  }

  lemma {:induction false} UpPairsCard(kids: set<int>, par: map<int, int>)
    requires kids <= par.Keys
    ensures |UpPairs(kids, par)| <= |kids|
    decreases |kids|
  {
    if kids != {} {
      var x := Pick(kids);
      var rest := kids - {x};
      UpPairsCard(rest, par);
      assert UpPairs(kids, par) == UpPairs(rest, par) + {(x, par[x])};
    }
  }

  lemma {:induction false} DownPairsCard(kids: set<int>, par: map<int, int>)
    requires kids <= par.Keys
    ensures |DownPairs(kids, par)| <= |kids|
    decreases |kids|
  {
    if kids != {} {
      var x := Pick(kids);
      var rest := kids - {x};
      DownPairsCard(rest, par);
      assert DownPairs(kids, par) == DownPairs(rest, par) + {(par[x], x)};
    }
  }

  lemma Pick<T>(s: set<T>) returns (x: T)
    requires s != {}
    ensures x in s
  {
    x :| x in s;
  }

  lemma {:induction false} SubsetCard<T>(a: set<T>, b: set<T>)
    requires a <= b
    ensures |a| <= |b|
    decreases |a|
  {
    if |a| > 0 {
      var x :| x in a;
      SubsetCard(a - {x}, b - {x});
    }
  }

  /** A bond out of a tree in which every bond is a tree edge joins a tile and its parent. */
  lemma PairIsTreeEdge(adj: Adjacency, n: set<int>, root: int, par: map<int, int>, depth: map<int, nat>, z: int, w: int)
    requires TreeOn(n, root, par, depth) && TreeEdges(adj, n, root, None, par)
    requires z in n && z in adj && w in adj[z]
    ensures (z, w) in UpPairs(n - {root}, par) + DownPairs(n - {root}, par)
  {
    var kids := n - {root};
    if z != root && w == par[z] {
      assert z in kids;
    } else {
      assert w in kids && z == par[w];
    }
  }

  /**
   When every bond out of a tree is a tree edge, the bond pairs out of its
   tiles are each a tile with its parent or a parent with its child: at most
   2(|n| - 1) of them.
   */
  lemma TreePairsBound(adj: Adjacency, n: set<int>, root: int, par: map<int, int>, depth: map<int, nat>, pairs: set<(int, int)>)
    requires TreeOn(n, root, par, depth) && TreeEdges(adj, n, root, None, par)
    requires forall e :: e in pairs ==> e.0 in n && e.0 in adj && e.1 in adj[e.0]
    ensures |pairs| <= 2 * (|n| - 1)
  {
    var kids := n - {root};
    var up, down := UpPairs(kids, par), DownPairs(kids, par);
    forall e | e in pairs
      ensures e in up + down
    {
      PairIsTreeEdge(adj, n, root, par, depth, e.0, e.1);
    }
    SubsetCard(pairs, up + down);
    UpPairsCard(kids, par);
    DownPairsCard(kids, par);
    assert |up + down| <= |up| + |down|;
  }

  lemma {:induction false} IdsCard(config: Config)
    ensures |Ids(config)| <= |config|
  {
    if |config| > 0 {
      var front := config[..|config| - 1];
      IdsCard(front);
      assert Ids(config) <= Ids(front) + {config[|config| - 1].id} by {
        forall id | id in Ids(config)
          ensures id in Ids(front) + {config[|config| - 1].id}
        {
          var i :| 0 <= i < |config| && config[i].id == id;
          if i < |config| - 1 {
            assert front[i] == config[i];
          }
        }
      }
      SubsetCard(Ids(config), Ids(front) + {config[|config| - 1].id});
    }
  }

  /** Two degrees of 1, the rest at least 2 and one at least 3: at least three degrees, adding up to 2n - 1 or more. */
  lemma ArchDegrees(ds: seq<nat>)
    requires CountEq(ds, 1) == 2 && CountEq(ds, 1) + CountAtLeast(ds, 2) == |ds| && CountAtLeast(ds, 3) >= 1
    ensures |ds| >= 3 && SumDegrees(ds) >= 2 * |ds| - 1
  {
    CountAtLeastSplit(ds, 1);
    CountAtLeastSplit(ds, 2);
    SumAtLeastCounts(ds);
    var n, e1, e2 := |ds|, CountEq(ds, 1), CountEq(ds, 2);
    var a1, a2, a3 := CountAtLeast(ds, 1), CountAtLeast(ds, 2), CountAtLeast(ds, 3);
    assert a1 == e1 + a2 && a2 == e2 + a3;
    assert a1 == n && a2 == n - 2;
  }

  /** An Arch has at least three tiles, no cycle found, and degrees adding up to at least 2n - 1. */
  lemma ArchDegreeSum(config: Config)
    requires DistinctIds(config) && Closed(config) && Classify(config) == "Arch"
    ensures |config| >= 3 && !HasCycle(config) && SumDegrees(PerTileDegrees(config)) >= 2 * |config| - 1
  {
    assert IsArch(config);
    DegreesOfDistinct(config);
    ArchDegrees(NodeDegrees(config));
  }

  /**
   On symmetric bonds, a search from the first tile that finds no cycle builds
   a tree over the tiles it visits, closed under bonds, in which every bond is
   a tree edge.
   */
  lemma SearchTree(config: Config) returns (n: set<int>, par: map<int, int>, depth: map<int, nat>)
    requires Closed(config) && Undirected(BuildAdjacency(config)) && |config| >= 3 && !HasCycle(config)
    ensures TreeOn(n, config[0].id, par, depth) && TreeEdges(BuildAdjacency(config), n, config[0].id, None, par)
    ensures forall z, w :: z in n && z in BuildAdjacency(config) && w in BuildAdjacency(config)[z] ==> w in n
    ensures n <= Ids(config)
  {
    var adj := BuildAdjacency(config);
    var root := config[0].id;
    NeverCrashes(config);
    assert root in Ids(config);
    assert StackOk(adj, [] + [root], None, {} + {root});
    par, depth := DfsComplete(adj, root, None, {}, []);
    var r := Dfs(adj, root, None, {}, []);
    n := r.visited - {};
    RootTreeClosed(adj, root, r.visited, par, depth);
    assert adj.Keys == Ids(config);
    forall z | z in n
      ensures z in Ids(config)
    {
      assert z in adj;
    }
  }

  /** In a connected configuration the search's tree covers every tile. */
  lemma ConnectedTree(config: Config) returns (n: set<int>, par: map<int, int>, depth: map<int, nat>)
    requires Closed(config) && Undirected(BuildAdjacency(config)) && |config| >= 3 && !HasCycle(config)
    requires Connected(config)
    ensures TreeOn(n, config[0].id, par, depth) && TreeEdges(BuildAdjacency(config), n, config[0].id, None, par)
    ensures forall i :: 0 <= i < |config| ==> config[i].id in n
    ensures n <= Ids(config)
  {
    var adj := BuildAdjacency(config);
    n, par, depth := SearchTree(config);
    forall i | 0 <= i < |config|
      ensures config[i].id in n
    {
      var p :| Reaches(adj, config[0].id, config[i].id, p);
      WalkStaysIn(adj, n, p, |p| - 1);
    }
  }

  /** A valid connected configuration with no cycle found has degrees adding up to at most 2(n - 1). */
  lemma ConnectedDegreeSum(config: Config)
    requires DistinctIds(config) && ValencyHolds(config) && Connected(config) && |config| >= 3
    requires Closed(config) && !HasCycle(config)
    ensures SumDegrees(PerTileDegrees(config)) <= 2 * (|config| - 1)
  {
    ValidBondsUndirected(config);
    var adj := BuildAdjacency(config);
    var n, par, depth := ConnectedTree(config);
    var pairs := BondPairs(config);
    forall e | e in pairs
      ensures e.0 in n && e.0 in adj && e.1 in adj[e.0]
    {
      BondPairsMember(config, e.0, e.1);
      var i :| 0 <= i < |config| && config[i].id == e.0 && e.1 in config[i].connections;
      AdjacencyOfDistinct(config, i);
    }
    TreePairsBound(adj, n, config[0].id, par, depth, pairs);
    forall i | 0 <= i < |config|
      ensures NoDuplicates(config[i].connections)
    {
      assert TileValencyOk(config, config[i]);
    }
    BondPairsCard(config);
    SubsetCard(n, Ids(config));
    IdsCard(config);
  }

  /**
   A valid configuration whose tiles can all be reached from the first one is
   never classified "Arch". With no cycle found, its bonds form a tree, so its
   degrees add up to 2(n - 1); an Arch's add up to at least 2n - 1.
   */
  lemma ConnectedNeverArch(config: Config)
    requires DistinctIds(config) && ValencyHolds(config) && Connected(config)
    ensures Closed(config) && Classify(config) != "Arch"
  {
    ValidBondsUndirected(config);
    if Classify(config) == "Arch" {
      ArchDegreeSum(config);
      ConnectedDegreeSum(config);
    }
  }

  // ---------------------------------------------------------------------------
  // Examples

  /** Three mutually adjacent tiles, each bonded to the other two. */
  const TriangleConfig: Config := [Tile(1, 0, 0, 2, [2, 3], 0), Tile(2, 1, 0, 2, [1, 3], 0), Tile(3, 0, 1, 2, [1, 2], 0)]

  /** Three tiles in a row. */
  const RowConfig: Config := [Tile(1, 0, 0, 1, [2], 0), Tile(2, 1, 0, 2, [1, 3], 0), Tile(3, 2, 0, 1, [2], 0)]

  /** Tiles numbered lo, lo+1, ...: distinct ids, and tile k's adjacency list is its own bond list. */
  lemma NumberedAdjacency(c: Config, lo: int, k: nat)
    requires forall i :: 0 <= i < |c| ==> c[i].id == lo + i
    requires k < |c|
    ensures DistinctIds(c)
    ensures c[k].id in BuildAdjacency(c) && BuildAdjacency(c)[c[k].id] == c[k].connections
  {
    assert forall i, j :: 0 <= i < j < |c| ==> c[i].id != c[j].id by {
      forall i, j | 0 <= i < j < |c|
        ensures c[i].id != c[j].id
      {
        assert c[i].id == lo + i && c[j].id == lo + j;
      }
    }
    AdjacencyOfDistinct(c, k);
  }

  lemma TriangleSearch(adj: Adjacency)
    requires 1 in adj && 2 in adj && 3 in adj
    requires adj[1] == [2, 3] && adj[2] == [1, 3] && adj[3] == [1, 2]
    ensures Dfs(adj, 1, None, {}, []) == CycleFound
  {
    assert Scan(adj, 3, Some(2), [1, 2], {1, 2, 3}, [1, 2, 3]) == CycleFound;
    assert [1, 2] + [3] == [1, 2, 3] && {1, 2} + {3} == {1, 2, 3};
    assert Dfs(adj, 3, Some(2), {1, 2}, [1, 2]) == CycleFound;
    assert Scan(adj, 2, Some(1), [3], {1, 2}, [1, 2]) == CycleFound;
    assert [1, 3][1..] == [3];
    assert Scan(adj, 2, Some(1), [1, 3], {1, 2}, [1, 2]) == CycleFound;
    assert [1] + [2] == [1, 2] && {1} + {2} == {1, 2};
    assert Dfs(adj, 2, Some(1), {1}, [1]) == CycleFound;
    assert Scan(adj, 1, None, [2, 3], {1}, [1]) == CycleFound;
    assert [] + [1] == [1] && {} + {1} == {1};
  }

  lemma RowSearch(adj: Adjacency)
    requires 1 in adj && 2 in adj && 3 in adj
    requires adj[1] == [2] && adj[2] == [1, 3] && adj[3] == [2]
    ensures Dfs(adj, 1, None, {}, []) == Finished({1, 2, 3})
  {
    assert [2][1..] == [];
    assert Scan(adj, 3, Some(2), [2], {1, 2, 3}, [1, 2, 3]) == Finished({1, 2, 3});
    assert [1, 2] + [3] == [1, 2, 3] && {1, 2} + {3} == {1, 2, 3};
    assert Dfs(adj, 3, Some(2), {1, 2}, [1, 2]) == Finished({1, 2, 3});
    assert Scan(adj, 2, Some(1), [3], {1, 2}, [1, 2]) == Finished({1, 2, 3});
    assert [1, 3][1..] == [3];
    assert Scan(adj, 2, Some(1), [1, 3], {1, 2}, [1, 2]) == Finished({1, 2, 3});
    assert [1] + [2] == [1, 2] && {1} + {2} == {1, 2};
    assert Dfs(adj, 2, Some(1), {1}, [1]) == Finished({1, 2, 3});
    assert Scan(adj, 1, None, [2], {1}, [1]) == Finished({1, 2, 3});
    assert [] + [1] == [1] && {} + {1} == {1};
  }

  /** Three tiles on a cycle, all of degree 2, form a Triangle. */
  lemma TriangleByDegrees(config: Config)
    requires Closed(config) && HasCycle(config) && |config| == 3 && NodeDegrees(config) == [2, 2, 2]
    ensures Classify(config) == "Triangle"
  {
    var ds: seq<nat> := [2, 2, 2];
    assert CountEq(ds, 2) == 3;
  }

  /** Three tiles with no cycle found and degrees 1, 2, 1 form a Chain. */
  lemma ChainByDegrees(config: Config)
    requires Closed(config) && !HasCycle(config) && |config| == 3 && NodeDegrees(config) == [1, 2, 1]
    ensures Classify(config) == "Chain"
  {
    var ds: seq<nat> := [1, 2, 1];
    assert CountEq(ds, 1) == 2 && CountEq(ds, 2) == 1;
  }

  lemma TriangleFound()
    ensures Closed(TriangleConfig) && CycleSearch(TriangleConfig) == CycleFound
  {
    var c := TriangleConfig;
    assert forall k :: 0 <= k < |c| ==> c[k].id == 1 + k;
    NumberedAdjacency(c, 1, 0);
    NumberedAdjacency(c, 1, 1);
    NumberedAdjacency(c, 1, 2);
    TriangleSearch(BuildAdjacency(c));
    ClosedWhenNumbered(c, 1);
  }

  lemma TriangleDegrees()
    ensures NodeDegrees(TriangleConfig) == [2, 2, 2]
  {
    var c := TriangleConfig;
    assert c[0].id == 1 && c[1].id == 2 && c[2].id == 3;
    DegreesOfDistinct(c);
    assert PerTileDegrees(c) == [2, 2, 2];
  }

  lemma TriangleExample()
    ensures Closed(TriangleConfig) && HasCycle(TriangleConfig) && Classify(TriangleConfig) == "Triangle"
  {
    TriangleFound();
    TriangleDegrees();
    TriangleByDegrees(TriangleConfig);
  }

  lemma RowFinished()
    ensures Closed(RowConfig) && CycleSearch(RowConfig) == Finished({1, 2, 3})
  {
    var c := RowConfig;
    assert forall k :: 0 <= k < |c| ==> c[k].id == 1 + k;
    NumberedAdjacency(c, 1, 0);
    NumberedAdjacency(c, 1, 1);
    NumberedAdjacency(c, 1, 2);
    RowSearch(BuildAdjacency(c));
    ClosedWhenNumbered(c, 1);
  }

  lemma RowDegrees()
    ensures NodeDegrees(RowConfig) == [1, 2, 1]
  {
    var c := RowConfig;
    assert c[0].id == 1 && c[1].id == 2 && c[2].id == 3;
    DegreesOfDistinct(c);
    assert PerTileDegrees(c) == [1, 2, 1];
  }

  lemma RowExample()
    ensures Closed(RowConfig) && !HasCycle(RowConfig) && Classify(RowConfig) == "Chain"
  {
    RowFinished();
    RowDegrees();
    ChainByDegrees(RowConfig);
  }

  /**
   A domino followed by a rhombus of four tiles: two bond components. The
   rhombus holds the cycle 3-4-5, but the search starts in the domino.
   */
  const DominoAndRhombus: Config := [
    Tile(1, 5, 0, 1, [2], 0), Tile(2, 6, 0, 1, [1], 0),
    Tile(3, 0, 0, 2, [4, 5], 0), Tile(4, 1, 0, 3, [3, 5, 6], 0),
    Tile(5, 0, 1, 3, [3, 4, 6], 0), Tile(6, 1, 1, 2, [4, 5], 0)]

  lemma DominoAndRhombusAdjacency()
    ensures DistinctIds(DominoAndRhombus)
    ensures var adj := BuildAdjacency(DominoAndRhombus);
      && 1 in adj && 2 in adj && 3 in adj && 4 in adj && 5 in adj
      && adj[1] == [2] && adj[2] == [1] && adj[3] == [4, 5] && adj[4] == [3, 5, 6] && adj[5] == [3, 4, 6]
  {
    var c := DominoAndRhombus;
    assert forall k :: 0 <= k < |c| ==> c[k].id == 1 + k;
    NumberedAdjacency(c, 1, 0);
    NumberedAdjacency(c, 1, 1);
    NumberedAdjacency(c, 1, 2);
    NumberedAdjacency(c, 1, 3);
    NumberedAdjacency(c, 1, 4);
  }

  lemma DominoSearch(adj: Adjacency)
    requires 1 in adj && 2 in adj && adj[1] == [2] && adj[2] == [1]
    ensures Dfs(adj, 1, None, {}, []) == Finished({1, 2})
  {
    assert [1][1..] == [] && [2][1..] == [];
    assert Scan(adj, 2, Some(1), [1], {1, 2}, [1, 2]) == Finished({1, 2});
    assert [1] + [2] == [1, 2] && {1} + {2} == {1, 2};
    assert Dfs(adj, 2, Some(1), {1}, [1]) == Finished({1, 2});
    assert Scan(adj, 1, None, [2], {1}, [1]) == Finished({1, 2});
    assert [] + [1] == [1] && {} + {1} == {1};
  }

  /** Any six-tile configuration with degrees 1,1,2,3,3,2 and no cycle found is an Arch. */
  lemma ArchByDegrees(config: Config)
    requires Closed(config) && !HasCycle(config) && |config| == 6 && NodeDegrees(config) == [1, 1, 2, 3, 3, 2]
    ensures Classify(config) == "Arch"
  {
    ArchDegreeCounts();
    assert !IsTriangle(config) && !IsChain(config) && !IsRing(config);
    assert !IsStar(config) && !IsSquare(config) && !IsYShape(config);
    assert IsArch(config);
  }

  lemma ArchDegreeCounts()
    ensures var ds: seq<nat> := [1, 1, 2, 3, 3, 2];
      && CountEq(ds, 1) == 2 && CountEq(ds, 2) == 2 && CountEq(ds, 3) == 2
      && CountAtLeast(ds, 2) == 4 && CountAtLeast(ds, 3) == 2
  {
    var ds: seq<nat> := [1, 1, 2, 3, 3, 2];
    assert CountEq(ds, 1) == 2 && CountEq(ds, 2) == 2 && CountEq(ds, 3) == 2;
    assert CountAtLeast(ds, 2) == 4 && CountAtLeast(ds, 3) == 2;
  }

  /** Tiles numbered lo, lo+1, ... whose connections stay in that range name only tiles of the configuration. */
  lemma ClosedWhenNumbered(config: Config, lo: int)
    requires forall i :: 0 <= i < |config| ==> config[i].id == lo + i
    requires forall i :: 0 <= i < |config| ==>
      forall j :: 0 <= j < |config[i].connections| ==> lo <= config[i].connections[j] < lo + |config|
    ensures Closed(config)
  {
    forall i, j | 0 <= i < |config| && 0 <= j < |config[i].connections|
      ensures config[i].connections[j] in Ids(config)
    {
      var k := config[i].connections[j] - lo;
      assert config[k].id == config[i].connections[j];
    }
  }

  lemma DominoAndRhombusSearch()
    ensures Closed(DominoAndRhombus) && CycleSearch(DominoAndRhombus) == Finished({1, 2})
    ensures !HasCycle(DominoAndRhombus)
  {
    ClosedWhenNumbered(DominoAndRhombus, 1);
    DominoAndRhombusAdjacency();
    DominoSearch(BuildAdjacency(DominoAndRhombus));
  }

  lemma DominoAndRhombusTriangle()
    ensures IsCycle(BuildAdjacency(DominoAndRhombus), [3, 4, 5])
  {
    DominoAndRhombusAdjacency();
    assert IsWalk(BuildAdjacency(DominoAndRhombus), [3, 4, 5]);
  }

  lemma DominoAndRhombusDegrees()
    ensures DistinctIds(DominoAndRhombus) && NodeDegrees(DominoAndRhombus) == [1, 1, 2, 3, 3, 2]
  {
    var c := DominoAndRhombus;
    assert c[0].id == 1 && c[1].id == 2 && c[2].id == 3 && c[3].id == 4 && c[4].id == 5 && c[5].id == 6;
    DegreesOfDistinct(c);
    assert PerTileDegrees(c) == [1, 1, 2, 3, 3, 2];
  }

  /**
   `hasCycle` only explores the first tile's component: here it misses the
   triangle 3-4-5, and the configuration is classified as an Arch.
   */
  lemma DominoAndRhombusExample()
    ensures Closed(DominoAndRhombus) && CycleSearch(DominoAndRhombus) == Finished({1, 2})
    ensures IsCycle(BuildAdjacency(DominoAndRhombus), [3, 4, 5]) && !HasCycle(DominoAndRhombus)
    ensures Classify(DominoAndRhombus) == "Arch"
  {
    DominoAndRhombusSearch();
    DominoAndRhombusTriangle();
    DominoAndRhombusDegrees();
    ArchByDegrees(DominoAndRhombus);
  }
}
