/**
 The bond graph of a configuration and the depth-first cycle test of the
 shape classifier. The search keeps a set of visited ids and the recursion
 stack; a bond to a tile that is on the stack and is not the parent of the
 current tile is reported as a cycle. Only the component of the first tile is
 explored.
 */
module BondGraph {
  import opened Wrappers
  import opened Tiles
  import opened Validity

  /** Tile id to the ids its connections name. */
  type Adjacency = map<int, seq<int>>

  /** The connections of every tile carrying `id`, concatenated in configuration order. */
  function TargetsOf(config: Config, id: int): seq<int>
  {
    if |config| == 0 then []
    else
      TargetsOf(config[..|config| - 1], id)
      + (if config[|config| - 1].id == id then config[|config| - 1].connections else [])
  }

  /**
   The `adj` map of `hasCycle`: one entry per tile id, onto which the target
   ids of every tile with that id are pushed.
   */
  function BuildAdjacency(config: Config): (adj: Adjacency)
    ensures adj.Keys == Ids(config)
  {
    map id | id in Ids(config) :: TargetsOf(config, id)
  }

  lemma {:induction false} TargetsOfDistinct(config: Config, k: nat)
    requires DistinctIds(config) && k < |config|
    ensures TargetsOf(config, config[k].id) == config[k].connections
    decreases |config|
  {
    var n := |config| - 1;
    var front := config[..n];
    if k == n {
      TargetsOfAbsent(front, config[k].id);
    } else {
      assert front[k] == config[k];
      TargetsOfDistinct(front, k);
    }
  }

  lemma {:induction false} TargetsOfAbsent(config: Config, id: int)
    requires forall i :: 0 <= i < |config| ==> config[i].id != id
    ensures TargetsOf(config, id) == []
    decreases |config|
  {
    if |config| > 0 {
      TargetsOfAbsent(config[..|config| - 1], id);
    }
  }

  /** With distinct ids, the adjacency of a tile is its own connection list. */
  lemma AdjacencyOfDistinct(config: Config, k: nat)
    requires DistinctIds(config) && k < |config|
    ensures config[k].id in BuildAdjacency(config)
    ensures BuildAdjacency(config)[config[k].id] == config[k].connections
  {
    TargetsOfDistinct(config, k);
  }

  // ---------------------------------------------------------------------------
  // The search

  /** How a search ends: it threw (an id outside the map), found a cycle, or finished with these visited ids. */
  datatype Outcome = Crashed | CycleFound | Finished(visited: set<int>)

  /** `dfs(u, parent)`: mark u visited and on the stack, then scan its neighbours. */
  function Dfs(adj: Adjacency, u: int, parent: Option<int>, visited: set<int>, stack: seq<int>): (r: Outcome)
    requires u !in visited
    ensures r.Finished? ==> visited + {u} <= r.visited
    decreases adj.Keys - visited, 0
  {
    if u !in adj then Crashed
    else Scan(adj, u, parent, adj[u], visited + {u}, stack + [u])
  }

  /**
   The loop over the neighbours `vs` of u. A neighbour that is not visited is
   searched; one that is on the stack and is not the parent closes a cycle.
   When u's loop ends, u leaves the stack: the caller's stack is unchanged.
   */
  function Scan(adj: Adjacency, u: int, parent: Option<int>, vs: seq<int>, visited: set<int>, stack: seq<int>): (r: Outcome)
    ensures r.Finished? ==> visited <= r.visited
    decreases adj.Keys - visited, 1, |vs|
  {
    if |vs| == 0 then Finished(visited)
    else
      var v := vs[0];
      if v !in visited then
        match Dfs(adj, v, Some(u), visited, stack)
        case Finished(vis) => Scan(adj, u, parent, vs[1..], vis, stack)
        case other => other
      else if v in stack && Some(v) != parent then CycleFound
      else Scan(adj, u, parent, vs[1..], visited, stack)
  }

  /** Every connection names a tile of the configuration. */
  predicate Closed(config: Config)
  {
    forall i, j :: 0 <= i < |config| && 0 <= j < |config[i].connections| ==> config[i].connections[j] in Ids(config)
  }

  ghost predicate AdjClosed(adj: Adjacency)
  {
    forall a, b :: a in adj && b in adj[a] ==> b in adj
  }

  /** The search from the first tile: Crashed only if it reaches an id that is no tile's. */
  function CycleSearch(config: Config): Outcome
    requires |config| > 0
  {
    Dfs(BuildAdjacency(config), config[0].id, None, {}, [])
  }

  /** `hasCycle`: false below three tiles, otherwise whether the search from the first tile finds a cycle. */
  function HasCycle(config: Config): bool
    requires Closed(config)
  {
    if |config| < 3 then false
    else
      NeverCrashes(config);
      CycleSearch(config) == CycleFound
  }

  lemma NeverCrashes(config: Config)
    requires Closed(config) && |config| > 0
    ensures CycleSearch(config) != Crashed
  {
    var adj := BuildAdjacency(config);
    forall a, b | a in adj && b in adj[a]
      ensures b in adj
    {
      TargetsInIds(config, a, b);
    }
    DfsNoCrash(adj, config[0].id, None, {}, []);
  }

  lemma TargetsInIds(config: Config, id: int, b: int)
    requires Closed(config) && b in TargetsOf(config, id)
    ensures b in Ids(config)
  {
    assert config[..|config|] == config;
    TargetsInIdsPrefix(config, |config|, id, b);
  }

  lemma {:induction false} TargetsInIdsPrefix(config: Config, n: nat, id: int, b: int)
    requires Closed(config) && n <= |config| && b in TargetsOf(config[..n], id)
    ensures b in Ids(config)
    decreases n
  {
    var front := config[..n];
    if n > 0 {
      assert front[..n - 1] == config[..n - 1];
      if b in TargetsOf(config[..n - 1], id) {
        TargetsInIdsPrefix(config, n - 1, id, b);
      } else {
        assert front[n - 1] == config[n - 1];
        var j :| 0 <= j < |config[n - 1].connections| && config[n - 1].connections[j] == b;
      }
    }
  }

  lemma {:induction false} DfsNoCrash(adj: Adjacency, u: int, parent: Option<int>, visited: set<int>, stack: seq<int>)
    requires u !in visited && AdjClosed(adj) && u in adj
    ensures Dfs(adj, u, parent, visited, stack) != Crashed
    decreases adj.Keys - visited, 0
  {
    forall j | 0 <= j < |adj[u]|
      ensures adj[u][j] in adj
    {
      var b := adj[u][j];
      assert b in adj[u];
      assert u in adj && b in adj[u] ==> b in adj;
    }
    ScanNoCrash(adj, u, parent, adj[u], visited + {u}, stack + [u]);
  }

  lemma {:induction false} ScanNoCrash(adj: Adjacency, u: int, parent: Option<int>, vs: seq<int>, visited: set<int>, stack: seq<int>)
    requires AdjClosed(adj) && forall j :: 0 <= j < |vs| ==> vs[j] in adj
    ensures Scan(adj, u, parent, vs, visited, stack) != Crashed
    decreases adj.Keys - visited, 1, |vs|
  {
    if |vs| > 0 {
      var v := vs[0];
      if v !in visited {
        DfsNoCrash(adj, v, Some(u), visited, stack);
        match Dfs(adj, v, Some(u), visited, stack)
        case Finished(vis) =>
          ScanNoCrash(adj, u, parent, vs[1..], vis, stack);
        case CycleFound =>
      } else if !(v in stack && Some(v) != parent) {
        ScanNoCrash(adj, u, parent, vs[1..], visited, stack);
      }
    }
  }

  // ---------------------------------------------------------------------------
  // Soundness: a reported cycle is a real one

  /** Each element of `p` is bonded to the next one. */
  ghost predicate IsWalk(adj: Adjacency, p: seq<int>)
  {
    forall k :: 0 <= k < |p| - 1 ==> p[k] in adj && p[k + 1] in adj[p[k]]
  }

  /**
   A cycle through distinct tiles, c[0] to c[last] and back to c[0]: either at
   least three tiles, or a single tile bonded to itself.
   */
  ghost predicate IsCycle(adj: Adjacency, c: seq<int>)
  {
    |c| >= 1 && |c| != 2 && NoDuplicates(c) && IsWalk(adj, c)
    && c[|c| - 1] in adj && c[0] in adj[c[|c| - 1]]
  }

  /** `p` is a walk from `root` to `x`. */
  ghost predicate Reaches(adj: Adjacency, root: int, x: int, p: seq<int>)
  {
    |p| >= 1 && p[0] == root && p[|p| - 1] == x && IsWalk(adj, p)
  }

  /** The recursion stack is a walk of distinct visited tiles whose last step is from the parent. */
  ghost predicate StackOk(adj: Adjacency, stack: seq<int>, parent: Option<int>, visited: set<int>)
  {
    |stack| >= 1 && NoDuplicates(stack) && IsWalk(adj, stack)
    && (forall k :: 0 <= k < |stack| ==> stack[k] in visited)
    && parent == (if |stack| == 1 then None else Some(stack[|stack| - 2]))
  }

  lemma {:induction false} DfsSound(adj: Adjacency, u: int, parent: Option<int>, visited: set<int>, stack: seq<int>)
    returns (c: seq<int>, p: seq<int>)
    requires u !in visited && StackOk(adj, stack + [u], parent, visited + {u})
    ensures Dfs(adj, u, parent, visited, stack) == CycleFound ==>
      IsCycle(adj, c) && Reaches(adj, (stack + [u])[0], c[0], p)
    decreases adj.Keys - visited, 0
  {
    c, p := [], [];
    if u in adj {
      c, p := ScanSound(adj, u, parent, adj[u], visited + {u}, stack + [u]);
    }
  }

  lemma {:induction false} ScanSound(adj: Adjacency, u: int, parent: Option<int>, vs: seq<int>, visited: set<int>, stack: seq<int>)
    returns (c: seq<int>, p: seq<int>)
    requires StackOk(adj, stack, parent, visited) && stack[|stack| - 1] == u && u in adj
    requires forall j :: 0 <= j < |vs| ==> vs[j] in adj[u]
    ensures Scan(adj, u, parent, vs, visited, stack) == CycleFound ==>
      IsCycle(adj, c) && Reaches(adj, stack[0], c[0], p)
    decreases adj.Keys - visited, 1, |vs|
  {
    c, p := [], [];
    if |vs| == 0 {
      return;
    }
    var v := vs[0];
    assert v in adj[u];
    if v !in visited {
      var ext := stack + [v];
      assert ext[0] == stack[0];
      assert StackOk(adj, ext, Some(u), visited + {v});
      c, p := DfsSound(adj, v, Some(u), visited, stack);
      match Dfs(adj, v, Some(u), visited, stack)
      case Finished(vis) =>
        c, p := ScanSound(adj, u, parent, vs[1..], vis, stack);
      case CycleFound =>
      case Crashed =>
    } else if v in stack && Some(v) != parent {
      var n := |stack| - 1;
      var i :| 0 <= i < |stack| && stack[i] == v;
      c := stack[i..];
      p := stack[..i + 1];
      assert i != n - 1;
      assert IsWalk(adj, c) by {
        forall k | 0 <= k < |c| - 1
          ensures c[k] in adj && c[k + 1] in adj[c[k]]
        {
          assert c[k] == stack[i + k] && c[k + 1] == stack[i + k + 1];
        }
      }
      assert IsWalk(adj, p) by {
        forall k | 0 <= k < |p| - 1
          ensures p[k] in adj && p[k + 1] in adj[p[k]]
        {
          assert p[k] == stack[k] && p[k + 1] == stack[k + 1];
        }
      }
      assert c[|c| - 1] == u;
    } else {
      c, p := ScanSound(adj, u, parent, vs[1..], visited, stack);
    }
  }

  /** A cycle reported by the search from the first tile is a real cycle reachable from that tile. */
  lemma CycleSearchSound(config: Config) returns (c: seq<int>, p: seq<int>)
    requires |config| > 0
    ensures CycleSearch(config) == CycleFound ==>
      IsCycle(BuildAdjacency(config), c) && Reaches(BuildAdjacency(config), config[0].id, c[0], p)
  {
    var adj := BuildAdjacency(config);
    assert StackOk(adj, [config[0].id], None, {config[0].id});
    c, p := DfsSound(adj, config[0].id, None, {}, []);
    assert ([] + [config[0].id])[0] == config[0].id;
  }

  // ---------------------------------------------------------------------------
  // Completeness: on undirected bonds, a search that finishes has built a
  // spanning tree in which every bond is a tree edge

  /** Every target is a key, bonds are mutual, and no tile is bonded to itself. */
  ghost predicate Undirected(adj: Adjacency)
  {
    (forall a, b :: a in adj && b in adj[a] ==> b in adj && a in adj[b])
    && (forall a :: a in adj ==> a !in adj[a])
  }

  /** Every bond of a visited tile that is no longer on the stack leads to a visited tile. */
  ghost predicate FinishedClosed(adj: Adjacency, visited: set<int>, stack: seq<int>)
  {
    forall f, w :: f in visited && f !in stack && f in adj && w in adj[f] ==> w in visited
  }

  /** `par` and `depth` describe a tree on `n` rooted at `u` whose depths grow away from u. */
  ghost predicate TreeOn(n: set<int>, u: int, par: map<int, int>, depth: map<int, nat>)
  {
    u in n && par.Keys == n - {u} && depth.Keys == n
    && forall z :: z in n && z != u ==> par[z] in n && depth[par[z]] < depth[z]
  }

  /** Every bond from `n` is a tree edge, or the bond from u back to its parent. */
  ghost predicate TreeEdges(adj: Adjacency, n: set<int>, u: int, parent: Option<int>, par: map<int, int>)
    requires par.Keys == n - {u}
  {
    forall z, w :: z in n && z in adj && w in adj[z] ==>
      (z != u && w == par[z]) || (w in n && w != u && z == par[w]) || (z == u && Some(w) == parent)
  }

  /** What a finished `dfs(u)` has built over the tiles `n` it newly visited. */
  ghost predicate DfsPost(adj: Adjacency, u: int, parent: Option<int>, visited: set<int>, stack: seq<int>,
                          after: set<int>, par: map<int, int>, depth: map<int, nat>)
  {
    var n := after - visited;
    TreeOn(n, u, par, depth) && TreeEdges(adj, n, u, parent, par)
    && depth[u] == |stack| && (forall z :: z in n ==> z in adj && depth[z] >= |stack|)
  }

  /**
   What a finished scan of u's neighbours `vs` has built over the tiles `m` it
   newly visited: subtrees hanging from u through the children `kids'`.
   */
  ghost predicate ScanPost(adj: Adjacency, u: int, parent: Option<int>, vs: seq<int>, visited: set<int>, stack: seq<int>,
                           kids: set<int>, after: set<int>, par: map<int, int>, depth: map<int, nat>, kids': set<int>)
  {
    var m := after - visited;
    ScanTree(adj, u, m, stack, par, depth, kids') && ScanKids(u, m, par, kids, kids')
    && ScanEdges(adj, m, par) && Covers(vs, parent, kids')
  }

  ghost predicate ScanTree(adj: Adjacency, u: int, m: set<int>, stack: seq<int>, par: map<int, int>, depth: map<int, nat>, kids': set<int>)
  {
    par.Keys == m && depth.Keys == m
    && (forall z :: z in m ==> z in adj && depth[z] >= |stack|)
    && (forall z :: z in m ==> (par[z] in m && depth[par[z]] < depth[z]) || (par[z] == u && z in kids'))
  }

  ghost predicate ScanKids(u: int, m: set<int>, par: map<int, int>, kids: set<int>, kids': set<int>)
    requires par.Keys == m
  {
    kids <= kids' && (forall z :: z in kids' - kids ==> z in m && par[z] == u)
  }

  ghost predicate ScanEdges(adj: Adjacency, m: set<int>, par: map<int, int>)
    requires par.Keys == m
  {
    forall z, w :: z in m && z in adj && w in adj[z] ==> w == par[z] || (w in m && z == par[w])
  }

  /** Each neighbour in `vs` became a child or is the parent. */
  ghost predicate Covers(vs: seq<int>, parent: Option<int>, kids': set<int>)
  {
    forall j :: 0 <= j < |vs| ==> vs[j] in kids' || Some(vs[j]) == parent
  }

  /** The preconditions of a scan, shared by the completeness lemmas. */
  ghost predicate ScanPre(adj: Adjacency, u: int, parent: Option<int>, vs: seq<int>, visited: set<int>, stack: seq<int>, kids: set<int>)
  {
    Undirected(adj) && u in adj
    && StackOk(adj, stack, parent, visited) && stack[|stack| - 1] == u
    && (forall x :: x in visited ==> x in adj) && FinishedClosed(adj, visited, stack)
    && (forall j :: 0 <= j < |vs| ==> vs[j] in adj[u])
    && kids <= visited && (forall k :: k in kids ==> k !in stack)
    && (forall f :: f in visited && f !in stack && u in adj[f] ==> f in kids)
  }

  lemma {:induction false} DfsComplete(adj: Adjacency, u: int, parent: Option<int>, visited: set<int>, stack: seq<int>)
    returns (par: map<int, int>, depth: map<int, nat>)
    requires Undirected(adj) && u in adj && u !in visited
    requires StackOk(adj, stack + [u], parent, visited + {u})
    requires (forall x :: x in visited ==> x in adj) && FinishedClosed(adj, visited, stack)
    ensures Dfs(adj, u, parent, visited, stack).Finished? ==>
      DfsPost(adj, u, parent, visited, stack, Dfs(adj, u, parent, visited, stack).visited, par, depth)
    decreases adj.Keys - visited, 0
  {
    var par', depth', kids' := ScanComplete(adj, u, parent, adj[u], visited + {u}, stack + [u], {});
    par, depth := par', depth'[u := |stack|];
    var r := Dfs(adj, u, parent, visited, stack);
    if r.Finished? {
      RootFinished(adj, u, parent, visited, stack, r.visited, par', depth', kids');
    }
  }

  /** A finished scan of u's neighbours, with u added at depth |stack|, is a finished `dfs(u)`. */
  lemma RootFinished(adj: Adjacency, u: int, parent: Option<int>, visited: set<int>, stack: seq<int>,
                     after: set<int>, par: map<int, int>, depth: map<int, nat>, kids: set<int>)
    requires u in adj && u !in visited && visited + {u} <= after
    requires ScanPost(adj, u, parent, adj[u], visited + {u}, stack + [u], {}, after, par, depth, kids)
    ensures DfsPost(adj, u, parent, visited, stack, after, par, depth[u := |stack|])
  {
    var n := after - visited;
    var m := after - (visited + {u});
    assert n == m + {u} && u !in m;
    RootTree(adj, u, n, m, stack, par, depth, kids);
    RootEdges(adj, u, parent, n, m, par, kids);
  }

  /** The scan's forest under u, with u at depth |stack|, is a tree rooted at u. */
  lemma RootTree(adj: Adjacency, u: int, n: set<int>, m: set<int>, stack: seq<int>,
                 par: map<int, int>, depth: map<int, nat>, kids: set<int>)
    requires n == m + {u} && u !in m && u in adj
    requires ScanTree(adj, u, m, stack + [u], par, depth, kids)
    ensures TreeOn(n, u, par, depth[u := |stack|])
    ensures forall z :: z in n ==> z in adj && depth[u := |stack|][z] >= |stack|
  {
    var d := depth[u := |stack|];
    assert par.Keys == n - {u} && d.Keys == n;
    forall z | z in n && z != u
      ensures par[z] in n && d[par[z]] < d[z]
    {
      assert z in m;
    }
    forall z | z in n
      ensures z in adj && d[z] >= |stack|
    {
      if z != u {
        assert z in m;
      }
    }
  }

  /** Every bond out of the scanned tiles or u is a tree edge or u's bond to its parent. */
  lemma RootEdges(adj: Adjacency, u: int, parent: Option<int>, n: set<int>, m: set<int>, par: map<int, int>, kids: set<int>)
    requires n == m + {u} && u !in m && u in adj && par.Keys == m
    requires ScanEdges(adj, m, par) && Covers(adj[u], parent, kids) && ScanKids(u, m, par, {}, kids)
    ensures TreeEdges(adj, n, u, parent, par)
  {
    forall z, w | z in n && z in adj && w in adj[z]
      ensures (z != u && w == par[z]) || (w in n && w != u && z == par[w]) || (z == u && Some(w) == parent)
    {
      if z == u {
        var j :| 0 <= j < |adj[u]| && adj[u][j] == w;
      } else {
        assert z in m;
      }
    }
  }

  lemma {:induction false} ScanComplete(adj: Adjacency, u: int, parent: Option<int>, vs: seq<int>,
                                        visited: set<int>, stack: seq<int>, kids: set<int>)
    returns (par: map<int, int>, depth: map<int, nat>, kids': set<int>)
    requires ScanPre(adj, u, parent, vs, visited, stack, kids)
    ensures Scan(adj, u, parent, vs, visited, stack).Finished? ==>
      ScanPost(adj, u, parent, vs, visited, stack, kids, Scan(adj, u, parent, vs, visited, stack).visited, par, depth, kids')
    decreases adj.Keys - visited, 1, |vs|
  {
    par, depth, kids' := map[], map[], kids;
    if |vs| == 0 {
      return;
    }
    var v := vs[0];
    assert v in adj[u];
    var r := Scan(adj, u, parent, vs, visited, stack);
    if v !in visited {
      var ext := stack + [v];
      assert StackOk(adj, ext, Some(u), visited + {v});
      var parC, depthC := DfsComplete(adj, v, Some(u), visited, stack);
      match Dfs(adj, v, Some(u), visited, stack)
      case Finished(vis) =>
        ChildPrepared(adj, u, parent, vs, visited, stack, kids, vis, parC, depthC);
        var parR, depthR, kidsR := ScanComplete(adj, u, parent, vs[1..], vis, stack, kids + {v});
        par, depth, kids' := (parC + parR)[v := u], depthC + depthR, kidsR;
        if r.Finished? {
          ChildCombined(adj, u, parent, vs, visited, stack, kids, vis, parC, depthC, r.visited, parR, depthR, kidsR);
        }
      case CycleFound =>
      case Crashed =>
    } else if !(v in stack && Some(v) != parent) {
      par, depth, kids' := ScanComplete(adj, u, parent, vs[1..], visited, stack, kids);
      if r.Finished? {
        SkipCombined(adj, u, parent, vs, visited, stack, kids, r.visited, par, depth, kids');
      }
    }
  }

  /** A neighbour that is already visited and not a back edge adds nothing to the tree. */
  lemma SkipCombined(adj: Adjacency, u: int, parent: Option<int>, vs: seq<int>, visited: set<int>, stack: seq<int>,
                     kids: set<int>, after: set<int>, par: map<int, int>, depth: map<int, nat>, kids': set<int>)
    requires ScanPre(adj, u, parent, vs, visited, stack, kids) && |vs| > 0
    requires vs[0] in visited && !(vs[0] in stack && Some(vs[0]) != parent)
    requires ScanPost(adj, u, parent, vs[1..], visited, stack, kids, after, par, depth, kids')
    ensures ScanPost(adj, u, parent, vs, visited, stack, kids, after, par, depth, kids')
  {
    var v := vs[0];
    forall j | 0 <= j < |vs|
      ensures vs[j] in kids' || Some(vs[j]) == parent
    {
      if j > 0 {
        assert vs[j] == vs[1..][j - 1];
      } else if v !in stack {
        assert v in adj[u];
        assert u in adj[v];
      }
    }
  }

  /** After the search of a child v of u, the rest of u's scan still meets its preconditions. */
  lemma ChildPrepared(adj: Adjacency, u: int, parent: Option<int>, vs: seq<int>, visited: set<int>, stack: seq<int>,
                      kids: set<int>, vis: set<int>, parC: map<int, int>, depthC: map<int, nat>)
    requires ScanPre(adj, u, parent, vs, visited, stack, kids) && |vs| > 0 && vs[0] !in visited
    requires visited + {vs[0]} <= vis && DfsPost(adj, vs[0], Some(u), visited, stack, vis, parC, depthC)
    ensures ScanPre(adj, u, parent, vs[1..], vis, stack, kids + {vs[0]})
  {
    var v := vs[0];
    var nC := vis - visited;
    assert FinishedClosed(adj, vis, stack) by {
      forall f, w | f in vis && f !in stack && f in adj && w in adj[f]
        ensures w in vis
      {
        if f in nC {
          assert (f != v && w == parC[f]) || (w in nC && w != v && f == parC[w]) || (f == v && Some(w) == Some(u));
        }
      }
    }
    forall f | f in vis && f !in stack && u in adj[f]
      ensures f in kids + {v}
    {
      if f in nC {
        assert f in adj && u in adj[f];
      }
    }
    forall j | 0 <= j < |vs[1..]|
      ensures vs[1..][j] in adj[u]
    {
      assert vs[1..][j] == vs[j + 1];
    }
  }

  /** The tree of a child's subtree and the tree of the rest of the scan join at u. */
  lemma ChildCombined(adj: Adjacency, u: int, parent: Option<int>, vs: seq<int>, visited: set<int>, stack: seq<int>,
                      kids: set<int>, vis: set<int>, parC: map<int, int>, depthC: map<int, nat>,
                      after: set<int>, parR: map<int, int>, depthR: map<int, nat>, kidsR: set<int>)
    requires |vs| > 0 && vs[0] !in visited && visited + {vs[0]} <= vis <= after && u in visited
    requires DfsPost(adj, vs[0], Some(u), visited, stack, vis, parC, depthC)
    requires ScanPost(adj, u, parent, vs[1..], vis, stack, kids + {vs[0]}, after, parR, depthR, kidsR)
    ensures ScanPost(adj, u, parent, vs, visited, stack, kids, after, (parC + parR)[vs[0] := u], depthC + depthR, kidsR)
  {
    var v := vs[0];
    var par, depth := (parC + parR)[v := u], depthC + depthR;
    var nC := vis - visited;
    var m := after - visited;
    var mR := after - vis;
    assert m == nC + mR;
    assert nC !! mR;
    JoinTree(adj, u, v, stack, nC, parC, depthC, mR, parR, depthR, kidsR);
    JoinEdges(adj, u, v, nC, parC, mR, parR);
    forall z | z in kidsR - kids
      ensures z in m && par[z] == u
    {
      if z != v {
        assert par[z] == parR[z];
      }
    }
    forall j | 0 <= j < |vs|
      ensures vs[j] in kidsR || Some(vs[j]) == parent
    {
      if j > 0 {
        assert vs[j] == vs[1..][j - 1];
      }
    }
  }

  lemma JoinTree(adj: Adjacency, u: int, v: int, stack: seq<int>,
                 nC: set<int>, parC: map<int, int>, depthC: map<int, nat>,
                 mR: set<int>, parR: map<int, int>, depthR: map<int, nat>, kidsR: set<int>)
    requires nC !! mR && v in kidsR && u !in nC
    requires TreeOn(nC, v, parC, depthC) && (forall z :: z in nC ==> z in adj && depthC[z] >= |stack|)
    requires ScanTree(adj, u, mR, stack, parR, depthR, kidsR)
    ensures ScanTree(adj, u, nC + mR, stack, (parC + parR)[v := u], depthC + depthR, kidsR)
  {
    var par, depth := (parC + parR)[v := u], depthC + depthR;
    var m := nC + mR;
    forall z | z in m
      ensures (par[z] in m && depth[par[z]] < depth[z]) || (par[z] == u && z in kidsR)
    {
      if z in nC {
        if z != v {
          assert par[z] == parC[z] && depth[parC[z]] == depthC[parC[z]] && depth[z] == depthC[z];
        }
      } else {
        assert par[z] == parR[z] && depth[z] == depthR[z];
        if parR[z] in mR {
          assert depth[parR[z]] == depthR[parR[z]];
        }
      }
    }
  }

  lemma JoinEdges(adj: Adjacency, u: int, v: int, nC: set<int>, parC: map<int, int>, mR: set<int>, parR: map<int, int>)
    requires nC !! mR && v in nC && u !in nC && u !in mR && parR.Keys == mR
    requires TreeShape(nC, v, parC) && TreeEdges(adj, nC, v, Some(u), parC)
    requires ScanEdges(adj, mR, parR)
    ensures ScanEdges(adj, nC + mR, (parC + parR)[v := u])
  {
    var par := (parC + parR)[v := u];
    var m := nC + mR;
    forall z, w | z in m && z in adj && w in adj[z]
      ensures w == par[z] || (w in m && z == par[w])
    {
      if z in nC {
        if z == v {
          if w != u {
            assert w in nC && w != v && z == parC[w];
            assert par[w] == parC[w];
          }
        } else if w == parC[z] {
          assert par[z] == parC[z];
        } else {
          assert w in nC && w != v && z == parC[w];
          assert par[w] == parC[w];
        }
      } else {
        assert par[z] == parR[z];
        if w in mR && z == parR[w] {
          assert w != v && par[w] == parR[w];
        }
      }
    }
  }

  /** The shape part of TreeOn, without depths. */
  ghost predicate TreeShape(n: set<int>, u: int, par: map<int, int>)
  {
    u in n && par.Keys == n - {u} && forall z :: z in n && z != u ==> par[z] in n
  }

  /** The index of a deepest element of `c`. */
  lemma DeepestIndex(c: seq<int>, depth: map<int, nat>) returns (m: nat)
    requires |c| > 0 && forall k :: 0 <= k < |c| ==> c[k] in depth
    ensures m < |c| && forall k :: 0 <= k < |c| ==> depth[c[k]] <= depth[c[m]]
  {
    m := 0;
    var i := 1;
    while i < |c|
      invariant 1 <= i <= |c| && m < i
      invariant forall k :: 0 <= k < i ==> depth[c[k]] <= depth[c[m]]
    {
      if depth[c[i]] > depth[c[m]] {
        m := i;
      }
      i := i + 1;
    }
  }

  /** A bond from x to a tile no deeper than x is the bond to x's parent. */
  lemma BondToShallowerIsParent(adj: Adjacency, n: set<int>, root: int, par: map<int, int>, depth: map<int, nat>, x: int, w: int)
    requires TreeOn(n, root, par, depth) && TreeEdges(adj, n, root, None, par)
    requires x in n && w in n && depth[w] <= depth[x]
    ensures x in adj && w in adj[x] ==> x != root && w == par[x]
  {
  }

  /**
   A tree in which every bond is a tree edge holds no cycle: at the deepest
   tile of a cycle, both cycle neighbours would have to be its parent.
   */
  lemma NoCycleInTree(adj: Adjacency, n: set<int>, root: int, par: map<int, int>, depth: map<int, nat>, c: seq<int>)
    requires Undirected(adj) && TreeOn(n, root, par, depth) && TreeEdges(adj, n, root, None, par)
    requires |c| > 0 && forall k :: 0 <= k < |c| ==> c[k] in n
    ensures !IsCycle(adj, c)
  {
    var len := |c|;
    var m := DeepestIndex(c, depth);
    var x := c[m];
    var ni := if m < len - 1 then m + 1 else 0;
    var pi := if m > 0 then m - 1 else len - 1;
    BondToShallowerIsParent(adj, n, root, par, depth, x, c[ni]);
    BondToShallowerIsParent(adj, n, root, par, depth, x, c[pi]);
    if IsCycle(adj, c) {
      assert false;
    }
  }

  /** A walk that starts in a bond-closed set of tiles stays in it. */
  lemma {:induction false} WalkStaysIn(adj: Adjacency, n: set<int>, p: seq<int>, k: nat)
    requires |p| >= 1 && p[0] in n && IsWalk(adj, p) && k < |p|
    requires forall z, w :: z in n && z in adj && w in adj[z] ==> w in n
    ensures p[k] in n
  {
    if k > 0 {
      WalkStaysIn(adj, n, p, k - 1);
      assert p[k - 1] in adj && p[k] in adj[p[k - 1]];
    }
  }

  /**
   On undirected bonds, a search from the first tile that reports no cycle
   leaves no cycle reachable from that tile.
   */
  /** The tiles a finished search from the root visited are closed under bonds. */
  lemma RootTreeClosed(adj: Adjacency, root: int, after: set<int>, par: map<int, int>, depth: map<int, nat>)
    requires DfsPost(adj, root, None, {}, [], after, par, depth)
    ensures forall z, w :: z in after && z in adj && w in adj[z] ==> w in after
  {
    var n := after - {};
    forall z, w | z in after && z in adj && w in adj[z]
      ensures w in after
    {
      assert (z != root && w == par[z]) || (w in n && w != root && z == par[w]) || (z == root && Some(w) == None);
    }
  }

  lemma CycleSearchComplete(config: Config, c: seq<int>, p: seq<int>)
    requires |config| > 0 && Undirected(BuildAdjacency(config))
    requires IsCycle(BuildAdjacency(config), c) && Reaches(BuildAdjacency(config), config[0].id, c[0], p)
    ensures CycleSearch(config) == CycleFound
  {
    var adj := BuildAdjacency(config);
    var root := config[0].id;
    assert root in Ids(config);
    assert StackOk(adj, [] + [root], None, {} + {root});
    DfsNoCrash(adj, root, None, {}, []);
    var par, depth := DfsComplete(adj, root, None, {}, []);
    var r := Dfs(adj, root, None, {}, []);
    if r != CycleFound {
      var n := r.visited - {};
      RootTreeClosed(adj, root, r.visited, par, depth);
      WalkStaysIn(adj, n, p, |p| - 1);
      forall k | 0 <= k < |c|
        ensures c[k] in n
      {
        WalkStaysIn(adj, n, c, k);
      }
      NoCycleInTree(adj, n, root, par, depth, c);
      assert false;
    }
  }

  /**
   With at least three tiles and undirected bonds, `hasCycle` is true exactly
   when a cycle is reachable from the first tile.
   */
  lemma HasCycleIff(config: Config)
    requires Closed(config) && |config| >= 3 && Undirected(BuildAdjacency(config))
    ensures HasCycle(config) <==>
      exists c, p :: IsCycle(BuildAdjacency(config), c) && Reaches(BuildAdjacency(config), config[0].id, c[0], p)
  {
    if HasCycle(config) {
      var c, p := CycleSearchSound(config);
    }
    if exists c, p :: IsCycle(BuildAdjacency(config), c) && Reaches(BuildAdjacency(config), config[0].id, c[0], p) {
      var c, p :| IsCycle(BuildAdjacency(config), c) && Reaches(BuildAdjacency(config), config[0].id, c[0], p);
      CycleSearchComplete(config, c, p);
    }
  }
}
