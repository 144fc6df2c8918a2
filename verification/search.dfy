/**
 The search driver: a depth-first backtracking generator that grows a
 configuration one tile at a time under a budget of three tiles per pip value,
 hands every complete and valid configuration to the duplicate filter, and
 records the new ones. The bond resolver, the placement enumerator and the
 placement rule are parameters: their definitions are not part of this model.
 */
module Search {
  import opened Wrappers
  import opened Hex
  import opened Tiles
  import opened Validity
  import opened Canonical
  import opened Validator

  /** The largest configuration the generator grows. */
  const MaxFormulaTiles: nat := 6
  /** The number of tiles of each pip value available to a run. */
  const MaxPipsPerType: nat := 3

  /** `availablePips`: the remaining count for pip values 1, 2 and 3. */
  datatype Budget = Budget(ones: int, twos: int, threes: int)
  {
    function Get(p: int): int
      requires 1 <= p <= 3
    {
      if p == 1 then ones else if p == 2 then twos else threes
    }

    /** `nextAvailablePips[p]--`. */
    function Take(p: int): (b: Budget)
      requires 1 <= p <= 3
      ensures b.Get(p) == Get(p) - 1
      ensures forall p' :: 1 <= p' <= 3 && p' != p ==> b.Get(p') == Get(p')
    {
      if p == 1 then this.(ones := ones - 1)
      else if p == 2 then this.(twos := twos - 1)
      else this.(threes := threes - 1)
    }

    /** `Object.values(availablePips).reduce(...)`. */
    function Total(): int
    {
      ones + twos + threes
    }

    /** The termination measure: the positive part of the budget. */
    function Measure(): nat
    {
      Pos(ones) + Pos(twos) + Pos(threes)
    }
  }

  function Pos(x: int): nat
  {
    if x > 0 then x else 0
  }

  /** An entry of the known-formula catalog. */
  datatype KnownFormula = KnownFormula(name: string, valenceCode: string, shapeType: string)

  /**
   The collaborators of the driver: the bond resolver (`attemptAllPossibleBonds`,
   None for its null), the placement enumerator (`calculateViablePlacementSpots`),
   the placement rule (`checkIfSpotMeetsGamePlacementRules`, given the pip
   value of the dummy tile) and the loaded catalog.
   */
  datatype Env = Env(
    resolve: Config -> Option<Config>,
    spots: Config -> seq<Coord>,
    accepts: (Config, Coord, int) -> bool,
    known: seq<KnownFormula>)

  /** One element of `generatedFormulas`. */
  datatype Found = Found(config: Config, result: Report, name: Option<string>)

  /**
   The state a run threads through the recursion: `generatedFormulas`,
   `globalSeenConfigs` and the validator's own module-level state.
   */
  datatype RunState = RunState(generated: seq<Found>, globalSeen: set<string>, session: Session)

  // ---------------------------------------------------------------------------
  // processFoundFormula

  /** `knownFormulas.find(...)`: the name of the first entry with this code and shape. */
  function MatchName(known: seq<KnownFormula>, code: string, shape: string): (name: Option<string>)
    ensures name.Some? <==> exists i :: 0 <= i < |known| && known[i].valenceCode == code && known[i].shapeType == shape
    ensures name.Some? ==> exists i :: 0 <= i < |known| && known[i].valenceCode == code && known[i].shapeType == shape
                                       && known[i].name == name.value
                                       && forall j :: 0 <= j < i ==> !(known[j].valenceCode == code && known[j].shapeType == shape)
  {
    if |known| == 0 then None
    else if known[0].valenceCode == code && known[0].shapeType == shape then Some(known[0].name)
    else
      var rest := MatchName(known[1..], code, shape);
      assert forall i :: 1 <= i < |known| ==> known[1..][i - 1] == known[i];
      rest
  }

  /**
   The duplicate filter's invariant: every recorded formula is valid and
   complete, its canonical form is in the seen set, and no two recorded
   formulas share a canonical form.
   */
  predicate RunOk(s: RunState)
  {
    && (forall i :: 0 <= i < |s.generated| ==>
          s.generated[i].result.isValid && s.generated[i].result.isComplete
          && CanonicalForm(s.generated[i].config) in s.globalSeen)
    && (forall i, j :: 0 <= i < j < |s.generated| ==>
          CanonicalForm(s.generated[i].config) != CanonicalForm(s.generated[j].config))
  }

  /** What a step of the run may do: append to the list and add to the seen set. */
  predicate Grows(before: RunState, after: RunState)
  {
    && before.generated <= after.generated
    && before.globalSeen <= after.globalSeen
  }

  lemma AppendKeepsValid(s: RunState, f: Found, s': RunState)
    requires RunOk(s) && f.result.isValid && f.result.isComplete
    requires s'.generated == s.generated + [f] && s'.globalSeen == s.globalSeen + {CanonicalForm(f.config)}
    ensures forall i :: 0 <= i < |s'.generated| ==>
      s'.generated[i].result.isValid && s'.generated[i].result.isComplete
      && CanonicalForm(s'.generated[i].config) in s'.globalSeen
  {
    forall i | 0 <= i < |s'.generated|
      ensures s'.generated[i].result.isValid && s'.generated[i].result.isComplete
      ensures CanonicalForm(s'.generated[i].config) in s'.globalSeen
    {
      if i < |s.generated| {
        assert s'.generated[i] == s.generated[i];
      } else {
        assert s'.generated[i] == f;
      }
    }
  }

  lemma AppendKeepsDistinct(s: RunState, f: Found, s': RunState)
    requires RunOk(s) && CanonicalForm(f.config) !in s.globalSeen
    requires s'.generated == s.generated + [f]
    ensures forall i, j :: 0 <= i < j < |s'.generated| ==>
      CanonicalForm(s'.generated[i].config) != CanonicalForm(s'.generated[j].config)
  {
    forall i, j | 0 <= i < j < |s'.generated|
      ensures CanonicalForm(s'.generated[i].config) != CanonicalForm(s'.generated[j].config)
    {
      assert s'.generated[i] == s.generated[i];
      if j < |s.generated| {
        assert s'.generated[j] == s.generated[j];
      } else {
        assert s'.generated[j] == f;
        assert CanonicalForm(s.generated[i].config) in s.globalSeen;
      }
    }
  }

  /** Recording a valid, complete formula under a new form keeps the invariant. */
  lemma AppendKeepsRunOk(s: RunState, f: Found, session: Session)
    requires f.result.isValid && f.result.isComplete && CanonicalForm(f.config) !in s.globalSeen
    ensures var s' := RunState(s.generated + [f], s.globalSeen + {CanonicalForm(f.config)}, session);
      Grows(s, s') && (RunOk(s) ==> RunOk(s'))
  {
    var form := CanonicalForm(f.config);
    var s' := RunState(s.generated + [f], s.globalSeen + {form}, session);
    assert s.generated <= s'.generated;
    if RunOk(s) {
      AppendKeepsValid(s, f, s');
      AppendKeepsDistinct(s, f, s');
    }
  }

  /**
   `processFoundFormula`: validate; if valid and complete and the canonical
   form is new, remember the form and append the formula with its catalog name.
   */
  function ProcessFoundFormula(env: Env, s: RunState, config: Config): (s': RunState)
    ensures Grows(s, s')
    ensures RunOk(s) ==> RunOk(s')
    ensures |s'.generated| <= |s.generated| + 1
    ensures |s'.generated| == |s.generated| + 1 <==>
      StructurallyValid(config) && CanonicalForm(config) !in s.globalSeen
    ensures |s'.generated| == |s.generated| + 1 ==>
      var f := s'.generated[|s.generated|];
      && f.config == config && f.result == ValidateFormula(s.session, config).report
      && s'.globalSeen == s.globalSeen + {CanonicalForm(config)}
      && f.name == MatchName(env.known, f.result.pipDistribution, f.result.shapeType)
      && (f.name.Some? ==> exists k :: 0 <= k < |env.known| && env.known[k].name == f.name.value
                                       && env.known[k].valenceCode == f.result.pipDistribution
                                       && env.known[k].shapeType == f.result.shapeType)
    ensures |s'.generated| == |s.generated| ==> s'.globalSeen == s.globalSeen
  {
    var v := ValidateFormula(s.session, config);
    if v.report.isValid && v.report.isComplete then
      var form := CanonicalForm(config);
      if form !in s.globalSeen then
        var name := MatchName(env.known, v.report.pipDistribution, v.report.shapeType);
        var f := Found(config, v.report, name);
        AppendKeepsRunOk(s, f, v.session);
        RunState(s.generated + [f], s.globalSeen + {form}, v.session)
      else s.(session := v.session)
    else s.(session := v.session)
  }

  // ---------------------------------------------------------------------------
  // One call of recurseGenerate

  /** `configCopy.every(t => t.currentBonds === t.pips)`. */
  predicate AllBondsPlaced(config: Config)
  {
    forall i :: 0 <= i < |config| ==> config[i].currentBonds == config[i].pips
  }

  /** `isValidFinalForm`. */
  predicate IsFinal(config: Config)
  {
    AllBondsPlaced(config) && IsValidPipSum(config) && IsGeometricallyValid(config)
  }

  /** `totalUnsatisfiedPipsInConfig`. */
  function Unsatisfied(config: Config): int
  {
    if |config| == 0 then 0
    else Unsatisfied(config[..|config| - 1]) + (config[|config| - 1].pips - config[|config| - 1].currentBonds)
  }

  /** The pip values still available, in increasing order. */
  function PipsToPlace(b: Budget): (ps: seq<int>)
    ensures forall i :: 0 <= i < |ps| ==> 1 <= ps[i] <= 3 && b.Get(ps[i]) > 0
    ensures forall p :: 1 <= p <= 3 && b.Get(p) > 0 ==> p in ps
    ensures forall i, j :: 0 <= i < j < |ps| ==> ps[i] < ps[j]
  {
    (if b.ones > 0 then [1] else []) + (if b.twos > 0 then [2] else []) + (if b.threes > 0 then [3] else [])
  }

  /** The tile placed at `spot` with `p` pips: the next id and no bonds yet. */
  function NewTile(config: Config, spot: Coord, p: int): Tile
  {
    Tile(|config|, spot.q, spot.r, p, [], 0)
  }

  /** A recursive call's arguments: the grown configuration and its budget. */
  datatype Child = Child(config: Config, budget: Budget)

  /** `c` adds one accepted tile of value `p` at some spot in `spots`. */
  predicate PlacedFrom(env: Env, config: Config, p: int, spots: seq<Coord>, c: Child)
  {
    exists k :: 0 <= k < |spots| && env.accepts(config, spots[k], p) && c.config == config + [NewTile(config, spots[k], p)]
  }

  lemma PlacedFromTail(env: Env, config: Config, p: int, spots: seq<Coord>, c: Child)
    requires |spots| > 0 && PlacedFrom(env, config, p, spots[1..], c)
    ensures PlacedFrom(env, config, p, spots, c)
  {
    var k :| 0 <= k < |spots[1..]| && env.accepts(config, spots[1..][k], p)
             && c.config == config + [NewTile(config, spots[1..][k], p)];
    assert spots[1..][k] == spots[k + 1];
  }

  /** The inner loop over the spots for one pip value. */
  function ChildrenAt(env: Env, config: Config, b: Budget, p: int, spots: seq<Coord>): (cs: seq<Child>)
    requires 1 <= p <= 3
    ensures forall i :: 0 <= i < |cs| ==> cs[i].budget == b.Take(p)
    ensures forall i :: 0 <= i < |cs| ==> PlacedFrom(env, config, p, spots, cs[i])
    ensures forall k :: 0 <= k < |spots| && env.accepts(config, spots[k], p) ==>
                          Child(config + [NewTile(config, spots[k], p)], b.Take(p)) in cs
  {
    if |spots| == 0 then []
    else
      var rest := ChildrenAt(env, config, b, p, spots[1..]);
      assert forall k :: 1 <= k < |spots| ==> spots[1..][k - 1] == spots[k];
      assert forall i :: 0 <= i < |rest| ==> PlacedFrom(env, config, p, spots, rest[i]) by {
        forall i | 0 <= i < |rest|
          ensures PlacedFrom(env, config, p, spots, rest[i])
        {
          PlacedFromTail(env, config, p, spots, rest[i]);
        }
      }
      if env.accepts(config, spots[0], p) then
        var first := Child(config + [NewTile(config, spots[0], p)], b.Take(p));
        assert PlacedFrom(env, config, p, spots, first);
        [first] + rest
      else rest
  }

  /** `c` adds one accepted tile of some value in `ps` at some spot in `spots`, and takes one of that value. */
  predicate Produced(env: Env, config: Config, b: Budget, ps: seq<int>, spots: seq<Coord>, c: Child)
  {
    exists j, k :: && 0 <= j < |ps| && 0 <= k < |spots| && 1 <= ps[j] <= 3
                   && env.accepts(config, spots[k], ps[j])
                   && c == Child(config + [NewTile(config, spots[k], ps[j])], b.Take(ps[j]))
  }

  lemma ProducedHead(env: Env, config: Config, b: Budget, ps: seq<int>, spots: seq<Coord>, c: Child, k: nat)
    requires |ps| > 0 && 1 <= ps[0] <= 3 && k < |spots| && env.accepts(config, spots[k], ps[0])
    requires c.config == config + [NewTile(config, spots[k], ps[0])] && c.budget == b.Take(ps[0])
    ensures Produced(env, config, b, ps, spots, c)
  {
    assert c == Child(config + [NewTile(config, spots[k], ps[0])], b.Take(ps[0]));
  }

  lemma ProducedTail(env: Env, config: Config, b: Budget, ps: seq<int>, spots: seq<Coord>, c: Child)
    requires |ps| > 0 && Produced(env, config, b, ps[1..], spots, c)
    ensures Produced(env, config, b, ps, spots, c)
  {
    var j, k :| && 0 <= j < |ps[1..]| && 0 <= k < |spots| && 1 <= ps[1..][j] <= 3
                && env.accepts(config, spots[k], ps[1..][j])
                && c == Child(config + [NewTile(config, spots[k], ps[1..][j])], b.Take(ps[1..][j]));
    assert ps[1..][j] == ps[j + 1];
  }

  /** Every accepted (pip value in `ps`, spot in `spots`) pair has its child in `cs`. */
  predicate OffersAll(env: Env, config: Config, b: Budget, ps: seq<int>, spots: seq<Coord>, cs: seq<Child>)
  {
    forall j, k :: 0 <= j < |ps| && 1 <= ps[j] <= 3 && 0 <= k < |spots| && env.accepts(config, spots[k], ps[j]) ==>
      Child(config + [NewTile(config, spots[k], ps[j])], b.Take(ps[j])) in cs
  }

  /** The children of the first pip value followed by those of the rest offer every pair. */
  lemma OffersAllCons(env: Env, config: Config, b: Budget, ps: seq<int>, spots: seq<Coord>, here: seq<Child>, rest: seq<Child>)
    requires |ps| > 0 && 1 <= ps[0] <= 3
    requires forall k :: 0 <= k < |spots| && env.accepts(config, spots[k], ps[0]) ==>
               Child(config + [NewTile(config, spots[k], ps[0])], b.Take(ps[0])) in here
    requires OffersAll(env, config, b, ps[1..], spots, rest)
    ensures OffersAll(env, config, b, ps, spots, here + rest)
  {
    forall j, k | 0 <= j < |ps| && 1 <= ps[j] <= 3 && 0 <= k < |spots| && env.accepts(config, spots[k], ps[j])
      ensures Child(config + [NewTile(config, spots[k], ps[j])], b.Take(ps[j])) in here + rest
    {
      if j > 0 {
        assert ps[j] == ps[1..][j - 1];
      }
    }
  }

  /** Everything in `here + rest` is produced from `ps`, given where each part comes from. */
  lemma ProducedCons(env: Env, config: Config, b: Budget, ps: seq<int>, spots: seq<Coord>, here: seq<Child>, rest: seq<Child>)
    requires |ps| > 0 && 1 <= ps[0] <= 3
    requires forall i :: 0 <= i < |here| ==> here[i].budget == b.Take(ps[0])
    requires forall i :: 0 <= i < |here| ==> PlacedFrom(env, config, ps[0], spots, here[i])
    requires forall i :: 0 <= i < |rest| ==> Produced(env, config, b, ps[1..], spots, rest[i])
    ensures forall i :: 0 <= i < |here + rest| ==> Produced(env, config, b, ps, spots, (here + rest)[i])
  {
    forall i | 0 <= i < |here + rest|
      ensures Produced(env, config, b, ps, spots, (here + rest)[i])
    {
      if i < |here| {
        assert PlacedFrom(env, config, ps[0], spots, here[i]);
        var k :| 0 <= k < |spots| && env.accepts(config, spots[k], ps[0])
                 && here[i].config == config + [NewTile(config, spots[k], ps[0])];
        ProducedHead(env, config, b, ps, spots, here[i], k);
      } else {
        ProducedTail(env, config, b, ps, spots, rest[i - |here|]);
      }
    }
  }

  /** The outer loop over the pip values. */
  function Children(env: Env, config: Config, b: Budget, ps: seq<int>, spots: seq<Coord>): (cs: seq<Child>)
    requires forall i :: 0 <= i < |ps| ==> 1 <= ps[i] <= 3
    ensures forall i :: 0 <= i < |cs| ==> Produced(env, config, b, ps, spots, cs[i])
    ensures OffersAll(env, config, b, ps, spots, cs)
  {
    if |ps| == 0 then []
    else
      var here := ChildrenAt(env, config, b, ps[0], spots);
      assert forall j :: 1 <= j < |ps| ==> ps[1..][j - 1] == ps[j];
      var rest := Children(env, config, b, ps[1..], spots);
      ProducedCons(env, config, b, ps, spots, here, rest);
      OffersAllCons(env, config, b, ps, spots, here, rest);
      here + rest
  }

  /** What one call decides before recursing. */
  datatype Step = Pruned | Complete(config: Config) | Branch(config: Config, children: seq<Child>)

  /** The body of `recurseGenerate` up to its recursive calls. */
  function Expand(env: Env, config: Config, b: Budget): (step: Step)
    ensures step.Complete? ==> env.resolve(config) == Some(step.config) && IsFinal(step.config)
    ensures step.Branch? ==>
      && env.resolve(config) == Some(step.config)
      && !IsFinal(step.config)
      && |step.config| < MaxFormulaTiles
      && (Unsatisfied(step.config) + b.Total()) % 2 == 0
      && !(b.Total() == 0 && Unsatisfied(step.config) > 0)
    ensures env.resolve(config).None? ==> step.Pruned?
    ensures env.resolve(config).Some? && IsFinal(env.resolve(config).value) ==>
      step == Complete(env.resolve(config).value)
    ensures (&& env.resolve(config).Some?
             && var bonded := env.resolve(config).value;
             && !IsFinal(bonded)
             && |bonded| < MaxFormulaTiles
             && (Unsatisfied(bonded) + b.Total()) % 2 == 0
             && !(b.Total() == 0 && Unsatisfied(bonded) > 0)
             && exists p :: 1 <= p <= 3 && b.Get(p) > 0) ==> step.Branch?
  {
    match env.resolve(config)
    case None => Pruned
    case Some(bonded) =>
      if IsFinal(bonded) then Complete(bonded)
      else if |bonded| >= MaxFormulaTiles then Pruned
      else
        var available := b.Total();
        var unsatisfied := Unsatisfied(bonded);
        if available == 0 && unsatisfied > 0 then Pruned
        else if (unsatisfied + available) % 2 != 0 then Pruned
        else
          var ps := PipsToPlace(b);
          if |ps| == 0 then Pruned
          else Branch(bonded, Children(env, bonded, b, ps, env.spots(bonded)))
  }

  /** `c` places one accepted tile of a value with budget left at one of the offered spots. */
  predicate Placement(env: Env, bonded: Config, b: Budget, c: Child)
  {
    exists spot, p :: 1 <= p <= 3 && b.Get(p) > 0 && spot in env.spots(bonded) && env.accepts(bonded, spot, p)
                   && c == Child(bonded + [NewTile(bonded, spot, p)], b.Take(p))
  }

  /** Every accepted (spot, pip value) pair with budget left has its child in `cs`. */
  predicate AllPlacements(env: Env, bonded: Config, b: Budget, cs: seq<Child>)
  {
    forall spot, p :: 1 <= p <= 3 && b.Get(p) > 0 && spot in env.spots(bonded) && env.accepts(bonded, spot, p) ==>
      Child(bonded + [NewTile(bonded, spot, p)], b.Take(p)) in cs
  }

  /** A branch step's children are those of `Children` over the values with budget left. */
  lemma BranchShape(env: Env, config: Config, b: Budget)
    requires Expand(env, config, b).Branch?
    ensures Expand(env, config, b).children ==
            Children(env, Expand(env, config, b).config, b, PipsToPlace(b), env.spots(Expand(env, config, b).config))
  {
  }

  /**
   Exactly the accepted (pip value, spot) pairs with budget left become
   children; each adds one tile with the next id and takes one from its value.
   */
  lemma BranchChildren(env: Env, config: Config, b: Budget)
    requires Expand(env, config, b).Branch?
    ensures forall i :: 0 <= i < |Expand(env, config, b).children| ==>
              Placement(env, Expand(env, config, b).config, b, Expand(env, config, b).children[i])
    ensures AllPlacements(env, Expand(env, config, b).config, b, Expand(env, config, b).children)
  {
    BranchShape(env, config, b);
    ChildrenPlacements(env, Expand(env, config, b).config, b);
  }

  /** The children over the values with budget left are exactly the placements. */
  lemma ChildrenPlacements(env: Env, bonded: Config, b: Budget)
    ensures var cs := Children(env, bonded, b, PipsToPlace(b), env.spots(bonded));
            && (forall i :: 0 <= i < |cs| ==> Placement(env, bonded, b, cs[i]))
            && AllPlacements(env, bonded, b, cs)
  {
    var ps := PipsToPlace(b);
    var spots := env.spots(bonded);
    var cs := Children(env, bonded, b, ps, spots);
    assert OffersAll(env, bonded, b, ps, spots, cs);
    forall spot, p | 1 <= p <= 3 && b.Get(p) > 0 && spot in spots && env.accepts(bonded, spot, p)
      ensures Child(bonded + [NewTile(bonded, spot, p)], b.Take(p)) in cs
    {
      var j :| 0 <= j < |ps| && ps[j] == p;
      var k :| 0 <= k < |spots| && spots[k] == spot;
      assert 1 <= ps[j] <= 3 && env.accepts(bonded, spots[k], ps[j]);
    }
    forall i | 0 <= i < |cs|
      ensures Placement(env, bonded, b, cs[i])
    {
      assert Produced(env, bonded, b, ps, spots, cs[i]);
      var j, k :| && 0 <= j < |ps| && 0 <= k < |spots| && 1 <= ps[j] <= 3
                  && env.accepts(bonded, spots[k], ps[j])
                  && cs[i] == Child(bonded + [NewTile(bonded, spots[k], ps[j])], b.Take(ps[j]));
      assert spots[k] in spots && b.Get(ps[j]) > 0;
    }
  }

  // ---------------------------------------------------------------------------
  // The recursion

  predicate MeasuresBelow(children: seq<Child>, bound: nat)
  {
    forall i :: 0 <= i < |children| ==> children[i].budget.Measure() < bound
  }

  /** Every child takes one tile from a value with budget left, so the measure drops. */
  lemma ChildrenDecrease(env: Env, config: Config, b: Budget)
    requires Expand(env, config, b).Branch?
    ensures MeasuresBelow(Expand(env, config, b).children, b.Measure())
  {
    BranchChildren(env, config, b);
  }

  /** `recurseGenerate(config, budget, ...)`, from the run state before the call to the one after. */
  function Generate(env: Env, s: RunState, config: Config, b: Budget): (s': RunState)
    ensures Grows(s, s')
    ensures RunOk(s) ==> RunOk(s')
    ensures env.resolve(config).None? ==> s' == s
    ensures env.resolve(config).Some? && IsFinal(env.resolve(config).value) ==>
      s' == ProcessFoundFormula(env, s, env.resolve(config).value)
    ensures Expand(env, config, b).Complete? ==> |s'.generated| <= |s.generated| + 1
    decreases b.Measure(), 1
  {
    match Expand(env, config, b)
    case Pruned => s
    case Complete(bonded) => ProcessFoundFormula(env, s, bonded)
    case Branch(bonded, children) =>
      ChildrenDecrease(env, config, b);
      GenerateAll(env, s, children, b.Measure())
  }

  /** The recursive calls of one level, in order, each seeing the state the previous one left. */
  function GenerateAll(env: Env, s: RunState, children: seq<Child>, bound: nat): (s': RunState)
    requires MeasuresBelow(children, bound)
    ensures Grows(s, s')
    ensures RunOk(s) ==> RunOk(s')
    decreases bound, 0, |children|
  {
    if |children| == 0 then s
    else
      var s1 := Generate(env, s, children[0].config, children[0].budget);
      GenerateAll(env, s1, children[1..], bound)
  }

  // ---------------------------------------------------------------------------
  // The seed loop of generateFormulasDFS

  /** The full budget with one tile of value p already used. */
  function SeedBudget(p: int): Budget
    requires 1 <= p <= 3
  {
    Budget(MaxPipsPerType, MaxPipsPerType, MaxPipsPerType).Take(p)
  }

  /** One lone tile of each pip value at the origin, with id 0 and no bonds. */
  function Seeds(): (seeds: seq<Child>)
    ensures |seeds| == 3
    ensures forall i :: 0 <= i < 3 ==>
      && seeds[i].config == [Tile(0, 0, 0, i + 1, [], 0)]
      && seeds[i].budget.Get(i + 1) == MaxPipsPerType - 1
      && forall p :: 1 <= p <= 3 && p != i + 1 ==> seeds[i].budget.Get(p) == MaxPipsPerType
  {
    seq(3, i requires 0 <= i < 3 => Child([Tile(0, 0, 0, i + 1, [], 0)], SeedBudget(i + 1)))
  }

  /**
   `generateFormulasDFS` without its display work: the list and the seen set
   start empty, the summary is cleared, and each seed is searched in turn.
   */
  function GenerateFormulas(env: Env, session: Session): (s: RunState)
    ensures RunOk(s)
  {
    var start := RunState([], {}, session.(summary := map[]));
    GenerateAll(env, start, Seeds(), 3 * MaxPipsPerType)
  }

  // ---------------------------------------------------------------------------
  // The invariant on every call

  /** The resolver only adds bonds: same length, ids, positions and pips. */
  predicate KeepsTiles(before: Config, after: Config)
  {
    && |after| == |before|
    && forall i :: 0 <= i < |before| ==>
         after[i].id == before[i].id && after[i].Pos() == before[i].Pos() && after[i].pips == before[i].pips
  }

  predicate ResolvesKeepingTiles(env: Env, config: Config)
  {
    env.resolve(config).Some? ==> KeepsTiles(config, env.resolve(config).value)
  }

  /** The assumption the invariant needs of the bond resolver, on every input. */
  ghost predicate ResolverKeepsTiles(env: Env)
  {
    forall config :: ResolvesKeepingTiles(env, config)
  }

  /** The number of tiles with p pips. */
  function CountPips(config: Config, p: int): (n: nat)
    ensures n <= |config|
  {
    if |config| == 0 then 0
    else CountPips(config[..|config| - 1], p) + (if config[|config| - 1].pips == p then 1 else 0)
  }

  lemma {:induction false} CountPipsKept(a: Config, b: Config, p: int)
    requires KeepsTiles(a, b)
    ensures CountPips(a, p) == CountPips(b, p)
    decreases |a|
  {
    if |a| > 0 {
      var n := |a|;
      assert KeepsTiles(a[..n - 1], b[..n - 1]);
      CountPipsKept(a[..n - 1], b[..n - 1], p);
    }
  }

  /**
   The invariant of a call: tiles numbered 0..n-1, at most six of them, and
   for every pip value the budget left plus the tiles placed is three.
   */
  predicate CallOk(c: Child)
  {
    && 1 <= |c.config| <= MaxFormulaTiles
    && (forall i :: 0 <= i < |c.config| ==> c.config[i].id == i)
    && forall p :: 1 <= p <= 3 ==> c.budget.Get(p) >= 0 && c.budget.Get(p) + CountPips(c.config, p) == MaxPipsPerType
  }

  lemma SeedsOk()
    ensures forall i :: 0 <= i < |Seeds()| ==> CallOk(Seeds()[i])
  {
    forall i | 0 <= i < 3
      ensures CallOk(Seeds()[i])
    {
      var c := Seeds()[i].config;
      assert c[..0] == [];
      forall p | 1 <= p <= 3
        ensures CountPips(c, p) == if p == i + 1 then 1 else 0
      {
      }
    }
  }

  /** A child of a call that keeps the invariant keeps it too. */
  lemma ChildOk(config: Config, b: Budget, bonded: Config, spot: Coord, p: int)
    requires CallOk(Child(config, b)) && KeepsTiles(config, bonded) && |bonded| < MaxFormulaTiles
    requires 1 <= p <= 3 && b.Get(p) > 0
    ensures CallOk(Child(bonded + [NewTile(bonded, spot, p)], b.Take(p)))
  {
    var grown := bonded + [NewTile(bonded, spot, p)];
    assert grown[..|grown| - 1] == bonded;
    forall q | 1 <= q <= 3
      ensures CountPips(grown, q) == CountPips(config, q) + (if q == p then 1 else 0)
    {
      CountPipsKept(config, bonded, q);
    }
  }

  lemma ChildrenOk(env: Env, config: Config, b: Budget)
    requires CallOk(Child(config, b)) && ResolvesKeepingTiles(env, config)
    requires Expand(env, config, b).Branch?
    ensures forall i :: 0 <= i < |Expand(env, config, b).children| ==> CallOk(Expand(env, config, b).children[i])
  {
    var step := Expand(env, config, b);
    BranchChildren(env, config, b);
    forall i | 0 <= i < |step.children|
      ensures CallOk(step.children[i])
    {
      assert Placement(env, step.config, b, step.children[i]);
      var spot, p :| 1 <= p <= 3 && b.Get(p) > 0 && spot in env.spots(step.config) && env.accepts(step.config, spot, p)
                     && step.children[i] == Child(step.config + [NewTile(step.config, spot, p)], b.Take(p));
      ChildOk(config, b, step.config, spot, p);
    }
  }

  /** The arguments of every call of `recurseGenerate` made from this one, itself first, in call order. */
  function Calls(env: Env, config: Config, b: Budget): (cs: seq<Child>)
    ensures |cs| >= 1 && cs[0] == Child(config, b)
    decreases b.Measure(), 1
  {
    match Expand(env, config, b)
    case Branch(_, children) =>
      ChildrenDecrease(env, config, b);
      [Child(config, b)] + CallsAll(env, children, b.Measure())
    case _ => [Child(config, b)]
  }

  function CallsAll(env: Env, children: seq<Child>, bound: nat): seq<Child>
    requires MeasuresBelow(children, bound)
    decreases bound, 0, |children|
  {
    if |children| == 0 then []
    else Calls(env, children[0].config, children[0].budget) + CallsAll(env, children[1..], bound)
  }

  /**
   When the resolver only adds bonds, the invariant holds on every call below
   a call that has it: the budget never goes negative, each placed tile is
   paid for by its value's budget, ids stay 0..n-1, and no configuration grows
   beyond six tiles.
   */
  lemma {:induction false} CallsOk(env: Env, config: Config, b: Budget)
    requires ResolverKeepsTiles(env) && CallOk(Child(config, b))
    ensures forall i :: 0 <= i < |Calls(env, config, b)| ==> CallOk(Calls(env, config, b)[i])
    decreases b.Measure(), 1
  {
    var step := Expand(env, config, b);
    if step.Branch? {
      assert ResolvesKeepingTiles(env, config);
      ChildrenOk(env, config, b);
      ChildrenDecrease(env, config, b);
      CallsAllOk(env, step.children, b.Measure());
    }
  }

  lemma {:induction false} CallsAllOk(env: Env, children: seq<Child>, bound: nat)
    requires ResolverKeepsTiles(env) && MeasuresBelow(children, bound)
    requires forall i :: 0 <= i < |children| ==> CallOk(children[i])
    ensures forall i :: 0 <= i < |CallsAll(env, children, bound)| ==> CallOk(CallsAll(env, children, bound)[i])
    decreases bound, 0, |children|
  {
    if |children| > 0 {
      CallsOk(env, children[0].config, children[0].budget);
      CallsAllOk(env, children[1..], bound);
    }
  }

  /** Every call of a run, from each of the three seeds, satisfies the invariant. */
  lemma RunCallsOk(env: Env)
    requires ResolverKeepsTiles(env)
    ensures forall i :: 0 <= i < |CallsAll(env, Seeds(), 3 * MaxPipsPerType)| ==>
      CallOk(CallsAll(env, Seeds(), 3 * MaxPipsPerType)[i])
  {
    SeedsOk();
    CallsAllOk(env, Seeds(), 3 * MaxPipsPerType);
  }
}
