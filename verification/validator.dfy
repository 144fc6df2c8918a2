/**
 `validateFormula`: the three structural checks, the per-tile details, the
 pip distribution, the shape and the derivative flag of one configuration,
 together with the module-level state it resets on every call (the set of
 seen canonical forms and the per-shape summary).
 */
module Validator {
  import opened Wrappers
  import opened Hex
  import opened Tiles
  import opened Text
  import opened Sorting
  import opened Validity
  import opened Chirality
  import opened BondGraph
  import opened Shapes
  import opened Canonical

  const PipSumMessage := "Invalid Pip Sum: Total pips must be even."
  const GeometryMessage := "Invalid Geometry: Tiles overlap or connections are invalid."
  const ValencyMessage := "Valency Not Satisfied: Not all pips are used correctly or connections are invalid."

  /** One element of `tilesDetails`. */
  datatype TileDetail = TileDetail(id: int, position: Coord, pips: int, bondsUsed: nat, isValid: bool, chirality: string)

  /** One value of the summary object. */
  datatype Counts = Counts(unique: nat, derivative: nat)

  /** The result record. */
  datatype Report = Report(
    totalTiles: nat,
    isValid: bool,
    isComplete: bool,
    shapeType: string,
    pipDistribution: string,
    isDerivative: bool,
    tilesDetails: seq<TileDetail>,
    validationErrors: seq<string>)

  /** The module-level state: `seenConfigs` and `summary`. */
  datatype Session = Session(seen: set<string>, summary: map<string, Counts>)

  datatype Validation = Validation(report: Report, session: Session)

  // ---------------------------------------------------------------------------
  // The handshake lemma

  /** Every (tile id, connection) pair of the tiles. */
  function Darts(tiles: Config): set<(int, int)>
  {
    if |tiles| == 0 then {}
    else
      var t := tiles[|tiles| - 1];
      Darts(tiles[..|tiles| - 1]) + TileDarts(t.id, t.connections)
  }

  /** The pairs (id, b) for the connections b of one tile. */
  function TileDarts(id: int, conns: seq<int>): (d: set<(int, int)>)
    ensures forall a, b :: (a, b) in d <==> a == id && b in conns
    decreases |conns|
  {
    if |conns| == 0 then {} else {(id, conns[0])} + TileDarts(id, conns[1..])
  }

  /** The total number of connections. */
  function BondCount(tiles: Config): nat
  {
    if |tiles| == 0 then 0 else BondCount(tiles[..|tiles| - 1]) + |tiles[|tiles| - 1].connections|
  }

  lemma {:induction false} DartsMember(tiles: Config, a: int, b: int)
    ensures (a, b) in Darts(tiles) <==> exists i :: 0 <= i < |tiles| && tiles[i].id == a && b in tiles[i].connections
    decreases |tiles|
  {
    if |tiles| > 0 {
      var init := tiles[..|tiles| - 1];
      DartsMember(init, a, b);
      assert forall i :: 0 <= i < |init| ==> init[i] == tiles[i];
    }
  }

  lemma {:induction false} PairsCount(id: int, conns: seq<int>)
    requires NoDuplicates(conns)
    ensures |TileDarts(id, conns)| == |conns|
    decreases |conns|
  {
    if |conns| > 0 {
      var rest := conns[1..];
      assert NoDuplicates(rest) by {
        assert forall i :: 0 <= i < |rest| ==> rest[i] == conns[i + 1];
      }
      PairsCount(id, rest);
      assert conns[0] !in rest by {
        assert forall i :: 0 <= i < |rest| ==> rest[i] == conns[i + 1];
      }
      assert (id, conns[0]) !in TileDarts(id, rest);
    }
  }

  /** With distinct ids and repeat-free connections, each connection is its own dart. */
  lemma {:induction false} DartsCount(tiles: Config)
    requires DistinctIds(tiles)
    requires forall i :: 0 <= i < |tiles| ==> NoDuplicates(tiles[i].connections)
    ensures |Darts(tiles)| == BondCount(tiles)
    decreases |tiles|
  {
    if |tiles| > 0 {
      var init, t := tiles[..|tiles| - 1], tiles[|tiles| - 1];
      assert forall i :: 0 <= i < |init| ==> init[i] == tiles[i];
      DartsCount(init);
      PairsCount(t.id, t.connections);
      var own := TileDarts(t.id, t.connections);
      forall p | p in Darts(init)
        ensures p !in own
      {
        DartsMember(init, p.0, p.1);
      }
      assert Darts(init) * own == {};
    }
  }

  /** A set of pairs closed under swapping and free of (a, a) has even size. */
  lemma SymmetricEven(d: set<(int, int)>)
    requires forall p :: p in d ==> (p.1, p.0) in d && p.0 != p.1
    ensures |d| % 2 == 0
    decreases |d|
  {
    if d != {} {
      var p :| p in d;
      var rest := d - {p, (p.1, p.0)};
      SymmetricEven(rest);
    }
  }

  lemma {:induction false} BondCountIsPipSum(tiles: Config)
    requires forall i :: 0 <= i < |tiles| ==> |tiles[i].connections| == tiles[i].pips
    ensures BondCount(tiles) == PipSum(tiles)
    decreases |tiles|
  {
    if |tiles| > 0 {
      var init := tiles[..|tiles| - 1];
      assert forall i :: 0 <= i < |init| ==> init[i] == tiles[i];
      BondCountIsPipSum(init);
    }
  }

  /**
   The handshake lemma behind the pip-sum check: when the ids are distinct,
   satisfied valency already forces an even pip sum.
   */
  lemma Handshake(config: Config)
    requires DistinctIds(config) && ValencyHolds(config)
    ensures IsValidPipSum(config)
  {
    var d := Darts(config);
    forall p | p in d
      ensures (p.1, p.0) in d && p.0 != p.1
    {
      DartsMember(config, p.0, p.1);
      var i :| 0 <= i < |config| && config[i].id == p.0 && p.1 in config[i].connections;
      var j :| 0 <= j < |config[i].connections| && config[i].connections[j] == p.1;
      assert BondOk(config, config[i], p.1);
      var target := LookupById(config, p.1).value;
      var k :| 0 <= k < |config| && config[k] == target;
      LookupsAgree(config, i);
      assert Distance(config[i].Pos(), config[i].Pos()) == 0;
      DartsMember(config, p.1, p.0);
    }
    SymmetricEven(d);
    DartsCount(config);
    BondCountIsPipSum(config);
    assert PipSum(config) == 2 * (PipSum(config) / 2);
  }

  /**
   Without distinct ids the checks disagree: `new Map` resolves an id to the
   last tile carrying it and `find` to the first, so three 1-pip tiles pass
   the valency and geometry checks with an odd pip sum.
   */
  const TwinIds: Config := [Tile(0, 0, 0, 1, [1], 0), Tile(1, 1, 0, 1, [0], 0), Tile(1, -1, 0, 1, [0], 0)]

  lemma TwinIdsValency()
    ensures ValencyHolds(TwinIds)
  {
    var c := TwinIds;
    assert LookupById(c, 0) == Some(c[0]);
    assert LookupById(c, 1) == Some(c[2]);
    assert TileValencyOk(c, c[0]);
    assert TileValencyOk(c, c[1]);
    assert TileValencyOk(c, c[2]);
  }

  lemma OneBondEdgesOk(config: Config, t: Tile)
    requires |t.connections| == 1 && BondDirection(config, t, t.connections[0]).Some?
    ensures TileEdgesOk(config, t)
  {
  }

  lemma TwinIdsFind()
    ensures FindById(TwinIds, 0) == Some(TwinIds[0])
    ensures FindById(TwinIds, 1) == Some(TwinIds[1])
  {
  }

  lemma TwinIdsPositions()
    ensures DistinctPositions(TwinIds)
  {
  }

  lemma TwinIdsEdges(k: nat)
    requires k < 3
    ensures TileEdgesOk(TwinIds, TwinIds[k])
  {
    var c := TwinIds;
    TwinIdsFind();
    var t := c[k];
    var target := if k == 0 then c[1] else c[0];
    assert FindById(c, t.connections[0]) == Some(target);
    assert Distance(t.Pos(), target.Pos()) == 1;
    OneBondEdgesOk(c, t);
  }

  lemma TwinIdsGeometry()
    ensures GeometryHolds(TwinIds)
  {
    TwinIdsPositions();
    forall k | 0 <= k < |TwinIds|
      ensures TileEdgesOk(TwinIds, TwinIds[k])
    {
      TwinIdsEdges(k);
    }
  }

  lemma TwinIdsBreakHandshake()
    ensures !DistinctIds(TwinIds)
    ensures ValencyHolds(TwinIds) && GeometryHolds(TwinIds)
    ensures !IsValidPipSum(TwinIds)
  {
    TwinIdsValency();
    TwinIdsGeometry();
    var c := TwinIds;
    assert c[1].id == c[2].id;
    assert PipSum(c[..1]) == 1 by {
      assert c[..1][..0] == [];
    }
    assert PipSum(c[..2]) == 2 by {
      assert c[..2][..1] == c[..1];
    }
    assert c[..3] == c;
    assert PipSum(c) == 3;
  }

  // ---------------------------------------------------------------------------
  // Consequences of a passing valency check

  /** Satisfied valency names only tiles of the configuration. */
  lemma ValencyClosed(config: Config)
    requires ValencyHolds(config)
    ensures Closed(config)
  {
    forall i, j | 0 <= i < |config| && 0 <= j < |config[i].connections|
      ensures config[i].connections[j] in Ids(config)
    {
      assert BondOk(config, config[i], config[i].connections[j]);
      var target := LookupById(config, config[i].connections[j]).value;
      var k :| 0 <= k < |config| && config[k] == target;
    }
  }

  /**
   With distinct ids and positions, satisfied valency implies the edge part
   of the geometry check: each bond leaves by its own edge, because two bonds
   on one edge would reach the same position and hence the same tile.
   */
  lemma ValencyGivesGeometry(config: Config)
    requires DistinctIds(config) && DistinctPositions(config) && ValencyHolds(config)
    ensures GeometryHolds(config)
  {
    forall i | 0 <= i < |config|
      ensures TileEdgesOk(config, config[i])
    {
      var t := config[i];
      forall j | 0 <= j < |t.connections|
        ensures BondDirection(config, t, t.connections[j]).Some?
      {
        var _ := BondFound(config, t, t.connections[j]);
      }
      forall j, k | 0 <= j < k < |t.connections|
        ensures BondDirection(config, t, t.connections[j]) != BondDirection(config, t, t.connections[k])
      {
        var a, b := t.connections[j], t.connections[k];
        var ta := BondFound(config, t, a);
        var tb := BondFound(config, t, b);
        assert a != b;
        assert ta.id != tb.id;
      }
    }
  }

  /** A valid bond's target: found by both lookups, adjacent, and reached along its direction. */
  lemma BondFound(config: Config, t: Tile, c: int) returns (target: Tile)
    requires DistinctIds(config) && BondOk(config, t, c)
    ensures FindById(config, c) == Some(target) && target.id == c && target in config
    ensures BondDirection(config, t, c).Some?
    ensures target.Pos() == Add(t.Pos(), NeighborDirs[BondDirection(config, t, c).value])
  {
    target := LookupById(config, c).value;
    var k :| 0 <= k < |config| && config[k] == target;
    LookupsAgree(config, k);
  }

  // ---------------------------------------------------------------------------
  // The result record

  /** An element of `tilesDetails`. */
  function Detail(t: Tile, config: Config): TileDetail
  {
    TileDetail(t.id, t.Pos(), t.pips, |t.connections|, |t.connections| == t.pips, ChiralityForTile(t, config))
  }

  /**
   `config.map(t => t.pips).sort().join(":")`: without a comparator the sort
   compares the decimal strings of the numbers.
   */
  function PipDistribution(config: Config): string
  {
    Join(Sort(MapSeq(PipString, config), LexLe), ":")
  }

  function PipString(t: Tile): string
  {
    IntToString(t.pips)
  }

  function PipsOf(t: Tile): int
  {
    t.pips
  }

  lemma LexLeIsTotalPreorder()
    ensures TotalPreorder(LexLe)
  {
    forall a, b
      ensures LexLe(a, b) || LexLe(b, a)
    {
      LexLeTotal(a, b);
    }
    forall a, b, c | LexLe(a, b) && LexLe(b, c)
      ensures LexLe(a, c)
    {
      LexLeTransitive(a, b, c);
    }
  }

  lemma PipStringsRoundTrip(config: Config)
    ensures MapSeq(IntValue, MapSeq(PipString, config)) == MapSeq(PipsOf, config)
  {
    var values := MapSeq(IntValue, MapSeq(PipString, config));
    forall i | 0 <= i < |config|
      ensures values[i] == MapSeq(PipsOf, config)[i]
    {
      IntToStringRoundTrip(config[i].pips);
    }
  }

  lemma SortedPipStringsAvoidColon(config: Config)
    ensures forall k :: 0 <= k < |config| ==> ':' !in Sort(MapSeq(PipString, config), LexLe)[k]
  {
    var strs := MapSeq(PipString, config);
    var sorted := Sort(strs, LexLe);
    forall k | 0 <= k < |sorted|
      ensures ':' !in sorted[k]
    {
      assert sorted[k] in multiset(strs);
      var i :| 0 <= i < |strs| && strs[i] == sorted[k];
      IntToStringAvoids(config[i].pips, ':');
    }
  }

  /**
   Reading the distribution back: splitting at ':' gives the pips' decimal
   strings in string order, and their values are the pips of the tiles.
   */
  lemma PipDistributionRoundTrip(config: Config)
    requires |config| > 0
    ensures SortedBy(Split(PipDistribution(config), ':'), LexLe)
    ensures multiset(MapSeq(IntValue, Split(PipDistribution(config), ':'))) == multiset(MapSeq(PipsOf, config))
  {
    var strs := MapSeq(PipString, config);
    var sorted := Sort(strs, LexLe);
    SortedPipStringsAvoidColon(config);
    SplitJoin(sorted, ':');
    assert Split(PipDistribution(config), ':') == sorted;
    LexLeIsTotalPreorder();
    SortSorted(strs, LexLe);
    MapSeqMultiset(IntValue, sorted, strs);
    PipStringsRoundTrip(config);
  }

  /** The position of a message in the fixed order of the three checks. */
  function ErrorRank(e: string): nat
  {
    if e == PipSumMessage then 0 else if e == GeometryMessage then 1 else 2
  }

  /** The three messages are different strings, ranked 0, 1 and 2. */
  lemma MessagesRanked()
    ensures ErrorRank(PipSumMessage) == 0 && ErrorRank(GeometryMessage) == 1 && ErrorRank(ValencyMessage) == 2
    ensures PipSumMessage != GeometryMessage && PipSumMessage != ValencyMessage && GeometryMessage != ValencyMessage
  {
    assert |PipSumMessage| == 41 && |GeometryMessage| == 59 && |ValencyMessage| == 82;
  }

  /** The messages of the failed checks among pip sum, geometry and valency, in that order. */
  function FailedChecks(pipsOk: bool, geometryOk: bool, valencyOk: bool): (errors: seq<string>)
    ensures forall i :: 0 <= i < |errors| ==> errors[i] in {PipSumMessage, GeometryMessage, ValencyMessage}
    ensures forall i, j :: 0 <= i < j < |errors| ==> ErrorRank(errors[i]) < ErrorRank(errors[j])
    ensures PipSumMessage in errors <==> !pipsOk
    ensures GeometryMessage in errors <==> !geometryOk
    ensures ValencyMessage in errors <==> !valencyOk
  {
    MessagesRanked();
    (if pipsOk then [] else [PipSumMessage])
    + (if geometryOk then [] else [GeometryMessage])
    + (if valencyOk then [] else [ValencyMessage])
  }

  /** One message per failing check, in the order pip sum, geometry, valency. */
  function Errors(config: Config): (errors: seq<string>)
    ensures forall i :: 0 <= i < |errors| ==> errors[i] in {PipSumMessage, GeometryMessage, ValencyMessage}
    ensures forall i, j :: 0 <= i < j < |errors| ==> ErrorRank(errors[i]) < ErrorRank(errors[j])
    ensures PipSumMessage in errors <==> !(exists k :: PipSum(config) == 2 * k)
    ensures GeometryMessage in errors <==> !GeometryHolds(config)
    ensures ValencyMessage in errors <==> !ValencyHolds(config)
  {
    FailedChecks(IsValidPipSum(config), IsGeometricallyValid(config), IsValencySatisfied(config))
  }

  /** `summary[shape][derivative ? 'derivative' : 'unique']++`, creating the entry when missing. */
  function Tally(summary: map<string, Counts>, shape: string, derivative: bool): (after: map<string, Counts>)
    ensures after.Keys == summary.Keys + {shape}
    ensures forall k :: k in summary && k != shape ==> after[k] == summary[k]
  {
    var c := if shape in summary then summary[shape] else Counts(0, 0);
    summary[shape := if derivative then c.(derivative := c.derivative + 1) else c.(unique := c.unique + 1)]
  }

  /** `tilesDetails`: one entry per tile, in order; every chirality is "CUSTOM". */
  function Details(config: Config): (ds: seq<TileDetail>)
    ensures |ds| == |config|
    ensures forall i :: 0 <= i < |config| ==>
      && ds[i].id == config[i].id && ds[i].position == config[i].Pos() && ds[i].pips == config[i].pips
      && ds[i].bondsUsed == |config[i].connections| && (ds[i].isValid <==> ds[i].bondsUsed == ds[i].pips)
      && ds[i].chirality == "CUSTOM"
  {
    var ds := seq(|config|, i requires 0 <= i < |config| => Detail(config[i], config));
    assert forall i :: 0 <= i < |config| ==> ds[i].chirality == "CUSTOM" by {
      forall i | 0 <= i < |config|
        ensures ds[i].chirality == "CUSTOM"
      {
        ChiralityIsAlwaysCustom(config[i], config);
      }
    }
    ds
  }

  /** The structural checks, as the three calls of step 1 combine them. */
  function StructurallyValid(config: Config): (ok: bool)
    ensures ok <==> (exists k :: PipSum(config) == 2 * k) && GeometryHolds(config) && ValencyHolds(config)
    ensures ok ==> Closed(config) && forall i :: 0 <= i < |config| ==> |config[i].connections| == config[i].pips
  {
    var ok := IsValidPipSum(config) && IsGeometricallyValid(config) && IsValencySatisfied(config);
    if ok then
      ValencyClosed(config);
      assert forall i :: 0 <= i < |config| ==> TileValencyOk(config, config[i]);
      ok
    else ok
  }

  /** The error list is empty exactly when the structural checks pass. */
  lemma NoErrorsIffValid(config: Config)
    ensures Errors(config) == [] <==> StructurallyValid(config)
  {
    var errors := Errors(config);
    if errors != [] {
      assert errors[0] in errors;
    }
  }

  /** A structurally valid configuration has every tile's bonds complete. */
  lemma ValidIsComplete(config: Config)
    ensures StructurallyValid(config) ==> forall i :: 0 <= i < |config| ==> Details(config)[i].isValid
  {
  }

  /** The first tally of a cleared summary. */
  lemma TallyFirst(shape: string)
    ensures Tally(map[], shape, false) == map[shape := Counts(1, 0)]
  {
  }

  /** On a cleared seen set the form is new, and it is then the only one seen. */
  lemma FirstSighting(config: Config)
    ensures IsDerivative({}, config) == (false, {CanonicalForm(config)})
  {
    var out := IsDerivative({}, config);
    assert out.1 == {CanonicalForm(config)};
  }

  /**
   Step 3 and the summary update for a configuration that passed every check,
   starting from the cleared session.
   */
  function Accept(config: Config, distribution: string, details: seq<TileDetail>, errors: seq<string>): (v: Validation)
    requires Closed(config)
    ensures v.report.shapeType == Classify(config) && !v.report.isDerivative
    ensures v.report.isValid && v.report.isComplete
    ensures v.session.seen == {CanonicalForm(config)}
    ensures v.session.summary == map[v.report.shapeType := Counts(1, 0)]
    ensures v.report.totalTiles == |config| && v.report.pipDistribution == distribution
    ensures v.report.tilesDetails == details && v.report.validationErrors == errors
  {
    var cleared := Session({}, map[]);
    var shape := Classify(config);
    var tracked := IsDerivative(cleared.seen, config);
    FirstSighting(config);
    var report := Report(|config|, true, true, shape, distribution, tracked.0, details, errors);
    TallyFirst(shape);
    Validation(report, Session(tracked.1, Tally(cleared.summary, shape, tracked.0)))
  }

  /**
   `validateFormula`. The session is cleared first, so the incoming state
   plays no part: the derivative flag is always false and afterwards the
   summary holds at most the one shape of this configuration.
   */
  function ValidateFormula(session: Session, config: Config): (v: Validation)
    ensures v.report.totalTiles == |config|
    ensures v.report.isValid <==>
      (exists k :: PipSum(config) == 2 * k) && GeometryHolds(config) && ValencyHolds(config)
    ensures v.report.isComplete == v.report.isValid
    ensures v.report.validationErrors == Errors(config)
    ensures v.report.validationErrors == [] <==> v.report.isValid
    ensures v.report.isValid ==> Closed(config) && v.report.shapeType == Classify(config)
    ensures !v.report.isValid ==> v.report.shapeType == "Unknown"
    ensures !v.report.isDerivative
    ensures v.report.tilesDetails == Details(config)
    ensures v.report.pipDistribution == PipDistribution(config)
    ensures v.session.seen == if v.report.isValid then {CanonicalForm(config)} else {}
    ensures v.report.isValid ==> v.session.summary == map[v.report.shapeType := Counts(1, 0)]
    ensures !v.report.isValid ==> v.session.summary == map[]
  {
    var cleared := Session({}, map[]);
    var isValid := StructurallyValid(config);
    var errors := Errors(config);
    NoErrorsIffValid(config);
    var details := Details(config);
    var isComplete := forall i :: 0 <= i < |config| ==> details[i].isValid;
    ValidIsComplete(config);
    var distribution := PipDistribution(config);
    if isValid && isComplete then Accept(config, distribution, details, errors)
    else
      var report := Report(|config|, isValid, false, "Unknown", distribution, false, details, errors);
      Validation(report, cleared)
  }

  // ---------------------------------------------------------------------------
  // Examples

  lemma TenAndNineStrings()
    ensures IntToString(10) == "10" && IntToString(9) == "9"
  {
    assert NatToString(10) == NatToString(1) + [DigitChar(0)];
  }

  lemma TenBeforeNine()
    ensures Sort(["10", "9"], LexLe) == ["10", "9"]
  {
    assert LexLess("10", "9");
    assert ["10", "9"][..1] == ["10"];
    assert Sort(["10"], LexLe) == ["10"];
  }

  /** The default sort puts 10 before 9. */
  lemma StringOrderExample()
    ensures PipDistribution([Tile(0, 0, 0, 10, [], 0), Tile(1, 1, 0, 9, [], 0)]) == "10:9"
  {
    var c := [Tile(0, 0, 0, 10, [], 0), Tile(1, 1, 0, 9, [], 0)];
    var strs := MapSeq(PipString, c);
    TenAndNineStrings();
    assert strs[0] == "10" && strs[1] == "9";
    assert strs == ["10", "9"];
    TenBeforeNine();
    calc {
      PipDistribution(c);
      Join(Sort(strs, LexLe), ":");
      Join(["10", "9"], ":");
      { assert ["10", "9"][1..] == ["9"]; }
      "10" + ":" + "9";
    }
  }

  /** A lone 1-pip tile fails the pip-sum and valency checks, reported in that order. */
  lemma LoneTileExample(session: Session)
    ensures var r := ValidateFormula(session, [Tile(0, 0, 0, 1, [], 0)]).report;
      !r.isValid && r.validationErrors == [PipSumMessage, ValencyMessage] && r.shapeType == "Unknown"
  {
    LoneTileErrors();
  }

  lemma LoneTileErrors()
    ensures Errors([Tile(0, 0, 0, 1, [], 0)]) == [PipSumMessage, ValencyMessage]
  {
    var c := [Tile(0, 0, 0, 1, [], 0)];
    assert PipSum(c) == 1;
    assert !IsValidPipSum(c);
    assert IsGeometricallyValid(c);
    assert !TileValencyOk(c, c[0]);
    assert !IsValencySatisfied(c);
  }

  /**
   Tile i is numbered lo + i, uses all its pips, and bonds without repeats to
   tiles in range that are adjacent and bond back.
   */
  predicate NumberedBonds(config: Config, lo: int, i: nat)
    requires i < |config|
  {
    var t := config[i];
    && t.id == lo + i
    && |t.connections| == t.pips && NoDuplicates(t.connections)
    && forall j :: 0 <= j < |t.connections| ==>
         var b := t.connections[j];
         && lo <= b < lo + |config|
         && Distance(t.Pos(), config[b - lo].Pos()) == 1
         && t.id in config[b - lo].connections
  }

  lemma ValencyWhenNumbered(config: Config, lo: int)
    requires forall i :: 0 <= i < |config| ==> NumberedBonds(config, lo, i)
    ensures DistinctIds(config) && ValencyHolds(config)
  {
    assert forall i :: 0 <= i < |config| ==> config[i].id == lo + i by {
      forall i | 0 <= i < |config|
        ensures config[i].id == lo + i
      {
        assert NumberedBonds(config, lo, i);
      }
    }
    forall i, j | 0 <= i < |config| && 0 <= j < |config[i].connections|
      ensures BondOk(config, config[i], config[i].connections[j])
    {
      assert NumberedBonds(config, lo, i);
      var k := config[i].connections[j] - lo;
      assert NumberedBonds(config, lo, k);
      LookupsAgree(config, k);
    }
    forall i | 0 <= i < |config|
      ensures TileValencyOk(config, config[i])
    {
      assert NumberedBonds(config, lo, i);
    }
  }

  lemma DominoAndRhombusBonds(i: nat)
    requires i < 6
    ensures NumberedBonds(DominoAndRhombus, 1, i)
  {
    var c := DominoAndRhombus;
    if i == 0 {
      assert c[1] == Tile(2, 6, 0, 1, [1], 0);
    } else if i == 1 {
      assert c[0] == Tile(1, 5, 0, 1, [2], 0);
    } else if i == 2 {
      assert c[3] == Tile(4, 1, 0, 3, [3, 5, 6], 0) && c[4] == Tile(5, 0, 1, 3, [3, 4, 6], 0);
    } else if i == 3 {
      assert c[2] == Tile(3, 0, 0, 2, [4, 5], 0) && c[4] == Tile(5, 0, 1, 3, [3, 4, 6], 0);
      assert c[5] == Tile(6, 1, 1, 2, [4, 5], 0);
    } else if i == 4 {
      assert c[2] == Tile(3, 0, 0, 2, [4, 5], 0) && c[3] == Tile(4, 1, 0, 3, [3, 5, 6], 0);
      assert c[5] == Tile(6, 1, 1, 2, [4, 5], 0);
    } else {
      assert c[3] == Tile(4, 1, 0, 3, [3, 5, 6], 0) && c[4] == Tile(5, 0, 1, 3, [3, 4, 6], 0);
    }
  }

  lemma DominoAndRhombusValency()
    ensures DistinctIds(DominoAndRhombus) && ValencyHolds(DominoAndRhombus)
  {
    forall i | 0 <= i < |DominoAndRhombus|
      ensures NumberedBonds(DominoAndRhombus, 1, i)
    {
      DominoAndRhombusBonds(i);
    }
    ValencyWhenNumbered(DominoAndRhombus, 1);
  }

  lemma DominoAndRhombusPositions()
    ensures DistinctPositions(DominoAndRhombus)
  {
  }

  /**
   A configuration that passes every check and is classified as an Arch: the
   cycle test starts in the domino and never sees the rhombus's triangle.
   */
  lemma DominoAndRhombusIsValidArch(session: Session)
    ensures var r := ValidateFormula(session, DominoAndRhombus).report;
      r.isValid && r.isComplete && r.shapeType == "Arch"
  {
    DominoAndRhombusValency();
    DominoAndRhombusPositions();
    ValencyGivesGeometry(DominoAndRhombus);
    Handshake(DominoAndRhombus);
    DominoAndRhombusExample();
  }
}
