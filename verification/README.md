# Fixation Formula Finder — a Dafny model of the validator and the search

Fixation Formula Finder enumerates "formulas": small clusters of hexagonal
tiles on an axial (q, r) grid. Each tile carries 1, 2 or 3 pips, and a pip is
a bond to a neighbouring tile. A formula is valid when:

- the pip sum is even;
- no two tiles share a cell and every bond joins adjacent cells on distinct edges;
- every tile uses exactly as many bonds as it has pips, with reciprocal bonds and no self-bonds.

Valid formulas are classified by shape: Chain, Triangle, Ring, Star, Square,
Y-Shape, Arch, Cluster or Unknown. Each one is summarised by its pip
distribution, per-tile details and a chirality label, and has a
translation-normalised canonical form. The search starts from a single tile of
each pip value. It grows configurations one tile at a time under a budget of
three tiles per pip value and at most six tiles, and records each new valid
formula once.

This project models the validator (`validator.js`) and the search driver of
`script.js` (`recurseGenerate`, the seed loop of `generateFormulasDFS`, and
`processFoundFormula`). The model follows the code, including two of its
consequences that are easy to miss:

- The canonical form is translation-only. It does not fold rotations or
  reflections of the whole configuration; the comment at validator.js:409-412
  defers that to a later stage.
- `validateFormula` clears `seenConfigs` and `summary` on every call. As a
  result, `isDerivative` is always false, and the summary holds at most one
  shape with count 1.

Modules:

| module | file | what it holds |
|---|---|---|
| `Wrappers` | wrappers.dfy | `Option` |
| `Hex` | hex.dfy | axial coordinates, the six neighbour directions, distance, direction lookup |
| `Tiles` | tiles.dfy | `Tile`, `Config`, lookup by id as `new Map` (last wins) and as `find` (first wins) |
| `Text` | text.dfy | JavaScript string order, decimal rendering of integers, `split`/`join` |
| `Sorting` | sorting.dfy | insertion sort with a comparator (the model of `Array.prototype.sort`), permutation and uniqueness lemmas |
| `Validity` | validity.dfy | the pip-sum, valency and geometry checks |
| `Chirality` | chirality.dfy | bonded edge indices, the canonical chirality string, the chirality label |
| `BondGraph` | bondgraph.dfy | adjacency map and the cycle-detecting depth-first search |
| `Shapes` | shapes.dfy | node degrees and the shape predicates and classifier |
| `Canonical` | canonical.dfy | canonical form and derivative detection |
| `Validator` | validator.dfy | `validateFormula`, its report and its session state |
| `Search` | search.dfy | the recursive generator, the seeds, and de-duplication of found formulas |

Global mutable state (`seenConfigs`, `summary`, `globalSeenConfigs`,
`generatedFormulas`) is passed in and returned explicitly, as a `Session` or a
`RunState` value.

Three collaborators of `recurseGenerate` are fields of an `Env` value:

- `attemptAllPossibleBonds` (the resolver);
- `calculateViablePlacementSpots`;
- `checkIfSpotMeetsGamePlacementRules`.

script.js calls them (script.js:109, 149 and 155), but neither script.js nor
validator.js defines them, and visualizer.js only draws. Their bodies are
therefore not part of this model. The catalogue of known formulas, which the
page fetches as JSON, is also an `Env` field.

## Model

| member | source | states |
|---|---|---|
| Hex.Distance | validator.js:34-38 | twice the distance equals abs(dq) + abs(dr) + abs(dq + dr), and the distance equals the largest absolute cube-coordinate difference |
| Hex.DistanceSymmetric | validator.js:34-38 | the distance from a to b equals the distance from b to a |
| Hex.DistanceZeroIff | validator.js:34-38 | the distance is 0 exactly when the two cells coincide |
| Hex.DistanceOneIff | validator.js:4-11 | the distance is 1 exactly when the offset is one of the six neighbour directions |
| Hex.EdgeIndexOfDelta | validator.js:14-16 | the delta-to-edge table sends each neighbour direction to its own index and anything else to no index |
| Hex.RelativeDirection | validator.js:41-46 | a direction is found exactly when the cells are adjacent, and moving from `from` in that direction reaches `to` |
| Hex.RelativeDirectionOfNeighbor | validator.js:41-46 | the direction to the neighbour in direction e is e |
| Hex.RelativeDirectionSwap | validator.js:41-46 | the direction back is the opposite edge, (e + 3) mod 6 |
| Tiles.LookupById | validator.js:100-111 | the `new Map` lookup finds a tile exactly when one has the id, and it is the last tile with that id |
| Tiles.FindById | validator.js:154 | `find` finds a tile exactly when one has the id, and it is the first tile with that id |
| Tiles.LookupsAgree | validator.js:100-111 | with distinct ids, both lookups return the tile that has the id |
| Tiles.LookupsAgreeAnyId | validator.js:182 | with distinct ids, the `new Map` lookup and `find` agree on every id |
| Validity.IsValidPipSum | validator.js:93-96 | true exactly when the pip total is even |
| Validity.CheckConnections | validator.js:108-133 | a tile's bond list passes exactly when no target repeats, no target is already bonded, and every target is an existing adjacent tile that bonds back |
| Validity.CheckValency | validator.js:102-136 | true exactly when every tile passes the per-tile valency condition |
| Validity.IsValencySatisfied | validator.js:99-137 | true exactly when the declarative valency condition holds for all tiles |
| Validity.NoOverlap | validator.js:141-149 | true exactly when the cells are pairwise distinct |
| Validity.CollectEdges | validator.js:152-170 | the collected edge set has full size exactly when every bond is to an adjacent tile and no two bonds share an edge |
| Validity.CheckEdges | validator.js:151-173 | true exactly when every tile's bonds lie on distinct adjacent edges |
| Validity.IsGeometricallyValid | validator.js:140-175 | true exactly when cells are distinct and every bond lies on its own adjacent edge |
| Chirality.EdgeTo | validator.js:185-192 | a connection yields an edge exactly when the id map holds its target and the target is adjacent, and the edge is the target's direction from the tile |
| Chirality.FoundEdgesMembers | validator.js:184-194 | an index is collected exactly when some connection's target is present and adjacent in that direction |
| Chirality.FoundEdgesAll | validator.js:184-194 | when every target is present and adjacent, one index is collected per connection |
| Chirality.BondedEdgeIndices | validator.js:180-196 | the edge indices are sorted ascending, each lies in 0..5, and they are the collected indices reordered |
| Chirality.BondedEdgeMembers | validator.js:180-196 | the sorted list holds exactly the directions of the connections whose target is present and adjacent |
| Chirality.BondedEdgeCount | validator.js:180-196 | with valid geometry and distinct ids, a tile has one edge index per connection |
| Chirality.CanonicalChiralityString | validator.js:199-227 | "NONE" for no edges and "INVALID" for more than six; otherwise one of the twelve rotated or reflected bit strings, and not above any of them in string order |
| Chirality.CanonicalDependsOnlyOnMembers | validator.js:199-227 | two edge lists with the same members give the same string |
| Chirality.CanonicalRotationInvariant | validator.js:205-213 | rotating every edge by the same step leaves the string unchanged |
| Chirality.CanonicalReflectionInvariant | validator.js:215-225 | mirroring every edge leaves the string unchanged |
| Chirality.NonFullStartsWithZero | validator.js:199-227 | when some edge in 0..5 is unbonded, the string starts with '0' |
| Chirality.FullIsAllOnes | validator.js:199-227 | with all six edges, the string is "111111" |
| Chirality.ChiralityNameKeys | validator.js:20-29 | every key of the chirality table has six characters and starts with '1', and none is "111111", "NONE" or "INVALID" |
| Chirality.ChiralityIsAlwaysCustom | validator.js:230-234 | the chirality label of every tile in every configuration is "CUSTOM" |
| BondGraph.BuildAdjacency | validator.js:61-66 | the adjacency map has exactly the tile ids as keys |
| BondGraph.AdjacencyOfDistinct | validator.js:61-66 | with distinct ids, each tile's adjacency list is its own bond list |
| BondGraph.Dfs | validator.js:71-85 | a finished visit has marked the start node and everything visited before |
| BondGraph.NeverCrashes | validator.js:59-88 | when every bond target is a tile id, the search never looks up a missing id |
| BondGraph.CycleSearchSound | validator.js:59-88 | when the search reports a cycle, there is a simple cycle reachable from the first tile |
| BondGraph.CycleSearchComplete | validator.js:59-88 | with undirected bonds, a cycle reachable from the first tile makes the search report one |
| BondGraph.HasCycleIff | validator.js:59-88 | with undirected bonds and at least three tiles, `hasCycle` holds exactly when some cycle is reachable from the first tile |
| Shapes.KeysInOrder | validator.js:49-55 | the degree map's keys are the tile ids, each once |
| Shapes.NodeDegrees | validator.js:49-55 | one degree per distinct id, equal to the bond count of the last tile with that id |
| Shapes.DegreesOfDistinct | validator.js:49-55 | with distinct ids, the degrees are the tiles' bond counts in tile order |
| Shapes.CountEq | validator.js:244-245 | the count is the whole length exactly when every degree matches, and 0 exactly when none does |
| Shapes.CountAtLeast | validator.js:271-272 | the count is the whole length exactly when every degree reaches the bound, and 0 exactly when none does |
| Shapes.FirstHub | validator.js:262-281 | no hub exactly when every tile has fewer than three bonds; otherwise a hub is a tile of the configuration with at least three bonds |
| Shapes.Classify | validator.js:352-362 | "Unknown" only for at most three tiles; "Square" means four tiles, a cycle and degrees 2,2,3,3; "Arch" means no cycle and some degree of at least 3; "Cluster" means more than three tiles |
| Shapes.TriangleByDegrees | validator.js:250-254 | three tiles on a found cycle with degrees 2,2,2 are classified "Triangle" |
| Shapes.ChainByDegrees | validator.js:240-248 | three tiles with no cycle found and degrees 1,2,1 are classified "Chain" |
| Shapes.ArchByDegrees | validator.js:317-333 | six tiles with no cycle found and degrees 1,1,2,3,3,2 pass no earlier test and are classified "Arch" |
| Shapes.RingBeforeSquare | validator.js:352-357 | four or more tiles on a found cycle, each with two bonds, are classified "Ring", so the 2,2,2,2 case of `isSquare` never decides |
| Shapes.ArchDegrees | validator.js:317-333 | two degrees of 1, the rest at least 2 and one at least 3 mean at least three tiles and a degree sum of at least 2n - 1 |
| Shapes.TreePairsBound | validator.js:71-85 | when every bond out of the search tree is a tree edge, there are at most 2(n - 1) bond pairs |
| Shapes.ConnectedDegreeSum | validator.js:49-88 | a valid configuration connected to its first tile, with no cycle found, has a degree sum of at most 2(n - 1) |
| Shapes.ConnectedNeverArch | validator.js:317-362 | a valid configuration whose tiles are all reachable from the first one is never classified "Arch" |
| Shapes.ValidBondsUndirected | validator.js:99-137 | valency with distinct ids makes every bond target a tile and makes the adjacency symmetric |
| Shapes.ValidHasCycleIff | validator.js:59-88 | for a valid configuration of three or more tiles, `hasCycle` holds exactly when a cycle is reachable from the first tile |
| Shapes.TriangleExample | validator.js:250-254 | three mutually bonded tiles have a cycle and are classified "Triangle" |
| Shapes.RowExample | validator.js:240-248 | three tiles in a row have no cycle and are classified "Chain" |
| Shapes.DominoAndRhombusExample | validator.js:317-333 | a domino beside a separate four-tile rhombus contains the triangle 3-4-5, yet the search from the first tile finds no cycle, and the configuration is classified "Arch" |
| Canonical.CanonicalForm | validator.js:372-414 | the form is empty exactly when the configuration is empty |
| Canonical.CanonicalFormRoundTrip | validator.js:397-414 | reading the form back gives the translated (q, r, pips) entries, as a multiset, sorted by q, then r, then pips |
| Canonical.CanonicalFormIff | validator.js:372-414 | two configurations have the same form exactly when they hold the same multiset of translated (q, r, pips) entries |
| Canonical.TranslationInvariant | validator.js:376-396 | shifting every tile by the same offset leaves the form unchanged |
| Canonical.PositionsAndPipsDetermineForm | validator.js:372-414 | ids and bonds do not affect the form |
| Canonical.PermutationInvariant | validator.js:397-401 | reordering the tiles leaves the form unchanged |
| Canonical.IsDerivative | validator.js:417-424 | the result is true exactly when the form was already seen; the form is added to the seen set and nothing else is |
| Canonical.DerivativeIffEarlierSpots | validator.js:417-424 | fed a sequence of configurations, the k-th is flagged exactly when an earlier one holds the same translated entries |
| Canonical.TurnedDominoDiffers | validator.js:372-414 | a domino and the same domino turned by 60 degrees get different forms |
| Canonical.DiagonalPairHasNoOrigin | validator.js:376-381 | the q and r minima are taken separately, so a diagonal pair is shifted to (1,0) and (0,1), and no tile lands at (0,0) |
| Validator.Handshake | validator.js:93-137 | with distinct ids, valency forces an even pip sum |
| Validator.TwinIdsBreakHandshake | validator.js:93-175 | when two tiles share an id, valency and geometry can both hold while the pip sum is odd |
| Validator.ValencyClosed | validator.js:99-137 | valency makes every bond target a tile id |
| Validator.ValencyGivesGeometry | validator.js:99-175 | with distinct ids and distinct cells, valency implies the geometry condition |
| Validator.PipDistributionRoundTrip | validator.js:440 | splitting the pip distribution at ':' gives strings in JavaScript string order whose values are exactly the tiles' pips, as a multiset |
| Validator.StringOrderExample | validator.js:440 | pips [10, 9] give "10:9", because the default sort compares strings |
| Validator.Errors | validator.js:447-459 | each of the three messages appears exactly when its check fails, in the source's order, and nothing else appears |
| Validator.Tally | validator.js:491-495 | the shape's counter increases by one in the chosen column and every other shape is unchanged |
| Validator.Details | validator.js:462-480 | one detail per tile, with the id, the cell, the pips and the bond count; the tile is valid exactly when the bond count equals the pips; the chirality is "CUSTOM" |
| Validator.StructurallyValid | validator.js:447-488 | true exactly when the pip-sum, geometry and valency checks all pass; then every bond target is a tile id and every tile's bond count equals its pips, so the report is also complete |
| Validator.ValidateFormula | validator.js:429-498 | counts the tiles; valid exactly when all checks pass; complete equals valid; errors are empty exactly when valid; a valid report carries the classified shape and an invalid one "Unknown"; the pip distribution is that of the tiles; isDerivative is always false; the seen set and summary hold only this call's form and shape |
| Validator.LoneTileExample | validator.js:447-459 | a single one-pip tile fails the pip-sum and valency checks, in that order |
| Validator.DominoAndRhombusIsValidArch | validator.js:429-498 | the domino-plus-rhombus configuration is reported valid, complete and "Arch" |
| Search.MatchName | script.js:47-51 | a name is found exactly when some catalogue entry has the code and shape, and it is the first such entry's name |
| Search.ProcessFoundFormula | script.js:37-57 | appends exactly when the formula is valid and its form is new; the entry holds the configuration, its report and the name of the first catalogue entry with the report's pip distribution and shape (none when no entry matches); the form joins the seen set; otherwise nothing changes |
| Search.AppendKeepsRunOk | script.js:44-53 | recording a valid formula with a new form keeps every recorded formula valid and all forms distinct |
| Search.PipsToPlace | script.js:138-147 | the candidate pip values are exactly those with budget left, in increasing order |
| Search.Children | script.js:149-181 | each child adds one accepted tile of a candidate pip value and spends one of that value; every accepted pair yields a child |
| Search.Expand | script.js:105-147 | no resolution prunes; a resolved final configuration is exactly what completes; branching means not final, fewer than six tiles, matching parity and budget for the open pips, and those conditions force branching |
| Search.BranchChildren | script.js:138-181 | the children are exactly the accepted (spot, pip) pairs with budget left |
| Search.ChildrenDecrease | script.js:149-181 | every child has strictly less budget left, so the recursion terminates |
| Search.Generate | script.js:105-182 | the run state only grows and keeps every recorded formula valid with distinct forms; a failed resolution changes nothing; a resolved final configuration is handed to `processFoundFormula` and nothing else happens |
| Search.Seeds | script.js:68-83 | three seeds, one per pip value, each a lone tile at (0,0) with id 0, with one tile of its value spent from a budget of three |
| Search.GenerateFormulas | script.js:60-83 | the final run state records only valid, complete formulas with pairwise distinct forms |
| Search.CountPipsKept | script.js:109-114 | a resolver that keeps the tiles keeps the number of tiles of each pip value |
| Search.ChildOk | script.js:149-181 | placing a tile keeps sizes within 1..6, ids 0..n-1, and budget plus placed tiles at three for each pip value |
| Search.RunCallsOk | script.js:60-182 | every call of the search tree, seeds included, has 1 to 6 tiles, ids 0..n-1 and, for each pip value, budget left plus tiles placed equal to three |

## Left out

- visualizer.js (hex drawing only), and the page-side parts of script.js: drawing, the DOM lists, `showCurrentGeneratedFormula`, `displayKnownFormulas` and `addDiscoveredFormulaToList`. They only present results.
- The bodies of `attemptAllPossibleBonds`, `calculateViablePlacementSpots` and `checkIfSpotMeetsGamePlacementRules`. No file of the modelled source defines them, so they are `Env` parameters here.
- `loadKnownFormulas` and data/knownFormulas.js. The catalogue is fetched over the network and is an `Env` parameter here.
- `printSummary`, the console output and the `window` exports. They are I/O only.
- JSON deep copies (`JSON.parse(JSON.stringify(...))`) and object spreads. Values are immutable here, so a copy is the identity.
- `tile.connections ? … : 0` at validator.js:464. A tile always has a (possibly empty) bond list here.
- The `lastPlacedTileId` parameter of `recurseGenerate`. The body never reads it.
- The `TypeError` that `hasCycle` raises when a bond targets a missing id. `BondGraph.CycleSearch` returns a `Crashed` outcome for it. `HasCycle` and the shape predicates require every target to be a tile id, which valency guarantees (`Validator.ValencyClosed`).
- Search.Generate: states safety (the run state grows, and recorded formulas stay valid and distinct) and what one final configuration does, not which formulas the whole search finds. What it finds depends on the abstract resolver and placement rules.
- Search.GenerateFormulas: states only that the final run state satisfies the run invariant, for the same reason.
- Search.RunCallsOk: assumes the resolver keeps every tile's id, cell and pips and changes only bonds (`ResolverKeepsTiles`). The resolver's body is not part of this model.
- BondGraph.HasCycleIff: requires symmetric bonds and at least three tiles, as `validateFormula` guarantees before it classifies. On asymmetric input the source's parent-skip rule gives no clean characterisation.
- Shapes.Classify: its contract states a necessary condition for each result that has one, not the full characterisation of each shape predicate. The sufficient directions are proved for the cases the source's ordering makes interesting: `Shapes.TriangleByDegrees`, `Shapes.ChainByDegrees`, `Shapes.RingBeforeSquare`, `Shapes.ArchByDegrees`, and `Shapes.ConnectedNeverArch` for the converse.
- Canonical.CanonicalForm: folds translations only, because the code does. Rotations and reflections of the whole configuration are not folded; the comment at validator.js:409-412 leaves them for later (`Canonical.TurnedDominoDiffers`).
