/**
 The canonical form used for duplicate detection: positions are shifted by
 the smallest q and the smallest r (taken independently), the tiles are sorted
 by (q, r, pips) and each is written as "q,r,pips,chirality", joined by "|".
 The form forgets ids, bonds and the absolute position, and nothing else:
 two configurations get the same form exactly when their shifted (q, r, pips)
 multisets agree. Rotations and reflections of the whole configuration are
 not identified.
 */
module Canonical {
  import opened Wrappers
  import opened Tiles
  import opened Text
  import opened Sorting
  import opened Chirality

  /** What the canonical form keeps of a tile: shifted position and pips. */
  datatype Spot = Spot(q: int, r: int, pips: int)

  /** One element of `normalizedTiles`. */
  datatype Entry = Entry(id: int, q: int, r: int, pips: int)

  function EntrySpot(e: Entry): Spot
  {
    Spot(e.q, e.r, e.pips)
  }

  /** The smallest q, as the loop from Infinity computes it for a non-empty configuration. */
  function MinQ(config: Config): (m: int)
    requires |config| > 0
    ensures forall i :: 0 <= i < |config| ==> m <= config[i].q
    ensures exists i :: 0 <= i < |config| && config[i].q == m
  {
    if |config| == 1 then config[0].q
    else
      var m := MinQ(config[..|config| - 1]);
      assert forall i :: 0 <= i < |config| - 1 ==> config[..|config| - 1][i] == config[i];
      if config[|config| - 1].q < m then config[|config| - 1].q else m
  }

  /** The smallest r, independently of which tile has the smallest q. */
  function MinR(config: Config): (m: int)
    requires |config| > 0
    ensures forall i :: 0 <= i < |config| ==> m <= config[i].r
    ensures exists i :: 0 <= i < |config| && config[i].r == m
  {
    if |config| == 1 then config[0].r
    else
      var m := MinR(config[..|config| - 1]);
      assert forall i :: 0 <= i < |config| - 1 ==> config[..|config| - 1][i] == config[i];
      if config[|config| - 1].r < m then config[|config| - 1].r else m
  }

  function Normalizer(minQ: int, minR: int): Tile -> Entry
  {
    (t: Tile) => Entry(t.id, t.q - minQ, t.r - minR, t.pips)
  }

  function NormalizedEntries(config: Config): (es: seq<Entry>)
    requires |config| > 0
    ensures |es| == |config|
    ensures forall i :: 0 <= i < |config| ==> es[i].id == config[i].id
  {
    MapSeq(Normalizer(MinQ(config), MinR(config)), config)
  }

  /** The comparator: by q, then r, then pips, read as "may come first". */
  predicate SpotLe(a: Spot, b: Spot)
  {
    a.q < b.q || (a.q == b.q && (a.r < b.r || (a.r == b.r && a.pips <= b.pips)))
  }

  predicate EntryLe(a: Entry, b: Entry)
  {
    SpotLe(EntrySpot(a), EntrySpot(b))
  }

  lemma SpotLeIsTotalOrder()
    ensures TotalPreorder(SpotLe) && Antisymmetric(SpotLe)
  {
  }

  lemma EntryLeIsTotalPreorder()
    ensures TotalPreorder(EntryLe)
  {
  }

  function SortedEntries(config: Config): (sorted: seq<Entry>)
    requires |config| > 0
    ensures |sorted| == |config|
    ensures forall k :: 0 <= k < |sorted| ==> sorted[k].id in Ids(config)
  {
    var es := NormalizedEntries(config);
    var sorted := Sort(es, EntryLe);
    assert forall k :: 0 <= k < |sorted| ==> sorted[k].id in Ids(config) by {
      forall k | 0 <= k < |sorted|
        ensures sorted[k].id in Ids(config)
      {
        assert sorted[k] in multiset(es);
        var i :| 0 <= i < |es| && es[i] == sorted[k];
      }
    }
    sorted
  }

  /** "q,r,pips,chirality", the chirality of the FIRST tile carrying the entry's id. */
  function EntryString(e: Entry, config: Config): string
    requires e.id in Ids(config)
  {
    var t := FindById(config, e.id);
    assert t.Some? by {
      var i :| 0 <= i < |config| && config[i].id == e.id;
    }
    IntToString(e.q) + "," + IntToString(e.r) + "," + IntToString(e.pips) + "," + ChiralityForTile(t.value, config)
  }

  /** `getCanonicalForm`. */
  function CanonicalForm(config: Config): (s: string)
    ensures s == "" <==> |config| == 0
  {
    if |config| == 0 then ""
    else
      var parts := EntryStrings(config);
      JoinNonEmpty(parts, "|");
      Join(parts, "|")
  }

  /** The entry strings of the sorted entries, in order. */
  function EntryStrings(config: Config): (parts: seq<string>)
    requires |config| > 0
    ensures |parts| == |config|
    ensures forall k :: 0 <= k < |parts| ==> parts[k] == EntryString(SortedEntries(config)[k], config)
  {
    var sorted := SortedEntries(config);
    seq(|sorted|, k requires 0 <= k < |sorted| => EntryString(sorted[k], config))
  }

  lemma JoinNonEmpty(parts: seq<string>, sep: string)
    requires |parts| > 0 && |parts[0]| > 0
    ensures |Join(parts, sep)| > 0
  {
  }

  // ---------------------------------------------------------------------------
  // The form as a function of the shifted spots

  /** An entry string with the chirality every tile gets. */
  function SpotString(sp: Spot): string
  {
    IntToString(sp.q) + "," + IntToString(sp.r) + "," + IntToString(sp.pips) + "," + "CUSTOM"
  }

  function Render(spots: seq<Spot>): string
  {
    Join(MapSeq(SpotString, spots), "|")
  }

  /** The shifted (q, r, pips) of every tile, in configuration order. */
  function NormalizedSpots(config: Config): (spots: seq<Spot>)
    requires |config| > 0
    ensures |spots| == |config|
    ensures forall i :: 0 <= i < |config| ==>
      spots[i] == Spot(config[i].q - MinQ(config), config[i].r - MinR(config), config[i].pips)
  {
    MapSeq(EntrySpot, NormalizedEntries(config))
  }

  /** Every tile's (q - minQ, r - minR, pips). */
  function ShiftedSpots(config: Config, minQ: int, minR: int): seq<Spot>
  {
    seq(|config|, i requires 0 <= i < |config| => Spot(config[i].q - minQ, config[i].r - minR, config[i].pips))
  }

  lemma NormalizedSpotAt(config: Config, i: nat)
    requires i < |config|
    ensures NormalizedSpots(config)[i] == ShiftedSpots(config, MinQ(config), MinR(config))[i]
  {
  }

  lemma NormalizedSpotsShifted(config: Config)
    requires |config| > 0
    ensures NormalizedSpots(config) == ShiftedSpots(config, MinQ(config), MinR(config))
  {
    var ns, ss := NormalizedSpots(config), ShiftedSpots(config, MinQ(config), MinR(config));
    forall i | 0 <= i < |config|
      ensures ns[i] == ss[i]
    {
      NormalizedSpotAt(config, i);
    }
  }

  /** Every entry renders as its spot, because every chirality is "CUSTOM". */
  lemma EntryRendersAsSpot(e: Entry, config: Config)
    requires e.id in Ids(config)
    ensures EntryString(e, config) == SpotString(EntrySpot(e))
  {
    var t := FindById(config, e.id).value;
    ChiralityIsAlwaysCustom(t, config);
  }

  /** The sorted entries, read as spots, are the sorted shifted spots. */
  lemma SortedEntrySpots(config: Config)
    requires |config| > 0
    ensures MapSeq(EntrySpot, SortedEntries(config)) == Sort(NormalizedSpots(config), SpotLe)
  {
    var es := NormalizedEntries(config);
    assert SortedEntries(config) == Sort(es, EntryLe);
    SortByKey(es, EntrySpot, EntryLe, SpotLe);
  }

  /** The canonical form renders the sorted shifted spots. */
  lemma CanonicalFormRenders(config: Config)
    requires |config| > 0
    ensures CanonicalForm(config) == Render(Sort(NormalizedSpots(config), SpotLe))
  {
    EntryStringsRender(config);
  }

  /** The entry strings are the renderings of the sorted shifted spots. */
  lemma EntryStringsRender(config: Config)
    requires |config| > 0
    ensures EntryStrings(config) == MapSeq(SpotString, Sort(NormalizedSpots(config), SpotLe))
  {
    var parts := EntryStrings(config);
    var rendered := MapSeq(SpotString, MapSeq(EntrySpot, SortedEntries(config)));
    forall k | 0 <= k < |parts|
      ensures parts[k] == rendered[k]
    {
      EntryStringAt(config, k);
    }
    assert parts == rendered;
    SortedEntrySpots(config);
  }

  lemma EntryStringAt(config: Config, k: nat)
    requires k < |config|
    ensures EntryStrings(config)[k] == MapSeq(SpotString, MapSeq(EntrySpot, SortedEntries(config)))[k]
  {
    var e := SortedEntries(config)[k];
    assert MapSeq(EntrySpot, SortedEntries(config))[k] == EntrySpot(e);
    EntryRendersAsSpot(e, config);
  }

  // ---------------------------------------------------------------------------
  // Reading the form back

  function ParseSpot(s: string): Spot
  {
    var f := Split(s, ',');
    if |f| >= 3 then Spot(IntValue(f[0]), IntValue(f[1]), IntValue(f[2])) else Spot(0, 0, 0)
  }

  /** Reads a canonical form back into its spots. */
  function Decode(s: string): seq<Spot>
  {
    MapSeq(ParseSpot, Split(s, '|'))
  }

  /** The four comma-separated fields of an entry string. */
  lemma SplitFields(a: string, b: string, c: string, d: string)
    requires ',' !in a && ',' !in b && ',' !in c && ',' !in d
    ensures Split(a + "," + b + "," + c + "," + d, ',') == [a, b, c, d]
  {
    assert a + "," + b + "," + c + "," + d == a + [','] + (b + [','] + (c + [','] + d));
    SplitAt(a, ',', b + [','] + (c + [','] + d));
    SplitAt(b, ',', c + [','] + d);
    SplitAt(c, ',', d);
    SplitWithout(d, ',');
  }

  lemma SpotStringAvoidsBar(sp: Spot)
    ensures '|' !in SpotString(sp)
  {
    IntToStringAvoids(sp.q, '|');
    IntToStringAvoids(sp.r, '|');
    IntToStringAvoids(sp.pips, '|');
    assert '|' !in "CUSTOM";
  }

  lemma ParseSpotString(sp: Spot)
    ensures ParseSpot(SpotString(sp)) == sp
    ensures '|' !in SpotString(sp)
  {
    SpotStringAvoidsBar(sp);
    var q, r, pips := IntToString(sp.q), IntToString(sp.r), IntToString(sp.pips);
    IntToStringAvoids(sp.q, ',');
    IntToStringAvoids(sp.r, ',');
    IntToStringAvoids(sp.pips, ',');
    assert ',' !in "CUSTOM";
    SplitFields(q, r, pips, "CUSTOM");
    var f := Split(SpotString(sp), ',');
    assert f[0] == q && f[1] == r && f[2] == pips;
    IntToStringRoundTrip(sp.q);
    IntToStringRoundTrip(sp.r);
    IntToStringRoundTrip(sp.pips);
  }

  lemma DecodeRender(spots: seq<Spot>)
    requires |spots| > 0
    ensures Decode(Render(spots)) == spots
  {
    var parts := MapSeq(SpotString, spots);
    forall k | 0 <= k < |parts|
      ensures '|' !in parts[k]
    {
      ParseSpotString(spots[k]);
    }
    SplitJoin(parts, '|');
    forall k | 0 <= k < |spots|
      ensures MapSeq(ParseSpot, parts)[k] == spots[k]
    {
      ParseSpotString(spots[k]);
    }
  }

  /** Decoding a canonical form gives the shifted spots, sorted. */
  lemma CanonicalFormRoundTrip(config: Config)
    requires |config| > 0
    ensures SortedBy(Decode(CanonicalForm(config)), SpotLe)
    ensures multiset(Decode(CanonicalForm(config))) == multiset(NormalizedSpots(config))
  {
    CanonicalFormRenders(config);
    SpotLeIsTotalOrder();
    SortSorted(NormalizedSpots(config), SpotLe);
    DecodeRender(Sort(NormalizedSpots(config), SpotLe));
  }

  /** The multiset of shifted spots, empty for the empty configuration. */
  function SpotBag(config: Config): multiset<Spot>
  {
    if |config| == 0 then multiset{} else multiset(NormalizedSpots(config))
  }

  /** Two configurations share a canonical form exactly when their shifted spots agree as multisets. */
  lemma CanonicalFormIff(a: Config, b: Config)
    ensures CanonicalForm(a) == CanonicalForm(b) <==> SpotBag(a) == SpotBag(b)
  {
    if |a| > 0 && |b| > 0 {
      CanonicalFormRoundTrip(a);
      CanonicalFormRoundTrip(b);
      CanonicalFormRenders(a);
      CanonicalFormRenders(b);
      SpotLeIsTotalOrder();
      if SpotBag(a) == SpotBag(b) {
        SortPermutationInvariant(NormalizedSpots(a), NormalizedSpots(b), SpotLe);
      }
    } else if |a| > 0 {
      assert |SpotBag(a)| == |a|;
    } else if |b| > 0 {
      assert |SpotBag(b)| == |b|;
    }
  }

  // ---------------------------------------------------------------------------
  // Invariance

  /** Every tile moved by (dq, dr). */
  function Translate(config: Config, dq: int, dr: int): (moved: Config)
    ensures |moved| == |config|
  {
    seq(|config|, i requires 0 <= i < |config| => config[i].(q := config[i].q + dq, r := config[i].r + dr))
  }

  /** The bounds of MinQ and MinR determine them. */
  lemma MinimaUnique(config: Config, mq: int, mr: int)
    requires |config| > 0
    requires forall i :: 0 <= i < |config| ==> mq <= config[i].q && mr <= config[i].r
    requires (exists i :: 0 <= i < |config| && config[i].q == mq) && (exists i :: 0 <= i < |config| && config[i].r == mr)
    ensures MinQ(config) == mq && MinR(config) == mr
  {
  }

  /** Shifting every tile by (dq, dr) shifts both minima by the same amounts. */
  lemma MinimaShift(a: Config, b: Config, dq: int, dr: int)
    requires |a| == |b| > 0
    requires forall i :: 0 <= i < |a| ==> b[i].q == a[i].q + dq && b[i].r == a[i].r + dr
    ensures MinQ(b) == MinQ(a) + dq && MinR(b) == MinR(a) + dr
  {
    var mq, mr := MinQ(a), MinR(a);
    var i :| 0 <= i < |a| && a[i].q == mq;
    var j :| 0 <= j < |a| && a[j].r == mr;
    assert b[i].q == mq + dq && b[j].r == mr + dr;
    MinimaUnique(b, mq + dq, mr + dr);
  }

  /** Shifting the tiles and the origin by the same amounts leaves the shifted spots alone. */
  lemma ShiftedSpotsShift(a: Config, b: Config, dq: int, dr: int, mq: int, mr: int)
    requires |a| == |b|
    requires forall i :: 0 <= i < |a| ==> b[i].q == a[i].q + dq && b[i].r == a[i].r + dr && b[i].pips == a[i].pips
    ensures ShiftedSpots(a, mq, mr) == ShiftedSpots(b, mq + dq, mr + dr)
  {
    var sa, sb := ShiftedSpots(a, mq, mr), ShiftedSpots(b, mq + dq, mr + dr);
    forall k | 0 <= k < |a|
      ensures sa[k] == sb[k]
    {
    }
  }

  /** Configurations whose spots differ by a common shift have the same normalised spots. */
  lemma SameShiftedSpots(a: Config, b: Config, dq: int, dr: int)
    requires |a| == |b| > 0
    requires forall i :: 0 <= i < |a| ==> b[i].q == a[i].q + dq && b[i].r == a[i].r + dr && b[i].pips == a[i].pips
    ensures NormalizedSpots(a) == NormalizedSpots(b)
  {
    MinimaShift(a, b, dq, dr);
    ShiftedSpotsShift(a, b, dq, dr, MinQ(a), MinR(a));
    NormalizedSpotsShifted(a);
    NormalizedSpotsShifted(b);
  }

  lemma TranslationInvariant(config: Config, dq: int, dr: int)
    ensures CanonicalForm(Translate(config, dq, dr)) == CanonicalForm(config)
  {
    var moved := Translate(config, dq, dr);
    if |config| > 0 {
      SameShiftedSpots(config, moved, dq, dr);
    }
    CanonicalFormIff(moved, config);
  }

  /** The form depends only on each tile's position and pips: ids and bonds are ignored. */
  lemma PositionsAndPipsDetermineForm(a: Config, b: Config)
    requires |a| == |b|
    requires forall i :: 0 <= i < |a| ==> a[i].q == b[i].q && a[i].r == b[i].r && a[i].pips == b[i].pips
    ensures CanonicalForm(a) == CanonicalForm(b)
  {
    if |a| > 0 {
      SameShiftedSpots(a, b, 0, 0);
    }
    CanonicalFormIff(a, b);
  }

  /** Reordering the tiles does not change the form. */
  lemma PermutationInvariant(a: Config, b: Config)
    requires multiset(a) == multiset(b)
    ensures CanonicalForm(a) == CanonicalForm(b)
  {
    assert |multiset(a)| == |multiset(b)|;
    if |a| > 0 {
      var i :| 0 <= i < |a| && a[i].q == MinQ(a);
      var j :| 0 <= j < |a| && a[j].r == MinR(a);
      assert a[i] in multiset(b) && a[j] in multiset(b);
      var i' :| 0 <= i' < |b| && b[i'] == a[i];
      var j' :| 0 <= j' < |b| && b[j'] == a[j];
      forall k | 0 <= k < |b|
        ensures MinQ(a) <= b[k].q && MinR(a) <= b[k].r
      {
        assert b[k] in multiset(a);
      }
      MinimaUnique(b, MinQ(a), MinR(a));
      var f := Normalizer(MinQ(a), MinR(a));
      MapSeqMultiset(f, a, b);
      MapSeqMultiset(EntrySpot, MapSeq(f, a), MapSeq(f, b));
    }
    CanonicalFormIff(a, b);
  }

  // ---------------------------------------------------------------------------
  // Derivative tracking

  /**
   `isDerivative`: the flag says whether the form was already in the seen set,
   and the set afterwards holds the form as well.
   */
  function IsDerivative(seen: set<string>, config: Config): (out: (bool, set<string>))
    ensures out.0 <==> CanonicalForm(config) in seen
    ensures seen <= out.1 && out.1 - seen <= {CanonicalForm(config)}
    ensures CanonicalForm(config) in out.1
  {
    var form := CanonicalForm(config);
    if form in seen then (true, seen) else (false, seen + {form})
  }

  /** The flags `isDerivative` returns for successive calls that share one seen set. */
  function DerivativeFlags(seen: set<string>, configs: seq<Config>): (flags: seq<bool>)
    ensures |flags| == |configs|
    decreases |configs|
  {
    if |configs| == 0 then []
    else
      var (flag, seen') := IsDerivative(seen, configs[0]);
      [flag] + DerivativeFlags(seen', configs[1..])
  }

  /** Some configuration before index k has the given form. */
  predicate EarlierForm(configs: seq<Config>, k: nat, form: string)
    requires k <= |configs|
  {
    exists j :: 0 <= j < k && CanonicalForm(configs[j]) == form
  }

  lemma EarlierFormTail(configs: seq<Config>, k: nat, form: string)
    requires 0 < k <= |configs|
    ensures EarlierForm(configs, k, form) <==> CanonicalForm(configs[0]) == form || EarlierForm(configs[1..], k - 1, form)
  {
    EarlierFormFromTail(configs, k, form);
    EarlierFormToTail(configs, k, form);
  }

  lemma EarlierFormFromTail(configs: seq<Config>, k: nat, form: string)
    requires 0 < k <= |configs|
    ensures EarlierForm(configs[1..], k - 1, form) ==> EarlierForm(configs, k, form)
  {
    if EarlierForm(configs[1..], k - 1, form) {
      var j :| 0 <= j < k - 1 && CanonicalForm(configs[1..][j]) == form;
      assert configs[1..][j] == configs[j + 1];
    }
  }

  lemma EarlierFormToTail(configs: seq<Config>, k: nat, form: string)
    requires 0 < k <= |configs|
    ensures EarlierForm(configs, k, form) && CanonicalForm(configs[0]) != form ==> EarlierForm(configs[1..], k - 1, form)
  {
    if EarlierForm(configs, k, form) && CanonicalForm(configs[0]) != form {
      var j :| 0 <= j < k && CanonicalForm(configs[j]) == form;
      assert configs[1..][j - 1] == configs[j];
    }
  }

  /**
   Starting from a seen set, call k is flagged exactly when its form was in the
   set already or an earlier call had the same form.
   */
  lemma {:induction false} DerivativeFlagsForms(seen: set<string>, configs: seq<Config>, k: nat)
    requires k < |configs|
    ensures DerivativeFlags(seen, configs)[k] <==>
      CanonicalForm(configs[k]) in seen || EarlierForm(configs, k, CanonicalForm(configs[k]))
    decreases k
  {
    var seen' := IsDerivative(seen, configs[0]).1;
    assert seen' == seen + {CanonicalForm(configs[0])};
    if k > 0 {
      DerivativeFlagsForms(seen', configs[1..], k - 1);
      assert configs[1..][k - 1] == configs[k];
      EarlierFormTail(configs, k, CanonicalForm(configs[k]));
    }
  }

  /**
   Within one run that starts from an empty seen set, call k reports a
   derivative exactly when an earlier configuration has the same shifted spots.
   */
  lemma DerivativeIffEarlierSpots(configs: seq<Config>, k: nat)
    requires k < |configs|
    ensures DerivativeFlags({}, configs)[k] <==> exists j :: 0 <= j < k && SpotBag(configs[j]) == SpotBag(configs[k])
  {
    DerivativeFlagsForms({}, configs, k);
    forall j | 0 <= j < k
      ensures CanonicalForm(configs[j]) == CanonicalForm(configs[k]) <==> SpotBag(configs[j]) == SpotBag(configs[k])
    {
      CanonicalFormIff(configs[j], configs[k]);
    }
  }

  // ---------------------------------------------------------------------------
  // Examples

  function Domino(q: int, r: int, dq: int, dr: int): Config
  {
    [Tile(0, q, r, 1, [1], 1), Tile(1, q + dq, r + dr, 1, [0], 1)]
  }

  /** A domino and the same domino turned are not identified. */
  lemma TurnedDominoDiffers()
    ensures CanonicalForm(Domino(0, 0, 1, 0)) != CanonicalForm(Domino(0, 0, 0, 1))
  {
    var flat, turned := Domino(0, 0, 1, 0), Domino(0, 0, 0, 1);
    assert NormalizedSpots(flat)[1] == Spot(1, 0, 1);
    assert Spot(1, 0, 1) in SpotBag(flat);
    var ns := NormalizedSpots(turned);
    assert ns == [Spot(0, 0, 1), Spot(0, 1, 1)];
    assert Spot(1, 0, 1) !in SpotBag(turned);
    CanonicalFormIff(flat, turned);
  }

  /**
   The minima are taken independently: for the pair at (1, 0) and (0, 1) no
   tile is moved to (0, 0).
   */
  lemma DiagonalPairHasNoOrigin()
    ensures NormalizedSpots(Domino(1, 0, -1, 1)) == [Spot(1, 0, 1), Spot(0, 1, 1)]
  {
  }
}
