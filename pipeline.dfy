/** The loop of `main`: every collected tile is visited in discovery order,
    sold pages are skipped, the tile's main image fills in a missing picture
    list, and the rows are gathered in order. */
module Pipeline {
  import opened Wrappers
  import opened Price
  import opened Tiles
  import opened Details

  /** One visit of a listing page: the page as its lookups see it, or an
      exception raised while loading or reading it. `main` has no handler
      around `scrape_listing_details`, so such an exception ends the run. */
  datatype Visit = Loaded(page: DetailPage) | Raised

  /** How the loop ends: with every row gathered, or with the exception
      raised at the visit of tile `at` (nothing is written then). */
  datatype RunOutcome = Finished(listings: seq<Listing>) | Aborted(at: nat)

  /** The image fallback: a row whose `PictureURL` is empty takes the tile's
      main image, when there is one, and `image_count` becomes 1. No other
      field changes; in particular the price is not taken from the tile. */
  function MergeFallback(details: Listing, mainImage: Option<string>): (r: Listing)
    ensures r.title == details.title && r.desc == details.desc
    ensures r.price == details.price && r.listingUrl == details.listingUrl
    ensures details.pictureUrl != [] ==> r == details
    ensures r.pictureUrl == [] <==> details.pictureUrl == [] && (mainImage.None? || mainImage.value == [])
    ensures r != details ==> mainImage.Some? && mainImage.value != [] && r.pictureUrl == mainImage.value && r.imageCount == 1
  {
    if details.pictureUrl == [] && mainImage.Some? && mainImage.value != [] then
      details.(pictureUrl := mainImage.value, imageCount := 1)
    else
      details
  }

  /** Merging twice is the same as merging once. */
  lemma MergeIdempotent(details: Listing, mainImage: Option<string>)
    ensures MergeFallback(MergeFallback(details, mainImage), mainImage) == MergeFallback(details, mainImage)
  {
  }

  /** The row (if any) one tile contributes when its page loads: none when
      the page is sold, otherwise the scraped record with the fallback. */
  function RowsOf(tile: TileRecord, page: DetailPage): (rows: seq<Listing>)
    ensures |rows| <= 1
    ensures rows == [] <==> ListingDetails(page, tile.listingUrl).None?
  {
    match ListingDetails(page, tile.listingUrl)
    case None => []
    case Some(details) => [MergeFallback(details, tile.mainImage)]
  }

  /** What visiting one tile's page does to the run: append the tile's rows
      (none when the page is sold), or raise. */
  datatype Effect = Appends(rows: seq<Listing>) | Raises

  function EffectOf(tile: TileRecord, visit: Visit): (e: Effect)
    ensures e.Raises? <==> visit.Raised?
    ensures e.Appends? ==> |e.rows| <= 1
  {
    match visit
    case Raised => Raises
    case Loaded(page) => Appends(RowsOf(tile, page))
  }

  /** The effect of each visit, tile by tile. */
  function Effects(tileData: seq<TileRecord>, visits: seq<Visit>): (es: seq<Effect>)
    requires |visits| == |tileData|
    ensures |es| == |tileData|
  {
    if tileData == [] then []
    else
      var n := |tileData| - 1;
      Effects(tileData[..n], visits[..n]) + [EffectOf(tileData[n], visits[n])]
  }

  /** The k-th effect is the effect of the k-th visit. */
  lemma {:induction false} EffectsAt(tileData: seq<TileRecord>, visits: seq<Visit>, k: nat)
    requires |visits| == |tileData| && k < |tileData|
    ensures Effects(tileData, visits)[k] == EffectOf(tileData[k], visits[k])
    decreases |tileData|
  {
    var n := |tileData| - 1;
    var init := Effects(tileData[..n], visits[..n]);
    assert Effects(tileData, visits) == init + [EffectOf(tileData[n], visits[n])];
    if k < n {
      EffectsAt(tileData[..n], visits[..n], k);
      assert tileData[..n][k] == tileData[k] && visits[..n][k] == visits[k];
    }
  }

  /** One iteration of the loop, for the tile at position `index`. */
  function Step(sofar: RunOutcome, index: nat, effect: Effect): (r: RunOutcome)
    ensures r.Finished? <==> sofar.Finished? && effect.Appends?
    ensures r.Finished? ==> sofar.listings <= r.listings
    ensures sofar.Aborted? ==> r == sofar
  {
    match sofar
    case Aborted(at) => Aborted(at)
    case Finished(listings) =>
      match effect
      case Raises => Aborted(index)
      case Appends(rows) => Finished(listings + rows)
  }

  /** The loop over a sequence of effects. */
  function Run(effects: seq<Effect>): (r: RunOutcome)
    ensures r.Aborted? ==> r.at < |effects|
  {
    if effects == [] then Finished([])
    else
      var n := |effects| - 1;
      Step(Run(effects[..n]), n, effects[n])
  }

  /** The loop aborts at the first effect that raises, and finishes exactly
      when none does. */
  lemma {:induction false} RunShape(effects: seq<Effect>)
    ensures Run(effects).Aborted? ==> Run(effects).at < |effects| && effects[Run(effects).at].Raises?
    ensures Run(effects).Aborted? ==> forall k | 0 <= k < Run(effects).at :: effects[k].Appends?
    ensures Run(effects).Finished? <==> forall k | 0 <= k < |effects| :: effects[k].Appends?
  {
    if effects != [] {
      var n := |effects| - 1;
      RunShape(effects[..n]);
    }
  }

  /** The outcome of the loop of `main` over `tileData`, the i-th tile's page
      being `visits[i]`. */
  function Collected(tileData: seq<TileRecord>, visits: seq<Visit>): (r: RunOutcome)
    requires |visits| == |tileData|
    ensures r.Aborted? ==> r.at < |tileData|
  {
    Run(Effects(tileData, visits))
  }

  /** The body of the loop of `main` for one tile: a visit that raises
      stops the run; otherwise the page is scraped and, when it is not sold,
      the row with the image fallback is kept. */
  method VisitTile(tileData: seq<TileRecord>, visits: seq<Visit>, i: nat) returns (effect: Effect)
    requires |visits| == |tileData| && i < |tileData|
    ensures effect == Effects(tileData, visits)[i]
  {
    EffectsAt(tileData, visits, i);
    var tile := tileData[i];
    match visits[i]
    case Raised =>
      return Raises;
    case Loaded(page) =>
      var details := ScrapeListingDetails(page, tile.listingUrl);
      var rows: seq<Listing> := [];
      if details.Some? {
        var row := MergeFallback(details.value, tile.mainImage);
        rows := rows + [row];
      }
      return Appends(rows);
  }

  /** The loop of `main` (lines 137-149): visit each tile's URL in order,
      skip sold pages, merge the image fallback, append the row. */
  method CollectListings(tileData: seq<TileRecord>, visits: seq<Visit>) returns (outcome: RunOutcome)
    requires |visits| == |tileData|
    ensures outcome == Collected(tileData, visits)
  {
    ghost var effects := Effects(tileData, visits);
    var listings: seq<Listing> := [];
    for i := 0 to |tileData|
      invariant Run(effects[..i]) == Finished(listings)
    {
      assert effects[..i + 1][..i] == effects[..i];
      var effect := VisitTile(tileData, visits, i);
      match effect
      case Raises =>
        AbortedPrefix(effects, i + 1, i);
        return Aborted(i);
      case Appends(rows) =>
        listings := listings + rows;
    }
    assert effects[..|effects|] == effects;
    return Finished(listings);
  }

  /** `main` without the browser: collect the tiles, then run the loop. */
  method Scrape(tiles: seq<TileElement>, visits: seq<Visit>) returns (outcome: RunOutcome)
    requires |visits| == |TileRecords(tiles)|
    ensures outcome == Collected(TileRecords(tiles), visits)
  {
    var tileData := CollectTiles(tiles);
    outcome := CollectListings(tileData, visits);
  }

  /** Sequencing two runs of tiles: rows stay in discovery order, and the
      second run is only reached when the first finishes. */
  function Then(first: RunOutcome, second: RunOutcome, offset: nat): RunOutcome
  {
    match first
    case Aborted(at) => Aborted(at)
    case Finished(a) =>
      match second
      case Aborted(at) => Aborted(offset + at)
      case Finished(b) => Finished(a + b)
  }

  /** Taking one more step on the second run is taking it on the sequenced runs. */
  lemma ThenStep(first: RunOutcome, sofar: RunOutcome, offset: nat, index: nat, effect: Effect)
    ensures Then(first, Step(sofar, index, effect), offset) == Step(Then(first, sofar, offset), offset + index, effect)
  {
  }

  /** The loop treats effects one at a time and in order. */
  lemma {:induction false} RunAppend(e1: seq<Effect>, e2: seq<Effect>)
    ensures Run(e1 + e2) == Then(Run(e1), Run(e2), |e1|)
    decreases |e2|
  {
    if e2 == [] {
      assert e1 + e2 == e1;
    } else {
      var n := |e2| - 1;
      assert (e1 + e2)[..|e1| + n] == e1 + e2[..n];
      assert (e1 + e2)[|e1| + n] == e2[n];
      RunAppend(e1, e2[..n]);
      ThenStep(Run(e1), Run(e2[..n]), |e1|, n, e2[n]);
    }
  }

  /** An exception ends the run: once a prefix of the effects aborts, so does the whole run. */
  lemma AbortedPrefix(effects: seq<Effect>, i: nat, at: nat)
    requires i <= |effects|
    requires Run(effects[..i]) == Aborted(at)
    ensures Run(effects) == Aborted(at)
  {
    assert effects[..i] + effects[i..] == effects;
    RunAppend(effects[..i], effects[i..]);
  }

  /** One tile on its own: a loaded page contributes its merged row, or
      nothing when it is sold; a raising visit aborts. */
  lemma CollectedSingle(tile: TileRecord, visit: Visit)
    ensures Collected([tile], [visit]) ==
      match visit
      case Raised => Aborted(0)
      case Loaded(page) => Finished(RowsOf(tile, page))
  {
    var effects := Effects([tile], [visit]);
    assert [tile][..0] == [] && [visit][..0] == [];
    assert effects[..0] == [];
    assert Run(effects) == Step(Finished([]), 0, EffectOf(tile, visit));
    match visit
    case Raised =>
    case Loaded(page) =>
      assert [] + RowsOf(tile, page) == RowsOf(tile, page);
  }

  /** Index of the first visit that raises, if any. */
  function FirstRaised(visits: seq<Visit>): (r: Option<nat>)
    ensures r.Some? ==> r.value < |visits| && visits[r.value].Raised?
    ensures r.Some? ==> forall k | 0 <= k < r.value :: visits[k].Loaded?
    ensures r.None? ==> forall k | 0 <= k < |visits| :: visits[k].Loaded?
  {
    if visits == [] then None
    else
      var n := |visits| - 1;
      match FirstRaised(visits[..n])
      case Some(i) => Some(i)
      case None => if visits[n].Raised? then Some(n) else None
  }

  /** A visit raises exactly when its effect does, and a loaded page adds at
      most one row. */
  lemma EffectsMatch(tileData: seq<TileRecord>, visits: seq<Visit>)
    requires |visits| == |tileData|
    ensures forall k | 0 <= k < |visits| :: Effects(tileData, visits)[k].Raises? <==> visits[k].Raised?
    ensures forall k | 0 <= k < |visits| :: Effects(tileData, visits)[k].Appends? ==> |Effects(tileData, visits)[k].rows| <= 1
  {
    forall k | 0 <= k < |visits| {
      EffectsAt(tileData, visits, k);
    }
  }

  /** Over effects that raise where the visits do, the loop aborts exactly
      when some visit raises, and then at the first one. */
  lemma RunFirstRaise(effects: seq<Effect>, visits: seq<Visit>)
    requires |effects| == |visits|
    requires forall k | 0 <= k < |visits| :: effects[k].Raises? <==> visits[k].Raised?
    ensures Run(effects).Aborted? <==> FirstRaised(visits).Some?
    ensures Run(effects).Aborted? ==> Run(effects).at == FirstRaised(visits).value
  {
    RunShape(effects);
  }

  /** The run aborts exactly when some visit raises, and then at the first one. */
  lemma AbortsAtFirstRaise(tileData: seq<TileRecord>, visits: seq<Visit>)
    requires |visits| == |tileData|
    ensures Collected(tileData, visits).Aborted? <==> FirstRaised(visits).Some?
    ensures Collected(tileData, visits).Aborted? ==> Collected(tileData, visits).at == FirstRaised(visits).value
  {
    EffectsMatch(tileData, visits);
    RunFirstRaise(Effects(tileData, visits), visits);
  }

  /** Number of effects that add no row (a loaded page classified sold). */
  function Skipped(effects: seq<Effect>): nat
  {
    if effects == [] then 0
    else Skipped(effects[..|effects| - 1]) + (if effects[|effects| - 1] == Appends([]) then 1 else 0)
  }

  /** Number of visited pages that are classified sold. */
  function SoldCount(tileData: seq<TileRecord>, visits: seq<Visit>): nat
    requires |visits| == |tileData|
  {
    Skipped(Effects(tileData, visits))
  }

  /** A run of effects that each add at most one row finishes, with one row
      per effect that adds one. */
  lemma {:induction false} RunCount(effects: seq<Effect>)
    requires forall k | 0 <= k < |effects| :: effects[k].Appends? && |effects[k].rows| <= 1
    ensures Run(effects).Finished?
    ensures |Run(effects).listings| + Skipped(effects) == |effects|
    decreases |effects|
  {
    if effects != [] {
      var n := |effects| - 1;
      assert forall k | 0 <= k < n :: effects[..n][k] == effects[k];
      RunCount(effects[..n]);
    }
  }

  /** When no visit raises, every tile is either kept as one row or skipped
      as sold: kept + skipped = tiles. */
  lemma KeptPlusSkipped(tileData: seq<TileRecord>, visits: seq<Visit>)
    requires |visits| == |tileData|
    requires forall k | 0 <= k < |visits| :: visits[k].Loaded?
    ensures Collected(tileData, visits).Finished?
    ensures |Collected(tileData, visits).listings| + SoldCount(tileData, visits) == |tileData|
  {
    EffectsMatch(tileData, visits);
    RunCount(Effects(tileData, visits));
  }

  /** With no tiles the run finishes with no rows. */
  lemma EmptyStorefront()
    ensures Collected([], []) == Finished([])
  {
  }

  /** A detail page with a title, no images and a zero price, merged with a
      tile that has a main image and a price of 25: the picture list becomes
      the tile's image, and the price stays 0.0. */
  lemma FallbackExample()
    ensures var tile := TileRecord("https://x/l/1", Some("https://cdn/a.jpg"), 25.0);
      var details := Listing("Tee", "", 0.0, "", 0, "https://x/l/1");
      MergeFallback(details, tile.mainImage) == Listing("Tee", "", 0.0, "https://cdn/a.jpg", 1, "https://x/l/1")
  {
  }

  /** The tile rule (non-zero discounted price wins) and the detail rule
      (discounted price wins unless its lookup or parse raises), applied to
      the same two price texts, disagree exactly when the discounted price
      parses to 0.0 while the other yields a non-zero price. */
  lemma TileAndDetailPriceRules(discounted: Option<string>, other: Option<string>)
    ensures TilePrice(PriceOrZero(discounted), PriceOrZero(other)) != DetailPrice(discounted, other) <==>
      PriceOf(discounted) == Some(0.0) && PriceOrZero(other) != 0.0
  {
  }
}
