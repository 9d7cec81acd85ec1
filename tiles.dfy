/** `get_tiles`: turning the product tiles of a storefront page into
    `tile_data` records (listing URL, main image, tile price). Every DOM
    lookup on a tile is an input value. */
module Tiles {
  import opened Wrappers
  import opened Text
  import opened Price

  /** Origin prefixed to a site-relative link. */
  const SiteOrigin: string := "https://www.depop.com"

  /** What the lookups on one product tile give. `link` and `mainImage` are
      the link element and the main-image element: None when `find_element`
      raises, otherwise the element's `href` / `src` attribute, itself None
      when the attribute is absent. The prices are the texts of the
      'Discounted price' and 'Full price' elements, None when absent. */
  datatype TileElement = TileElement(
    link: Option<Option<string>>,
    mainImage: Option<Option<string>>,
    discountedPrice: Option<string>,
    fullPrice: Option<string>)

  /** One entry of `tile_data`. `mainImage` is None when the image element
      had no `src` attribute, and Some("") when there was no image element. */
  datatype TileRecord = TileRecord(listingUrl: string, mainImage: Option<string>, price: real)

  /** A relative href is made absolute; any other href is kept verbatim.
      The href is always a suffix of the result, and the result is never
      site-relative. */
  function AbsoluteUrl(href: string): (url: string)
    ensures url == href <==> !StartsWith(href, "/")
    ensures url != href ==> url == SiteOrigin + href
    ensures |href| <= |url| && url[|url| - |href|..] == href
    ensures !StartsWith(url, "/")
  {
    if StartsWith(href, "/") then
      assert (SiteOrigin + href)[0] == 'h';
      SiteOrigin + href
    else href
  }

  /** Making a URL absolute twice is the same as once. */
  lemma AbsoluteUrlIdempotent(href: string)
    ensures AbsoluteUrl(AbsoluteUrl(href)) == AbsoluteUrl(href)
  {
  }

  /** `price if price else full_price`: the discounted price unless it is
      zero. The result is one of the two, and zero only when both are. */
  function TilePrice(discounted: real, full: real): (r: real)
    ensures r == discounted || r == full
    ensures r == 0.0 <==> discounted == 0.0 && full == 0.0
    ensures discounted != 0.0 ==> r == discounted
  {
    if discounted != 0.0 then discounted else full
  }

  /** The tile's link element and its href are both present; otherwise
      the link lookup raises (no element, or `href.startswith` on None) and
      the tile is dropped. */
  predicate Resolves(e: TileElement) {
    e.link.Some? && e.link.value.Some?
  }

  /** The record a tile with a resolvable link contributes. */
  function RecordOf(e: TileElement): (r: TileRecord)
    requires Resolves(e)
    ensures r.price >= 0.0 && !StartsWith(r.listingUrl, "/")
  {
    var mainImage := match e.mainImage case None => Some("") case Some(src) => src;
    TileRecord(AbsoluteUrl(e.link.value.value), mainImage,
               TilePrice(PriceOrZero(e.discountedPrice), PriceOrZero(e.fullPrice)))
  }

  /** A price element that yields no non-zero price. */
  predicate NoPrice(text: Option<string>) {
    text.None? || CleanPrice(text.value) == ValueError || CleanPrice(text.value) == Value(0.0)
  }

  /** The tile price rule: a missing or unparsable discounted price falls
      back to the full price, a non-zero discounted price wins, and the price
      is 0.0 exactly when neither element yields a non-zero price. */
  lemma TilePriceRule(e: TileElement)
    requires Resolves(e)
    ensures NoPrice(e.discountedPrice) ==> RecordOf(e).price == PriceOrZero(e.fullPrice)
    ensures !NoPrice(e.discountedPrice) ==> Some(RecordOf(e).price) == PriceOf(e.discountedPrice)
    ensures RecordOf(e).price == 0.0 <==> NoPrice(e.discountedPrice) && NoPrice(e.fullPrice)
  {
  }

  /** `tile_data` for a sequence of tiles: one record per tile whose link
      resolves, in tile order. */
  function TileRecords(tiles: seq<TileElement>): (rs: seq<TileRecord>)
    ensures |rs| <= |tiles|
  {
    if tiles == [] then []
    else
      var last := tiles[|tiles| - 1];
      TileRecords(tiles[..|tiles| - 1]) + (if Resolves(last) then [RecordOf(last)] else [])
  }

  /** The collection loop of `get_tiles`: each tile is handled in its own
      `try`, so a failing tile is skipped and the loop goes on. */
  method CollectTiles(tiles: seq<TileElement>) returns (tileData: seq<TileRecord>)
    ensures tileData == TileRecords(tiles)
    ensures forall k | 0 <= k < |tileData| :: tileData[k].price >= 0.0
  {
    tileData := [];
    for i := 0 to |tiles|
      invariant tileData == TileRecords(tiles[..i])
      invariant forall k | 0 <= k < |tileData| :: tileData[k].price >= 0.0
    {
      var tile := tiles[i];
      assert tiles[..i + 1][..i] == tiles[..i];
      if tile.link.Some? && tile.link.value.Some? {
        var fullUrl := AbsoluteUrl(tile.link.value.value);
        var imgMain := if tile.mainImage.Some? then tile.mainImage.value else Some("");
        var price := PriceOrZero(tile.discountedPrice);
        var fullPrice := PriceOrZero(tile.fullPrice);
        tileData := tileData + [TileRecord(fullUrl, imgMain, TilePrice(price, fullPrice))];
      }
    }
    assert tiles[..|tiles|] == tiles;
  }

  /** Tiles are processed independently and in order: the records of two
      runs of tiles are the records of each, one after the other. */
  lemma {:induction false} TileRecordsAppend(a: seq<TileElement>, b: seq<TileElement>)
    ensures TileRecords(a + b) == TileRecords(a) + TileRecords(b)
    decreases |b|
  {
    if b == [] {
      assert a + b == a;
    } else {
      var b' := b[..|b| - 1];
      assert (a + b)[..|a + b| - 1] == a + b';
      TileRecordsAppend(a, b');
    }
  }

  /** A tile whose link lookup raises is dropped and the tiles after it are
      still collected. */
  lemma FailingTileSkipped(before: seq<TileElement>, bad: TileElement, after: seq<TileElement>)
    requires !Resolves(bad)
    ensures TileRecords(before + [bad] + after) == TileRecords(before) + TileRecords(after)
  {
    var p := before + [bad];
    assert p[..|p| - 1] == before;
    assert TileRecords(p) == TileRecords(before);
    TileRecordsAppend(p, after);
  }

  /** Every record comes from some tile. */
  lemma {:induction false} TileRecordsFromTiles(tiles: seq<TileElement>)
    ensures forall r | r in TileRecords(tiles) :: exists k | 0 <= k < |tiles| :: Resolves(tiles[k]) && RecordOf(tiles[k]) == r
    decreases |tiles|
  {
    if tiles != [] {
      var init := tiles[..|tiles| - 1];
      TileRecordsFromTiles(init);
      forall r | r in TileRecords(tiles)
        ensures exists k | 0 <= k < |tiles| :: Resolves(tiles[k]) && RecordOf(tiles[k]) == r
      {
        if r in TileRecords(init) {
          var k :| 0 <= k < |init| && Resolves(init[k]) && RecordOf(init[k]) == r;
          assert tiles[k] == init[k];
        } else {
          assert Resolves(tiles[|tiles| - 1]) && RecordOf(tiles[|tiles| - 1]) == r;
        }
      }
    }
  }

  /** Number of tiles whose link lookup raises (each prints "Tile error"). */
  function FailingTiles(tiles: seq<TileElement>): nat
  {
    if tiles == [] then 0
    else FailingTiles(tiles[..|tiles| - 1]) + (if Resolves(tiles[|tiles| - 1]) then 0 else 1)
  }

  /** Every tile is either collected or reported as a tile error. */
  lemma {:induction false} TileRecordsCount(tiles: seq<TileElement>)
    ensures |TileRecords(tiles)| + FailingTiles(tiles) == |tiles|
    decreases |tiles|
  {
    if tiles != [] {
      TileRecordsCount(tiles[..|tiles| - 1]);
    }
  }

  /** Two tiles linking to the same listing give two records. */
  lemma DuplicateTilesKept(e: TileElement)
    requires Resolves(e)
    ensures TileRecords([e, e]) == [RecordOf(e), RecordOf(e)]
  {
    assert [e, e][..1] == [e];
    assert [e][..0] == [];
  }
}
