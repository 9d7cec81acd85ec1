/** `scrape_listing_details`: the sold check, the title and description,
    the two-locator price fallback, the image list and the record built from
    them. The page is given as the values its lookups return. */
module Details {
  import opened Wrappers
  import opened Text
  import opened Price

  /** At most this many image elements are looked at. */
  const MaxImages: nat := 8

  /** An element of the rendered listing page: its text (the first text node,
      which is what XPath's `contains(text(), …)` reads) and whether it is
      displayed. */
  datatype PageText = PageText(text: string, displayed: bool)

  /** The lookups on one listing page. `heading`, `description`,
      `discountedPrice` and `listingPrice` are the texts of the `h1`, the
      listing-description, the 'Discounted price' and the listing-price
      elements, None when `find_element` raises. `imageSources` holds the
      `src` attribute (None when absent) of every element the image selector
      matched, in document order. */
  datatype DetailPage = DetailPage(
    texts: seq<PageText>,
    heading: Option<string>,
    description: Option<string>,
    discountedPrice: Option<string>,
    listingPrice: Option<string>,
    imageSources: seq<Option<string>>)

  /** One output row: title, desc, price, PictureURL, image_count, listing_url. */
  datatype Listing = Listing(
    title: string,
    desc: string,
    price: real,
    pictureUrl: string,
    imageCount: nat,
    listingUrl: string)

  /** The XPath test: the text contains "Sold" or "SOLD" (case-sensitive). */
  predicate SoldMarked(text: string)
    ensures SoldMarked(text) ==> |text| >= 4
  {
    Contains(text, "Sold") || Contains(text, "SOLD")
  }

  /** The elements the sold XPath query returns, in document order. */
  function SoldElements(texts: seq<PageText>): (r: seq<PageText>)
    ensures forall e | e in r :: e in texts && SoldMarked(e.text)
    ensures forall e | e in texts && SoldMarked(e.text) :: e in r
  {
    if texts == [] then []
    else
      var last := texts[|texts| - 1];
      SoldElements(texts[..|texts| - 1]) + (if SoldMarked(last.text) then [last] else [])
  }

  /** `any(elem.is_displayed() for elem in sold_elements)`. */
  predicate AnyDisplayed(elements: seq<PageText>)
    ensures AnyDisplayed(elements) ==> elements != []
  {
    exists k | 0 <= k < |elements| :: elements[k].displayed
  }

  /** A displayed element among those the sold query returns is a displayed
      element of the page carrying a sold marker. */
  lemma SoldOnlyIfMarked(texts: seq<PageText>, k: nat)
    requires k < |SoldElements(texts)| && SoldElements(texts)[k].displayed
    ensures exists j | 0 <= j < |texts| :: texts[j].displayed && SoldMarked(texts[j].text)
  {
    var e := SoldElements(texts)[k];
    assert e in SoldElements(texts);
    var j :| 0 <= j < |texts| && texts[j] == e;
  }

  /** A displayed element of the page carrying a sold marker is among those
      the sold query returns. */
  lemma SoldIfMarked(texts: seq<PageText>, j: nat)
    requires j < |texts| && texts[j].displayed && SoldMarked(texts[j].text)
    ensures AnyDisplayed(SoldElements(texts))
  {
    var sold := SoldElements(texts);
    assert texts[j] in texts;
    var k :| 0 <= k < |sold| && sold[k] == texts[j];
  }

  /** The page is classified sold exactly when one of its displayed elements
      carries a sold marker. */
  lemma SoldIff(texts: seq<PageText>)
    ensures AnyDisplayed(SoldElements(texts)) <==>
      exists k | 0 <= k < |texts| :: texts[k].displayed && SoldMarked(texts[k].text)
  {
    if AnyDisplayed(SoldElements(texts)) {
      var k :| 0 <= k < |SoldElements(texts)| && SoldElements(texts)[k].displayed;
      SoldOnlyIfMarked(texts, k);
    }
    if exists k | 0 <= k < |texts| :: texts[k].displayed && SoldMarked(texts[k].text) {
      var k :| 0 <= k < |texts| && texts[k].displayed && SoldMarked(texts[k].text);
      SoldIfMarked(texts, k);
    }
  }

  /** The sold check is case-sensitive: a text without a capital 'S', such as
      "sold out", is never a sold marker. */
  lemma LowerCaseNotSold(text: string)
    requires 'S' !in text
    ensures !SoldMarked(text)
  {
    ContainsAt(text, "Sold");
    ContainsAt(text, "SOLD");
    forall i | 0 <= i <= |text|
      ensures !OccursAt(text, "Sold", i) && !OccursAt(text, "SOLD", i)
    {
      if i < |text| {
        assert text[i] in text;
      }
      if i + 4 <= |text| {
        assert text[i..i + 4][0] == text[i];
      }
    }
  }

  /** The price of a listing page: the discounted-price element if it is
      found and parses; only when that lookup or parse raises, the
      listing-price element; 0.0 when both raise. */
  function DetailPrice(discounted: Option<string>, listing: Option<string>): (r: real)
    ensures r >= 0.0
  {
    match PriceOf(discounted)
    case Some(v) => v
    case None => PriceOrZero(listing)
  }

  /** The fallback is driven by exceptions, not by a zero value: a
      discounted price that parses, even to 0.0, is used as it is. */
  lemma DetailPriceRule(discounted: Option<string>, listing: Option<string>)
    ensures discounted.Some? && CleanPrice(discounted.value) == Value(0.0) ==> DetailPrice(discounted, listing) == 0.0
    ensures PriceOf(discounted).Some? ==> DetailPrice(discounted, listing) == PriceOf(discounted).value
    ensures PriceOf(discounted).None? ==> DetailPrice(discounted, listing) == PriceOrZero(listing)
    ensures DetailPrice(discounted, listing) == 0.0 <==>
      PriceOf(discounted) == Some(0.0) || (PriceOf(discounted).None? && PriceOf(listing) in {None, Some(0.0)})
  {
  }

  /** The image host allow-list test: `"cloudfront" in src or "depop" in src`. */
  predicate TrustedHost(src: string)
  {
    Contains(src, "cloudfront") || Contains(src, "depop")
  }

  /** What one image element adds to `images`: its src cut at the first '?',
      when the src is present, non-empty and on a trusted host. */
  function ImageOf(src: Option<string>): (r: seq<string>)
    ensures |r| <= 1
    ensures forall k | 0 <= k < |r| :: '?' !in r[k]
  {
    if src.Some? && src.value != [] && TrustedHost(src.value) then [BeforeQuery(src.value)] else []
  }

  /** The images the loop collects from the given elements, in order. */
  function KeptImages(srcs: seq<Option<string>>): (r: seq<string>)
    ensures |r| <= |srcs|
  {
    if srcs == [] then [] else KeptImages(srcs[..|srcs| - 1]) + ImageOf(srcs[|srcs| - 1])
  }

  /** `images` of `scrape_listing_details`: only `img_elements[:8]` is looked at. */
  function ImageList(srcs: seq<Option<string>>): (r: seq<string>)
    ensures |r| <= MaxImages && |r| <= |srcs|
  {
    KeptImages(srcs[..if |srcs| < MaxImages then |srcs| else MaxImages])
  }

  /** The kept images: at most one per element, none with a '?', each the
      query-free part of a non-empty, trusted src among the elements. */
  lemma {:induction false} KeptImagesShape(srcs: seq<Option<string>>)
    ensures |KeptImages(srcs)| <= |srcs|
    ensures forall k | 0 <= k < |KeptImages(srcs)| :: '?' !in KeptImages(srcs)[k]
    ensures forall img | img in KeptImages(srcs) :: exists j | 0 <= j < |srcs| ::
      srcs[j].Some? && srcs[j].value != [] && TrustedHost(srcs[j].value) && img == BeforeQuery(srcs[j].value)
    decreases |srcs|
  {
    if srcs != [] {
      var init := srcs[..|srcs| - 1];
      KeptImagesShape(init);
      forall img | img in KeptImages(srcs)
        ensures exists j | 0 <= j < |srcs| ::
          srcs[j].Some? && srcs[j].value != [] && TrustedHost(srcs[j].value) && img == BeforeQuery(srcs[j].value)
      {
        if img in KeptImages(init) {
          var j :| 0 <= j < |init| && init[j].Some? && init[j].value != [] && TrustedHost(init[j].value)
            && img == BeforeQuery(init[j].value);
          assert srcs[j] == init[j];
        } else {
          assert img in ImageOf(srcs[|srcs| - 1]);
        }
      }
    }
  }

  /** Elements are handled one after the other: no reordering and no
      deduplication. */
  lemma {:induction false} KeptImagesAppend(a: seq<Option<string>>, b: seq<Option<string>>)
    ensures KeptImages(a + b) == KeptImages(a) + KeptImages(b)
    decreases |b|
  {
    if b == [] {
      assert a + b == a;
    } else {
      var b' := b[..|b| - 1];
      assert (a + b)[..|a + b| - 1] == a + b';
      KeptImagesAppend(a, b');
    }
  }

  /** At most eight images, none with a '?'; elements after the eighth are never looked at. */
  lemma ImageListBounds(srcs: seq<Option<string>>, more: seq<Option<string>>)
    ensures |ImageList(srcs)| <= MaxImages
    ensures forall k | 0 <= k < |ImageList(srcs)| :: '?' !in ImageList(srcs)[k]
    ensures |srcs| >= MaxImages ==> ImageList(srcs + more) == ImageList(srcs)
  {
    var n := if |srcs| < MaxImages then |srcs| else MaxImages;
    KeptImagesShape(srcs[..n]);
    if |srcs| >= MaxImages {
      assert (srcs + more)[..MaxImages] == srcs[..MaxImages];
    }
  }

  /** The same trusted image twice is kept twice. */
  lemma DuplicateImagesKept(src: string)
    requires src != [] && TrustedHost(src)
    ensures ImageList([Some(src), Some(src)]) == [BeforeQuery(src), BeforeQuery(src)]
  {
    var s := [Some(src), Some(src)];
    assert s[..2] == s;
    assert s[..1] == [Some(src)];
    assert [Some(src)][..0] == [];
    assert KeptImages([Some(src)]) == [BeforeQuery(src)];
  }

  /** The image loop: for each of the first eight elements, keep its src cut
      at the first '?' when the src is non-empty and on a trusted host. */
  method CollectImages(srcs: seq<Option<string>>) returns (images: seq<string>)
    ensures images == ImageList(srcs)
    ensures |images| <= MaxImages
    ensures forall k | 0 <= k < |images| :: '?' !in images[k]
  {
    var window := srcs[..if |srcs| < MaxImages then |srcs| else MaxImages];
    images := [];
    for i := 0 to |window|
      invariant images == KeptImages(window[..i])
    {
      KeptImagesStep(window, i);
      var src := window[i];
      if src.Some? && src.value != [] && TrustedHost(src.value) {
        var cleanSrc := BeforeQuery(src.value);
        images := images + [cleanSrc];
      }
    }
    assert window[..|window|] == window;
    KeptImagesShape(window);
  }

  /** Looking at one more element adds what that element contributes. */
  lemma KeptImagesStep(srcs: seq<Option<string>>, i: nat)
    requires i < |srcs|
    ensures KeptImages(srcs[..i + 1]) == KeptImages(srcs[..i]) + ImageOf(srcs[i])
  {
    assert srcs[..i + 1][..i] == srcs[..i];
  }

  /** A lookup's text stripped, or "" when the element is missing. */
  function StrippedOrEmpty(text: Option<string>): (r: string)
    ensures r == [] || (!IsSpace(r[0]) && !IsSpace(r[|r| - 1]))
    ensures text.None? ==> r == []
  {
    match text
    case None => []
    case Some(t) => Strip(t)
  }

  /** What `scrape_listing_details` returns for a page: None when the page
      is sold, otherwise the assembled record. */
  function ListingDetails(page: DetailPage, url: string): (r: Option<Listing>)
    ensures r.Some? ==> r.value.listingUrl == url && r.value.price >= 0.0
    ensures r.Some? ==> r.value.imageCount <= MaxImages
  {
    if AnyDisplayed(SoldElements(page.texts)) then None
    else
      var images := ImageList(page.imageSources);
      Some(Listing(StrippedOrEmpty(page.heading), StrippedOrEmpty(page.description),
                   DetailPrice(page.discountedPrice, page.listingPrice),
                   Join(images, PictureSeparator), |images|, url))
  }

  /** `scrape_listing_details` after navigation: the sold check short-circuits,
      then each field is read, and the images are collected by the loop. */
  method ScrapeListingDetails(page: DetailPage, url: string) returns (details: Option<Listing>)
    ensures details == ListingDetails(page, url)
    ensures details.None? <==> exists k | 0 <= k < |page.texts| :: page.texts[k].displayed && SoldMarked(page.texts[k].text)
  {
    SoldIff(page.texts);
    if AnyDisplayed(SoldElements(page.texts)) {
      return None;
    }
    var title := StrippedOrEmpty(page.heading);
    var desc := StrippedOrEmpty(page.description);
    var price := DetailPrice(page.discountedPrice, page.listingPrice);
    var images := CollectImages(page.imageSources);
    details := Some(Listing(title, desc, price, Join(images, PictureSeparator), |images|, url));
  }

  /** A displayed sold marker gives None whatever else the page holds, and
      only a displayed sold marker does. */
  lemma SoldShortCircuit(page: DetailPage, url: string)
    ensures ListingDetails(page, url).None? <==>
      exists k | 0 <= k < |page.texts| :: page.texts[k].displayed && SoldMarked(page.texts[k].text)
  {
    SoldIff(page.texts);
  }

  /** The record of a page that is not sold: `image_count` is the number of
      images (at most eight), `PictureURL` is empty exactly when no image, or
      a single empty one, was kept, splitting `PictureURL` on " | " gives the images back
      when there is at least one and none holds a '|', and the listing URL is
      the visited URL. */
  lemma DetailRecord(page: DetailPage, url: string)
    requires ListingDetails(page, url).Some?
    ensures var d := ListingDetails(page, url).value;
      && d.imageCount == |ImageList(page.imageSources)| <= MaxImages
      && (d.pictureUrl == [] <==> ImageList(page.imageSources) in {[], [[]]})
      && d.listingUrl == url
      && d.price >= 0.0
    ensures var images := ImageList(page.imageSources);
      images != [] && (forall k | 0 <= k < |images| :: '|' !in images[k]) ==>
        Split(ListingDetails(page, url).value.pictureUrl, PictureSeparator) == images
  {
    var images := ImageList(page.imageSources);
    ImageListBounds(page.imageSources, []);
    JoinEmptyIff(images, PictureSeparator);
    if images != [] && (forall k | 0 <= k < |images| :: '|' !in images[k]) {
      SplitJoin(images);
    }
  }

  /** A page whose only sold-looking text is lower case is scraped, one with
      "SOLD" displayed is not, and a hidden "Sold" does not count. */
  lemma SoldExamples(page: DetailPage, url: string)
    ensures page.texts == [PageText("sold out", true)] ==> ListingDetails(page, url).Some?
    ensures page.texts == [PageText("SOLD OUT", true)] ==> ListingDetails(page, url).None?
    ensures page.texts == [PageText("Sold", false)] ==> ListingDetails(page, url).Some?
  {
    SoldShortCircuit(page, url);
    if page.texts == [PageText("sold out", true)] {
      LowerCaseNotSold("sold out");
    }
    if page.texts == [PageText("SOLD OUT", true)] {
      assert OccursAt("SOLD OUT", "SOLD", 0);
      ContainsAt("SOLD OUT", "SOLD");
    }
  }
}
