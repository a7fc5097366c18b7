/** The public destination page: the running review average, which
    panoramas the virtual tour is built from, the hero image and the
    review-count chip. Queries are replaced by their results. */
module DestinationPage {
  import opened Common
  import opened Tour
  import PanoramaViewer
  import RatingDisplay
  import opened ReviewsList

  /** The reviews on show and their average. */
  datatype Reviews = Reviews(reviews: seq<Review>, average: real)

  const NoReviews := Reviews([], 0.0)

  /** The `reduce` over ratings. */
  function RatingSum(rs: seq<Review>): int
    decreases |rs|
  {
    if |rs| == 0 then 0 else RatingSum(rs[..|rs| - 1]) + rs[|rs| - 1].rating
  }

  /** `loadReviews`: a non-empty result replaces the reviews and sets the
      average to the mean rating; an empty or failed query (`None`) keeps
      whatever was shown before. */
  function LoadReviews(st: Reviews, fetched: Option<seq<Review>>): (r: Reviews)
    ensures fetched.Some? && |fetched.value| > 0 ==>
              r.reviews == fetched.value
              && r.average * (|fetched.value| as real) == RatingSum(fetched.value) as real
    ensures fetched.None? || |fetched.value| == 0 ==> r == st
  {
    match fetched
    case Some(rs) =>
      if |rs| > 0 then Reviews(rs, RatingSum(rs) as real / |rs| as real) else st
    case None => st
  }

  /** Ratings within `lo..hi` sum to within `lo*n..hi*n`. */
  lemma {:induction false} RatingSumBounds(rs: seq<Review>, lo: int, hi: int)
    requires forall k :: 0 <= k < |rs| ==> lo <= rs[k].rating <= hi
    ensures lo * |rs| <= RatingSum(rs) <= hi * |rs|
    decreases |rs|
  {
    if |rs| > 0 {
      RatingSumBounds(rs[..|rs| - 1], lo, hi);
    }
  }

  /** Scaling by a positive factor keeps order, so a quotient inherits the
      bounds of its numerator. */
  lemma QuotientBounds(sum: real, n: real, lo: real, hi: real)
    requires n > 0.0 && lo * n <= sum <= hi * n
    ensures lo <= sum / n <= hi
  {
  }

  /** Integer products carry over to `real`. */
  lemma {:induction false} ProductAsReal(a: int, b: nat)
    ensures (a * b) as real == a as real * b as real
    decreases b
  {
    if b > 0 {
      ProductAsReal(a, b - 1);
      assert a * b == a * (b - 1) + a;
      assert a as real * b as real == a as real * (b - 1) as real + a as real;
    }
  }

  /** The average of ratings that all lie in `lo..hi` lies in `lo..hi`; with
      the 1..5 star input this keeps the star row within five stars. */
  lemma AverageWithinBounds(st: Reviews, rs: seq<Review>, lo: int, hi: int)
    requires |rs| > 0
    requires forall k :: 0 <= k < |rs| ==> lo <= rs[k].rating <= hi
    ensures lo as real <= LoadReviews(st, Some(rs)).average <= hi as real
  {
    var n := |rs|;
    var sum := RatingSum(rs);
    RatingSumBounds(rs, lo, hi);
    ProductAsReal(lo, n);
    ProductAsReal(hi, n);
    assert lo as real * n as real <= sum as real <= hi as real * n as real;
    QuotientBounds(sum as real, n as real, lo as real, hi as real);
    assert LoadReviews(st, Some(rs)).average == sum as real / n as real;
  }

  /** A failed reload leaves earlier reviews on show. */
  lemma LoadKeepsEarlierReviews(st: Reviews, rs: seq<Review>)
    requires |rs| > 0
    ensures LoadReviews(LoadReviews(st, Some(rs)), Some([])).reviews == rs
  {
  }

  /** The fields of a destination record the page reads. */
  datatype Destination = Destination(
    title: string,
    imageUrl: Option<string>,
    thumbnailUrl: Option<string>,
    panoramaImages: Option<seq<Panorama>>,
    hotspots: Option<seq<Hotspot>>)

  /** What the tour section shows: a placeholder, or a viewer over these
      panoramas and hotspots. */
  datatype TourSource = NoTour | Tour(panoramas: seq<Panorama>, hotspots: seq<Hotspot>)

  /** The single scene made from the main image when no panoramas are stored. */
  function FallbackScene(d: Destination): (p: Panorama)
    requires d.imageUrl.Some?
    ensures p.id == "default" && p.name == d.title && p.url == d.imageUrl.value
    ensures p.isDefault && p.order == 0
  {
    Panorama("default", d.title, d.imageUrl.value, true, 0)
  }

  /** Stored panoramas are used as they are; without any, a set main image
      becomes one default scene; with neither there is no viewer. Hotspots
      default to none. */
  function TourSourceOf(d: Destination): (r: TourSource)
    ensures r.Tour? ==> r.hotspots == d.hotspots.GetOr([])
    ensures d.panoramaImages.Some? && |d.panoramaImages.value| > 0 ==>
              r.Tour? && r.panoramas == d.panoramaImages.value
    ensures !(d.panoramaImages.Some? && |d.panoramaImages.value| > 0) ==>
              (r.Tour? <==> Present(d.imageUrl))
    ensures (!(d.panoramaImages.Some? && |d.panoramaImages.value| > 0) && r.Tour?) ==>
              r.panoramas == [FallbackScene(d)]
  {
    var hs := d.hotspots.GetOr([]);
    if d.panoramaImages.Some? && |d.panoramaImages.value| > 0 then Tour(d.panoramaImages.value, hs)
    else if Present(d.imageUrl) then Tour([FallbackScene(d)], hs)
    else NoTour
  }

  /** Whenever a viewer is built, it opens on a scene rather than on its
      "no panorama" placeholder. */
  lemma TourOpensOnScene(d: Destination)
    requires TourSourceOf(d).Tour?
    ensures var t := TourSourceOf(d);
            PanoramaViewer.Render(t.panoramas, t.hotspots, PanoramaViewer.Init(t.panoramas)).Scene?
  {
    var t := TourSourceOf(d);
    var i := PanoramaViewer.DefaultIndex(t.panoramas).value;
    assert t.panoramas[i].id == PanoramaViewer.Init(t.panoramas).current.value;
  }

  /** The synthesised tour starts on scene "default" with that id as its
      only history entry. */
  lemma FallbackTourStart(d: Destination)
    requires !(d.panoramaImages.Some? && |d.panoramaImages.value| > 0) && Present(d.imageUrl)
    ensures PanoramaViewer.Init(TourSourceOf(d).panoramas) == PanoramaViewer.Nav(Some("default"), [Some("default")])
  {
    assert PanoramaViewer.DefaultIndex([FallbackScene(d)]) == Some(0);
  }

  /** The hero background: the thumbnail when set, else the main image. */
  function HeroImage(d: Destination): (r: Option<string>)
    ensures Present(d.thumbnailUrl) ==> r == d.thumbnailUrl
    ensures !Present(d.thumbnailUrl) ==> r == d.imageUrl
  {
    OrElse(d.thumbnailUrl, d.imageUrl)
  }

  /** The hero has a background exactly when either image is set. */
  lemma HeroShownIff(d: Destination)
    ensures Present(HeroImage(d)) <==> Present(d.thumbnailUrl) || Present(d.imageUrl)
  {
  }

  /** The rating chip: shown only when there are reviews, with the count and
      a noun that is singular for exactly one review. */
  datatype Chip = Chip(average: real, count: nat, noun: string)

  function ReviewChip(st: Reviews): (r: Option<Chip>)
    ensures r.Some? <==> |st.reviews| > 0
    ensures r.Some? ==> r.value.count == |st.reviews| && r.value.average == st.average
    ensures r.Some? ==> (r.value.noun == "review" <==> |st.reviews| == 1)
  {
    if |st.reviews| > 0 then
      Some(Chip(st.average, |st.reviews|, RatingDisplay.ReviewNoun(|st.reviews|)))
    else None
  }

  /** After a non-empty load the chip counts the loaded reviews and shows
      their mean rating. */
  lemma ChipAfterLoad(st: Reviews, fetched: seq<Review>)
    requires |fetched| > 0
    ensures var c := ReviewChip(LoadReviews(st, Some(fetched)));
            c.Some? && c.value.count == |fetched|
            && c.value.average == RatingSum(fetched) as real / |fetched| as real
            && (c.value.noun == "review" <==> |fetched| == 1)
  {
  }

  /** The chip and the review carousel agree: the chip is hidden exactly
      when the carousel shows its placeholder. */
  lemma ChipAgreesWithCarousel(st: Reviews)
    ensures ReviewChip(st).None? <==> ReviewsList.Render(st.reviews).Placeholder?
  {
  }
}
