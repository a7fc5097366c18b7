/** The read-only star row that shows an average rating: whole stars for
    the integer part, one half star when the fraction reaches one half, and
    empty stars up to five, followed by a singular or plural review count.
    Ratings are `real`, standing for JavaScript numbers without rounding. */
module RatingDisplay {

  datatype Star = Full | Half | Empty

  function Nonneg(n: int): (r: nat)
    ensures r == n || (n < 0 && r == 0)
  {
    if n < 0 then 0 else n
  }

  /** `Math.ceil`: the least integer not below `x`. */
  function Ceil(x: real): (n: int)
    ensures x <= n as real < x + 1.0
    ensures n == x.Floor <==> x == x.Floor as real
    ensures n == x.Floor || n == x.Floor + 1
  {
    -((-x).Floor)
  }

  /** JavaScript's `x % 1`: the remainder takes the sign of `x`, so it is
      the fractional part for non-negative `x` and never positive below 0. */
  function JsRemOne(x: real): (r: real)
    ensures x >= 0.0 ==> r == x - x.Floor as real && 0.0 <= r < 1.0
    ensures x < 0.0 ==> r <= 0.0
  {
    if x >= 0.0 then x - x.Floor as real else x + (-x).Floor as real
  }

  /** `hasHalfStar && fullStars < 5`. */
  predicate HasHalf(rating: real) {
    JsRemOne(rating) >= 0.5 && rating.Floor < 5
  }

  function Repeat(s: Star, n: int): (r: seq<Star>)
    ensures |r| == Nonneg(n)
    ensures forall k :: 0 <= k < |r| ==> r[k] == s
    decreases n
  {
    if n <= 0 then [] else [s] + Repeat(s, n - 1)
  }

  /** `renderStars`: the k-th symbol (from 0) is full exactly when the
      rating reaches k + 1; a half star appears exactly for ratings in
      [0, 5) whose fraction is at least one half; the trailing symbols are
      the `5 - ceil(rating)` empty stars, none when that is not positive. */
  function Stars(rating: real): (r: seq<Star>)
    ensures |r| == Nonneg(rating.Floor) + (if HasHalf(rating) then 1 else 0) + Nonneg(5 - Ceil(rating))
    ensures forall k :: 0 <= k < |r| ==> (r[k] == Full <==> (k + 1) as real <= rating)
    ensures Half in r <==> 0.0 <= rating < 5.0 && rating - rating.Floor as real >= 0.5
    ensures forall k :: 0 <= k < |r| ==> (r[k] == Empty <==> k >= |r| - Nonneg(5 - Ceil(rating)))
  {
    var full := Repeat(Full, rating.Floor);
    var half := if HasHalf(rating) then [Half] else [];
    var empty := Repeat(Empty, 5 - Ceil(rating));
    assert Half in full + half + empty <==> HasHalf(rating) by {
      assert Half !in full && Half !in empty;
    }
    full + half + empty
  }

  /** A whole rating from 0 to 5 shows that many full stars and fills the
      row of five with empty ones. */
  lemma StarsForWholeRating(n: int)
    requires 0 <= n <= 5
    ensures Stars(n as real) == Repeat(Full, n) + Repeat(Empty, 5 - n)
  {
    assert (n as real).Floor == n;
  }

  /** Between 0 and 5 the row has five symbols, except that a fraction
      strictly between 0 and one half drops one: neither a half star nor
      the star rounded up by `ceil` is drawn. */
  lemma StarCount(rating: real)
    requires 0.0 <= rating <= 5.0
    ensures var frac := rating - rating.Floor as real;
            |Stars(rating)| == if 0.0 < frac < 0.5 then 4 else 5
  {
  }

  /** A rating of 4.3 shows four full stars and nothing else. */
  lemma FourPointThree()
    ensures Stars(4.3) == [Full, Full, Full, Full]
  {
    assert (4.3).Floor == 4;
  }

  /** A rating of 3.5 shows three full stars, a half and one empty star. */
  lemma ThreePointFive()
    ensures Stars(3.5) == [Full, Full, Full, Half, Empty]
  {
    assert (3.5).Floor == 3;
  }

  /** The count label's noun: singular exactly for one review. */
  function ReviewNoun(count: int): (r: string)
    ensures r == "review" <==> count == 1
    ensures r == "review" || r == "reviews"
  {
    if count == 1 then "review" else "reviews"
  }

  /** Every count other than one takes the plural: the singular plus "s". */
  lemma ReviewNounPlural(count: int)
    requires count != 1
    ensures ReviewNoun(count) == ReviewNoun(1) + "s"
  {
  }
}
