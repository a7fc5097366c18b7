/** The carousel of approved reviews: each card's avatar initials and
    five-star row, and when the placeholder and the scroll buttons show. */
module ReviewsList {
  import opened Common
  import opened JsString

  /** One approved review as read back from storage. */
  datatype Review = Review(
    id: string,
    userName: string,
    rating: int,
    title: Option<string>,
    comment: string,
    visitDate: Option<string>,
    createdAt: string)

  /** The first character of every non-empty piece, in order; an empty
      piece contributes nothing, as `undefined` joins as "". */
  function Heads(pieces: seq<string>): (r: string)
    ensures |r| <= |pieces|
    ensures |r| == |pieces| <==> forall j :: 0 <= j < |pieces| ==> |pieces[j]| > 0
    ensures (forall j :: 0 <= j < |pieces| ==> |pieces[j]| > 0) ==>
              forall k :: 0 <= k < |r| ==> r[k] == pieces[k][0]
    ensures forall k :: 0 <= k < |r| ==>
              exists j :: 0 <= j < |pieces| && |pieces[j]| > 0 && r[k] == pieces[j][0]
    decreases |pieces|
  {
    if |pieces| == 0 then []
    else (if |pieces[0]| > 0 then [pieces[0][0]] else []) + Heads(pieces[1..])
  }

  /** The first `n` characters, or all of them when there are fewer. */
  function Take(s: string, n: nat): (r: string)
    ensures |r| <= n && |r| <= |s|
    ensures |r| == n || r == s
    ensures r == s[..|r|]
  {
    if |s| <= n then s else s[..n]
  }

  /** `getInitials`: the first letter of each space-separated word, upper-
      cased, at most two of them. */
  function Initials(name: string): (r: string)
    ensures |r| <= 2 && |r| <= |Heads(Split(name, ' '))|
    ensures forall k :: 0 <= k < |r| ==> r[k] == UpperChar(Heads(Split(name, ' '))[k])
  {
    Take(Upper(Heads(Split(name, ' '))), 2)
  }

  /** The word starts of `s` read directly: a character other than a space
      that opens the text (when `afterSpace`) or follows a space. */
  function WordStarts(s: string, afterSpace: bool): (r: string)
    ensures |r| <= |s|
    ensures ' ' !in r
    decreases |s|
  {
    if |s| == 0 then []
    else (if s[0] != ' ' && afterSpace then [s[0]] else []) + WordStarts(s[1..], s[0] == ' ')
  }

  /** The heads of the split pieces are exactly the word starts; the pieces
      after the first are the word starts of text already inside a word. */
  lemma {:induction false} HeadsAreWordStarts(s: string)
    ensures Heads(Split(s, ' ')) == WordStarts(s, true)
    ensures Heads(Split(s, ' ')[1..]) == WordStarts(s, false)
    decreases |s|
  {
    if |s| > 0 {
      var rest := Split(s[1..], ' ');
      HeadsAreWordStarts(s[1..]);
      if s[0] == ' ' {
        assert Split(s, ' ') == [[]] + rest;
        assert ([[]] + rest)[1..] == rest;
      } else {
        var first := [s[0]] + rest[0];
        assert Split(s, ' ') == [first] + rest[1..];
        assert ([first] + rest[1..])[1..] == rest[1..];
      }
    }
  }

  /** The initials are the first two word starts, upper-cased. */
  lemma InitialsFromWordStarts(name: string)
    ensures Initials(name) == Take(Upper(WordStarts(name, true)), 2)
  {
    HeadsAreWordStarts(name);
  }

  /** The initials of a name whose word starts are known. */
  lemma InitialsOfStarts(name: string, starts: string)
    requires WordStarts(name, true) == starts
    ensures Initials(name) == Take(Upper(starts), 2)
  {
    InitialsFromWordStarts(name);
  }

  lemma UpperAb()
    ensures Take(Upper("ab"), 2) == "AB"
  {
    assert Upper("ab") == "AB";
  }

  /** An empty name has no initials. */
  lemma EmptyNameInitials()
    ensures Initials("") == ""
  {
  }

  /** The word starts of " a  b" are `a` and `b`. */
  lemma SpacedWordStarts()
    ensures WordStarts(" a  b", true) == "ab"
  {
    assert " a  b"[1..] == "a  b";
    assert "a  b"[1..] == "  b";
    assert "  b"[1..] == " b";
    assert " b"[1..] == "b";
    assert "b"[1..] == "";
  }

  /** Leading and doubled spaces add nothing. */
  lemma SpacedNameInitials()
    ensures Initials(" a  b") == "AB"
  {
    SpacedWordStarts();
    InitialsOfStarts(" a  b", "ab");
    UpperAb();
  }

  /** The star row of one card: star `i` (1 to 5) is filled exactly when
      `i` does not exceed the rating. */
  function StarFills(rating: int): (r: seq<bool>)
    ensures |r| == 5
    ensures forall k :: 0 <= k < 5 ==> (r[k] <==> k + 1 <= rating)
  {
    seq(5, k requires 0 <= k < 5 => k + 1 <= rating)
  }

  /** The filled stars come first, and there are as many as the rating
      clamped to 0..5. */
  lemma StarFillsPrefix(rating: int)
    ensures var n := if rating < 0 then 0 else if rating > 5 then 5 else rating;
            StarFills(rating) == seq(n, k => true) + seq(5 - n, k => false)
  {
    var n := if rating < 0 then 0 else if rating > 5 then 5 else rating;
    var r := StarFills(rating);
    var e := seq(n, k => true) + seq(5 - n, k => false);
    assert forall k :: 0 <= k < 5 ==> r[k] == e[k];
  }

  /** One card as rendered. */
  datatype Card = Card(initials: string, stars: seq<bool>, heading: Option<string>, visited: Option<string>)

  /** One card: the avatar initials, the star row, the title as a heading
      when it is truthy, and the visit date (before formatting) when it is
      truthy. */
  function CardOf(rv: Review): (c: Card)
    ensures c.initials == Initials(rv.userName) && c.stars == StarFills(rv.rating)
    ensures c.heading.Some? <==> Present(rv.title)
    ensures c.visited.Some? <==> Present(rv.visitDate)
    ensures Present(rv.title) ==> c.heading == rv.title
    ensures Present(rv.visitDate) ==> c.visited == rv.visitDate
  {
    Card(Initials(rv.userName), StarFills(rv.rating),
         if Present(rv.title) then rv.title else None,
         if Present(rv.visitDate) then rv.visitDate else None)
  }

  datatype View = Placeholder | Carousel(cards: seq<Card>, showNav: bool)

  /** An empty list shows only the placeholder; otherwise one card per
      review in order, with scroll buttons only for more than one. */
  function Render(reviews: seq<Review>): (v: View)
    ensures v.Placeholder? <==> |reviews| == 0
    ensures v.Carousel? ==> |v.cards| == |reviews| && (v.showNav <==> |reviews| > 1)
    ensures v.Carousel? ==> forall k :: 0 <= k < |reviews| ==> v.cards[k] == CardOf(reviews[k])
  {
    if |reviews| == 0 then Placeholder
    else Carousel(seq(|reviews|, k requires 0 <= k < |reviews| => CardOf(reviews[k])), |reviews| > 1)
  }
}
