/** The "write a review" dialog: the checks made when the form is
    submitted, in order, and what happens after the page's submit handler
    succeeds or throws. The handler itself is replaced by whether it throws. */
module ReviewForm {
  import opened Common
  import opened JsString

  /** The form's data, passed on unchanged when it is accepted. */
  datatype ReviewData = ReviewData(
    userName: string,
    userEmail: Option<string>,
    rating: int,
    title: Option<string>,
    comment: string,
    visitDate: Option<string>)

  /** The form as it opens: every text empty, no rating. */
  const EmptyForm := ReviewData("", Some(""), 0, Some(""), "", Some(""))

  datatype Check = Rejected(message: string) | Accepted(data: ReviewData)

  /** The checks of `handleSubmit`: name, then rating, then comment; the
      first failure is the only one reported. A name or comment of only
      whitespace counts as missing; any non-zero rating is accepted; email,
      title and visit date are not looked at. */
  function Validate(d: ReviewData): (r: Check)
    ensures r.Accepted? <==> !Blank(d.userName) && d.rating != 0 && !Blank(d.comment)
    ensures r.Accepted? ==> r.data == d
    ensures r == Rejected("Please enter your name") <==> Blank(d.userName)
    ensures r == Rejected("Please select a rating") <==> !Blank(d.userName) && d.rating == 0
    ensures r == Rejected("Please write a review") <==>
              !Blank(d.userName) && d.rating != 0 && Blank(d.comment)
  {
    if Trim(d.userName) == "" then Rejected("Please enter your name")
    else if d.rating == 0 then Rejected("Please select a rating")
    else if Trim(d.comment) == "" then Rejected("Please write a review")
    else Accepted(d)
  }

  /** The form as it opens fails on the name. */
  lemma EmptyFormAsksForName()
    ensures Validate(EmptyForm) == Rejected("Please enter your name")
  {
  }

  /** The optional fields never change the verdict. */
  lemma OptionalFieldsIgnored(d: ReviewData, email: Option<string>, title: Option<string>,
                              visit: Option<string>)
    ensures var e := d.(userEmail := email, title := title, visitDate := visit);
            Validate(e).Accepted? == Validate(d).Accepted?
  {
  }

  /** A name and comment with text and a star picked (1 to 5) pass, and
      the data is sent untrimmed. */
  lemma PickedStarsPass(d: ReviewData)
    requires !Blank(d.userName) && !Blank(d.comment) && 1 <= d.rating <= 5
    ensures Validate(d) == Accepted(d)
  {
  }

  /** What one press of "submit" leads to: the data handed to the page (if
      any), the toast shown, and whether the dialog closes. */
  datatype Outcome = Outcome(sent: Option<ReviewData>, toast: string, isError: bool, closes: bool)

  /** `handleSubmit`: a rejected form shows its message and sends nothing;
      an accepted one is sent, and the dialog closes with a success toast
      unless the page's handler throws. */
  function Submit(d: ReviewData, handlerThrows: bool): (r: Outcome)
    ensures r.sent.Some? <==> Validate(d).Accepted?
    ensures r.sent.Some? ==> r.sent.value == d
    ensures r.closes <==> r.sent.Some? && !handlerThrows
    ensures r.isError <==> !r.closes
    ensures Validate(d).Rejected? ==> r.toast == Validate(d).message
    ensures r.sent.Some? && handlerThrows ==> r.toast == "Failed to submit review"
    ensures r.closes ==> r.toast == "Review submitted successfully!"
  {
    match Validate(d)
    case Rejected(m) => Outcome(None, m, true, false)
    case Accepted(data) =>
      if handlerThrows then Outcome(Some(data), "Failed to submit review", true, false)
      else Outcome(Some(data), "Review submitted successfully!", false, true)
  }
}
