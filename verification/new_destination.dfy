/** The "Add New Destination" form: the id derived from the title by
    `slugify`, the image attached by an upload, and the checks made before
    a row is inserted. The insert itself is replaced by its error, if any. */
module NewDestination {
  import opened Common
  import opened JsString
  import Seqs
  import UploadImage

  /** The characters a slug is made of. */
  predicate IsSlugChar(c: char) {
    'a' <= c <= 'z' || '0' <= c <= '9' || c == '-'
  }

  predicate IsSlug(s: string) {
    forall k :: 0 <= k < |s| ==> IsSlugChar(s[k])
  }

  /** What `[^a-z0-9\s-]` does not match, and so survives the deletion. */
  predicate Kept(c: char) {
    IsSlugChar(c) || IsWs(c)
  }

  /** `replace(/[^a-z0-9\s-]/g, "")`. */
  function DeleteOthers(s: string): (r: string)
    ensures |r| <= |s|
    ensures forall k :: 0 <= k < |r| ==> Kept(r[k]) && r[k] in s
    ensures forall k :: 0 <= k < |s| && Kept(s[k]) ==> s[k] in r
  {
    Seqs.Filter(s, Kept)
  }

  /** `replace(/\s+/g, "-")`: every maximal run of whitespace becomes one
      dash; everything else is kept. */
  function DashRuns(s: string): (r: string)
    ensures |r| <= |s|
    decreases |s|
  {
    if |s| == 0 then []
    else if IsWs(s[0]) then ['-'] + DashRuns(s[LeadingWs(s)..])
    else [s[0]] + DashRuns(s[1..])
  }

  /** No whitespace survives. */
  lemma {:induction false} DashRunsNoWs(s: string)
    ensures NoWs(DashRuns(s))
    decreases |s|
  {
    if |s| > 0 {
      if IsWs(s[0]) {
        DashRunsNoWs(s[LeadingWs(s)..]);
      } else {
        DashRunsNoWs(s[1..]);
      }
    }
  }

  /** A string without whitespace is left alone. */
  lemma {:induction false} DashRunsWithoutWs(s: string)
    requires NoWs(s)
    ensures DashRuns(s) == s
    decreases |s|
  {
    if |s| > 0 {
      DashRunsWithoutWs(s[1..]);
    }
  }

  /** Every character of the result is a dash or comes from the input. */
  lemma {:induction false} DashRunsChars(s: string)
    ensures forall k :: 0 <= k < |DashRuns(s)| ==> DashRuns(s)[k] == '-' || DashRuns(s)[k] in s
    decreases |s|
  {
    if |s| > 0 {
      var rest := if IsWs(s[0]) then s[LeadingWs(s)..] else s[1..];
      var head := if IsWs(s[0]) then '-' else s[0];
      var r := DashRuns(s);
      assert r == [head] + DashRuns(rest);
      DashRunsChars(rest);
      forall k | 0 < k < |r| ensures r[k] == '-' || r[k] in s {
        assert r[k] == DashRuns(rest)[k - 1];
        assert forall c :: c in rest ==> c in s;
      }
    }
  }

  /** Leading whitespace of a whitespace run followed by a non-blank start
      is exactly the run. */
  lemma {:induction false} LeadingWsOfRun(w: string, b: string)
    requires WsBetween(w, 0, |w|)
    requires b == [] || !IsWs(b[0])
    ensures LeadingWs(w + b) == |w|
    decreases |w|
  {
    if |w| > 0 {
      assert (w + b)[1..] == w[1..] + b;
      LeadingWsOfRun(w[1..], b);
    } else {
      assert w + b == b;
    }
  }

  /** Appending text after a non-blank character leaves the leading
      whitespace count alone. */
  lemma {:induction false} LeadingWsAppend(a: string, t: string)
    requires LeadingWs(a) < |a|
    ensures LeadingWs(a + t) == LeadingWs(a)
    decreases |a|
  {
    if IsWs(a[0]) {
      assert (a + t)[1..] == a[1..] + t;
      LeadingWsAppend(a[1..], t);
    }
  }

  /** A string opening with a whitespace run gets one dash for the run. */
  lemma DashRunsOpeningRun(w: string, b: string)
    requires |w| > 0 && WsBetween(w, 0, |w|)
    requires b == [] || !IsWs(b[0])
    ensures DashRuns(w + b) == "-" + DashRuns(b)
  {
    LeadingWsOfRun(w, b);
    assert (w + b)[|w|..] == b;
  }

  /** Unfolding `DashRuns` at a leading run of `a` that ends inside `a`. */
  lemma DashRunsLeadingRun(a: string, w: string, b: string)
    requires |a| > 0 && IsWs(a[0]) && LeadingWs(a) < |a|
    ensures DashRuns(a + w + b) == "-" + DashRuns(a[LeadingWs(a)..] + w + b)
  {
    LeadingWsAppend(a, w + b);
    assert a + w + b == a + (w + b);
    assert (a + (w + b))[LeadingWs(a)..] == a[LeadingWs(a)..] + w + b;
  }

  /** Unfolding `DashRuns` at a non-blank first character of `a`. */
  lemma DashRunsKeepsChar(a: string, w: string, b: string)
    requires |a| > 0 && !IsWs(a[0])
    ensures DashRuns(a + w + b) == [a[0]] + DashRuns(a[1..] + w + b)
  {
    assert (a + w + b)[1..] == a[1..] + w + b;
  }

  /** Unfolding `DashRuns` at a non-blank first character. */
  lemma DashRunsHead(a: string)
    requires |a| > 0 && !IsWs(a[0])
    ensures DashRuns(a) == [a[0]] + DashRuns(a[1..])
  {
  }

  /** An opening run of a text that ends in a non-blank character ends
      inside the text, and what follows it keeps that last character. */
  lemma LeadingRunInside(a: string)
    requires |a| > 0 && IsWs(a[0]) && !IsWs(a[|a| - 1])
    ensures 1 <= LeadingWs(a) < |a|
    ensures a[LeadingWs(a)..][|a| - LeadingWs(a) - 1] == a[|a| - 1]
  {
  }

  /** Unfolding `DashRuns` at an opening whitespace run. */
  lemma DashRunsHeadRun(a: string)
    requires |a| > 0 && IsWs(a[0])
    ensures DashRuns(a) == "-" + DashRuns(a[LeadingWs(a)..])
  {
  }

  /** Putting one kept character in front of a result joined at a dash. */
  lemma ConsJoin(c: char, whole: string, rest: string, left: string, left': string, right: string)
    requires whole == [c] + rest && rest == left' + "-" + right
    requires left == [c] + left'
    ensures whole == left + "-" + right
  {
  }

  lemma SeqAssoc(x: string, y: string, z: string)
    ensures x + (y + z) == (x + y) + z
  {
  }

  /** One maximal whitespace run between two non-blank neighbours becomes
      exactly one dash, and the two sides are treated independently. */
  lemma {:induction false} DashRunsAtRun(a: string, w: string, b: string)
    requires a == [] || !IsWs(a[|a| - 1])
    requires |w| > 0 && WsBetween(w, 0, |w|)
    requires b == [] || !IsWs(b[0])
    ensures DashRuns(a + w + b) == DashRuns(a) + "-" + DashRuns(b)
    decreases |a|, 1
  {
    if |a| == 0 {
      assert a + w + b == w + b;
      DashRunsOpeningRun(w, b);
    } else if IsWs(a[0]) {
      DashRunsAtRunAfterWs(a, w, b);
    } else {
      DashRunsAtRunAfterChar(a, w, b);
    }
  }

  /** The step of `DashRunsAtRun` when `a` opens with whitespace. */
  lemma {:induction false} DashRunsAtRunAfterWs(a: string, w: string, b: string)
    requires |a| > 0 && IsWs(a[0]) && !IsWs(a[|a| - 1])
    requires |w| > 0 && WsBetween(w, 0, |w|)
    requires b == [] || !IsWs(b[0])
    ensures DashRuns(a + w + b) == DashRuns(a) + "-" + DashRuns(b)
    decreases |a|, 0
  {
    LeadingRunInside(a);
    var a' := a[LeadingWs(a)..];
    DashRunsLeadingRun(a, w, b);
    DashRunsHeadRun(a);
    DashRunsAtRun(a', w, b);
    ConsJoin('-', DashRuns(a + w + b), DashRuns(a' + w + b), DashRuns(a), DashRuns(a'), DashRuns(b));
  }

  /** The step of `DashRunsAtRun` when `a` opens with a kept character. */
  lemma {:induction false} DashRunsAtRunAfterChar(a: string, w: string, b: string)
    requires |a| > 0 && !IsWs(a[0]) && !IsWs(a[|a| - 1])
    requires |w| > 0 && WsBetween(w, 0, |w|)
    requires b == [] || !IsWs(b[0])
    ensures DashRuns(a + w + b) == DashRuns(a) + "-" + DashRuns(b)
    decreases |a|, 0
  {
    var a' := a[1..];
    DashRunsKeepsChar(a, w, b);
    DashRunsHead(a);
    DashRunsAtRun(a', w, b);
    ConsJoin(a[0], DashRuns(a + w + b), DashRuns(a' + w + b), DashRuns(a), DashRuns(a'), DashRuns(b));
  }

  /** `slugify`: lowercase, trim, delete every character that is not a
      letter, digit, whitespace or dash, then turn whitespace runs into
      dashes. Only ASCII case is mapped. */
  function Slugify(text: string): (r: string)
    ensures IsSlug(r) && NoWs(r)
    ensures |r| <= |text|
  {
    var kept := DeleteOthers(Trim(Lower(text)));
    var r := DashRuns(kept);
    DashRunsNoWs(kept);
    DashRunsChars(kept);
    assert forall k :: 0 <= k < |r| ==> r[k] == '-' || r[k] in kept;
    r
  }

  /** A slug is its own slug. */
  lemma SlugOfSlug(s: string)
    requires IsSlug(s)
    ensures Slugify(s) == s
  {
    assert Lower(s) == s;
    assert NoWs(s);
    TrimNoWs(s);
    Seqs.FilterKeepsAll(s, Kept);
    DashRunsWithoutWs(s);
  }

  /** `slugify` is idempotent. */
  lemma SlugifyIdempotent(text: string)
    ensures Slugify(Slugify(text)) == Slugify(text)
  {
    SlugOfSlug(Slugify(text));
  }

  /** A title with nothing that survives gives the empty slug. */
  lemma SlugOfPunctuation(text: string)
    requires forall k :: 0 <= k < |text| ==> !Kept(LowerChar(text[k]))
    ensures Slugify(text) == ""
  {
  }

  /** Trimming a string that neither starts nor ends with whitespace
      changes nothing. */
  lemma TrimUnpadded(s: string)
    requires |s| > 0 && !IsWs(s[0]) && !IsWs(s[|s| - 1])
    ensures Trim(s) == s
  {
    assert LeadingWs(s) == 0;
    assert TrailingWs(s) == 0;
  }

  /** Deleting from a string whose kept part is a prefix `a` and whose
      rest `b` is all deleted gives `a`. */
  lemma DeleteTail(a: string, b: string)
    requires forall k :: 0 <= k < |a| ==> Kept(a[k])
    requires forall k :: 0 <= k < |b| ==> !Kept(b[k])
    ensures DeleteOthers(a + b) == a
  {
    Seqs.FilterAppend(a, b, Kept);
    Seqs.FilterKeepsAll(a, Kept);
    Seqs.FilterDropsAll(b, Kept);
  }

  lemma CaveTrimmed()
    ensures Trim(Lower("Cave !")) == "cave !"
  {
    assert Lower("Cave !") == "cave !";
    TrimUnpadded("cave !");
  }

  lemma CaveDeleted()
    ensures DeleteOthers("cave !") == "cave "
  {
    assert "cave !" == "cave " + "!";
    DeleteTail("cave ", "!");
  }

  lemma CaveParts()
    ensures "cave " == "cave" + " " + ""
    ensures NoWs("cave") && WsBetween(" ", 0, 1)
    ensures "cave" + "-" + "" == "cave-"
  {
  }

  lemma CaveDashed()
    ensures DashRuns("cave ") == "cave-"
  {
    CaveParts();
    DashRunsAtRun("cave", " ", "");
    DashRunsWithoutWs("cave");
  }

  /** Trimming comes before deletion: a space left in front of deleted
      punctuation turns into a trailing dash. */
  lemma CaveExample()
    ensures Slugify("Cave !") == "cave-"
  {
    CaveTrimmed();
    CaveDeleted();
    CaveDashed();
  }

  lemma SeaCaveTrimmed()
    ensures DeleteOthers(Trim(Lower("Sea  Cave"))) == "sea  cave"
  {
    assert Lower("Sea  Cave") == "sea  cave";
    TrimUnpadded("sea  cave");
    Seqs.FilterKeepsAll("sea  cave", Kept);
  }

  lemma SeaCaveParts()
    ensures "sea  cave" == "sea" + "  " + "cave"
    ensures NoWs("sea") && NoWs("cave") && WsBetween("  ", 0, 2)
    ensures "sea" + "-" + "cave" == "sea-cave"
  {
  }

  lemma SeaCaveDashed()
    ensures DashRuns("sea  cave") == "sea-cave"
  {
    SeaCaveParts();
    DashRunsWithoutWs("sea");
    DashRunsWithoutWs("cave");
    DashRunsAtRun("sea", "  ", "cave");
  }

  /** Words separated by several spaces are joined by one dash. */
  lemma SeaCaveExample()
    ensures Slugify("Sea  Cave") == "sea-cave"
  {
    SeaCaveTrimmed();
    SeaCaveDashed();
  }

  /** The form's fields, all strings as the inputs hold them. */
  datatype Form = Form(
    id: string,
    title: string,
    shortDescription: string,
    longDescription: string,
    address: string,
    mapEmbed: string,
    hotspotTop: string,
    hotspotLeft: string,
    imageUrl: string)

  const InitialForm := Form("", "", "", "", "", "", "50%", "50%", "")

  /** Typing in the title field: the title is replaced and the id follows
      it; no other field changes. */
  function EditTitle(f: Form, text: string): (r: Form)
    ensures r.title == text && r.id == Slugify(text)
    ensures r.(id := f.id, title := f.title) == f
  {
    f.(title := text, id := Slugify(text))
  }

  /** The id always equals the slug of the title once the title was edited. */
  lemma IdFollowsTitle(f: Form, t1: string, t2: string)
    ensures EditTitle(EditTitle(f, t1), t2) == EditTitle(f, t2)
  {
  }

  /** `handleImageUpload` after a file was picked: a successful upload
      stores its public URL; a failed one leaves the form as it was. */
  function AttachImage(f: Form, outcome: UploadImage.Outcome): (r: Form)
    ensures outcome.Thrown? ==> r == f
    ensures outcome.Uploaded? ==> r.imageUrl == outcome.publicUrl && r.(imageUrl := f.imageUrl) == f
  {
    match outcome
    case Thrown(_) => f
    case Uploaded(url) => f.(imageUrl := url)
  }

  /** What pressing "save" leads to. */
  datatype SaveOutcome =
    | Refused(message: string)
    | InsertFailed(row: Form, message: string)
    | Inserted(row: Form)

  /** `save`: a missing id or title is reported first, then a missing image;
      only a form with all three reaches the insert, which sends the form's
      fields unchanged. */
  function Save(f: Form, insertError: Option<string>): (r: SaveOutcome)
    ensures r.Refused? <==> f.id == "" || f.title == "" || f.imageUrl == ""
    ensures f.id == "" || f.title == "" ==> r == Refused("Please enter a title.")
    ensures f.id != "" && f.title != "" && f.imageUrl == "" ==> r == Refused("Please upload an image.")
    ensures !r.Refused? ==> r.row == f && (r.InsertFailed? <==> insertError.Some?)
    ensures r.InsertFailed? ==> r.message == insertError.value
  {
    if f.id == "" || f.title == "" then Refused("Please enter a title.")
    else if f.imageUrl == "" then Refused("Please upload an image.")
    else match insertError
      case Some(m) => InsertFailed(f, m)
      case None => Inserted(f)
  }

  /** A title made only of punctuation leaves the id empty, so saving is
      refused for the title whatever else the form holds. */
  lemma PunctuationTitleRefused(f: Form, text: string, insertError: Option<string>)
    requires forall k :: 0 <= k < |text| ==> !Kept(LowerChar(text[k]))
    ensures Save(EditTitle(f, text), insertError) == Refused("Please enter a title.")
  {
    SlugOfPunctuation(text);
  }

  /** "!!!" is such a title. */
  lemma BangsRefused(f: Form, insertError: Option<string>)
    ensures Save(EditTitle(f, "!!!"), insertError) == Refused("Please enter a title.")
  {
    PunctuationTitleRefused(f, "!!!", insertError);
  }
}
