/** The admin panorama gallery: adding an uploaded image, choosing the
    default scene, deleting with promotion of a new default, renaming, and
    the display order. */
module Gallery {
  import opened Common
  import opened Tour
  import JsString
  import Seqs

  /** A name ends in an extension when its tail after the last `.` is
      non-empty and has neither `.` nor `/`: what `/\.[^/.]+$/` matches. */
  predicate IsExtension(e: string) {
    e != [] && '.' !in e && '/' !in e
  }

  /** The position of the last `.` in `s`. */
  function LastDot(s: string): (r: Option<nat>)
    ensures r.Some? ==> r.value < |s| && s[r.value] == '.' && '.' !in s[r.value + 1..]
    ensures r.None? <==> '.' !in s
    decreases |s|
  {
    if |s| == 0 then None
    else if s[|s| - 1] == '.' then Some(|s| - 1)
    else
      assert s == s[..|s| - 1] + [s[|s| - 1]];
      match LastDot(s[..|s| - 1])
      case None => None
      case Some(k) =>
        assert s[k + 1..] == s[..|s| - 1][k + 1..] + [s[|s| - 1]];
        Some(k)
  }

  /** `name.replace(/\.[^/.]+$/, "")`: drop a final extension, if any. */
  function StripExtension(s: string): (r: string)
    ensures |r| <= |s| && r == s[..|r|]
    ensures r != s <==> |r| < |s| && s[|r|] == '.' && IsExtension(s[|r| + 1..])
    ensures forall i :: 0 <= i < |s| && s[i] == '.' && IsExtension(s[i + 1..]) ==> r == s[..i]
  {
    match LastDot(s)
    case None => s
    case Some(k) => if IsExtension(s[k + 1..]) then s[..k] else s
  }

  /** In `a + "." + t` with no `.` in `t`, the last `.` is the one after `a`. */
  lemma LastDotOf(a: string, t: string)
    requires '.' !in t
    ensures LastDot(a + "." + t) == Some(|a|)
  {
    var s := a + "." + t;
    assert s[|a|] == '.';
    var k := LastDot(s);
    assert k.Some?;
  }

  /** Stripping `base + "." + ext` gives `base` back whenever `ext` is an
      extension; so "a.tar.gz" gives "a.tar" and ".jpg" gives "". */
  lemma StripExtensionOf(base: string, ext: string)
    requires IsExtension(ext)
    ensures StripExtension(base + "." + ext) == base
  {
    var s := base + "." + ext;
    LastDotOf(base, ext);
    assert s[|base| + 1..] == ext;
    assert s[..|base|] == base;
  }

  /** A final `.` or a `/` after the last `.` keeps the name whole. */
  lemma StripExtensionKeeps(base: string, t: string)
    requires '.' !in t && !IsExtension(t)
    ensures StripExtension(base + "." + t) == base + "." + t
  {
    var s := base + "." + t;
    LastDotOf(base, t);
    assert s[|base| + 1..] == t;
  }

  lemma StripExtensionTwoDots()
    ensures StripExtension("a.tar.gz") == "a.tar"
  {
    StripExtensionOf("a.tar", "gz");
    assert "a.tar" + "." + "gz" == "a.tar.gz";
  }

  lemma StripExtensionHidden()
    ensures StripExtension(".jpg") == ""
  {
    StripExtensionOf("", "jpg");
    assert "" + "." + "jpg" == ".jpg";
  }

  lemma StripExtensionTrailingDot()
    ensures StripExtension("pano.") == "pano."
  {
    StripExtensionKeeps("pano", "");
    assert "pano" + "." + "" == "pano.";
  }

  /** The image added after an upload of `fileName` stored at `url`. */
  function AddUploaded(images: seq<Panorama>, fileName: string, url: string, now: nat): (r: seq<Panorama>)
    ensures |r| == |images| + 1 && r[..|images|] == images
    ensures r[|images|].id == "pano-" + JsString.Decimal(now)
    ensures r[|images|].name == StripExtension(fileName) && r[|images|].url == url
    ensures r[|images|].order == |images|
    ensures r[|images|].isDefault <==> |images| == 0
  {
    var img := Panorama("pano-" + JsString.Decimal(now), StripExtension(fileName), url, |images| == 0, |images|);
    assert (images + [img])[..|images|] == images;
    images + [img]
  }

  lemma {:induction false} DefaultCountAppend(a: seq<Panorama>, p: Panorama)
    ensures DefaultCount(a + [p]) == DefaultCount(a) + (if p.isDefault then 1 else 0)
    decreases |a|
  {
    if |a| == 0 {
      assert a + [p] == [p];
    } else {
      assert (a + [p])[1..] == a[1..] + [p];
      DefaultCountAppend(a[1..], p);
    }
  }

  /** Adding keeps exactly one default: the first image becomes it, later
      images leave the existing one alone. */
  lemma AddKeepsOneDefault(images: seq<Panorama>, fileName: string, url: string, now: nat)
    requires |images| == 0 || DefaultCount(images) == 1
    ensures DefaultCount(AddUploaded(images, fileName, url, now)) == 1
  {
    var r := AddUploaded(images, fileName, url, now);
    assert r == images + [r[|images|]];
    DefaultCountAppend(images, r[|images|]);
  }

  /** `handleSetDefault`: mark exactly the images with that id as default. */
  function SetDefault(images: seq<Panorama>, id: string): (r: seq<Panorama>)
    ensures |r| == |images|
    ensures forall k :: 0 <= k < |r| ==> r[k].isDefault == (images[k].id == id)
    ensures forall k :: 0 <= k < |r| ==> r[k] == images[k].(isDefault := r[k].isDefault)
  {
    seq(|images|, k requires 0 <= k < |images| => images[k].(isDefault := images[k].id == id))
  }

  /** The number of images carrying `id`. */
  function CountId(images: seq<Panorama>, id: string): nat {
    Seqs.Count(images, (p: Panorama) => p.id == id)
  }

  lemma {:induction false} SetDefaultCount(images: seq<Panorama>, id: string)
    ensures DefaultCount(SetDefault(images, id)) == CountId(images, id)
    decreases |images|
  {
    if |images| > 0 {
      SetDefaultCount(images[1..], id);
      assert SetDefault(images, id)[1..] == SetDefault(images[1..], id);
    }
  }

  lemma {:induction false} CountIdUnique(images: seq<Panorama>, id: string, i: nat)
    requires UniqueIds(images) && i < |images| && images[i].id == id
    ensures CountId(images, id) == 1
    decreases |images|
  {
    if i == 0 {
      assert forall k :: 0 <= k < |images[1..]| ==> images[1..][k].id != id by {
        forall k | 0 <= k < |images[1..]| ensures images[1..][k].id != id {
          assert images[1..][k] == images[k + 1];
        }
      }
    } else {
      CountIdUnique(images[1..], id, i - 1);
    }
  }

  /** With unique ids and the id present, exactly one default results. */
  lemma SetDefaultExactlyOne(images: seq<Panorama>, id: string, i: nat)
    requires UniqueIds(images) && i < |images| && images[i].id == id
    ensures DefaultCount(SetDefault(images, id)) == 1
    ensures SetDefault(images, id)[i].isDefault
  {
    SetDefaultCount(images, id);
    CountIdUnique(images, id, i);
  }

  /** `handleDelete` after the confirmation: drop every image with that id;
      if images remain and none is default, the first by list position
      (not by `order`) becomes default. `order` is not renumbered. */
  function Delete(images: seq<Panorama>, id: string): (r: seq<Panorama>)
    ensures |r| == |Seqs.Filter(images, (p: Panorama) => p.id != id)|
    ensures forall k :: 1 <= k < |r| ==> r[k] == Seqs.Filter(images, (p: Panorama) => p.id != id)[k]
    ensures |r| > 0 ==> r[0].(isDefault := Seqs.Filter(images, (p: Panorama) => p.id != id)[0].isDefault)
                        == Seqs.Filter(images, (p: Panorama) => p.id != id)[0]
    ensures DefaultCount(Seqs.Filter(images, (p: Panorama) => p.id != id)) > 0
            ==> r == Seqs.Filter(images, (p: Panorama) => p.id != id)
    ensures |r| > 0 && DefaultCount(Seqs.Filter(images, (p: Panorama) => p.id != id)) == 0
            ==> r[0].isDefault && DefaultCount(r) == 1
    ensures forall k :: 0 <= k < |r| ==> r[k].id != id
  {
    var rest := Seqs.Filter(images, (p: Panorama) => p.id != id);
    if |rest| > 0 && DefaultCount(rest) == 0 then
      var promoted := [rest[0].(isDefault := true)] + rest[1..];
      assert promoted[1..] == rest[1..];
      DefaultCountFirst(promoted);
      DefaultCountFirst(rest);
      promoted
    else rest
  }

  lemma DefaultCountFirst(s: seq<Panorama>)
    requires |s| > 0
    ensures DefaultCount(s) == (if s[0].isDefault then 1 else 0) + DefaultCount(s[1..])
  {
  }

  /** After a delete that leaves images, there is a default; if there was at
      most one before, there is exactly one. */
  lemma DeleteLeavesOneDefault(images: seq<Panorama>, id: string)
    requires DefaultCount(images) <= 1
    requires exists k :: 0 <= k < |images| && images[k].id != id
    ensures DefaultCount(Delete(images, id)) == 1
  {
    var p := (x: Panorama) => x.id != id;
    var rest := Seqs.Filter(images, p);
    var k :| 0 <= k < |images| && images[k].id != id;
    assert images[k] in rest;
    FilterDefaultCount(images, id);
    var r := Delete(images, id);
    if DefaultCount(rest) == 0 {
      assert r[1..] == rest[1..];
      DefaultCountFirst(r);
      DefaultCountFirst(rest);
    }
  }

  /** Filtering never adds defaults. */
  lemma {:induction false} FilterDefaultCount(images: seq<Panorama>, id: string)
    ensures DefaultCount(Seqs.Filter(images, (p: Panorama) => p.id != id)) <= DefaultCount(images)
    decreases |images|
  {
    if |images| > 0 {
      FilterDefaultCount(images[1..], id);
    }
  }

  /** Deleting an image that is not the default leaves the defaults alone:
      no promotion happens. */
  lemma DeleteNonDefault(images: seq<Panorama>, id: string, d: nat)
    requires d < |images| && images[d].isDefault && images[d].id != id
    ensures Delete(images, id) == Seqs.Filter(images, (p: Panorama) => p.id != id)
  {
    var rest := Seqs.Filter(images, (p: Panorama) => p.id != id);
    assert images[d] in rest;
    var j :| 0 <= j < |rest| && rest[j] == images[d];
  }

  /** `handleUpdateName`: change only the name of the images with that id. */
  function Rename(images: seq<Panorama>, id: string, name: string): (r: seq<Panorama>)
    ensures |r| == |images|
    ensures forall k :: 0 <= k < |r| ==>
              r[k].id == images[k].id && r[k].url == images[k].url
              && r[k].isDefault == images[k].isDefault && r[k].order == images[k].order
    ensures forall k :: 0 <= k < |r| ==> r[k].name == (if images[k].id == id then name else images[k].name)
  {
    seq(|images|, k requires 0 <= k < |images| => if images[k].id == id then images[k].(name := name) else images[k])
  }

  /** Renaming twice is the same as renaming once to the last name. */
  lemma RenameLastWins(images: seq<Panorama>, id: string, a: string, b: string)
    ensures Rename(Rename(images, id, a), id, b) == Rename(images, id, b)
  {
  }

  /** Images sorted by ascending `order`. */
  predicate SortedByOrder(s: seq<Panorama>) {
    forall i, j :: 0 <= i < j < |s| ==> s[i].order <= s[j].order
  }

  /** In a sorted list the first element has the least order. */
  lemma SortedHeadLeast(s: seq<Panorama>)
    requires SortedByOrder(s) && |s| > 0
    ensures forall y :: y in s ==> s[0].order <= y.order
  {
    forall y | y in s ensures s[0].order <= y.order {
      var j :| 0 <= j < |s| && s[j] == y;
    }
  }

  /** Insert `x` before the first element whose order is not smaller, so
      equal orders keep their relative position. */
  function Insert(x: Panorama, s: seq<Panorama>): (r: seq<Panorama>)
    requires SortedByOrder(s)
    ensures |r| == |s| + 1
    ensures forall k :: 0 <= k < |r| ==> r[k] == x || r[k] in s
    ensures SortedByOrder(r)
    ensures multiset(r) == multiset(s) + multiset{x}
    decreases |s|
  {
    if |s| == 0 || x.order <= s[0].order then
      InsertInFront(x, s);
      [x] + s
    else
      var t := Insert(x, s[1..]);
      InsertBehindHead(x, s, t);
      [s[0]] + t
  }

  /** An image with the least order may go in front of a sorted list. */
  lemma ConsSorted(h: Panorama, t: seq<Panorama>)
    requires SortedByOrder(t)
    requires forall y :: y in t ==> h.order <= y.order
    ensures SortedByOrder([h] + t)
  {
    forall i, j | 0 <= i < j < |[h] + t| ensures ([h] + t)[i].order <= ([h] + t)[j].order {
      if i > 0 {
        assert ([h] + t)[i] == t[i - 1];
      }
      assert ([h] + t)[j] == t[j - 1];
    }
  }

  /** The first case of `Insert`: `x` goes in front. */
  lemma InsertInFront(x: Panorama, s: seq<Panorama>)
    requires SortedByOrder(s) && (|s| == 0 || x.order <= s[0].order)
    ensures SortedByOrder([x] + s)
    ensures forall k :: 0 <= k < |[x] + s| ==> ([x] + s)[k] == x || ([x] + s)[k] in s
  {
    if |s| > 0 {
      SortedHeadLeast(s);
    }
    ConsSorted(x, s);
  }

  /** The second case of `Insert`: the head stays in front of the insertion
      into the tail. */
  lemma InsertBehindHead(x: Panorama, s: seq<Panorama>, t: seq<Panorama>)
    requires SortedByOrder(s) && |s| > 0 && s[0].order < x.order
    requires |t| == |s| && SortedByOrder(t)
    requires forall k :: 0 <= k < |t| ==> t[k] == x || t[k] in s[1..]
    requires multiset(t) == multiset(s[1..]) + multiset{x}
    ensures SortedByOrder([s[0]] + t)
    ensures forall k :: 0 <= k < |[s[0]] + t| ==> ([s[0]] + t)[k] == x || ([s[0]] + t)[k] in s
    ensures multiset([s[0]] + t) == multiset(s) + multiset{x}
  {
    SortedHeadLeast(s);
    forall y | y in t ensures s[0].order <= y.order {
      var k :| 0 <= k < |t| && t[k] == y;
    }
    ConsSorted(s[0], t);
    assert s == [s[0]] + s[1..];
  }

  /** The display order: `images.sort((a, b) => a.order - b.order)`, a stable
      sort by `order`. */
  function DisplayOrder(images: seq<Panorama>): (r: seq<Panorama>)
    ensures SortedByOrder(r)
    ensures multiset(r) == multiset(images)
    decreases |images|
  {
    if |images| == 0 then []
    else
      assert images == [images[0]] + images[1..];
      Insert(images[0], DisplayOrder(images[1..]))
  }

  /** The images with a given order, in list order. */
  function WithOrder(s: seq<Panorama>, n: int): seq<Panorama> {
    Seqs.Filter(s, (p: Panorama) => p.order == n)
  }

  lemma {:induction false} InsertStable(x: Panorama, s: seq<Panorama>, n: int)
    requires SortedByOrder(s)
    ensures WithOrder(Insert(x, s), n) == (if x.order == n then [x] else []) + WithOrder(s, n)
    decreases |s|
  {
    if |s| == 0 || x.order <= s[0].order {
      assert ([x] + s)[1..] == s;
    } else {
      InsertStable(x, s[1..], n);
      var t := Insert(x, s[1..]);
      assert Insert(x, s) == [s[0]] + t;
      assert ([s[0]] + t)[1..] == t;
      assert WithOrder([s[0]] + t, n) == (if s[0].order == n then [s[0]] else []) + WithOrder(t, n);
    }
  }

  /** The sort is stable: images with equal `order` keep their relative
      positions. */
  lemma {:induction false} DisplayOrderStable(images: seq<Panorama>, n: int)
    ensures WithOrder(DisplayOrder(images), n) == WithOrder(images, n)
    decreases |images|
  {
    if |images| > 0 {
      DisplayOrderStable(images[1..], n);
      InsertStable(images[0], DisplayOrder(images[1..]), n);
    }
  }
}
