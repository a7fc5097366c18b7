/** The admin hotspot editor: which hotspots are shown on the scene being
    edited, saving an edited hotspot (upsert by id, then a one-shot
    reciprocal "return" hotspot on the target scene) and deleting by id. */
module HotspotEditor {
  import opened Common
  import opened Tour
  import JsString
  import Seqs

  /** The id of the scene being edited: the first panorama whose url is the
      editor's image. */
  function SceneIdOf(panos: seq<Panorama>, imageUrl: string): (r: Option<string>)
    ensures r.None? <==> forall k :: 0 <= k < |panos| ==> panos[k].url != imageUrl
  {
    match PanoramaWithUrl(panos, imageUrl)
    case None => None
    case Some(p) => Some(p.id)
  }

  /** A hotspot belongs to a scene when its `panoramaId` is truthy; an
      ungrouped hotspot is shown on every scene. */
  predicate ShownOn(h: Hotspot, sceneId: Option<string>) {
    if Present(h.panoramaId) then h.panoramaId == sceneId else true
  }

  /** The hotspots the editor's per-scene filter keeps for `imageUrl`, in
      list order: the ones it then tries to draw as markers. */
  function Visible(panos: seq<Panorama>, imageUrl: string, hotspots: seq<Hotspot>): (r: seq<Hotspot>)
    ensures forall h :: h in r ==> h in hotspots
    ensures forall h :: h in hotspots && !Present(h.panoramaId) ==> h in r
    ensures forall h :: h in r && Present(h.panoramaId) ==>
              PanoramaWithUrl(panos, imageUrl).Some? && h.panoramaId.value == PanoramaWithUrl(panos, imageUrl).value.id
  {
    var scene := SceneIdOf(panos, imageUrl);
    Seqs.Filter(hotspots, (h: Hotspot) => ShownOn(h, scene))
  }

  /** Visibility as a set: with scene `p` on show (the first panorama with
      that url), a hotspot is visible iff it is ungrouped or grouped on `p`;
      with no matching scene, iff it is ungrouped. */
  lemma VisibleIff(panos: seq<Panorama>, imageUrl: string, hotspots: seq<Hotspot>, h: Hotspot)
    requires h in hotspots
    ensures PanoramaWithUrl(panos, imageUrl).Some? ==>
              (h in Visible(panos, imageUrl, hotspots) <==>
                 !Present(h.panoramaId) || h.panoramaId == Some(PanoramaWithUrl(panos, imageUrl).value.id))
    ensures PanoramaWithUrl(panos, imageUrl).None? ==>
              (h in Visible(panos, imageUrl, hotspots) <==> !Present(h.panoramaId))
  {
    var scene := SceneIdOf(panos, imageUrl);
    var k :| 0 <= k < |hotspots| && hotspots[k] == h;
    if ShownOn(h, scene) {
      assert h in Visible(panos, imageUrl, hotspots);
    }
  }

  /** Saving the hotspot: replace the first one with the same id in place,
      or append it when its id is new. */
  function Upsert(hotspots: seq<Hotspot>, edited: Hotspot): (r: seq<Hotspot>)
    ensures edited in r
    ensures match Seqs.FindIndex(hotspots, (h: Hotspot) => h.id == edited.id)
            case Some(i) =>
              |r| == |hotspots| && r[i] == edited
              && forall k :: 0 <= k < |hotspots| && k != i ==> r[k] == hotspots[k]
            case None => r == hotspots + [edited]
  {
    match Seqs.FindIndex(hotspots, (h: Hotspot) => h.id == edited.id)
    case Some(i) =>
      assert hotspots[i := edited][i] == edited;
      hotspots[i := edited]
    case None =>
      assert (hotspots + [edited])[|hotspots|] == edited;
      hotspots + [edited]
  }

  /** After an upsert, the edited hotspot is the first with its id. */
  lemma UpsertFirstWithId(hotspots: seq<Hotspot>, edited: Hotspot)
    ensures var r := Upsert(hotspots, edited);
            exists i :: 0 <= i < |r| && r[i] == edited && forall k :: 0 <= k < i ==> r[k].id != edited.id
  {
    var r := Upsert(hotspots, edited);
    match Seqs.FindIndex(hotspots, (h: Hotspot) => h.id == edited.id)
    case Some(i) =>
      assert r[i] == edited;
    case None =>
      assert r[|hotspots|] == edited;
  }

  /** A reciprocal is considered only for a navigation hotspot whose source
      and target scene ids are both truthy. */
  predicate WantsReturn(h: Hotspot) {
    h.kind == Navigation && Present(h.targetPanoramaId) && Present(h.panoramaId)
  }

  /** Some hotspot already sits on `target` and points back to `source`. */
  predicate HasReturn(hotspots: seq<Hotspot>, target: string, source: string) {
    exists k :: 0 <= k < |hotspots| && hotspots[k].panoramaId == Some(target)
                                     && hotspots[k].targetPanoramaId == Some(source)
  }

  /** The label of the scene returned to: its name, or "Previous Area" when
      it is unknown or has an empty name. */
  function ReturnLabel(panos: seq<Panorama>, source: string): (r: string)
    ensures r != ""
    ensures PanoramaWithId(panos, source).Some? && PanoramaWithId(panos, source).value.name != "" ==>
              r == PanoramaWithId(panos, source).value.name
    ensures !(PanoramaWithId(panos, source).Some? && PanoramaWithId(panos, source).value.name != "") ==>
              r == "Previous Area"
  {
    match PanoramaWithId(panos, source)
    case Some(p) => if p.name != "" then p.name else "Previous Area"
    case None => "Previous Area"
  }

  /** The synthesised return hotspot, placed on `target` and pointing back to
      `source`, at yaw 0 and pitch -10 for the editor to reposition. */
  function ReturnHotspot(panos: seq<Panorama>, source: string, target: string, now: nat): (r: Hotspot)
    ensures r.id == "hotspot-" + JsString.Decimal(now) + "-return"
    ensures r.panoramaId == Some(target) && r.targetPanoramaId == Some(source)
    ensures r.kind == Navigation && r.position == Some(Position(0, -10))
    ensures r.tooltip == "Return to " + ReturnLabel(panos, source)
    ensures r.targetTitle == Some(ReturnLabel(panos, source))
    ensures r.targetImageUrl == None && r.content == None
  {
    var name := ReturnLabel(panos, source);
    Hotspot("hotspot-" + JsString.Decimal(now) + "-return", Some(target), Some(Position(0, -10)),
            "Return to " + name, Navigation, Some(source), None, Some(name), None)
  }

  /** `handleSaveHotspot` with the clock reading `now`. */
  function Save(panos: seq<Panorama>, hotspots: seq<Hotspot>, edited: Hotspot, now: nat): (r: seq<Hotspot>)
    ensures var u := Upsert(hotspots, edited);
            |u| <= |r| <= |u| + 1 && r[..|u|] == u
    ensures var u := Upsert(hotspots, edited);
            |r| == |u| + 1 <==>
              WantsReturn(edited) && !HasReturn(u, edited.targetPanoramaId.value, edited.panoramaId.value)
    ensures var u := Upsert(hotspots, edited);
            |r| == |u| + 1 ==>
              r[|u|] == ReturnHotspot(panos, edited.panoramaId.value, edited.targetPanoramaId.value, now)
  {
    var u := Upsert(hotspots, edited);
    if WantsReturn(edited) && !HasReturn(u, edited.targetPanoramaId.value, edited.panoramaId.value) then
      assert (u + [ReturnHotspot(panos, edited.panoramaId.value, edited.targetPanoramaId.value, now)])[..|u|] == u;
      u + [ReturnHotspot(panos, edited.panoramaId.value, edited.targetPanoramaId.value, now)]
    else
      assert u[..|u|] == u;
      u
  }

  /** Saving grows the list by at most two and never removes or reorders the
      existing hotspots: only the slot of the edited id may change. */
  lemma SaveKeepsOthers(panos: seq<Panorama>, hotspots: seq<Hotspot>, edited: Hotspot, now: nat)
    ensures var r := Save(panos, hotspots, edited, now);
            |hotspots| <= |r| <= |hotspots| + 2
            && forall k :: 0 <= k < |hotspots| && hotspots[k].id != edited.id ==> r[k] == hotspots[k]
  {
    var r := Save(panos, hotspots, edited, now);
    var u := Upsert(hotspots, edited);
    forall k | 0 <= k < |hotspots| && hotspots[k].id != edited.id
      ensures r[k] == hotspots[k]
    {
      assert r[k] == r[..|u|][k];
      match Seqs.FindIndex(hotspots, (h: Hotspot) => h.id == edited.id)
      case Some(i) =>
        assert k != i;
      case None =>
        assert u[k] == hotspots[k];
    }
  }

  /** A hotspot pointing from a scene to itself never spawns a reciprocal:
      it is its own return. */
  lemma SelfLoopAddsNoReturn(panos: seq<Panorama>, hotspots: seq<Hotspot>, edited: Hotspot, now: nat)
    requires edited.panoramaId == edited.targetPanoramaId
    ensures Save(panos, hotspots, edited, now) == Upsert(hotspots, edited)
  {
    var u := Upsert(hotspots, edited);
    if WantsReturn(edited) {
      UpsertFirstWithId(hotspots, edited);
      var i :| 0 <= i < |u| && u[i] == edited && forall k :: 0 <= k < i ==> u[k].id != edited.id;
      assert HasReturn(u, edited.targetPanoramaId.value, edited.panoramaId.value);
    }
  }

  /** Upserting an id that is already first at position `i` writes slot `i`. */
  lemma UpsertAgain(r: seq<Hotspot>, edited: Hotspot, i: nat)
    requires i < |r| && r[i] == edited && forall k :: 0 <= k < i ==> r[k].id != edited.id
    ensures Upsert(r, edited) == r
  {
    var f := Seqs.FindIndex(r, (h: Hotspot) => h.id == edited.id);
    assert r[i].id == edited.id;
    assert f.Some?;
    assert f.value <= i;
    assert r[f.value].id == edited.id;
    assert f == Some(i);
    assert r[i := edited] == r;
  }

  /** Saving the same hotspot again, at any later time, returns the list
      unchanged: the upsert hits the same slot and the reciprocal, if one was
      wanted, now exists. */
  lemma SaveIdempotent(panos: seq<Panorama>, hotspots: seq<Hotspot>, edited: Hotspot, now: nat, later: nat)
    ensures var r := Save(panos, hotspots, edited, now);
            Save(panos, r, edited, later) == r
  {
    var u := Upsert(hotspots, edited);
    var r := Save(panos, hotspots, edited, now);
    UpsertFirstWithId(hotspots, edited);
    var i :| 0 <= i < |u| && u[i] == edited && forall k :: 0 <= k < i ==> u[k].id != edited.id;
    assert r[i] == r[..|u|][i];
    UpsertAgain(r, edited, i);
    if WantsReturn(edited) {
      var target := edited.targetPanoramaId.value;
      var source := edited.panoramaId.value;
      if HasReturn(u, target, source) {
        assert r == u;
      } else {
        assert r[|u|].panoramaId == Some(target) && r[|u|].targetPanoramaId == Some(source);
        assert HasReturn(r, target, source);
      }
    }
  }

  /** Two scenes: the lobby `A` (default) and the hall `B`. */
  function LobbyAndHall(): seq<Panorama> {
    [Panorama("A", "Lobby", "a.jpg", true, 0), Panorama("B", "Hall", "b.jpg", false, 1)]
  }

  /** A navigation hotspot on `A` leading to `B`. */
  function ToHall(): Hotspot {
    Hotspot("h1", Some("A"), Some(Position(90, 0)), "To hall", Navigation, Some("B"), None, None, None)
  }

  /** The first save of `ToHall` into an empty list wants a reciprocal,
      labelled with the lobby's name. */
  lemma ToHallFacts()
    ensures Upsert([], ToHall()) == [ToHall()]
    ensures WantsReturn(ToHall()) && !HasReturn([ToHall()], "B", "A")
    ensures "Return to " + ReturnLabel(LobbyAndHall(), "A") == "Return to Lobby"
  {
    assert PanoramaWithId(LobbyAndHall(), "A") == Some(LobbyAndHall()[0]);
  }

  /** Saving A→B when B has no hotspot back to A adds exactly one, on B,
      pointing to A; saving it again adds nothing. */
  lemma SaveScenario()
    ensures var r := Save(LobbyAndHall(), [], ToHall(), 7);
            && |r| == 2 && r[0] == ToHall()
            && r[1].panoramaId == Some("B") && r[1].targetPanoramaId == Some("A")
            && r[1].tooltip == "Return to Lobby"
            && Save(LobbyAndHall(), r, ToHall(), 8) == r
  {
    ToHallFacts();
    SaveIdempotent(LobbyAndHall(), [], ToHall(), 7, 8);
  }

  /** `handleDeleteHotspot` after the confirmation: drop every hotspot with
      that id. */
  function Delete(hotspots: seq<Hotspot>, id: string): (r: seq<Hotspot>)
    ensures forall h :: h in r <==> h in hotspots && h.id != id
  {
    Seqs.Filter(hotspots, (h: Hotspot) => h.id != id)
  }

  /** Deleting keeps the remaining hotspots in order: it acts on each part of
      a split list separately. */
  lemma DeleteKeepsOrder(a: seq<Hotspot>, b: seq<Hotspot>, id: string)
    ensures Delete(a + b, id) == Delete(a, id) + Delete(b, id)
  {
    Seqs.FilterAppend(a, b, (h: Hotspot) => h.id != id);
  }

  /** Deleting an id nobody has changes nothing. */
  lemma DeleteAbsent(hotspots: seq<Hotspot>, id: string)
    requires forall k :: 0 <= k < |hotspots| ==> hotspots[k].id != id
    ensures Delete(hotspots, id) == hotspots
  {
    Seqs.FilterKeepsAll(hotspots, (h: Hotspot) => h.id != id);
  }
}
