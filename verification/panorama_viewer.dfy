/** The public virtual-tour viewer: which scene is shown first, how a
    hotspot click, "Back" and "Jump to Area" move between scenes, and what
    is rendered for the current state.

    The history is modelled exactly as the component keeps it: every move
    appends the scene being LEFT, not the scene entered. `EnterIntended`
    is the corrected move that keeps the last history entry equal to the
    current scene. */
module PanoramaViewer {
  import opened Common
  import opened Tour
  import Seqs

  /** Navigation state. Entries are optional because the component appends
      `currentPanoramaId` without checking that it is defined. */
  datatype Nav = Nav(current: Option<string>, history: seq<Option<string>>)

  /** What the component renders. */
  datatype View =
    | NoPanorama
    | Scene(panorama: Panorama, hotspots: seq<Hotspot>, showBack: bool, showMenu: bool)

  /** The scene shown first: the first panorama marked default, else the
      first panorama; none for an empty list. */
  function DefaultIndex(panos: seq<Panorama>): (r: Option<nat>)
    ensures r.None? <==> |panos| == 0
    ensures r.Some? ==> r.value < |panos|
    ensures r.Some? ==> forall j :: 0 <= j < r.value ==> !panos[j].isDefault
    ensures r.Some? && !panos[r.value].isDefault ==>
              r.value == 0 && forall j :: 0 <= j < |panos| ==> !panos[j].isDefault
  {
    match Seqs.FindIndex(panos, (p: Panorama) => p.isDefault)
    case Some(i) => Some(i)
    case None => if |panos| == 0 then None else Some(0)
  }

  /** The state the viewer starts in. The history starts with the default
      scene's id, dropped when that id is empty (`filter(Boolean)`). */
  function Init(panos: seq<Panorama>): (r: Nav)
    ensures |panos| == 0 ==> r == Nav(None, [])
    ensures |panos| > 0 ==> r.current == Some(panos[DefaultIndex(panos).value].id)
    ensures r.current.Some? && r.current.value != "" ==> r.history == [r.current]
    ensures r.current.None? || r.current.value == "" ==> r.history == []
  {
    match DefaultIndex(panos)
    case None => Nav(None, [])
    case Some(i) =>
      var id := panos[i].id;
      Nav(Some(id), if id != "" then [Some(id)] else [])
  }

  /** The id a click on `h` moves to: `targetPanoramaId` when it names a
      panorama, else the first panorama whose url is `targetImageUrl`.
      Info hotspots and unresolvable targets move nowhere. */
  function Resolve(panos: seq<Panorama>, h: Hotspot): (r: Option<string>)
    ensures r.Some? ==> h.kind == Navigation && PanoramaWithId(panos, r.value).Some?
    ensures (h.kind == Navigation && Present(h.targetPanoramaId)
             && PanoramaWithId(panos, h.targetPanoramaId.value).Some?) ==> r == h.targetPanoramaId
  {
    if h.kind != Navigation then None
    else if Present(h.targetPanoramaId) && PanoramaWithId(panos, h.targetPanoramaId.value).Some? then
      h.targetPanoramaId
    else if Present(h.targetImageUrl) then
      match PanoramaWithUrl(panos, h.targetImageUrl.value)
      case None => None
      case Some(p) =>
        assert PanoramaWithId(panos, p.id).Some? by {
          var k :| 0 <= k < |panos| && panos[k] == p;
          assert panos[k].id == p.id;
        }
        Some(p.id)
    else None
  }

  /** Moving to scene `id` as the component does it: the scene being left is
      appended to the history. */
  function Enter(st: Nav, id: string): (r: Nav)
    ensures r.current == Some(id)
    ensures |r.history| == |st.history| + 1
    ensures r.history[..|st.history|] == st.history
    ensures r.history[|st.history|] == st.current
  {
    Nav(Some(id), st.history + [st.current])
  }

  /** `handleHotspotClick`. */
  function Click(panos: seq<Panorama>, st: Nav, h: Hotspot): (r: Nav)
    ensures h.kind == Info ==> r == st
    ensures (h.kind == Navigation && Present(h.targetPanoramaId)
             && PanoramaWithId(panos, h.targetPanoramaId.value).Some?) ==>
              r.current == h.targetPanoramaId && r.history == st.history + [st.current]
    ensures (h.kind == Navigation
             && !(Present(h.targetPanoramaId) && PanoramaWithId(panos, h.targetPanoramaId.value).Some?)
             && Present(h.targetImageUrl)) ==>
              match PanoramaWithUrl(panos, h.targetImageUrl.value)
              case None => r == st
              case Some(p) => r.current == Some(p.id) && r.history == st.history + [st.current]
    ensures (h.kind == Navigation
             && !(Present(h.targetPanoramaId) && PanoramaWithId(panos, h.targetPanoramaId.value).Some?)
             && !Present(h.targetImageUrl)) ==> r == st
    ensures r == st || |r.history| == |st.history| + 1
    ensures r != st ==> r.current.Some? && PanoramaWithId(panos, r.current.value).Some?
  {
    match Resolve(panos, h)
    case None => st
    case Some(id) => Enter(st, id)
  }

  /** `handleBack`: with more than one entry, drop the last one and show the
      new last entry; otherwise nothing happens. */
  function Back(st: Nav): (r: Nav)
    ensures |st.history| <= 1 ==> r == st
    ensures |st.history| > 1 ==> |r.history| == |st.history| - 1
    ensures |st.history| > 1 ==> r.history == st.history[..|st.history| - 1]
    ensures |st.history| > 1 ==> r.current == st.history[|st.history| - 2]
  {
    if |st.history| > 1 then
      var h := st.history[..|st.history| - 1];
      Nav(h[|h| - 1], h)
    else st
  }

  /** `handleJumpTo`: a menu selection moves to `id` even when it is the
      current scene. */
  function JumpTo(st: Nav, id: string): (r: Nav)
    ensures r.current == Some(id)
    ensures r.history == st.history + [st.current]
  {
    Enter(st, id)
  }

  /** What is rendered: a placeholder when the current id names no panorama;
      otherwise the scene with every hotspot that has a position (no
      per-scene filtering), a back button when the history has more than one
      entry and a scene menu when there is more than one panorama. */
  function Render(panos: seq<Panorama>, hotspots: seq<Hotspot>, st: Nav): (r: View)
    ensures r.NoPanorama? <==>
              st.current.None? || forall k :: 0 <= k < |panos| ==> panos[k].id != st.current.value
    ensures r.Scene? ==> r.panorama in panos && Some(r.panorama.id) == st.current
    ensures r.Scene? ==> PanoramaWithId(panos, st.current.value) == Some(r.panorama)
    ensures r.Scene? ==> forall h :: h in r.hotspots <==> h in hotspots && h.position.Some?
    ensures r.Scene? ==> (r.showBack <==> |st.history| > 1) && (r.showMenu <==> |panos| > 1)
  {
    var shown := Seqs.Filter(hotspots, (h: Hotspot) => h.position.Some?);
    match st.current
    case None => NoPanorama
    case Some(id) =>
      match PanoramaWithId(panos, id)
      case None => NoPanorama
      case Some(p) => Scene(p, shown, |st.history| > 1, |panos| > 1)
  }

  /** The hotspots handed to the renderer do not depend on the scene. */
  lemma RenderIgnoresScene(panos: seq<Panorama>, hotspots: seq<Hotspot>, st1: Nav, st2: Nav)
    requires Render(panos, hotspots, st1).Scene? && Render(panos, hotspots, st2).Scene?
    ensures Render(panos, hotspots, st1).hotspots == Render(panos, hotspots, st2).hotspots
  {
  }

  /** The last history entry is the scene on show: what `handleBack`
      assumes when it drops the last entry as "the current one". */
  predicate Consistent(st: Nav) {
    |st.history| > 0 && st.history[|st.history| - 1] == st.current
  }

  /** The viewer starts consistent whenever it has a scene with a non-empty id. */
  lemma InitConsistent(panos: seq<Panorama>)
    requires |panos| > 0 && panos[DefaultIndex(panos).value].id != ""
    ensures Consistent(Init(panos))
  {
  }

  /** As written, a move to a different scene breaks consistency: the last
      entry is the scene just left. */
  lemma EnterBreaksConsistency(st: Nav, id: string)
    requires st.current != Some(id)
    ensures !Consistent(Enter(st, id))
  {
  }

  /** As written, one move followed by "Back" still restores the state,
      because the appended entry happens to be the scene left. */
  lemma BackAfterOneEnter(st: Nav, id: string)
    requires Consistent(st)
    ensures Back(Enter(st, id)) == st
  {
    var e := Enter(st, id);
    assert e.history[..|e.history| - 1] == st.history;
  }

  /** Three scenes `a`, `b`, `c` with `a` default. */
  function ThreeScenes(): seq<Panorama> {
    [Panorama("a", "A", "a.jpg", true, 0),
     Panorama("b", "B", "b.jpg", false, 1),
     Panorama("c", "C", "c.jpg", false, 2)]
  }

  function NavHotspot(id: string, from: string, to: string): Hotspot {
    Hotspot(id, Some(from), Some(Position(0, 0)), "", Navigation, Some(to), None, None, None)
  }

  /** The tour of three scenes starts on `a`, and `b` and `c` are known. */
  lemma ThreeScenesFacts()
    ensures Init(ThreeScenes()) == Nav(Some("a"), [Some("a")])
    ensures PanoramaWithId(ThreeScenes(), "b").Some? && PanoramaWithId(ThreeScenes(), "c").Some?
  {
    var panos := ThreeScenes();
    assert DefaultIndex(panos) == Some(0);
    assert panos[1].id == "b" && panos[2].id == "c";
  }

  /** A click on a navigation hotspot whose target id is a known scene. */
  lemma ClickToKnown(panos: seq<Panorama>, st: Nav, h: Hotspot, to: string)
    requires h.kind == Navigation && h.targetPanoramaId == Some(to) && to != ""
    requires PanoramaWithId(panos, to).Some?
    ensures Click(panos, st, h) == Nav(Some(to), st.history + [st.current])
  {
  }

  /** As written: after a→b the history is [a, a], not [a, b]. */
  lemma HistoryAfterOneMove()
    ensures Click(ThreeScenes(), Init(ThreeScenes()), NavHotspot("h1", "a", "b"))
            == Nav(Some("b"), [Some("a"), Some("a")])
  {
    ThreeScenesFacts();
    ClickToKnown(ThreeScenes(), Init(ThreeScenes()), NavHotspot("h1", "a", "b"), "b");
  }

  /** As written: after a→b→c, "Back" shows `a` and skips `b`. */
  lemma BackSkipsScene()
    ensures var panos := ThreeScenes();
            var s2 := Click(panos, Click(panos, Init(panos), NavHotspot("h1", "a", "b")),
                            NavHotspot("h2", "b", "c"));
            s2.history == [Some("a"), Some("a"), Some("b")] && Back(s2).current == Some("a")
  {
    var s1 := Nav(Some("b"), [Some("a"), Some("a")]);
    HistoryAfterOneMove();
    ThreeScenesFacts();
    ClickToKnown(ThreeScenes(), s1, NavHotspot("h2", "b", "c"), "c");
    assert s1.history + [s1.current] == [Some("a"), Some("a"), Some("b")];
  }

  /** The corrected move: append the scene entered, so that the last entry
      stays the scene on show. */
  function EnterIntended(st: Nav, id: string): (r: Nav)
    ensures r.current == Some(id)
    ensures Consistent(r)
    ensures |r.history| == |st.history| + 1 && r.history[..|st.history|] == st.history
  {
    Nav(Some(id), st.history + [Some(id)])
  }

  /** With the corrected move, "Back" undoes any move from a consistent state. */
  lemma BackUndoesEnterIntended(st: Nav, id: string)
    requires Consistent(st)
    ensures Back(EnterIntended(st, id)) == st
  {
    var e := EnterIntended(st, id);
    assert e.history[..|e.history| - 1] == st.history;
  }

  /** "Back" keeps a consistent state consistent. */
  lemma BackKeepsConsistency(st: Nav)
    requires Consistent(st)
    ensures Consistent(Back(st))
  {
  }

  /** With the corrected move, a→b→c followed by "Back" shows `b`. */
  lemma BackReturnsToPreviousScene()
    ensures var s0 := Nav(Some("a"), [Some("a")]);
            Back(EnterIntended(EnterIntended(s0, "b"), "c")).current == Some("b")
  {
  }
}
