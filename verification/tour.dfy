/** The two records a virtual tour is made of, as the destination record
    stores them: panorama images (scenes) and hotspots (clickable markers). */
module Tour {
  import opened Common
  import Seqs

  /** One 360° scene. `order` is the display position in the gallery. */
  datatype Panorama = Panorama(id: string, name: string, url: string, isDefault: bool, order: int)

  /** Marker angles in whole degrees. */
  datatype Position = Position(yaw: int, pitch: int)

  datatype HotspotKind = Navigation | Info

  /** A marker on a scene. Optional fields are absent (`None`), present but
      empty (`Some("")`), or present and non-empty; the components test them
      for truthiness with `Present`. `position` is optional because records
      read back from storage are not checked for it. */
  datatype Hotspot = Hotspot(
    id: string,
    panoramaId: Option<string>,
    position: Option<Position>,
    tooltip: string,
    kind: HotspotKind,
    targetPanoramaId: Option<string>,
    targetImageUrl: Option<string>,
    targetTitle: Option<string>,
    content: Option<string>)

  /** The first panorama whose id is `id`. */
  function PanoramaWithId(panos: seq<Panorama>, id: string): (r: Option<Panorama>)
    ensures r.Some? ==> r.value in panos && r.value.id == id
    ensures r.Some? ==> exists k :: 0 <= k < |panos| && panos[k] == r.value
                                   && forall j :: 0 <= j < k ==> panos[j].id != id
    ensures r.None? <==> forall k :: 0 <= k < |panos| ==> panos[k].id != id
  {
    Seqs.Find(panos, (p: Panorama) => p.id == id)
  }

  /** The first panorama whose url is `url`. */
  function PanoramaWithUrl(panos: seq<Panorama>, url: string): (r: Option<Panorama>)
    ensures r.Some? ==> r.value in panos && r.value.url == url
    ensures r.Some? ==> exists k :: 0 <= k < |panos| && panos[k] == r.value
                                   && forall j :: 0 <= j < k ==> panos[j].url != url
    ensures r.None? <==> forall k :: 0 <= k < |panos| ==> panos[k].url != url
  {
    match Seqs.FindIndex(panos, (p: Panorama) => p.url == url)
    case None => None
    case Some(i) => Some(panos[i])
  }

  /** How many panoramas are marked default. */
  function DefaultCount(panos: seq<Panorama>): (n: nat)
    ensures n <= |panos|
    ensures n == 0 <==> forall k :: 0 <= k < |panos| ==> !panos[k].isDefault
  {
    Seqs.Count(panos, (p: Panorama) => p.isDefault)
  }

  /** No two panoramas share an id. */
  predicate UniqueIds(panos: seq<Panorama>) {
    forall i, j :: 0 <= i < j < |panos| ==> panos[i].id != panos[j].id
  }
}
