/** `export_anthology` up to the point where it writes files: the five
    indexes it dumps, built from one loaded anthology. */
module HugoExport {
  import opened Values
  import opened AnthologyGraph
  import PaperIndex
  import PeopleIndex
  import VolumeIndex
  import VenueIndex
  import SigIndex
  import Indexing

  /** What the exporter writes: `papers/<top-level id>.yaml` per paper group,
      `people/<first letter>.yaml` per people group, and one file each for
      volumes, venues and SIGs. */
  datatype Export = Export(
    papers: map<string, map<string, Record>>,
    people: map<string, map<string, Record>>,
    volumes: map<string, Record>,
    venues: map<string, Record>,
    sigs: map<string, Record>)

  /** Every lookup the five loops make succeeds. */
  predicate Exportable(a: Anthology)
  {
    && (forall i :: 0 <= i < |a.papers| ==> PaperIndex.Exportable(a.papers[i].1, a.people.slugs))
    && PeopleIndex.AllExportable(a)
    && (forall i :: 0 <= i < |a.volumes| ==> VolumeIndex.Exportable(a.volumes[i].1, a.people.slugs))
    && (forall i :: 0 <= i < |a.venues| ==>
          VenueIndex.Exportable(a.venues[i].1, VolumeIndex.Volumes(a.volumes, a.people.slugs)))
    && Indexing.DistinctKeys(a.venues)
    && Indexing.DistinctKeys(a.sigs)
  }

  /** The five indexes. Every paper, name and volume gets a slot; the venue
      and SIG indexes are keyed by exactly the venues' and SIGs' acronyms. */
  function ExportAnthology(a: Anthology): (e: Export)
    requires Exportable(a)
    ensures forall i :: 0 <= i < |a.papers| ==>
              a.papers[i].1.topLevelId in e.papers && a.papers[i].1.fullId in e.papers[a.papers[i].1.topLevelId]
    ensures forall i :: 0 <= i < |a.people.names| ==>
              var s := a.people.slugs[a.people.names[i]];
              s[..1] in e.people && s in e.people[s[..1]]
    ensures forall i :: 0 <= i < |a.volumes| ==> a.volumes[i].1.fullId in e.volumes
    ensures forall k :: k in e.venues <==> exists i :: 0 <= i < |a.venues| && a.venues[i].0 == k
    ensures forall k :: k in e.sigs <==> exists i :: 0 <= i < |a.sigs| && a.sigs[i].0 == k
  {
    var slugs := a.people.slugs;
    var volumes := VolumeIndex.Volumes(a.volumes, slugs);
    Export(
      PaperIndex.Papers(a.papers, slugs),
      PeopleIndex.People(a),
      volumes,
      VenueIndex.Venues(a.venues, volumes),
      SigIndex.Sigs(a.sigs))
  }

  /** The venue index only points at exported volumes, and at the right
      year: a volume id that `venues.yaml` lists under year `y` is a key of
      `volumes.yaml` whose record has year `y`. */
  lemma VenueVolumesResolve(a: Anthology, acronym: string, y: string, k: string)
    requires Exportable(a)
    requires acronym in ExportAnthology(a).venues
    requires VenueIndex.ListsUnder(ExportAnthology(a).venues[acronym], y, k)
    ensures k in ExportAnthology(a).volumes
    ensures "year" in ExportAnthology(a).volumes[k] && ExportAnthology(a).volumes[k]["year"] == Str(y)
  {
    var vols := VolumeIndex.Volumes(a.volumes, a.people.slugs);
    assert ExportAnthology(a).volumes == vols;
    assert ExportAnthology(a).venues == VenueIndex.Venues(a.venues, vols);
    VenueIndex.IndexResolves(a.venues, vols, acronym, y, k);
  }
}
