/** The volume index: every volume's record, keyed by its full id. */
module VolumeIndex {
  import opened Values
  import opened AnthologyGraph
  import Slugs
  import Indexing

  /** What the volume loop body needs of a volume: the raw title key it
      deletes unconditionally, and slugs for every author and editor. */
  predicate Exportable(v: Volume, slugs: map<PersonName, string>)
  {
    && "xml_title" in v.attrib
    && Slugs.Resolvable(v.attrib, "author", slugs)
    && Slugs.Resolvable(v.attrib, "editor", slugs)
  }

  /** The keys the volume loop body may add, replace or delete. */
  const Touched: set<string> := HeaderKeys + {"author", "editor"}

  /** The keys the title and paper-list steps may touch. */
  const HeaderKeys: set<string> := {"title_html", "xml_title", "xml_abstract", "papers"}

  /** The first half of the loop body: the raw title gives way to rendered
      HTML, the raw abstract is dropped without a rendered replacement, and
      the ids of the volume's papers are added. The source edits
      `volume.attrib` itself (the record aliases the volume's dict); here the
      record is a new value and that aliasing is not modelled. */
  function VolumeHeader(v: Volume): (r: Record)
    requires "xml_title" in v.attrib
    ensures "title_html" in r && r["title_html"] == Str(v.titleHtml) && "xml_title" !in r
    ensures "xml_abstract" !in r
    ensures "papers" in r && r["papers"] == StrList(v.paperIds)
    ensures AgreeOutside(r, v.attrib, HeaderKeys)
  {
    var t := Render(v.attrib, "xml_title", "title_html", v.titleHtml);
    var b := if "xml_abstract" in t then t - {"xml_abstract"} else t;
    b["papers" := StrList(v.paperIds)]
  }

  /** The exported record of one volume: its attributes with the raw title
      swapped for rendered HTML, the raw abstract dropped, the ids of its
      papers added, and the names swapped for slugs. */
  function VolumeRecord(v: Volume, slugs: map<PersonName, string>): (r: Record)
    requires Exportable(v, slugs)
    ensures "title_html" in r && r["title_html"] == Str(v.titleHtml) && "xml_title" !in r
    ensures "xml_abstract" !in r
    ensures "papers" in r && r["papers"] == StrList(v.paperIds)
    ensures "author" in r <==> "author" in v.attrib
    ensures "author" in v.attrib ==> r["author"] == Slugs.SlugList(v.attrib["author"], slugs)
    ensures "editor" in r <==> "editor" in v.attrib
    ensures "editor" in v.attrib ==> r["editor"] == Slugs.SlugList(v.attrib["editor"], slugs)
    ensures AgreeOutside(r, v.attrib, Touched)
  {
    var h := VolumeHeader(v);
    assert "author" !in HeaderKeys && "editor" !in HeaderKeys;
    Slugs.SlugNames(h, slugs)
  }

  /** A volume's `year` is exported as it was: the venue index relies on it. */
  lemma YearKept(v: Volume, slugs: map<PersonName, string>)
    requires Exportable(v, slugs)
    ensures "year" in VolumeRecord(v, slugs) <==> "year" in v.attrib
    ensures "year" in v.attrib ==> VolumeRecord(v, slugs)["year"] == v.attrib["year"]
  {
    assert "year" !in Touched;
  }

  /** One `volumes[volume.full_id] = data` per volume, in enumeration order. */
  function Entries(items: seq<(string, Volume)>, slugs: map<PersonName, string>): (es: seq<(string, Record)>)
    requires forall i :: 0 <= i < |items| ==> Exportable(items[i].1, slugs)
    ensures |es| == |items|
    ensures forall i :: 0 <= i < |items| ==> es[i].0 == items[i].1.fullId
    ensures forall i :: 0 <= i < |items| ==> es[i] == (items[i].1.fullId, VolumeRecord(items[i].1, slugs))
  {
    seq(|items|, i requires 0 <= i < |items| => (items[i].1.fullId, VolumeRecord(items[i].1, slugs)))
  }

  /** No volume after the `i`-th has its full id. */
  predicate LastOfId(items: seq<(string, Volume)>, i: int)
    requires 0 <= i < |items|
  {
    forall j :: i < j < |items| ==> items[j].1.fullId != items[i].1.fullId
  }

  /** The volume index. Every volume has an entry; every entry belongs to a
      volume; an entry holds the record of the last volume with that full id. */
  function Volumes(items: seq<(string, Volume)>, slugs: map<PersonName, string>): (idx: map<string, Record>)
    requires forall i :: 0 <= i < |items| ==> Exportable(items[i].1, slugs)
    ensures forall i :: 0 <= i < |items| ==> items[i].1.fullId in idx
    ensures forall k :: k in idx ==> exists i :: 0 <= i < |items| && items[i].1.fullId == k
    ensures forall i :: 0 <= i < |items| && LastOfId(items, i) ==>
              idx[items[i].1.fullId] == VolumeRecord(items[i].1, slugs)
  {
    EntriesOfVolumes(items, slugs);
    LastEntriesWin(items, slugs);
    Indexing.Collect(Entries(items, slugs))
  }

  lemma EntriesOfVolumes(items: seq<(string, Volume)>, slugs: map<PersonName, string>)
    requires forall i :: 0 <= i < |items| ==> Exportable(items[i].1, slugs)
    ensures forall i :: 0 <= i < |items| ==> items[i].1.fullId in Indexing.Collect(Entries(items, slugs))
    ensures forall k :: k in Indexing.Collect(Entries(items, slugs)) ==>
              exists i :: 0 <= i < |items| && items[i].1.fullId == k
  {
    EveryVolumeKept(items, slugs);
    NoVolumeInvented(items, slugs);
  }

  lemma EveryVolumeKept(items: seq<(string, Volume)>, slugs: map<PersonName, string>)
    requires forall i :: 0 <= i < |items| ==> Exportable(items[i].1, slugs)
    ensures forall i :: 0 <= i < |items| ==> items[i].1.fullId in Indexing.Collect(Entries(items, slugs))
  {
    var es := Entries(items, slugs);
    Indexing.CollectKeys(es);
    forall i | 0 <= i < |items| ensures items[i].1.fullId in Indexing.Collect(es) {
      assert es[i].0 == items[i].1.fullId;
    }
  }

  lemma NoVolumeInvented(items: seq<(string, Volume)>, slugs: map<PersonName, string>)
    requires forall i :: 0 <= i < |items| ==> Exportable(items[i].1, slugs)
    ensures forall k :: k in Indexing.Collect(Entries(items, slugs)) ==>
              exists i :: 0 <= i < |items| && items[i].1.fullId == k
  {
    var es := Entries(items, slugs);
    forall k | k in Indexing.Collect(es) ensures exists i :: 0 <= i < |items| && items[i].1.fullId == k {
      var i :| 0 <= i < |es| && es[i].0 == k;
      assert items[i].1.fullId == k;
    }
  }

  lemma LastEntriesWin(items: seq<(string, Volume)>, slugs: map<PersonName, string>)
    requires forall i :: 0 <= i < |items| ==> Exportable(items[i].1, slugs)
    ensures forall i :: 0 <= i < |items| && LastOfId(items, i) ==>
              && items[i].1.fullId in Indexing.Collect(Entries(items, slugs))
              && Indexing.Collect(Entries(items, slugs))[items[i].1.fullId] == VolumeRecord(items[i].1, slugs)
  {
    var es := Entries(items, slugs);
    forall i | 0 <= i < |items| && LastOfId(items, i)
      ensures items[i].1.fullId in Indexing.Collect(es)
      ensures Indexing.Collect(es)[items[i].1.fullId] == VolumeRecord(items[i].1, slugs)
    {
      assert Indexing.LastOfKey(es, i);
      Indexing.CollectLastWins(es, i);
    }
  }
}
