/** The already loaded object graph the exporter reads: the `Anthology`
    object and its `papers`, `people`, `volumes`, `venues` and `sigs`
    collections. The package that builds it (XML loading, slug generation,
    variant clustering, coauthor and venue counting, HTML rendering) is not
    part of this model: what its methods return is given here as plain data.
    A Python dict enumerated with `items()` is a sequence of pairs with
    distinct keys; a Python set is a list in its enumeration order. */
module AnthologyGraph {
  import opened Values

  /** A paper object. */
  datatype Paper = Paper(
    fullId: string,        // paper.full_id
    topLevelId: string,    // paper.top_level_id
    attrib: Record,        // what paper.get(key) reads
    fields: Record,        // paper.as_dict()
    titleHtml: string,     // paper.get_title("html")
    booktitleHtml: string, // paper.get_booktitle("html")
    abstractHtml: string)  // paper.get_abstract("html")

  /** A volume object. */
  datatype Volume = Volume(
    fullId: string,          // volume.full_id
    attrib: Record,          // volume.attrib
    titleHtml: string,       // volume.get_title("html")
    paperIds: seq<string>)   // volume.paper_ids

  /** A special interest group. Its years are the integer keys of the SIG's
      meeting list, enumerated in some order. */
  datatype Sig = Sig(name: Value, slug: Value, url: Value, volumesByYear: Value, years: seq<int>)

  /** The name index `anthology.people`, one field per query the exporter makes. */
  datatype People = People(
    names: seq<PersonName>,                              // people.names()
    slugs: map<PersonName, string>,                      // get_slug(name)
    fields: map<PersonName, Record>,                     // name.as_dict()
    canonical: set<PersonName>,                          // is_canonical(name)
    papers: map<PersonName, seq<string>>,                // get_papers(name, include_variants=True)
    coauthors: map<PersonName, seq<(PersonName, int)>>,  // get_coauthors(name, include_variants=True)
    venues: map<PersonName, seq<(string, int)>>,         // get_venues(venues, name, include_variants=True).items()
    withVariants: set<PersonName>,                       // has_variants(name)
    variants: map<PersonName, seq<PersonName>>,          // get_registered_variants(name)
    canonicalOf: map<PersonName, PersonName>)            // get_canonical_variant(name)

  datatype Anthology = Anthology(
    papers: seq<(string, Paper)>,     // anthology.papers.items()
    people: People,                   // anthology.people
    volumes: seq<(string, Volume)>,   // anthology.volumes.items()
    venues: seq<(string, Record)>,    // anthology.venues.items()
    sigs: seq<(string, Sig)>)         // anthology.sigs.items()

  /** `anthology.papers.get(id)`: the paper filed under `id`, if any. */
  function FindPaper(items: seq<(string, Paper)>, id: string): (r: Option<Paper>)
    ensures r.Some? <==> exists i :: 0 <= i < |items| && items[i].0 == id
    ensures r.Some? ==> exists i :: 0 <= i < |items| && items[i] == (id, r.value)
  {
    if |items| == 0 then None
    else if items[0].0 == id then Some(items[0].1)
    else
      var r := FindPaper(items[1..], id);
      assert forall i :: 0 <= i < |items| - 1 ==> items[1..][i] == items[i + 1];
      assert items[0].0 != id;
      r
  }

  /** `anthology.papers.get(id).get("year")` is a string. */
  predicate HasYear(items: seq<(string, Paper)>, id: string)
  {
    var p := FindPaper(items, id);
    p.Some? && "year" in p.value.attrib && p.value.attrib["year"].Str?
  }

  /** The year of paper `id`; the empty string stands for a year that is not
      a string, which the sorts only ever see for a single-element list. */
  function YearOf(items: seq<(string, Paper)>, id: string): string
  {
    if HasYear(items, id) then FindPaper(items, id).value.attrib["year"].s else ""
  }
}
