/** The people index: a record for every known name, canonical or variant,
    filed under the first character of its slug and then the slug. */
module PeopleIndex {
  import opened Values
  import opened AnthologyGraph
  import opened Sorting
  import opened Text
  import Slugs
  import Indexing

  /** The order of `sorted(..., key=lambda p: anthology.papers.get(p).get("year"),
      reverse=True)`: paper `p` may come before paper `q` when `p`'s year is
      not earlier than `q`'s. */
  function NewerFirst(items: seq<(string, Paper)>): (string, string) -> bool
  {
    (p: string, q: string) => LexLe(YearOf(items, q), YearOf(items, p))
  }

  lemma NewerFirstIsPreorder(items: seq<(string, Paper)>)
    ensures TotalPreorder(NewerFirst(items))
  {
    LexLeIsTotalOrder();
  }

  /** Two papers tie under `NewerFirst` exactly when their years are equal. */
  lemma NewerFirstTies(items: seq<(string, Paper)>, p: string, q: string)
    ensures Equiv(NewerFirst(items), p, q) <==> YearOf(items, p) == YearOf(items, q)
  {
    LexLeIsTotalOrder();
  }

  /** What the sort key needs: every id names a paper, and, as soon as two
      keys get compared, every paper has a string year. */
  predicate PapersFound(items: seq<(string, Paper)>, ids: seq<string>)
  {
    && (forall i :: 0 <= i < |ids| ==> FindPaper(items, ids[i]).Some?)
    && (|ids| >= 2 ==> forall i :: 0 <= i < |ids| ==> HasYear(items, ids[i]))
  }

  /** `sorted(get_papers(name, include_variants=True), key=year, reverse=True)`. */
  function PapersByYear(items: seq<(string, Paper)>, ids: seq<string>): (r: seq<string>)
    requires PapersFound(items, ids)
    ensures StablySorted(r, ids, NewerFirst(items))
  {
    NewerFirstIsPreorder(items);
    Sort(ids, NewerFirst(items))
  }

  /** The ids of `ids` whose paper has year `y`, in their order in `ids`. */
  function WithYear(items: seq<(string, Paper)>, ids: seq<string>, y: string): seq<string>
  {
    if |ids| == 0 then []
    else (if YearOf(items, ids[0]) == y then [ids[0]] else []) + WithYear(items, ids[1..], y)
  }

  lemma {:induction false} ClassIsWithYear(items: seq<(string, Paper)>, ids: seq<string>, e: string)
    ensures Class(ids, NewerFirst(items), e) == WithYear(items, ids, YearOf(items, e))
  {
    if |ids| > 0 {
      NewerFirstTies(items, ids[0], e);
      ClassIsWithYear(items, ids[1..], e);
    }
  }

  /** A canonical person's `papers` list, in plain terms: the same ids, years
      never increasing along the list, and papers of one year in the order
      `get_papers` listed them. */
  lemma {:induction false} PapersByYearOrder(items: seq<(string, Paper)>, ids: seq<string>)
    requires PapersFound(items, ids)
    ensures multiset(PapersByYear(items, ids)) == multiset(ids)
    ensures forall i, j :: 0 <= i < j < |PapersByYear(items, ids)| ==>
              LexLe(YearOf(items, PapersByYear(items, ids)[j]), YearOf(items, PapersByYear(items, ids)[i]))
    ensures forall y :: WithYear(items, PapersByYear(items, ids), y) == WithYear(items, ids, y)
  {
    var r := PapersByYear(items, ids);
    assert Sorted(r, NewerFirst(items));
    forall y ensures WithYear(items, r, y) == WithYear(items, ids, y) {
      if ys :| YearOf(items, ys) == y {
        ClassIsWithYear(items, r, ys);
        ClassIsWithYear(items, ids, ys);
      } else {
        WithYearNone(items, r, y);
        WithYearNone(items, ids, y);
      }
    }
  }

  /** No id has a year that no string is the year of. */
  lemma {:induction false} WithYearNone(items: seq<(string, Paper)>, ids: seq<string>, y: string)
    requires forall p :: YearOf(items, p) != y
    ensures WithYear(items, ids, y) == []
  {
    if |ids| > 0 {
      WithYearNone(items, ids[1..], y);
    }
  }

  /** The order of `sorted(..., key=lambda p: p[1], reverse=True)`: pair `a` may
      come before pair `b` when its count is not smaller. */
  predicate MoreFirst(a: (string, int), b: (string, int))
  {
    b.1 <= a.1
  }

  lemma MoreFirstIsPreorder()
    ensures TotalPreorder(MoreFirst)
  {
  }

  /** `sorted(pairs, key=lambda p: p[1], reverse=True)`. */
  function ByCount(pairs: seq<(string, int)>): (r: seq<(string, int)>)
    ensures StablySorted(r, pairs, MoreFirst)
  {
    MoreFirstIsPreorder();
    Sort(pairs, MoreFirst)
  }

  /** The count-ordered lists in plain terms: the same pairs, counts never
      increasing, and pairs with equal counts in their input order. */
  lemma ByCountOrder(pairs: seq<(string, int)>)
    ensures multiset(ByCount(pairs)) == multiset(pairs)
    ensures forall i, j :: 0 <= i < j < |ByCount(pairs)| ==> ByCount(pairs)[j].1 <= ByCount(pairs)[i].1
    ensures forall e :: Class(ByCount(pairs), MoreFirst, e) == Class(pairs, MoreFirst, e)
  {
    var r := ByCount(pairs);
    assert Sorted(r, MoreFirst);
  }

  /** `[[get_slug(co_name), count] for (co_name, count) in coauthors]` before
      sorting. */
  function CoauthorPairs(cs: seq<(PersonName, int)>, slugs: map<PersonName, string>): (r: seq<(string, int)>)
    requires forall i :: 0 <= i < |cs| ==> cs[i].0 in slugs
    ensures |r| == |cs| && forall i :: 0 <= i < |cs| ==> r[i] == (slugs[cs[i].0], cs[i].1)
  {
    seq(|cs|, i requires 0 <= i < |cs| => (slugs[cs[i].0], cs[i].1))
  }

  /** A list of `[name, count]` lists. */
  function PairList(ps: seq<(string, int)>): (v: Value)
    ensures v.List? && |v.items| == |ps|
    ensures forall i :: 0 <= i < |ps| ==> v.items[i] == List([Str(ps[i].0), Num(ps[i].1)])
  {
    List(seq(|ps|, i requires 0 <= i < |ps| => List([Str(ps[i].0), Num(ps[i].1)])))
  }

  /** Everything the people loop body looks up for `n` is there, and its slug
      has a first character. */
  predicate Exportable(a: Anthology, n: PersonName)
  {
    var ppl := a.people;
    && n in ppl.slugs && |ppl.slugs[n]| > 0
    && n in ppl.fields
    && (n in ppl.canonical ==>
          && n in ppl.papers && PapersFound(a.papers, ppl.papers[n])
          && n in ppl.coauthors
          && (forall i :: 0 <= i < |ppl.coauthors[n]| ==> ppl.coauthors[n][i].0 in ppl.slugs)
          && n in ppl.venues
          && (n in ppl.withVariants ==>
                && n in ppl.variants
                && forall i :: 0 <= i < |ppl.variants[n]| ==> ppl.variants[n][i] in ppl.slugs))
    && (n !in ppl.canonical ==> n in ppl.canonicalOf && ppl.canonicalOf[n] in ppl.slugs)
  }

  /** The keys a canonical name's record may add to `as_dict()`;
      `variant_entries` only when the name has variants. */
  const CanonicalKeys: set<string> := {"slug"} + AggregateKeys

  /** The keys a variant name's record adds to `as_dict()`. */
  const VariantKeys: set<string> := {"slug", "canonical_entry"}

  /** The aggregate lists a canonical name's record gets. */
  const AggregateKeys: set<string> := {"papers", "coauthors", "venues", "variant_entries"}

  /** `papers`: the cluster's paper ids, newest first. */
  function PapersOf(a: Anthology, n: PersonName): (v: Value)
    requires Exportable(a, n) && n in a.people.canonical
  {
    StrList(PapersByYear(a.papers, a.people.papers[n]))
  }

  /** `coauthors`: the cluster's coauthors' slugs with counts, most frequent first. */
  function CoauthorsOf(a: Anthology, n: PersonName): (v: Value)
    requires Exportable(a, n) && n in a.people.canonical
  {
    PairList(ByCount(CoauthorPairs(a.people.coauthors[n], a.people.slugs)))
  }

  /** `venues`: the cluster's venues with counts, most frequent first. */
  function VenuesOf(a: Anthology, n: PersonName): (v: Value)
    requires Exportable(a, n) && n in a.people.canonical
  {
    PairList(ByCount(a.people.venues[n]))
  }

  /** `variant_entries`: the slugs of the registered variants, if the name has any. */
  function VariantsOf(a: Anthology, n: PersonName): (v: Option<Value>)
    requires Exportable(a, n) && n in a.people.canonical
  {
    if n in a.people.withVariants
    then Some(StrList(Slugs.SlugsOf(a.people.variants[n], a.people.slugs)))
    else None
  }

  /** The assignments of the aggregate lists to `data`; `variant_entries`
      only when there is a list for it. */
  function AddAggregates(d: Record, papers: Value, coauthors: Value, venues: Value, variants: Option<Value>): (r: Record)
    ensures "papers" in r && r["papers"] == papers
    ensures "coauthors" in r && r["coauthors"] == coauthors
    ensures "venues" in r && r["venues"] == venues
    ensures variants.Some? ==> "variant_entries" in r && r["variant_entries"] == variants.value
    ensures variants.None? ==> Same(r, d, "variant_entries")
    ensures AgreeOutside(r, d, AggregateKeys)
  {
    var aggregated := d["papers" := papers]["coauthors" := coauthors]["venues" := venues];
    if variants.Some? then aggregated["variant_entries" := variants.value] else aggregated
  }

  /** The exported record of one name. Every record carries its slug. A
      canonical name's record adds the cluster's papers (newest first), its
      coauthors and its venues (most frequent first), and the slugs of its
      registered variants when it has any; a variant's record adds only the
      slug of its canonical name. Nothing else of `as_dict()` changes. */
  function PersonRecord(a: Anthology, n: PersonName): (r: Record)
    requires Exportable(a, n)
    ensures "slug" in r && r["slug"] == Str(a.people.slugs[n])
    ensures n in a.people.canonical ==>
              && "papers" in r && r["papers"] == PapersOf(a, n)
              && "coauthors" in r && r["coauthors"] == CoauthorsOf(a, n)
              && "venues" in r && r["venues"] == VenuesOf(a, n)
              && (VariantsOf(a, n).Some? ==>
                    "variant_entries" in r && r["variant_entries"] == VariantsOf(a, n).value)
              && (VariantsOf(a, n).None? ==> Same(r, a.people.fields[n], "variant_entries"))
              && AgreeOutside(r, a.people.fields[n], CanonicalKeys)
    ensures n !in a.people.canonical ==>
              && "canonical_entry" in r
              && r["canonical_entry"] == Str(a.people.slugs[a.people.canonicalOf[n]])
              && AgreeOutside(r, a.people.fields[n], VariantKeys)
  {
    var d := a.people.fields[n];
    var base := d["slug" := Str(a.people.slugs[n])];
    if n in a.people.canonical then
      var r := AddAggregates(base, PapersOf(a, n), CoauthorsOf(a, n), VenuesOf(a, n), VariantsOf(a, n));
      assert "slug" !in AggregateKeys;
      r
    else
      base["canonical_entry" := Str(a.people.slugs[a.people.canonicalOf[n]])]
  }

  /** The keys the exporter itself puts into person records. */
  const ExportKeys: set<string> := {"slug", "papers", "coauthors", "venues", "variant_entries", "canonical_entry"}

  /** Canonical and variant records have different shapes, not one shape with
      empty fields: when `as_dict()` uses none of the exporter's keys, a
      canonical record has the three aggregate lists and no `canonical_entry`,
      a variant record has `canonical_entry` and none of the aggregates, and
      `variant_entries` appears exactly for canonical names with variants. */
  lemma RecordShapes(a: Anthology, n: PersonName)
    requires Exportable(a, n)
    requires ExportKeys !! a.people.fields[n].Keys
    ensures var r := PersonRecord(a, n);
            && ("canonical_entry" in r <==> n !in a.people.canonical)
            && ("papers" in r <==> n in a.people.canonical)
            && ("coauthors" in r <==> n in a.people.canonical)
            && ("venues" in r <==> n in a.people.canonical)
            && ("variant_entries" in r <==> n in a.people.canonical && n in a.people.withVariants)
  {
    var r := PersonRecord(a, n);
    if n in a.people.canonical {
      CanonicalShape(r, a.people.fields[n], VariantsOf(a, n).Some?);
    } else {
      VariantShape(r, a.people.fields[n]);
    }
  }

  lemma CanonicalShape(r: Record, d: Record, variants: bool)
    requires ExportKeys !! d.Keys
    requires "papers" in r && "coauthors" in r && "venues" in r
    requires variants ==> "variant_entries" in r
    requires !variants ==> Same(r, d, "variant_entries")
    requires AgreeOutside(r, d, CanonicalKeys)
    ensures "canonical_entry" !in r && ("variant_entries" in r <==> variants)
  {
    assert "canonical_entry" !in d && "variant_entries" !in d;
    assert Same(r, d, "canonical_entry");
  }

  lemma VariantShape(r: Record, d: Record)
    requires ExportKeys !! d.Keys
    requires "canonical_entry" in r
    requires AgreeOutside(r, d, VariantKeys)
    ensures "papers" !in r && "coauthors" !in r && "venues" !in r && "variant_entries" !in r
  {
    assert "papers" !in d && "coauthors" !in d && "venues" !in d && "variant_entries" !in d;
    assert Same(r, d, "papers") && Same(r, d, "coauthors");
    assert Same(r, d, "venues") && Same(r, d, "variant_entries");
  }

  /** Every name of `names()` can be exported. */
  predicate AllExportable(a: Anthology)
  {
    && (forall i :: 0 <= i < |a.people.names| ==>
          a.people.names[i] in a.people.slugs && |a.people.slugs[a.people.names[i]]| > 0)
    && (forall i :: 0 <= i < |a.people.names| ==> Exportable(a, a.people.names[i]))
  }

  /** One `people[slug[0]][slug] = data` per name, in `names()` order. */
  function Slots(a: Anthology): (es: seq<Indexing.Slot<Record>>)
    requires AllExportable(a)
    ensures |es| == |a.people.names|
    ensures forall i :: 0 <= i < |es| ==>
              es[i].group == a.people.slugs[a.people.names[i]][..1] && es[i].key == a.people.slugs[a.people.names[i]]
    ensures forall i :: 0 <= i < |es| ==>
              var n := a.people.names[i];
              es[i] == Indexing.Slot(a.people.slugs[n][..1], a.people.slugs[n], PersonRecord(a, n))
  {
    seq(|a.people.names|, i requires 0 <= i < |a.people.names| =>
      var n := a.people.names[i];
      Indexing.Slot(a.people.slugs[n][..1], a.people.slugs[n], PersonRecord(a, n)))
  }

  /** No later name has the slug of the `i`-th. */
  predicate LastOfSlug(a: Anthology, i: int)
    requires 0 <= i < |a.people.names|
    requires forall j :: 0 <= j < |a.people.names| ==> a.people.names[j] in a.people.slugs
  {
    forall j :: i < j < |a.people.names| ==>
      a.people.slugs[a.people.names[j]] != a.people.slugs[a.people.names[i]]
  }

  /** The people index. Every name has a record at `people[slug[0]][slug]`;
      every bucket holds at least one slug, is named by one character and
      holds only slugs starting with it; a slot holds the record of the last name with that slug. */
  function People(a: Anthology): (idx: map<string, map<string, Record>>)
    requires AllExportable(a)
    ensures forall i :: 0 <= i < |a.people.names| ==>
              var s := a.people.slugs[a.people.names[i]];
              s[..1] in idx && s in idx[s[..1]]
    ensures forall g :: g in idx ==> idx[g] != map[]
    ensures forall g, k :: g in idx && k in idx[g] ==> |g| == 1 && |k| > 0 && k[..1] == g
    ensures forall g, k :: g in idx && k in idx[g] ==>
              exists i :: 0 <= i < |a.people.names| && a.people.slugs[a.people.names[i]] == k
    ensures forall i :: 0 <= i < |a.people.names| && LastOfSlug(a, i) ==>
              var s := a.people.slugs[a.people.names[i]];
              idx[s[..1]][s] == PersonRecord(a, a.people.names[i])
  {
    EveryNameFiled(a);
    BucketsByInitial(a);
    NoSlugInvented(a);
    Indexing.GroupKeys(Slots(a));
    LastSlotsWin(a);
    Indexing.Group(Slots(a))
  }

  lemma EveryNameFiled(a: Anthology)
    requires AllExportable(a)
    ensures forall i :: 0 <= i < |a.people.names| ==>
              var s := a.people.slugs[a.people.names[i]];
              s[..1] in Indexing.Group(Slots(a)) && s in Indexing.Group(Slots(a))[s[..1]]
  {
    var es := Slots(a);
    Indexing.GroupSlots(es);
    forall i | 0 <= i < |a.people.names|
      ensures var s := a.people.slugs[a.people.names[i]];
              s[..1] in Indexing.Group(es) && s in Indexing.Group(es)[s[..1]]
    {
      assert es[i].group == a.people.slugs[a.people.names[i]][..1];
    }
  }

  lemma NoSlugInvented(a: Anthology)
    requires AllExportable(a)
    ensures forall g, k :: g in Indexing.Group(Slots(a)) && k in Indexing.Group(Slots(a))[g] ==>
              exists i :: 0 <= i < |a.people.names| && a.people.slugs[a.people.names[i]] == k
  {
    var idx := Indexing.Group(Slots(a));
    forall g, k | g in idx && k in idx[g]
      ensures exists i :: 0 <= i < |a.people.names| && a.people.slugs[a.people.names[i]] == k
    {
      var i := SlotOrigin(a, g, k);
    }
  }

  lemma BucketsByInitial(a: Anthology)
    requires AllExportable(a)
    ensures forall g, k :: g in Indexing.Group(Slots(a)) && k in Indexing.Group(Slots(a))[g] ==>
              |g| == 1 && |k| > 0 && k[..1] == g
  {
    Indexing.GroupSlots(Slots(a));
  }

  /** The name whose assignment made slot `[g][k]`. */
  lemma SlotOrigin(a: Anthology, g: string, k: string) returns (i: int)
    requires AllExportable(a)
    requires g in Indexing.Group(Slots(a)) && k in Indexing.Group(Slots(a))[g]
    ensures 0 <= i < |a.people.names| && a.people.slugs[a.people.names[i]] == k
  {
    var es := Slots(a);
    Indexing.GroupSlots(es);
    assert exists j :: 0 <= j < |es| && es[j].group == g && es[j].key == k;
    i :| 0 <= i < |es| && es[i].group == g && es[i].key == k;
    assert es[i].key == a.people.slugs[a.people.names[i]];
  }

  lemma LastSlotsWin(a: Anthology)
    requires AllExportable(a)
    ensures forall i :: 0 <= i < |a.people.names| && LastOfSlug(a, i) ==>
              var s := a.people.slugs[a.people.names[i]];
              && s[..1] in Indexing.Group(Slots(a))
              && s in Indexing.Group(Slots(a))[s[..1]]
              && Indexing.Group(Slots(a))[s[..1]][s] == PersonRecord(a, a.people.names[i])
  {
    var es := Slots(a);
    forall i | 0 <= i < |a.people.names| && LastOfSlug(a, i)
      ensures var s := a.people.slugs[a.people.names[i]];
              && s[..1] in Indexing.Group(es)
              && s in Indexing.Group(es)[s[..1]]
              && Indexing.Group(es)[s[..1]][s] == PersonRecord(a, a.people.names[i])
    {
      forall j | i < j < |es| ensures !(es[j].group == es[i].group && es[j].key == es[i].key) {
      }
      assert Indexing.LastOfSlot(es, i);
      Indexing.GroupLastWins(es, i);
    }
  }
}
