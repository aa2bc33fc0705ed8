/** The venue index: each venue's record with its volume list regrouped by
    year. */
module VenueIndex {
  import opened Values
  import opened Text
  import opened Sorting
  import Indexing

  /** No string occurs twice: the venue's `years` is a set. */
  predicate NoDuplicates(ss: seq<string>)
  {
    forall i, j :: 0 <= i < j < |ss| ==> ss[i] != ss[j]
  }

  /** Every id names an exported volume with a `year`. */
  predicate VolumesKnown(ids: seq<string>, vols: map<string, Record>)
  {
    forall i :: 0 <= i < |ids| ==> ids[i] in vols && "year" in vols[ids[i]]
  }

  /** What the venue loop body needs of a venue's data: a set of year strings
      and a `volumes` entry to delete; when there is at least one year the
      comprehension also reads every volume id and that volume's `year`. */
  predicate Exportable(d: Record, vols: map<string, Record>)
  {
    && "years" in d && IsStrList(d["years"]) && NoDuplicates(Strings(d["years"]))
    && "volumes" in d
    && (|d["years"].items| > 0 ==> IsStrList(d["volumes"]) && VolumesKnown(Strings(d["volumes"]), vols))
  }

  /** `filter(lambda k: volumes[k]["year"] == year, ids)`. */
  function OfYear(ids: seq<string>, vols: map<string, Record>, y: string): (r: seq<string>)
    requires VolumesKnown(ids, vols)
    ensures |r| <= |ids|
    ensures forall i :: 0 <= i < |r| ==> r[i] in ids && vols[r[i]]["year"] == Str(y)
  {
    if |ids| == 0 then []
    else (if vols[ids[0]]["year"] == Str(y) then [ids[0]] else []) + OfYear(ids[1..], vols, y)
  }

  /** The filter keeps each id of year `y` as often as it occurs and drops
      every other id. */
  lemma {:induction false} OfYearCounts(ids: seq<string>, vols: map<string, Record>, y: string)
    requires VolumesKnown(ids, vols)
    ensures forall k :: multiset(OfYear(ids, vols, y))[k]
                        == if k in vols && "year" in vols[k] && vols[k]["year"] == Str(y) then multiset(ids)[k] else 0
  {
    if |ids| > 0 {
      OfYearCounts(ids[1..], vols, y);
      assert ids == [ids[0]] + ids[1..];
    }
  }

  /** The `volumes_by_year` entries for ascending years `ys`: each year with
      its volumes, sorted. */
  function YearTable(ys: seq<string>, ids: seq<string>, vols: map<string, Record>): (es: seq<(string, Value)>)
    requires |ys| > 0 ==> VolumesKnown(ids, vols)
    ensures |es| == |ys|
    ensures forall i :: 0 <= i < |ys| ==> es[i] == (ys[i], StrList(Ascending(OfYear(ids, vols, ys[i]))))
  {
    seq(|ys|, i requires 0 <= i < |ys| => (ys[i], StrList(Ascending(OfYear(ids, vols, ys[i])))))
  }

  /** The exported record of one venue: `volumes` is replaced by
      `volumes_by_year`, `years` is put in order, nothing else changes. */
  function VenueRecord(d: Record, vols: map<string, Record>): (r: Record)
    requires Exportable(d, vols)
    ensures "volumes" !in r && "years" in r && "volumes_by_year" in r
    ensures AgreeOutside(r, d, {"volumes", "years", "volumes_by_year"})
  {
    var years := Ascending(Strings(d["years"]));
    var ids := if |years| > 0 then Strings(d["volumes"]) else [];
    d["volumes_by_year" := Dict(YearTable(years, ids, vols))]["years" := StrList(years)] - {"volumes"}
  }

  /** The two fields the venue loop builds, spelled out. */
  lemma {:induction false} VenueRecordFields(d: Record, vols: map<string, Record>)
    requires Exportable(d, vols)
    ensures var years := Ascending(Strings(d["years"]));
            && VenueRecord(d, vols)["years"] == StrList(years)
            && VenueRecord(d, vols)["volumes_by_year"]
               == Dict(YearTable(years, if |years| > 0 then Strings(d["volumes"]) else [], vols))
  {
  }

  /** `years` lists the venue's years in ascending order, each once. */
  lemma YearsAscending(d: Record, vols: map<string, Record>)
    requires Exportable(d, vols)
    ensures var r := VenueRecord(d, vols);
            && IsStrList(r["years"])
            && Sorted(Strings(r["years"]), LexLe)
            && multiset(Strings(r["years"])) == multiset(Strings(d["years"]))
  {
    VenueRecordFields(d, vols);
    StringsOfStrList(Ascending(Strings(d["years"])));
  }

  /** `volumes_by_year` has one entry per year, in the order of `years`, and
      the entry of year `y` lists, in ascending order, the venue's volumes
      whose year is `y`. */
  lemma TableFollowsYears(d: Record, vols: map<string, Record>)
    requires Exportable(d, vols)
    ensures var r := VenueRecord(d, vols);
            var es := r["volumes_by_year"].entries;
            && r["volumes_by_year"].Dict?
            && IsStrList(r["years"])
            && |es| == |Strings(r["years"])|
            && forall i :: 0 <= i < |es| ==>
                 && es[i].0 == Strings(r["years"])[i]
                 && IsStrList(es[i].1)
                 && Sorted(Strings(es[i].1), LexLe)
                 && multiset(Strings(es[i].1)) == multiset(OfYear(Strings(d["volumes"]), vols, es[i].0))
  {
    var years := Ascending(Strings(d["years"]));
    var ids := if |years| > 0 then Strings(d["volumes"]) else [];
    VenueRecordFields(d, vols);
    StringsOfStrList(years);
    var es := YearTable(years, ids, vols);
    forall i | 0 <= i < |es|
      ensures IsStrList(es[i].1) && Sorted(Strings(es[i].1), LexLe)
      ensures multiset(Strings(es[i].1)) == multiset(OfYear(Strings(d["volumes"]), vols, es[i].0))
    {
      StringsOfStrList(Ascending(OfYear(ids, vols, years[i])));
    }
  }

  /** Every year of the venue gets an entry in `volumes_by_year`, and no
      other year does. */
  lemma EveryYearListed(d: Record, vols: map<string, Record>, y: string)
    requires Exportable(d, vols)
    ensures var es := VenueRecord(d, vols)["volumes_by_year"].entries;
            (exists i :: 0 <= i < |es| && es[i].0 == y) <==> Str(y) in d["years"].items
  {
    var r := VenueRecord(d, vols);
    YearsAscending(d, vols);
    TableFollowsYears(d, vols);
    var es := r["volumes_by_year"].entries;
    var years := Strings(r["years"]);
    var given := Strings(d["years"]);
    assert y in years <==> y in given by {
      assert y in multiset(years) <==> y in multiset(given);
    }
    assert Str(y) in d["years"].items <==> y in given by {
      StringsOfStrList(given);
      StrListMember(given, y);
    }
    if y in years {
      var i :| 0 <= i < |years| && years[i] == y;
      assert es[i].0 == y;
    }
  }

  /** A volume is listed under year `y` exactly when it is one of the venue's
      volumes, `y` is one of the venue's years, and `y` is the volume's year. */
  lemma ListedUnderItsYear(d: Record, vols: map<string, Record>, y: string, k: string)
    requires Exportable(d, vols)
    ensures var es := VenueRecord(d, vols)["volumes_by_year"].entries;
            (exists i :: 0 <= i < |es| && es[i].0 == y && Str(k) in es[i].1.items)
            <==> && Str(y) in d["years"].items
                 && Str(k) in d["volumes"].items
                 && k in vols && "year" in vols[k] && vols[k]["year"] == Str(y)
  {
    var r := VenueRecord(d, vols);
    TableFollowsYears(d, vols);
    EveryYearListed(d, vols, y);
    var es := r["volumes_by_year"].entries;
    if i :| 0 <= i < |es| && es[i].0 == y && Str(k) in es[i].1.items {
      ListedVolume(d, vols, es[i].1, y, k);
    }
    if Str(y) in d["years"].items && Str(k) in d["volumes"].items && k in vols && "year" in vols[k]
       && vols[k]["year"] == Str(y) {
      var i :| 0 <= i < |es| && es[i].0 == y;
      ListedVolume(d, vols, es[i].1, y, k);
    }
  }

  /** One entry of `volumes_by_year`, read back. */
  lemma ListedVolume(d: Record, vols: map<string, Record>, listed: Value, y: string, k: string)
    requires Exportable(d, vols) && |d["years"].items| > 0
    requires IsStrList(listed)
    requires multiset(Strings(listed)) == multiset(OfYear(Strings(d["volumes"]), vols, y))
    ensures Str(k) in listed.items
            <==> Str(k) in d["volumes"].items && k in vols && "year" in vols[k] && vols[k]["year"] == Str(y)
  {
    var ids := Strings(d["volumes"]);
    StringsOfStrList(ids);
    StrListMember(ids, k);
    StrListMember(Strings(listed), k);
    OfYearCounts(ids, vols, y);
    assert k in Strings(listed) <==> k in multiset(Strings(listed));
    assert k in ids <==> k in multiset(ids);
  }

  /** A string is in a list of strings exactly when its `Str` is. */
  lemma StrListMember(ss: seq<string>, k: string)
    ensures Str(k) in StrList(ss).items <==> k in ss
  {
    if k in ss {
      var i :| 0 <= i < |ss| && ss[i] == k;
      assert StrList(ss).items[i] == Str(k);
    }
  }

  /** One `venues[acronym] = data` per venue, in enumeration order. */
  function Entries(items: seq<(string, Record)>, vols: map<string, Record>): (es: seq<(string, Record)>)
    requires forall i :: 0 <= i < |items| ==> Exportable(items[i].1, vols)
    ensures |es| == |items|
    ensures forall i :: 0 <= i < |items| ==> es[i].0 == items[i].0
    ensures forall i :: 0 <= i < |items| ==> es[i] == (items[i].0, VenueRecord(items[i].1, vols))
  {
    seq(|items|, i requires 0 <= i < |items| => (items[i].0, VenueRecord(items[i].1, vols)))
  }

  /** The venue index: exactly the venues' acronyms, each with its venue's
      record. */
  function Venues(items: seq<(string, Record)>, vols: map<string, Record>): (idx: map<string, Record>)
    requires forall i :: 0 <= i < |items| ==> Exportable(items[i].1, vols)
    requires Indexing.DistinctKeys(items)
    ensures forall i :: 0 <= i < |items| ==> items[i].0 in idx && idx[items[i].0] == VenueRecord(items[i].1, vols)
    ensures forall k :: k in idx ==> exists i :: 0 <= i < |items| && items[i].0 == k
  {
    EntriesOfVenues(items, vols);
    Indexing.Collect(Entries(items, vols))
  }

  lemma EntriesOfVenues(items: seq<(string, Record)>, vols: map<string, Record>)
    requires forall i :: 0 <= i < |items| ==> Exportable(items[i].1, vols)
    requires Indexing.DistinctKeys(items)
    ensures forall i :: 0 <= i < |items| ==>
              items[i].0 in Indexing.Collect(Entries(items, vols))
              && Indexing.Collect(Entries(items, vols))[items[i].0] == VenueRecord(items[i].1, vols)
    ensures forall k :: k in Indexing.Collect(Entries(items, vols)) ==> exists i :: 0 <= i < |items| && items[i].0 == k
  {
    EveryVenueKept(items, vols);
    NoVenueInvented(items, vols);
  }

  lemma EveryVenueKept(items: seq<(string, Record)>, vols: map<string, Record>)
    requires forall i :: 0 <= i < |items| ==> Exportable(items[i].1, vols)
    requires Indexing.DistinctKeys(items)
    ensures forall i :: 0 <= i < |items| ==>
              items[i].0 in Indexing.Collect(Entries(items, vols))
              && Indexing.Collect(Entries(items, vols))[items[i].0] == VenueRecord(items[i].1, vols)
  {
    Indexing.CollectDistinct(Entries(items, vols));
  }

  lemma NoVenueInvented(items: seq<(string, Record)>, vols: map<string, Record>)
    requires forall i :: 0 <= i < |items| ==> Exportable(items[i].1, vols)
    ensures forall k :: k in Indexing.Collect(Entries(items, vols)) ==> exists i :: 0 <= i < |items| && items[i].0 == k
  {
    var es := Entries(items, vols);
    forall k | k in Indexing.Collect(es) ensures exists i :: 0 <= i < |items| && items[i].0 == k {
      var i :| 0 <= i < |es| && es[i].0 == k;
      assert items[i].0 == k;
    }
  }

  /** Venue record `r` lists volume `k` under year `y`. */
  predicate ListsUnder(r: Record, y: string, k: string)
  {
    && "volumes_by_year" in r && r["volumes_by_year"].Dict?
    && exists i :: 0 <= i < |r["volumes_by_year"].entries|
                   && r["volumes_by_year"].entries[i].0 == y
                   && r["volumes_by_year"].entries[i].1.List?
                   && Str(k) in r["volumes_by_year"].entries[i].1.items
  }

  /** Whatever the venue index lists under a year is a volume of that year. */
  lemma IndexResolves(items: seq<(string, Record)>, vols: map<string, Record>, acronym: string, y: string, k: string)
    requires forall i :: 0 <= i < |items| ==> Exportable(items[i].1, vols)
    requires Indexing.DistinctKeys(items)
    requires acronym in Venues(items, vols) && ListsUnder(Venues(items, vols)[acronym], y, k)
    ensures k in vols && "year" in vols[k] && vols[k]["year"] == Str(y)
  {
    var i :| 0 <= i < |items| && items[i].0 == acronym;
    ListedUnderItsYear(items[i].1, vols, y, k);
  }
}
