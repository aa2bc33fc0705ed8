/** The SIG index: each special interest group's record, with its years as
    sorted strings. */
module SigIndex {
  import opened Values
  import opened AnthologyGraph
  import opened Text
  import opened Sorting
  import Indexing

  /** `[str(year) for year in sig.years]`. */
  function YearStrings(ys: seq<int>): (ss: seq<string>)
    ensures |ss| == |ys| && forall i :: 0 <= i < |ys| ==> ss[i] == IntToString(ys[i])
  {
    seq(|ys|, i requires 0 <= i < |ys| => IntToString(ys[i]))
  }

  /** The keys of every SIG record. */
  const SigKeys: set<string> := {"name", "slug", "url", "volumes_by_year", "years"}

  /** The exported record of one SIG: exactly five keys, four of them the
      SIG's own attributes passed through unchanged. */
  function SigRecord(s: Sig): (r: Record)
    ensures r.Keys == SigKeys
    ensures r["name"] == s.name && r["slug"] == s.slug && r["url"] == s.url
    ensures r["volumes_by_year"] == s.volumesByYear
  {
    map[
      "name" := s.name,
      "slug" := s.slug,
      "url" := s.url,
      "volumes_by_year" := s.volumesByYear,
      "years" := StrList(Ascending(YearStrings(s.years)))]
  }

  /** `years` holds the decimal strings of the SIG's years, in ascending
      string order. */
  lemma YearsSorted(s: Sig)
    ensures IsStrList(SigRecord(s)["years"])
    ensures Sorted(Strings(SigRecord(s)["years"]), LexLe)
    ensures multiset(Strings(SigRecord(s)["years"])) == multiset(YearStrings(s.years))
  {
    StringsOfStrList(Ascending(YearStrings(s.years)));
  }

  /** Nothing is lost in turning years into strings: every listed string
      reads back as one of the SIG's years, and every year is listed. */
  lemma YearsReadBack(s: Sig)
    ensures IsStrList(SigRecord(s)["years"])
    ensures forall t :: t in Strings(SigRecord(s)["years"]) ==> IsIntLiteral(t) && ParseInt(t) in s.years
    ensures forall y :: y in s.years ==> IntToString(y) in Strings(SigRecord(s)["years"])
  {
    YearsSorted(s);
    var listed := Strings(SigRecord(s)["years"]);
    var given := YearStrings(s.years);
    forall t | t in listed ensures IsIntLiteral(t) && ParseInt(t) in s.years {
      assert t in multiset(given);
      var i :| 0 <= i < |given| && given[i] == t;
      ParseIntToString(s.years[i]);
    }
    forall y | y in s.years ensures IntToString(y) in listed {
      var i :| 0 <= i < |s.years| && s.years[i] == y;
      assert given[i] == IntToString(y);
      assert IntToString(y) in multiset(listed);
    }
  }

  /** With four-digit years the string order of `years` is chronological.
      (Outside that range it is not: `ShortYearSortsLast`.) */
  lemma YearsChronological(s: Sig)
    requires forall i :: 0 <= i < |s.years| ==> 1000 <= s.years[i] <= 9999
    ensures IsStrList(SigRecord(s)["years"])
    ensures forall i, j :: 0 <= i < j < |Strings(SigRecord(s)["years"])| ==>
              ReadInOrder(Strings(SigRecord(s)["years"])[i], Strings(SigRecord(s)["years"])[j])
  {
    YearsSorted(s);
    SortedYearsInOrder(s.years, Strings(SigRecord(s)["years"]));
  }

  /** Two year strings that read back as years in chronological order. */
  predicate ReadInOrder(t: string, u: string)
  {
    IsIntLiteral(t) && IsIntLiteral(u) && ParseInt(t) <= ParseInt(u)
  }

  /** A string-sorted rearrangement of four-digit year strings reads back in
      chronological order. */
  lemma SortedYearsInOrder(ys: seq<int>, listed: seq<string>)
    requires forall i :: 0 <= i < |ys| ==> 1000 <= ys[i] <= 9999
    requires Sorted(listed, LexLe) && multiset(listed) == multiset(YearStrings(ys))
    ensures forall i, j :: 0 <= i < j < |listed| ==> ReadInOrder(listed[i], listed[j])
  {
    forall i, j | 0 <= i < j < |listed| ensures ReadInOrder(listed[i], listed[j]) {
      assert listed[i] in multiset(YearStrings(ys)) && listed[j] in multiset(YearStrings(ys));
      assert LexLe(listed[i], listed[j]);
      PairInOrder(ys, listed[i], listed[j]);
    }
  }

  lemma PairInOrder(ys: seq<int>, t: string, u: string)
    requires forall i :: 0 <= i < |ys| ==> 1000 <= ys[i] <= 9999
    requires t in YearStrings(ys) && u in YearStrings(ys)
    requires LexLe(t, u)
    ensures ReadInOrder(t, u)
  {
    var i :| 0 <= i < |ys| && YearStrings(ys)[i] == t;
    var j :| 0 <= j < |ys| && YearStrings(ys)[j] == u;
    ParseIntToString(ys[i]);
    ParseIntToString(ys[j]);
    FourDigitOrder(ys[i], ys[j]);
  }

  /** One `sigs[acronym] = data` per SIG, in enumeration order. */
  function Entries(items: seq<(string, Sig)>): (es: seq<(string, Record)>)
    ensures |es| == |items|
    ensures forall i :: 0 <= i < |items| ==> es[i].0 == items[i].0
    ensures forall i :: 0 <= i < |items| ==> es[i] == (items[i].0, SigRecord(items[i].1))
  {
    seq(|items|, i requires 0 <= i < |items| => (items[i].0, SigRecord(items[i].1)))
  }

  /** The SIG index: exactly the SIGs' acronyms, each with its SIG's record. */
  function Sigs(items: seq<(string, Sig)>): (idx: map<string, Record>)
    requires Indexing.DistinctKeys(items)
    ensures forall i :: 0 <= i < |items| ==> items[i].0 in idx && idx[items[i].0] == SigRecord(items[i].1)
    ensures forall k :: k in idx ==> exists i :: 0 <= i < |items| && items[i].0 == k
  {
    EntriesOfSigs(items);
    Indexing.Collect(Entries(items))
  }

  lemma EntriesOfSigs(items: seq<(string, Sig)>)
    requires Indexing.DistinctKeys(items)
    ensures forall i :: 0 <= i < |items| ==>
              items[i].0 in Indexing.Collect(Entries(items)) && Indexing.Collect(Entries(items))[items[i].0] == SigRecord(items[i].1)
    ensures forall k :: k in Indexing.Collect(Entries(items)) ==> exists i :: 0 <= i < |items| && items[i].0 == k
  {
    EverySigKept(items);
    NoSigInvented(items);
  }

  lemma EverySigKept(items: seq<(string, Sig)>)
    requires Indexing.DistinctKeys(items)
    ensures forall i :: 0 <= i < |items| ==>
              items[i].0 in Indexing.Collect(Entries(items)) && Indexing.Collect(Entries(items))[items[i].0] == SigRecord(items[i].1)
  {
    var es := Entries(items);
    assert Indexing.DistinctKeys(es) by {
      assert forall i :: 0 <= i < |es| ==> es[i].0 == items[i].0;
    }
    Indexing.CollectDistinct(es);
    forall i | 0 <= i < |items|
      ensures items[i].0 in Indexing.Collect(es) && Indexing.Collect(es)[items[i].0] == SigRecord(items[i].1)
    {
      assert es[i] == (items[i].0, SigRecord(items[i].1));
    }
  }

  lemma NoSigInvented(items: seq<(string, Sig)>)
    ensures forall k :: k in Indexing.Collect(Entries(items)) ==> exists i :: 0 <= i < |items| && items[i].0 == k
  {
    var es := Entries(items);
    forall k | k in Indexing.Collect(es) ensures exists i :: 0 <= i < |items| && items[i].0 == k {
      var i :| 0 <= i < |es| && es[i].0 == k;
      assert items[i].0 == k;
    }
  }
}
