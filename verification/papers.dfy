/** The paper index: every paper's record, filed under its top-level id and
    then its full id. */
module PaperIndex {
  import opened Values
  import opened AnthologyGraph
  import Slugs
  import Indexing

  /** What the paper loop body needs of a paper: the raw title key it deletes
      unconditionally, and slugs for every author and editor. */
  predicate Exportable(p: Paper, slugs: map<PersonName, string>)
  {
    && "xml_title" in p.fields
    && Slugs.Resolvable(p.fields, "author", slugs)
    && Slugs.Resolvable(p.fields, "editor", slugs)
  }

  /** The keys the markup steps may touch. The booktitle and abstract keys
      are touched only when the raw key is present. */
  const MarkupKeys: set<string> :=
    {"title_html", "xml_title", "booktitle_html", "xml_booktitle", "abstract_html", "xml_abstract"}

  /** The keys the paper loop body may add, replace or delete. */
  const Touched: set<string> := MarkupKeys + {"author", "editor"}

  /** The first half of the loop body: each raw XML markup key present gives
      way to its rendered HTML (the title unconditionally). */
  function RenderMarkup(p: Paper): (r: Record)
    requires "xml_title" in p.fields
    ensures "title_html" in r && r["title_html"] == Str(p.titleHtml) && "xml_title" !in r
    ensures "xml_booktitle" !in r
    ensures "xml_booktitle" in p.fields ==> "booktitle_html" in r && r["booktitle_html"] == Str(p.booktitleHtml)
    ensures "xml_abstract" !in r
    ensures "xml_abstract" in p.fields ==> "abstract_html" in r && r["abstract_html"] == Str(p.abstractHtml)
    ensures "xml_booktitle" !in p.fields ==> Same(r, p.fields, "booktitle_html")
    ensures "xml_abstract" !in p.fields ==> Same(r, p.fields, "abstract_html")
    ensures AgreeOutside(r, p.fields, MarkupKeys)
  {
    var d := p.fields;
    var t := Render(d, "xml_title", "title_html", p.titleHtml);
    var b := if "xml_booktitle" in t then Render(t, "xml_booktitle", "booktitle_html", p.booktitleHtml) else t;
    var a := if "xml_abstract" in b then Render(b, "xml_abstract", "abstract_html", p.abstractHtml) else b;
    MarkupFrame(d, t, b, a);
    a
  }

  lemma MarkupFrame(d: Record, t: Record, b: Record, a: Record)
    requires AgreeOutside(t, d, {"xml_title", "title_html"})
    requires AgreeOutside(b, t, if "xml_booktitle" in d then {"xml_booktitle", "booktitle_html"} else {})
    requires AgreeOutside(a, b, if "xml_abstract" in d then {"xml_abstract", "abstract_html"} else {})
    ensures "xml_booktitle" !in d ==> Same(a, d, "booktitle_html")
    ensures "xml_abstract" !in d ==> Same(a, d, "abstract_html")
    ensures AgreeOutside(a, d, MarkupKeys)
  {
    if "xml_booktitle" !in d {
      assert Same(t, d, "booktitle_html") && Same(b, t, "booktitle_html") && Same(a, b, "booktitle_html");
    }
    if "xml_abstract" !in d {
      assert "abstract_html"[0] != "booktitle_html"[0];
      assert Same(t, d, "abstract_html") && Same(b, t, "abstract_html") && Same(a, b, "abstract_html");
    }
    forall k | k !in MarkupKeys ensures Same(a, d, k) {
      assert Same(t, d, k) && Same(b, t, k) && Same(a, b, k);
    }
  }

  /** The exported record of one paper: `as_dict()` with the raw XML markup
      keys swapped for rendered HTML and the names swapped for slugs. */
  function PaperRecord(p: Paper, slugs: map<PersonName, string>): (r: Record)
    requires Exportable(p, slugs)
    ensures "title_html" in r && r["title_html"] == Str(p.titleHtml) && "xml_title" !in r
    ensures "xml_booktitle" !in r
    ensures "xml_booktitle" in p.fields ==> "booktitle_html" in r && r["booktitle_html"] == Str(p.booktitleHtml)
    ensures "xml_abstract" !in r
    ensures "xml_abstract" in p.fields ==> "abstract_html" in r && r["abstract_html"] == Str(p.abstractHtml)
    ensures "author" in r <==> "author" in p.fields
    ensures "author" in p.fields ==> r["author"] == Slugs.SlugList(p.fields["author"], slugs)
    ensures "editor" in r <==> "editor" in p.fields
    ensures "editor" in p.fields ==> r["editor"] == Slugs.SlugList(p.fields["editor"], slugs)
    ensures "xml_booktitle" !in p.fields ==> Same(r, p.fields, "booktitle_html")
    ensures "xml_abstract" !in p.fields ==> Same(r, p.fields, "abstract_html")
    ensures AgreeOutside(r, p.fields, Touched)
  {
    var m := RenderMarkup(p);
    assert "author" !in MarkupKeys && "editor" !in MarkupKeys;
    Slugs.SlugNames(m, slugs)
  }

  /** One `papers[paper.top_level_id][paper.full_id] = data` per paper, in
      enumeration order. */
  function Slots(items: seq<(string, Paper)>, slugs: map<PersonName, string>): (es: seq<Indexing.Slot<Record>>)
    requires forall i :: 0 <= i < |items| ==> Exportable(items[i].1, slugs)
    ensures |es| == |items|
    ensures forall i :: 0 <= i < |items| ==>
              es[i] == Indexing.Slot(items[i].1.topLevelId, items[i].1.fullId, PaperRecord(items[i].1, slugs))
  {
    seq(|items|, i requires 0 <= i < |items| =>
      Indexing.Slot(items[i].1.topLevelId, items[i].1.fullId, PaperRecord(items[i].1, slugs)))
  }

  /** No paper after the `i`-th has both its top-level id and its full id. */
  predicate LastOfId(items: seq<(string, Paper)>, i: int)
    requires 0 <= i < |items|
  {
    forall j :: i < j < |items| ==>
      !(items[j].1.topLevelId == items[i].1.topLevelId && items[j].1.fullId == items[i].1.fullId)
  }

  /** The paper index. Every paper has a slot; every slot belongs to a paper;
      every group is some paper's top-level id and holds at least one paper;
      the slot holds the record of the last paper with those ids, since a
      later assignment overwrites an earlier one. */
  function Papers(items: seq<(string, Paper)>, slugs: map<PersonName, string>): (idx: map<string, map<string, Record>>)
    requires forall i :: 0 <= i < |items| ==> Exportable(items[i].1, slugs)
    ensures forall i :: 0 <= i < |items| ==>
              items[i].1.topLevelId in idx && items[i].1.fullId in idx[items[i].1.topLevelId]
    ensures forall g, k :: g in idx && k in idx[g] ==>
              exists i :: 0 <= i < |items| && items[i].1.topLevelId == g && items[i].1.fullId == k
    ensures forall g :: g in idx ==> idx[g] != map[] && exists i :: 0 <= i < |items| && items[i].1.topLevelId == g
    ensures forall i :: 0 <= i < |items| && LastOfId(items, i) ==>
              idx[items[i].1.topLevelId][items[i].1.fullId] == PaperRecord(items[i].1, slugs)
  {
    SlotsOfPapers(items, slugs);
    GroupsOfPapers(items, slugs);
    LastSlotsWin(items, slugs);
    Indexing.Group(Slots(items, slugs))
  }

  lemma SlotsOfPapers(items: seq<(string, Paper)>, slugs: map<PersonName, string>)
    requires forall i :: 0 <= i < |items| ==> Exportable(items[i].1, slugs)
    ensures forall i :: 0 <= i < |items| ==>
              && items[i].1.topLevelId in Indexing.Group(Slots(items, slugs))
              && items[i].1.fullId in Indexing.Group(Slots(items, slugs))[items[i].1.topLevelId]
    ensures forall g, k :: g in Indexing.Group(Slots(items, slugs)) && k in Indexing.Group(Slots(items, slugs))[g] ==>
              exists i :: 0 <= i < |items| && items[i].1.topLevelId == g && items[i].1.fullId == k
  {
    var es := Slots(items, slugs);
    var idx := Indexing.Group(es);
    Indexing.GroupSlots(es);
    forall i | 0 <= i < |items| ensures items[i].1.topLevelId in idx && items[i].1.fullId in idx[items[i].1.topLevelId] {
      assert es[i].group == items[i].1.topLevelId && es[i].key == items[i].1.fullId;
    }
    forall g, k | g in idx && k in idx[g] ensures exists i :: 0 <= i < |items| && items[i].1.topLevelId == g && items[i].1.fullId == k {
      var i :| 0 <= i < |es| && es[i].group == g && es[i].key == k;
      assert items[i].1.topLevelId == g && items[i].1.fullId == k;
    }
  }

  lemma GroupsOfPapers(items: seq<(string, Paper)>, slugs: map<PersonName, string>)
    requires forall i :: 0 <= i < |items| ==> Exportable(items[i].1, slugs)
    ensures forall g :: g in Indexing.Group(Slots(items, slugs)) ==>
              && Indexing.Group(Slots(items, slugs))[g] != map[]
              && exists i :: 0 <= i < |items| && items[i].1.topLevelId == g
  {
    var es := Slots(items, slugs);
    Indexing.GroupKeys(es);
    forall g | g in Indexing.Group(es) ensures exists i :: 0 <= i < |items| && items[i].1.topLevelId == g {
      var i :| 0 <= i < |es| && es[i].group == g;
      assert items[i].1.topLevelId == g;
    }
  }

  lemma LastSlotsWin(items: seq<(string, Paper)>, slugs: map<PersonName, string>)
    requires forall i :: 0 <= i < |items| ==> Exportable(items[i].1, slugs)
    ensures forall i :: 0 <= i < |items| && LastOfId(items, i) ==>
              && items[i].1.topLevelId in Indexing.Group(Slots(items, slugs))
              && items[i].1.fullId in Indexing.Group(Slots(items, slugs))[items[i].1.topLevelId]
              && Indexing.Group(Slots(items, slugs))[items[i].1.topLevelId][items[i].1.fullId]
                 == PaperRecord(items[i].1, slugs)
  {
    var es := Slots(items, slugs);
    forall i | 0 <= i < |items| && LastOfId(items, i)
      ensures items[i].1.topLevelId in Indexing.Group(es) && items[i].1.fullId in Indexing.Group(es)[items[i].1.topLevelId]
      ensures Indexing.Group(es)[items[i].1.topLevelId][items[i].1.fullId] == PaperRecord(items[i].1, slugs)
    {
      assert Indexing.LastOfSlot(es, i);
      Indexing.GroupLastWins(es, i);
    }
  }

  /** No paper is dropped: when full ids are distinct (as the anthology's are),
      every paper's record is in the index. */
  lemma NoPaperDropped(items: seq<(string, Paper)>, slugs: map<PersonName, string>)
    requires forall i :: 0 <= i < |items| ==> Exportable(items[i].1, slugs)
    requires forall i, j :: 0 <= i < j < |items| ==> items[i].1.fullId != items[j].1.fullId
    ensures forall i :: 0 <= i < |items| ==>
              && items[i].1.topLevelId in Papers(items, slugs)
              && items[i].1.fullId in Papers(items, slugs)[items[i].1.topLevelId]
              && Papers(items, slugs)[items[i].1.topLevelId][items[i].1.fullId] == PaperRecord(items[i].1, slugs)
  {
    forall i | 0 <= i < |items| ensures LastOfId(items, i) {
    }
  }
}
