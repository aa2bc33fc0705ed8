/** Turning names into slugs: the `[get_slug(name) for name in ...]`
    comprehension the exporter applies to author, editor and variant lists.
    `get_slug` itself is a lookup in the name index's slug table. */
module Slugs {
  import opened Values

  /** `[get_slug(n) for n in ns]`. */
  function SlugsOf(ns: seq<PersonName>, slugs: map<PersonName, string>): (r: seq<string>)
    requires forall i :: 0 <= i < |ns| ==> ns[i] in slugs
    ensures |r| == |ns|
    ensures forall i :: 0 <= i < |ns| ==> r[i] == slugs[ns[i]]
  {
    if |ns| == 0 then [] else [slugs[ns[0]]] + SlugsOf(ns[1..], slugs)
  }

  /** A list value all of whose elements are names with a slug. */
  predicate NamesHaveSlugs(v: Value, slugs: map<PersonName, string>)
  {
    v.List? && forall i :: 0 <= i < |v.items| ==> v.items[i].Name? && v.items[i].person in slugs
  }

  /** The names of a list of names. */
  function NamesOf(items: seq<Value>): (ns: seq<PersonName>)
    requires forall i :: 0 <= i < |items| ==> items[i].Name?
    ensures |ns| == |items| && forall i :: 0 <= i < |items| ==> ns[i] == items[i].person
  {
    seq(|items|, i requires 0 <= i < |items| => items[i].person)
  }

  /** A list of names as the list of their slugs: same length, same order. */
  function SlugList(v: Value, slugs: map<PersonName, string>): (r: Value)
    requires NamesHaveSlugs(v, slugs)
    ensures r.List? && |r.items| == |v.items|
    ensures forall i :: 0 <= i < |v.items| ==> r.items[i] == Str(slugs[v.items[i].person])
  {
    StrList(SlugsOf(NamesOf(v.items), slugs))
  }

  /** `data[key]`, when present, is a list of names with slugs. */
  predicate Resolvable(d: Record, key: string, slugs: map<PersonName, string>)
  {
    key in d ==> NamesHaveSlugs(d[key], slugs)
  }

  /** `if key in data: data[key] = [get_slug(n) for n in data[key]]`: the list
      under `key` is replaced by its slugs; a record without `key` and every
      other key are left alone. */
  function ResolveNames(d: Record, key: string, slugs: map<PersonName, string>): (r: Record)
    requires Resolvable(d, key, slugs)
    ensures key in r <==> key in d
    ensures key in d ==> r[key] == SlugList(d[key], slugs)
    ensures AgreeOutside(r, d, {key})
  {
    if key in d then d[key := SlugList(d[key], slugs)] else d
  }

  /** The author and editor lists of a paper or volume record, where
      present, become lists of slugs. */
  function SlugNames(d: Record, slugs: map<PersonName, string>): (r: Record)
    requires Resolvable(d, "author", slugs) && Resolvable(d, "editor", slugs)
    ensures "author" in r <==> "author" in d
    ensures "author" in d ==> r["author"] == SlugList(d["author"], slugs)
    ensures "editor" in r <==> "editor" in d
    ensures "editor" in d ==> r["editor"] == SlugList(d["editor"], slugs)
    ensures AgreeOutside(r, d, {"author", "editor"})
  {
    ResolveNames(ResolveNames(d, "author", slugs), "editor", slugs)
  }
}
