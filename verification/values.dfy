/** The plain data the exporter hands to the YAML writer, and the record
    shape it works on while building it. */
module Values {

  datatype Option<T> = None | Some(value: T)

  /** A person's name as it appears in author and editor lists (the
      anthology's name object; only its identity matters here). */
  datatype PersonName = PersonName(first: string, last: string)

  /** A YAML-ready value. `Dict` is a nested mapping in insertion order, the
      order the YAML writer emits its keys in. */
  datatype Value =
    | Str(s: string)
    | Num(n: int)
    | Name(person: PersonName)
    | List(items: seq<Value>)
    | Dict(entries: seq<(string, Value)>)

  /** A dictionary of an entity's fields, as `as_dict()` returns it and as the
      exporter writes it. Key order is not modelled. */
  type Record = map<string, Value>

  /** `r` and `d` agree on key `k`: both lack it, or both hold the same value
      under it. */
  predicate Same(r: Record, d: Record, k: string)
  {
    (k in r <==> k in d) && (k in r ==> r[k] == d[k])
  }

  /** `r` and `d` agree on every key outside `touched`. */
  ghost predicate AgreeOutside(r: Record, d: Record, touched: set<string>)
  {
    forall k :: k !in touched ==> Same(r, d, k)
  }

  /** `data[html] = Str(rendered); del data[raw]`: the raw markup key gives way
      to its rendered form. */
  function Render(d: Record, raw: string, html: string, rendered: string): (r: Record)
    requires raw != html
    ensures raw !in r && html in r && r[html] == Str(rendered)
    ensures AgreeOutside(r, d, {raw, html})
  {
    d[html := Str(rendered)] - {raw}
  }

  /** A Python list of strings. */
  function StrList(ss: seq<string>): (v: Value)
    ensures v.List? && |v.items| == |ss|
    ensures forall i :: 0 <= i < |ss| ==> v.items[i] == Str(ss[i])
  {
    List(seq(|ss|, i requires 0 <= i < |ss| => Str(ss[i])))
  }

  predicate IsStrList(v: Value)
  {
    v.List? && forall i :: 0 <= i < |v.items| ==> v.items[i].Str?
  }

  /** The strings of a list of strings, in order. */
  function Strings(v: Value): (ss: seq<string>)
    requires IsStrList(v)
    ensures StrList(ss) == v
  {
    var ss := seq(|v.items|, i requires 0 <= i < |v.items| => v.items[i].s);
    assert StrList(ss).items == v.items;
    ss
  }

  lemma StringsOfStrList(ss: seq<string>)
    ensures IsStrList(StrList(ss)) && Strings(StrList(ss)) == ss
  {
  }
}
