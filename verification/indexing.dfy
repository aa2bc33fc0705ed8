/** The two ways the exporter files records: a flat `d[key] = value` loop and
    the two-level `defaultdict(dict)` loop `d[group][key] = value`. In both a
    later assignment to the same slot overwrites an earlier one. */
module Indexing {

  /** No entry after position `i` has entry `i`'s key: `i` is the entry a
      `d[key] = value` loop leaves in place. */
  predicate LastOfKey<V>(es: seq<(string, V)>, i: int)
    requires 0 <= i < |es|
  {
    forall j :: i < j < |es| ==> es[j].0 != es[i].0
  }

  /** `d = {}` followed by `d[key] = value` for each entry in turn. */
  function Collect<V>(es: seq<(string, V)>): (d: map<string, V>)
    ensures forall k :: k in d ==> exists i :: 0 <= i < |es| && es[i].0 == k
  {
    if |es| == 0 then map[] else Collect(es[..|es| - 1])[es[|es| - 1].0 := es[|es| - 1].1]
  }

  /** The keys of `Collect(es)` are exactly the keys of the entries. */
  lemma {:induction false} CollectKeys<V>(es: seq<(string, V)>)
    ensures forall i :: 0 <= i < |es| ==> es[i].0 in Collect(es)
    ensures forall k :: k in Collect(es) ==> exists i :: 0 <= i < |es| && es[i].0 == k
  {
    if |es| > 0 {
      var init := es[..|es| - 1];
      CollectKeys(init);
      assert Collect(es) == Collect(init)[es[|es| - 1].0 := es[|es| - 1].1];
      forall k | k in Collect(es) ensures exists i :: 0 <= i < |es| && es[i].0 == k {
        if k != es[|es| - 1].0 {
          var i :| 0 <= i < |init| && init[i].0 == k;
          assert es[i].0 == k;
        }
      }
      forall i | 0 <= i < |es| ensures es[i].0 in Collect(es) {
        if i < |init| {
          assert init[i] == es[i];
        }
      }
    }
  }

  /** The last entry with a given key is the one whose value is kept. */
  lemma {:induction false} CollectLastWins<V>(es: seq<(string, V)>, i: int)
    requires 0 <= i < |es| && LastOfKey(es, i)
    ensures es[i].0 in Collect(es) && Collect(es)[es[i].0] == es[i].1
  {
    if i < |es| - 1 {
      var init := es[..|es| - 1];
      assert init[i] == es[i];
      assert LastOfKey(init, i);
      CollectLastWins(init, i);
    }
  }

  /** No two entries share a key, as with the pairs of a dict's `items()`. */
  predicate DistinctKeys<V>(es: seq<(string, V)>)
  {
    forall i, j :: 0 <= i < j < |es| ==> es[i].0 != es[j].0
  }

  /** When no two entries share a key, every entry survives. */
  lemma CollectDistinct<V>(es: seq<(string, V)>)
    requires DistinctKeys(es)
    ensures forall i :: 0 <= i < |es| ==> es[i].0 in Collect(es) && Collect(es)[es[i].0] == es[i].1
  {
    forall i | 0 <= i < |es| ensures es[i].0 in Collect(es) && Collect(es)[es[i].0] == es[i].1 {
      CollectLastWins(es, i);
    }
  }

  /** One `d[group][key] = value` assignment. */
  datatype Slot<V> = Slot(group: string, key: string, value: V)

  /** No slot after position `i` names the same group and key as slot `i`. */
  predicate LastOfSlot<V>(es: seq<Slot<V>>, i: int)
    requires 0 <= i < |es|
  {
    forall j :: i < j < |es| ==> !(es[j].group == es[i].group && es[j].key == es[i].key)
  }

  /** `d = defaultdict(dict)` followed by `d[group][key] = value` for each slot. */
  function Group<V>(es: seq<Slot<V>>): (d: map<string, map<string, V>>)
    ensures |d| <= |es|
    ensures |es| > 0 ==> |d| > 0
  {
    if |es| == 0 then map[]
    else
      var m := Group(es[..|es| - 1]);
      var last := es[|es| - 1];
      var inner := if last.group in m then m[last.group] else map[];
      m[last.group := inner[last.key := last.value]]
  }

  /** Grouping is total and invents nothing: the (group, key) slots present
      are exactly those of the entries. */
  lemma {:induction false} GroupSlots<V>(es: seq<Slot<V>>)
    ensures forall i :: 0 <= i < |es| ==> es[i].group in Group(es) && es[i].key in Group(es)[es[i].group]
    ensures forall g, k :: g in Group(es) && k in Group(es)[g] ==>
              exists i :: 0 <= i < |es| && es[i].group == g && es[i].key == k
  {
    if |es| > 0 {
      var init := es[..|es| - 1];
      var last := es[|es| - 1];
      GroupSlots(init);
      var m := Group(es);
      forall g, k | g in m && k in m[g] ensures exists i :: 0 <= i < |es| && es[i].group == g && es[i].key == k {
        if g != last.group || k != last.key {
          assert g in Group(init) && k in Group(init)[g];
          var i :| 0 <= i < |init| && init[i].group == g && init[i].key == k;
          assert es[i].group == g && es[i].key == k;
        }
      }
      forall i | 0 <= i < |es| ensures es[i].group in m && es[i].key in m[es[i].group] {
        if i < |init| {
          assert init[i] == es[i];
        }
      }
    }
  }

  /** `defaultdict(dict)` creates a group only when it assigns into it: every
      group holds at least one key and is the group of some assignment. */
  lemma {:induction false} GroupKeys<V>(es: seq<Slot<V>>)
    ensures forall g :: g in Group(es) ==> Group(es)[g] != map[]
    ensures forall g :: g in Group(es) ==> exists i :: 0 <= i < |es| && es[i].group == g
  {
    if |es| > 0 {
      var init := es[..|es| - 1];
      var last := es[|es| - 1];
      GroupKeys(init);
      var m := Group(es);
      forall g | g in m ensures m[g] != map[] && exists i :: 0 <= i < |es| && es[i].group == g {
        if g == last.group {
          assert last.key in m[g];
        } else {
          assert g in Group(init) && m[g] == Group(init)[g];
          var i :| 0 <= i < |init| && init[i].group == g;
          assert es[i].group == g;
        }
      }
    }
  }

  /** The last slot naming a (group, key) pair is the one whose value is kept. */
  lemma {:induction false} GroupLastWins<V>(es: seq<Slot<V>>, i: int)
    requires 0 <= i < |es| && LastOfSlot(es, i)
    ensures es[i].group in Group(es) && es[i].key in Group(es)[es[i].group]
    ensures Group(es)[es[i].group][es[i].key] == es[i].value
  {
    if i < |es| - 1 {
      var init := es[..|es| - 1];
      assert init[i] == es[i];
      assert LastOfSlot(init, i);
      GroupLastWins(init, i);
    }
  }

  /** When no two slots coincide, every value survives at its slot. */
  lemma GroupDistinct<V>(es: seq<Slot<V>>)
    requires forall i, j :: 0 <= i < j < |es| ==> !(es[i].group == es[j].group && es[i].key == es[j].key)
    ensures forall i :: 0 <= i < |es| ==>
              && es[i].group in Group(es)
              && es[i].key in Group(es)[es[i].group]
              && Group(es)[es[i].group][es[i].key] == es[i].value
  {
    forall i | 0 <= i < |es|
      ensures es[i].group in Group(es) && es[i].key in Group(es)[es[i].group]
      ensures Group(es)[es[i].group][es[i].key] == es[i].value
    {
      GroupLastWins(es, i);
    }
  }
}
