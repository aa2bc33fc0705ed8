# Hugo export of the ACL Anthology, as a Dafny model

`bin/create_hugo_yaml.py` turns the loaded Anthology object graph into the
YAML data files of the Hugo site. Its function `export_anthology` builds
five indexes in memory and then writes them to disk. This project models
the building half, lines 51-160:

- **papers** (`papers/<top-level id>.yaml`): each paper's `as_dict()` is filed under its top-level id and then its full id. The raw XML title, booktitle and abstract give way to rendered HTML. Author and editor names become slugs.
- **people** (`people/<first letter>.yaml`): each name's `as_dict()` is filed under the first character of its slug and then the slug, and always gets `slug`.
  - A canonical name also gets three lists: its cluster's papers, newest year first; its coauthors, most frequent first; and its venues, most frequent first.
  - A canonical name with registered variants also gets `variant_entries`, the slugs of those variants.
  - A variant name gets only `canonical_entry`, the slug of its canonical name.
- **volumes** (`volumes.yaml`): each volume's attributes, keyed by full id. The title is rendered, the raw abstract is dropped with no replacement, the paper ids are added, and names become slugs.
- **venues** (`venues.yaml`): each venue's data, keyed by acronym. The `years` set becomes an ascending list. The `volumes` set is replaced by `volumes_by_year`, which maps each year to the ascending list of the venue's volumes whose exported record carries that year.
- **SIGs** (`sigs.yaml`): four attributes of each SIG, plus its years as ascending decimal strings.

## How the model is organised

| module (file) | models |
|---|---|
| `Values` (values.dfy) | YAML-ready values; records as `map<string, Value>`; "agrees outside these keys" frames |
| `AnthologyGraph` (anthology.dfy) | the input object graph. Every query the exporter makes of the `anthology` package is a field or a map of plain data |
| `Sorting` (sorting.dfy) | Python's stable `sorted` under a total preorder (with or without `reverse=True`); uniqueness of the stable sort |
| `Text` (text.dfy) | Python's `str` ordering, `str(int)` and `int(str)` |
| `Indexing` (indexing.dfy) | the `d[k] = v` and `defaultdict(dict)` `d[g][k] = v` loops, where the last write wins |
| `Slugs` (slugs.dfy) | `[get_slug(n) for n in ...]` on author, editor and variant lists (the coauthor pairs get their slugs in `PeopleIndex.CoauthorPairs`) |
| `PaperIndex`, `PeopleIndex`, `VolumeIndex`, `VenueIndex`, `SigIndex` | the five loops |
| `HugoExport` (export.dfy) | `export_anthology` up to the dump, and how the venue and volume indexes fit together |

A Python dict walked with `items()` is modelled as a sequence of pairs. Distinct keys are required only where a property depends on them: the venue and SIG dicts (`HugoExport.Exportable`). For the paper dict, `AnthologyGraph.FindPaper` returns the first entry with the id, which is the only one when the keys are distinct. A Python set is a list in its enumeration order, and the lemmas about the ascending sorts show that this order does not matter. Every lookup the source makes without a fallback (`get_slug`, `volumes[k]`, `del data["xml_title"]`, ...) becomes a precondition. The `Exportable` predicates of each module collect them.

## Model

| member | source | states |
|---|---|---|
| PaperIndex.RenderMarkup | bin/create_hugo_yaml.py:55-63 | `title_html` is always set to the rendered title and `xml_title` is gone. `booktitle_html` and `abstract_html` are set only when their raw key was there; otherwise they keep whatever `as_dict()` had. Neither raw key survives. No key outside the six markup keys changes |
| PaperIndex.PaperRecord | bin/create_hugo_yaml.py:55-71 | the markup facts of `RenderMarkup`. `author`/`editor` are present exactly when they were, each as the slug list of the names. No key outside the markup, author and editor keys changes |
| Slugs.SlugList | bin/create_hugo_yaml.py:65-67 | a name list becomes a list of the same length whose `i`-th entry is the slug of the `i`-th name |
| Slugs.ResolveNames | bin/create_hugo_yaml.py:64-67 | the list under `key` is replaced by its slugs only when present; every other key is untouched |
| Slugs.SlugNames | bin/create_hugo_yaml.py:64-71 | both the author and editor lists, where present, become slug lists; nothing else changes (the same code recurs at lines 128-135 for volumes) |
| Slugs.SlugsOf | bin/create_hugo_yaml.py:108-111 | `[get_slug(var) for var in ...]` keeps length and order, entry by entry |
| AnthologyGraph.FindPaper | bin/create_hugo_yaml.py:84 | `anthology.papers.get(p)` finds a paper exactly when some entry of `papers.items()` has id `p`, and what it finds is filed under `p` |
| Indexing.Group | bin/create_hugo_yaml.py:52-72 | the `defaultdict(dict)` loop has at most one group per assignment, and at least one group after any assignment; its groups are characterised by `GroupKeys` and its slots by `GroupSlots` and `GroupLastWins` |
| Indexing.GroupKeys | bin/create_hugo_yaml.py:72 | `defaultdict(dict)` creates a group only by assigning into it: every group holds at least one key and is the group of some assignment (the same loop ends line 116) |
| Indexing.Collect | bin/create_hugo_yaml.py:136 | every key of the flat index is a key some assignment wrote, so the loop invents no entry; the exact keys and values are characterised by `CollectKeys` and `CollectLastWins` (the same loop ends lines 148 and 160) |
| Indexing.GroupSlots | bin/create_hugo_yaml.py:52-72 | the two-level `defaultdict(dict)` index holds a slot for every assignment and no slot that no assignment made |
| Indexing.GroupLastWins | bin/create_hugo_yaml.py:72 | the value kept at `d[g][k]` is the one of the last assignment to that slot |
| Indexing.GroupDistinct | bin/create_hugo_yaml.py:72 | with pairwise distinct slots every assigned value survives |
| Indexing.CollectKeys | bin/create_hugo_yaml.py:119-136 | the flat index's keys are exactly the assigned keys |
| Indexing.CollectLastWins | bin/create_hugo_yaml.py:136 | the value kept at `d[k]` is the one of the last assignment to `k` |
| PaperIndex.Papers | bin/create_hugo_yaml.py:52-72 | every paper has a slot at `[top_level_id][full_id]`, every slot comes from a paper, every group is some paper's `top_level_id` and holds at least one paper, and a slot holds the record of the last paper with those ids |
| PaperIndex.NoPaperDropped | bin/create_hugo_yaml.py:52-72 | with distinct full ids, every paper's own record is in the index |
| Sorting.Sort | bin/create_hugo_yaml.py:82-106 | the result is ordered, a permutation of the input, and each group of equally ranked elements keeps its input order (Python's `sorted` is stable) |
| Sorting.SortIsTheStableSort | bin/create_hugo_yaml.py:82-106 | any list with those three properties equals `Sort`, so the insertion sort here and Python's Timsort give the same list |
| Sorting.SortIgnoresInputOrder | bin/create_hugo_yaml.py:146 | under a total order, two enumerations of the same elements sort to the same list |
| Sorting.SortedPermutationIsSort | bin/create_hugo_yaml.py:146 | under a total order, an ordered permutation of the input is the sort |
| Text.LexLeIsTotalOrder | bin/create_hugo_yaml.py:146 | Python's `str` comparison is total, transitive and antisymmetric |
| Text.Ascending | bin/create_hugo_yaml.py:146 | `sorted` of a list of strings is ascending and has the same strings |
| Text.AscendingUnique | bin/create_hugo_yaml.py:146 | any ascending rearrangement of the strings is `sorted`'s result |
| Text.AscendingIgnoresOrder | bin/create_hugo_yaml.py:146 | the sorted years of a set do not depend on the set's enumeration order |
| PeopleIndex.PapersByYear | bin/create_hugo_yaml.py:82-86 | a stable sort of the cluster's paper ids by year, descending |
| PeopleIndex.NewerFirstTies | bin/create_hugo_yaml.py:84-85 | two papers rank equal under the reversed year key exactly when their years are equal |
| PeopleIndex.PapersByYearOrder | bin/create_hugo_yaml.py:82-86 | `papers` is a permutation of `get_papers(...)`. Its years never increase along the list. For every year, the papers of that year appear in `get_papers` order |
| PeopleIndex.CoauthorPairs | bin/create_hugo_yaml.py:88-93 | each coauthor becomes `[slug, count]`, in order |
| PeopleIndex.ByCount | bin/create_hugo_yaml.py:87-106 | a stable sort of `[name, count]` pairs by count, descending |
| PeopleIndex.ByCountOrder | bin/create_hugo_yaml.py:87-106 | `coauthors` and `venues` are permutations of their pairs, counts never increase, and pairs of equal count keep their order |
| PeopleIndex.PersonRecord | bin/create_hugo_yaml.py:78-115 | `slug` is always set. A canonical name gets `papers`, `coauthors` and `venues` as sorted above, and `variant_entries` exactly when it has variants; otherwise `variant_entries` stays as `as_dict()` had it. A variant gets `canonical_entry`, the slug of its canonical name. Every other key of `as_dict()` is unchanged |
| PeopleIndex.RecordShapes | bin/create_hugo_yaml.py:81-115 | canonical and variant records differ in shape. `canonical_entry` is present exactly for variants, the three aggregate lists exactly for canonical names, and `variant_entries` exactly for canonical names with variants. This holds when `as_dict()` uses none of these keys |
| PeopleIndex.People | bin/create_hugo_yaml.py:75-116 | every name has a record at `people[slug[0]][slug]`, and every slot's slug is the slug of some name. Each bucket holds at least one slug, is named by one character and holds only slugs starting with it. A slot holds the record of the last name with that slug |
| VolumeIndex.VolumeHeader | bin/create_hugo_yaml.py:122-127 | the title is rendered and `xml_title` removed, `xml_abstract` is gone with no rendered replacement, and `papers` holds the volume's paper ids. Nothing else changes |
| VolumeIndex.VolumeRecord | bin/create_hugo_yaml.py:122-135 | the header facts, plus author and editor lists turned into slug lists where present; no other key changes |
| VolumeIndex.YearKept | bin/create_hugo_yaml.py:122-136 | a volume's `year` is exported exactly as the volume had it, which is what the venue loop compares against |
| VolumeIndex.Volumes | bin/create_hugo_yaml.py:119-136 | every volume has an entry under its full id, every entry comes from a volume, and an entry holds the record of the last volume with that id |
| VenueIndex.OfYear | bin/create_hugo_yaml.py:143 | `filter(lambda k: volumes[k]["year"] == year, ...)` is no longer than its input, and every id it keeps is one of the input ids whose volume has that year |
| VenueIndex.OfYearCounts | bin/create_hugo_yaml.py:143 | the filter keeps each volume id as often as it occurs when that volume's year is `y`, and drops it otherwise |
| VenueIndex.VenueRecord | bin/create_hugo_yaml.py:141-147 | `volumes` is removed, `years` and `volumes_by_year` are present, and every other key of the venue's data is unchanged |
| VenueIndex.YearsAscending | bin/create_hugo_yaml.py:146 | `years` is ascending and holds the same year strings |
| VenueIndex.TableFollowsYears | bin/create_hugo_yaml.py:142-145 | `volumes_by_year` has one entry per year, in the order of `years`. The entry of year `y` is an ascending list of the venue's volumes of year `y` |
| VenueIndex.EveryYearListed | bin/create_hugo_yaml.py:142-145 | a year has an entry in `volumes_by_year` if and only if it is one of the venue's years |
| VenueIndex.ListedUnderItsYear | bin/create_hugo_yaml.py:143 | volume `k` is listed under year `y` if and only if `k` is one of the venue's volumes, `y` one of its years, and `y` the year of `k`'s exported record |
| VenueIndex.Venues | bin/create_hugo_yaml.py:139-148 | the index keys are exactly the acronyms, each holding its venue's record |
| VenueIndex.IndexResolves | bin/create_hugo_yaml.py:143 | whatever the venue index lists under a year is a volume with that year |
| SigIndex.YearStrings | bin/create_hugo_yaml.py:158 | `[str(year) for year in sig.years]` keeps length and order, entry `i` being `str` of year `i` |
| SigIndex.SigRecord | bin/create_hugo_yaml.py:153-159 | exactly five keys; `name`, `slug`, `url` and `volumes_by_year` are the SIG's own |
| SigIndex.YearsSorted | bin/create_hugo_yaml.py:158 | `years` is an ascending list of the SIG's years as `str` |
| SigIndex.YearsReadBack | bin/create_hugo_yaml.py:158 | each listed string parses back to one of the SIG's years, and each year is listed |
| SigIndex.YearsChronological | bin/create_hugo_yaml.py:158 | with four-digit years the string order of `years` is also numeric order |
| Text.FourDigitOrder | bin/create_hugo_yaml.py:158 | for numbers 1000-9999 the `str` order equals the numeric order |
| Text.ShortYearSortsLast | bin/create_hugo_yaml.py:158 | outside four digits it does not: "1000" sorts before "999" |
| Text.ParseIntToString | bin/create_hugo_yaml.py:158 | `int(str(n)) == n` |
| Text.IntToStringInjective | bin/create_hugo_yaml.py:158 | distinct years have distinct strings |
| SigIndex.Sigs | bin/create_hugo_yaml.py:151-160 | the index keys are exactly the acronyms, each holding its SIG's record |
| HugoExport.ExportAnthology | bin/create_hugo_yaml.py:51-160 | every paper, name and volume has a slot in its index; the venue and SIG indexes are keyed by exactly the venues' and SIGs' acronyms |
| HugoExport.VenueVolumesResolve | bin/create_hugo_yaml.py:143 | a volume id that `venues.yaml` lists under year `y` is a key of `volumes.yaml` whose record has year `y` |

## Variant records and `as_dict()`

The people loop adds `papers`, `coauthors`, `venues` and `variant_entries` only for canonical names (lines 81-111), and it never removes a key. A variant's record therefore lacks these four keys only when its `as_dict()` lacks them. `PeopleIndex.RecordShapes` states the disjoint canonical and variant shapes under that condition. `PeopleIndex.PersonRecord` states that for a variant these keys are kept from `as_dict()` unchanged.

## Left out

- Directory creation (lines 45-49) and the YAML dump with its progress bar (lines 162-186): file I/O with nothing to state beyond what the indexes already hold.
- Command-line parsing, logging and the `SeverityTracker` exit status (lines 189 onwards): process plumbing.
- The `anthology` package is not part of this model. Its answers (`as_dict`, `get_slug`, `is_canonical`, `get_papers`, `get_coauthors`, `get_venues`, `has_variants`, `get_registered_variants`, `get_canonical_variant`, `get_title("html")`, `paper_ids`, the SIG attributes) are inputs.
- Key order inside a record is not modelled: a record is a map. Only the nested `volumes_by_year` keeps its insertion order, because that order is the sorted order of the years.
- `volume.attrib` is modified in place at line 122, so the exported record and the volume object share one dict. The model builds a fresh record and does not model this aliasing.
- PeopleIndex.PapersByYear: the precondition requires string years for lists of two or more papers, which is what years loaded from XML are. Python would also sort a list whose years are all integers; only mixed types or `None` raise `TypeError`. A single paper needs no year, since Python never compares it.
- VenueIndex.Exportable: venue years and volume ids are required to be strings. Mixed-type sets, which Python could not sort, are not modelled.
- SigIndex.YearsChronological: states numeric order only for four-digit years; `Text.ShortYearSortsLast` shows that the string sort is not numeric outside that range.
- A missing key where the source looks one up raises `KeyError` in Python. The model does not represent that exception path; it is excluded by preconditions (`Exportable`), because the source has no handler for it.
- The other exceptions the preconditions exclude, for the same reason: `PeopleIndex.PapersFound` excludes a paper id that `anthology.papers.get(p)` does not find, where line 84 would raise `AttributeError` on `None`; `PeopleIndex.Exportable` requires a non-empty slug, where `slug[0]` at line 116 would raise `IndexError`.
