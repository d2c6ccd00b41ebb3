# Faceted medical-device taxonomy: a Dafny model

This project models the core of `decision_tree.py`. That file holds a taxonomy of classification terms, arranged under a forest of "collective terms" (categories). Users identify an item by walking that forest and ranking the terms found under the categories they pick. The model covers five parts of the program:

- **Construction** (`Database.__init__`, without the XML parsing):
  - terms go into a code-keyed dict (the last record with a code wins);
  - each category record becomes a `CollectiveTerm` object;
  - code-less records are listed as roots;
  - each category's parent id is derived from its path with Python's `rfind` and slicing, and the parent and child links are added.

  A missing term code or parent id raises `KeyError`. Python objects are modelled as positions in `nodes`. A dict is a map plus its key order. (Module `Taxonomy`; the string handling is in `Paths`.)
- **Lookups** (`get_CT` and `get_term`):
  - a direct key is a dict access that may raise `KeyError`;
  - otherwise the dict is scanned in insertion order, and the first keyword given decides the comparison;
  - with no keyword at all the scan returns `False`;
  - a scan that finds nothing returns `None`.

  (Module `Lookup`.)
- **Aggregation** (`all_terms`): a category's own terms plus its whole subtree's terms, with duplicates removed. (Module `Aggregate`.)
- **Search** (`search`):
  - **default mode** ranks the distinct terms of the concatenated aggregates by descending count. Python's `sorted` is stable, so ties go by first occurrence.
  - **strict mode** keeps the `"Active"` terms that are in every aggregate.

  (Module `Search`.)
- **Traversal** (`decision_tree`): the interactive loop is a state machine fed with abstract answers (`Token`s). It records tags in root order, and a root may contribute several tags. The model keeps the program's quirks: "0" records the current category, "00" picks the last child, and "no" at the confirm question records. (Module `Traversal`.)

Shared pieces are in `Results`, an `Option`/`Result` with Python's exceptions as errors, and `Seqs`, which holds sequence helpers and the dict model.

The model follows the code, including these behaviours a reader may not expect:

- **Roots.** A record is a root exactly when it has no code (line 102), even when its path gives it a parent. A derived parent id that is empty does not make a record a root.
- **Paths without "/id/".** A path that does not contain "/id/" does not always give an empty parent id. `rfind` returns -1, so the slice `[0:-1]` drops the last character, and the last segment of what remains may name a parent or raise `KeyError`. `Paths.ParentIdNotFound` states this case.
- **Several tags per root.** A root can contribute more than one tag: after each recorded walk the loop asks whether to "continue filtering" on the same root.
- **"0" and "no".**
  - "0" at a menu records the current category; it does not abandon the branch.
  - "no" at the confirm question records the category too, because `reponse = "cancel"` assigns a misspelled variable.
- **Menu answers that are not re-prompted.** These do not re-prompt:
  - a menu number above the number of children raises `IndexError`;
  - a zero-valued digit string other than "0" raises nothing: `int("00") - 1` is -1, so line 211 selects the last child.
- **Strict search on an empty selection** raises `IndexError` at `search_terms[0]`. It does not return an empty result.
- **Lookups with no criterion.** `False` is returned on the first dict entry. `None` is returned for an empty dict.
- **Missing references** raise `KeyError`, which is Python's subclass of `LookupError`.
- **`all_terms` mutates its input.** It extends the category's own term list in place, and its recursive calls do the same to every list in the subtree. `Aggregate.AllTermsInPlace` models the call with that side effect. Its contract, `Aggregate.AllTermsRepeatable` and `Aggregate.AllTermsCalls` (any number of calls in a row, as `search` makes them) show that the mutation never changes a later aggregate as a set, so the rest of the model uses the pure `Aggregate.AllTerms`.

## Model

| member | source | states |
|---|---|---|
| Paths.RFind | decision_tree.py:113 | `rfind` yields -1 or a start of the substring, and there is no later start |
| Paths.AfterLastSlash | decision_tree.py:115 | the slice after the last '/' is a suffix without '/', and it is preceded by '/' when it is not the whole string |
| Paths.ParentId | decision_tree.py:111-115 | the derived parent id is a single segment without '/', shorter than any non-empty path, and empty for an empty path |
| Paths.ParentIdFound | decision_tree.py:111-115 | when "/id/" occurs, the parent id is the last segment of the path before its last occurrence |
| Paths.ParentIdNotFound | decision_tree.py:111-115 | when "/id/" does not occur, the parent id is the last segment of the path minus its final character (empty for an empty path) |
| Paths.ParentIsSegmentBeforeLastOccurrence | decision_tree.py:111-115 | for a path `pre/parent/id/post` with no later "/id/", the derived parent id is exactly `parent` |
| Paths.LeadingOccurrenceMeansNoParent | decision_tree.py:111-116 | a path that starts with "/id/" and never repeats it derives an empty parent id, so no link is made |
| Taxonomy.TermsByCode | decision_tree.py:83-89 | the term dict's keys are exactly the record codes, and each key maps to a record carrying that code |
| Taxonomy.TermsByCodeKeepsLast | decision_tree.py:83-89 | a term record whose code no later record repeats is the one stored under its code: the last assignment wins |
| Taxonomy.BuildTerms | decision_tree.py:78-89 | the store's keys are the record codes, and its key order lists every key once, in order of first insertion |
| Taxonomy.LastIndexIsLast | decision_tree.py:89 | a dict built by repeated assignment keeps, for a key, the last position where it was assigned |
| Taxonomy.ResolveTerms | decision_tree.py:104-106 | resolution succeeds iff every code is stored; the result lists the stored terms in code order; on failure the error is `KeyError` of the first missing code |
| Taxonomy.CreateNodes | decision_tree.py:91-106 | one object per record in record order, carrying the record's fields, its resolved terms and no links; fails iff some record has an unstored term code, with `KeyError` of the first one |
| Taxonomy.RootsOf | decision_tree.py:102 | a position is a root iff its record has no code; roots are in record order |
| Taxonomy.LinkOne | decision_tree.py:111-119 | one linking step fails iff the visited object's derived parent id is non-empty and unregistered, and then with `KeyError` of that id; it keeps the node count and keeps every link pointing at an existing object |
| Taxonomy.LinkOneAt | decision_tree.py:116-119 | one linking step changes only node links: the parent is set on the visited object, and the visited object is appended to its parent's children |
| Taxonomy.LinkAll | decision_tree.py:109-119 | the linking loop over the dict's ids keeps the node count and keeps every link pointing at an existing object |
| Taxonomy.LinkAllSucceeds | decision_tree.py:109-119 | the linking loop succeeds iff every visited object's derived parent id is empty or registered |
| Taxonomy.LinkAllFailure | decision_tree.py:116-117 | a failing loop raises `KeyError` naming the unregistered parent id of the first visited object whose parent does not resolve |
| Taxonomy.LinkAllLinks | decision_tree.py:109-119 | after the loop, a node keeps its record fields; its children are its earlier children followed by the visited objects whose parent is that node, in dict order; its parent is set iff it is the object registered under its id and its derived parent id is non-empty and registered |
| Taxonomy.LinkRecords | decision_tree.py:109-119 | the linking stage over the records' id dict keeps one object per record and keeps every link pointing at an existing object |
| Taxonomy.LinkRecordsSucceeds | decision_tree.py:109-119 | the linking stage over fresh objects succeeds iff every registered category's derived parent id is empty or registered |
| Taxonomy.LinkRecordsChildren | decision_tree.py:109-119 | after linking fresh objects, a category's children are the registered objects whose derived parent is it, in dict order |
| Taxonomy.LinkRecordsParent | decision_tree.py:109-119 | after linking fresh objects, a category has a parent iff it is the object registered under its id and its derived parent id is non-empty and registered, and then the parent is the object registered under that id |
| Taxonomy.Build | decision_tree.py:78-119 | construction succeeds iff every category's term codes are stored and every registered category's derived parent id is empty or registered |
| Taxonomy.BuildTermError | decision_tree.py:104-105 | an unstored term code makes construction fail with `KeyError` naming an unstored code of some record |
| Taxonomy.LinkRecordsError | decision_tree.py:113-117 | a failing linking stage raises `KeyError` for a non-empty derived parent id that no record registers |
| Taxonomy.BuildParentError | decision_tree.py:116-117 | with all term codes stored, construction fails only with `KeyError` for a missing parent id |
| Taxonomy.BuildShape | decision_tree.py:78-119 | a built database: objects carry their records and resolved terms; `tree` is the last-wins id dict; roots are exactly the code-less records, in order, whether or not they received a parent; the links are the declarative ones |
| Taxonomy.BuildLinksAgree | decision_tree.py:116-119 | in a built database, `c` is among `k`'s children iff `k` is `c`'s parent |
| Taxonomy.BuildWellLinked | decision_tree.py:109-119 | every child and parent link of a built database, every dict entry and every root points at an existing object |
| Lookup.ScanCategories | decision_tree.py:132-146 | the scan returns the category registered under the first id in dict order that matches the comparison, or `None` when none matches |
| Lookup.ScanTerms | decision_tree.py:161-169 | the same for the term dict |
| Lookup.GetCategory | decision_tree.py:122-146 | a given id takes precedence: it returns its category or raises `KeyError`. Otherwise code, name, definition and path are tried in that order, the first one given decides the scan, and with none given the result is `False`, or `None` for an empty dict |
| Lookup.GetTerm | decision_tree.py:151-169 | code takes precedence and returns its term or raises `KeyError`, then name, then definition; with none given the result is `False`, or `None` for an empty dict |
| Lookup.BuildReady | decision_tree.py:78-119 | a built database's dicts list exactly their keys once each, so both lookups apply |
| Aggregate.AllTerms | decision_tree.py:333-344 | the aggregate of a category holds no duplicates |
| Aggregate.ChildTerms | decision_tree.py:341-342 | the concatenated aggregates of the children from position `j` on hold exactly the terms of some such child's aggregate |
| Aggregate.AllTermsSound | decision_tree.py:340-343 | every aggregated term is assigned to the category or to one of its descendants |
| Aggregate.AllTermsComplete | decision_tree.py:340-343 | every term assigned to the category or to one of its descendants is aggregated |
| Aggregate.AllTermsExact | decision_tree.py:333-344 | a term is aggregated iff some downward path from the category ends at a category it is assigned to |
| Aggregate.GrowthKeepsAggregates | decision_tree.py:340-342 | growing direct term lists only with terms already in each subtree, as the in-place `extend` does, changes no aggregate as a set |
| Aggregate.AllTermsInPlace | decision_tree.py:333-344 | the call with its side effect changes only term lists, and only in the category's subtree; it grows each list only with terms already in that node's aggregate; it returns, without duplicates, the aggregate of the database before the call |
| Aggregate.ExtendChildren | decision_tree.py:340-342 | the loop over the children from position `j` on is growth confined to the subtree; the category's own list gains exactly the aggregates of those children |
| Aggregate.AppendChild | decision_tree.py:341-342 | one iteration is growth confined to the subtree, and the category's own list gains exactly that child's aggregate |
| Aggregate.AllTermsRepeatable | decision_tree.py:333-344 | a second call, on the database the first call left, returns the aggregate of the original database |
| Aggregate.AllTermsCalls | decision_tree.py:317-318 | calling `all_terms` on each tag in turn, each call on the database the previous one left, grows term lists only with terms already in their aggregates, and every call returns without duplicates the aggregate of the database before the first call |
| Search.InsertDesc | decision_tree.py:322 | insertion adds exactly one copy of the element, as a multiset |
| Search.InsertDescDescending | decision_tree.py:322 | insertion keeps a count-descending sequence descending |
| Search.SortDesc | decision_tree.py:322 | `sorted(..., key=c.get, reverse=True)` returns a permutation of its input that is descending in count |
| Search.SortDescStable | decision_tree.py:322 | the sort is stable: for each count, the elements with that count keep their input order |
| Search.RankByCount | decision_tree.py:321-325 | the ranking lists each distinct term of the concatenation exactly once |
| Search.RankByCountRanked | decision_tree.py:321-325 | each ranked term occurs at least as often as every later one, and a tie is ordered by first occurrence |
| Search.RankByCountUnique | decision_tree.py:321-325 | any duplicate-free list of the same terms ranked that way equals the ranking, so the description determines the output |
| Search.CountIsHolding | decision_tree.py:317-321 | over duplicate-free aggregates, a term's `Counter` count is the number of selected aggregates holding it |
| Search.DefaultSearch | decision_tree.py:315-325 | default mode is duplicate-free, and holds exactly the terms of some aggregate; an empty selection gives an empty list |
| Search.DefaultSearchRanks | decision_tree.py:315-325 | along the output, the number of aggregates holding a term never increases; ties follow first occurrence in the concatenation; status is not consulted |
| Search.StrictSearch | decision_tree.py:301-313 | strict mode raises `IndexError` iff the selection is empty; otherwise it holds exactly the "Active" terms present in every aggregate |
| Search.StrictWithinDefault | decision_tree.py:301-325 | every strict-mode result is in the default-mode result of the same selection |
| Search.InPlaceOrdersAdmissible | decision_tree.py:301-318 | the lists `search` collects by calling `all_terms` tag after tag, with the in-place mutation, are duplicate-free orders of the original aggregates, as `Search.SearchTags` requires |
| Search.SearchTags | decision_tree.py:289-327 | `search(tags, strict)` fails iff strict with no tags, returns no duplicates, and returns the union of the tags' aggregates (default) or their Active intersection (strict) |
| Traversal.ExtendWalk | decision_tree.py:211 | descending to a child of the walk's last category extends a valid walk |
| Traversal.Step | decision_tree.py:183-230 | one answer keeps the loop in a valid state, never moves back a root and moves forward at most one root, records only walks from the current root, and fails only with `IndexError` |
| Traversal.RunPicksValid | decision_tree.py:177-237 | every recorded tag ends a walk from a root at or after the starting one, and tags come in root order |
| Traversal.Run | decision_tree.py:177-230 | the loop fails only with `IndexError` or at the end of the answers, and answers that run out before every root is done give `EndOfInput` |
| Traversal.DecisionTree | decision_tree.py:171-237 | every tag `decision_tree` returns is reachable from a root through child links; it fails only with `IndexError` or at the end of the answers |
| Traversal.RunCons | decision_tree.py:183-230 | a run over one answer then the rest is the step followed by the run from the resulting state, with that step's tags first |
| Traversal.RepromptIgnored | decision_tree.py:185-223 | an answer the current question does not act on is re-prompted: the outcome is as if it had not been typed |
| Traversal.NoSkipsRoot | decision_tree.py:189-195 | "no" at a root's question moves to the next root and records nothing |
| Traversal.SkipRoots | decision_tree.py:178-195 | answering "no" to `n` roots in a row moves the loop `n` roots forward |
| Traversal.AllNo | decision_tree.py:177-237 | answering "no" to every remaining root ends the loop with no tags |
| Traversal.ConfirmNoRecords | decision_tree.py:224-230 | "no" at the confirm question behaves exactly like "yes" and records the category |
| Traversal.CancelRecordsNothing | decision_tree.py:207-230 | "cancel" at a menu abandons the walk without recording and returns to the root's question |
| Traversal.ZeroRecordsCurrent | decision_tree.py:210-230 | "0" at a menu records the category whose menu it is |
| Traversal.ZerosPicksLastChild | decision_tree.py:207-211 | a zero-valued digit string other than "0" descends to the last child (index -1) |
| Traversal.OutOfRangeFails | decision_tree.py:211 | a menu number above the number of children raises `IndexError` |
| Traversal.ChooseChild | decision_tree.py:211 | menu number `n` within range descends to the `n`-th child |
| Traversal.FinishRecords | decision_tree.py:210-230 | "0" at the menu, or "yes" at the confirm question, records the walk's last category and returns to the root's question |
| Traversal.WalkFrom | decision_tree.py:198-230 | from any point along a walk, the remaining menu numbers and the final answer record exactly that walk |
| Traversal.WalkFromRoot | decision_tree.py:189-230 | "yes" at a root's question, the walk's menu numbers and a final answer, then "no" to every later root, return exactly that walk |
| Traversal.EveryWalkRecordable | decision_tree.py:177-237 | every walk from every root is recorded by some answer sequence, and that sequence returns exactly that walk |

## Left out

- XML parsing (`ET.parse`, `resource_path`) is left out. Construction takes already-parsed term and category records. A missing `<code>` element is `None`.
- Console I/O is not modelled: `print` and the prompts carry nothing the results depend on. Each `input()` line is abstracted to a `Token`. `lower()` comparisons are folded into the token kinds. Unicode digits, for which `isdigit()` holds but `int()` fails, are not modelled.
- Running out of input (`EOFError` from `input()`) is the error `EndOfInput`.
- Traversal.DecisionTree: the model is `decision_tree(final_dialog=False)`, the form line 271 calls. With the default `final_dialog=True`, line 234 also calls `output(search_tags)` before returning. That call runs the default-mode `search` over the recorded tags and prints the results; the model covers that search separately as `Search.SearchTags` over the lists `Aggregate.AllTermsCalls` returns. Through `all_terms` it also extends term lists in place, and it raises `RecursionError` when a recorded tag lies on a cycle of parent links, where the model of the walk returns `Ok`.
- `output`, `performance_data`, the CSV and pandas work and the GUI driver (`gui_data.py`) are not part of this model. They are presentation and batch evaluation around the core.
- Python set iteration order is not modelled. `all_terms` returns `list(set(terms))`, whose order Python leaves open, so `search` takes one order per selected aggregate as a parameter (`orders`).
- Search.StrictSearch: with two or more tags, the source iterates a Python set. The model returns the first aggregate's order filtered, and states only membership and absence of duplicates.
- Aggregate.AllTerms: only acyclic forests are modelled, through the `rank` precondition. That precondition excludes the whole database as soon as any cycle of parent links exists. In the source only `all_terms` of a category on such a cycle fails: CPython stops the recursion with `RecursionError` at its recursion limit. The aggregates of the other categories of such a database are not modelled.
- Aggregate.AllTermsInPlace: the in-place `extend` is modelled as a function that returns the database after the call, not as a heap mutation. `search` is modelled over the pure aggregates; `Aggregate.AllTermsCalls` and `Search.InPlaceOrdersAdmissible` show that the lists its calls actually return are admissible for it.
