/** The lookups `Database.get_CT` and `Database.get_term` (decision_tree.py,
    lines 122-169).

    A direct id (or term code) is a dict lookup that raises `KeyError` when
    missing. Otherwise the dict is scanned in insertion order and the first
    given criterion decides the comparison; the first match is returned.
    With no criterion at all the scan returns `False` on its first entry, and
    a scan that runs out (an empty dict, or nothing matching) returns `None`. */
module Lookup {

  import opened Results
  import opened Seqs
  import opened Taxonomy

  /** What a lookup returns: an object, Python's `False`, or Python's `None`. */
  datatype Lookup<T> = Match(value: T) | NoCriterion | NoMatch

  /** The comparison the scan of `get_CT` makes, chosen by the first given keyword. */
  datatype CategoryKey = ByCode(code: string) | ByName(name: string) | ByDefinition(definition: string) | ByPath(path: string)

  /** The comparison the scan of `get_term` makes. */
  datatype TermKey = ByTermName(name: string) | ByTermDefinition(definition: string)

  /** `tree`/`ids` behave as a dict whose keys, in order, are `ids` and whose
      values are node positions. */
  predicate DictReady(db: Database) {
    KeyOrder(db.tree, db.ids) && Fits(db.tree, |db.nodes|)
  }

  /** The term dict's key order lists exactly its keys. */
  predicate StoreReady(store: TermStore) {
    KeyOrder(store.byCode, store.codes)
  }

  predicate CategoryMatches(node: Category, key: CategoryKey) {
    match key
    case ByCode(c) => node.code == Some(c)
    case ByName(n) => node.name == n
    case ByDefinition(d) => node.definition == d
    case ByPath(p) => node.path == p
  }

  predicate TermMatches(t: Term, key: TermKey) {
    match key
    case ByTermName(n) => t.name == n
    case ByTermDefinition(d) => t.definition == d
  }

  /** The category registered under `id` matches `key`. */
  predicate RegisteredMatches(db: Database, key: CategoryKey, id: string) {
    id in db.tree && db.tree[id] < |db.nodes| && CategoryMatches(db.nodes[db.tree[id]], key)
  }

  /** The term stored under `code` matches `key`. */
  predicate StoredMatches(store: TermStore, key: TermKey, code: string) {
    code in store.byCode && TermMatches(store.byCode[code], key)
  }

  /** `o` is what a scan for `key` must return: the category registered under
      the first id (in dict order) whose category matches, or `None` when no
      registered category matches. */
  predicate FirstCategory(db: Database, key: CategoryKey, o: Lookup<nat>) {
    match o
    case Match(k) =>
      exists i :: 0 <= i < |db.ids| && RegisteredMatches(db, key, db.ids[i]) && db.tree[db.ids[i]] == k &&
        forall j :: 0 <= j < i ==> !RegisteredMatches(db, key, db.ids[j])
    case NoMatch => forall id :: id in db.tree ==> !RegisteredMatches(db, key, id)
    case NoCriterion => false
  }

  /** The same for a scan of the term dict. */
  predicate FirstTerm(store: TermStore, key: TermKey, o: Lookup<Term>) {
    match o
    case Match(t) =>
      exists i :: 0 <= i < |store.codes| && StoredMatches(store, key, store.codes[i]) && store.byCode[store.codes[i]] == t &&
        forall j :: 0 <= j < i ==> !StoredMatches(store, key, store.codes[j])
    case NoMatch => forall c :: c in store.byCode ==> !StoredMatches(store, key, c)
    case NoCriterion => false
  }

  /** The scan of `get_CT` for one comparison. */
  function ScanCategories(db: Database, key: CategoryKey): (o: Lookup<nat>)
    requires DictReady(db)
    ensures FirstCategory(db, key, o)
  {
    match FindFirst(db.ids, id => RegisteredMatches(db, key, id))
    case Some(i) => Match(db.tree[db.ids[i]])
    case None =>
      assert forall id :: id in db.tree ==> id in db.ids by {
        forall id | id in db.tree ensures id in db.ids {
          assert id in Elems(db.ids);
        }
      }
      NoMatch
  }

  /** The scan of `get_term` for one comparison. */
  function ScanTerms(store: TermStore, key: TermKey): (o: Lookup<Term>)
    requires StoreReady(store)
    ensures FirstTerm(store, key, o)
  {
    match FindFirst(store.codes, c => StoredMatches(store, key, c))
    case Some(i) => Match(store.byCode[store.codes[i]])
    case None =>
      assert forall c :: c in store.byCode ==> c in store.codes by {
        forall c | c in store.byCode ensures c in store.codes {
          assert c in Elems(store.codes);
        }
      }
      NoMatch
  }

  /** `get_CT(CTid, CTcode, CTname, CTdefinition, CTpath)`. */
  function GetCategory(db: Database, id: Option<string>, code: Option<string>, name: Option<string>,
                       definition: Option<string>, path: Option<string>): (r: Result<Lookup<nat>>)
    requires DictReady(db)
    ensures id.Some? ==> (r.Ok? <==> id.value in db.tree)
    ensures id.Some? && r.Ok? ==> r.value == Match(db.tree[id.value])
    ensures id.Some? && r.Err? ==> r.error == KeyError(id.value)
    ensures id.None? ==> r.Ok?
    ensures id.None? && code.Some? ==> FirstCategory(db, ByCode(code.value), r.value)
    ensures id.None? && code.None? && name.Some? ==> FirstCategory(db, ByName(name.value), r.value)
    ensures id.None? && code.None? && name.None? && definition.Some? ==>
      FirstCategory(db, ByDefinition(definition.value), r.value)
    ensures id.None? && code.None? && name.None? && definition.None? && path.Some? ==>
      FirstCategory(db, ByPath(path.value), r.value)
    ensures id.None? && code.None? && name.None? && definition.None? && path.None? ==>
      r.value == (if |db.tree| == 0 then NoMatch else NoCriterion)
  {
    if id.Some? then
      if id.value in db.tree then Ok(Match(db.tree[id.value])) else Err(KeyError(id.value))
    else if code.Some? then Ok(ScanCategories(db, ByCode(code.value)))
    else if name.Some? then Ok(ScanCategories(db, ByName(name.value)))
    else if definition.Some? then Ok(ScanCategories(db, ByDefinition(definition.value)))
    else if path.Some? then Ok(ScanCategories(db, ByPath(path.value)))
    else if |db.ids| == 0 then
      assert db.tree.Keys == {};
      Ok(NoMatch)
    else
      assert db.ids[0] in Elems(db.ids);
      Ok(NoCriterion)
  }

  /** `get_term(termName, termCode, termDefinition)`: the code takes
      precedence, then the name, then the definition. */
  function GetTerm(store: TermStore, name: Option<string>, code: Option<string>, definition: Option<string>): (r: Result<Lookup<Term>>)
    requires StoreReady(store)
    ensures code.Some? ==> (r.Ok? <==> code.value in store.byCode)
    ensures code.Some? && r.Ok? ==> r.value == Match(store.byCode[code.value])
    ensures code.Some? && r.Err? ==> r.error == KeyError(code.value)
    ensures code.None? ==> r.Ok?
    ensures code.None? && name.Some? ==> FirstTerm(store, ByTermName(name.value), r.value)
    ensures code.None? && name.None? && definition.Some? ==> FirstTerm(store, ByTermDefinition(definition.value), r.value)
    ensures code.None? && name.None? && definition.None? ==>
      r.value == (if |store.byCode| == 0 then NoMatch else NoCriterion)
  {
    if code.Some? then
      if code.value in store.byCode then Ok(Match(store.byCode[code.value])) else Err(KeyError(code.value))
    else if name.Some? then Ok(ScanTerms(store, ByTermName(name.value)))
    else if definition.Some? then Ok(ScanTerms(store, ByTermDefinition(definition.value)))
    else if |store.codes| == 0 then
      assert store.byCode.Keys == {};
      Ok(NoMatch)
    else
      assert store.codes[0] in Elems(store.codes);
      Ok(NoCriterion)
  }

  /** A built database is ready for both lookups. */
  lemma BuildReady(termRecs: seq<Term>, catRecs: seq<CategoryRecord>)
    requires Build(termRecs, catRecs).Ok?
    ensures DictReady(Build(termRecs, catRecs).value)
    ensures StoreReady(Build(termRecs, catRecs).value.store)
  {
    BuildShape(termRecs, catRecs);
  }
}
