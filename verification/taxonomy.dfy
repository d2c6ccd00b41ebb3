/** The taxonomy: terms, collective terms (categories) and the construction
    of the category forest from already-parsed records
    (decision_tree.py, `Term`, `CollectiveTerm` and `Database.__init__`).

    Python objects are modelled by position: node `k` of a database is the
    `CollectiveTerm` object created from category record `k`. A repeated id
    overwrites the dict entry, so `tree[id]` is the LAST record with that id,
    while the dict keeps the position where the id was FIRST inserted. */
module Taxonomy {

  import opened Results
  import opened Seqs
  import opened Paths

  /** A leaf classification term. `status` is "Active" or "Obsolete" in the data. */
  datatype Term = Term(code: string, name: string, definition: string, status: string)

  /** A parsed category ("collective term") record: a missing `<code>` element is `None`. */
  datatype CategoryRecord = CategoryRecord(
    id: string,
    code: Option<string>,
    name: string,
    definition: string,
    path: string,
    termCodes: seq<string>)

  /** A category object: the record's fields, its directly assigned terms,
      and the links made during construction (node positions). */
  datatype Category = Category(
    id: string,
    code: Option<string>,
    name: string,
    definition: string,
    path: string,
    terms: seq<Term>,
    parent: Option<nat>,
    children: seq<nat>)

  /** `Database.terms`: code -> term, with the dict's key order. */
  datatype TermStore = TermStore(byCode: map<string, Term>, codes: seq<string>)

  /** `Database`: the term store, every category object, the id-keyed dict
      `tree` (with its key order `ids`) and the root list `baseCT`. */
  datatype Database = Database(
    store: TermStore,
    nodes: seq<Category>,
    tree: map<string, nat>,
    ids: seq<string>,
    roots: seq<nat>)

  // ---------------------------------------------------------------- terms

  function CodesOf(recs: seq<Term>): seq<string> {
    seq(|recs|, i requires 0 <= i < |recs| => recs[i].code)
  }

  /** The code -> term dict after `self.terms[code] = term` for every record
      in order: each code maps to the last record carrying it. */
  function TermsByCode(recs: seq<Term>): (m: map<string, Term>)
    ensures m.Keys == Elems(CodesOf(recs))
    ensures forall c :: c in m ==> m[c].code == c && m[c] in recs
  {
    var last := LastIndex(CodesOf(recs));
    assert forall c :: c in last ==> recs[last[c]].code == c;
    map c | c in last :: recs[last[c]]
  }

  /** A term record whose code no later record repeats is the one the dict keeps. */
  lemma TermsByCodeKeepsLast(recs: seq<Term>, i: nat)
    requires i < |recs| && forall j :: i < j < |recs| ==> recs[j].code != recs[i].code
    ensures recs[i].code in TermsByCode(recs) && TermsByCode(recs)[recs[i].code] == recs[i]
  {
    var codes := CodesOf(recs);
    LastIndexIsLast(codes, i);
  }

  /** The term store built from the term records (lines 78-89): the dict
      above, with its keys in first-insertion order. */
  function BuildTerms(recs: seq<Term>): (st: TermStore)
    ensures st.byCode.Keys == Elems(CodesOf(recs))
    ensures KeyOrder(st.byCode, st.codes)
    ensures InFirstOrder(st.codes, CodesOf(recs))
  {
    TermStore(TermsByCode(recs), Dedup(CodesOf(recs)))
  }

  /** A position with no later occurrence of its key is the one the dict keeps. */
  lemma LastIndexIsLast<K>(keys: seq<K>, i: nat)
    requires i < |keys| && forall j :: i < j < |keys| ==> keys[j] != keys[i]
    ensures keys[i] in LastIndex(keys) && LastIndex(keys)[keys[i]] == i
  {
    assert keys[i] in Elems(keys);
  }

  // ----------------------------------------------------------- categories

  /** Every term code of the record names a stored term. */
  predicate Resolvable(store: TermStore, rec: CategoryRecord) {
    forall i :: 0 <= i < |rec.termCodes| ==> rec.termCodes[i] in store.byCode
  }

  /** `terms` is the record's term-code list resolved through the store, in order. */
  predicate ResolvedTerms(store: TermStore, rec: CategoryRecord, terms: seq<Term>) {
    && |terms| == |rec.termCodes|
    && forall i :: 0 <= i < |terms| ==> rec.termCodes[i] in store.byCode && terms[i] == store.byCode[rec.termCodes[i]]
  }

  /** The node carries the record's own fields unchanged. */
  predicate Carries(node: Category, rec: CategoryRecord) {
    && node.id == rec.id
    && node.code == rec.code
    && node.name == rec.name
    && node.definition == rec.definition
    && node.path == rec.path
  }

  /** `self.terms[code]` for each code in order; the first missing code raises `KeyError`. */
  function ResolveTerms(store: TermStore, codes: seq<string>): (r: Result<seq<Term>>)
    ensures r.Ok? <==> forall i :: 0 <= i < |codes| ==> codes[i] in store.byCode
    ensures r.Ok? ==> |r.value| == |codes| && forall i :: 0 <= i < |codes| ==> r.value[i] == store.byCode[codes[i]]
    ensures r.Err? ==> exists i :: (0 <= i < |codes| && r.error == KeyError(codes[i]) && codes[i] !in store.byCode &&
      forall j :: 0 <= j < i ==> codes[j] in store.byCode)
    decreases |codes|
  {
    if |codes| == 0 then Ok([])
    else if codes[0] !in store.byCode then Err(KeyError(codes[0]))
    else
      match ResolveTerms(store, codes[1..])
      case Err(e) =>
        assert forall i :: 1 <= i < |codes| ==> codes[i] == codes[1..][i - 1];
        Err(e)
      case Ok(ts) => Ok([store.byCode[codes[0]]] + ts)
  }

  /** One fresh category object per record, in record order (lines 91-106). */
  function CreateNodes(store: TermStore, recs: seq<CategoryRecord>): (r: Result<seq<Category>>)
    ensures r.Ok? <==> forall k :: 0 <= k < |recs| ==> Resolvable(store, recs[k])
    ensures r.Ok? ==> |r.value| == |recs| && forall k :: 0 <= k < |recs| ==>
      && Carries(r.value[k], recs[k])
      && ResolvedTerms(store, recs[k], r.value[k].terms)
      && r.value[k].parent == None && r.value[k].children == []
    ensures r.Err? ==> exists k :: (0 <= k < |recs| && !Resolvable(store, recs[k]) &&
      (forall j :: 0 <= j < k ==> Resolvable(store, recs[j])) &&
      ResolveTerms(store, recs[k].termCodes) == Err(r.error))
    decreases |recs|
  {
    if |recs| == 0 then Ok([])
    else
      var rec := recs[0];
      match ResolveTerms(store, rec.termCodes)
      case Err(e) => Err(e)
      case Ok(ts) =>
        match CreateNodes(store, recs[1..])
        case Err(e) =>
          CreateLaterFails(store, recs, e);
          Err(e)
        case Ok(rest) =>
          var r := [Category(rec.id, rec.code, rec.name, rec.definition, rec.path, ts, None, [])] + rest;
          CreateAllSucceed(store, recs, r);
          Ok(r)
  }

  /** A failure on a later record is the first failure overall when the
      first record resolves. */
  lemma CreateLaterFails(store: TermStore, recs: seq<CategoryRecord>, e: Error)
    requires |recs| > 0 && Resolvable(store, recs[0])
    requires exists k :: (0 <= k < |recs[1..]| && !Resolvable(store, recs[1..][k]) &&
      (forall j :: 0 <= j < k ==> Resolvable(store, recs[1..][j])) &&
      ResolveTerms(store, recs[1..][k].termCodes) == Err(e))
    ensures exists k :: (0 <= k < |recs| && !Resolvable(store, recs[k]) &&
      (forall j :: 0 <= j < k ==> Resolvable(store, recs[j])) &&
      ResolveTerms(store, recs[k].termCodes) == Err(e))
  {
    var t := recs[1..];
    var k :| 0 <= k < |t| && !Resolvable(store, t[k]) &&
      (forall j :: 0 <= j < k ==> Resolvable(store, t[j])) && ResolveTerms(store, t[k].termCodes) == Err(e);
    assert recs[k + 1] == t[k];
    forall j | 0 <= j < k + 1 ensures Resolvable(store, recs[j]) {
      if j > 0 {
        assert recs[j] == t[j - 1];
      }
    }
  }

  /** Prefixing the first record's object to the objects of the others gives
      one object per record, each carrying its record. */
  lemma CreateAllSucceed(store: TermStore, recs: seq<CategoryRecord>, r: seq<Category>)
    requires |recs| > 0 && |r| == |recs|
    requires Carries(r[0], recs[0]) && ResolvedTerms(store, recs[0], r[0].terms)
    requires r[0].parent == None && r[0].children == []
    requires forall k :: 0 <= k < |recs| - 1 ==>
      && Carries(r[1..][k], recs[1..][k])
      && ResolvedTerms(store, recs[1..][k], r[1..][k].terms)
      && r[1..][k].parent == None && r[1..][k].children == []
    ensures forall k :: 0 <= k < |recs| ==>
      && Carries(r[k], recs[k])
      && ResolvedTerms(store, recs[k], r[k].terms)
      && r[k].parent == None && r[k].children == []
  {
    forall k | 1 <= k < |recs|
      ensures Carries(r[k], recs[k]) && ResolvedTerms(store, recs[k], r[k].terms)
      ensures r[k].parent == None && r[k].children == []
    {
      assert r[k] == r[1..][k - 1] && recs[k] == recs[1..][k - 1];
    }
  }

  function IdsOf(recs: seq<CategoryRecord>): seq<string> {
    seq(|recs|, k requires 0 <= k < |recs| => recs[k].id)
  }

  /** `baseCT`: the positions of the records without a code, in record order (line 102). */
  function RootsOf(recs: seq<CategoryRecord>): (r: seq<nat>)
    ensures forall k: nat :: k in r <==> k < |recs| && recs[k].code.None?
    ensures forall i, j :: 0 <= i < j < |r| ==> r[i] < r[j]
    decreases |recs|
  {
    if |recs| == 0 then []
    else
      var n := |recs| - 1;
      var r := RootsOf(recs[..n]);
      assert forall k: nat :: k < n ==> recs[..n][k] == recs[k];
      assert forall i :: 0 <= i < |r| ==> r[i] in r;
      if recs[n].code.None? then r + [n] else r
  }

  // -------------------------------------------------------------- linking

  /** The parent id derived from the record's own id and path (lines 111-115). */
  function ParentIdOf(rec: CategoryRecord): string {
    ParentId(rec.id, rec.path)
  }

  /** The derived parent id of every record, by position. The linking loop
      reads only each object's id and path, which linking never changes, so
      deriving all of them before the loop gives the same ids. */
  function ParentIds(recs: seq<CategoryRecord>): seq<string> {
    seq(|recs|, k requires 0 <= k < |recs| => ParentIdOf(recs[k]))
  }

  /** Every dict entry points at a position below `n`. */
  predicate Fits(tree: map<string, nat>, n: nat) {
    forall id :: id in tree ==> tree[id] < n
  }

  /** Every dict entry points at a record carrying that id. */
  predicate TreeFits(recs: seq<CategoryRecord>, tree: map<string, nat>) {
    forall id :: id in tree ==> tree[id] < |recs| && recs[tree[id]].id == id
  }

  /** The object registered under `id` has an empty or registered parent id. */
  predicate Resolves(pids: seq<string>, tree: map<string, nat>, id: string)
    requires Fits(tree, |pids|) && id in tree
  {
    var p := pids[tree[id]];
    p == [] || p in tree
  }

  /** The object registered under `id` is linked below node `k`. */
  predicate LinksTo(pids: seq<string>, tree: map<string, nat>, id: string, k: nat)
    requires Fits(tree, |pids|) && id in tree
  {
    var p := pids[tree[id]];
    p != [] && p in tree && tree[p] == k
  }

  /** Declarative children of node `k`: the objects registered under `ids`
      (in that order) whose derived parent is `k`. */
  function LinkedChildren(pids: seq<string>, tree: map<string, nat>, ids: seq<string>, k: nat): (r: seq<nat>)
    requires Fits(tree, |pids|) && forall i :: 0 <= i < |ids| ==> ids[i] in tree
    ensures forall j :: 0 <= j < |r| ==> r[j] < |pids|
    decreases |ids|
  {
    if |ids| == 0 then []
    else (if LinksTo(pids, tree, ids[0], k) then [tree[ids[0]]] else []) + LinkedChildren(pids, tree, ids[1..], k)
  }

  /** Node `k`, whose id is `id`, is the object registered under `id`, that id
      is among `ids`, and its derived parent id is non-empty and registered:
      the loop gives it a parent. */
  predicate GetsParent(pids: seq<string>, tree: map<string, nat>, ids: seq<string>, id: string, k: nat)
    requires k < |pids|
  {
    && id in ids && id in tree && tree[id] == k
    && pids[k] != [] && pids[k] in tree
  }

  /** Every child and parent link among `nodes` points at one of them. */
  predicate LinksWithin(nodes: seq<Category>) {
    && (forall k, j :: 0 <= k < |nodes| && 0 <= j < |nodes[k].children| ==> nodes[k].children[j] < |nodes|)
    && (forall k :: 0 <= k < |nodes| && nodes[k].parent.Some? ==> nodes[k].parent.value < |nodes|)
  }

  /** One iteration of the linking loop (lines 111-119) for the object
      registered under `id`, whose derived parent id is `pids[tree[id]]`. */
  function LinkOne(nodes: seq<Category>, pids: seq<string>, tree: map<string, nat>, id: string): (r: Result<seq<Category>>)
    requires |pids| == |nodes| && Fits(tree, |nodes|) && id in tree
    ensures r.Err? <==> pids[tree[id]] != [] && pids[tree[id]] !in tree
    ensures r.Err? ==> r.error == KeyError(pids[tree[id]])
    ensures r.Ok? ==> |r.value| == |nodes|
    ensures r.Ok? && LinksWithin(nodes) ==> LinksWithin(r.value)
  {
    var c := tree[id];
    var pid := pids[c];
    if pid == [] then Ok(nodes)
    else if pid !in tree then Err(KeyError(pid))
    else
      var p := tree[pid];
      var n1 := nodes[p := nodes[p].(children := nodes[p].children + [c])];
      assert forall j :: 0 <= j < |n1[p].children| ==> n1[p].children[j] in nodes[p].children || n1[p].children[j] == c;
      Ok(n1[c := n1[c].(parent := Some(p))])
  }

  /** The linking loop over `ids` (the dict's keys, in order). */
  function LinkAll(nodes: seq<Category>, pids: seq<string>, tree: map<string, nat>, ids: seq<string>): (r: Result<seq<Category>>)
    requires |pids| == |nodes| && Fits(tree, |nodes|)
    requires forall i :: 0 <= i < |ids| ==> ids[i] in tree
    ensures r.Ok? ==> |r.value| == |nodes|
    ensures r.Ok? && LinksWithin(nodes) ==> LinksWithin(r.value)
    decreases |ids|
  {
    if |ids| == 0 then Ok(nodes)
    else
      match LinkOne(nodes, pids, tree, ids[0])
      case Err(e) => Err(e)
      case Ok(next) => LinkAll(next, pids, tree, ids[1..])
  }

  /** The effect of one linking step on node `k`: only the links change; the
      parent gains the child at the end of its children, the child gains its parent. */
  lemma LinkOneAt(nodes: seq<Category>, pids: seq<string>, tree: map<string, nat>, id: string, k: nat)
    requires |pids| == |nodes| && Fits(tree, |nodes|) && id in tree && k < |nodes|
    requires LinkOne(nodes, pids, tree, id).Ok?
    ensures var n := LinkOne(nodes, pids, tree, id).value[k];
      && n == nodes[k].(children := n.children, parent := n.parent)
      && n.children == nodes[k].children + (if LinksTo(pids, tree, id, k) then [tree[id]] else [])
      && n.parent == (if pids[tree[id]] != [] && tree[id] == k then Some(tree[pids[tree[id]]]) else nodes[k].parent)
  {
    var c := tree[id];
    var pid := pids[c];
    if pid != [] {
      var p := tree[pid];
      var n1 := nodes[p := nodes[p].(children := nodes[p].children + [c])];
      var n2 := n1[c := n1[c].(parent := Some(p))];
      assert LinkOne(nodes, pids, tree, id) == Ok(n2);
      assert n1[k] == if k == p then nodes[k].(children := nodes[k].children + [c]) else nodes[k];
      assert n2[k] == if k == c then n1[k].(parent := Some(p)) else n1[k];
    }
  }

  /** The loop succeeds exactly when every visited object's derived parent id
      is empty or registered. */
  lemma {:induction false} LinkAllSucceeds(nodes: seq<Category>, pids: seq<string>, tree: map<string, nat>, ids: seq<string>)
    requires |pids| == |nodes| && Fits(tree, |nodes|) && forall i :: 0 <= i < |ids| ==> ids[i] in tree
    ensures LinkAll(nodes, pids, tree, ids).Ok? <==> forall i :: 0 <= i < |ids| ==> Resolves(pids, tree, ids[i])
    decreases |ids|
  {
    if |ids| > 0 {
      var step := LinkOne(nodes, pids, tree, ids[0]);
      if step.Ok? {
        LinkAllSucceeds(step.value, pids, tree, ids[1..]);
        assert forall i :: 1 <= i < |ids| ==> ids[i] == ids[1..][i - 1];
      }
    }
  }

  /** `ids[i]` is the first visited id whose parent id does not resolve. */
  predicate FirstUnresolved(pids: seq<string>, tree: map<string, nat>, ids: seq<string>, i: int)
    requires Fits(tree, |pids|) && forall i :: 0 <= i < |ids| ==> ids[i] in tree
  {
    0 <= i < |ids| && !Resolves(pids, tree, ids[i]) && forall j :: 0 <= j < i ==> Resolves(pids, tree, ids[j])
  }

  /** A failing loop raises `KeyError` for the parent id of the first visited
      object whose parent id does not resolve. */
  lemma {:induction false} LinkAllFailure(nodes: seq<Category>, pids: seq<string>, tree: map<string, nat>, ids: seq<string>)
    requires |pids| == |nodes| && Fits(tree, |nodes|) && forall i :: 0 <= i < |ids| ==> ids[i] in tree
    requires LinkAll(nodes, pids, tree, ids).Err?
    ensures exists i :: (FirstUnresolved(pids, tree, ids, i) &&
      LinkAll(nodes, pids, tree, ids).error == KeyError(pids[tree[ids[i]]]))
    decreases |ids|
  {
    var step := LinkOne(nodes, pids, tree, ids[0]);
    if step.Ok? {
      var rest := ids[1..];
      LinkAllFailure(step.value, pids, tree, rest);
      var i :| FirstUnresolved(pids, tree, rest, i) && LinkAll(step.value, pids, tree, rest).error == KeyError(pids[tree[rest[i]]]);
      forall j | 1 <= j <= i ensures Resolves(pids, tree, ids[j]) {
        assert ids[j] == rest[j - 1];
      }
      assert ids[i + 1] == rest[i];
      assert FirstUnresolved(pids, tree, ids, i + 1);
    } else {
      assert FirstUnresolved(pids, tree, ids, 0);
    }
  }

  /** The loop changes only the links of node `k`. */
  lemma {:induction false} LinkAllFields(nodes: seq<Category>, pids: seq<string>, tree: map<string, nat>, ids: seq<string>, k: nat)
    requires |pids| == |nodes| && Fits(tree, |nodes|) && forall i :: 0 <= i < |ids| ==> ids[i] in tree
    requires k < |nodes| && LinkAll(nodes, pids, tree, ids).Ok?
    ensures var n := LinkAll(nodes, pids, tree, ids).value[k];
      n == nodes[k].(children := n.children, parent := n.parent)
    decreases |ids|
  {
    if |ids| > 0 {
      LinkOneAt(nodes, pids, tree, ids[0], k);
      LinkAllFields(LinkOne(nodes, pids, tree, ids[0]).value, pids, tree, ids[1..], k);
    }
  }

  /** The loop appends to node `k`'s children the visited objects whose parent is `k`. */
  lemma {:induction false} LinkAllChildren(nodes: seq<Category>, pids: seq<string>, tree: map<string, nat>, ids: seq<string>, k: nat)
    requires |pids| == |nodes| && Fits(tree, |nodes|) && forall i :: 0 <= i < |ids| ==> ids[i] in tree
    requires k < |nodes| && LinkAll(nodes, pids, tree, ids).Ok?
    ensures LinkAll(nodes, pids, tree, ids).value[k].children == nodes[k].children + LinkedChildren(pids, tree, ids, k)
    decreases |ids|
  {
    if |ids| > 0 {
      var next := LinkOne(nodes, pids, tree, ids[0]).value;
      var head := if LinksTo(pids, tree, ids[0], k) then [tree[ids[0]]] else [];
      var tail := LinkedChildren(pids, tree, ids[1..], k);
      assert next[k].children == nodes[k].children + head by {
        LinkOneAt(nodes, pids, tree, ids[0], k);
      }
      assert LinkAll(nodes, pids, tree, ids) == LinkAll(next, pids, tree, ids[1..]);
      assert LinkAll(next, pids, tree, ids[1..]).value[k].children == next[k].children + tail by {
        LinkAllChildren(next, pids, tree, ids[1..], k);
      }
      assert LinkedChildren(pids, tree, ids, k) == head + tail;
      assert (nodes[k].children + head) + tail == nodes[k].children + (head + tail);
    }
  }

  /** The loop sets node `k`'s parent when `k` is registered under its id and
      its derived parent id is non-empty and registered. */
  lemma {:induction false} LinkAllParent(nodes: seq<Category>, pids: seq<string>, tree: map<string, nat>, ids: seq<string>, k: nat)
    requires |pids| == |nodes| && Fits(tree, |nodes|) && forall i :: 0 <= i < |ids| ==> ids[i] in tree
    requires k < |nodes| && (forall x :: x in tree && tree[x] == k ==> x == nodes[k].id)
    requires LinkAll(nodes, pids, tree, ids).Ok?
    ensures LinkAll(nodes, pids, tree, ids).value[k].parent ==
      (if GetsParent(pids, tree, ids, nodes[k].id, k) then Some(tree[pids[k]]) else nodes[k].parent)
    decreases |ids|
  {
    if |ids| > 0 {
      LinkOneAt(nodes, pids, tree, ids[0], k);
      var next := LinkOne(nodes, pids, tree, ids[0]).value;
      assert next[k].id == nodes[k].id;
      LinkAllParent(next, pids, tree, ids[1..], k);
      assert ids == [ids[0]] + ids[1..];
    }
  }

  /** After a successful loop, node `k` (whose id is `id`) keeps everything
      but its links; its children are the declarative ones appended in dict
      order; its parent is set exactly when the loop gives it one. */
  lemma LinkAllLinks(nodes: seq<Category>, pids: seq<string>, tree: map<string, nat>, ids: seq<string>, k: nat)
    requires |pids| == |nodes| && Fits(tree, |nodes|) && forall i :: 0 <= i < |ids| ==> ids[i] in tree
    requires k < |nodes| && (forall x :: x in tree && tree[x] == k ==> x == nodes[k].id)
    requires LinkAll(nodes, pids, tree, ids).Ok?
    ensures var n := LinkAll(nodes, pids, tree, ids).value[k];
      && n == nodes[k].(children := n.children, parent := n.parent)
      && n.children == nodes[k].children + LinkedChildren(pids, tree, ids, k)
      && n.parent == (if GetsParent(pids, tree, ids, nodes[k].id, k) then Some(tree[pids[k]]) else nodes[k].parent)
  {
    LinkAllFields(nodes, pids, tree, ids, k);
    LinkAllChildren(nodes, pids, tree, ids, k);
    LinkAllParent(nodes, pids, tree, ids, k);
  }

  // ---------------------------------------------------------- construction

  /** `d` with key order `order` is the dict built by inserting `keys[i] -> i` in order. */
  predicate IsDictOf<K>(d: map<K, nat>, order: seq<K>, keys: seq<K>) {
    && d.Keys == Elems(keys)
    && (forall x :: x in d ==> d[x] < |keys| && keys[d[x]] == x)
    && (forall x, j :: x in d && d[x] < j < |keys| ==> keys[j] != x)
    && KeyOrder(d, order) && InFirstOrder(order, keys)
  }

  /** All node references of the database point at existing nodes. */
  predicate WellLinked(db: Database) {
    && LinksWithin(db.nodes)
    && (forall i :: 0 <= i < |db.roots| ==> db.roots[i] < |db.nodes|)
    && (forall id :: id in db.tree ==> db.tree[id] < |db.nodes|)
  }

  /** The linking stage of construction (lines 108-119): the objects created
      from `recs` are registered under their ids and linked, visiting the
      dict's keys in order. */
  function LinkRecords(nodes: seq<Category>, recs: seq<CategoryRecord>): (r: Result<seq<Category>>)
    requires |nodes| == |recs|
    ensures r.Ok? ==> |r.value| == |recs|
    ensures r.Ok? && LinksWithin(nodes) ==> LinksWithin(r.value)
  {
    var keys := IdsOf(recs);
    var ids := Dedup(keys);
    assert forall i :: 0 <= i < |ids| ==> ids[i] in Elems(keys);
    LinkAll(nodes, ParentIds(recs), LastIndex(keys), ids)
  }

  /** `Database.__init__` on already-parsed records (lines 78-119): store the
      terms, create one object per category record resolving its term codes,
      register it under its id, then link every registered object to the
      parent its path names. */
  function Build(termRecs: seq<Term>, catRecs: seq<CategoryRecord>): (r: Result<Database>)
    ensures r.Ok? <==> TermsResolve(termRecs, catRecs) && ParentsResolve(catRecs)
  {
    var store := BuildTerms(termRecs);
    var nodes :- CreateNodes(store, catRecs);
    LinkRecordsSucceeds(nodes, catRecs);
    var linked :- LinkRecords(nodes, catRecs);
    var keys := IdsOf(catRecs);
    Ok(Database(store, linked, LastIndex(keys), Dedup(keys), RootsOf(catRecs)))
  }

  /** Every category record's term codes name stored terms. */
  predicate TermsResolve(termRecs: seq<Term>, catRecs: seq<CategoryRecord>) {
    forall k :: 0 <= k < |catRecs| ==> Resolvable(BuildTerms(termRecs), catRecs[k])
  }

  /** Every registered category's derived parent id is empty or registered. */
  predicate ParentsResolve(catRecs: seq<CategoryRecord>) {
    var tree := LastIndex(IdsOf(catRecs));
    forall id :: id in tree ==> Resolves(ParentIds(catRecs), tree, id)
  }

  /** The linking stage succeeds exactly when every registered category's
      derived parent id is empty or registered. */
  lemma LinkRecordsSucceeds(nodes: seq<Category>, recs: seq<CategoryRecord>)
    requires |nodes| == |recs|
    ensures LinkRecords(nodes, recs).Ok? <==> ParentsResolve(recs)
  {
    var keys := IdsOf(recs);
    var tree := LastIndex(keys);
    var ids := Dedup(keys);
    assert forall i :: 0 <= i < |ids| ==> ids[i] in Elems(keys);
    LinkAllSucceeds(nodes, ParentIds(recs), tree, ids);
    assert forall id :: id in tree ==> id in Elems(ids);
  }

  /** A missing term code is reported first: the source resolves terms while
      creating objects, before any linking. The `KeyError` names a code some
      record lists and the store lacks. */
  lemma BuildTermError(termRecs: seq<Term>, catRecs: seq<CategoryRecord>)
    requires !TermsResolve(termRecs, catRecs)
    ensures Build(termRecs, catRecs).Err?
    ensures exists k, i :: (0 <= k < |catRecs| && 0 <= i < |catRecs[k].termCodes| &&
      catRecs[k].termCodes[i] !in BuildTerms(termRecs).byCode &&
      Build(termRecs, catRecs).error == KeyError(catRecs[k].termCodes[i]))
  {
    var store := BuildTerms(termRecs);
    var created := CreateNodes(store, catRecs);
    assert created.Err?;
    CreateNodesMissing(store, catRecs);
    BuildStopsAtCreate(termRecs, catRecs);
  }

  /** Object creation fails with `KeyError` for a code some record lists but
      the store lacks. */
  lemma CreateNodesMissing(store: TermStore, recs: seq<CategoryRecord>)
    requires CreateNodes(store, recs).Err?
    ensures exists k, i :: (0 <= k < |recs| && 0 <= i < |recs[k].termCodes| &&
      recs[k].termCodes[i] !in store.byCode && CreateNodes(store, recs).error == KeyError(recs[k].termCodes[i]))
  {
    var e := CreateNodes(store, recs).error;
    var k :| 0 <= k < |recs| && !Resolvable(store, recs[k]) && ResolveTerms(store, recs[k].termCodes) == Err(e);
    var codes := recs[k].termCodes;
    var r := ResolveTerms(store, codes);
    assert r.Err? && r.error == e;
    var i :| 0 <= i < |codes| && r.error == KeyError(codes[i]) && codes[i] !in store.byCode;
    assert recs[k].termCodes[i] !in store.byCode && e == KeyError(recs[k].termCodes[i]);
  }

  /** When object creation fails, construction fails with the same error. */
  lemma BuildStopsAtCreate(termRecs: seq<Term>, catRecs: seq<CategoryRecord>)
    requires CreateNodes(BuildTerms(termRecs), catRecs).Err?
    ensures Build(termRecs, catRecs) == Err(CreateNodes(BuildTerms(termRecs), catRecs).error)
  {
  }

  /** `p` is the non-empty parent id derived from the path of the object
      registered under `id`, and no object is registered under `p`. */
  predicate MissingParent(recs: seq<CategoryRecord>, id: string, p: string) {
    var tree := LastIndex(IdsOf(recs));
    id in tree && p == ParentIdOf(recs[tree[id]]) && p != [] && p !in tree
  }

  /** A failing linking stage raises `KeyError` for the unregistered parent
      id derived from some registered category's path. */
  lemma LinkRecordsError(nodes: seq<Category>, recs: seq<CategoryRecord>)
    requires |nodes| == |recs| && LinkRecords(nodes, recs).Err?
    ensures exists id, p :: MissingParent(recs, id, p) && LinkRecords(nodes, recs).error == KeyError(p)
  {
    var keys := IdsOf(recs);
    var tree := LastIndex(keys);
    var ids := Dedup(keys);
    var pids := ParentIds(recs);
    assert forall i :: 0 <= i < |ids| ==> ids[i] in Elems(keys);
    LinkAllFailure(nodes, pids, tree, ids);
    var i :| FirstUnresolved(pids, tree, ids, i) && LinkRecords(nodes, recs).error == KeyError(pids[tree[ids[i]]]);
    var id := ids[i];
    var p := pids[tree[id]];
    assert p == ParentIdOf(recs[tree[id]]);
    assert MissingParent(recs, id, p);
  }

  /** With every term code resolvable, a failure is a `KeyError` naming the
      unregistered parent id derived from some registered category's path. */
  lemma BuildParentError(termRecs: seq<Term>, catRecs: seq<CategoryRecord>)
    requires TermsResolve(termRecs, catRecs) && Build(termRecs, catRecs).Err?
    ensures exists id, p :: MissingParent(catRecs, id, p) && Build(termRecs, catRecs).error == KeyError(p)
  {
    var created := CreateNodes(BuildTerms(termRecs), catRecs);
    assert Build(termRecs, catRecs) == Err(LinkRecords(created.value, catRecs).error);
    LinkRecordsError(created.value, catRecs);
  }

  /** A successful construction keeps the term store and one object per
      record; `tree`/`ids` are the id-keyed dict with last-wins entries and
      first-insertion key order. */
  lemma BuildDicts(termRecs: seq<Term>, catRecs: seq<CategoryRecord>)
    requires Build(termRecs, catRecs).Ok?
    ensures var db := Build(termRecs, catRecs).value;
      && db.store == BuildTerms(termRecs)
      && |db.nodes| == |catRecs|
      && IsDictOf(db.tree, db.ids, IdsOf(catRecs))
      && TreeFits(catRecs, db.tree)
  {
    var keys := IdsOf(catRecs);
    var db := Build(termRecs, catRecs).value;
    assert db.tree == LastIndex(keys) && db.ids == Dedup(keys);
    assert IsDictOf(LastIndex(keys), Dedup(keys), keys);
    RegisteredIds(catRecs);
  }

  /** The roots are exactly the code-less records, in record order, whether
      or not their paths gave them a parent. */
  lemma BuildRoots(termRecs: seq<Term>, catRecs: seq<CategoryRecord>)
    requires Build(termRecs, catRecs).Ok?
    ensures var db := Build(termRecs, catRecs).value;
      && (forall k: nat :: k in db.roots <==> k < |catRecs| && catRecs[k].code.None?)
      && (forall i, j :: 0 <= i < j < |db.roots| ==> db.roots[i] < db.roots[j])
  {
    assert Build(termRecs, catRecs).value.roots == RootsOf(catRecs);
  }

  /** Object `k` of `db` carries record `k` and its resolved terms, and its
      links are the declarative ones. */
  predicate NodeBuilt(db: Database, recs: seq<CategoryRecord>, k: nat) {
    && k < |db.nodes| && k < |recs|
    && Fits(db.tree, |recs|) && (forall i :: 0 <= i < |db.ids| ==> db.ids[i] in db.tree)
    && Carries(db.nodes[k], recs[k])
    && ResolvedTerms(db.store, recs[k], db.nodes[k].terms)
    && db.nodes[k].children == LinkedChildren(ParentIds(recs), db.tree, db.ids, k)
    && db.nodes[k].parent ==
         (if GetsParent(ParentIds(recs), db.tree, db.ids, recs[k].id, k)
          then Some(db.tree[ParentIdOf(recs[k])]) else None)
  }

  /** The dict built from the records' ids names, at every entry, a record with that id. */
  lemma RegisteredIds(recs: seq<CategoryRecord>)
    ensures TreeFits(recs, LastIndex(IdsOf(recs)))
  {
    var keys := IdsOf(recs);
    forall x | x in LastIndex(keys) ensures recs[LastIndex(keys)[x]].id == x {
      assert keys[LastIndex(keys)[x]] == x;
    }
  }

  /** The dict's key order lists registered ids only. */
  lemma OrderRegistered(recs: seq<CategoryRecord>)
    ensures forall i :: 0 <= i < |Dedup(IdsOf(recs))| ==> Dedup(IdsOf(recs))[i] in LastIndex(IdsOf(recs))
  {
    var keys := IdsOf(recs);
    assert forall i :: 0 <= i < |Dedup(keys)| ==> Dedup(keys)[i] in Elems(keys);
  }

  /** Linking keeps everything of object `k` but its links. */
  lemma LinkRecordsFields(nodes: seq<Category>, recs: seq<CategoryRecord>, k: nat)
    requires |nodes| == |recs| && k < |recs| && LinkRecords(nodes, recs).Ok?
    ensures var n := LinkRecords(nodes, recs).value[k];
      n == nodes[k].(children := n.children, parent := n.parent)
  {
    var keys := IdsOf(recs);
    OrderRegistered(recs);
    assert LinkRecords(nodes, recs) == LinkAll(nodes, ParentIds(recs), LastIndex(keys), Dedup(keys));
    LinkAllFields(nodes, ParentIds(recs), LastIndex(keys), Dedup(keys), k);
  }

  /** Linking fresh objects gives object `k` the declarative children. */
  lemma LinkRecordsChildren(nodes: seq<Category>, recs: seq<CategoryRecord>, k: nat)
    requires |nodes| == |recs| && k < |recs| && LinkRecords(nodes, recs).Ok? && nodes[k].children == []
    ensures forall i :: 0 <= i < |Dedup(IdsOf(recs))| ==> Dedup(IdsOf(recs))[i] in LastIndex(IdsOf(recs))
    ensures var keys := IdsOf(recs);
      LinkRecords(nodes, recs).value[k].children == LinkedChildren(ParentIds(recs), LastIndex(keys), Dedup(keys), k)
  {
    var keys := IdsOf(recs);
    LinkRecordsIsLinkAll(nodes, recs);
    LinkAllFreshChildren(nodes, ParentIds(recs), LastIndex(keys), Dedup(keys), k);
  }

  /** A node that starts without children ends with exactly the linked ones. */
  lemma LinkAllFreshChildren(nodes: seq<Category>, pids: seq<string>, tree: map<string, nat>, ids: seq<string>, k: nat)
    requires |pids| == |nodes| && Fits(tree, |nodes|) && forall i :: 0 <= i < |ids| ==> ids[i] in tree
    requires k < |nodes| && LinkAll(nodes, pids, tree, ids).Ok? && nodes[k].children == []
    ensures LinkAll(nodes, pids, tree, ids).value[k].children == LinkedChildren(pids, tree, ids, k)
  {
    LinkAllChildren(nodes, pids, tree, ids, k);
    assert nodes[k].children + LinkedChildren(pids, tree, ids, k) == LinkedChildren(pids, tree, ids, k);
  }

  /** The linking stage is the loop over the registered ids, in dict order. */
  lemma LinkRecordsIsLinkAll(nodes: seq<Category>, recs: seq<CategoryRecord>)
    requires |nodes| == |recs|
    ensures var keys := IdsOf(recs);
      && |ParentIds(recs)| == |nodes| && Fits(LastIndex(keys), |nodes|)
      && forall i :: 0 <= i < |Dedup(keys)| ==> Dedup(keys)[i] in LastIndex(keys)
    ensures var keys := IdsOf(recs);
      LinkRecords(nodes, recs) == LinkAll(nodes, ParentIds(recs), LastIndex(keys), Dedup(keys))
  {
    OrderRegistered(recs);
  }

  /** Linking fresh objects gives object `k` a parent exactly when the loop reaches it. */
  lemma LinkRecordsParent(nodes: seq<Category>, recs: seq<CategoryRecord>, k: nat)
    requires |nodes| == |recs| && k < |recs| && LinkRecords(nodes, recs).Ok?
    requires nodes[k].id == recs[k].id && nodes[k].parent == None
    ensures forall i :: 0 <= i < |Dedup(IdsOf(recs))| ==> Dedup(IdsOf(recs))[i] in LastIndex(IdsOf(recs))
    ensures var keys := IdsOf(recs);
      LinkRecords(nodes, recs).value[k].parent ==
        (if GetsParent(ParentIds(recs), LastIndex(keys), Dedup(keys), recs[k].id, k)
         then Some(LastIndex(keys)[ParentIdOf(recs[k])]) else None)
  {
    var keys := IdsOf(recs);
    var pids, tree, ids := ParentIds(recs), LastIndex(keys), Dedup(keys);
    OrderRegistered(recs);
    RegisteredIds(recs);
    assert LinkRecords(nodes, recs) == LinkAll(nodes, pids, tree, ids);
    LinkAllParent(nodes, pids, tree, ids, k);
  }

  /** Object `k` of a successful construction is built from record `k`. */
  lemma BuildNode(termRecs: seq<Term>, catRecs: seq<CategoryRecord>, k: nat)
    requires Build(termRecs, catRecs).Ok? && k < |catRecs|
    ensures NodeBuilt(Build(termRecs, catRecs).value, catRecs, k)
  {
    var nodes := CreateNodes(BuildTerms(termRecs), catRecs).value;
    assert Build(termRecs, catRecs).value.nodes == LinkRecords(nodes, catRecs).value;
    LinkRecordsFields(nodes, catRecs, k);
    LinkRecordsChildren(nodes, catRecs, k);
    LinkRecordsParent(nodes, catRecs, k);
  }

  /** A successful construction: objects carry their records and resolved
      terms; `tree`/`ids` behave as the id-keyed dict; the roots are exactly
      the code-less records in record order (whether or not they got a
      parent); children and parent links are the declarative ones. */
  lemma BuildShape(termRecs: seq<Term>, catRecs: seq<CategoryRecord>)
    requires Build(termRecs, catRecs).Ok?
    ensures var db := Build(termRecs, catRecs).value;
      && db.store == BuildTerms(termRecs)
      && |db.nodes| == |catRecs|
      && IsDictOf(db.tree, db.ids, IdsOf(catRecs))
      && TreeFits(catRecs, db.tree)
      && (forall k: nat :: k in db.roots <==> k < |catRecs| && catRecs[k].code.None?)
      && (forall i, j :: 0 <= i < j < |db.roots| ==> db.roots[i] < db.roots[j])
      && forall k :: 0 <= k < |catRecs| ==> NodeBuilt(db, catRecs, k)
  {
    BuildDicts(termRecs, catRecs);
    BuildRoots(termRecs, catRecs);
    forall k | 0 <= k < |catRecs| {
      BuildNode(termRecs, catRecs, k);
    }
  }

  /** Membership in the declarative children list. */
  lemma {:induction false} LinkedChildrenMember(pids: seq<string>, tree: map<string, nat>, ids: seq<string>, k: nat, c: nat)
    requires Fits(tree, |pids|) && forall i :: 0 <= i < |ids| ==> ids[i] in tree
    ensures c in LinkedChildren(pids, tree, ids, k) <==>
      exists i :: 0 <= i < |ids| && tree[ids[i]] == c && LinksTo(pids, tree, ids[i], k)
    decreases |ids|
  {
    if |ids| > 0 {
      LinkedChildrenMember(pids, tree, ids[1..], k, c);
      assert forall i :: 1 <= i < |ids| ==> ids[i] == ids[1..][i - 1];
      if c in LinkedChildren(pids, tree, ids[1..], k) {
        var i :| 0 <= i < |ids[1..]| && tree[ids[1..][i]] == c && LinksTo(pids, tree, ids[1..][i], k);
        assert tree[ids[i + 1]] == c && LinksTo(pids, tree, ids[i + 1], k);
      }
    }
  }

  /** After linking fresh objects, node `c` is among node `k`'s children
      exactly when node `k` is node `c`'s parent. */
  lemma LinkRecordsAgree(nodes: seq<Category>, recs: seq<CategoryRecord>, k: nat, c: nat)
    requires |nodes| == |recs| && k < |recs| && c < |recs| && LinkRecords(nodes, recs).Ok?
    requires forall j :: 0 <= j < |recs| ==> Carries(nodes[j], recs[j]) && nodes[j].parent == None && nodes[j].children == []
    ensures var linked := LinkRecords(nodes, recs).value;
      c in linked[k].children <==> linked[c].parent == Some(k)
  {
    var keys := IdsOf(recs);
    var tree := LastIndex(keys);
    var ids := Dedup(keys);
    var pids := ParentIds(recs);
    assert forall i :: 0 <= i < |ids| ==> ids[i] in Elems(keys);
    assert forall x :: x in tree ==> recs[tree[x]].id == x by {
      forall x | x in tree ensures recs[tree[x]].id == x {
        assert keys[tree[x]] == x;
      }
    }
    LinkAllLinks(nodes, pids, tree, ids, k);
    LinkAllLinks(nodes, pids, tree, ids, c);
    assert LinkRecords(nodes, recs) == LinkAll(nodes, pids, tree, ids);
    var linked := LinkRecords(nodes, recs).value;
    var children := LinkedChildren(pids, tree, ids, k);
    assert linked[k].children == [] + children;
    assert [] + children == children;
    LinkedChildrenMember(pids, tree, ids, k, c);
    if c in children {
      var i :| 0 <= i < |ids| && tree[ids[i]] == c && LinksTo(pids, tree, ids[i], k);
      assert recs[c].id == ids[i];
      assert GetsParent(pids, tree, ids, nodes[c].id, c);
    }
    if linked[c].parent == Some(k) {
      assert GetsParent(pids, tree, ids, nodes[c].id, c);
      var i := IndexOf(ids, nodes[c].id);
      assert tree[ids[i]] == c && LinksTo(pids, tree, ids[i], k);
    }
  }

  /** In a built database the parent and children links agree: node `c` is
      a child of node `k` exactly when `k` is `c`'s parent. */
  lemma BuildLinksAgree(termRecs: seq<Term>, catRecs: seq<CategoryRecord>, k: nat, c: nat)
    requires Build(termRecs, catRecs).Ok? && k < |catRecs| && c < |catRecs|
    ensures var db := Build(termRecs, catRecs).value;
      c in db.nodes[k].children <==> db.nodes[c].parent == Some(k)
  {
    var nodes := CreateNodes(BuildTerms(termRecs), catRecs).value;
    assert Build(termRecs, catRecs).value.nodes == LinkRecords(nodes, catRecs).value;
    LinkRecordsAgree(nodes, catRecs, k, c);
  }

  /** A built database's references all point at existing nodes. */
  lemma BuildWellLinked(termRecs: seq<Term>, catRecs: seq<CategoryRecord>)
    requires Build(termRecs, catRecs).Ok?
    ensures WellLinked(Build(termRecs, catRecs).value)
  {
    var nodes := CreateNodes(BuildTerms(termRecs), catRecs).value;
    assert LinksWithin(nodes);
    var db := Build(termRecs, catRecs).value;
    assert db.nodes == LinkRecords(nodes, catRecs).value;
    assert forall i :: 0 <= i < |db.roots| ==> db.roots[i] in db.roots;
  }
}
