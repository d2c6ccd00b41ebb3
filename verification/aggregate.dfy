/** The aggregator `Database.all_terms` (decision_tree.py, lines 333-344):
    the terms assigned anywhere in a category's subtree, without duplicates.

    Nothing in construction rules out a cycle of parent links, so recursion
    over the forest is measured by a caller-supplied `rank` that strictly
    decreases from every node to each of its children. */
module Aggregate {

  import opened Seqs
  import opened Taxonomy

  /** Every child link points at an existing node of strictly smaller rank. */
  predicate Ranked(db: Database, rank: seq<nat>) {
    && |rank| == |db.nodes|
    && forall k, j :: 0 <= k < |db.nodes| && 0 <= j < |db.nodes[k].children| ==>
         db.nodes[k].children[j] < |db.nodes| && rank[db.nodes[k].children[j]] < rank[k]
  }

  /** `all_terms(CT)`: the node's own terms followed by its children's
      aggregates, duplicates removed. The source returns `list(set(terms))`,
      whose order Python leaves unspecified; keeping first occurrences is one
      admissible order, and callers that depend on order take it as a parameter. */
  function AllTerms(db: Database, rank: seq<nat>, k: nat): (r: seq<Term>)
    requires Ranked(db, rank) && k < |db.nodes|
    ensures NoDup(r)
    decreases rank[k], |db.nodes[k].children| + 1
  {
    Dedup(db.nodes[k].terms + ChildTerms(db, rank, k, 0))
  }

  /** The aggregates of node `k`'s children from position `j` on, concatenated
      (the `terms.extend(self.all_terms(child))` loop). */
  function ChildTerms(db: Database, rank: seq<nat>, k: nat, j: nat): (r: seq<Term>)
    requires Ranked(db, rank) && k < |db.nodes| && j <= |db.nodes[k].children|
    ensures forall t :: t in r <==>
      exists i :: j <= i < |db.nodes[k].children| && t in AllTerms(db, rank, db.nodes[k].children[i])
    decreases rank[k], |db.nodes[k].children| - j
  {
    if j == |db.nodes[k].children| then []
    else AllTerms(db, rank, db.nodes[k].children[j]) + ChildTerms(db, rank, k, j + 1)
  }

  /** `p` walks down the forest along child links. */
  predicate IsDownPath(db: Database, p: seq<nat>) {
    && |p| > 0
    && (forall i :: 0 <= i < |p| ==> p[i] < |db.nodes|)
    && forall i :: 0 <= i < |p| - 1 ==> p[i + 1] in db.nodes[p[i]].children
  }

  /** Term `t` is directly assigned to the last node of a down path from `k`. */
  predicate Reaches(db: Database, p: seq<nat>, k: nat, t: Term) {
    IsDownPath(db, p) && p[0] == k && t in db.nodes[p[|p| - 1]].terms
  }

  /** Every aggregated term is assigned to `k` or to one of its descendants. */
  lemma {:induction false} AllTermsSound(db: Database, rank: seq<nat>, k: nat, t: Term)
    requires Ranked(db, rank) && k < |db.nodes| && t in AllTerms(db, rank, k)
    ensures exists p :: Reaches(db, p, k, t)
    decreases rank[k]
  {
    var cs := db.nodes[k].children;
    assert t in db.nodes[k].terms || t in ChildTerms(db, rank, k, 0) by {
      var all := db.nodes[k].terms + ChildTerms(db, rank, k, 0);
      assert t in Elems(Dedup(all));
    }
    if t in db.nodes[k].terms {
      assert Reaches(db, [k], k, t);
    } else {
      var i :| 0 <= i < |cs| && t in AllTerms(db, rank, cs[i]);
      AllTermsSound(db, rank, cs[i], t);
      var p :| Reaches(db, p, cs[i], t);
      PrependReaches(db, k, p, t);
    }
  }

  /** A down path from a child of `k` extends to a down path from `k`. */
  lemma PrependReaches(db: Database, k: nat, p: seq<nat>, t: Term)
    requires k < |db.nodes| && |p| > 0 && p[0] in db.nodes[k].children && Reaches(db, p, p[0], t)
    ensures Reaches(db, [k] + p, k, t)
  {
    var q := [k] + p;
    assert forall j :: 0 <= j < |p| ==> q[j + 1] == p[j];
  }

  /** Every term assigned to `k` or to one of its descendants is aggregated. */
  lemma {:induction false} AllTermsComplete(db: Database, rank: seq<nat>, p: seq<nat>, t: Term)
    requires Ranked(db, rank) && |p| > 0 && Reaches(db, p, p[0], t)
    ensures t in AllTerms(db, rank, p[0])
    decreases |p|
  {
    var k := p[0];
    var all := db.nodes[k].terms + ChildTerms(db, rank, k, 0);
    assert Elems(Dedup(all)) == Elems(all);
    if |p| == 1 {
      assert t in all;
    } else {
      var q := p[1..];
      assert Reaches(db, q, q[0], t);
      AllTermsComplete(db, rank, q, t);
      var i := IndexOf(db.nodes[k].children, p[1]);
      assert t in ChildTerms(db, rank, k, 0);
      assert t in all;
    }
    assert t in Elems(Dedup(all));
  }

  /** `all_terms` both ways: a term is aggregated for `k` exactly when it is
      assigned to `k` or to a descendant of `k`. */
  lemma AllTermsExact(db: Database, rank: seq<nat>, k: nat, t: Term)
    requires Ranked(db, rank) && k < |db.nodes|
    ensures t in AllTerms(db, rank, k) <==> exists p :: Reaches(db, p, k, t)
  {
    if t in AllTerms(db, rank, k) {
      AllTermsSound(db, rank, k, t);
    }
    if exists p :: Reaches(db, p, k, t) {
      var p :| Reaches(db, p, k, t);
      AllTermsComplete(db, rank, p, t);
    }
  }

  /** Two down paths joined at a shared node form a down path. */
  lemma JoinPaths(db: Database, p: seq<nat>, q: seq<nat>)
    requires IsDownPath(db, p) && IsDownPath(db, q) && p[|p| - 1] == q[0]
    ensures IsDownPath(db, p + q[1..]) && (p + q[1..])[0] == p[0]
    ensures (p + q[1..])[|p + q[1..]| - 1] == q[|q| - 1]
  {
    var r := p + q[1..];
    forall i | 0 <= i < |r| - 1
      ensures r[i + 1] in db.nodes[r[i]].children
    {
      if i + 1 < |p| {
        assert r[i] == p[i] && r[i + 1] == p[i + 1];
      } else {
        assert r[i] == q[i + 1 - |p|] && r[i + 1] == q[i + 2 - |p|];
      }
    }
  }

  /** `db2` differs from `db` only by term lists that grew, and grew only
      with terms already in the node's subtree: the effect the in-place
      `terms.extend` of `all_terms` has on every node it visits. */
  predicate GrownWithin(db: Database, db2: Database, rank: seq<nat>)
    requires Ranked(db, rank)
  {
    && |db2.nodes| == |db.nodes|
    && forall k :: 0 <= k < |db.nodes| ==>
         && db2.nodes[k].children == db.nodes[k].children
         && Elems(db.nodes[k].terms) <= Elems(db2.nodes[k].terms)
         && Elems(db2.nodes[k].terms) <= Elems(AllTerms(db, rank, k))
  }

  /** Growth keeps the child links, so it keeps the down paths and the ranking. */
  lemma GrownPaths(db: Database, db2: Database, rank: seq<nat>, p: seq<nat>)
    requires Ranked(db, rank) && GrownWithin(db, db2, rank)
    ensures Ranked(db2, rank)
    ensures IsDownPath(db2, p) <==> IsDownPath(db, p)
  {
  }

  /** Growth adds no term to an aggregate. */
  lemma GrownAddsNothing(db: Database, db2: Database, rank: seq<nat>, k: nat, t: Term)
    requires Ranked(db, rank) && GrownWithin(db, db2, rank) && k < |db.nodes|
    requires Ranked(db2, rank) && t in AllTerms(db2, rank, k)
    ensures t in AllTerms(db, rank, k)
  {
    AllTermsSound(db2, rank, k, t);
    var p :| Reaches(db2, p, k, t);
    GrownPaths(db, db2, rank, p);
    var d := p[|p| - 1];
    assert t in Elems(db2.nodes[d].terms);
    assert t in Elems(AllTerms(db, rank, d));
    AllTermsSound(db, rank, d, t);
    var q :| Reaches(db, q, d, t);
    JoinPaths(db, p, q);
    AllTermsComplete(db, rank, p + q[1..], t);
  }

  /** Growth removes no term from an aggregate. */
  lemma GrownLosesNothing(db: Database, db2: Database, rank: seq<nat>, k: nat, t: Term)
    requires Ranked(db, rank) && GrownWithin(db, db2, rank) && k < |db.nodes|
    requires Ranked(db2, rank) && t in AllTerms(db, rank, k)
    ensures t in AllTerms(db2, rank, k)
  {
    AllTermsSound(db, rank, k, t);
    var p :| Reaches(db, p, k, t);
    GrownPaths(db, db2, rank, p);
    var d := p[|p| - 1];
    assert t in Elems(db.nodes[d].terms);
    assert t in db2.nodes[d].terms;
    assert Reaches(db2, p, k, t);
    AllTermsComplete(db2, rank, p, t);
  }

  /** The aliasing in `all_terms` never changes a later aggregate as a set:
      after any growth of that kind, every node aggregates the same terms. */
  lemma GrowthKeepsAggregates(db: Database, db2: Database, rank: seq<nat>, k: nat)
    requires Ranked(db, rank) && GrownWithin(db, db2, rank) && k < |db.nodes|
    ensures Ranked(db2, rank)
    ensures Elems(AllTerms(db2, rank, k)) == Elems(AllTerms(db, rank, k))
  {
    GrownPaths(db, db2, rank, []);
    forall t | t in AllTerms(db2, rank, k)
      ensures t in AllTerms(db, rank, k)
    {
      GrownAddsNothing(db, db2, rank, k, t);
    }
    forall t | t in AllTerms(db, rank, k)
      ensures t in AllTerms(db2, rank, k)
    {
      GrownLosesNothing(db, db2, rank, k, t);
    }
  }

  // ------------------------------------------------------------- the in-place call

  /** `db2` is `db` with at most the term lists changed, and only those of
      `k` and of nodes ranked below `k`. */
  predicate TermsChangedBelow(db: Database, db2: Database, rank: seq<nat>, k: nat)
    requires |rank| == |db.nodes| && k < |db.nodes|
  {
    && db2 == db.(nodes := db2.nodes)
    && |db2.nodes| == |db.nodes|
    && (forall m :: 0 <= m < |db.nodes| ==> db2.nodes[m] == db.nodes[m].(terms := db2.nodes[m].terms))
    && (forall m :: 0 <= m < |db.nodes| && m != k && rank[m] >= rank[k] ==> db2.nodes[m] == db.nodes[m])
  }

  /** `all_terms(CT)` with its side effect. `terms = CT.terms` aliases the
      category's own list, so each `terms.extend(self.all_terms(child))`
      appends to that list in place, after the child's call has grown the
      lists of the child's subtree. The result is the database afterwards and
      the returned `list(set(terms))`: the call is growth of the kind
      `GrownWithin` describes, touches nothing outside the subtree, and
      returns the aggregate of the database before the call. */
  function AllTermsInPlace(db: Database, rank: seq<nat>, k: nat): (res: (Database, seq<Term>))
    requires Ranked(db, rank) && k < |db.nodes|
    ensures TermsChangedBelow(db, res.0, rank, k)
    ensures GrownWithin(db, res.0, rank)
    ensures NoDup(res.1) && Elems(res.1) == Elems(AllTerms(db, rank, k))
    decreases rank[k], |db.nodes[k].children| + 1, 0
  {
    var db2 := ExtendChildren(db, rank, k, 0);
    assert Elems(db2.nodes[k].terms) == Elems(AllTerms(db, rank, k)) by {
      var all := db.nodes[k].terms + ChildTerms(db, rank, k, 0);
      assert Elems(all) == Elems(db.nodes[k].terms) + Elems(ChildTerms(db, rank, k, 0));
    }
    (db2, Dedup(db2.nodes[k].terms))
  }

  /** The loop `for child in CT.children` from position `j` on, each child's
      aggregate appended in place to the list of `k`. */
  function ExtendChildren(db: Database, rank: seq<nat>, k: nat, j: nat): (db2: Database)
    requires Ranked(db, rank) && k < |db.nodes| && j <= |db.nodes[k].children|
    ensures TermsChangedBelow(db, db2, rank, k)
    ensures GrownWithin(db, db2, rank)
    ensures Elems(db2.nodes[k].terms) == Elems(db.nodes[k].terms) + Elems(ChildTerms(db, rank, k, j))
    decreases rank[k], |db.nodes[k].children| - j, 1
  {
    if j == |db.nodes[k].children| then
      GrownReflexive(db, rank);
      db
    else
      var db2 := AppendChild(db, rank, k, j);
      var db3 := ExtendChildren(db2, rank, k, j + 1);
      ExtendTail(db, db2, db3, rank, k, j);
      db3
  }

  /** One iteration of that loop: the call on child `j`, which grows the
      child's subtree, then the append of its result to the list of `k`.
      Together they are growth confined to the subtree of `k`, and the list
      of `k` gains exactly the child's aggregate. */
  function AppendChild(db: Database, rank: seq<nat>, k: nat, j: nat): (db2: Database)
    requires Ranked(db, rank) && k < |db.nodes| && j < |db.nodes[k].children|
    ensures Ranked(db2, rank) && TermsChangedBelow(db, db2, rank, k) && GrownWithin(db, db2, rank)
    ensures Elems(db2.nodes[k].terms) == Elems(db.nodes[k].terms) + Elems(AllTerms(db, rank, db.nodes[k].children[j]))
    decreases rank[k], |db.nodes[k].children| - j, 0
  {
    var (db1, ts) := AllTermsInPlace(db, rank, db.nodes[k].children[j]);
    var db2 := db1.(nodes := db1.nodes[k := db1.nodes[k].(terms := db1.nodes[k].terms + ts)]);
    AppendChildGrows(db, db1, db2, rank, k, j, ts);
    db2
  }

  /** A node's own terms are in its aggregate. */
  lemma OwnTermsAggregated(db: Database, rank: seq<nat>, m: nat)
    requires Ranked(db, rank) && m < |db.nodes|
    ensures Elems(db.nodes[m].terms) <= Elems(AllTerms(db, rank, m))
  {
    assert Elems(AllTerms(db, rank, m)) == Elems(db.nodes[m].terms + ChildTerms(db, rank, m, 0));
  }

  /** A child's aggregate is part of its parent's. */
  lemma ChildAggregated(db: Database, rank: seq<nat>, k: nat, j: nat)
    requires Ranked(db, rank) && k < |db.nodes| && j < |db.nodes[k].children|
    ensures Elems(AllTerms(db, rank, db.nodes[k].children[j])) <= Elems(AllTerms(db, rank, k))
  {
    var c := db.nodes[k].children[j];
    forall t | t in AllTerms(db, rank, c)
      ensures t in AllTerms(db, rank, k)
    {
      assert t in ChildTerms(db, rank, k, 0);
      assert t in Elems(db.nodes[k].terms + ChildTerms(db, rank, k, 0));
    }
  }

  /** No change at all is growth. */
  lemma GrownReflexive(db: Database, rank: seq<nat>)
    requires Ranked(db, rank)
    ensures GrownWithin(db, db, rank)
  {
    forall m | 0 <= m < |db.nodes|
      ensures Elems(db.nodes[m].terms) <= Elems(AllTerms(db, rank, m))
    {
      OwnTermsAggregated(db, rank, m);
    }
  }

  /** Growth after growth is growth: the second step is bounded by the
      intermediate aggregates, which equal the original ones. */
  lemma GrownTransitive(db: Database, db1: Database, db2: Database, rank: seq<nat>)
    requires Ranked(db, rank) && GrownWithin(db, db1, rank)
    requires Ranked(db1, rank) && GrownWithin(db1, db2, rank)
    ensures GrownWithin(db, db2, rank)
  {
    forall m | 0 <= m < |db.nodes|
      ensures Elems(db2.nodes[m].terms) <= Elems(AllTerms(db, rank, m))
    {
      GrowthKeepsAggregates(db, db1, rank, m);
    }
  }

  /** After growth, the children's aggregates from position `j` on hold the same terms. */
  lemma ChildTermsGrown(db: Database, db2: Database, rank: seq<nat>, k: nat, j: nat)
    requires Ranked(db, rank) && GrownWithin(db, db2, rank) && k < |db.nodes| && j <= |db.nodes[k].children|
    requires Ranked(db2, rank)
    ensures Elems(ChildTerms(db2, rank, k, j)) == Elems(ChildTerms(db, rank, k, j))
  {
    var cs := db.nodes[k].children;
    assert db2.nodes[k].children == cs;
    forall t | t in ChildTerms(db2, rank, k, j)
      ensures t in ChildTerms(db, rank, k, j)
    {
      var i :| j <= i < |cs| && t in AllTerms(db2, rank, cs[i]);
      GrowthKeepsAggregates(db, db2, rank, cs[i]);
      assert t in Elems(AllTerms(db, rank, cs[i]));
    }
    forall t | t in ChildTerms(db, rank, k, j)
      ensures t in ChildTerms(db2, rank, k, j)
    {
      var i :| j <= i < |cs| && t in AllTerms(db, rank, cs[i]);
      GrowthKeepsAggregates(db, db2, rank, cs[i]);
      assert t in Elems(AllTerms(db2, rank, cs[i]));
    }
  }

  /** One iteration of the loop: the child's call and the append to the
      list of `k` are together growth that touches only the subtree of `k`. */
  lemma AppendChildGrows(db: Database, db1: Database, db2: Database, rank: seq<nat>, k: nat, j: nat, ts: seq<Term>)
    requires Ranked(db, rank) && k < |db.nodes| && j < |db.nodes[k].children|
    requires var c := db.nodes[k].children[j];
      TermsChangedBelow(db, db1, rank, c) && GrownWithin(db, db1, rank)
      && Elems(ts) == Elems(AllTerms(db, rank, c))
    requires db2 == db1.(nodes := db1.nodes[k := db1.nodes[k].(terms := db1.nodes[k].terms + ts)])
    ensures Ranked(db2, rank) && TermsChangedBelow(db, db2, rank, k) && GrownWithin(db, db2, rank)
    ensures db2.nodes[k].terms == db.nodes[k].terms + ts
  {
    var c := db.nodes[k].children[j];
    assert db1.nodes[k] == db.nodes[k];
    GrownPaths(db, db1, rank, []);
    assert GrownWithin(db1, db2, rank) by {
      forall m | 0 <= m < |db1.nodes|
        ensures Elems(db2.nodes[m].terms) <= Elems(AllTerms(db1, rank, m))
      {
        OwnTermsAggregated(db1, rank, m);
        if m == k {
          GrowthKeepsAggregates(db, db1, rank, c);
          ChildAggregated(db1, rank, k, j);
          assert Elems(db2.nodes[k].terms) == Elems(db1.nodes[k].terms) + Elems(ts);
        }
      }
    }
    GrownTransitive(db, db1, db2, rank);
  }

  /** The rest of the loop after one iteration completes the contract of
      `ExtendChildren` from position `j`. */
  lemma ExtendTail(db: Database, db2: Database, db3: Database, rank: seq<nat>, k: nat, j: nat)
    requires Ranked(db, rank) && k < |db.nodes| && j < |db.nodes[k].children|
    requires Ranked(db2, rank) && TermsChangedBelow(db, db2, rank, k) && GrownWithin(db, db2, rank)
    requires Elems(db2.nodes[k].terms) == Elems(db.nodes[k].terms) + Elems(AllTerms(db, rank, db.nodes[k].children[j]))
    requires TermsChangedBelow(db2, db3, rank, k) && GrownWithin(db2, db3, rank)
    requires Elems(db3.nodes[k].terms) == Elems(db2.nodes[k].terms) + Elems(ChildTerms(db2, rank, k, j + 1))
    ensures TermsChangedBelow(db, db3, rank, k) && GrownWithin(db, db3, rank)
    ensures Elems(db3.nodes[k].terms) == Elems(db.nodes[k].terms) + Elems(ChildTerms(db, rank, k, j))
  {
    GrownTransitive(db, db2, db3, rank);
    ChildTermsGrown(db, db2, rank, k, j + 1);
    var c := db.nodes[k].children[j];
    assert ChildTerms(db, rank, k, j) == AllTerms(db, rank, c) + ChildTerms(db, rank, k, j + 1);
    assert Elems(ChildTerms(db, rank, k, j)) == Elems(AllTerms(db, rank, c)) + Elems(ChildTerms(db, rank, k, j + 1));
  }

  /** Calls to `all_terms` one after another: the second call, on the
      database the first one left, returns the aggregate of the original
      database. The mutation never shows in a later result. */
  lemma AllTermsRepeatable(db: Database, rank: seq<nat>, k: nat, k2: nat)
    requires Ranked(db, rank) && k < |db.nodes| && k2 < |db.nodes|
    ensures Ranked(AllTermsInPlace(db, rank, k).0, rank)
    ensures Elems(AllTermsInPlace(AllTermsInPlace(db, rank, k).0, rank, k2).1) == Elems(AllTerms(db, rank, k2))
  {
    var db1 := AllTermsInPlace(db, rank, k).0;
    GrowthKeepsAggregates(db, db1, rank, k2);
  }

  /** The loops `for CT in search_tags: ... self.all_terms(CT)` of `search`:
      the calls one after another, each on the database the previous call
      left. Together they are growth of the same kind, and every call returns,
      without duplicates, the aggregate of the database before the first call. */
  function AllTermsCalls(db: Database, rank: seq<nat>, tags: seq<nat>): (res: (Database, seq<seq<Term>>))
    requires Ranked(db, rank) && forall i :: 0 <= i < |tags| ==> tags[i] < |db.nodes|
    ensures Ranked(res.0, rank) && GrownWithin(db, res.0, rank)
    ensures |res.1| == |tags|
    ensures forall i :: 0 <= i < |tags| ==>
      NoDup(res.1[i]) && Elems(res.1[i]) == Elems(AllTerms(db, rank, tags[i]))
    decreases |tags|
  {
    if |tags| == 0 then
      GrownReflexive(db, rank);
      (db, [])
    else
      var (db1, first) := AllTermsInPlace(db, rank, tags[0]);
      GrownPaths(db, db1, rank, []);
      var (db2, rest) := AllTermsCalls(db1, rank, tags[1..]);
      GrownTransitive(db, db1, db2, rank);
      CallsCons(db, db1, rank, tags, first, rest);
      (db2, [first] + rest)
  }

  /** The first call's result followed by results that match the aggregates
      after that call's growth match the original aggregates, call by call. */
  lemma CallsCons(db: Database, db1: Database, rank: seq<nat>, tags: seq<nat>, first: seq<Term>, rest: seq<seq<Term>>)
    requires Ranked(db, rank) && GrownWithin(db, db1, rank) && Ranked(db1, rank)
    requires |tags| > 0 && forall i :: 0 <= i < |tags| ==> tags[i] < |db.nodes|
    requires NoDup(first) && Elems(first) == Elems(AllTerms(db, rank, tags[0]))
    requires |rest| == |tags| - 1
    requires forall i :: 0 <= i < |rest| ==> NoDup(rest[i]) && Elems(rest[i]) == Elems(AllTerms(db1, rank, tags[1..][i]))
    ensures forall i :: 0 <= i < |tags| ==>
      NoDup(([first] + rest)[i]) && Elems(([first] + rest)[i]) == Elems(AllTerms(db, rank, tags[i]))
  {
    var rs := [first] + rest;
    forall i | 0 <= i < |tags|
      ensures NoDup(rs[i]) && Elems(rs[i]) == Elems(AllTerms(db, rank, tags[i]))
    {
      if i > 0 {
        assert rs[i] == rest[i - 1] && tags[1..][i - 1] == tags[i];
        GrowthKeepsAggregates(db, db1, rank, tags[i]);
      }
    }
  }
}
