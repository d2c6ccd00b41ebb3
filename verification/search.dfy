/** The ranker `Database.search` (decision_tree.py, lines 289-327).

    Default mode concatenates the selected categories' aggregates, sorts the
    concatenation stably by descending occurrence count (`sorted(...,
    key=c.get, reverse=True)` with a `Counter`), then keeps the first
    occurrence of every term. Strict mode keeps the "Active" terms common to
    every selected aggregate.

    `all_terms` returns `list(set(...))`, whose order Python does not fix, so
    the search takes one duplicate-free order per selected category. */
module Search {

  import opened Results
  import opened Seqs
  import opened Taxonomy
  import opened Aggregate

  /** `Counter(s)[x]`: how often `x` occurs in `s`. */
  function Count(s: seq<Term>, x: Term): nat {
    multiset(s)[x]
  }

  /** The terms whose count under `m` is `c`. */
  function HasCount(m: multiset<Term>, c: nat): Term -> bool {
    x => m[x] == c
  }

  /** Counts under `m` never increase along `s`. */
  predicate Descending(s: seq<Term>, m: multiset<Term>) {
    forall i, j :: 0 <= i < j < |s| ==> m[s[i]] >= m[s[j]]
  }

  // ------------------------------------------------------------ stable sort

  /** Insert `x` into a descending sequence just before the first element
      whose count is smaller, so that it follows every element it ties with. */
  function InsertDesc(s: seq<Term>, x: Term, m: multiset<Term>): (r: seq<Term>)
    ensures multiset(r) == multiset(s) + multiset{x}
    decreases |s|
  {
    if |s| == 0 then [x]
    else if m[s[0]] < m[x] then [x] + s
    else
      assert s == [s[0]] + s[1..];
      [s[0]] + InsertDesc(s[1..], x, m)
  }

  /** Prefixing an element whose count bounds the rest keeps a sequence descending. */
  lemma ConsDescending(a: Term, rest: seq<Term>, m: multiset<Term>)
    requires Descending(rest, m) && forall j :: 0 <= j < |rest| ==> m[rest[j]] <= m[a]
    ensures Descending([a] + rest, m)
  {
    var r := [a] + rest;
    forall i, j | 0 <= i < j < |r| ensures m[r[i]] >= m[r[j]] {
      assert r[j] == rest[j - 1];
      if i > 0 {
        assert r[i] == rest[i - 1];
      }
    }
  }

  /** A bound on the counts of `s` and of `x` bounds the counts after insertion. */
  lemma InsertDescBelow(s: seq<Term>, x: Term, m: multiset<Term>, b: nat)
    requires m[x] <= b && forall j :: 0 <= j < |s| ==> m[s[j]] <= b
    ensures forall j :: 0 <= j < |InsertDesc(s, x, m)| ==> m[InsertDesc(s, x, m)[j]] <= b
  {
    var r := InsertDesc(s, x, m);
    forall j | 0 <= j < |r| ensures m[r[j]] <= b {
      assert r[j] in multiset(r);
      if r[j] != x {
        assert r[j] in multiset(s);
        var k :| 0 <= k < |s| && s[k] == r[j];
      }
    }
  }

  /** Insertion keeps a descending sequence descending. */
  lemma {:induction false} InsertDescDescending(s: seq<Term>, x: Term, m: multiset<Term>)
    requires Descending(s, m)
    ensures Descending(InsertDesc(s, x, m), m)
    decreases |s|
  {
    if |s| == 0 {
      assert InsertDesc(s, x, m) == [x];
    } else if m[s[0]] < m[x] {
      ConsDescending(x, s, m);
    } else {
      var tail := s[1..];
      assert forall j :: 0 <= j < |tail| ==> tail[j] == s[j + 1];
      InsertDescDescending(tail, x, m);
      InsertDescBelow(tail, x, m, m[s[0]]);
      ConsDescending(s[0], InsertDesc(tail, x, m), m);
    }
  }

  /** `sorted(s, key=m.get, reverse=True)`: insertion of each element in
      order, which keeps equal-count elements in their original order. */
  function SortDesc(s: seq<Term>, m: multiset<Term>): (r: seq<Term>)
    ensures multiset(r) == multiset(s)
    ensures Descending(r, m)
    decreases |s|
  {
    if |s| == 0 then []
    else
      var n := |s| - 1;
      assert s == s[..n] + [s[n]];
      InsertDescDescending(SortDesc(s[..n], m), s[n], m);
      InsertDesc(SortDesc(s[..n], m), s[n], m)
  }

  /** No element of `s` has count `c`, so filtering by that count keeps nothing. */
  lemma FilterNone(s: seq<Term>, m: multiset<Term>, c: nat)
    requires forall j :: 0 <= j < |s| ==> m[s[j]] != c
    ensures Filter(s, HasCount(m, c)) == []
  {
    var f := Filter(s, HasCount(m, c));
    if |f| > 0 {
      assert false;
    }
  }

  /** Insertion appends `x` to the elements of its own count and leaves the
      other counts' elements as they were. */
  lemma {:induction false} InsertDescStable(s: seq<Term>, x: Term, m: multiset<Term>, c: nat)
    requires Descending(s, m)
    ensures Filter(InsertDesc(s, x, m), HasCount(m, c)) ==
      Filter(s, HasCount(m, c)) + (if m[x] == c then [x] else [])
    decreases |s|
  {
    var p := HasCount(m, c);
    if |s| == 0 {
    } else if m[s[0]] < m[x] {
      assert InsertDesc(s, x, m) == [x] + s;
      assert ([x] + s)[1..] == s;
      if m[x] == c {
        FilterNone(s, m, c);
      }
    } else {
      var rest := InsertDesc(s[1..], x, m);
      assert InsertDesc(s, x, m) == [s[0]] + rest;
      assert ([s[0]] + rest)[1..] == rest;
      InsertDescStable(s[1..], x, m, c);
    }
  }

  /** The sort is stable: for every count, the elements with that count keep
      their order from the input. */
  lemma {:induction false} SortDescStable(s: seq<Term>, m: multiset<Term>, c: nat)
    ensures Filter(SortDesc(s, m), HasCount(m, c)) == Filter(s, HasCount(m, c))
    decreases |s|
  {
    if |s| > 0 {
      SortDescStable(s[..|s| - 1], m, c);
      SortDescStableStep(s, m, c);
    }
  }

  /** One insertion step of the stability proof: if sorting the prefix kept
      the order of count `c`, sorting the whole sequence keeps it too. */
  lemma SortDescStableStep(s: seq<Term>, m: multiset<Term>, c: nat)
    requires |s| > 0
    requires Filter(SortDesc(s[..|s| - 1], m), HasCount(m, c)) == Filter(s[..|s| - 1], HasCount(m, c))
    ensures Filter(SortDesc(s, m), HasCount(m, c)) == Filter(s, HasCount(m, c))
  {
    var n := |s| - 1;
    var p := HasCount(m, c);
    var init, x := s[..n], s[n];
    var so := SortDesc(init, m);
    var last := if m[x] == c then [x] else [];
    assert Filter(SortDesc(s, m), p) == Filter(so, p) + last by {
      assert SortDesc(s, m) == InsertDesc(so, x, m);
      InsertDescStable(so, x, m, c);
    }
    assert Filter(s, p) == Filter(init, p) + last by {
      SplitLast(s);
      FilterAppend(init, [x], p);
      assert Filter([x], p) == last;
    }
  }

  // ---------------------------------------------------------------- ranking

  /** `a` and `b` occur in `s`, and `a` is ranked before `b` over `s`: it
      occurs more often, or as often and first occurs earlier. */
  predicate Before(s: seq<Term>, a: Term, b: Term) {
    && a in s && b in s
    && (Count(s, a) > Count(s, b) || (Count(s, a) == Count(s, b) && IndexOf(s, a) < IndexOf(s, b)))
  }

  /** Each element of `r` is ranked before every later one. */
  predicate RankedAlong(s: seq<Term>, r: seq<Term>) {
    forall i, j :: 0 <= i < j < |r| ==> Before(s, r[i], r[j])
  }

  /** `r` lists the distinct terms of `s`, each ranked before every later one. */
  predicate RankedOver(s: seq<Term>, r: seq<Term>) {
    NoDup(r) && Elems(r) == Elems(s) && RankedAlong(s, r)
  }

  /** The default-mode ranking of the concatenation `s`: sort by descending
      count, then keep first occurrences. */
  function RankByCount(s: seq<Term>): (r: seq<Term>)
    ensures NoDup(r) && Elems(r) == Elems(s)
  {
    var sorted := SortDesc(s, multiset(s));
    assert Elems(sorted) == Elems(s) by {
      forall x ensures x in sorted <==> x in s {
        assert x in sorted <==> x in multiset(sorted);
      }
    }
    Dedup(sorted)
  }

  /** Two distinct terms the ranking places in order are `Before` each other. */
  lemma RankPairBefore(s: seq<Term>, a: Term, b: Term)
    requires a in RankByCount(s) && b in RankByCount(s) && a != b
    requires IndexOf(RankByCount(s), a) < IndexOf(RankByCount(s), b)
    ensures Before(s, a, b)
  {
    var m := multiset(s);
    var sorted := SortDesc(s, m);
    var r := RankByCount(s);
    assert a in Elems(r) && b in Elems(r);
    var i, j := IndexOf(r, a), IndexOf(r, b);
    assert IndexOf(sorted, a) < IndexOf(sorted, b);
    assert m[a] >= m[b] by {
      assert sorted[IndexOf(sorted, a)] == a && sorted[IndexOf(sorted, b)] == b;
    }
    if m[a] == m[b] {
      var p := HasCount(m, m[a]);
      assert a in multiset(sorted) && b in multiset(sorted);
      FilterKeepsFirstOrder(sorted, p, a, b);
      SortDescStable(s, m, m[a]);
      FilterKeepsFirstOrder(s, p, a, b);
    }
  }

  /** The ranking meets its declarative description: no duplicates, exactly
      the terms of the concatenation, counts non-increasing, ties broken by
      first occurrence. */
  lemma RankByCountRanked(s: seq<Term>)
    ensures RankedOver(s, RankByCount(s))
  {
    var r := RankByCount(s);
    forall i, j | 0 <= i < j < |r|
      ensures Before(s, r[i], r[j])
    {
      assert r[i] in Elems(r) && r[j] in Elems(r);
      IndexOfUnique(r, r[i], i);
      IndexOfUnique(r, r[j], j);
      RankPairBefore(s, r[i], r[j]);
    }
  }

  /** Dropping the head of a ranked, duplicate-free sequence keeps it so and
      removes exactly the head from its elements. */
  lemma RankedTail(s: seq<Term>, r: seq<Term>)
    requires |r| > 0 && NoDup(r) && RankedAlong(s, r)
    ensures NoDup(r[1..]) && RankedAlong(s, r[1..])
    ensures Elems(r[1..]) == Elems(r) - {r[0]}
  {
    var t := r[1..];
    assert forall a :: 0 <= a < |t| ==> t[a] == r[a + 1];
    assert NoDup(t) by {
      forall a, b | 0 <= a < b < |t| ensures t[a] != t[b] {
        assert t[a] == r[a + 1] && t[b] == r[b + 1];
      }
    }
    assert RankedAlong(s, t) by {
      forall a, b | 0 <= a < b < |t| ensures Before(s, t[a], t[b]) {
        assert t[a] == r[a + 1] && t[b] == r[b + 1];
      }
    }
    assert Elems(t) == Elems(r) - {r[0]} by {
      assert r == [r[0]] + t;
      forall a | 0 <= a < |t| ensures t[a] != r[0] {
        assert t[a] == r[a + 1];
      }
    }
  }

  /** The head of a ranked, duplicate-free sequence is ranked before every
      other element of it. */
  lemma RankedHeadFirst(s: seq<Term>, r: seq<Term>, y: Term)
    requires |r| > 0 && NoDup(r) && RankedAlong(s, r) && Elems(r) <= Elems(s)
    ensures y in r ==> r[0] in s && y in s && (y != r[0] ==> Before(s, r[0], y))
  {
    assert r[0] in Elems(r);
    if y in r {
      var i := IndexOf(r, y);
      assert 0 < i ==> Before(s, r[0], r[i]);
    }
  }

  /** Two ranked sequences over the same elements start alike. */
  lemma RankedHead(s: seq<Term>, r1: seq<Term>, r2: seq<Term>)
    requires |r1| > 0 && NoDup(r1) && NoDup(r2) && Elems(r1) == Elems(r2) && Elems(r1) <= Elems(s)
    requires RankedAlong(s, r1) && RankedAlong(s, r2)
    ensures |r2| > 0 && r1[0] == r2[0]
  {
    assert r1[0] in Elems(r2);
    assert |r2| > 0;
    assert r2[0] in Elems(r1);
    RankedHeadFirst(s, r1, r2[0]);
    RankedHeadFirst(s, r2, r1[0]);
  }

  /** At most one sequence meets the description, so it fixes the ranking. */
  lemma {:induction false} RankedUnique(s: seq<Term>, r1: seq<Term>, r2: seq<Term>)
    requires NoDup(r1) && NoDup(r2) && Elems(r1) == Elems(r2) && Elems(r1) <= Elems(s)
    requires RankedAlong(s, r1) && RankedAlong(s, r2)
    ensures r1 == r2
    decreases |r1|
  {
    assert |r2| > 0 ==> r2[0] in Elems(r2);
    if |r1| > 0 {
      RankedHead(s, r1, r2);
      RankedTail(s, r1);
      RankedTail(s, r2);
      RankedUnique(s, r1[1..], r2[1..]);
      assert r1 == [r1[0]] + r1[1..] && r2 == [r2[0]] + r2[1..];
    }
  }

  /** Default mode is the one sequence that meets the description. */
  lemma RankByCountUnique(s: seq<Term>, r: seq<Term>)
    requires RankedOver(s, r)
    ensures r == RankByCount(s)
  {
    RankByCountRanked(s);
    RankedUnique(s, r, RankByCount(s));
  }

  // ------------------------------------------------------------------ modes

  /** Number of the given aggregates that hold `t`. */
  function Holding(orders: seq<seq<Term>>, t: Term): nat
    decreases |orders|
  {
    if |orders| == 0 then 0
    else (if t in orders[0] then 1 else 0) + Holding(orders[1..], t)
  }

  /** Every aggregate is duplicate-free, so a term's count in the
      concatenation is the number of selected aggregates holding it. */
  lemma {:induction false} CountIsHolding(orders: seq<seq<Term>>, t: Term)
    requires forall k :: 0 <= k < |orders| ==> NoDup(orders[k])
    ensures Count(Concat(orders), t) == Holding(orders, t)
    decreases |orders|
  {
    if |orders| > 0 {
      assert Concat(orders) == orders[0] + Concat(orders[1..]);
      assert forall k :: 1 <= k < |orders| ==> orders[1..][k - 1] == orders[k];
      CountIsHolding(orders[1..], t);
      NoDupCount(orders[0], t);
    }
  }

  /** Default mode (lines 315-325) over the selected aggregates, in selection order. */
  function DefaultSearch(orders: seq<seq<Term>>): (r: seq<Term>)
    ensures NoDup(r)
    ensures forall t :: t in r <==> exists k :: 0 <= k < |orders| && t in orders[k]
    ensures |orders| == 0 ==> r == []
  {
    var s := Concat(orders);
    var r := RankByCount(s);
    assert forall t :: t in r <==> t in Elems(s);
    assert |r| > 0 ==> r[0] in Elems(s);
    r
  }

  /** Default mode ranks by the number of selected categories whose aggregate
      holds a term: that number never increases along the output, and terms
      held equally often come in order of first occurrence in the
      concatenation. The status of a term plays no part. */
  lemma DefaultSearchRanks(orders: seq<seq<Term>>)
    requires forall k :: 0 <= k < |orders| ==> NoDup(orders[k])
    ensures var r := DefaultSearch(orders);
      forall i, j :: 0 <= i < j < |r| ==>
        && Holding(orders, r[i]) >= Holding(orders, r[j])
        && (Holding(orders, r[i]) == Holding(orders, r[j]) ==>
              r[i] in Concat(orders) && r[j] in Concat(orders) &&
              IndexOf(Concat(orders), r[i]) < IndexOf(Concat(orders), r[j]))
  {
    var s := Concat(orders);
    RankByCountRanked(s);
    forall t ensures Count(s, t) == Holding(orders, t) {
      CountIsHolding(orders, t);
    }
  }

  /** Strict mode over a non-empty selection is exactly the "Active" terms
      common to every selected aggregate (lines 303-313). */
  predicate InEveryActive(orders: seq<seq<Term>>, t: Term) {
    t.status == "Active" && forall k :: 0 <= k < |orders| ==> t in orders[k]
  }

  function ActiveInEvery(orders: seq<seq<Term>>): Term -> bool {
    t => InEveryActive(orders, t)
  }

  /** Strict mode (lines 301-313): `search_terms[0]` on an empty selection
      raises `IndexError`; otherwise the first aggregate filtered down to the
      "Active" terms found in every aggregate. */
  function StrictSearch(orders: seq<seq<Term>>): (r: Result<seq<Term>>)
    ensures r.Err? <==> |orders| == 0
    ensures r.Err? ==> r.error == IndexError
    ensures r.Ok? ==> forall t :: t in r.value <==> InEveryActive(orders, t)
  {
    if |orders| == 0 then Err(IndexError)
    else Ok(Filter(orders[0], ActiveInEvery(orders)))
  }

  /** Every strict-mode result is also a default-mode result. */
  lemma StrictWithinDefault(orders: seq<seq<Term>>)
    requires StrictSearch(orders).Ok?
    ensures forall t :: t in StrictSearch(orders).value ==> t in DefaultSearch(orders)
  {
    forall t | t in StrictSearch(orders).value
      ensures t in DefaultSearch(orders)
    {
      assert t in orders[0];
    }
  }

  // ------------------------------------------------------------- on a database

  /** `orders` lists, for every selected category, its aggregate in some
      duplicate-free order: one admissible outcome of `list(set(...))`. */
  predicate AggregateOrders(db: Database, rank: seq<nat>, tags: seq<nat>, orders: seq<seq<Term>>)
    requires Ranked(db, rank)
  {
    && |orders| == |tags|
    && forall k :: 0 <= k < |tags| ==>
         tags[k] < |db.nodes| && NoDup(orders[k]) && Elems(orders[k]) == Elems(AllTerms(db, rank, tags[k]))
  }

  /** The lists `search` collects by calling `all_terms` on each tag in turn,
      each call mutating term lists in place, are admissible aggregate orders
      of the database as it was before the search. */
  lemma InPlaceOrdersAdmissible(db: Database, rank: seq<nat>, tags: seq<nat>)
    requires Ranked(db, rank) && forall i :: 0 <= i < |tags| ==> tags[i] < |db.nodes|
    ensures AggregateOrders(db, rank, tags, AllTermsCalls(db, rank, tags).1)
  {
  }

  /** `Database.search(search_tags, strict)`. */
  function SearchTags(db: Database, rank: seq<nat>, tags: seq<nat>, orders: seq<seq<Term>>, strict: bool): (r: Result<seq<Term>>)
    requires Ranked(db, rank) && AggregateOrders(db, rank, tags, orders)
    ensures r.Err? <==> strict && |tags| == 0
    ensures r.Ok? ==> NoDup(r.value)
    ensures r.Ok? && !strict ==> forall t :: t in r.value <==>
      exists k :: 0 <= k < |tags| && t in AllTerms(db, rank, tags[k])
    ensures r.Ok? && strict ==> forall t :: t in r.value <==>
      t.status == "Active" && forall k :: 0 <= k < |tags| ==> t in AllTerms(db, rank, tags[k])
  {
    assert forall k, t :: 0 <= k < |tags| ==> (t in orders[k] <==> t in Elems(AllTerms(db, rank, tags[k])));
    if strict then
      if |orders| > 0 then FilterNoDup(orders[0], ActiveInEvery(orders)); StrictSearch(orders)
      else StrictSearch(orders)
    else Ok(DefaultSearch(orders))
  }
}
