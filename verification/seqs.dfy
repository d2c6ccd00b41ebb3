/** Sequence vocabulary used throughout the model: element sets, duplicate
    freedom, first occurrences, first-occurrence deduplication, filtering
    and the "last write wins" index of a Python dict. */
module Seqs {

  import opened Results

  /** The elements of `s`, as a set. */
  function Elems<T>(s: seq<T>): set<T> {
    set x | x in s
  }

  predicate NoDup<T(==)>(s: seq<T>) {
    forall i, j :: 0 <= i < j < |s| ==> s[i] != s[j]
  }

  /** A non-empty sequence is its prefix followed by its last element. */
  lemma SplitLast<T>(s: seq<T>)
    requires |s| > 0
    ensures s == s[..|s| - 1] + [s[|s| - 1]]
  {
  }

  /** Position of the first occurrence of `x` in `s`. */
  function IndexOf<T(==)>(s: seq<T>, x: T): (i: nat)
    requires x in s
    ensures i < |s| && s[i] == x && x !in s[..i]
  {
    if s[0] == x then 0
    else
      var i := 1 + IndexOf(s[1..], x);
      assert s[..i] == [s[0]] + s[1..][..i - 1];
      i
  }

  /** The first occurrence is the only position holding `x` with no earlier `x`. */
  lemma IndexOfUnique<T>(s: seq<T>, x: T, i: nat)
    requires i < |s| && s[i] == x && x !in s[..i]
    ensures IndexOf(s, x) == i
  {
  }

  /** Prepending a different element shifts the first occurrence by one. */
  lemma IndexOfCons<T>(y: T, s: seq<T>, x: T)
    requires x in s && x != y
    ensures IndexOf([y] + s, x) == 1 + IndexOf(s, x)
  {
    var i := IndexOf(s, x);
    assert ([y] + s)[..i + 1] == [y] + s[..i];
    IndexOfUnique([y] + s, x, i + 1);
  }

  /** First occurrences are not disturbed by appending one element. */
  lemma IndexOfSnoc<T>(s: seq<T>, y: T, x: T)
    requires x in s + [y]
    ensures x in s ==> IndexOf(s + [y], x) == IndexOf(s, x)
    ensures x !in s ==> IndexOf(s + [y], x) == |s|
  {
    var t := s + [y];
    if x in s {
      var i := IndexOf(s, x);
      assert t[..i] == s[..i];
      IndexOfUnique(t, x, i);
    } else {
      assert t[..|s|] == s;
      IndexOfUnique(t, x, |s|);
    }
  }

  /** `a` and `b` occur in `s`, and `a` first occurs before `b` does. */
  predicate Precedes<T(==)>(s: seq<T>, a: T, b: T) {
    a in s && b in s && IndexOf(s, a) < IndexOf(s, b)
  }

  /** The elements of `r` occur in `s`, in the order of their first occurrences there. */
  predicate InFirstOrder<T(==)>(r: seq<T>, s: seq<T>) {
    forall i, j :: 0 <= i < j < |r| ==> Precedes(s, r[i], r[j])
  }

  /** One pair of positions of a listing in first-occurrence order. */
  lemma InFirstOrderAt<T>(r: seq<T>, s: seq<T>, i: nat, j: nat)
    requires InFirstOrder(r, s) && i < j < |r|
    ensures r[i] in s && r[j] in s && IndexOf(s, r[i]) < IndexOf(s, r[j])
  {
    assert Precedes(s, r[i], r[j]);
  }

  /** The elements of `s` in the order of their first occurrence, each once:
      the list built by appending each element not yet present, left to right. */
  function Dedup<T(==)>(s: seq<T>): (r: seq<T>)
    ensures NoDup(r)
    ensures Elems(r) == Elems(s)
    ensures InFirstOrder(r, s)
    decreases |s|
  {
    if |s| == 0 then []
    else
      var init := s[..|s| - 1];
      var y := s[|s| - 1];
      assert s == init + [y];
      var d := Dedup(init);
      DedupStep(init, y, d);
      if y in d then d else d + [y]
  }

  /** One step of `Dedup`: appending `y` unless it is already present keeps
      the first-occurrence listing of `init + [y]`. */
  lemma DedupStep<T>(init: seq<T>, y: T, d: seq<T>)
    requires NoDup(d) && Elems(d) == Elems(init) && InFirstOrder(d, init)
    ensures var r := if y in d then d else d + [y];
      NoDup(r) && Elems(r) == Elems(init + [y]) && InFirstOrder(r, init + [y])
  {
    assert Elems(init + [y]) == Elems(init) + {y};
    if y in d {
      assert y in Elems(d);
      SnocKeepsOrder(init, y, d);
    } else {
      assert y !in init by {
        assert y !in Elems(d);
      }
      SnocAppendsOrder(init, y, d);
      SnocNoDup(d, y);
    }
  }

  /** Appending to `s` keeps every listing in first-occurrence order of `s`. */
  lemma SnocKeepsOrder<T>(s: seq<T>, y: T, d: seq<T>)
    requires InFirstOrder(d, s)
    ensures InFirstOrder(d, s + [y])
  {
    forall i, j | 0 <= i < j < |d| ensures Precedes(s + [y], d[i], d[j]) {
      InFirstOrderAt(d, s, i, j);
      IndexOfSnoc(s, y, d[i]);
      IndexOfSnoc(s, y, d[j]);
    }
  }

  /** A new last element of `s` is listed last in first-occurrence order. */
  lemma SnocAppendsOrder<T>(s: seq<T>, y: T, d: seq<T>)
    requires InFirstOrder(d, s) && Elems(d) == Elems(s) && y !in s
    ensures InFirstOrder(d + [y], s + [y])
  {
    var r := d + [y];
    forall i, j | 0 <= i < j < |r| ensures Precedes(s + [y], r[i], r[j]) {
      assert r[i] == d[i];
      assert d[i] in Elems(s);
      IndexOfSnoc(s, y, r[i]);
      IndexOfSnoc(s, y, r[j]);
      if j < |d| {
        assert r[j] == d[j];
        InFirstOrderAt(d, s, i, j);
      }
    }
  }

  /** Appending an absent element keeps a sequence duplicate-free. */
  lemma SnocNoDup<T>(d: seq<T>, y: T)
    requires NoDup(d) && y !in d
    ensures NoDup(d + [y])
  {
    var r := d + [y];
    forall i, j | 0 <= i < j < |r| ensures r[i] != r[j] {
      assert r[i] == d[i];
      if j < |d| {
        assert r[j] == d[j];
      }
    }
  }

  /** The elements of `s` satisfying `p`, in order. */
  function Filter<T(!new)>(s: seq<T>, p: T -> bool): (r: seq<T>)
    ensures |r| <= |s|
    ensures forall x :: x in r <==> x in s && p(x)
    decreases |s|
  {
    if |s| == 0 then []
    else if p(s[0]) then [s[0]] + Filter(s[1..], p)
    else Filter(s[1..], p)
  }

  lemma {:induction false} FilterNoDup<T(!new)>(s: seq<T>, p: T -> bool)
    requires NoDup(s)
    ensures NoDup(Filter(s, p))
    decreases |s|
  {
    if |s| > 0 {
      FilterNoDup(s[1..], p);
      assert forall j :: 0 <= j < |s| - 1 ==> s[1..][j] == s[j + 1];
    }
  }

  /** Filtering distributes over concatenation. */
  lemma {:induction false} FilterAppend<T(!new)>(a: seq<T>, b: seq<T>, p: T -> bool)
    ensures Filter(a + b, p) == Filter(a, p) + Filter(b, p)
    decreases |a|
  {
    if |a| > 0 {
      assert (a + b)[1..] == a[1..] + b;
      FilterAppend(a[1..], b, p);
    } else {
      assert a + b == b;
    }
  }

  /** A duplicate-free sequence holds each of its elements exactly once. */
  lemma {:induction false} NoDupCount<T>(s: seq<T>, x: T)
    requires NoDup(s)
    ensures multiset(s)[x] == if x in s then 1 else 0
    decreases |s|
  {
    if |s| > 0 {
      assert s == [s[0]] + s[1..];
      assert NoDup(s[1..]) by {
        forall i, j | 0 <= i < j < |s| - 1 ensures s[1..][i] != s[1..][j] {
          assert s[1..][i] == s[i + 1] && s[1..][j] == s[j + 1];
        }
      }
      NoDupCount(s[1..], x);
      if s[0] == x {
        assert x !in s[1..] by {
          forall j | 0 <= j < |s| - 1 ensures s[1..][j] != x {
            assert s[1..][j] == s[j + 1];
          }
        }
      }
    }
  }

  /** Filtering keeps the relative order of first occurrences of the elements it keeps. */
  lemma {:induction false} FilterKeepsFirstOrder<T(!new)>(s: seq<T>, p: T -> bool, a: T, b: T)
    requires a in s && b in s && a != b && p(a) && p(b)
    ensures a in Filter(s, p) && b in Filter(s, p)
    ensures IndexOf(Filter(s, p), a) < IndexOf(Filter(s, p), b) <==> IndexOf(s, a) < IndexOf(s, b)
    decreases |s|
  {
    var f := Filter(s, p);
    if s[0] == a || s[0] == b {
      assert f[0] == s[0];
    } else {
      var t := s[1..];
      assert s == [s[0]] + t;
      FilterKeepsFirstOrder(t, p, a, b);
      IndexOfCons(s[0], t, a);
      IndexOfCons(s[0], t, b);
      if p(s[0]) {
        IndexOfCons(s[0], Filter(t, p), a);
        IndexOfCons(s[0], Filter(t, p), b);
      }
    }
  }

  /** Concatenation of a sequence of sequences, in order. */
  function Concat<T(!new)>(ls: seq<seq<T>>): (r: seq<T>)
    ensures forall x :: x in r <==> exists k :: 0 <= k < |ls| && x in ls[k]
    decreases |ls|
  {
    if |ls| == 0 then []
    else
      var r := ls[0] + Concat(ls[1..]);
      assert forall k :: 1 <= k < |ls| ==> ls[k] == ls[1..][k - 1];
      r
  }

  /** Position of the first element of `s` satisfying `p`, if any. */
  function FindFirst<T>(s: seq<T>, p: T -> bool): (r: Option<nat>)
    ensures r.Some? ==> r.value < |s| && p(s[r.value]) && forall j :: 0 <= j < r.value ==> !p(s[j])
    ensures r.None? ==> forall j :: 0 <= j < |s| ==> !p(s[j])
    decreases |s|
  {
    if |s| == 0 then None
    else if p(s[0]) then Some(0)
    else
      match FindFirst(s[1..], p)
      case None => None
      case Some(i) => Some(i + 1)
  }

  /** `order` is a dict's key order: it lists every key of `m` exactly once. */
  predicate KeyOrder<K, V>(m: map<K, V>, order: seq<K>) {
    NoDup(order) && Elems(order) == m.Keys
  }

  /** The Python dict built by `d[keys[i]] = i` for i in order: every key maps
      to the position of its LAST occurrence. */
  function LastIndex<K>(keys: seq<K>): (m: map<K, nat>)
    ensures m.Keys == Elems(keys)
    ensures forall k :: k in m ==> m[k] < |keys| && keys[m[k]] == k
    ensures forall k, j :: k in m && m[k] < j < |keys| ==> keys[j] != k
    decreases |keys|
  {
    if |keys| == 0 then map[]
    else
      var n := |keys| - 1;
      var m := LastIndex(keys[..n]);
      assert Elems(keys) == Elems(keys[..n]) + {keys[n]} by {
        assert keys == keys[..n] + [keys[n]];
      }
      LastIndexStep(keys[..n], keys[n], m, keys, m[keys[n] := n]);
      m[keys[n] := n]
  }

  /** Registering a new last key `y` over the index `m` of the earlier keys
      keeps every key at its last position. */
  lemma LastIndexStep<K>(init: seq<K>, y: K, m: map<K, nat>, keys: seq<K>, m2: map<K, nat>)
    requires keys == init + [y] && m2 == m[y := |init|]
    requires forall k :: k in m ==> m[k] < |init| && init[m[k]] == k
    requires forall k, j :: k in m && m[k] < j < |init| ==> init[j] != k
    ensures forall k :: k in m2 ==> m2[k] < |keys| && keys[m2[k]] == k
    ensures forall k, j :: k in m2 && m2[k] < j < |keys| ==> keys[j] != k
  {
    forall k | k in m2 ensures m2[k] < |keys| && keys[m2[k]] == k {
      if k != y {
        assert keys[m[k]] == init[m[k]];
      }
    }
    forall k, j | k in m2 && m2[k] < j < |keys| ensures keys[j] != k {
      if k != y && j < |init| {
        assert keys[j] == init[j];
      }
    }
  }
}
