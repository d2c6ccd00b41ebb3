/** The interactive traversal `Database.decision_tree` (decision_tree.py,
    lines 171-237) as a state machine over the answers the user types.

    Prompts and printing carry no information the returned tags depend on,
    so each answer is abstracted to a `Token`, and a run of the machine folds
    over the token list. The loop visits the roots (`baseCT`) in order; for
    each it asks whether to filter on it, walks down by numbered menu choices
    and records one tag per walk, then asks again, so one root can contribute
    several tags. */
module Traversal {

  import opened Results
  import opened Seqs
  import opened Taxonomy
  import opened Aggregate

  /** One typed answer, after the source's `lower()` comparisons:
      `Yes` is "yes" or "y", `No` is "no" or "n", `Cancel` is "cancel",
      `Help` is "help" (any letter case for these four); `Num(n)` is a
      string of ASCII digits with value `n`, where `Num(0)` is exactly "0";
      `Zeros` is any other digit string of value 0 ("00", "000", ...), which
      passes `isdigit()` but not `== "0"`; `Other` is anything else. */
  datatype Token = Yes | No | Help | Cancel | Num(n: nat) | Zeros | Other

  /** A recorded tag with its provenance: the root's position in `roots` and
      the walk from that root to the recorded category. */
  datatype Pick = Pick(root: nat, trail: seq<nat>)

  /** Where the loop waits for input: at the (continue-)filter question for
      root `root`, at the numbered menu of the trail's last category, or at
      the confirm question for a category without children. */
  datatype State =
    | Explore(root: nat)
    | Menu(root: nat, trail: seq<nat>)
    | Confirm(root: nat, trail: seq<nat>)

  /** A walk from root position `r` down child links. */
  predicate ValidWalk(db: Database, r: nat, trail: seq<nat>) {
    r < |db.roots| && IsDownPath(db, trail) && trail[0] == db.roots[r]
  }

  predicate ValidPick(db: Database, p: Pick) {
    ValidWalk(db, p.root, p.trail)
  }

  predicate ValidState(db: Database, st: State) {
    match st
    case Explore(r) => r <= |db.roots|
    case Menu(r, trail) => ValidWalk(db, r, trail) && |db.nodes[trail[|trail| - 1]].children| > 0
    case Confirm(r, trail) => ValidWalk(db, r, trail) && |db.nodes[trail[|trail| - 1]].children| == 0
  }

  /** The machine has stopped: every root has been answered "no". */
  predicate Finished(db: Database, st: State) {
    st.Explore? && st.root >= |db.roots|
  }

  /** `current_CT` is set to the walk's last category: a menu if it has
      children, the confirm question if not. */
  function Enter(db: Database, r: nat, trail: seq<nat>): (st: State)
    requires ValidWalk(db, r, trail)
    ensures ValidState(db, st)
  {
    if |db.nodes[trail[|trail| - 1]].children| > 0 then Menu(r, trail) else Confirm(r, trail)
  }

  /** Extending a walk by a child of its last category is a walk. */
  lemma ExtendWalk(db: Database, r: nat, trail: seq<nat>, c: nat)
    requires WellLinked(db) && ValidWalk(db, r, trail) && c in db.nodes[trail[|trail| - 1]].children
    ensures ValidWalk(db, r, trail + [c])
  {
    var t := trail + [c];
    var i := IndexOf(db.nodes[trail[|trail| - 1]].children, c);
    assert c < |db.nodes|;
    assert forall j :: 0 <= j < |trail| ==> t[j] == trail[j];
  }

  /** One answer. The result is the next state and the tags recorded (none or
      one); an out-of-range menu number raises `IndexError` (line 211). */
  function Step(db: Database, st: State, tok: Token): (r: Result<(State, seq<Pick>)>)
    requires WellLinked(db) && ValidState(db, st) && !Finished(db, st)
    ensures r.Ok? ==> ValidState(db, r.value.0)
    ensures r.Ok? ==> r.value.0.root >= st.root && r.value.0.root <= st.root + 1
    ensures r.Ok? ==> forall i :: 0 <= i < |r.value.1| ==> ValidPick(db, r.value.1[i]) && r.value.1[i].root == st.root
    ensures r.Err? ==> r.error == IndexError
  {
    match st
    case Explore(root) =>
      if tok == Yes then
        var walk := [db.roots[root]];
        assert ValidWalk(db, root, walk);
        Ok((Enter(db, root, walk), []))
      else if tok == No then Ok((Explore(root + 1), []))
      else Ok((st, []))
    case Menu(root, trail) =>
      var cs := db.nodes[trail[|trail| - 1]].children;
      (match tok
      case Num(n) =>
        if n == 0 then Ok((Explore(root), [Pick(root, trail)]))
        else if n <= |cs| then
          ExtendWalk(db, root, trail, cs[n - 1]);
          Ok((Enter(db, root, trail + [cs[n - 1]]), []))
        else Err(IndexError)
      case Zeros =>
        ExtendWalk(db, root, trail, cs[|cs| - 1]);
        Ok((Enter(db, root, trail + [cs[|cs| - 1]]), []))
      case Cancel => Ok((Explore(root), []))
      case _ => Ok((st, [])))
    case Confirm(root, trail) =>
      if tok == Yes || tok == No then Ok((Explore(root), [Pick(root, trail)]))
      else Ok((st, []))
  }

  /** The loop from state `st` over the remaining answers. Running out of
      answers before every root is done is `input()` at end of input. */
  function Run(db: Database, st: State, toks: seq<Token>): (r: Result<seq<Pick>>)
    requires WellLinked(db) && ValidState(db, st)
    ensures r.Err? ==> r.error == IndexError || r.error == EndOfInput
    ensures !Finished(db, st) && |toks| == 0 ==> r == Err(EndOfInput)
    decreases |toks|
  {
    if Finished(db, st) then Ok([])
    else if |toks| == 0 then Err(EndOfInput)
    else
      match Step(db, st, toks[0])
      case Err(e) => Err(e)
      case Ok(step) => WithPicks(step.1, Run(db, step.0, toks[1..]))
  }

  /** Prefix the picks recorded by one answer to the outcome of the rest. */
  function WithPicks(picked: seq<Pick>, r: Result<seq<Pick>>): Result<seq<Pick>> {
    match r
    case Ok(ps) => Ok(picked + ps)
    case Err(e) => Err(e)
  }

  /** Recording nothing leaves an outcome as it is. */
  lemma WithNoPicks(r: Result<seq<Pick>>)
    ensures WithPicks([], r) == r
  {
    if r.Ok? {
      assert [] + r.value == r.value;
    }
  }

  /** The recorded categories, in order. */
  function Tags(picks: seq<Pick>): seq<nat>
    requires forall i :: 0 <= i < |picks| ==> |picks[i].trail| > 0
  {
    seq(|picks|, i requires 0 <= i < |picks| => picks[i].trail[|picks[i].trail| - 1])
  }

  /** `decision_tree(final_dialog=False)`: the tags recorded from the first
      root on. Every returned tag is reachable from a root through child
      links; the walk fails only on an out-of-range menu number or at the
      end of the answers. */
  function DecisionTree(db: Database, toks: seq<Token>): (r: Result<seq<nat>>)
    requires WellLinked(db)
    ensures r.Ok? ==> forall i :: 0 <= i < |r.value| ==> Reachable(db, r.value[i])
    ensures r.Err? ==> r.error == IndexError || r.error == EndOfInput
  {
    RunPicksValid(db, Explore(0), toks);
    match Run(db, Explore(0), toks)
    case Err(e) => Err(e)
    case Ok(picks) =>
      assert forall i :: 0 <= i < |picks| ==> ValidPick(db, picks[i]);
      var tags := Tags(picks);
      assert forall i :: 0 <= i < |tags| ==> Reachable(db, tags[i]) by {
        forall i | 0 <= i < |tags|
          ensures Reachable(db, tags[i])
        {
          assert ValidWalk(db, picks[i].root, picks[i].trail);
          assert tags[i] == picks[i].trail[|picks[i].trail| - 1];
        }
      }
      Ok(tags)
  }

  // ------------------------------------------------------------- soundness

  /** Every pick is a walk from a root at position `r` or later, and the
      picks come in root order. */
  predicate PicksFrom(db: Database, r: nat, ps: seq<Pick>) {
    && (forall i :: 0 <= i < |ps| ==> ValidPick(db, ps[i]) && ps[i].root >= r)
    && (forall i, j :: 0 <= i < j < |ps| ==> ps[i].root <= ps[j].root)
  }

  /** Every recorded pick is a walk from its root, and picks come in root
      order, none from a root before the starting one. */
  lemma {:induction false} RunPicksValid(db: Database, st: State, toks: seq<Token>)
    requires WellLinked(db) && ValidState(db, st)
    ensures Run(db, st, toks).Ok? ==> PicksFrom(db, st.root, Run(db, st, toks).value)
    decreases |toks|
  {
    if !Finished(db, st) && |toks| > 0 && Step(db, st, toks[0]).Ok? {
      var next, picked := Step(db, st, toks[0]).value.0, Step(db, st, toks[0]).value.1;
      RunPicksValid(db, next, toks[1..]);
      if Run(db, next, toks[1..]).Ok? {
        var rest := Run(db, next, toks[1..]).value;
        assert Run(db, st, toks) == Ok(picked + rest);
        PicksFromAppend(db, st.root, next.root, picked, rest);
      }
    }
  }

  /** Picks from root `r` followed by picks from a later root are picks from `r`. */
  lemma PicksFromAppend(db: Database, r: nat, r2: nat, picked: seq<Pick>, rest: seq<Pick>)
    requires forall i :: 0 <= i < |picked| ==> ValidPick(db, picked[i]) && picked[i].root == r
    requires r <= r2 && PicksFrom(db, r2, rest)
    ensures PicksFrom(db, r, picked + rest)
  {
    var ps := picked + rest;
    forall i | 0 <= i < |ps| ensures ValidPick(db, ps[i]) && ps[i].root >= r {
      if i >= |picked| {
        assert ps[i] == rest[i - |picked|];
      }
    }
    forall i, j | 0 <= i < j < |ps| ensures ps[i].root <= ps[j].root {
      if j >= |picked| {
        assert ps[j] == rest[j - |picked|];
        if i >= |picked| {
          assert ps[i] == rest[i - |picked|];
        }
      }
    }
  }

  /** Category `k` ends a walk from some root. */
  ghost predicate Reachable(db: Database, k: nat) {
    exists r, walk :: ValidWalk(db, r, walk) && walk[|walk| - 1] == k
  }

  // ------------------------------------------------------------- reprompts

  /** Running on one answer and then the rest. */
  lemma RunCons(db: Database, st: State, tok: Token, rest: seq<Token>)
    requires WellLinked(db) && ValidState(db, st) && !Finished(db, st)
    ensures Step(db, st, tok).Err? ==> Run(db, st, [tok] + rest) == Err(Step(db, st, tok).error)
    ensures Step(db, st, tok).Ok? ==>
      Run(db, st, [tok] + rest) == WithPicks(Step(db, st, tok).value.1, Run(db, Step(db, st, tok).value.0, rest))
  {
    assert ([tok] + rest)[0] == tok && ([tok] + rest)[1..] == rest;
  }

  /** The answers a state does not act on: the source asks again. */
  predicate Ignored(st: State, tok: Token) {
    match st
    case Explore(_) => tok != Yes && tok != No
    case Menu(_, _) => !tok.Num? && tok != Zeros && tok != Cancel
    case Confirm(_, _) => tok != Yes && tok != No
  }

  /** An ignored answer changes nothing: input is re-prompted, never defaulted. */
  lemma RepromptIgnored(db: Database, st: State, tok: Token, rest: seq<Token>)
    requires WellLinked(db) && ValidState(db, st) && !Finished(db, st) && Ignored(st, tok)
    ensures Run(db, st, [tok] + rest) == Run(db, st, rest)
  {
    RunCons(db, st, tok, rest);
    assert Step(db, st, tok) == Ok((st, []));
    WithNoPicks(Run(db, st, rest));
  }

  // ------------------------------------------------------------- the quirks

  /** `n` answers "no". */
  function Nos(n: nat): (toks: seq<Token>)
    ensures |toks| == n && forall i :: 0 <= i < n ==> toks[i] == No
  {
    if n == 0 then [] else [No] + Nos(n - 1)
  }

  /** "no" at a root's question moves on to the next root and records nothing. */
  lemma NoSkipsRoot(db: Database, r: nat, rest: seq<Token>)
    requires WellLinked(db) && r < |db.roots|
    ensures Run(db, Explore(r), [No] + rest) == Run(db, Explore(r + 1), rest)
  {
    RunCons(db, Explore(r), No, rest);
    WithNoPicks(Run(db, Explore(r + 1), rest));
  }

  /** "no" to each of `n` roots from `from` on moves the loop to root `from + n`. */
  lemma {:induction false} SkipRoots(db: Database, from: nat, n: nat, rest: seq<Token>)
    requires WellLinked(db) && from + n <= |db.roots|
    ensures Run(db, Explore(from), Nos(n) + rest) == Run(db, Explore(from + n), rest)
    decreases n
  {
    if n > 0 {
      NosCons(n, rest);
      NoSkipsRoot(db, from, Nos(n - 1) + rest);
      SkipRoots(db, from + 1, n - 1, rest);
    } else {
      assert Nos(n) + rest == rest;
    }
  }

  /** The first of `n > 0` answers "no" is a "no". */
  lemma NosCons(n: nat, rest: seq<Token>)
    requires n > 0
    ensures Nos(n) + rest == [No] + (Nos(n - 1) + rest)
  {
    assert Nos(n) == [No] + Nos(n - 1);
  }

  /** Answering "no" for every remaining root ends the loop with no tags. */
  lemma AllNo(db: Database, r: nat)
    requires WellLinked(db) && r <= |db.roots|
    ensures Run(db, Explore(r), Nos(|db.roots| - r)) == Ok([])
  {
    SkipRoots(db, r, |db.roots| - r, []);
    assert Nos(|db.roots| - r) + [] == Nos(|db.roots| - r);
  }

  /** The source's `reponse = "cancel"` never touches `response`, so "no" at
      the confirm question records the category exactly as "yes" does. */
  lemma ConfirmNoRecords(db: Database, st: State, rest: seq<Token>)
    requires WellLinked(db) && ValidState(db, st) && st.Confirm?
    ensures Run(db, st, [No] + rest) == Run(db, st, [Yes] + rest)
    ensures Run(db, st, [No] + rest) == WithPicks([Pick(st.root, st.trail)], Run(db, Explore(st.root), rest))
  {
    RunCons(db, st, No, rest);
    RunCons(db, st, Yes, rest);
  }

  /** "cancel" at a menu abandons the walk: nothing is recorded and the
      question for the same root is asked again. */
  lemma CancelRecordsNothing(db: Database, st: State, rest: seq<Token>)
    requires WellLinked(db) && ValidState(db, st) && st.Menu?
    ensures Run(db, st, [Cancel] + rest) == Run(db, Explore(st.root), rest)
  {
    RunCons(db, st, Cancel, rest);
    WithNoPicks(Run(db, Explore(st.root), rest));
  }

  /** "0" at a menu records the category whose menu it is, although it has children. */
  lemma ZeroRecordsCurrent(db: Database, st: State, rest: seq<Token>)
    requires WellLinked(db) && ValidState(db, st) && st.Menu?
    ensures Run(db, st, [Num(0)] + rest) == WithPicks([Pick(st.root, st.trail)], Run(db, Explore(st.root), rest))
  {
    RunCons(db, st, Num(0), rest);
  }

  /** A digit string of value 0 other than "0" passes the menu's digit test
      and selects index -1, the last child. */
  lemma ZerosPicksLastChild(db: Database, st: State, rest: seq<Token>)
    requires WellLinked(db) && ValidState(db, st) && st.Menu?
    ensures var cs := db.nodes[st.trail[|st.trail| - 1]].children;
      ValidWalk(db, st.root, st.trail + [cs[|cs| - 1]]) &&
      Run(db, st, [Zeros] + rest) == Run(db, Enter(db, st.root, st.trail + [cs[|cs| - 1]]), rest)
  {
    var cs := db.nodes[st.trail[|st.trail| - 1]].children;
    ExtendWalk(db, st.root, st.trail, cs[|cs| - 1]);
    assert Step(db, st, Zeros) == Ok((Enter(db, st.root, st.trail + [cs[|cs| - 1]]), []));
    RunCons(db, st, Zeros, rest);
    WithNoPicks(Run(db, Enter(db, st.root, st.trail + [cs[|cs| - 1]]), rest));
  }

  /** A menu number beyond the number of children raises `IndexError`. */
  lemma OutOfRangeFails(db: Database, st: State, n: nat, rest: seq<Token>)
    requires WellLinked(db) && ValidState(db, st) && st.Menu?
    requires n > |db.nodes[st.trail[|st.trail| - 1]].children|
    ensures Run(db, st, [Num(n)] + rest) == Err(IndexError)
  {
    RunCons(db, st, Num(n), rest);
  }

  // ---------------------------------------------------------- completeness

  /** The menu numbers that walk from `trail[i]` down to the end of `trail`. */
  function Choices(db: Database, trail: seq<nat>, i: nat): (toks: seq<Token>)
    requires IsDownPath(db, trail) && i < |trail|
    ensures |toks| == |trail| - 1 - i
    decreases |trail| - i
  {
    if i == |trail| - 1 then []
    else [Num(IndexOf(db.nodes[trail[i]].children, trail[i + 1]) + 1)] + Choices(db, trail, i + 1)
  }

  /** The answer that records the walk's last category: "0" at its menu, or
      "yes" at its confirm question. */
  function Finish(db: Database, trail: seq<nat>): Token
    requires IsDownPath(db, trail)
  {
    if |db.nodes[trail[|trail| - 1]].children| > 0 then Num(0) else Yes
  }

  /** A menu choice of child `c` at position `n` moves on to `c`. */
  lemma ChooseChild(db: Database, r: nat, trail: seq<nat>, n: nat, rest: seq<Token>)
    requires WellLinked(db) && ValidWalk(db, r, trail)
    requires var cs := db.nodes[trail[|trail| - 1]].children; 0 < n <= |cs|
    ensures var c := db.nodes[trail[|trail| - 1]].children[n - 1];
      ValidWalk(db, r, trail + [c]) &&
      Run(db, Menu(r, trail), [Num(n)] + rest) == Run(db, Enter(db, r, trail + [c]), rest)
  {
    var c := db.nodes[trail[|trail| - 1]].children[n - 1];
    ExtendWalk(db, r, trail, c);
    RunCons(db, Menu(r, trail), Num(n), rest);
    WithNoPicks(Run(db, Enter(db, r, trail + [c]), rest));
  }

  /** The final answer records the walk's last category. */
  lemma FinishRecords(db: Database, r: nat, trail: seq<nat>, rest: seq<Token>)
    requires WellLinked(db) && ValidWalk(db, r, trail)
    ensures Run(db, Enter(db, r, trail), [Finish(db, trail)] + rest)
      == WithPicks([Pick(r, trail)], Run(db, Explore(r), rest))
  {
    RunCons(db, Enter(db, r, trail), Finish(db, trail), rest);
  }

  /** Every non-empty prefix of a walk is a walk. */
  lemma PrefixWalk(db: Database, r: nat, trail: seq<nat>, i: nat)
    requires ValidWalk(db, r, trail) && i < |trail|
    ensures ValidWalk(db, r, trail[..i + 1])
  {
    var pre := trail[..i + 1];
    assert forall j :: 0 <= j < |pre| ==> pre[j] == trail[j];
  }

  /** The menu number for the next category along a walk moves one step down it. */
  lemma WalkStep(db: Database, r: nat, trail: seq<nat>, i: nat, rest: seq<Token>)
    requires WellLinked(db) && ValidWalk(db, r, trail) && i < |trail| - 1
    ensures ValidWalk(db, r, trail[..i + 1]) && ValidWalk(db, r, trail[..i + 2])
    ensures Run(db, Enter(db, r, trail[..i + 1]), Choices(db, trail, i) + rest)
      == Run(db, Enter(db, r, trail[..i + 2]), Choices(db, trail, i + 1) + rest)
  {
    PrefixWalk(db, r, trail, i);
    PrefixWalk(db, r, trail, i + 1);
    var pre := trail[..i + 1];
    var cs := db.nodes[trail[i]].children;
    var n := IndexOf(cs, trail[i + 1]) + 1;
    var later := Choices(db, trail, i + 1) + rest;
    assert Choices(db, trail, i) + rest == [Num(n)] + later;
    assert pre[|pre| - 1] == trail[i];
    assert Enter(db, r, pre) == Menu(r, pre);
    ChooseChild(db, r, pre, n, later);
    assert pre + [cs[n - 1]] == trail[..i + 2];
  }

  /** From part way along a walk, its remaining menu numbers and the final
      answer record exactly that walk. */
  lemma {:induction false} WalkFrom(db: Database, r: nat, trail: seq<nat>, i: nat, rest: seq<Token>)
    requires WellLinked(db) && ValidWalk(db, r, trail) && i < |trail|
    ensures ValidWalk(db, r, trail[..i + 1])
    ensures Run(db, Enter(db, r, trail[..i + 1]), Choices(db, trail, i) + ([Finish(db, trail)] + rest))
      == WithPicks([Pick(r, trail)], Run(db, Explore(r), rest))
    decreases |trail| - i
  {
    PrefixWalk(db, r, trail, i);
    if i == |trail| - 1 {
      assert trail[..i + 1] == trail;
      assert Choices(db, trail, i) + ([Finish(db, trail)] + rest) == [Finish(db, trail)] + rest;
      FinishRecords(db, r, trail, rest);
    } else {
      WalkStep(db, r, trail, i, [Finish(db, trail)] + rest);
      WalkFrom(db, r, trail, i + 1, rest);
    }
  }

  /** The answers that record one walk from root position `r`: "no" to the
      roots before it, "yes" to its root, the walk's menu numbers and the
      final answer, then "no" to the remaining roots. */
  function WalkAnswers(db: Database, r: nat, trail: seq<nat>): seq<Token>
    requires ValidWalk(db, r, trail)
  {
    Nos(r) + ([Yes] + (Choices(db, trail, 0) + ([Finish(db, trail)] + Nos(|db.roots| - r))))
  }

  /** "yes" at a root's question lands on that root. */
  lemma StartWalk(db: Database, r: nat, rest: seq<Token>)
    requires WellLinked(db) && r < |db.roots|
    ensures ValidWalk(db, r, [db.roots[r]])
    ensures Run(db, Explore(r), [Yes] + rest) == Run(db, Enter(db, r, [db.roots[r]]), rest)
  {
    assert ValidWalk(db, r, [db.roots[r]]);
    RunCons(db, Explore(r), Yes, rest);
    assert Step(db, Explore(r), Yes) == Ok((Enter(db, r, [db.roots[r]]), []));
    WithNoPicks(Run(db, Enter(db, r, [db.roots[r]]), rest));
  }

  /** From a walk's root question, "yes", the walk's answers and "no" to
      the remaining roots record exactly that walk. */
  lemma WalkFromRoot(db: Database, r: nat, trail: seq<nat>)
    requires WellLinked(db) && ValidWalk(db, r, trail)
    ensures Run(db, Explore(r), [Yes] + (Choices(db, trail, 0) + ([Finish(db, trail)] + Nos(|db.roots| - r))))
      == Ok([Pick(r, trail)])
  {
    var tail := Nos(|db.roots| - r);
    var walk := Choices(db, trail, 0) + ([Finish(db, trail)] + tail);
    assert Run(db, Explore(r), [Yes] + walk) == Run(db, Enter(db, r, trail[..1]), walk) by {
      StartWalk(db, r, walk);
      assert trail[..1] == [db.roots[r]];
    }
    assert Run(db, Enter(db, r, trail[..1]), walk) == WithPicks([Pick(r, trail)], Ok([])) by {
      WalkFrom(db, r, trail, 0, tail);
      AllNo(db, r);
    }
    assert [Pick(r, trail)] + [] == [Pick(r, trail)];
  }

  /** Every walk from every root can be recorded, and those answers return
      that one pick. */
  lemma EveryWalkRecordable(db: Database, r: nat, trail: seq<nat>)
    requires WellLinked(db) && ValidWalk(db, r, trail)
    ensures Run(db, Explore(0), WalkAnswers(db, r, trail)) == Ok([Pick(r, trail)])
  {
    var walk := Choices(db, trail, 0) + ([Finish(db, trail)] + Nos(|db.roots| - r));
    SkipRoots(db, 0, r, [Yes] + walk);
    WalkFromRoot(db, r, trail);
  }
}
