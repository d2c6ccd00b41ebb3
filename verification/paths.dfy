/** The string manipulation that derives a category's parent id from its
    slash-delimited path (decision_tree.py, lines 111-115), with Python's
    `str.rfind` and slice semantics written out. */
module Paths {

  predicate OccursAt(s: string, sub: string, j: int) {
    0 <= j && j + |sub| <= |s| && s[j..j + |sub|] == sub
  }

  /** Python's `s.rfind(sub)`: the highest start of `sub` in `s`, or -1. */
  function RFind(s: string, sub: string): (r: int)
    ensures r == -1 || OccursAt(s, sub, r)
    ensures forall j :: r < j ==> !OccursAt(s, sub, j)
  {
    if |sub| > |s| then -1 else RFindBelow(s, sub, |s| - |sub| + 1)
  }

  /** The highest start below `n` of `sub` in `s`, or -1. */
  function RFindBelow(s: string, sub: string, n: nat): (r: int)
    requires n + |sub| <= |s| + 1
    ensures r == -1 || (r < n && OccursAt(s, sub, r))
    ensures forall j :: r < j < n ==> !OccursAt(s, sub, j)
  {
    if n == 0 then -1
    else if s[n - 1..n - 1 + |sub|] == sub then n - 1
    else RFindBelow(s, sub, n - 1)
  }

  /** Python's `s[0:stop]`; a negative stop counts from the end. */
  function SliceTo(s: string, stop: int): string {
    if stop >= |s| then s
    else if stop >= 0 then s[..stop]
    else if |s| + stop >= 0 then s[..|s| + stop]
    else []
  }

  /** The text after the last '/' of `s` (all of `s` when it has none):
      `s[s.rfind('/') + 1:]`. */
  function AfterLastSlash(s: string): (r: string)
    ensures |r| <= |s| && r == s[|s| - |r|..]
    ensures '/' !in r
    ensures |r| < |s| ==> s[|s| - |r| - 1] == '/'
  {
    var i := RFind(s, "/");
    assert forall j :: i < j < |s| ==> s[j] != '/' by {
      forall j | i < j < |s| ensures s[j] != '/' {
        assert !OccursAt(s, "/", j);
        assert s[j..j + 1] == [s[j]];
      }
    }
    if i >= 0 then assert s[i..i + 1] == [s[i]]; s[i + 1..] else s
  }

  /** The parent id the source derives for category `id` with path `path`:
      cut the path at the last occurrence of "/id/" and keep the last segment
      of what precedes it. The empty string means "no parent". The result is
      a single segment, never the whole of a non-empty path. */
  function ParentId(id: string, path: string): (r: string)
    ensures '/' !in r
    ensures |path| > 0 ==> |r| < |path|
    ensures |path| == 0 ==> r == []
  {
    var searchstr := "/" + id + "/";
    AfterLastSlash(SliceTo(path, RFind(path, searchstr)))
  }

  /** When "/id/" occurs in the path, the parent is the segment right before
      its last occurrence. */
  lemma ParentIdFound(id: string, path: string, i: nat)
    requires OccursAt(path, "/" + id + "/", i)
    requires forall j :: i < j ==> !OccursAt(path, "/" + id + "/", j)
    ensures ParentId(id, path) == AfterLastSlash(path[..i])
  {
    var k := RFind(path, "/" + id + "/");
    assert k == i;
  }

  /** When "/id/" does not occur, rfind yields -1 and the slice `[0:-1]`
      drops the path's last character before the last segment is taken. */
  lemma ParentIdNotFound(id: string, path: string)
    requires forall j :: !OccursAt(path, "/" + id + "/", j)
    ensures |path| > 0 ==> ParentId(id, path) == AfterLastSlash(path[..|path| - 1])
    ensures |path| == 0 ==> ParentId(id, path) == []
  {
    var k := RFind(path, "/" + id + "/");
    assert k == -1;
  }

  /** The parent derivation on a well-formed path: for
      `path == pre + "/" + parent + "/" + id + "/" + post` with no later
      "/id/", the derived parent id is exactly `parent`. */
  lemma {:induction false} ParentIsSegmentBeforeLastOccurrence(pre: string, parent: string, id: string, post: string)
    requires '/' !in parent
    requires forall j :: |pre| + 1 + |parent| < j ==>
      !OccursAt(pre + "/" + parent + "/" + id + "/" + post, "/" + id + "/", j)
    ensures ParentId(id, pre + "/" + parent + "/" + id + "/" + post) == parent
  {
    var path := pre + "/" + parent + "/" + id + "/" + post;
    var head := pre + "/" + parent;
    var needle := "/" + id + "/";
    assert path == head + needle + post;
    assert path[..|head|] == head;
    assert path[|head|..|head| + |needle|] == needle;
    ParentIdFound(id, path, |head|);
    LastSegmentAfterSlash(pre, parent);
  }

  /** The last segment of `pre + "/" + seg` is `seg` when `seg` has no '/'. */
  lemma LastSegmentAfterSlash(pre: string, seg: string)
    requires '/' !in seg
    ensures AfterLastSlash(pre + "/" + seg) == seg
  {
    var head := pre + "/" + seg;
    var r := AfterLastSlash(head);
    assert head[|head| - |seg| - 1] == '/';
    assert head[|head| - |seg|..] == seg;
    if |r| < |seg| {
      assert false;
    } else if |r| > |seg| {
      assert false;
    }
  }

  /** A path that starts with "/id/" and never repeats it makes `id` a root:
      the derived parent id is empty. */
  lemma {:induction false} LeadingOccurrenceMeansNoParent(id: string, post: string)
    requires forall j :: 0 < j ==> !OccursAt("/" + id + "/" + post, "/" + id + "/", j)
    ensures ParentId(id, "/" + id + "/" + post) == []
  {
    var path := "/" + id + "/" + post;
    assert path[0..|id| + 2] == "/" + id + "/";
    ParentIdFound(id, path, 0);
  }
}
