/**
 * The Library of Congress class tree (cheshire2/lcctree.c) as indices: node i is the i-th
 * line of the outline file, and the links are what the insertion code writes.
 */
module LccShape {
  import opened Basics

  const NONE: int := -1

  datatype Link = Link(parent: int, child: int, sibling: int)

  datatype Arena = Arena(level: seq<int>, links: seq<Link>) {
    function Size(): nat {
      |links|
    }

    /** Links stay inside the arena; parents come before, children and siblings after. */
    ghost predicate Linked() {
      && |level| == |links|
      && forall i :: 0 <= i < |links| ==>
           && NONE <= links[i].parent < i
           && (links[i].child == NONE || i < links[i].child < |links|)
           && (links[i].sibling == NONE || i < links[i].sibling < |links|)
    }
  }

  /** How inserting a line can end. `NullClimb` is the climb walking off the top of the tree. */
  datatype Outcome = Built(arena: Arena) | SiblingError | ChildError | CousinError | NullClimb

  /** The climb: from i towards the root until a level no deeper than `lvl`. */
  function Climb(a: Arena, i: int, lvl: int): (r: int)
    requires a.Linked() && NONE <= i < a.Size()
    ensures NONE <= r <= i && (r != NONE ==> a.level[r] <= lvl)
    decreases i
  {
    if i == NONE || a.level[i] <= lvl then i else Climb(a, a.links[i].parent, lvl)
  }

  function AddSibling(a: Arena, s: int, lvl: int): (r: Arena)
    requires a.Linked() && 0 <= s < a.Size()
    ensures r.Linked() && r.Size() == a.Size() + 1
  {
    Arena(a.level + [lvl],
          a.links[s := a.links[s].(sibling := a.Size())] + [Link(a.links[s].parent, NONE, NONE)])
  }

  function AddChild(a: Arena, s: int, lvl: int): (r: Arena)
    requires a.Linked() && 0 <= s < a.Size()
    ensures r.Linked() && r.Size() == a.Size() + 1
  {
    Arena(a.level + [lvl], a.links[s := a.links[s].(child := a.Size())] + [Link(s, NONE, NONE)])
  }

  /** One line, after the node of the line before it (the last one). */
  function Insert(a: Arena, lvl: int): (r: Outcome)
    requires a.Linked()
    ensures r.Built? ==> r.arena.Linked() && r.arena.level == a.level + [lvl]
  {
    var last := a.Size() - 1;
    if a.Size() == 0 then Built(Arena([lvl], [Link(NONE, NONE, NONE)]))
    else if a.level[last] == lvl then
      if a.links[last].sibling == NONE then Built(AddSibling(a, last, lvl)) else SiblingError
    else if a.level[last] < lvl then
      if a.links[last].child == NONE then Built(AddChild(a, last, lvl)) else ChildError
    else
      var s := Climb(a, last, lvl);
      if s == NONE then NullClimb
      else if a.links[s].sibling == NONE then Built(AddSibling(a, s, lvl)) else CousinError
  }

  function Build(levels: seq<int>): (r: Outcome)
    ensures r.Built? ==> r.arena.Linked() && r.arena.level == levels
  {
    if levels == [] then Built(Arena([], []))
    else
      var r := Build(levels[..|levels| - 1]);
      if r.Built? then Insert(r.arena, levels[|levels| - 1]) else r
  }

  // ------------------------------------------------- the open path, from levels alone

  /** How much of a path of levels survives a climb to `lvl`. */
  function Keep(path: seq<int>, lvl: int): (k: nat)
    ensures k <= |path| && (0 < k ==> path[k - 1] <= lvl)
    ensures forall i :: k <= i < |path| ==> path[i] > lvl
  {
    if path == [] || path[|path| - 1] <= lvl then |path| else Keep(path[..|path| - 1], lvl)
  }

  datatype Path = Open(levels: seq<int>) | Lost

  /** The levels from the top of the tree down to the last line. */
  function Follow(levels: seq<int>): (r: Path) {
    if levels == [] then Open([])
    else
      var lvl := levels[|levels| - 1];
      match Follow(levels[..|levels| - 1])
      case Lost => Lost
      case Open(path) =>
        var k := Keep(path, lvl);
        if path == [] || path[|path| - 1] < lvl then Open(path + [lvl])
        else if k == 0 then Lost
        else Open(path[..k - 1] + [lvl])
  }

  // -------------------------------------------------------------------------- invariant

  /** Where node i's own descendants end. */
  function SubEnd(a: Arena, e: seq<int>, i: nat): int
    requires i < |e| == a.Size()
  {
    if a.links[i].sibling == NONE then e[i] else a.links[i].sibling
  }

  /** `e[i]` ends the stretch of lines made of i, its later siblings and all below them. */
  ghost predicate NodeShaped(a: Arena, e: seq<int>, i: nat)
    requires a.Linked() && i < |e| == a.Size()
  {
    var l := a.links[i];
    && i < e[i] <= a.Size()
    && (l.child != NONE ==> l.child == i + 1 && a.links[i + 1].parent == i && e[i + 1] == SubEnd(a, e, i))
    && (l.child == NONE ==> SubEnd(a, e, i) == i + 1)
    && (l.sibling != NONE ==> a.links[l.sibling].parent == l.parent && e[l.sibling] == e[i])
    && Below(a, e, i, SubEnd(a, e, i))
  }

  /** Between i and `end` everything hangs below i. */
  ghost predicate Below(a: Arena, e: seq<int>, i: nat, end: int)
    requires end <= |e| == a.Size()
  {
    forall d :: i < d < end ==> a.links[d].parent >= i && e[d] <= end
  }

  ghost predicate Shaped(a: Arena, e: seq<int>) {
    && a.Linked() && |e| == a.Size()
    && (forall i :: 0 <= i < a.Size() ==> NodeShaped(a, e, i))
    && (a.Size() > 0 ==> e[0] == a.Size() && a.links[0].parent == NONE)
  }

  ghost predicate OnSpine(a: Arena, e: seq<int>, path: seq<int>, k: nat)
    requires a.Linked() && |e| == a.Size() && k < |path|
  {
    && 0 <= path[k] < a.Size()
    && a.links[path[k]].parent == (if k == 0 then NONE else path[k - 1])
    && a.links[path[k]].sibling == NONE
    && e[path[k]] == a.Size()
  }

  /** `path` leads from the top of the tree to the last line, and nothing on it has a sibling yet. */
  ghost predicate Spine(a: Arena, e: seq<int>, path: seq<int>)
    requires a.Linked() && |e| == a.Size()
  {
    && (a.Size() == 0 <==> path == [])
    && (path != [] ==> path[|path| - 1] == a.Size() - 1)
    && forall k :: 0 <= k < |path| ==> OnSpine(a, e, path, k)
  }

  function Stretch(e: seq<int>, s: int): (f: seq<int>)
    ensures |f| == |e| + 1 && f[|e|] == |e| + 1
    ensures forall i :: 0 <= i < |e| ==> f[i] == if e[i] == |e| && i <= s then |e| + 1 else e[i]
  {
    seq(|e|, i requires 0 <= i < |e| => if e[i] == |e| && i <= s then |e| + 1 else e[i]) + [|e| + 1]
  }

  /** One node before and after a sibling has been attached at s. */
  lemma SiblingNode(a: Arena, e: seq<int>, s: nat, lvl: int, i: nat)
    requires Shaped(a, e) && s < a.Size() && a.links[s].sibling == NONE && e[s] == a.Size() && i < a.Size()
    ensures NodeShaped(AddSibling(a, s, lvl), Stretch(e, s), i)
  {
    hide Below;
    var b, f, n := AddSibling(a, s, lvl), Stretch(e, s), a.Size();
    assert NodeShaped(a, e, i) && NodeShaped(a, e, s);
    assert b.links[i] == if i == s then a.links[s].(sibling := n) else a.links[i];
    assert i + 1 < n ==> b.links[i + 1].parent == a.links[i + 1].parent;
    SiblingBelow(a, e, s, lvl, i);
  }

  lemma SiblingBelow(a: Arena, e: seq<int>, s: nat, lvl: int, i: nat)
    requires a.Linked() && i < |e| == a.Size() && s < a.Size()
    requires NodeShaped(a, e, i) && a.links[s].sibling == NONE && e[s] == a.Size()
    ensures var b, f := AddSibling(a, s, lvl), Stretch(e, s);
            SubEnd(b, f, i) <= |f| && Below(b, f, i, SubEnd(b, f, i))
  {
    var b, f, n := AddSibling(a, s, lvl), Stretch(e, s), a.Size();
    forall d | i < d < SubEnd(b, f, i)
      ensures b.links[d].parent >= i && f[d] <= SubEnd(b, f, i)
    {
    }
  }

  lemma NewNode(b: Arena, f: seq<int>, n: nat)
    requires b.Linked() && |f| == b.Size() == n + 1 && f[n] == n + 1
    requires b.links[n].child == NONE && b.links[n].sibling == NONE
    ensures NodeShaped(b, f, n)
  {
  }

  lemma AddSiblingShaped(a: Arena, e: seq<int>, s: nat, lvl: int)
    requires Shaped(a, e) && s < a.Size() && a.links[s].sibling == NONE && e[s] == a.Size()
    ensures Shaped(AddSibling(a, s, lvl), Stretch(e, s))
  {
    hide NodeShaped;
    var b, f, n := AddSibling(a, s, lvl), Stretch(e, s), a.Size();
    forall i | 0 <= i < b.Size()
      ensures NodeShaped(b, f, i)
    {
      if i < n {
        SiblingNode(a, e, s, lvl, i);
      } else {
        NewNode(b, f, n);
      }
    }
  }

  /** One node before and after a child has been attached to the last one. */
  lemma ChildNode(a: Arena, e: seq<int>, lvl: int, i: nat)
    requires Shaped(a, e) && i < a.Size() && a.links[a.Size() - 1].sibling == NONE
    ensures NodeShaped(AddChild(a, a.Size() - 1, lvl), Stretch(e, a.Size() - 1), i)
  {
    hide Below;
    assert NodeShaped(a, e, i) && NodeShaped(a, e, a.Size() - 1);
    ChildBelow(a, e, lvl, i);
  }

  lemma ChildBelow(a: Arena, e: seq<int>, lvl: int, i: nat)
    requires a.Linked() && i < |e| == a.Size() && NodeShaped(a, e, i)
    requires e[a.Size() - 1] == a.Size() && a.links[a.Size() - 1].sibling == NONE
    ensures var b, f := AddChild(a, a.Size() - 1, lvl), Stretch(e, a.Size() - 1);
            SubEnd(b, f, i) <= |f| && Below(b, f, i, SubEnd(b, f, i))
  {
    var b, f := AddChild(a, a.Size() - 1, lvl), Stretch(e, a.Size() - 1);
    forall d | i < d < SubEnd(b, f, i)
      ensures b.links[d].parent >= i && f[d] <= SubEnd(b, f, i)
    {
    }
  }

  lemma AddChildShaped(a: Arena, e: seq<int>, lvl: int)
    requires Shaped(a, e) && 0 < a.Size() && a.links[a.Size() - 1].sibling == NONE
    ensures Shaped(AddChild(a, a.Size() - 1, lvl), Stretch(e, a.Size() - 1))
  {
    hide NodeShaped;
    var n := a.Size();
    var b, f := AddChild(a, n - 1, lvl), Stretch(e, n - 1);
    forall i | 0 <= i < b.Size()
      ensures NodeShaped(b, f, i)
    {
      if i < n {
        ChildNode(a, e, lvl, i);
      } else {
        NewNode(b, f, n);
      }
    }
  }

  lemma SiblingSpine(a: Arena, e: seq<int>, path: seq<int>, k: nat, lvl: int)
    requires a.Linked() && |e| == a.Size() && Spine(a, e, path) && k < |path| && 0 <= path[k] < a.Size()
    requires forall j :: 0 <= j < k ==> path[j] < path[k]
    ensures Spine(AddSibling(a, path[k], lvl), Stretch(e, path[k]), path[..k] + [a.Size()])
  {
    var b, f, p := AddSibling(a, path[k], lvl), Stretch(e, path[k]), path[..k] + [a.Size()];
    forall j | 0 <= j < |p|
      ensures OnSpine(b, f, p, j)
    {
      assert OnSpine(a, e, path, j);
    }
  }

  lemma ChildSpine(a: Arena, e: seq<int>, path: seq<int>, lvl: int)
    requires a.Linked() && |e| == a.Size() && Spine(a, e, path) && path != []
    ensures Spine(AddChild(a, a.Size() - 1, lvl), Stretch(e, a.Size() - 1), path + [a.Size()])
  {
    var b, f, p := AddChild(a, a.Size() - 1, lvl), Stretch(e, a.Size() - 1), path + [a.Size()];
    forall j | 0 <= j < |p|
      ensures OnSpine(b, f, p, j)
    {
      if j < |path| {
        assert OnSpine(a, e, path, j);
      }
    }
  }

  lemma {:induction false} PathIncreases(a: Arena, e: seq<int>, path: seq<int>, j: nat, k: nat)
    requires Shaped(a, e) && Spine(a, e, path) && j < k < |path|
    ensures path[j] < path[k]
  {
    assert OnSpine(a, e, path, k);
    if j < k - 1 {
      PathIncreases(a, e, path, j, k - 1);
    }
  }

  ghost predicate InArena(a: Arena, path: seq<int>) {
    forall k :: 0 <= k < |path| ==> 0 <= path[k] < |a.level|
  }

  /** The levels along a path of nodes. */
  function LevelsOf(a: Arena, path: seq<int>): (r: seq<int>)
    requires a.Linked() && InArena(a, path)
    ensures |r| == |path| && forall k :: 0 <= k < |path| ==> r[k] == a.level[path[k]]
  {
    seq(|path|, k requires 0 <= k < |path| => a.level[path[k]])
  }

  lemma KeepUnfolds(path: seq<int>, k: nat, lvl: int)
    requires k < |path|
    ensures Keep(path[..k + 1], lvl) == if path[k] <= lvl then k + 1 else Keep(path[..k], lvl)
  {
  }

  /** The climb through parent pointers is the climb along the open path. */
  lemma {:induction false} ClimbFollowsPath(a: Arena, e: seq<int>, path: seq<int>, k: nat, lvl: int)
    requires a.Linked() && |e| == a.Size() && Spine(a, e, path) && InArena(a, path) && k <= |path|
    ensures var kept := Keep(LevelsOf(a, path)[..k], lvl);
            Climb(a, if k == 0 then NONE else path[k - 1], lvl) == if kept == 0 then NONE else path[kept - 1]
  {
    hide Keep, Arena.Linked;
    if k > 0 {
      KeepUnfolds(LevelsOf(a, path), k - 1, lvl);
      assert OnSpine(a, e, path, k - 1);
      if a.level[path[k - 1]] > lvl {
        ClimbFollowsPath(a, e, path, k - 1, lvl);
      }
    }
  }

  /** What a successful build has established. */
  ghost predicate Grown(a: Arena, e: seq<int>, path: seq<int>, open: Path) {
    && Shaped(a, e) && Spine(a, e, path) && InArena(a, path) && open == Open(LevelsOf(a, path))
  }

  lemma FollowUnfolds(levels: seq<int>, path: seq<int>, lvl: int)
    requires Follow(levels) == Open(path)
    ensures Follow(levels + [lvl]) ==
            if path == [] || path[|path| - 1] < lvl then Open(path + [lvl])
            else if Keep(path, lvl) == 0 then Lost
            else Open(path[..Keep(path, lvl) - 1] + [lvl])
  {
    hide Keep;
    assert (levels + [lvl])[..|levels + [lvl]| - 1] == levels;
  }

  lemma FirstGrows(a: Arena, e: seq<int>, path: seq<int>, levels: seq<int>, lvl: int)
    requires Grown(a, e, path, Follow(levels)) && a.Size() == 0
    ensures Insert(a, lvl).Built? && Grown(Insert(a, lvl).arena, [1], [0], Follow(levels + [lvl]))
  {
    hide Follow, Keep;
    assert LevelsOf(a, path) == [];
    FollowUnfolds(levels, [], lvl);
    var b := Insert(a, lvl).arena;
    assert NodeShaped(b, [1], 0) && OnSpine(b, [1], [0], 0);
    assert LevelsOf(b, [0]) == [] + [lvl];
  }

  lemma ChildGrows(a: Arena, e: seq<int>, path: seq<int>, levels: seq<int>, lvl: int)
    requires Grown(a, e, path, Follow(levels)) && a.Size() > 0 && a.level[a.Size() - 1] < lvl
    ensures var n := a.Size();
            Insert(a, lvl).Built? && Grown(Insert(a, lvl).arena, Stretch(e, n - 1), path + [n], Follow(levels + [lvl]))
  {
    hide Follow, Keep, Stretch, Climb;
    var n := a.Size();
    assert OnSpine(a, e, path, |path| - 1);
    AddChildShaped(a, e, lvl);
    ChildSpine(a, e, path, lvl);
    FollowUnfolds(levels, LevelsOf(a, path), lvl);
    assert LevelsOf(AddChild(a, n - 1, lvl), path + [n]) == LevelsOf(a, path) + [lvl];
  }

  lemma SiblingGrows(a: Arena, e: seq<int>, path: seq<int>, levels: seq<int>, lvl: int, k: nat)
    requires Grown(a, e, path, Follow(levels)) && k < |path| && a.level[a.Size() - 1] >= lvl
    requires k == Keep(LevelsOf(a, path), lvl) - 1
    ensures Grown(AddSibling(a, path[k], lvl), Stretch(e, path[k]), path[..k] + [a.Size()], Follow(levels + [lvl]))
  {
    hide Follow, Keep, Stretch, NodeShaped;
    assert OnSpine(a, e, path, k);
    forall j | 0 <= j < k
      ensures path[j] < path[k]
    {
      PathIncreases(a, e, path, j, k);
    }
    AddSiblingShaped(a, e, path[k], lvl);
    SiblingSpine(a, e, path, k, lvl);
    FollowUnfolds(levels, LevelsOf(a, path), lvl);
    assert LevelsOf(AddSibling(a, path[k], lvl), path[..k] + [a.Size()]) == LevelsOf(a, path)[..k] + [lvl];
  }

  lemma InsertGrows(a: Arena, e: seq<int>, path: seq<int>, levels: seq<int>, lvl: int)
    returns (f: seq<int>, path': seq<int>)
    requires Grown(a, e, path, Follow(levels))
    ensures match Insert(a, lvl)
            case Built(b) => Grown(b, f, path', Follow(levels + [lvl]))
            case NullClimb => Follow(levels + [lvl]) == Lost
            case _ => false
  {
    hide Follow, Keep, Climb, NodeShaped, Stretch, AddSibling, AddChild;
    f, path' := [], [];
    var n := a.Size();
    if n == 0 {
      FirstGrows(a, e, path, levels, lvl);
      f, path' := [1], [0];
    } else if a.level[n - 1] < lvl {
      ChildGrows(a, e, path, levels, lvl);
      f, path' := Stretch(e, n - 1), path + [n];
    } else {
      var open := LevelsOf(a, path);
      assert open[..|path|] == open;
      ClimbFollowsPath(a, e, path, |path|, lvl);
      if a.level[n - 1] == lvl {
        ClimbStays(a, n - 1, lvl);
      }
      var kept := Keep(open, lvl);
      if kept > 0 {
        assert OnSpine(a, e, path, kept - 1);
        SiblingGrows(a, e, path, levels, lvl, kept - 1);
        f, path' := Stretch(e, path[kept - 1]), path[..kept - 1] + [n];
      } else {
        FollowUnfolds(levels, open, lvl);
      }
    }
  }

  lemma ClimbStays(a: Arena, i: nat, lvl: int)
    requires a.Linked() && i < a.Size() && a.level[i] <= lvl
    ensures Climb(a, i, lvl) == i
  {
  }

  /**
   * For every outline: none of the three structural errors can be reported; the build
   * either completes with the shape above or climbs off the top, and which of the two is
   * decided by the levels alone.
   */
  lemma {:induction false} BuildGrows(levels: seq<int>) returns (e: seq<int>, path: seq<int>)
    ensures match Build(levels)
            case Built(a) => Grown(a, e, path, Follow(levels))
            case NullClimb => Follow(levels) == Lost
            case _ => false
  {
    hide *;
    e, path := [], [];
    if levels == [] {
      NothingGrown();
    } else {
      var lvl := levels[|levels| - 1];
      var shorter := levels[..|levels| - 1];
      assert levels == shorter + [lvl];
      e, path := BuildGrows(shorter);
      BuildUnfolds(shorter, lvl);
      if Build(shorter).Built? {
        e, path := InsertGrows(Build(shorter).arena, e, path, shorter, lvl);
      }
    }
  }

  lemma NothingGrown()
    ensures Build([]).Built? && Grown(Build([]).arena, [], [], Follow([]))
  {
  }

  lemma BuildUnfolds(levels: seq<int>, lvl: int)
    ensures Build(levels).Built? ==> Build(levels + [lvl]) == Insert(Build(levels).arena, lvl)
    ensures !Build(levels).Built? ==> Build(levels + [lvl]) == Build(levels)
    ensures Follow(levels) == Lost ==> Follow(levels + [lvl]) == Lost
  {
  }

  // ----------------------------------------------------------- what the tree says back

  /** First child before next sibling, over the links. */
  function Preorder(a: Arena, i: int): (r: seq<int>)
    requires a.Linked() && NONE <= i < a.Size()
    decreases if i == NONE then 0 else a.Size() - i
  {
    if i == NONE then [] else [i] + Preorder(a, a.links[i].child) + Preorder(a, a.links[i].sibling)
  }

  lemma {:induction false} PreorderIsOrder(a: Arena, e: seq<int>, i: nat)
    requires Shaped(a, e) && i < a.Size()
    ensures i < e[i] && Preorder(a, i) == Numbers(i, e[i])
    decreases a.Size() - i
  {
    hide Preorder, Numbers;
    assert NodeShaped(a, e, i);
    var l := a.links[i];
    if l.child != NONE {
      PreorderIsOrder(a, e, i + 1);
    }
    if l.sibling != NONE {
      PreorderIsOrder(a, e, l.sibling);
    }
    PreorderUnfolds(a, i);
    LinesSplit(i, SubEnd(a, e, i), e[i]);
  }

  lemma LinesSplit(i: int, mid: int, hi: int)
    requires i < mid <= hi
    ensures Numbers(i, hi) == [i] + Numbers(i + 1, mid) + Numbers(mid, hi)
    ensures i + 1 == mid ==> Numbers(i + 1, mid) == []
    ensures mid == hi ==> Numbers(mid, hi) == []
  {
  }

  lemma PreorderUnfolds(a: Arena, i: nat)
    requires a.Linked() && i < a.Size()
    ensures Preorder(a, i) == [i] + Preorder(a, a.links[i].child) + Preorder(a, a.links[i].sibling)
    ensures Preorder(a, NONE) == []
  {
  }

  /** Number of parents above node i. */
  function Depth(a: Arena, i: nat): (d: nat)
    requires a.Linked() && i < a.Size()
    decreases i
  {
    if a.links[i].parent == NONE then 0 else 1 + Depth(a, a.links[i].parent)
  }

  /**
   * The build/flatten round trip, for every outline. The build succeeds exactly when the
   * levels never climb off the top; then walking first child before next sibling gives the
   * lines back in file order, and neither the last node nor any ancestor of it has a sibling.
   */
  lemma BuildRoundTrip(levels: seq<int>) returns (path: seq<int>)
    ensures Build(levels).Built? || Build(levels) == NullClimb
    ensures Build(levels).Built? <==> Follow(levels).Open?
    ensures Build(levels).Built? && levels != [] ==>
              var a := Build(levels).arena;
              && Preorder(a, 0) == Numbers(0, |levels|)
              && path != [] && path[|path| - 1] == |levels| - 1
              && forall k :: 0 <= k < |path| ==> OpenAt(a, path, k)
  {
    hide Follow, NodeShaped, Insert, Preorder, Numbers;
    var e;
    e, path := BuildGrows(levels);
    if Build(levels).Built? && levels != [] {
      var a := Build(levels).arena;
      PreorderIsOrder(a, e, 0);
      forall k | 0 <= k < |path|
        ensures OpenAt(a, path, k)
      {
        assert OnSpine(a, e, path, k);
      }
    }
  }

  /** Step k of a way down the parent links: it continues step k - 1 and has no sibling. */
  ghost predicate OpenAt(a: Arena, path: seq<int>, k: nat)
    requires k < |path|
  {
    && 0 <= path[k] < a.Size()
    && a.links[path[k]].sibling == NONE
    && a.links[path[k]].parent == if k == 0 then NONE else path[k - 1]
  }

  // ------------------------------------------------- outlines indented one step at a time

  /** No line is more than one level below the line before it, nor above the first line. */
  ghost predicate StepIndented(levels: seq<int>) {
    && (forall i :: 0 <= i < |levels| ==> levels[0] <= levels[i])
    && (forall i :: 0 < i < |levels| ==> levels[i] <= levels[i - 1] + 1)
  }

  lemma StepIndentedShorter(levels: seq<int>)
    requires StepIndented(levels) && |levels| > 1
    ensures var shorter, lvl := levels[..|levels| - 1], levels[|levels| - 1];
            && StepIndented(shorter)
            && levels[0] <= lvl <= shorter[|shorter| - 1] + 1 && levels[0] <= shorter[|shorter| - 1]
  {
  }

  lemma {:induction false} StepIndentedPath(levels: seq<int>)
    requires StepIndented(levels) && levels != []
    ensures Follow(levels) == Open(Numbers(levels[0], levels[|levels| - 1] + 1))
  {
    hide Keep, Numbers, Follow, StepIndented;
    var lvl, shorter := levels[|levels| - 1], levels[..|levels| - 1];
    assert levels == shorter + [lvl];
    if shorter == [] {
      FollowNothing();
      FollowUnfolds([], [], lvl);
      assert [] + [lvl] == [lvl];
      assert Numbers(lvl, lvl + 1) == [lvl];
    } else {
      StepIndentedShorter(levels);
      StepIndentedPath(shorter);
      var hi := shorter[|shorter| - 1] + 1;
      FollowUnfolds(shorter, Numbers(levels[0], hi), lvl);
      StepFromNumbers(levels[0], hi, lvl);
    }
  }

  lemma StepFromNumbers(lo: int, hi: int, lvl: int)
    requires lo < hi && lo <= lvl <= hi
    ensures lvl == hi ==> Numbers(lo, hi) + [lvl] == Numbers(lo, lvl + 1)
    ensures lvl < hi ==> Keep(Numbers(lo, hi), lvl) == lvl + 1 - lo
    ensures lvl < hi ==> Numbers(lo, hi)[..lvl - lo] + [lvl] == Numbers(lo, lvl + 1)
  {
    hide Keep;
    if lvl < hi {
      KeepNumbers(lo, hi, lvl);
    }
  }

  lemma KeepNumbers(lo: int, hi: int, lvl: int)
    requires lo <= lvl < hi
    ensures Keep(Numbers(lo, hi), lvl) == lvl + 1 - lo
  {
    hide Keep, Numbers;
    var k := Keep(Numbers(lo, hi), lvl);
    assert Numbers(lo, hi)[lvl - lo] == lvl;
  }

  lemma FollowNothing()
    ensures Follow([]) == Open([])
  {
  }

  /** Every node sits one level below its parent, and the top ones at the first line's level. */
  ghost predicate LevelsAreDepths(a: Arena) {
    && a.Linked()
    && forall i :: 0 <= i < a.Size() ==>
         a.level[i] == if a.links[i].parent == NONE then a.level[0] else a.level[a.links[i].parent] + 1
  }

  lemma {:induction false} StepIndentedDepths(levels: seq<int>)
    requires StepIndented(levels)
    ensures Build(levels).Built? && LevelsAreDepths(Build(levels).arena)
  {
    hide Insert, Climb, Follow, Keep;
    if levels == [] {
    } else {
      var lvl, shorter := levels[|levels| - 1], levels[..|levels| - 1];
      assert levels == shorter + [lvl];
      StepIndentedDepths(shorter);
      BuildUnfolds(shorter, lvl);
      var path := BuildRoundTrip(levels);
      StepIndentedPath(levels);
      InsertDepth(Build(shorter).arena, lvl);
    }
  }

  lemma InsertDepth(a: Arena, lvl: int)
    requires LevelsAreDepths(a) && Insert(a, lvl).Built?
    requires a.Size() > 0 ==> a.level[0] <= lvl <= a.level[a.Size() - 1] + 1
    ensures LevelsAreDepths(Insert(a, lvl).arena)
  {
    if a.Size() > 0 && lvl < a.level[a.Size() - 1] {
      ClimbFindsLevel(a, a.Size() - 1, lvl);
    }
  }

  lemma {:induction false} ClimbFindsLevel(a: Arena, i: nat, lvl: int)
    requires LevelsAreDepths(a) && i < a.Size() && a.level[0] <= lvl <= a.level[i]
    ensures Climb(a, i, lvl) != NONE && a.level[Climb(a, i, lvl)] == lvl
    decreases i
  {
    if a.level[i] > lvl {
      ClimbFindsLevel(a, a.links[i].parent, lvl);
    }
  }

  lemma {:induction false} DepthIsLevel(a: Arena, i: nat)
    requires LevelsAreDepths(a) && i < a.Size()
    ensures Depth(a, i) == a.level[i] - a.level[0]
    decreases i
  {
    if a.links[i].parent != NONE {
      DepthIsLevel(a, a.links[i].parent);
    }
  }

  /** Outlines that go down one level at a time always build, and depth is indentation. */
  lemma StepIndentedBuilds(levels: seq<int>)
    requires StepIndented(levels)
    ensures Build(levels).Built?
    ensures forall i :: 0 <= i < |levels| ==> Depth(Build(levels).arena, i) == levels[i] - levels[0]
  {
    hide *;
    StepIndentedDepths(levels);
    SizeIs(Build(levels).arena);
    forall i | 0 <= i < |levels|
      ensures Depth(Build(levels).arena, i) == levels[i] - levels[0]
    {
      DepthIsLevel(Build(levels).arena, i);
    }
  }

  lemma SizeIs(a: Arena)
    requires a.Linked()
    ensures a.Size() == |a.level|
  {
  }

  /**
   * Staying at or below the first line's level is not enough: coming back to a level that
   * was skipped on the way down (`mid`, between `top` and `low`) raises the top of the
   * tree, and the way back up to the first level then has nowhere to stop.
   */
  lemma SkippedLevelLosesTheTop(top: int, mid: int, low: int)
    requires top < mid < low
    ensures Build([top, low, mid, top]) == NullClimb
  {
    hide *;
    FollowNothing();
    FollowUnfolds([], [], top);
    assert [] + [top] == [top];
    FollowUnfolds([top], [top], low);
    assert [top] + [low] == [top, low];
    SkippedPath(top, mid, low);
    var path := BuildRoundTrip([top, low, mid, top]);
  }

  lemma SkippedPath(top: int, mid: int, low: int)
    requires top < mid < low && Follow([top, low]) == Open([top, low])
    ensures Follow([top, low, mid, top]) == Lost
  {
    hide *;
    assert [top, low][0] == top && [top, low][1] == low;
    assert Keep([top, low], mid) == 1;
    FollowUnfolds([top, low], [top, low], mid);
    assert [top, low] + [mid] == [top, low, mid] && [top, low][..0] + [mid] == [mid];
    assert [mid][0] == mid;
    assert Keep([mid], top) == 0;
    FollowUnfolds([top, low, mid], [mid], top);
    assert [top, low, mid] + [top] == [top, low, mid, top];
  }
}
