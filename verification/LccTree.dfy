/**
 * The class tree in memory (cheshire2/lcctree.c, header/lcctree.h): nodes joined by
 * parent, child and sibling pointers, built line by line and then searched.
 */
module LccTree {
  import opened Basics
  import opened LccShape
  import opened LccSearch

  datatype Kind = CSingle | CRange | FSingle | FRange

  /** One line of the outline file: its tabs, its range and its description. */
  datatype Entry = Entry(tabs: nat, desc: string, kind: Kind, cmin: string, cmax: string, fmin: real, fmax: real) {
    /** The level is stored in a signed `char`. */
    function Level(): int {
      (tabs + 128) % 256 - 128
    }
  }

  function Levels(entries: seq<Entry>): (r: seq<int>)
    ensures |r| == |entries| && forall i :: 0 <= i < |r| ==> r[i] == entries[i].Level()
  {
    seq(|entries|, i requires 0 <= i < |entries| => entries[i].Level())
  }

  class ClassNode {
    const entry: Entry
    var level: int
    var parent: ClassNode?
    var child: ClassNode?
    var sibling: ClassNode?

    constructor (entry: Entry)
      ensures this.entry == entry && level == entry.Level()
      ensures parent == null && child == null && sibling == null
    {
      this.entry := entry;
      level := entry.Level();
      parent, child, sibling := null, null, null;
    }
  }

  ghost function Ptr(nodes: seq<ClassNode>, k: int): ClassNode? {
    if 0 <= k < |nodes| then nodes[k] else null
  }

  ghost predicate MirrorAt(nodes: seq<ClassNode>, a: Arena, i: nat)
    requires i < |nodes| == |a.links| == |a.level|
    reads nodes
  {
    && nodes[i].level == a.level[i]
    && nodes[i].parent == Ptr(nodes, a.links[i].parent)
    && nodes[i].child == Ptr(nodes, a.links[i].child)
    && nodes[i].sibling == Ptr(nodes, a.links[i].sibling)
  }

  /** The pointers of `nodes` are the links of `a`, node by node. */
  ghost predicate Mirrors(nodes: seq<ClassNode>, a: Arena)
    reads nodes
  {
    && a.Linked() && |nodes| == |a.links|
    && (forall i, j :: 0 <= i < j < |nodes| ==> nodes[i] != nodes[j])
    && (forall i :: 0 <= i < |nodes| ==> MirrorAt(nodes, a, i))
  }

  method AttachSibling(s: ClassNode, newNode: ClassNode, ghost nodes: seq<ClassNode>, ghost a: Arena, ghost si: nat)
    requires Mirrors(nodes, a) && si < |nodes| && s == nodes[si] && newNode !in nodes
    requires newNode.parent == newNode.child == newNode.sibling == null
    modifies s`sibling, newNode`parent
    ensures Mirrors(nodes + [newNode], AddSibling(a, si, newNode.level))
  {
    ghost var all, b := nodes + [newNode], AddSibling(a, si, newNode.level);
    assert forall i :: 0 <= i < |nodes| ==> MirrorAt(nodes, a, i);
    newNode.parent := s.parent;
    s.sibling := newNode;
    forall i | 0 <= i < |all|
      ensures MirrorAt(all, b, i)
    {
      if i < |nodes| {
        assert old(MirrorAt(nodes, a, i));
        assert b.links[i] == if i == si then a.links[i].(sibling := |nodes|) else a.links[i];
      } else {
        assert old(MirrorAt(nodes, a, si));
      }
    }
  }

  method AttachChild(s: ClassNode, newNode: ClassNode, ghost nodes: seq<ClassNode>, ghost a: Arena, ghost si: nat)
    requires Mirrors(nodes, a) && si < |nodes| && s == nodes[si] && newNode !in nodes
    requires newNode.parent == newNode.child == newNode.sibling == null
    modifies s`child, newNode`parent
    ensures Mirrors(nodes + [newNode], AddChild(a, si, newNode.level))
  {
    ghost var all, b := nodes + [newNode], AddChild(a, si, newNode.level);
    assert forall i :: 0 <= i < |nodes| ==> MirrorAt(nodes, a, i);
    newNode.parent := s;
    s.child := newNode;
    forall i | 0 <= i < |all|
      ensures MirrorAt(all, b, i)
    {
      if i < |nodes| {
        assert old(MirrorAt(nodes, a, i));
        assert b.links[i] == if i == si then a.links[i].(child := |nodes|) else a.links[i];
      }
    }
  }

  /** How the build command can come back; `NullPointer` is the climb reading through NULL. */
  datatype Status = Ok | SiblingError | ChildError | CousinError | NullPointer

  /** The status the pointer code reports for an outcome of the index model. */
  function StatusOf(r: Outcome): Status {
    match r
    case Built(_) => Ok
    case SiblingError => Status.SiblingError
    case ChildError => Status.ChildError
    case CousinError => Status.CousinError
    case NullClimb => NullPointer
  }

  method ClimbTo(last: ClassNode, lvl: int, ghost nodes: seq<ClassNode>, ghost a: Arena)
    returns (s: ClassNode?, ghost si: int)
    requires Mirrors(nodes, a) && |nodes| > 0 && last == nodes[|nodes| - 1]
    ensures NONE <= si < |nodes| && si == Climb(a, |nodes| - 1, lvl) && s == Ptr(nodes, si)
  {
    s, si := last, |nodes| - 1;
    while s != null && s.level > lvl
      invariant NONE <= si < |nodes| && s == Ptr(nodes, si)
      invariant Climb(a, si, lvl) == Climb(a, |nodes| - 1, lvl)
      decreases si
    {
      assert MirrorAt(nodes, a, si);
      s, si := s.parent, a.links[si].parent;
    }
    if s != null {
      assert MirrorAt(nodes, a, si);
    }
  }

  /** The insertion branches of the build loop. */
  method InsertNode(last: ClassNode, newNode: ClassNode, ghost nodes: seq<ClassNode>, ghost a: Arena)
    returns (status: Status)
    requires Mirrors(nodes, a) && |nodes| > 0 && last == nodes[|nodes| - 1] && newNode !in nodes
    requires newNode.parent == newNode.child == newNode.sibling == null
    modifies nodes, newNode
    ensures newNode.level == old(newNode.level)
    ensures var r := Insert(a, newNode.level);
            status == StatusOf(r) && (r.Built? ==> Mirrors(nodes + [newNode], r.arena))
  {
    hide Climb, AddSibling, AddChild;
    assert MirrorAt(nodes, a, |nodes| - 1);
    if last.level == newNode.level {
      if last.sibling != null {
        return Status.SiblingError;
      }
      AttachSibling(last, newNode, nodes, a, |nodes| - 1);
    } else if last.level < newNode.level {
      if last.child != null {
        return Status.ChildError;
      }
      AttachChild(last, newNode, nodes, a, |nodes| - 1);
    } else {
      var s;
      ghost var si;
      s, si := ClimbTo(last, newNode.level, nodes, a);
      if s == null {
        return NullPointer;
      }
      assert MirrorAt(nodes, a, si);
      if s.sibling != null {
        return Status.CousinError;
      }
      AttachSibling(s, newNode, nodes, a, si);
    }
    status := Ok;
  }

  lemma {:induction false} BuildStuck(levels: seq<int>, j: nat)
    requires j <= |levels| && !Build(levels[..j]).Built?
    ensures Build(levels) == Build(levels[..j])
  {
    if j == |levels| {
      assert levels[..j] == levels;
    } else {
      var shorter := levels[..|levels| - 1];
      assert shorter[..j] == levels[..j] && levels == shorter + [levels[|levels| - 1]];
      BuildStuck(shorter, j);
      BuildUnfolds(shorter, levels[|levels| - 1]);
    }
  }

  lemma BuildPrefix(levels: seq<int>, j: nat)
    requires j < |levels|
    ensures Build(levels[..j]).Built? ==> Build(levels[..j + 1]) == Insert(Build(levels[..j]).arena, levels[j])
  {
    hide *;
    assert levels[..j + 1] == levels[..j] + [levels[j]];
    BuildUnfolds(levels[..j], levels[j]);
  }

  /**
   * The build loop: one node per line, in file order, linked after the last one. The root is
   * global and kept between calls, the last node is not: with a tree already there, the
   * first line reads the level of no node.
   */
  method BuildTree(lccroot: ClassNode?, entries: seq<Entry>)
    returns (root: ClassNode?, status: Status, ghost nodes: seq<ClassNode>)
    ensures status == Ok || status == NullPointer
    ensures lccroot == null ==> status == StatusOf(Build(Levels(entries)))
    ensures lccroot == null && status == Ok ==>
              && Mirrors(nodes, Build(Levels(entries)).arena) && root == Ptr(nodes, 0)
              && |nodes| == |entries| && forall i :: 0 <= i < |nodes| ==> nodes[i].entry == entries[i]
    ensures lccroot != null ==> root == lccroot && status == if entries == [] then Ok else NullPointer
  {
    hide Insert, Build, Mirrors, StatusOf;
    ghost var levels := Levels(entries);
    ghost var a := Arena([], []);
    OkOrNull(levels);
    root, nodes := lccroot, [];
    EmptyMirrors();
    var last: ClassNode? := null;
    var j := 0;
    while j < |entries|
      invariant 0 <= j <= |entries| && |nodes| == j && fresh(nodes)
      invariant Build(levels[..j]) == Built(a) && Mirrors(nodes, a)
      invariant last == Ptr(nodes, j - 1)
      invariant if lccroot == null then root == Ptr(nodes, 0) else root == lccroot && j == 0
      invariant forall i :: 0 <= i < j ==> nodes[i].entry == entries[i]
    {
      var newNode := new ClassNode(entries[j]);
      BuildPrefix(levels, j);
      if root == null {
        FirstMirrors(newNode, a);
        root := newNode;
      } else if last == null {
        return root, NullPointer, nodes;
      } else {
        status := InsertNode(last, newNode, nodes, a);
        if status != Ok {
          BuildStuck(levels, j + 1);
          return;
        }
      }
      a := Insert(a, levels[j]).arena;
      nodes := nodes + [newNode];
      last := newNode;
      j := j + 1;
    }
    assert levels[..j] == levels;
    status := Ok;
  }

  lemma OkOrNull(levels: seq<int>)
    ensures StatusOf(Build(levels)) == Ok || StatusOf(Build(levels)) == NullPointer
    ensures forall r: Outcome :: StatusOf(r) == Ok <==> r.Built?
  {
    hide Build, Follow, Grown;
    var e, path := BuildGrows(levels);
  }

  lemma EmptyMirrors()
    ensures Mirrors([], Arena([], [])) && Build([]) == Built(Arena([], []))
  {
  }

  lemma FirstMirrors(n: ClassNode, a: Arena)
    requires a == Arena([], []) && n.parent == n.child == n.sibling == null
    ensures Insert(a, n.level).Built? && Mirrors([] + [n], Insert(a, n.level).arena)
  {
  }

  // ------------------------------------------------------------------------- look-up

  /** `strcasecmp`, up to the sign of its result. */
  function CaseCompare(a: string, b: string): (r: int) {
    if a == [] && b == [] then 0
    else if a == [] then -1
    else if b == [] then 1
    else if LowerCase(a[0]) < LowerCase(b[0]) then -1
    else if LowerCase(a[0]) > LowerCase(b[0]) then 1
    else CaseCompare(a[1..], b[1..])
  }

  /** `lcc_inrange`: letters within the node's letters and, for a numeric node, the number too. */
  predicate InRange(e: Entry, alpha: string, num: real) {
    && CaseCompare(alpha, e.cmin) >= 0
    && CaseCompare(alpha, e.cmax) <= 0
    && (Lettered(e) || e.fmin <= num <= e.fmax)
  }

  lemma {:induction false} CaseCompareTransitive(a: string, b: string, c: string)
    requires CaseCompare(a, b) <= 0 && CaseCompare(b, c) <= 0
    ensures CaseCompare(a, c) <= 0
    ensures CaseCompare(a, b) < 0 || CaseCompare(b, c) < 0 ==> CaseCompare(a, c) < 0
  {
    hide LowerCase;
    if a != [] && b != [] && c != [] && LowerCase(a[0]) == LowerCase(b[0]) == LowerCase(c[0]) {
      CaseCompareTransitive(a[1..], b[1..], c[1..]);
    }
  }

  lemma {:induction false} CaseCompareFlips(a: string, b: string)
    ensures CaseCompare(b, a) == -CaseCompare(a, b)
  {
    hide LowerCase;
    if a != [] && b != [] && LowerCase(a[0]) == LowerCase(b[0]) {
      CaseCompareFlips(a[1..], b[1..]);
    }
  }

  predicate Lettered(e: Entry) {
    e.kind.CSingle? || e.kind.CRange?
  }

  /** The range of e lies inside the range of p. */
  predicate Within(e: Entry, p: Entry) {
    && CaseCompare(p.cmin, e.cmin) <= 0 && CaseCompare(e.cmax, p.cmax) <= 0
    && (Lettered(p) || (!Lettered(e) && p.fmin <= e.fmin && e.fmax <= p.fmax))
  }

  /** The ranges of a and b have no class number in common. */
  predicate Apart(a: Entry, b: Entry) {
    || CaseCompare(a.cmax, b.cmin) < 0
    || CaseCompare(b.cmax, a.cmin) < 0
    || (!Lettered(a) && !Lettered(b) && (a.fmax < b.fmin || b.fmax < a.fmin))
  }

  lemma WithinMatches(e: Entry, p: Entry, alpha: string, num: real)
    requires Within(e, p) && InRange(e, alpha, num)
    ensures InRange(p, alpha, num)
  {
    hide CaseCompare;
    CaseCompareFlips(alpha, e.cmin);
    CaseCompareFlips(alpha, p.cmin);
    CaseCompareTransitive(p.cmin, e.cmin, alpha);
    CaseCompareTransitive(alpha, e.cmax, p.cmax);
  }

  lemma ApartExcludes(a: Entry, b: Entry, alpha: string, num: real)
    requires Apart(a, b)
    ensures !InRange(a, alpha, num) || !InRange(b, alpha, num)
  {
    hide CaseCompare;
    if InRange(a, alpha, num) && InRange(b, alpha, num) {
      CaseCompareFlips(alpha, a.cmin);
      CaseCompareFlips(alpha, b.cmin);
      CaseCompareTransitive(b.cmin, alpha, a.cmax);
      CaseCompareTransitive(a.cmin, alpha, b.cmax);
      CaseCompareFlips(b.cmin, a.cmax);
      CaseCompareFlips(a.cmin, b.cmax);
    }
  }

  /** An outline whose ranges nest as its lines do, and whose siblings' ranges are apart. */
  ghost predicate Orderly(entries: seq<Entry>, a: Arena)
    requires a.Linked() && a.Size() == |entries|
  {
    && (forall i :: 0 <= i < |entries| && a.links[i].parent != NONE ==> Within(entries[i], entries[a.links[i].parent]))
    && (forall i, j :: 0 <= i < j < |entries| && a.links[i].parent == a.links[j].parent ==>
          Apart(entries[i], entries[j]))
  }

  /** On an orderly outline the look-up finds all matching lines, whatever the class number. */
  lemma OrderlyFindsAll(entries: seq<Entry>, a: Arena, e: seq<int>, alpha: string, num: real)
    requires Shaped(a, e) && a.Size() == |entries| > 0 && Orderly(entries, a)
    ensures var hit := Hits(entries, alpha, num); Walk(a, hit, 0) == Matches(hit, 0, |hit|)
  {
    hide Within, Apart, InRange, Walk, Matches, NodeShaped;
    var hit := Hits(entries, alpha, num);
    forall i | 0 <= i < |hit| && hit[i] && a.links[i].parent != NONE
      ensures hit[a.links[i].parent]
    {
      WithinMatches(entries[i], entries[a.links[i].parent], alpha, num);
    }
    forall i, j | 0 <= i < j < |hit| && hit[i] && hit[j]
      ensures a.links[i].parent != a.links[j].parent
    {
      if a.links[i].parent == a.links[j].parent {
        ApartExcludes(entries[i], entries[j], alpha, num);
      }
    }
    WalkCompleteIff(a, e, hit);
  }

  function Hits(entries: seq<Entry>, alpha: string, num: real): (r: seq<bool>)
    ensures |r| == |entries| && forall i :: 0 <= i < |r| ==> r[i] == InRange(entries[i], alpha, num)
  {
    seq(|entries|, i requires 0 <= i < |entries| => InRange(entries[i], alpha, num))
  }

  function Describe(entries: seq<Entry>, g: seq<int>): (r: string)
    requires forall k :: 0 <= k < |g| ==> 0 <= g[k] < |entries|
  {
    if g == [] then [] else "*" + entries[g[0]].desc + Describe(entries, g[1..])
  }

  lemma {:induction false} WalkInside(a: Arena, hit: seq<bool>, i: int)
    requires a.Linked() && |hit| == a.Size() && NONE <= i < a.Size()
    ensures forall k :: 0 <= k < |Walk(a, hit, i)| ==> 0 <= Walk(a, hit, i)[k] < |hit|
    decreases if i == NONE then 0 else a.Size() - i
  {
    if i != NONE {
      WalkInside(a, hit, if hit[i] then a.links[i].child else a.links[i].sibling);
    }
  }

  /** The ghost side of a built tree: its nodes carry the lines, its pointers the shape. */
  ghost predicate TreeOf(entries: seq<Entry>, nodes: seq<ClassNode>, a: Arena)
    reads nodes
  {
    && Mirrors(nodes, a) && |nodes| == |entries|
    && forall i :: 0 <= i < |nodes| ==> nodes[i].entry == entries[i]
  }

  lemma DescribeStep(
      entries: seq<Entry>, nodes: seq<ClassNode>, a: Arena, i: int, alpha: string, num: real, buffer: string)
    requires TreeOf(entries, nodes, a) && 0 <= i < |nodes| && InRange(entries[i], alpha, num)
    ensures var hit := Hits(entries, alpha, num);
            var down := Walk(a, hit, a.links[i].child);
            && Walk(a, hit, i) == [i] + down
            && (forall k :: 0 <= k < |down| ==> 0 <= down[k] < |entries|)
            && (forall k :: 0 <= k < |[i] + down| ==> 0 <= ([i] + down)[k] < |entries|)
            && buffer + Describe(entries, [i] + down) == buffer + "*" + entries[i].desc + Describe(entries, down)
  {
    var hit := Hits(entries, alpha, num);
    var down := Walk(a, hit, a.links[i].child);
    WalkInside(a, hit, a.links[i].child);
    assert ([i] + down)[1..] == down;
  }

  /** `lcc_getdesc` from the node at index i: what it appends is the description of the walk. */
  method GetDesc(buffer: string, node: ClassNode?, alpha: string, num: real,
                 ghost entries: seq<Entry>, ghost nodes: seq<ClassNode>, ghost a: Arena, ghost i: int)
    returns (text: string)
    requires TreeOf(entries, nodes, a) && NONE <= i < |nodes| && node == Ptr(nodes, i)
    ensures var g := Walk(a, Hits(entries, alpha, num), i);
            && (forall k :: 0 <= k < |g| ==> 0 <= g[k] < |entries|)
            && text == buffer + Describe(entries, g)
    decreases if i == NONE then 0 else |nodes| - i
  {
    hide Hits, InRange, Describe;
    ghost var hit := Hits(entries, alpha, num);
    if node == null {
      DescribeNothing(entries, a, hit, buffer);
      return buffer;
    }
    assert MirrorAt(nodes, a, i);
    if InRange(node.entry, alpha, num) {
      DescribeStep(entries, nodes, a, i, alpha, num, buffer);
      text := GetDesc(buffer + "*" + node.entry.desc, node.child, alpha, num, entries, nodes, a, a.links[i].child);
    } else {
      text := GetDesc(buffer, node.sibling, alpha, num, entries, nodes, a, a.links[i].sibling);
    }
  }

  lemma DescribeNothing(entries: seq<Entry>, a: Arena, hit: seq<bool>, buffer: string)
    requires a.Linked() && |hit| == a.Size()
    ensures Walk(a, hit, NONE) == [] && buffer + Describe(entries, []) == buffer
  {
  }

  lemma {:induction false} MatchesInside(hit: seq<bool>, lo: int, hi: int)
    requires 0 <= lo <= hi <= |hit|
    ensures forall k :: 0 <= k < |Matches(hit, lo, hi)| ==> 0 <= Matches(hit, lo, hi)[k] < |hit|
    decreases hi - lo
  {
    if lo < hi {
      MatchesInside(hit, lo + 1, hi);
    }
  }

  /** Building the tree of an outline and looking a class number up in it. */
  method LookUp(entries: seq<Entry>, alpha: string, num: real) returns (status: Status, text: string)
    ensures status == Ok <==> Follow(Levels(entries)).Open?
    ensures status == Ok ==> Build(Levels(entries)).Built?
    ensures entries == [] ==> text == ""
    ensures status == Ok && entries != [] ==>
              var a, hit := Build(Levels(entries)).arena, Hits(entries, alpha, num);
              var g, all := Walk(a, hit, 0), Matches(hit, 0, |hit|);
              && (forall k :: 0 <= k < |all| ==> 0 <= all[k] < |entries|)
              && (forall k :: 0 <= k < |g| ==> 0 <= g[k] < |entries|)
              && ChainFrom(a, hit, 0, g)
              && text == Describe(entries, g)
              && (g == all <==> OneSibling(a, hit) && Narrowing(a, hit))
  {
    hide Build, Follow, Levels, Hits, Walk, Matches, Describe, Mirrors, TreeOf, Grown, Shaped, ChainFrom, StatusOf;
    var root;
    ghost var nodes, path, e;
    root, status, nodes := BuildTree(null, entries);
    text := "";
    e, path := BuildGrows(Levels(entries));
    path := BuildRoundTrip(Levels(entries));
    StatusIs(Build(Levels(entries)));
    if status == Ok && entries != [] {
      ghost var a, hit := Build(Levels(entries)).arena, Hits(entries, alpha, num);
      UseGrown(a, e, Levels(entries), entries, nodes);
      text := GetDesc("", root, alpha, num, entries, nodes, a, 0);
      MatchesInside(hit, 0, |hit|);
      WalkIsChain(a, e, hit, 0);
      WalkCompleteIff(a, e, hit);
    }
  }

  lemma StatusIs(r: Outcome)
    ensures StatusOf(r) == Ok <==> r.Built?
  {
  }

  lemma UseGrown(a: Arena, e: seq<int>, levels: seq<int>, entries: seq<Entry>, nodes: seq<ClassNode>)
    requires Mirrors(nodes, a) && |nodes| == |entries| && forall i :: 0 <= i < |nodes| ==> nodes[i].entry == entries[i]
    requires exists p :: Grown(a, e, p, Follow(levels))
    ensures Shaped(a, e) && a.Size() == |entries| && TreeOf(entries, nodes, a)
  {
  }
}
