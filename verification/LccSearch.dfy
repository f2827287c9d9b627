/**
 * Looking a class number up in the tree (cheshire2/lcctree.c:254-303): a walk that goes
 * down at a match, sideways otherwise, and never comes back.
 */
module LccSearch {
  import opened LccShape

  /** The walk of `lcc_getdesc`, over any verdict on which nodes match. */
  function Walk(a: Arena, hit: seq<bool>, i: int): (r: seq<int>)
    requires a.Linked() && |hit| == a.Size() && NONE <= i < a.Size()
    decreases if i == NONE then 0 else a.Size() - i
  {
    if i == NONE then []
    else if hit[i] then [i] + Walk(a, hit, a.links[i].child)
    else Walk(a, hit, a.links[i].sibling)
  }

  /** Every matching node of lines `lo` up to but not including `hi`, in file order. */
  function Matches(hit: seq<bool>, lo: int, hi: int): (r: seq<int>)
    requires 0 <= lo <= hi <= |hit|
    decreases hi - lo
  {
    if lo < hi then (if hit[lo] then [lo] else []) + Matches(hit, lo + 1, hi) else []
  }

  lemma {:induction false} MatchesSplit(hit: seq<bool>, lo: int, mid: int, hi: int)
    requires 0 <= lo <= mid <= hi <= |hit|
    ensures Matches(hit, lo, hi) == Matches(hit, lo, mid) + Matches(hit, mid, hi)
    decreases mid - lo
  {
    if lo < mid {
      MatchesSplit(hit, lo + 1, mid, hi);
    } else {
      assert Matches(hit, lo, mid) + Matches(hit, mid, hi) == Matches(hit, lo, hi);
    }
  }

  lemma {:induction false} MatchesHolds(hit: seq<bool>, lo: int, hi: int, x: int)
    requires 0 <= lo <= hi <= |hit|
    ensures x in Matches(hit, lo, hi) <==> lo <= x < hi && hit[x]
    decreases hi - lo
  {
    if lo < hi {
      MatchesHolds(hit, lo + 1, hi, x);
    }
  }

  lemma {:induction false} NoMatches(hit: seq<bool>, lo: int, hi: int)
    requires 0 <= lo <= hi <= |hit| && forall d :: lo <= d < hi ==> !hit[d]
    ensures Matches(hit, lo, hi) == []
    decreases hi - lo
  {
    if lo < hi {
      NoMatches(hit, lo + 1, hi);
    }
  }

  /** No two nodes under one parent both match. */
  ghost predicate OneSibling(a: Arena, hit: seq<bool>)
    requires a.Linked() && |hit| == a.Size()
  {
    forall i, j :: 0 <= i < j < a.Size() && hit[i] && hit[j] ==> a.links[i].parent != a.links[j].parent
  }

  /** A node matches only if its parent does. */
  ghost predicate Narrowing(a: Arena, hit: seq<bool>)
    requires a.Linked() && |hit| == a.Size()
  {
    forall i :: 0 <= i < a.Size() && hit[i] && a.links[i].parent != NONE ==> hit[a.links[i].parent]
  }

  lemma {:induction false} SilentBelow(a: Arena, e: seq<int>, hit: seq<bool>, i: nat, d: int)
    requires Shaped(a, e) && |hit| == a.Size() && Narrowing(a, hit) && i < a.Size() && !hit[i]
    requires NodeShaped(a, e, i) && i < d < SubEnd(a, e, i)
    ensures !hit[d]
    decreases d
  {
    var p := a.links[d].parent;
    if p > i {
      SilentBelow(a, e, hit, i, p);
    }
  }

  lemma SilentSubtree(a: Arena, e: seq<int>, hit: seq<bool>, i: nat)
    requires Shaped(a, e) && |hit| == a.Size() && Narrowing(a, hit) && i < a.Size() && !hit[i]
    ensures NodeShaped(a, e, i) && Matches(hit, i, SubEnd(a, e, i)) == []
  {
    hide Matches;
    assert NodeShaped(a, e, i);
    forall d | i <= d < SubEnd(a, e, i)
      ensures !hit[d]
    {
      if i < d {
        SilentBelow(a, e, hit, i, d);
      }
    }
    NoMatches(hit, i, SubEnd(a, e, i));
  }

  /** After a match, the rest of its sibling list is silent, subtrees included. */
  lemma {:induction false} SilentSiblings(a: Arena, e: seq<int>, hit: seq<bool>, i: nat, s: nat)
    requires Shaped(a, e) && |hit| == a.Size() && Narrowing(a, hit) && OneSibling(a, hit)
    requires i < s < a.Size() && hit[i] && a.links[i].parent == a.links[s].parent
    ensures s < e[s] <= |hit| && Matches(hit, s, e[s]) == []
    decreases a.Size() - s
  {
    hide Matches;
    SilentSubtree(a, e, hit, s);
    var t := a.links[s].sibling;
    if t != NONE {
      SilentSiblings(a, e, hit, i, t);
      MatchesSplit(hit, s, t, e[s]);
    }
  }

  /** Under the two assumptions the walk misses nothing. */
  lemma {:induction false} WalkFindsAll(a: Arena, e: seq<int>, hit: seq<bool>, i: nat)
    requires Shaped(a, e) && |hit| == a.Size() && Narrowing(a, hit) && OneSibling(a, hit) && i < a.Size()
    ensures i < e[i] <= |hit| && Walk(a, hit, i) == Matches(hit, i, e[i])
    decreases a.Size() - i
  {
    hide Matches, Narrowing, OneSibling;
    assert NodeShaped(a, e, i);
    var l, s := a.links[i], SubEnd(a, e, i);
    if l.sibling != NONE {
      assert NodeShaped(a, e, l.sibling);
    }
    MatchesSplit(hit, i, s, e[i]);
    if hit[i] {
      MatchesStep(hit, i, s);
      if l.child != NONE {
        WalkFindsAll(a, e, hit, i + 1);
      }
      if l.sibling != NONE {
        SilentSiblings(a, e, hit, i, l.sibling);
      }
    } else {
      SilentSubtree(a, e, hit, i);
      if l.sibling != NONE {
        WalkFindsAll(a, e, hit, l.sibling);
      }
    }
  }

  lemma MatchesStep(hit: seq<bool>, lo: int, hi: int)
    requires 0 <= lo < hi <= |hit| && hit[lo]
    ensures Matches(hit, lo, hi) == [lo] + Matches(hit, lo + 1, hi)
    ensures Matches(hit, hi, hi) == []
  {
  }

  /** Without any assumption: each node found is the first match among its siblings from i on. */
  ghost predicate FirstOfSiblings(a: Arena, hit: seq<bool>, i: int, g: seq<int>, k: nat)
    requires a.Linked() && |hit| == a.Size() && k < |g| && 0 <= i < a.Size()
  {
    && i <= g[k] < a.Size() && hit[g[k]]
    && (0 < k ==> g[k - 1] < g[k] && a.links[g[k]].parent == g[k - 1])
    && (k == 0 ==> a.links[g[0]].parent == a.links[i].parent)
    && forall d :: i <= d < g[k] && a.links[d].parent == a.links[g[k]].parent ==> !hit[d]
  }

  ghost predicate ChainFrom(a: Arena, hit: seq<bool>, i: int, g: seq<int>)
    requires a.Linked() && |hit| == a.Size() && 0 <= i < a.Size()
  {
    forall k :: 0 <= k < |g| ==> FirstOfSiblings(a, hit, i, g, k)
  }

  lemma DownOne(a: Arena, e: seq<int>, hit: seq<bool>, i: nat, h: seq<int>)
    requires Shaped(a, e) && |hit| == a.Size() && i + 1 < a.Size() && hit[i] && a.links[i + 1].parent == i
    requires ChainFrom(a, hit, i + 1, h)
    ensures ChainFrom(a, hit, i, [i] + h)
  {
    hide NodeShaped;
    var g := [i] + h;
    forall k | 0 <= k < |g|
      ensures FirstOfSiblings(a, hit, i, g, k)
    {
      if k > 0 {
        assert FirstOfSiblings(a, hit, i + 1, h, k - 1);
        if k > 1 {
          assert FirstOfSiblings(a, hit, i + 1, h, k - 2);
        }
      }
    }
  }

  lemma Sideways(a: Arena, e: seq<int>, hit: seq<bool>, i: nat, g: seq<int>)
    requires Shaped(a, e) && |hit| == a.Size() && i < a.Size() && !hit[i] && a.links[i].sibling != NONE
    requires ChainFrom(a, hit, a.links[i].sibling, g)
    ensures ChainFrom(a, hit, i, g)
  {
    assert NodeShaped(a, e, i);
    var s := a.links[i].sibling;
    forall k | 0 <= k < |g|
      ensures FirstOfSiblings(a, hit, i, g, k)
    {
      assert FirstOfSiblings(a, hit, s, g, k);
      if k > 0 {
        assert FirstOfSiblings(a, hit, s, g, k - 1);
      }
    }
  }

  /**
   * In every tree and for every verdict the walk ends and returns one way down: matching
   * nodes, each the child of the one before and the first match in its sibling list.
   */
  lemma {:induction false} WalkIsChain(a: Arena, e: seq<int>, hit: seq<bool>, i: nat)
    requires Shaped(a, e) && |hit| == a.Size() && i < a.Size()
    ensures ChainFrom(a, hit, i, Walk(a, hit, i))
    decreases a.Size() - i
  {
    hide FirstOfSiblings;
    assert NodeShaped(a, e, i);
    var l := a.links[i];
    if hit[i] {
      if l.child != NONE {
        WalkIsChain(a, e, hit, i + 1);
        DownOne(a, e, hit, i, Walk(a, hit, i + 1));
      } else {
        assert Walk(a, hit, i) == [i];
        Alone(a, hit, i);
      }
    } else if l.sibling != NONE {
      WalkIsChain(a, e, hit, l.sibling);
      Sideways(a, e, hit, i, Walk(a, hit, l.sibling));
    }
  }

  lemma Alone(a: Arena, hit: seq<bool>, i: nat)
    requires a.Linked() && |hit| == a.Size() && i < a.Size() && hit[i]
    ensures FirstOfSiblings(a, hit, i, [i], 0)
  {
  }

  /** Conversely, a complete walk shows that siblings exclude each other... */
  lemma CompleteMeansOneSibling(a: Arena, hit: seq<bool>, g: seq<int>, i: nat, j: nat)
    requires a.Linked() && |hit| == a.Size() && i < j < a.Size() && i in g && j in g
    requires ChainFrom(a, hit, 0, g)
    ensures a.links[i].parent != a.links[j].parent
  {
    var u :| 0 <= u < |g| && g[u] == i;
    assert FirstOfSiblings(a, hit, 0, g, u);
    var v :| 0 <= v < |g| && g[v] == j;
    assert FirstOfSiblings(a, hit, 0, g, v);
  }

  /** ... and that a match below needs a match above. */
  lemma CompleteMeansNarrowing(a: Arena, e: seq<int>, hit: seq<bool>, g: seq<int>, i: nat)
    requires Shaped(a, e) && |hit| == a.Size() && i < a.Size() && i in g && a.links[i].parent != NONE
    requires ChainFrom(a, hit, 0, g)
    ensures hit[a.links[i].parent]
  {
    var u :| 0 <= u < |g| && g[u] == i;
    assert FirstOfSiblings(a, hit, 0, g, u);
    if u > 0 {
      assert FirstOfSiblings(a, hit, 0, g, u - 1);
    }
  }

  /**
   * The non-backtracking walk returns all matching nodes in outline order if and only if
   * siblings exclude each other and a match below needs a match above.
   */
  lemma WalkCompleteIff(a: Arena, e: seq<int>, hit: seq<bool>)
    requires Shaped(a, e) && |hit| == a.Size() > 0
    ensures Walk(a, hit, 0) == Matches(hit, 0, |hit|) <==> OneSibling(a, hit) && Narrowing(a, hit)
  {
    hide Walk, Matches, NodeShaped, ChainFrom;
    if OneSibling(a, hit) && Narrowing(a, hit) {
      WalkFindsAll(a, e, hit, 0);
    }
    var g := Walk(a, hit, 0);
    if g == Matches(hit, 0, |hit|) {
      WalkIsChain(a, e, hit, 0);
      forall i, j | 0 <= i < j < a.Size() && hit[i] && hit[j]
        ensures a.links[i].parent != a.links[j].parent
      {
        MatchesHolds(hit, 0, |hit|, i);
        MatchesHolds(hit, 0, |hit|, j);
        CompleteMeansOneSibling(a, hit, g, i, j);
      }
      forall i | 0 <= i < a.Size() && hit[i] && a.links[i].parent != NONE
        ensures hit[a.links[i].parent]
      {
        MatchesHolds(hit, 0, |hit|, i);
        CompleteMeansNarrowing(a, e, hit, g, i);
      }
    }
  }
}
