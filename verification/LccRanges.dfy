/**
 * What the range test of the class search means (`lcc_inrange`, cheshire2/lcctree.c:254-274):
 * the order it compares letters by, which class numbers a range holds, and what a look-up says.
 */
module LccRanges {
  import opened Basics
  import opened LccShape
  import opened LccSearch
  import opened LccTree

  // ------------------------------------------------------------------- the order of letters

  ghost predicate SameUpToCase(a: string, b: string) {
    |a| == |b| && forall i :: 0 <= i < |a| ==> LowerCase(a[i]) == LowerCase(b[i])
  }

  /** At k the strings part: a ends there or has the smaller letter. */
  ghost predicate PrecedesAt(a: string, b: string, k: nat) {
    && k <= |a| && k < |b|
    && (k == |a| || LowerCase(a[k]) < LowerCase(b[k]))
    && forall i :: 0 <= i < k ==> LowerCase(a[i]) == LowerCase(b[i])
  }

  ghost predicate Precedes(a: string, b: string) {
    exists k: nat :: PrecedesAt(a, b, k)
  }

  /** 0 exactly for strings equal up to case; negative exactly for one that comes first. */
  lemma {:induction false} CompareMeans(a: string, b: string)
    ensures CaseCompare(a, b) == 0 <==> SameUpToCase(a, b)
    ensures CaseCompare(a, b) < 0 <==> Precedes(a, b)
    ensures CaseCompare(a, b) > 0 <==> Precedes(b, a)
  {
    hide LowerCase;
    if a == [] {
      if b != [] {
        assert PrecedesAt(a, b, 0);
      }
    } else if b == [] {
      assert PrecedesAt(b, a, 0);
    } else if LowerCase(a[0]) < LowerCase(b[0]) {
      assert PrecedesAt(a, b, 0);
    } else if LowerCase(a[0]) > LowerCase(b[0]) {
      assert PrecedesAt(b, a, 0);
    } else {
      CompareMeans(a[1..], b[1..]);
      SameTail(a, b);
      PrecedesTail(a, b);
      PrecedesTail(b, a);
    }
  }

  lemma SameTail(a: string, b: string)
    requires a != [] && b != [] && LowerCase(a[0]) == LowerCase(b[0])
    ensures SameUpToCase(a, b) <==> SameUpToCase(a[1..], b[1..])
  {
    hide LowerCase;
    if SameUpToCase(a[1..], b[1..]) {
      forall i | 0 <= i < |a|
        ensures LowerCase(a[i]) == LowerCase(b[i])
      {
        if i > 0 {
          assert a[i] == a[1..][i - 1] && b[i] == b[1..][i - 1];
        }
      }
    }
  }

  lemma PrecedesTail(a: string, b: string)
    requires a != [] && b != [] && LowerCase(a[0]) == LowerCase(b[0])
    ensures Precedes(a, b) <==> Precedes(a[1..], b[1..])
  {
    hide LowerCase;
    if k: nat :| PrecedesAt(a, b, k) {
      assert PrecedesAt(a[1..], b[1..], k - 1);
    }
    if k: nat :| PrecedesAt(a[1..], b[1..], k) {
      forall i | 0 <= i < k + 1
        ensures LowerCase(a[i]) == LowerCase(b[i])
      {
        if i > 0 {
          assert a[i] == a[1..][i - 1] && b[i] == b[1..][i - 1];
        }
      }
      assert PrecedesAt(a, b, k + 1);
    }
  }

  // ------------------------------------------------------------------------- what ranges hold

  /** The bounds of the range are in order. */
  predicate Ordered(e: Entry) {
    CaseCompare(e.cmin, e.cmax) <= 0 && (Lettered(e) || e.fmin <= e.fmax)
  }

  lemma CompareItself(a: string)
    ensures CaseCompare(a, a) == 0
  {
    CompareMeans(a, a);
  }

  /** A range holds both of its bounds, in either case; single classes hold themselves. */
  lemma BoundsMatch(e: Entry, alpha: string)
    requires Ordered(e) && (SameUpToCase(alpha, e.cmin) || SameUpToCase(alpha, e.cmax))
    ensures InRange(e, alpha, e.fmin) && InRange(e, alpha, e.fmax)
  {
    hide CaseCompare;
    CompareMeans(alpha, e.cmin);
    CompareMeans(alpha, e.cmax);
    CompareItself(alpha);
    CaseCompareFlips(alpha, e.cmin);
    CaseCompareFlips(alpha, e.cmax);
    if SameUpToCase(alpha, e.cmin) {
      CaseCompareTransitive(alpha, e.cmin, e.cmax);
    } else {
      CaseCompareTransitive(e.cmin, e.cmax, alpha);
    }
  }

  lemma OwnBoundsMatch(e: Entry)
    requires Ordered(e)
    ensures InRange(e, e.cmin, e.fmin) && InRange(e, e.cmin, e.fmax)
    ensures InRange(e, e.cmax, e.fmin) && InRange(e, e.cmax, e.fmax)
  {
    hide CaseCompare, InRange;
    BoundsMatch(e, e.cmin);
    BoundsMatch(e, e.cmax);
  }

  /** One range lies in another if and only if the other holds all its class numbers. */
  lemma WithinIff(e: Entry, p: Entry)
    requires Ordered(e)
    ensures Within(e, p) <==> forall alpha, num :: InRange(e, alpha, num) ==> InRange(p, alpha, num)
  {
    hide CaseCompare;
    if Within(e, p) {
      forall alpha, num | InRange(e, alpha, num)
        ensures InRange(p, alpha, num)
      {
        WithinMatches(e, p, alpha, num);
      }
    }
    if forall alpha, num :: InRange(e, alpha, num) ==> InRange(p, alpha, num) {
      OwnBoundsMatch(e);
      CaseCompareFlips(e.cmin, p.cmin);
      assert InRange(p, e.cmin, e.fmin) && InRange(p, e.cmax, e.fmax);
      if Lettered(e) {
        assert InRange(e, e.cmin, p.fmax + 1.0);
      }
    }
  }

  /** Two ranges are apart if and only if they have no class number in common. */
  lemma ApartIff(a: Entry, b: Entry)
    requires Ordered(a) && Ordered(b)
    ensures Apart(a, b) <==> forall alpha, num :: !(InRange(a, alpha, num) && InRange(b, alpha, num))
  {
    hide CaseCompare;
    if Apart(a, b) {
      forall alpha, num
        ensures !(InRange(a, alpha, num) && InRange(b, alpha, num))
      {
        ApartExcludes(a, b, alpha, num);
      }
    } else {
      var alpha, num := CommonNumber(a, b);
      assert InRange(a, alpha, num) && InRange(b, alpha, num);
    }
  }

  lemma CommonNumber(a: Entry, b: Entry) returns (alpha: string, num: real)
    requires Ordered(a) && Ordered(b) && !Apart(a, b)
    ensures InRange(a, alpha, num) && InRange(b, alpha, num)
  {
    hide CaseCompare;
    CaseCompareFlips(a.cmin, b.cmin);
    CaseCompareFlips(b.cmin, a.cmax);
    CaseCompareFlips(a.cmin, b.cmax);
    CompareItself(a.cmin);
    CompareItself(b.cmin);
    alpha := if CaseCompare(a.cmin, b.cmin) >= 0 then a.cmin else b.cmin;
    num := if Lettered(a) then b.fmin else if Lettered(b) || a.fmin >= b.fmin then a.fmin else b.fmin;
  }

  // ------------------------------------------------------------------------ what is written

  function DescsOf(entries: seq<Entry>, g: seq<int>): (r: seq<string>)
    requires forall k :: 0 <= k < |g| ==> 0 <= g[k] < |entries|
    ensures |r| == |g| && forall k :: 0 <= k < |g| ==> r[k] == entries[g[k]].desc
  {
    seq(|g|, k requires 0 <= k < |g| => entries[g[k]].desc)
  }

  /** The text of a look-up, cut at its stars, is nothing and then the descriptions in order. */
  lemma {:induction false} DescribeReads(entries: seq<Entry>, g: seq<int>)
    requires forall k :: 0 <= k < |g| ==> 0 <= g[k] < |entries|
    requires forall i :: 0 <= i < |entries| ==> '*' !in entries[i].desc
    ensures Pieces(Describe(entries, g), '*') == [""] + DescsOf(entries, g)
    decreases |g|
  {
    hide Pieces, Describe;
    DescribeFirst(entries, g);
    if g == [] {
      PiecesWhole("", '*');
    } else {
      var d, rest := entries[g[0]].desc, Describe(entries, g[1..]);
      DescribeReads(entries, g[1..]);
      DescribeFirst(entries, g[1..]);
      PiecesJoin("", '*', d + rest);
      PiecesStop(d, '*', rest);
      Listed(entries, g);
    }
  }

  lemma DescribeFirst(entries: seq<Entry>, g: seq<int>)
    requires forall k :: 0 <= k < |g| ==> 0 <= g[k] < |entries|
    ensures g == [] ==> Describe(entries, g) == ""
    ensures g != [] ==>
              && Describe(entries, g) == "" + (['*'] + (entries[g[0]].desc + Describe(entries, g[1..])))
              && Describe(entries, g)[0] == '*'
  {
  }

  lemma Listed(entries: seq<Entry>, g: seq<int>)
    requires g != [] && forall k :: 0 <= k < |g| ==> 0 <= g[k] < |entries|
    ensures DescsOf(entries, g) == [entries[g[0]].desc] + DescsOf(entries, g[1..])
    ensures forall r: seq<string> :: [""] + ([entries[g[0]].desc] + r) == [""] + [entries[g[0]].desc] + r
  {
  }

  /** A level is the number of tabs as long as that fits a signed char, and wraps around by 256. */
  lemma LevelMeans(e: Entry)
    ensures -128 <= e.Level() < 128 && (e.tabs - e.Level()) % 256 == 0
    ensures e.tabs < 128 <==> e.Level() == e.tabs
  {
  }
}
