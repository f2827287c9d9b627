/**
 * What later passes of the highlighter do to the strings earlier ones inserted
 * (cheshire2/z_highlight.c:329-386): every pass scans the inserted copies along with the data.
 * A mask beside the text says which characters were inserted.
 */
module HighlightCopies {
  import opened Basics
  import opened Highlight
  import opened HighlightFacts
  import opened HighlightCommand

  const OWN: char := '.'
  const PUT: char := '#'

  function Run(c: char, n: nat): (r: string)
    ensures |r| == n && forall i :: 0 <= i < n ==> r[i] == c
  {
    seq(n, _ => c)
  }

  /** Empty, or begun and ended by a separator, as tags are. */
  predicate Bracketed(x: string) {
    x != [] ==> Separates(x[0]) && Separates(x[|x| - 1])
  }

  // ----------------------------------------------------------------------- whole copies

  /** A copy of x stands at c. */
  ghost predicate CopyAt(s: string, mask: string, x: string, c: nat)
    requires |s| == |mask|
  {
    OccursAt(s, x, c) && forall i :: c <= i < c + |x| ==> mask[i] == PUT
  }

  /** The first k characters are one of the data, or a copy of one of the two strings. */
  ghost predicate Piece(s: string, mask: string, k: nat, before: string, after: string)
    requires |s| == |mask|
  {
    && 0 < k <= |s|
    && ((k == 1 && mask[0] == OWN)
        || (k == |before| && CopyAt(s, mask, before, 0))
        || (k == |after| && CopyAt(s, mask, after, 0)))
  }

  /** Text and mask are made of characters of the data and whole copies of the two strings. */
  ghost predicate Whole(s: string, mask: string, before: string, after: string)
    requires |s| == |mask|
    decreases |s|
  {
    s == [] || exists k: nat :: Piece(s, mask, k, before, after) && Whole(s[k..], mask[k..], before, after)
  }

  /** What is left without the copies. */
  function OwnText(s: string, mask: string): (r: string)
    requires |s| == |mask|
  {
    if s == [] then [] else (if mask[0] == OWN then [s[0]] else []) + OwnText(s[1..], mask[1..])
  }

  lemma WholeFirst(s: string, mask: string, before: string, after: string) returns (k: nat)
    requires |s| == |mask| && s != [] && Whole(s, mask, before, after)
    ensures Piece(s, mask, k, before, after) && 0 < k <= |s| && Whole(s[k..], mask[k..], before, after)
  {
    k :| Piece(s, mask, k, before, after) && Whole(s[k..], mask[k..], before, after);
  }

  lemma WholeWith(s: string, mask: string, k: nat, before: string, after: string)
    requires |s| == |mask| && Piece(s, mask, k, before, after) && Whole(s[k..], mask[k..], before, after)
    ensures Whole(s, mask, before, after)
  {
  }

  lemma PieceOn(a: string, ma: string, b: string, mb: string, k: nat, before: string, after: string)
    requires |a| == |ma| && |b| == |mb| && Piece(a, ma, k, before, after)
    ensures Piece(a + b, ma + mb, k, before, after)
    ensures (a + b)[k..] == a[k..] + b && (ma + mb)[k..] == ma[k..] + mb
  {
    assert (a + b)[..k] == a[..k] && (ma + mb)[..k] == ma[..k];
    assert forall i :: 0 <= i < k ==> (ma + mb)[i] == ma[i];
    assert (a + b)[0..k] == a[0..k];
  }

  lemma {:induction false} WholeAppend(a: string, ma: string, b: string, mb: string, before: string, after: string)
    requires |a| == |ma| && |b| == |mb| && Whole(a, ma, before, after) && Whole(b, mb, before, after)
    ensures Whole(a + b, ma + mb, before, after)
    decreases |a|
  {
    hide Whole, Piece;
    if a == [] {
      assert a + b == b && ma + mb == mb;
    } else {
      var k := WholeFirst(a, ma, before, after);
      PieceOn(a, ma, b, mb, k, before, after);
      WholeAppend(a[k..], ma[k..], b, mb, before, after);
      WholeWith(a + b, ma + mb, k, before, after);
    }
  }

  /** No copy lies across position p. */
  ghost predicate Clear(mask: string, p: nat) {
    p <= |mask| && (0 < p < |mask| ==> mask[p - 1] != PUT || mask[p] != PUT)
  }

  lemma PieceStops(s: string, mask: string, k: nat, p: nat, before: string, after: string)
    requires |s| == |mask| && 0 < p && Clear(mask, p) && Piece(s, mask, k, before, after)
    ensures k <= p && Clear(mask[k..], p - k) && Piece(s[..p], mask[..p], k, before, after)
  {
    hide Piece;
    PieceIsSolid(s, mask, k, before, after);
    PieceAlone(s, mask, k, p, before, after);
  }

  lemma PieceIsSolid(s: string, mask: string, k: nat, before: string, after: string)
    requires |s| == |mask| && Piece(s, mask, k, before, after)
    ensures 0 < k <= |s| && (k == 1 || forall p :: 0 <= p < k ==> mask[p] == PUT)
  {
  }

  lemma PieceAlone(s: string, mask: string, k: nat, p: nat, before: string, after: string)
    requires |s| == |mask| && Piece(s, mask, k, before, after) && p <= |s|
    ensures k <= p ==> Piece(s[..p], mask[..p], k, before, after)
  {
    if k <= p {
      assert s[..p][0..k] == s[0..k];
    }
  }

  lemma {:induction false} WholeSplit(s: string, mask: string, p: nat, before: string, after: string)
    requires |s| == |mask| && Clear(mask, p) && Whole(s, mask, before, after)
    ensures Whole(s[..p], mask[..p], before, after) && Whole(s[p..], mask[p..], before, after)
    decreases |s|
  {
    hide Piece, Clear;
    WholeNothing(before, after);
    ClearInside(mask, p);
    if p == 0 {
      assert s[..p] == [] && mask[..p] == [] && s[p..] == s && mask[p..] == mask;
    } else {
      var k := WholeFirst(s, mask, before, after);
      PieceStops(s, mask, k, p, before, after);
      WholeSplit(s[k..], mask[k..], p - k, before, after);
      assert s[..p][k..] == s[k..][..p - k] && mask[..p][k..] == mask[k..][..p - k];
      assert s[k..][p - k..] == s[p..] && mask[k..][p - k..] == mask[p..];
      WholeWith(s[..p], mask[..p], k, before, after);
    }
  }

  lemma WholeNothing(before: string, after: string)
    ensures Whole([], [], before, after)
  {
  }

  lemma ClearInside(mask: string, p: nat)
    requires Clear(mask, p)
    ensures p <= |mask|
  {
  }

  lemma WholeCopy(x: string, before: string, after: string)
    requires x == before || x == after
    ensures Whole(x, Run(PUT, |x|), before, after)
  {
    if x != [] {
      assert x[0..|x|] == x;
      assert Piece(x, Run(PUT, |x|), |x|, before, after);
      WholeNothing(before, after);
      assert x[|x|..] == [] && Run(PUT, |x|)[|x|..] == [];
    }
  }

  /** Every inserted character belongs to a copy. */
  lemma {:induction false} PutIsInCopy(s: string, mask: string, i: nat, before: string, after: string)
    returns (x: string, c: nat)
    requires |s| == |mask| && i < |s| && mask[i] == PUT && Whole(s, mask, before, after)
    ensures (x == before || x == after) && CopyAt(s, mask, x, c) && c <= i < c + |x|
    decreases |s|
  {
    hide Whole;
    var k := WholeFirst(s, mask, before, after);
    if i < k {
      x, c := if k == |before| && CopyAt(s, mask, before, 0) then before else after, 0;
    } else {
      assert mask[k..][i - k] == mask[i];
      x, c := PutIsInCopy(s[k..], mask[k..], i - k, before, after);
      CopyFurther(s, mask, k, x, c);
      c := k + c;
    }
  }

  lemma CopyFurther(s: string, mask: string, k: nat, x: string, c: nat)
    requires |s| == |mask| && k <= |s| && CopyAt(s[k..], mask[k..], x, c)
    ensures CopyAt(s, mask, x, k + c)
  {
    assert s[k + c..k + c + |x|] == s[k..][c..c + |x|];
    forall i | k + c <= i < k + c + |x|
      ensures mask[i] == PUT
    {
      assert mask[i] == mask[k..][i - k];
    }
  }

  lemma OwnOne(s: string, mask: string)
    requires |s| == |mask| && s != []
    ensures OwnText(s, mask) == (if mask[0] == OWN then [s[0]] else []) + OwnText(s[1..], mask[1..])
  {
  }

  lemma {:induction false} OwnAppend(a: string, ma: string, b: string, mb: string)
    requires |a| == |ma| && |b| == |mb|
    ensures OwnText(a + b, ma + mb) == OwnText(a, ma) + OwnText(b, mb)
  {
    if a == [] {
      assert a + b == b && ma + mb == mb;
    } else {
      hide OwnText;
      assert (a + b)[1..] == a[1..] + b && (ma + mb)[1..] == ma[1..] + mb;
      OwnAppend(a[1..], ma[1..], b, mb);
      OwnOne(a, ma);
      OwnOne(a + b, ma + mb);
    }
  }

  lemma {:induction false} OwnOfCopy(x: string)
    ensures OwnText(x, Run(PUT, |x|)) == []
  {
    if x != [] {
      assert Run(PUT, |x|)[1..] == Run(PUT, |x[1..]|);
      OwnOfCopy(x[1..]);
    }
  }

  lemma {:induction false} OwnOfData(x: string)
    ensures OwnText(x, Run(OWN, |x|)) == x
  {
    if x != [] {
      assert Run(OWN, |x|)[1..] == Run(OWN, |x[1..]|);
      OwnOfData(x[1..]);
    }
  }

  lemma {:induction false} WholeData(x: string, before: string, after: string)
    ensures Whole(x, Run(OWN, |x|), before, after)
  {
    if x != [] {
      assert Run(OWN, |x|)[1..] == Run(OWN, |x[1..]|);
      WholeData(x[1..], before, after);
      WholeWith(x, Run(OWN, |x|), 1, before, after);
    }
  }

  // ---------------------------------------------------------------- marks inside copies

  lemma OccursChar(s: string, x: string, c: nat, j: nat)
    requires OccursAt(s, x, c) && j < |x|
    ensures c + |x| <= |s| && s[c + j] == x[j]
  {
    assert s[c + j] == s[c..c + |x|][j];
  }

  lemma NoSeparatorInside(s: string, term: string, q: nat, j: nat)
    requires Solid(term) && OccursAt(s, term, q) && j < |term|
    ensures q + j < |s| && !Separates(s[q + j])
  {
    OccursChar(s, term, q, j);
  }

  /** A separator stops an occurrence of a solid term. */
  lemma OccursBeside(s: string, term: string, q: nat, c: nat)
    requires Solid(term) && OccursAt(s, term, q) && c < |s| && Separates(s[c])
    ensures c < q || q + |term| <= c
  {
    hide Solid, OccursAt, Separates;
    if q <= c < q + |term| {
      NoSeparatorInside(s, term, q, c - q);
    }
  }

  /** Behind a separator the scan goes on as if it had begun there. */
  lemma {:induction false} HitsResume(s: string, term: string, p: nat, c: nat, q: nat)
    requires Solid(term) && p <= c < |s| && Separates(s[c]) && c <= q
    ensures q in Hits(s, term, p) <==> q in Hits(s, term, c)
    decreases |s| - p
  {
    hide Hits, Find, OccursAt, Separates, Solid;
    SolidNotEmpty(term);
    HitsUnfold(s, term, p);
    if Find(s, term, p).Some? {
      var f := Find(s, term, p).value;
      Inside(s, term, f);
      OccursBeside(s, term, f, c);
      if f < c {
        HitsResume(s, term, f + |term|, c, q);
      } else {
        HitsUnfold(s, term, c);
        SameFind(s, term, p, c);
      }
    } else {
      HitsUnfold(s, term, c);
      SameFind(s, term, p, c);
    }
  }

  lemma SolidNotEmpty(term: string)
    requires Solid(term)
    ensures term != []
  {
  }

  lemma SameFind(s: string, term: string, p: nat, c: nat)
    requires p <= c <= |s|
    requires Find(s, term, p).Some? ==> c <= Find(s, term, p).value
    ensures Find(s, term, p) == Find(s, term, c)
  {
    hide Find, OccursAt;
  }

  /** The string x stands at c, with separators at both its ends. */
  ghost predicate Framed(s: string, x: string, c: nat) {
    x != [] && Bracketed(x) && OccursAt(s, x, c)
  }

  lemma FramedAt(s: string, x: string, c: nat, r: nat)
    requires Framed(s, x, c) && r < |x|
    ensures c + |x| <= |s| && s[c + r] == x[r] && Separates(s[c]) && Separates(s[c + |x| - 1])
  {
    OccursChar(s, x, c, 0);
    OccursChar(s, x, c, r);
    OccursChar(s, x, c, |x| - 1);
  }

  lemma FramedOccurs(s: string, x: string, c: nat, term: string, r: nat)
    requires Framed(s, x, c) && Solid(term) && r < |x|
    ensures OccursAt(s, term, c + r) <==> OccursAt(x, term, r)
    ensures OccursAt(x, term, r) ==> 0 < r && r + |term| < |x|
  {
    FramedAt(s, x, c, r);
    if OccursAt(s, term, c + r) {
      OccursBeside(s, term, c + r, c + |x| - 1);
    }
    if OccursAt(x, term, r) {
      OccursBeside(x, term, r, 0);
      OccursBeside(x, term, r, |x| - 1);
    }
    if r + |term| <= |x| {
      OccursPart(s, x, c, r, |term|);
    }
  }

  lemma OccursPart(s: string, x: string, c: nat, r: nat, n: nat)
    requires OccursAt(s, x, c) && r + n <= |x|
    ensures s[c + r..c + r + n] == x[r..r + n]
  {
    var a, b := s[c + r..c + r + n], x[r..r + n];
    forall j | 0 <= j < |a|
      ensures a[j] == b[j]
    {
      OccursChar(s, x, c, r + j);
    }
  }

  /** Inside such a string the scan finds what it finds in the string alone. */
  lemma {:induction false} HitsInside(s: string, x: string, c: nat, term: string, p: nat, r: nat)
    requires Framed(s, x, c) && Solid(term) && p <= |x| && r < |x| && c + p <= |s|
    ensures c + r in Hits(s, term, c + p) <==> r in Hits(x, term, p)
    decreases |x| - p
  {
    hide Hits, Find, OccursAt, Framed, Solid;
    SolidNotEmpty(term);
    FramedFind(s, x, c, term, p);
    HitsUnfold(s, term, c + p);
    HitsUnfold(x, term, p);
    if Find(x, term, p).Some? {
      var f := Find(x, term, p).value;
      Inside(x, term, f);
      Inside(s, term, c + f);
      HitsInside(s, x, c, term, f + |term|, r);
    } else if c + r in Hits(s, term, c + p) {
      HitsOccur(s, term, c + p, c + r);
      FramedOccurs(s, x, c, term, r);
    }
  }

  lemma FramedFind(s: string, x: string, c: nat, term: string, p: nat)
    requires Framed(s, x, c) && Solid(term) && p <= |x| && c + p <= |s|
    ensures Find(x, term, p).Some? ==> Find(s, term, c + p) == Some(c + Find(x, term, p).value)
  {
    hide Find, OccursAt, Framed, Solid;
    if Find(x, term, p).Some? {
      var f := Find(x, term, p).value;
      Inside(x, term, f);
      SolidNotEmpty(term);
      FramedOccurs(s, x, c, term, f);
      forall q | c + p <= q < c + f
        ensures !OccursAt(s, term, q)
      {
        FramedOccurs(s, x, c, term, q - c);
      }
    }
  }

  /** The marks inside a copy are those of the inserted string taken alone. */
  lemma MarksInside(s: string, x: string, c: nat, term: string, r: nat)
    requires Framed(s, x, c) && Solid(term) && r < |x|
    ensures c + r in Marks(s, term, 0) <==> r in Marks(x, term, 0)
  {
    hide Hits, Marks, OccursAt, Framed, Solid, Separates;
    SolidNotEmpty(term);
    FramedAt(s, x, c, r);
    MarkedIff(s, term, 0, c + r);
    MarkedIff(x, term, 0, r);
    HitInside(s, x, c, term, r);
    if r in Hits(x, term, 0) {
      HitsOccur(x, term, 0, r);
      FramedOccurs(s, x, c, term, r);
      FramedAt(s, x, c, r - 1);
      FramedAt(s, x, c, r + |term|);
      if |term| <= r {
        HitInside(s, x, c, term, r - |term|);
      } else if Second(s, term, 0, c + r) {
        HitsOccur(s, term, 0, c + r - |term|);
        OccursBeside(s, term, c + r - |term|, c);
      }
    }
  }

  lemma HitInside(s: string, x: string, c: nat, term: string, r: nat)
    requires Framed(s, x, c) && Solid(term) && r < |x|
    ensures term != [] && (c + r in Hits(s, term, 0) <==> r in Hits(x, term, 0))
  {
    hide Hits, OccursAt, Framed, Solid, Separates;
    SolidNotEmpty(term);
    FramedAt(s, x, c, r);
    HitsResume(s, term, 0, c, c + r);
    HitsInside(s, x, c, term, 0, r);
  }

  /** No mark of the pass covers an inserted character. */
  ghost predicate Untouched(s: string, mask: string, term: string)
    requires |s| == |mask| && term != []
  {
    forall q, i :: q in Marks(s, term, 0) && q <= i < q + |term| && i < |mask| ==> mask[i] != PUT
  }

  /** The pass marks nothing in the string itself. */
  predicate Quiet(x: string, term: string)
    requires term != []
  {
    Marks(x, term, 0) == []
  }

  ghost predicate HasCopy(s: string, mask: string, x: string)
    requires |s| == |mask|
  {
    x != [] && exists c :: CopyAt(s, mask, x, c)
  }

  /**
   * For every solid term and strings that begin and end with separators: a pass leaves all
   * copies alone if and only if it would mark nothing in the strings that have been inserted.
   */
  lemma UntouchedIff(s: string, mask: string, term: string, before: string, after: string)
    requires |s| == |mask| && Solid(term) && Bracketed(before) && Bracketed(after)
    requires Whole(s, mask, before, after)
    ensures Untouched(s, mask, term) <==>
            && (HasCopy(s, mask, before) ==> Quiet(before, term))
            && (HasCopy(s, mask, after) ==> Quiet(after, term))
  {
    hide Whole, Marks, Hits, Solid;
    SolidNotEmpty(term);
    if Untouched(s, mask, term) {
      CopyQuiet(s, mask, term, before);
      CopyQuiet(s, mask, term, after);
    }
    if !Untouched(s, mask, term) {
      var q, i :| q in Marks(s, term, 0) && q <= i < q + |term| && i < |mask| && mask[i] == PUT;
      var x, c := PutIsInCopy(s, mask, i, before, after);
      TouchedInside(s, mask, term, x, c, q, i);
    }
  }

  lemma CopyQuiet(s: string, mask: string, term: string, x: string)
    requires |s| == |mask| && Solid(term) && Bracketed(x) && Untouched(s, mask, term)
    ensures HasCopy(s, mask, x) ==> Quiet(x, term)
  {
    hide Marks, Hits, Untouched, CopyAt;
    if HasCopy(s, mask, x) && Marks(x, term, 0) != [] {
      var c :| CopyAt(s, mask, x, c);
      var r := Marks(x, term, 0)[0];
      MarkedIff(x, term, 0, r);
      HitsOccur(x, term, 0, r);
      CopyFrames(s, mask, x, c, r);
      MarksInside(s, x, c, term, r);
      MarkTouches(s, mask, term, c + r);
    }
  }

  lemma CopyFrames(s: string, mask: string, x: string, c: nat, r: nat)
    requires |s| == |mask| && Bracketed(x) && CopyAt(s, mask, x, c) && r < |x|
    ensures Framed(s, x, c) && c + r < |mask| && mask[c + r] == PUT
  {
  }

  lemma MarkTouches(s: string, mask: string, term: string, q: nat)
    requires |s| == |mask| && term != [] && Untouched(s, mask, term) && q in Marks(s, term, 0) && q < |mask|
    ensures mask[q] != PUT
  {
  }

  lemma TouchedInside(s: string, mask: string, term: string, x: string, c: nat, q: nat, i: nat)
    requires |s| == |mask| && Solid(term) && Bracketed(x) && CopyAt(s, mask, x, c)
    requires q in Marks(s, term, 0) && q <= i < q + |term| && c <= i < c + |x|
    ensures !Quiet(x, term)
  {
    hide Marks, Hits, Solid;
    SolidNotEmpty(term);
    MarkedIff(s, term, 0, q);
    HitsOccur(s, term, 0, q);
    FramedAt(s, x, c, 0);
    OccursBeside(s, term, q, c);
    OccursBeside(s, term, q, c + |x| - 1);
    MarksInside(s, x, c, term, q - c);
  }

  // ------------------------------------------------------------------------ all passes

  /** Copying both text and mask keeps text and mask in step. */
  lemma MaskInStep(s: string, mask: string, len: nat, marks: seq<nat>, p: nat, before: string, after: string)
    requires |s| == |mask| && Spread(marks, len, p, |s|)
    ensures |Render(s, len, marks, p, before, after)|
         == |Render(mask, len, marks, p, Run(PUT, |before|), Run(PUT, |after|))|
  {
    hide Render, Spread, Run;
    var b, a := Run(PUT, |before|), Run(PUT, |after|);
    RenderLength(s, len, marks, p, before, after);
    RenderLength(mask, len, marks, p, b, a);
    assert |marks| * (|b| + |a|) == |marks| * (|before| + |after|) by {
      assert |b| + |a| == |before| + |after|;
    }
  }

  /** No marked word holds an inserted character. */
  ghost predicate OwnWords(mask: string, len: nat, marks: seq<nat>) {
    forall k, i :: 0 <= k < |marks| && marks[k] <= i < marks[k] + len && i < |mask| ==> mask[i] != PUT
  }

  /** Then the pass keeps the copies whole, and the data is what it was. */
  lemma {:induction false} RenderWhole(
      s: string, mask: string, len: nat, marks: seq<nat>, p: nat, before: string, after: string)
    requires |s| == |mask| && 0 < len && Spread(marks, len, p, |s|) && p <= |s| && OwnWords(mask, len, marks)
    requires Whole(s[p..], mask[p..], before, after)
    ensures var t, m := Render(s, len, marks, p, before, after),
                        Render(mask, len, marks, p, Run(PUT, |before|), Run(PUT, |after|));
            && |t| == |m| && Whole(t, m, before, after)
            && OwnText(t, m) == OwnText(s[p..], mask[p..])
    decreases |marks|
  {
    hide Whole, OwnText, Spread, OwnWords, Run;
    SpreadInside(marks, len, p, |s|);
    MaskInStep(s, mask, len, marks, p, before, after);
    if marks != [] {
      SpreadRest(marks, len, p, |s|);
      var q, end := marks[0], marks[0] + len;
      WordClear(mask, len, marks, p);
      SplitAt(s, mask, p, q, before, after);
      SplitAt(s, mask, q, end, before, after);
      OwnWordsRest(mask, len, marks);
      RenderWhole(s, mask, len, marks[1..], end, before, after);
      MaskInStep(s, mask, len, marks[1..], end, before, after);
      var t, m := Render(s, len, marks[1..], end, before, after),
                  Render(mask, len, marks[1..], end, Run(PUT, |before|), Run(PUT, |after|));
      WrapWhole(s[p..q], mask[p..q], s[q..end], mask[q..end], t, m, before, after);
    }
  }

  /** The ends of a marked word are not inside a copy. */
  lemma WordClear(mask: string, len: nat, marks: seq<nat>, p: nat)
    requires marks != [] && 0 < len && OwnWords(mask, len, marks) && p <= marks[0] && marks[0] + len <= |mask|
    ensures Clear(mask[p..], marks[0] - p) && Clear(mask[marks[0]..], len)
  {
    assert mask[marks[0]] != PUT && mask[marks[0] + len - 1] != PUT;
  }

  lemma OwnWordsRest(mask: string, len: nat, marks: seq<nat>)
    requires marks != [] && OwnWords(mask, len, marks)
    ensures OwnWords(mask, len, marks[1..])
  {
  }

  lemma SplitAt(s: string, mask: string, p: nat, q: nat, before: string, after: string)
    requires |s| == |mask| && p <= q <= |s| && Clear(mask[p..], q - p) && Whole(s[p..], mask[p..], before, after)
    ensures Whole(s[p..q], mask[p..q], before, after) && Whole(s[q..], mask[q..], before, after)
    ensures OwnText(s[p..], mask[p..]) == OwnText(s[p..q], mask[p..q]) + OwnText(s[q..], mask[q..])
  {
    hide Whole, OwnText, Clear;
    WholeSplit(s[p..], mask[p..], q - p, before, after);
    assert s[p..][..q - p] == s[p..q] && mask[p..][..q - p] == mask[p..q];
    assert s[p..][q - p..] == s[q..] && mask[p..][q - p..] == mask[q..];
    OwnAppend(s[p..q], mask[p..q], s[q..], mask[q..]);
    assert s[p..] == s[p..q] + s[q..] && mask[p..] == mask[p..q] + mask[q..];
  }

  lemma WrapWhole(a: string, ma: string, w: string, mw: string, t: string, m: string, before: string, after: string)
    requires |a| == |ma| && |w| == |mw| && |t| == |m|
    requires Whole(a, ma, before, after) && Whole(w, mw, before, after) && Whole(t, m, before, after)
    ensures var u, v := a + (before + (w + (after + t))), ma + (Run(PUT, |before|) + (mw + (Run(PUT, |after|) + m)));
            && |u| == |v| && Whole(u, v, before, after)
            && OwnText(u, v) == OwnText(a, ma) + (OwnText(w, mw) + OwnText(t, m))
  {
    hide Whole, OwnText, Run;
    var b, c := Run(PUT, |before|), Run(PUT, |after|);
    WholeCopy(before, before, after);
    WholeCopy(after, before, after);
    OwnOfCopy(before);
    OwnOfCopy(after);
    WholeAppend(after, c, t, m, before, after);
    OwnAppend(after, c, t, m);
    WholeAppend(w, mw, after + t, c + m, before, after);
    OwnAppend(w, mw, after + t, c + m);
    WholeAppend(before, b, w + (after + t), mw + (c + m), before, after);
    OwnAppend(before, b, w + (after + t), mw + (c + m));
    WholeAppend(a, ma, before + (w + (after + t)), b + (mw + (c + m)), before, after);
    OwnAppend(a, ma, before + (w + (after + t)), b + (mw + (c + m)));
  }

  /** Working text or original, after a pass for the term over `work`. */
  function Passed(work: string, s: string, term: string, before: string, after: string): (r: string)
    requires |work| == |s| && term != []
  {
    MarksSpread(work, term, 0);
    Render(s, |term|, Marks(work, term, 0), 0, before, after)
  }

  function PassedMask(work: string, mask: string, term: string, before: string, after: string): (r: string)
    requires |work| == |mask| && term != []
    ensures |r| == |Passed(work, work, term, before, after)|
  {
    MarksSpread(work, term, 0);
    MaskInStep(work, mask, |term|, Marks(work, term, 0), 0, before, after);
    Render(mask, |term|, Marks(work, term, 0), 0, Run(PUT, |before|), Run(PUT, |after|))
  }

  /** No pass of the whole row marks anything in a copy inserted before. */
  ghost predicate AllUntouched(terms: seq<string>, work: string, mask: string, before: string, after: string)
    requires |work| == |mask| && NonEmpty(terms)
    decreases |terms|
  {
    terms == [] ||
    (Untouched(work, mask, terms[0])
     && AllUntouched(terms[1..], Passed(work, work, terms[0], before, after),
                     PassedMask(work, mask, terms[0], before, after), before, after))
  }

  ghost function FinalMask(terms: seq<string>, work: string, mask: string, before: string, after: string): (m: string)
    requires |work| == |mask| && NonEmpty(terms)
    decreases |terms|
  {
    if terms == [] then mask
    else FinalMask(terms[1..], Passed(work, work, terms[0], before, after),
                   PassedMask(work, mask, terms[0], before, after), before, after)
  }

  lemma PassedWhole(work: string, s: string, mask: string, term: string, before: string, after: string)
    requires |work| == |s| == |mask| && term != [] && Untouched(work, mask, term) && Whole(s, mask, before, after)
    ensures var t, m := Passed(work, s, term, before, after), PassedMask(work, mask, term, before, after);
            |t| == |m| && Whole(t, m, before, after) && OwnText(t, m) == OwnText(s, mask)
  {
    hide Whole, OwnText, Marks, Render, Run;
    MarksSpread(work, term, 0);
    assert s[0..] == s && mask[0..] == mask;
    UntouchedWords(work, mask, term);
    RenderWhole(s, mask, |term|, Marks(work, term, 0), 0, before, after);
  }

  lemma UntouchedWords(work: string, mask: string, term: string)
    requires |work| == |mask| && term != [] && Untouched(work, mask, term)
    ensures OwnWords(mask, |term|, Marks(work, term, 0))
  {
    hide Marks;
    var marks := Marks(work, term, 0);
    forall k, i | 0 <= k < |marks| && marks[k] <= i < marks[k] + |term| && i < |mask|
      ensures mask[i] != PUT
    {
      assert marks[k] in marks;
    }
  }

  /**
   * If no pass touches a copy, the outcome is the data's own characters and whole copies of the
   * two strings, and taking the copies out gives the data back.
   */
  lemma {:induction false} CopiesStayWhole(
      terms: seq<string>, b: Buffers, mask: string, before: string, after: string)
    requires |b.work| == |b.orig| == |mask| && NonEmpty(terms)
    requires Whole(b.orig, mask, before, after) && AllUntouched(terms, b.work, mask, before, after)
    ensures var r, m := Passes(terms, b, before, after).orig, FinalMask(terms, b.work, mask, before, after);
            |r| == |m| && Whole(r, m, before, after) && OwnText(r, m) == OwnText(b.orig, mask)
    decreases |terms|
  {
    hide Whole, OwnText, Marks, Render, Untouched;
    if terms != [] {
      MarksSpread(b.work, terms[0], 0);
      RenderInStep(b.work, b.orig, |terms[0]|, Marks(b.work, terms[0], 0), 0, before, after);
      PassedWhole(b.work, b.orig, mask, terms[0], before, after);
      CopiesStayWhole(terms[1..],
                      Buffers(Passed(b.work, b.work, terms[0], before, after),
                              Passed(b.work, b.orig, terms[0], before, after)),
                      PassedMask(b.work, mask, terms[0], before, after), before, after);
    }
  }

  /** The same for a whole command: the mask of the data is all its own. */
  lemma DataComesBack(terms: seq<string>, work: string, data: string, before: string, after: string)
    requires |work| == |data| && NonEmpty(terms)
    requires AllUntouched(terms, work, Run(OWN, |data|), before, after)
    ensures var r, m := Passes(terms, Buffers(work, data), before, after).orig,
                        FinalMask(terms, work, Run(OWN, |data|), before, after);
            |r| == |m| && Whole(r, m, before, after) && OwnText(r, m) == data
  {
    hide Whole, OwnText, AllUntouched, Passes, FinalMask, Run;
    WholeData(data, before, after);
    OwnOfData(data);
    CopiesStayWhole(terms, Buffers(work, data), Run(OWN, |data|), before, after);
  }

  // --------------------------------------------------------------- when that is the case

  /** Once a term has been found, every later one must mark nothing in the two strings. */
  ghost predicate QuietRun(terms: seq<string>, work: string, found: bool, before: string, after: string)
    requires NonEmpty(terms)
    decreases |terms|
  {
    terms == [] ||
    ((found ==> Quiet(before, terms[0]) && Quiet(after, terms[0]))
     && QuietRun(terms[1..], Passed(work, work, terms[0], before, after),
                 found || Marks(work, terms[0], 0) != [], before, after))
  }

  /** Copies of both strings are there once a term has been found, and none before. */
  ghost predicate Inserted(s: string, mask: string, found: bool, before: string, after: string)
    requires |s| == |mask|
  {
    if found then (before != [] ==> HasCopy(s, mask, before)) && (after != [] ==> HasCopy(s, mask, after))
    else forall i :: 0 <= i < |mask| ==> mask[i] != PUT
  }

  lemma UntouchedNow(s: string, mask: string, found: bool, term: string, before: string, after: string)
    requires |s| == |mask| && Solid(term) && Bracketed(before) && Bracketed(after)
    requires Whole(s, mask, before, after) && Inserted(s, mask, found, before, after)
    ensures Untouched(s, mask, term) <==> (found ==> Quiet(before, term) && Quiet(after, term))
  {
    hide Whole, Solid, Marks;
    SolidNotEmpty(term);
    UntouchedIff(s, mask, term, before, after);
    EmptyQuiet(term);
  }

  lemma EmptyQuiet(term: string)
    requires term != []
    ensures Quiet([], term)
  {
  }

  lemma InsertedNext(s: string, mask: string, found: bool, term: string, before: string, after: string)
    requires |s| == |mask| && term != [] && Inserted(s, mask, found, before, after)
    ensures Inserted(Passed(s, s, term, before, after), PassedMask(s, mask, term, before, after),
                     found || Marks(s, term, 0) != [], before, after)
  {
    hide Inserted, Marks, Render;
    var marks := Marks(s, term, 0);
    MarksSpread(s, term, 0);
    if marks == [] {
      RenderNone(s, |term|, 0, before, after);
      RenderNone(mask, |term|, 0, Run(PUT, |before|), Run(PUT, |after|));
      assert s[0..] == s && mask[0..] == mask;
    } else {
      var q, rest := marks[0], marks[1..];
      assert marks == [q] + rest;
      RenderMark(s, |term|, rest, 0, q, before, after);
      RenderMark(mask, |term|, rest, 0, q, Run(PUT, |before|), Run(PUT, |after|));
      MaskInStep(s, mask, |term|, rest, q + |term|, before, after);
      FreshCopies(s[0..q], mask[0..q], s[q..q + |term|], mask[q..q + |term|],
                  Render(s, |term|, rest, q + |term|, before, after),
                  Render(mask, |term|, rest, q + |term|, Run(PUT, |before|), Run(PUT, |after|)), before, after);
    }
  }

  lemma FreshCopies(a: string, ma: string, w: string, mw: string, t: string, m: string, before: string, after: string)
    requires |a| == |ma| && |w| == |mw| && |t| == |m|
    ensures var u, v := a + before + w + after + t, ma + Run(PUT, |before|) + mw + Run(PUT, |after|) + m;
            |u| == |v| && Inserted(u, v, true, before, after)
  {
    var u, v := a + before + w + after + t, ma + Run(PUT, |before|) + mw + Run(PUT, |after|) + m;
    var c, d := |a|, |a| + |before| + |w|;
    assert u[c..c + |before|] == before && u[d..d + |after|] == after;
    assert CopyAt(u, v, before, c) && CopyAt(u, v, after, d);
  }

  /**
   * For solid terms and strings that begin and end with separators: no pass touches a copy if
   * and only if every term behind one that was found marks nothing in the two strings.
   */
  lemma {:induction false} AllUntouchedIff(
      terms: seq<string>, work: string, mask: string, found: bool, before: string, after: string)
    requires |work| == |mask| && NonEmpty(terms) && Bracketed(before) && Bracketed(after)
    requires forall i :: 0 <= i < |terms| ==> Solid(terms[i])
    requires Whole(work, mask, before, after) && Inserted(work, mask, found, before, after)
    ensures AllUntouched(terms, work, mask, before, after) <==> QuietRun(terms, work, found, before, after)
    decreases |terms|
  {
    hide Whole, Solid, Marks, Inserted, Untouched, Quiet, Passed, PassedMask, OwnText;
    if terms != [] {
      UntouchedNow(work, mask, found, terms[0], before, after);
      if Untouched(work, mask, terms[0]) {
        PassedWhole(work, work, mask, terms[0], before, after);
        InsertedNext(work, mask, found, terms[0], before, after);
        AllUntouchedIff(terms[1..], Passed(work, work, terms[0], before, after),
                        PassedMask(work, mask, terms[0], before, after),
                        found || Marks(work, terms[0], 0) != [], before, after);
      }
    }
  }

  /** The input: with "<b>" and "</b>", the term "b" behind "cat" is marked inside the tags put around "cat". */
  lemma TagWordMarked(word: string, term: string, before: string, after: string, q: nat)
    requires Solid(word) && Solid(term) && Bracketed(before) && Bracketed(after) && WholeWord(before, term, q)
    ensures NonEmpty([word, term]) && !AllUntouched([word, term], word, Run(OWN, |word|), before, after)
  {
    hide Whole, Solid, Marks, Untouched, Passed, PassedMask, AllUntouched, WholeWord;
    SolidNotEmpty(word);
    SolidNotEmpty(term);
    var terms := [word, term];
    WholeData(word, before, after);
    AllUntouchedIff(terms, word, Run(OWN, |word|), false, before, after);
    ItselfMarked(word);
    WholeWordsMarked(before, term, 0, q);
    assert terms[1..] == [term];
    var next := Passed(word, word, word, before, after);
    assert !QuietRun([term], next, true, before, after);
  }

  lemma ItselfMarked(word: string)
    requires word != []
    ensures Marks(word, word, 0) != []
  {
    hide Marks;
    assert word[0..|word|] == word;
    MarksUnfolds(word, word, 0);
  }
}
