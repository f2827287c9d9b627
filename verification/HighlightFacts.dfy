/** What a highlighting pass keeps, what it adds, and which words it finds. */
module HighlightFacts {
  import opened Basics
  import opened Highlight

  /** Equal length and, place by place, equal up to case. */
  ghost predicate SameLetters(a: string, b: string) {
    |a| == |b| && forall i :: 0 <= i < |a| ==> LowerCase(a[i]) == LowerCase(b[i])
  }

  lemma SameLettersAppend(a: string, b: string, c: string, d: string)
    requires SameLetters(a, b) && SameLetters(c, d)
    ensures SameLetters(a + c, b + d)
  {
  }

  /** The two rewritten buffers stay in step: equally long, and equal up to case if they were. */
  lemma {:induction false} RenderInStep(
      a: string, b: string, len: nat, marks: seq<nat>, p: nat, before: string, after: string)
    requires |a| == |b| && Spread(marks, len, p, |a|)
    ensures |Render(a, len, marks, p, before, after)| == |Render(b, len, marks, p, before, after)|
    ensures SameLetters(a, b) ==>
              SameLetters(Render(a, len, marks, p, before, after), Render(b, len, marks, p, before, after))
    decreases |marks|
  {
    hide SameLetters, Spread;
    SpreadInside(marks, len, p, |a|);
    if marks == [] {
      Slices(a, b, p, p);
    } else {
      var m := marks[0];
      SpreadRest(marks, len, p, |a|);
      RenderInStep(a, b, len, marks[1..], m + len, before, after);
      Slices(a, b, p, m);
      Slices(a, b, m, m + len);
      if SameLetters(a, b) {
        var x := Render(a, len, marks[1..], m + len, before, after);
        var y := Render(b, len, marks[1..], m + len, before, after);
        Itself(before);
        Itself(after);
        SameLettersAppend(after, after, x, y);
        SameLettersAppend(a[m..m + len], b[m..m + len], after + x, after + y);
        SameLettersAppend(before, before, a[m..m + len] + (after + x), b[m..m + len] + (after + y));
        SameLettersAppend(a[p..m], b[p..m],
                          before + (a[m..m + len] + (after + x)), before + (b[m..m + len] + (after + y)));
      }
    }
  }

  lemma SpreadRest(marks: seq<nat>, len: nat, p: nat, size: nat)
    requires marks != [] && Spread(marks, len, p, size)
    ensures p <= marks[0] && Spread(marks[1..], len, marks[0] + len, size)
  {
  }

  lemma Slices(a: string, b: string, lo: nat, hi: nat)
    requires |a| == |b| && lo <= hi <= |a|
    ensures SameLetters(a, b) ==> SameLetters(a[lo..hi], b[lo..hi]) && SameLetters(a[lo..], b[lo..])
  {
  }

  lemma Itself(a: string)
    ensures SameLetters(a, a)
  {
  }

  // -------------------------------------------------------------------- only insertions

  /** Putting `text` into s at position `at`. */
  datatype Insertion = Insertion(at: nat, text: string)

  /** s after a row of insertions, each into the result of the one before. */
  ghost predicate GrowsTo(s: string, ins: seq<Insertion>, t: string)
    decreases |ins|
  {
    if ins == [] then s == t
    else ins[0].at <= |s| && GrowsTo(s[..ins[0].at] + ins[0].text + s[ins[0].at..], ins[1..], t)
  }

  ghost predicate Uses(ins: seq<Insertion>, before: string, after: string) {
    forall i :: 0 <= i < |ins| ==> ins[i].text == before || ins[i].text == after
  }

  lemma {:induction false} GrowsOn(s: string, ins: seq<Insertion>, t: string, more: seq<Insertion>, u: string)
    requires GrowsTo(s, ins, t) && GrowsTo(t, more, u)
    ensures GrowsTo(s, ins + more, u)
    decreases |ins|
  {
    if ins == [] {
      assert ins + more == more;
    } else {
      assert (ins + more)[1..] == ins[1..] + more;
      GrowsOn(s[..ins[0].at] + ins[0].text + s[ins[0].at..], ins[1..], t, more, u);
    }
  }

  /** Insertions made in a tail can be made behind any head. */
  lemma {:induction false} GrowsBehind(head: string, s: string, ins: seq<Insertion>, t: string)
    returns (moved: seq<Insertion>)
    requires GrowsTo(s, ins, t)
    ensures GrowsTo(head + s, moved, head + t)
    ensures forall before, after :: Uses(ins, before, after) ==> Uses(moved, before, after)
    decreases |ins|
  {
    if ins == [] {
      moved := [];
    } else {
      var i := ins[0];
      var s' := s[..i.at] + i.text + s[i.at..];
      var rest := GrowsBehind(head, s', ins[1..], t);
      var first := Insertion(|head| + i.at, i.text);
      moved := [first] + rest;
      assert (head + s)[..first.at] + first.text + (head + s)[first.at..] == head + s';
      assert moved[1..] == rest;
      forall before, after | Uses(ins, before, after)
        ensures Uses(moved, before, after)
      {
        assert Uses(ins[1..], before, after);
      }
    }
  }

  /** A pass adds nothing but copies of the two strings. */
  lemma {:induction false} RenderGrows(s: string, len: nat, marks: seq<nat>, p: nat, before: string, after: string)
    returns (ins: seq<Insertion>)
    requires Spread(marks, len, p, |s|)
    ensures p <= |s| && GrowsTo(s[p..], ins, Render(s, len, marks, p, before, after)) && Uses(ins, before, after)
    decreases |marks|
  {
    hide GrowsTo, Uses, Spread;
    SpreadInside(marks, len, p, |s|);
    if marks == [] {
      ins := [];
      GrowsNot(s[p..], before, after);
    } else {
      SpreadRest(marks, len, p, |s|);
      var m := marks[0];
      var rest, done := s[m + len..], Render(s, len, marks[1..], m + len, before, after);
      var later := RenderGrows(s, len, marks[1..], m + len, before, after);
      var head := s[p..m] + before + s[m..m + len] + after;
      later := GrowsBehind(head, rest, later, done);
      ins := WrapWord(s[p..m], s[m..m + len], rest, before, after, later, head + done);
      assert s[p..] == s[p..m] + s[m..m + len] + rest;
      Regrouped(s[p..m], before, s[m..m + len], after, done);
    }
  }

  lemma Regrouped(a: string, b: string, c: string, d: string, e: string)
    ensures a + b + c + d + e == a + (b + (c + (d + e)))
  {
  }

  lemma GrowsNot(s: string, before: string, after: string)
    ensures GrowsTo(s, [], s) && Uses([], before, after)
  {
  }

  lemma WrapWord(a: string, w: string, rest: string, before: string, after: string, later: seq<Insertion>, t: string)
    returns (ins: seq<Insertion>)
    requires GrowsTo(a + before + w + after + rest, later, t) && Uses(later, before, after)
    ensures GrowsTo(a + w + rest, ins, t) && Uses(ins, before, after)
  {
    var i, j := Insertion(|a|, before), Insertion(|a + before + w|, after);
    ins := [i, j] + later;
    var once, twice := a + before + w + rest, a + before + w + after + rest;
    assert (a + w + rest)[..i.at] + i.text + (a + w + rest)[i.at..] == once;
    assert once[..j.at] + j.text + once[j.at..] == twice;
    assert ins[1..][1..] == later && ins[1..][0] == j;
    assert GrowsTo(once, ins[1..], t);
  }

  // ---------------------------------------------------------------------- which words

  /** The term stands at q as a word of its own. */
  ghost predicate WholeWord(s: string, term: string, q: nat) {
    OccursAt(s, term, q) && OpensWord(s, q) && ClosesWord(s, q + |term|)
  }

  /** A term made of letters and digits only, as far as word breaks go. */
  ghost predicate Solid(term: string) {
    term != [] && forall i :: 0 <= i < |term| ==> !Separates(term[i])
  }

  /** The occurrences the scan comes by, word or not: each search starts behind the last one. */
  ghost function Hits(s: string, term: string, p: nat): (r: seq<nat>)
    requires p <= |s| && term != []
    decreases |s| - p
  {
    match Find(s, term, p)
    case None => []
    case Some(q) => [q] + Hits(s, term, q + |term|)
  }

  lemma HitsUnfold(s: string, term: string, p: nat)
    requires p <= |s| && term != []
    ensures match Find(s, term, p)
            case None => Hits(s, term, p) == []
            case Some(q) => Hits(s, term, p) == [q] + Hits(s, term, q + |term|)
  {
  }

  lemma {:induction false} HitsOccur(s: string, term: string, p: nat, q: nat)
    requires p <= |s| && term != [] && q in Hits(s, term, p)
    ensures p <= q && OccursAt(s, term, q)
    decreases |s| - p
  {
    hide Hits, Find;
    HitsUnfold(s, term, p);
    var f := Find(s, term, p).value;
    if q != f {
      HitsOccur(s, term, f + |term|, q);
    }
  }

  lemma Inside(s: string, term: string, q: nat)
    requires OccursAt(s, term, q)
    ensures q + |term| <= |s|
  {
  }

  /** A hit begins inside the term's length before q. */
  ghost predicate Covered(s: string, term: string, p: nat, q: nat)
    requires p <= |s| && term != []
  {
    exists f :: f in Hits(s, term, p) && f < q < f + |term|
  }

  /** The scan passes over an occurrence exactly when it overlaps a hit before it. */
  lemma {:induction false} MissedIff(s: string, term: string, p: nat, q: nat)
    requires p <= q && q <= |s| && term != [] && OccursAt(s, term, q)
    ensures q !in Hits(s, term, p) <==> Covered(s, term, p, q)
    decreases |s| - p
  {
    hide Hits, Find, OccursAt;
    HitsUnfold(s, term, p);
    var f := Find(s, term, p).value;
    var end := f + |term|;
    Inside(s, term, f);
    assert f in Hits(s, term, p);
    forall h | h in Hits(s, term, end)
      ensures end <= h
    {
      HitsOccur(s, term, end, h);
    }
    if end <= q {
      MissedIff(s, term, end, q);
      if Covered(s, term, end, q) {
        var h :| h in Hits(s, term, end) && h < q < h + |term|;
        assert h in Hits(s, term, p);
      }
    }
  }

  /** A hit right behind another one. */
  ghost predicate Second(s: string, term: string, p: nat, q: nat)
    requires p <= |s| && term != []
  {
    |term| <= q && q - |term| in Hits(s, term, p)
  }

  /** Which hits are marked, for every term, text and starting point. */
  lemma {:induction false} MarkedIff(s: string, term: string, p: nat, q: nat)
    requires p <= |s| && term != []
    ensures q in Marks(s, term, p) <==>
            && q in Hits(s, term, p) && ClosesWord(s, q + |term|)
            && (q == p || (0 < q <= |s| && Separates(s[q - 1])) || Second(s, term, p, q))
    decreases |s| - p
  {
    hide Marks, Hits, Find, OccursAt, Separates, ClosesWord;
    MarksUnfolds(s, term, p);
    HitsUnfold(s, term, p);
    if Find(s, term, p).Some? {
      var f := Find(s, term, p).value;
      var end := f + |term|;
      Inside(s, term, f);
      MarkedIff(s, term, end, q);
      forall h | h in Hits(s, term, end)
        ensures end <= h <= |s|
      {
        HitsOccur(s, term, end, h);
        Inside(s, term, h);
      }
    }
  }

  /**
   * Wherever the scan starts, a whole word ahead of it is missed exactly when it begins inside
   * a hit before it, which no word of a solid term does.
   */
  lemma WholeWordsMarked(s: string, term: string, p: nat, q: nat)
    requires term != [] && p <= q && WholeWord(s, term, q)
    ensures p <= |s| && (q in Marks(s, term, p) <==> !Covered(s, term, p, q))
    ensures Solid(term) ==> q in Marks(s, term, p)
  {
    hide Marks, Hits, Separates, Covered;
    MarkedIff(s, term, p, q);
    MissedIff(s, term, p, q);
    if Solid(term) {
      SolidNotCovered(s, term, p, q);
    }
  }

  lemma SolidNotCovered(s: string, term: string, p: nat, q: nat)
    requires p <= |s| && Solid(term) && WholeWord(s, term, q)
    ensures !Covered(s, term, p, q)
  {
    hide Hits, Separates;
    forall f | f in Hits(s, term, p) && f < q < f + |term|
      ensures false
    {
      HitsOccur(s, term, p, f);
    }
  }

  /** A word stands at q, but the scan has run past its start. */
  ghost predicate Overrun(s: string, term: string, q: nat)
    requires term != []
  {
    WholeWord(s, term, q) && Covered(s, term, 0, q)
  }

  /** No word starts at q, but the scan does not see that: it begins afresh behind another hit. */
  ghost predicate Deceptive(s: string, term: string, q: nat)
    requires term != []
  {
    && q in Hits(s, term, 0) && Second(s, term, 0, q)
    && ClosesWord(s, q + |term|) && !OpensWord(s, q)
  }

  /** Where marks and words differ at one place. */
  lemma MarkIsWordIff(s: string, term: string, q: nat)
    requires term != []
    ensures (q in Marks(s, term, 0) <==> WholeWord(s, term, q)) <==> !Overrun(s, term, q) && !Deceptive(s, term, q)
  {
    hide Marks, Hits, OccursAt, ClosesWord, Separates, Covered;
    MarkedIff(s, term, 0, q);
    if q in Hits(s, term, 0) {
      HitsOccur(s, term, 0, q);
    }
    if OccursAt(s, term, q) {
      Inside(s, term, q);
      MissedIff(s, term, 0, q);
    }
  }

  /**
   * For every text and every term: the marks are the whole words if and only if no word
   * begins inside a hit before it, and no hit right behind another one ends like a word
   * without beginning like one.
   */
  lemma MarksAreWords(s: string, term: string)
    requires term != []
    ensures (forall q: nat :: q in Marks(s, term, 0) <==> WholeWord(s, term, q))
       <==> (forall q: nat :: !Overrun(s, term, q) && !Deceptive(s, term, q))
  {
    hide Marks, Overrun, Deceptive, WholeWord;
    forall q: nat
      ensures (q in Marks(s, term, 0) <==> WholeWord(s, term, q)) <==> !Overrun(s, term, q) && !Deceptive(s, term, q)
    {
      MarkIsWordIff(s, term, q);
    }
  }

  /** For solid terms only hits behind hits can deceive the scan. */
  lemma SolidMarksAreWords(s: string, term: string)
    requires Solid(term)
    ensures (forall q: nat :: q in Marks(s, term, 0) <==> WholeWord(s, term, q))
       <==> (forall q :: q in Hits(s, term, 0) && Second(s, term, 0, q) ==> !ClosesWord(s, q + |term|))
  {
    hide Marks, Hits, ClosesWord, Separates;
    MarksAreWords(s, term);
    forall q: nat
      ensures !Overrun(s, term, q)
      ensures Deceptive(s, term, q)
         <==> q in Hits(s, term, 0) && Second(s, term, 0, q) && ClosesWord(s, q + |term|)
    {
      if WholeWord(s, term, q) {
        SolidNotCovered(s, term, 0, q);
      }
      if Second(s, term, 0, q) {
        HitsOccur(s, term, 0, q - |term|);
        assert s[q - 1] == s[q - |term|..q][|term| - 1];
      }
    }
  }

  /** The input: the second half of any doubled word is marked as if it were one. */
  lemma DoubledTermMarked(term: string)
    requires Solid(term)
    ensures |term| in Marks(term + term, term, 0) && !WholeWord(term + term, term, |term|)
  {
    var s := term + term;
    assert OccursAt(s, term, 0) && OccursAt(s, term, |term|);
    assert Find(s, term, 0) == Some(0) && Find(s, term, |term|) == Some(|term|);
    assert s[|term|] == term[0] && s[|term| - 1] == term[|term| - 1];
    DoubledMarks(s, term);
  }

  lemma DoubledMarks(s: string, term: string)
    requires Solid(term) && |s| == 2 * |term| && !Separates(s[|term|])
    requires Find(s, term, 0) == Some(0) && Find(s, term, |term|) == Some(|term|)
    ensures |term| in Marks(s, term, 0)
  {
  }

  /** The other input: of "on-on-on" the second "on-on" is a word, and lost. */
  lemma OverlappingWordMissed()
    ensures WholeWord("on-on-on", "on-on", 3) && 3 !in Marks("on-on-on", "on-on", 0)
  {
    var s, term := "on-on-on", "on-on";
    assert s[3..8] == term && s[0..5] == term;
    assert WholeWord(s, term, 3);
    assert Find(s, term, 0) == Some(0);
    HitsUnfold(s, term, 0);
    assert 0 in Hits(s, term, 0);
    assert Covered(s, term, 0, 3);
    WholeWordsMarked(s, term, 0, 3);
  }

  // --------------------------------------------------------------------- how long it gets

  /** Every mark costs one copy of each string. */
  lemma {:induction false} RenderLength(s: string, len: nat, marks: seq<nat>, p: nat, before: string, after: string)
    requires Spread(marks, len, p, |s|)
    ensures p <= |s|
    ensures |Render(s, len, marks, p, before, after)| == |s| - p + |marks| * (|before| + |after|)
    decreases |marks|
  {
    hide Spread;
    SpreadInside(marks, len, p, |s|);
    if marks != [] {
      SpreadRest(marks, len, p, |s|);
      var m := marks[0];
      var rest := Render(s, len, marks[1..], m + len, before, after);
      RenderLength(s, len, marks[1..], m + len, before, after);
      var extra := |before| + |after|;
      assert |marks| * extra == (|marks| - 1) * extra + extra;
      assert |Render(s, len, marks, p, before, after)|
          == |s[p..m]| + |before| + |s[m..m + len]| + |after| + |rest|;
    }
  }

  /** Around every marked word stands the one string before it and the other behind it, in that order. */
  lemma {:induction false} RenderAt(
      s: string, len: nat, marks: seq<nat>, p: nat, before: string, after: string, k: nat)
    requires Spread(marks, len, p, |s|) && k < |marks|
    ensures p <= marks[k] && marks[k] + len <= |s|
    ensures OccursAt(Render(s, len, marks, p, before, after), before + s[marks[k]..marks[k] + len] + after,
                     marks[k] - p + k * (|before| + |after|))
    decreases |marks|
  {
    hide Spread, OccursAt, Render;
    SpreadInside(marks, len, p, |s|);
    SpreadRest(marks, len, p, |s|);
    RenderFirst(s, len, marks, p, before, after);
    var m, extra := marks[0], |before| + |after|;
    var rest := Render(s, len, marks[1..], m + len, before, after);
    if k == 0 {
      OccursBetween(s[p..m], before + s[m..m + len] + after, rest);
    } else {
      RenderAt(s, len, marks[1..], m + len, before, after, k - 1);
      var word := before + s[marks[k]..marks[k] + len] + after;
      OneTimeMore(k - 1, extra);
      OccursFurther(s[p..m] + (before + s[m..m + len] + after), rest, word, marks[k] - (m + len) + (k - 1) * extra);
    }
  }

  lemma OneTimeMore(k: int, n: int)
    ensures (k + 1) * n == k * n + n
  {
  }

  lemma RenderFirst(s: string, len: nat, marks: seq<nat>, p: nat, before: string, after: string)
    requires marks != [] && Spread(marks, len, p, |s|)
    ensures p <= marks[0] && marks[0] + len <= |s| && Spread(marks[1..], len, marks[0] + len, |s|)
    ensures Render(s, len, marks, p, before, after)
         == s[p..marks[0]] + (before + s[marks[0]..marks[0] + len] + after)
            + Render(s, len, marks[1..], marks[0] + len, before, after)
  {
    SpreadInside(marks, len, p, |s|);
  }

  lemma OccursBetween(a: string, x: string, b: string)
    ensures OccursAt(a + x + b, x, |a|)
  {
  }

  lemma OccursFurther(head: string, s: string, x: string, at: nat)
    requires OccursAt(s, x, at)
    ensures OccursAt(head + s, x, |head| + at)
  {
    assert (head + s)[|head| + at..|head| + at + |x|] == s[at..at + |x|];
  }

  /** The rewritten text and its terminator against the buffer of twice the working text. */
  predicate PassFits(work: string, term: string, before: string, after: string)
    requires term != []
  {
    MarksSpread(work, term, 0);
    |Render(work, |term|, Marks(work, term, 0), 0, before, after)| + 1 <= 2 * |work|
  }

  /** A pass stays inside its buffers if and only if what it inserts is shorter than the text. */
  lemma PassFitsIff(work: string, term: string, before: string, after: string)
    requires term != []
    ensures PassFits(work, term, before, after)
       <==> |Marks(work, term, 0)| * (|before| + |after|) < |work|
  {
    MarksSpread(work, term, 0);
    RenderLength(work, |term|, Marks(work, term, 0), 0, before, after);
  }

  /** A text that is the term itself overruns when the two strings are together as long: "cat", "<b>", "</b>". */
  lemma LoneWordOverruns(term: string, before: string, after: string)
    requires term != []
    ensures PassFits(term, term, before, after) <==> |before| + |after| < |term|
  {
    assert term[0..|term|] == term;
    assert OccursAt(term, term, 0) && Find(term, term, 0) == Some(0);
    assert forall q :: |term| <= q ==> !OccursAt(term, term, q);
    assert Find(term, term, |term|) == None;
    MarksUnfolds(term, term, 0);
    MarksUnfolds(term, term, |term|);
    assert |Marks(term, term, 0)| == 1;
    PassFitsIff(term, term, before, after);
  }
}
