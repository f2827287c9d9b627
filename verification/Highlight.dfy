/**
 * One pass of the highlighter (cheshire2/z_highlight.c:329-386): find a term in the
 * working text, and copy working and original text side by side with the two strings put
 * around every place where the term stands as a word.
 */
module Highlight {
  import opened Basics

  predicate IsPunct(c: char) {
    '!' <= c <= '/' || ':' <= c <= '@' || '[' <= c <= '`' || '{' <= c <= '~'
  }

  predicate Separates(c: char) {
    IsSpace(c) || IsPunct(c)
  }

  /** Of the printing characters exactly those other than letters and digits separate words. */
  lemma SeparatesMeans(c: char)
    requires ' ' <= c <= '~'
    ensures !Separates(c) <==> '0' <= c <= '9' || 'A' <= c <= 'Z' || 'a' <= c <= 'z'
  {
  }

  predicate OccursAt(s: string, term: string, q: nat) {
    q + |term| <= |s| && s[q..q + |term|] == term
  }

  /** What follows position `end` closes a word. */
  predicate ClosesWord(s: string, end: nat) {
    end >= |s| || Separates(s[end])
  }

  predicate OpensWord(s: string, q: nat) {
    q == 0 || (q <= |s| && Separates(s[q - 1]))
  }

  /** `strstr` from position p on. */
  function Find(s: string, term: string, p: nat): (r: Option<nat>)
    requires p <= |s|
    ensures r.Some? ==> p <= r.value && OccursAt(s, term, r.value)
    ensures r.Some? ==> forall q :: p <= q < r.value ==> !OccursAt(s, term, q)
    ensures r.None? ==> forall q :: p <= q ==> !OccursAt(s, term, q)
    decreases |s| - p
  {
    if OccursAt(s, term, p) then Some(p)
    else if p == |s| then None
    else Find(s, term, p + 1)
  }

  /** Where the pass puts the strings: the scan resumes after each occurrence, word or not. */
  function Marks(s: string, term: string, p: nat): (r: seq<nat>)
    requires p <= |s| && term != []
    decreases |s| - p
  {
    match Find(s, term, p)
    case None => []
    case Some(q) =>
      var end := q + |term|;
      if (q == p || Separates(s[q - 1])) && ClosesWord(s, end) then [q] + Marks(s, term, end)
      else Marks(s, term, end)
  }

  /** Marks that follow one another at or after p, each leaving room for the marked word. */
  predicate Spread(marks: seq<nat>, len: nat, p: nat, size: nat) {
    if marks == [] then p <= size
    else p <= marks[0] && Spread(marks[1..], len, marks[0] + len, size)
  }

  lemma {:induction false} SpreadInside(marks: seq<nat>, len: nat, p: nat, size: nat)
    requires Spread(marks, len, p, size)
    ensures p <= size && (marks != [] ==> marks[0] + len <= size)
  {
    if marks != [] {
      SpreadInside(marks[1..], len, marks[0] + len, size);
    }
  }

  /** A text from p on with the two strings around each marked word. */
  function Render(s: string, len: nat, marks: seq<nat>, p: nat, before: string, after: string): (r: string)
    requires Spread(marks, len, p, |s|)
    decreases |marks|, 1
  {
    SpreadInside(marks, len, p, |s|);
    if marks == [] then s[p..] else s[p..marks[0]] + Wrapped(s, len, marks, before, after)
  }

  /** The same from the first mark on. */
  function Wrapped(s: string, len: nat, marks: seq<nat>, before: string, after: string): (r: string)
    requires marks != [] && Spread(marks, len, marks[0], |s|)
    decreases |marks|, 0
  {
    SpreadInside(marks, len, marks[0], |s|);
    var m := marks[0];
    before + (s[m..m + len] + (after + Render(s, len, marks[1..], m + len, before, after)))
  }

  lemma {:induction false} SpreadEarlier(marks: seq<nat>, len: nat, p: nat, p': nat, size: nat)
    requires Spread(marks, len, p, size) && p' <= p
    ensures Spread(marks, len, p', size)
  {
  }

  lemma {:induction false} MarksSpread(s: string, term: string, p: nat)
    requires p <= |s| && term != []
    ensures Spread(Marks(s, term, p), |term|, p, |s|)
    decreases |s| - p
  {
    hide Find;
    match Find(s, term, p)
    case None =>
    case Some(q) =>
      MarksSpread(s, term, q + |term|);
      SpreadEarlier(Marks(s, term, q + |term|), |term|, q + |term|, p, |s|);
  }

  lemma Prepend(s: string, p: nat, q: nat, m: nat, x: string)
    requires p <= q <= m <= |s|
    ensures s[p..m] + x == s[p..q] + (s[q..m] + x)
  {
  }

  /** Starting earlier copies the text in between. */
  lemma RenderEarlier(s: string, len: nat, marks: seq<nat>, p: nat, p': nat, before: string, after: string)
    requires Spread(marks, len, p, |s|) && p' <= p
    ensures Spread(marks, len, p', |s|) && p <= |s|
    ensures Render(s, len, marks, p', before, after) == s[p'..p] + Render(s, len, marks, p, before, after)
  {
    hide Wrapped;
    SpreadInside(marks, len, p, |s|);
    if marks == [] {
      assert s[p'..] == s[p'..p] + s[p..];
    } else {
      Prepend(s, p', p, marks[0], Wrapped(s, len, marks, before, after));
    }
  }

  /** What one turn of the copying loop adds to a buffer. */
  function Chunk(s: string, p: nat, q: nat, end: nat, mark: bool, before: string, after: string): (r: string)
    requires p <= q <= end <= |s|
  {
    if mark then s[p..q] + before + s[q..end] + after else s[p..end]
  }

  predicate Marked(s: string, p: nat, q: nat, end: nat)
    requires p <= q <= |s|
  {
    (q == p || Separates(s[q - 1])) && ClosesWord(s, end)
  }

  lemma RenderStep(work: string, s: string, term: string, p: nat, before: string, after: string)
    requires p <= |work| == |s| && term != []
    ensures Spread(Marks(work, term, p), |term|, p, |s|)
    ensures match Find(work, term, p)
            case None => Render(s, |term|, Marks(work, term, p), p, before, after) == s[p..]
            case Some(q) =>
              var end := q + |term|;
              && Spread(Marks(work, term, end), |term|, end, |s|)
              && Render(s, |term|, Marks(work, term, p), p, before, after)
                 == Chunk(s, p, q, end, Marked(work, p, q, end), before, after)
                    + Render(s, |term|, Marks(work, term, end), end, before, after)
  {
    hide Find, Spread, Render, Marks, Marked, Chunk;
    MarksSpread(work, term, p);
    MarksUnfolds(work, term, p);
    match Find(work, term, p)
    case None => RenderNone(s, |term|, p, before, after);
    case Some(q) =>
      var end := q + |term|;
      var rest := Marks(work, term, end);
      MarksSpread(work, term, end);
      if Marked(work, p, q, end) {
        RenderMark(s, |term|, rest, p, q, before, after);
      } else {
        RenderSkip(s, |term|, rest, p, q, before, after);
      }
  }

  lemma RenderNone(s: string, len: nat, p: nat, before: string, after: string)
    requires p <= |s|
    ensures Spread([], len, p, |s|) && Render(s, len, [], p, before, after) == s[p..]
  {
  }

  lemma RenderMark(s: string, len: nat, rest: seq<nat>, p: nat, q: nat, before: string, after: string)
    requires Spread([q] + rest, len, p, |s|)
    ensures p <= q && q + len <= |s| && Spread(rest, len, q + len, |s|)
    ensures Render(s, len, [q] + rest, p, before, after)
         == Chunk(s, p, q, q + len, true, before, after) + Render(s, len, rest, q + len, before, after)
  {
    SpreadInside([q] + rest, len, p, |s|);
    assert ([q] + rest)[1..] == rest;
  }

  lemma RenderSkip(s: string, len: nat, rest: seq<nat>, p: nat, q: nat, before: string, after: string)
    requires p <= q && q + len <= |s| && Spread(rest, len, q + len, |s|)
    ensures Spread(rest, len, p, |s|)
    ensures Render(s, len, rest, p, before, after)
         == Chunk(s, p, q, q + len, false, before, after) + Render(s, len, rest, q + len, before, after)
  {
    hide Render;
    RenderEarlier(s, len, rest, q + len, p, before, after);
  }

  lemma MarksUnfolds(s: string, term: string, p: nat)
    requires p <= |s| && term != []
    ensures match Find(s, term, p)
            case None => Marks(s, term, p) == []
            case Some(q) =>
              var end := q + |term|;
              Marks(s, term, p) == if Marked(s, p, q, end) then [q] + Marks(s, term, end) else Marks(s, term, end)
  {
  }

  // --------------------------------------------------------------- the source's own loop

  method FindWord(s: string, term: string, p: nat) returns (r: Option<nat>)
    requires p <= |s|
    ensures r == Find(s, term, p)
  {
    var q := p;
    while q < |s|
      invariant p <= q <= |s| && Find(s, term, p) == Find(s, term, q)
    {
      if OccursAt(s, term, q) {
        return Some(q);
      }
      q := q + 1;
    }
    r := if OccursAt(s, term, q) then Some(q) else None;
  }

  /** Both buffers are rewritten by the same scan of the working text. */
  method Pass(work: string, orig: string, term: string, before: string, after: string)
    returns (work': string, orig': string)
    requires |work| == |orig| && term != []
    ensures var marks := Marks(work, term, 0);
            && Spread(marks, |term|, 0, |work|)
            && work' == Render(work, |term|, marks, 0, before, after)
            && orig' == Render(orig, |term|, marks, 0, before, after)
  {
    hide Marks, Render, Spread, Find, Separates, ClosesWord, Chunk;
    MarksSpread(work, term, 0);
    work', orig' := [], [];
    var p := 0;
    while true
      invariant p <= |work| && Spread(Marks(work, term, p), |term|, p, |work|)
      invariant work' + Render(work, |term|, Marks(work, term, p), p, before, after)
             == Render(work, |term|, Marks(work, term, 0), 0, before, after)
      invariant orig' + Render(orig, |term|, Marks(work, term, p), p, before, after)
             == Render(orig, |term|, Marks(work, term, 0), 0, before, after)
      decreases |work| - p
    {
      RenderStep(work, work, term, p, before, after);
      RenderStep(work, orig, term, p, before, after);
      var found := FindWord(work, term, p);
      if found == None {
        break;
      }
      var q, end := found.value, found.value + |term|;
      var mark := (q == p || Separates(work[q - 1])) && ClosesWord(work, end);
      work' := work' + Chunk(work, p, q, end, mark, before, after);
      orig' := orig' + Chunk(orig, p, q, end, mark, before, after);
      p := end;
    }
    work' := work' + work[p..];
    orig' := orig' + orig[p..];
  }
}
