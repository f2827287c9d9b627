/**
 * The inner part of the highlight command (cheshire2/z_highlight.c): the terms of a query,
 * the words they are made of, and one pass over the text for each word.
 */
module HighlightCommand {
  import opened Highlight
  import opened HighlightFacts

  const DELIMITERS: string := " .,;:'!?()_=|{}[]$@#%^&*+<>?|~`\""

  predicate IsDelimiter(c: char) {
    c in DELIMITERS
  }

  /** The run of non-delimiters s starts with. */
  function Word(s: string): (w: string)
    ensures w <= s && forall i :: 0 <= i < |w| ==> !IsDelimiter(w[i])
    ensures |w| < |s| ==> IsDelimiter(s[|w|])
  {
    if s == [] || IsDelimiter(s[0]) then [] else [s[0]] + Word(s[1..])
  }

  /** The words `strtok` hands out, in order. */
  function Tokens(s: string): (r: seq<string>)
    decreases |s|
  {
    if s == [] then []
    else if IsDelimiter(s[0]) then Tokens(s[1..])
    else [Word(s)] + Tokens(s[|Word(s)|..])
  }

  predicate NonEmpty(terms: seq<string>) {
    forall i :: 0 <= i < |terms| ==> terms[i] != []
  }

  lemma {:induction false} TokensNotEmpty(s: string)
    ensures NonEmpty(Tokens(s))
    decreases |s|
  {
    hide IsDelimiter;
    if s != [] {
      TokensNotEmpty(if IsDelimiter(s[0]) then s[1..] else s[|Word(s)|..]);
    }
  }

  /** A string without its delimiters. */
  function Undelimited(s: string): (r: string) {
    if s == [] then [] else (if IsDelimiter(s[0]) then [] else [s[0]]) + Undelimited(s[1..])
  }

  function Joined(words: seq<string>): (r: string) {
    if words == [] then [] else words[0] + Joined(words[1..])
  }

  /** The words lose nothing but the delimiters. */
  lemma {:induction false} TokensLoseNothing(s: string)
    ensures Joined(Tokens(s)) == Undelimited(s)
    decreases |s|
  {
    hide IsDelimiter, Tokens;
    TokensAt(s, 0);
    assert s[0..] == s;
    if s != [] && IsDelimiter(s[0]) {
      TokensLoseNothing(s[1..]);
    } else if s != [] {
      var w, rest := Word(s), s[|Word(s)|..];
      TokensLoseNothing(rest);
      assert s == w + rest;
      UndelimitedBehind(w, rest);
      JoinedFirst(w, Tokens(rest));
    }
  }

  lemma JoinedFirst(w: string, words: seq<string>)
    ensures Joined([w] + words) == w + Joined(words)
  {
    assert ([w] + words)[1..] == words;
  }

  lemma {:induction false} UndelimitedBehind(w: string, rest: string)
    requires forall i :: 0 <= i < |w| ==> !IsDelimiter(w[i])
    ensures Undelimited(w + rest) == w + Undelimited(rest)
  {
    hide IsDelimiter;
    if w == [] {
      assert w + rest == rest;
    } else {
      assert (w + rest)[0] == w[0] && (w + rest)[1..] == w[1..] + rest;
      UndelimitedBehind(w[1..], rest);
      assert w == [w[0]] + w[1..];
    }
  }

  // -------------------------------------------------------------------- terms of a query

  datatype Operator = And | Or | AndNot | Prox

  /** A parsed query; `Absent` is a NULL pointer. */
  datatype Rpn = Absent | Both(op: Operator, left: Rpn, right: Rpn) | ResultSet | Term(text: string) | NoTerm

  /** What the extraction returns: a string, NULL, or a crash in `strlen(NULL)`. */
  datatype Extracted = Text(text: string) | Null | Crash

  function Extract(q: Rpn): (r: Extracted) {
    match q
    case Absent => Null
    case ResultSet => Text("")
    case Term(text) => Text(text)
    case NoTerm => Null
    case Both(op, left, right) =>
      var l := Extract(left);
      if l.Crash? then Crash
      else if l.Null? && (op.And? || op.AndNot?) then Null
      else
        var r := Extract(right);
        if r.Crash? then Crash
        else if r.Null? && op.And? then Null
        else if l.Null? || r.Null? then Crash
        else Text(l.text + " " + r.text)
  }

  /** The words of all terms of the query, left to right. */
  function QueryWords(q: Rpn): (r: seq<string>) {
    match q
    case Both(_, left, right) => QueryWords(left) + QueryWords(right)
    case Term(text) => Tokens(text)
    case _ => []
  }

  predicate Complete(q: Rpn) {
    match q
    case Absent => false
    case NoTerm => false
    case Both(_, left, right) => Complete(left) && Complete(right)
    case _ => true
  }

  lemma BlankDelimits()
    ensures IsDelimiter(' ')
  {
  }

  lemma {:induction false} WordStops(a: string, b: string)
    ensures Word(a + [' '] + b) == Word(a)
  {
    hide IsDelimiter;
    if a == [] {
      BlankDelimits();
      assert (a + [' '] + b)[0] == ' ';
    } else {
      assert (a + [' '] + b)[1..] == a[1..] + [' '] + b;
      WordStops(a[1..], b);
    }
  }

  lemma {:induction false} TokensJoin(a: string, b: string)
    ensures Tokens(a + [' '] + b) == Tokens(a) + Tokens(b)
    decreases |a|
  {
    hide IsDelimiter;
    var s := a + [' '] + b;
    if a == [] {
      BlankDelimits();
      assert s[0] == ' ' && s[1..] == b;
      assert Tokens(a) + Tokens(b) == Tokens(b);
    } else if IsDelimiter(a[0]) {
      assert s[1..] == a[1..] + [' '] + b;
      TokensJoin(a[1..], b);
    } else {
      var w := Word(a);
      WordStops(a, b);
      assert s[|w|..] == a[|w|..] + [' '] + b;
      TokensJoin(a[|w|..], b);
    }
  }

  /** Extraction succeeds exactly on queries without a missing part, and loses no word. */
  lemma {:induction false} ExtractKeepsWords(q: Rpn)
    ensures Extract(q).Text? <==> Complete(q)
    ensures Extract(q).Text? ==> Tokens(Extract(q).text) == QueryWords(q)
  {
    match q
    case Both(_, left, right) =>
      ExtractKeepsWords(left);
      ExtractKeepsWords(right);
      if Complete(q) {
        TokensJoin(Extract(left).text, Extract(right).text);
      }
    case _ =>
  }

  /** One missing operand: NULL comes back where the code looks for it, and the length of NULL is taken elsewhere. */
  lemma MissingOperand(op: Operator, text: string)
    ensures Extract(Both(op, NoTerm, Term(text))) == if op == And || op == AndNot then Null else Crash
    ensures Extract(Both(op, Term(text), NoTerm)) == if op == And then Null else Crash
    ensures Extract(Both(op, NoTerm, NoTerm)) == Extract(Both(op, NoTerm, Term(text)))
  {
  }

  // ------------------------------------------------------------------- all the passes

  datatype Buffers = Buffers(work: string, orig: string)

  /** Working and original text after a pass for each term in turn. */
  function Passes(terms: seq<string>, b: Buffers, before: string, after: string): (r: Buffers)
    requires |b.work| == |b.orig| && NonEmpty(terms)
    ensures |r.work| == |r.orig|
    decreases |terms|
  {
    if terms == [] then b
    else
      var marks := Marks(b.work, terms[0], 0);
      MarksSpread(b.work, terms[0], 0);
      RenderInStep(b.work, b.orig, |terms[0]|, marks, 0, before, after);
      Passes(terms[1..],
             Buffers(Render(b.work, |terms[0]|, marks, 0, before, after),
                     Render(b.orig, |terms[0]|, marks, 0, before, after)),
             before, after)
  }

  /**
   * For every list of terms and every text: the buffers stay equally long, and equal up to
   * case if they were; and the outcome is the original text with nothing but copies of the
   * two strings inserted.
   */
  lemma {:induction false} PassesKeepText(terms: seq<string>, b: Buffers, before: string, after: string)
    returns (ins: seq<Insertion>)
    requires |b.work| == |b.orig| && NonEmpty(terms)
    ensures var r := Passes(terms, b, before, after);
            && (SameLetters(b.work, b.orig) ==> SameLetters(r.work, r.orig))
            && GrowsTo(b.orig, ins, r.orig) && Uses(ins, before, after)
    decreases |terms|
  {
    hide SameLetters, GrowsTo, Uses, Render, Marks;
    if terms == [] {
      ins := [];
      GrowsNot(b.orig, before, after);
    } else {
      var len, marks := |terms[0]|, Marks(b.work, terms[0], 0);
      MarksSpread(b.work, terms[0], 0);
      RenderInStep(b.work, b.orig, len, marks, 0, before, after);
      var next := Buffers(Render(b.work, len, marks, 0, before, after), Render(b.orig, len, marks, 0, before, after));
      var first := RenderGrows(b.orig, len, marks, 0, before, after);
      assert b.orig[0..] == b.orig;
      var rest := PassesKeepText(terms[1..], next, before, after);
      GrowsOn(b.orig, first, next.orig, rest, Passes(terms, b, before, after).orig);
      ins := first + rest;
      UsesBoth(first, rest, before, after);
    }
  }

  lemma UsesBoth(a: seq<Insertion>, b: seq<Insertion>, before: string, after: string)
    requires Uses(a, before, after) && Uses(b, before, after)
    ensures Uses(a + b, before, after)
  {
  }

  /** Tokens and words, read at a position of the string they are cut from. */
  lemma TokensAt(s: string, p: nat)
    requires p <= |s|
    ensures p == |s| ==> Tokens(s[p..]) == []
    ensures p < |s| && IsDelimiter(s[p]) ==> Tokens(s[p..]) == Tokens(s[p + 1..])
    ensures p < |s| && !IsDelimiter(s[p]) ==>
              p < p + |Word(s[p..])| <= |s| && Tokens(s[p..]) == [Word(s[p..])] + Tokens(s[p + |Word(s[p..])|..])
  {
  }

  lemma WordAt(s: string, p: nat, q: nat)
    requires p <= q <= |s| && (forall i :: p <= i < q ==> !IsDelimiter(s[i])) && (q < |s| ==> IsDelimiter(s[q]))
    ensures Word(s[p..]) == s[p..q]
  {
  }

  /** One step of `strtok_r`: skip delimiters, cut a word off; none left gives the empty word. */
  method NextToken(s: string) returns (word: string, rest: string)
    ensures word == [] ==> Tokens(s) == []
    ensures word != [] ==> Tokens(s) == [word] + Tokens(rest)
    ensures |rest| <= |s| && (word != [] ==> |rest| < |s|)
  {
    hide IsDelimiter, Tokens, Word;
    var p := 0;
    assert s[0..] == s;
    while p < |s| && IsDelimiter(s[p])
      invariant 0 <= p <= |s| && Tokens(s[p..]) == Tokens(s)
    {
      TokensAt(s, p);
      p := p + 1;
    }
    var q := p;
    while q < |s| && !IsDelimiter(s[q])
      invariant p <= q <= |s|
      invariant forall i :: p <= i < q ==> !IsDelimiter(s[i])
    {
      q := q + 1;
    }
    TokensAt(s, p);
    TokensAt(s, q);
    WordAt(s, p, q);
    word := s[p..q];
    rest := if q < |s| then s[q + 1..] else s[q..];
  }

  /** The loop of the command over the words of the (lower-cased) search terms. */
  method HighlightAll(terms: string, work: string, data: string, before: string, after: string)
    returns (result: string)
    requires |work| == |data|
    ensures NonEmpty(Tokens(terms))
         && result == Passes(Tokens(terms), Buffers(work, data), before, after).orig
  {
    hide Passes, Tokens, NonEmpty;
    TokensNotEmpty(terms);
    var b := Buffers(work, data);
    PassesDone(b, before, after);
    ghost var goal := Passes(Tokens(terms), b, before, after);
    var word, rest := NextToken(terms);
    while word != []
      invariant word == [] ==> goal == b
      invariant word != [] ==> |b.work| == |b.orig| && NonEmpty([word] + Tokens(rest))
                               && goal == Passes([word] + Tokens(rest), b, before, after)
      decreases word != [], |rest|
    {
      PassesStep(word, Tokens(rest), b, before, after);
      var w, o := Pass(b.work, b.orig, word, before, after);
      b := Buffers(w, o);
      word, rest := NextToken(rest);
      PassesDone(b, before, after);
    }
    PassesDone(b, before, after);
    result := b.orig;
  }

  lemma PassesStep(word: string, more: seq<string>, b: Buffers, before: string, after: string)
    requires |b.work| == |b.orig| && NonEmpty([word] + more)
    ensures word != []
    ensures var marks := Marks(b.work, word, 0);
            Spread(marks, |word|, 0, |b.work|) && NonEmpty(more) &&
            var next := Buffers(Render(b.work, |word|, marks, 0, before, after),
                                Render(b.orig, |word|, marks, 0, before, after));
            |next.work| == |next.orig| &&
            Passes([word] + more, b, before, after) == Passes(more, next, before, after)
  {
    hide Render, Marks;
    assert ([word] + more)[0] == word && ([word] + more)[1..] == more;
    assert forall i :: 0 <= i < |more| ==> ([word] + more)[i + 1] == more[i];
    MarksSpread(b.work, word, 0);
    RenderInStep(b.work, b.orig, |word|, Marks(b.work, word, 0), 0, before, after);
  }

  lemma PassesDone(b: Buffers, before: string, after: string)
    requires |b.work| == |b.orig|
    ensures Passes([], b, before, after) == b
  {
  }
}
