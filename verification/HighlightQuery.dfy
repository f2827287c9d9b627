/**
 * The highlight command as a whole (cheshire2/z_highlight.c:289-396): terms of the query,
 * optional stemming of terms and data, lower case, and the passes.
 */
module HighlightQuery {
  import opened Basics
  import opened CStrings
  import opened HighlightFacts
  import opened HighlightCommand
  import opened HighlightStem

  /** What the command ends in. */
  datatype Outcome = Highlighted(text: string) | Crashed

  type Stemmer = string -> string

  function LowerAll(s: string): (r: string)
    ensures |r| == |s| && forall i :: 0 <= i < |s| ==> r[i] == LowerCase(s[i])
  {
    seq(|s|, i requires 0 <= i < |s| => LowerCase(s[i]))
  }

  function LowerEach(words: seq<string>): (r: seq<string>)
    ensures |r| == |words| && forall i :: 0 <= i < |words| ==> r[i] == LowerAll(words[i])
  {
    seq(|words|, i requires 0 <= i < |words| => LowerAll(words[i]))
  }

  /** Every term of the query is a C string. */
  predicate CStringTerms(q: Rpn) {
    match q
    case Both(_, left, right) => CStringTerms(left) && CStringTerms(right)
    case Term(text) => NulFree(text)
    case _ => true
  }

  lemma {:induction false} ExtractNulFree(q: Rpn)
    requires CStringTerms(q)
    ensures Extract(q).Text? ==> NulFree(Extract(q).text)
  {
    match q
    case Both(_, left, right) =>
      ExtractNulFree(left);
      ExtractNulFree(right);
    case _ =>
  }

  // ------------------------------------------------------- lower case and words commute

  /** No letter is a delimiter. */
  lemma DelimitersHaveNoCase(c: char)
    ensures IsDelimiter(LowerCase(c)) == IsDelimiter(c)
  {
    hide IsDelimiter;
    if 'A' <= c <= 'Z' {
      CapitalsDoNotDelimit(c);
      SmallLettersDoNotDelimit(LowerCase(c));
    }
  }

  lemma CapitalsDoNotDelimit(c: char)
    requires 'A' <= c <= 'Z'
    ensures !IsDelimiter(c)
  {
  }

  lemma SmallLettersDoNotDelimit(c: char)
    requires 'a' <= c <= 'z'
    ensures !IsDelimiter(c)
  {
  }

  lemma {:induction false} WordLower(s: string)
    ensures Word(LowerAll(s)) == LowerAll(Word(s))
  {
    hide IsDelimiter, LowerCase;
    if s != [] {
      DelimitersHaveNoCase(s[0]);
      assert LowerAll(s)[1..] == LowerAll(s[1..]);
      WordLower(s[1..]);
    }
  }

  lemma {:induction false} TokensLower(s: string)
    ensures Tokens(LowerAll(s)) == LowerEach(Tokens(s))
    decreases |s|
  {
    hide IsDelimiter, LowerCase, Word;
    if s != [] {
      DelimitersHaveNoCase(s[0]);
      TokensAt(s, 0);
      TokensAt(LowerAll(s), 0);
      assert s[0..] == s && LowerAll(s)[0..] == LowerAll(s);
      var n := if IsDelimiter(s[0]) then 1 else |Word(s)|;
      assert LowerAll(s)[n..] == LowerAll(s[n..]);
      WordLower(s);
      TokensLower(s[n..]);
    }
  }

  // ---------------------------------------------------------------------- the command

  /** The stemmed query and data, or the data as it is. */
  function Prepared(s: string, stemmer: Option<Stemmer>): (r: string)
    requires NulFree(s) && (stemmer.Some? ==> Shortens(stemmer.value))
    ensures |r| == |s|
  {
    match stemmer
    case None => s
    case Some(stem) => Blanked(Cut(s, stem))
  }

  /** The words looked for: those of the query, stemmed if asked, in lower case. */
  function SearchWords(q: Rpn, stemmer: Option<Stemmer>): (r: seq<string>) {
    LowerEach(match stemmer
              case None => QueryWords(q)
              case Some(stem) => StemAll(QueryWords(q), stem))
  }

  lemma PreparedTokens(q: Rpn, stemmer: Option<Stemmer>)
    requires CStringTerms(q) && Complete(q)
    requires stemmer.Some? ==> Shortens(stemmer.value) && KeepsWords(stemmer.value)
    ensures Extract(q).Text? && NulFree(Extract(q).text)
    ensures Tokens(Extract(q).text) == QueryWords(q)
    ensures Tokens(LowerAll(Prepared(Extract(q).text, stemmer))) == SearchWords(q, stemmer)
    ensures NonEmpty(SearchWords(q, stemmer))
  {
    hide Tokens, Extract, Complete, QueryWords, CStringTerms, Cut, Blanked, Shortens, KeepsWords, NonEmpty, StemAll;
    ExtractKeepsWords(q);
    ExtractNulFree(q);
    var text := Extract(q).text;
    var ready := Prepared(text, stemmer);
    TokensLower(ready);
    TokensNotEmpty(LowerAll(ready));
    if stemmer.Some? {
      StemKeepsWords(text, stemmer.value);
    }
  }

  /** `stem_rep` on a copy of the string, or no stemming. */
  method Prepare(s: string, stemmer: Option<Stemmer>) returns (ok: bool, r: string)
    requires NulFree(s) && (stemmer.Some? ==> Shortens(stemmer.value))
    ensures ok == (stemmer.None? || Tokens(s) != [])
    ensures ok ==> r == Prepared(s, stemmer)
  {
    hide Tokens, Cut, Blanked, Shortens;
    if stemmer.None? {
      return true, s;
    }
    var buf := new char[|s|](i requires 0 <= i < |s| => s[i]);
    assert buf[..] == s;
    ok := StemRep(buf, stemmer.value);
    r := buf[..];
  }

  /**
   * For every query, text and stemmer: the command crashes exactly on an incomplete query, or
   * when it is to stem a query or a text without words. Otherwise it makes one pass for each
   * word of the query, and its outcome is the data with copies of the two strings inserted.
   */
  method HighlightText(q: Rpn, data: string, stemmer: Option<Stemmer>, before: string, after: string)
    returns (r: Outcome)
    requires CStringTerms(q) && NulFree(data)
    requires stemmer.Some? ==> Shortens(stemmer.value) && KeepsWords(stemmer.value)
    ensures r.Crashed? <==> !Complete(q) || (stemmer.Some? && (QueryWords(q) == [] || Tokens(data) == []))
    ensures r.Highlighted? ==>
              var work := LowerAll(Prepared(data, stemmer));
              && NonEmpty(SearchWords(q, stemmer))
              && r.text == Passes(SearchWords(q, stemmer), Buffers(work, data), before, after).orig
    ensures r.Highlighted? ==> exists ins :: GrowsTo(data, ins, r.text) && Uses(ins, before, after)
  {
    hide Tokens, Extract, Complete, QueryWords, CStringTerms, Prepared, SearchWords, NonEmpty, Passes;
    hide Shortens, KeepsWords, GrowsTo, Uses, LowerAll;
    ExtractKeepsWords(q);
    var terms := Extract(q);
    if !terms.Text? {
      return Crashed;
    }
    PreparedTokens(q, stemmer);
    var ok, searchterms := Prepare(terms.text, stemmer);
    if !ok {
      return Crashed;
    }
    var ready, work := Prepare(data, stemmer);
    if !ready {
      return Crashed;
    }
    work := LowerAll(work);
    var text := HighlightAll(LowerAll(searchterms), work, data, before, after);
    ghost var ins := PassesKeepText(SearchWords(q, stemmer), Buffers(work, data), before, after);
    assert GrowsTo(data, ins, text) && Uses(ins, before, after);
    r := Highlighted(text);
  }
}
