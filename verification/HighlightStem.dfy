/**
 * Stemming a text in place (`stem_rep`, cheshire2/z_highlight.c:165-201): every word is
 * replaced by its stem, padded so that nothing behind it moves.
 */
module HighlightStem {
  import opened CStrings
  import opened HighlightCommand

  /** What the tokenizer cuts out of a C string. */
  predicate IsWord(w: string) {
    w != [] && NulFree(w) && forall i :: 0 <= i < |w| ==> !IsDelimiter(w[i])
  }

  /** A stemmer that never lengthens a word and returns a C string. */
  ghost predicate Shortens(stem: string -> string) {
    forall w :: IsWord(w) ==> |stem(w)| <= |w| && NulFree(stem(w))
  }

  /** A stem is a word again: not empty and without delimiters. */
  ghost predicate KeepsWords(stem: string -> string) {
    forall w :: IsWord(w) ==> IsWord(stem(w))
  }

  /** Leaving every word as it is, which `Stem` does with words holding a non-letter, is such a stemmer. */
  lemma UnchangedIsStemming()
    ensures var same := (w: string) => w; Shortens(same) && KeepsWords(same)
  {
  }

  function Nuls(n: nat): (r: string)
    ensures |r| == n && forall i :: 0 <= i < n ==> r[i] == NUL
  {
    seq(n, _ => NUL)
  }

  function Padded(v: string, n: nat): (r: string)
    requires |v| <= n
    ensures |r| == n
  {
    v + Nuls(n - |v|)
  }

  lemma WordIsWord(s: string)
    requires NulFree(s) && s != [] && !IsDelimiter(s[0])
    ensures IsWord(Word(s))
  {
  }

  /** The buffer after the tokenizing loop: stems, padding and cut delimiters as terminators. */
  function Cut(s: string, stem: string -> string): (r: string)
    requires Shortens(stem) && NulFree(s)
    ensures |r| == |s|
    decreases |s|
  {
    if s == [] then []
    else if IsDelimiter(s[0]) then [s[0]] + Cut(s[1..], stem)
    else
      var w := Word(s);
      WordIsWord(s);
      Padded(stem(w), |w|) + if |w| == |s| then [] else [NUL] + Cut(s[|w| + 1..], stem)
  }

  /** The last loop: terminators become blanks. */
  function Blanked(s: string): (r: string)
    ensures |r| == |s| && NulFree(r)
    ensures forall i :: 0 <= i < |s| ==> r[i] == if s[i] == NUL then ' ' else s[i]
  {
    seq(|s|, i requires 0 <= i < |s| => if s[i] == NUL then ' ' else s[i])
  }

  lemma CutAt(s: string, stem: string -> string, p: nat)
    requires Shortens(stem) && NulFree(s) && p <= |s|
    ensures p == |s| ==> Cut(s[p..], stem) == []
    ensures p < |s| && IsDelimiter(s[p]) ==> Cut(s[p..], stem) == [s[p]] + Cut(s[p + 1..], stem)
    ensures p < |s| && !IsDelimiter(s[p]) ==>
              var q := p + |Word(s[p..])|;
              p < q <= |s| && IsWord(s[p..q]) && Cut(s[p..], stem) == Padded(stem(s[p..q]), q - p)
                                 + if q == |s| then [] else [NUL] + Cut(s[q + 1..], stem)
  {
    hide IsDelimiter, Shortens, Padded, Cut;
    CutFirst(s[p..], stem);
    if p < |s| {
      assert s[p..][1..] == s[p + 1..];
      var q := p + |Word(s[p..])|;
      assert s[p..q] == Word(s[p..]);
      if q < |s| {
        assert s[p..][|Word(s[p..])| + 1..] == s[q + 1..];
      }
    }
  }

  lemma CutFirst(s: string, stem: string -> string)
    requires Shortens(stem) && NulFree(s)
    ensures s == [] ==> Cut(s, stem) == []
    ensures s != [] && IsDelimiter(s[0]) ==> Cut(s, stem) == [s[0]] + Cut(s[1..], stem)
    ensures s != [] && !IsDelimiter(s[0]) ==>
              var w := Word(s);
              IsWord(w) && Cut(s, stem) == Padded(stem(w), |w|)
                                 + if |w| == |s| then [] else [NUL] + Cut(s[|w| + 1..], stem)
  {
    if s != [] && !IsDelimiter(s[0]) {
      WordIsWord(s);
    }
  }

  /** Writes the stem over the word `buf[p..q]` and terminators up to `next`. */
  method StemWord(buf: array<char>, p: nat, q: nat, next: nat, v: string)
    requires p <= q <= next <= buf.Length && |v| <= q - p
    modifies buf
    ensures buf[..p] == old(buf[..p]) && buf[next..] == old(buf[next..])
    ensures buf[p..next] == Padded(v, q - p) + Nuls(next - q)
  {
    var i := 0;
    while i < |v|
      invariant 0 <= i <= |v|
      invariant buf[..p] == old(buf[..p]) && buf[next..] == old(buf[next..])
      invariant forall k :: 0 <= k < i ==> buf[p + k] == v[k]
    {
      buf[p + i] := v[i];
      i := i + 1;
    }
    var x := p + |v|;
    while x < next
      invariant p + |v| <= x <= next
      invariant buf[..p] == old(buf[..p]) && buf[next..] == old(buf[next..])
      invariant forall k :: 0 <= k < |v| ==> buf[p + k] == v[k]
      invariant forall k :: p + |v| <= k < x ==> buf[k] == NUL
    {
      buf[x] := NUL;
      x := x + 1;
    }
  }

  /** The end of the word that starts at p. */
  method WordEnd(buf: array<char>, p: nat) returns (q: nat)
    requires p <= buf.Length
    ensures q == p + |Word(buf[p..])| <= buf.Length
  {
    hide IsDelimiter, Word;
    q := p;
    while q < buf.Length && !IsDelimiter(buf[q])
      invariant p <= q <= buf.Length
      invariant forall i :: p <= i < q ==> !IsDelimiter(buf[i])
    {
      q := q + 1;
    }
    WordAt(buf[..], p, q);
    assert buf[..][p..] == buf[p..] && buf[..][p..q] == buf[p..q];
  }

  /** Not `ok` is the length of a NULL token being taken: the text has no word at all. */
  method StemRep(buf: array<char>, stem: string -> string) returns (ok: bool)
    requires Shortens(stem) && NulFree(buf[..])
    modifies buf
    ensures ok == (Tokens(old(buf[..])) != [])
    ensures buf[..] == if ok then Blanked(Cut(old(buf[..]), stem)) else old(buf[..])
  {
    hide IsDelimiter, Shortens, Cut, Word, Tokens, Padded;
    ghost var s := buf[..];
    var first, _ := NextToken(buf[..]);
    ok := first != [];
    if !ok {
      return;
    }
    var p := 0;
    ghost var done := [];
    assert s[0..] == s;
    while p < buf.Length
      invariant 0 <= p <= buf.Length == |s|
      invariant buf[..p] == done && buf[p..] == s[p..]
      invariant done + Cut(s[p..], stem) == Cut(s, stem)
    {
      CutAt(s, stem, p);
      assert buf[p] == s[p];
      if IsDelimiter(buf[p]) {
        assert buf[..p + 1] == done + [s[p]];
        assert done + ([s[p]] + Cut(s[p + 1..], stem)) == done + [s[p]] + Cut(s[p + 1..], stem);
        done := done + [s[p]];
        p := p + 1;
      } else {
        var q := WordEnd(buf, p);
        p, done := StemOne(buf, s, p, q, stem, done);
      }
    }
    CutAt(s, stem, p);
    assert buf[..] == Cut(s, stem);
    BlankOut(buf);
  }

  /** One turn of the loop: cut the word off, stem it, move on behind the cut. */
  method StemOne(buf: array<char>, ghost s: string, p: nat, q: nat, stem: string -> string, ghost done: string)
    returns (next: nat, ghost now: string)
    requires Shortens(stem) && NulFree(s) && p < q <= buf.Length == |s| && buf[..p] == done && buf[p..] == s[p..]
    requires q == p + |Word(s[p..])| && !IsDelimiter(s[p])
    requires done + Cut(s[p..], stem) == Cut(s, stem)
    modifies buf
    ensures p < next <= |s| && buf[..next] == now && buf[next..] == s[next..]
    ensures now + Cut(s[next..], stem) == Cut(s, stem)
  {
    hide IsDelimiter, Cut, Word, Padded;
    CutAt(s, stem, p);
    next := if q < buf.Length then q + 1 else q;
    assert buf[..][p..] == buf[p..];
    SameTails(buf[..], s, p, q, next);
    assert buf[p..q] == buf[..][p..q] && buf[next..] == buf[..][next..];
    var v := stem(buf[p..q]);
    StemWord(buf, p, q, next, v);
    ghost var put := Padded(v, q - p) + Nuls(next - q);
    assert buf[..next] == buf[..p] + buf[p..next];
    now := done + put;
    CutAt(s, stem, next);
    CutJoins(done, Padded(v, q - p), Nuls(next - q), Cut(s[next..], stem), next - q);
  }

  lemma SameTails(a: string, b: string, p: nat, q: nat, next: nat)
    requires |a| == |b| && p <= q <= next <= |a| && a[p..] == b[p..]
    ensures a[p..q] == b[p..q] && a[next..] == b[next..]
  {
    assert a[p..q] == a[p..][..q - p] && b[p..q] == b[p..][..q - p];
    assert a[next..] == a[p..][next - p..] && b[next..] == b[p..][next - p..];
  }

  lemma CutJoins(done: string, a: string, nuls: string, rest: string, n: nat)
    requires nuls == Nuls(n) && n <= 1 && (n == 0 ==> rest == [])
    ensures done + (a + nuls) + rest == done + (a + if n == 0 then [] else [NUL] + rest)
  {
  }

  method BlankOut(buf: array<char>)
    modifies buf
    ensures buf[..] == Blanked(old(buf[..]))
  {
    var i := 0;
    while i < buf.Length
      invariant 0 <= i <= buf.Length
      invariant forall k :: 0 <= k < i ==> buf[k] == old(if buf[k] == NUL then ' ' else buf[k])
      invariant forall k :: i <= k < buf.Length ==> buf[k] == old(buf[k])
    {
      if buf[i] == NUL {
        buf[i] := ' ';
      }
      i := i + 1;
    }
  }

  // --------------------------------------------------------- what stemming keeps

  function StemAll(words: seq<string>, stem: string -> string): (r: seq<string>) {
    if words == [] then [] else [stem(words[0])] + StemAll(words[1..], stem)
  }

  lemma {:induction false} TokensOfPadding(n: nat, t: string)
    ensures Tokens(Blanked(Nuls(n)) + t) == Tokens(t)
  {
    if n == 0 {
      assert Blanked(Nuls(n)) + t == t;
    } else {
      BlankDelimits();
      assert (Blanked(Nuls(n)) + t)[0] == ' ';
      assert (Blanked(Nuls(n)) + t)[1..] == Blanked(Nuls(n - 1)) + t;
      TokensOfPadding(n - 1, t);
    }
  }

  lemma TokensOfWord(v: string, t: string)
    requires v != [] && (forall i :: 0 <= i < |v| ==> !IsDelimiter(v[i])) && (t != [] ==> IsDelimiter(t[0]))
    ensures Tokens(v + t) == [v] + Tokens(t)
  {
    hide IsDelimiter;
    var s := v + t;
    assert forall i :: 0 <= i < |v| ==> s[i] == v[i];
    WordAt(s, 0, |v|);
    assert s[0..] == s && s[0..|v|] == v && s[|v|..] == t;
    TokensAt(s, 0);
  }

  lemma BlankedJoin(a: string, b: string)
    ensures Blanked(a + b) == Blanked(a) + Blanked(b)
  {
  }

  lemma BlankedNulFree(a: string)
    requires NulFree(a)
    ensures Blanked(a) == a
  {
  }

  /** A stemmed word, its padding, and whatever the cut leaves behind it. */
  lemma TokensOfStem(v: string, pad: nat, cut: bool, rest: string)
    requires IsWord(v) && (!cut ==> rest == [])
    ensures Tokens(Blanked(v + Nuls(pad) + if cut then [NUL] + rest else [])) == [v] + Tokens(Blanked(rest))
  {
    hide IsDelimiter, Tokens, Blanked;
    var tail := if cut then [NUL] + rest else [];
    BlankedJoin(v + Nuls(pad), tail);
    BlankedJoin(v, Nuls(pad));
    BlankedNulFree(v);
    var u := Blanked(tail);
    BlankDelimits();
    if cut {
      BlankedJoin([NUL], rest);
      assert Blanked([NUL]) == [' '];
      assert u[0] == ' ' && u[1..] == Blanked(rest);
      TokensAt(u, 0);
      assert u[0..] == u;
    }
    var t := Blanked(Nuls(pad)) + u;
    Regroup3(v, Blanked(Nuls(pad)), u);
    TokensOfPadding(pad, u);
    if pad > 0 {
      assert t[0] == Blanked(Nuls(pad))[0] == ' ';
    }
    TokensOfWord(v, t);
  }

  /** The words of the stemmed text are the stems of the words, in order; its length is unchanged. */
  lemma {:induction false} StemKeepsWords(s: string, stem: string -> string)
    requires Shortens(stem) && KeepsWords(stem) && NulFree(s)
    ensures |Blanked(Cut(s, stem))| == |s|
    ensures Tokens(Blanked(Cut(s, stem))) == StemAll(Tokens(s), stem)
    decreases |s|
  {
    hide IsDelimiter, Tokens, Blanked, Cut, Word, Shortens, KeepsWords, IsWord;
    CutAt(s, stem, 0);
    TokensAt(s, 0);
    assert s[0..] == s;
    if s == [] {
      TokensAt(Blanked(Cut(s, stem)), 0);
    } else if IsDelimiter(s[0]) {
      StemKeepsWords(s[1..], stem);
      var t := Blanked(Cut(s, stem));
      BlankedJoin([s[0]], Cut(s[1..], stem));
      BlankedNulFree([s[0]]);
      assert t[0] == s[0] && t[1..] == Blanked(Cut(s[1..], stem)) && t[0..] == t;
      TokensAt(t, 0);
    } else {
      var w := Word(s);
      assert s[0..|w|] == w;
      var cut := |w| < |s|;
      var rest := if cut then s[|w| + 1..] else [];
      StemKeepsWords(rest, stem);
      TokensAt(s, |w|);
      NothingCut(stem);
      StemIsWord(stem, w);
      TokensOfStem(stem(w), |w| - |stem(w)|, cut, if cut then Cut(rest, stem) else []);
      assert StemAll([w] + Tokens(rest), stem) == [stem(w)] + StemAll(Tokens(rest), stem);
    }
  }

  lemma StemIsWord(stem: string -> string, w: string)
    requires Shortens(stem) && KeepsWords(stem) && IsWord(w)
    ensures IsWord(stem(w)) && |stem(w)| <= |w|
  {
  }

  lemma NothingCut(stem: string -> string)
    requires Shortens(stem)
    ensures Cut([], stem) == [] && Blanked([]) == [] && Tokens([]) == []
  {
  }

  /** A word starts at p. */
  ghost predicate WordStarts(s: string, p: nat) {
    p < |s| && !IsDelimiter(s[p]) && (p == 0 || IsDelimiter(s[p - 1]))
  }

  function Spaces(n: nat): (r: string)
    ensures |r| == n && forall i :: 0 <= i < n ==> r[i] == ' '
  {
    seq(n, _ => ' ')
  }

  /**
   * What r has at p: the stem and then blanks where a word starts; where a delimiter stands, a
   * blank if it is right behind a word, and the delimiter otherwise.
   */
  ghost predicate InPlaceAt(s: string, r: string, stem: string -> string, p: nat) {
    && |r| == |s| && p < |s|
    && (WordStarts(s, p) ==>
          var w := Word(s[p..]);
          |stem(w)| <= |w| && r[p..p + |w|] == stem(w) + Spaces(|w| - |stem(w)|))
    && (IsDelimiter(s[p]) ==> r[p] == if 0 < p && !IsDelimiter(s[p - 1]) then ' ' else s[p])
  }

  lemma InPlaceBehind(s: string, r: string, stem: string -> string, b: nat, p: nat)
    requires 0 < b <= p < |s| == |r| && IsDelimiter(s[b - 1]) && InPlaceAt(s[b..], r[b..], stem, p - b)
    ensures InPlaceAt(s, r, stem, p)
  {
    hide IsDelimiter, Word;
    var t := s[b..];
    assert t[p - b] == s[p] && (p > b ==> t[p - b - 1] == s[p - 1]);
    assert t[p - b..] == s[p..];
    var w := Word(s[p..]);
    assert r[b..][p - b..p - b + |w|] == r[p..p + |w|];
  }

  lemma StemmedWord(s: string, stem: string -> string, tail: string, p: nat)
    requires Shortens(stem) && NulFree(s) && s != [] && !IsDelimiter(s[0])
    requires var w := Word(s);
             |stem(w)| <= |w| && p <= |w| && p < |s| && |w| + |tail| == |s| && (tail != [] ==> tail[0] == NUL)
    ensures var w := Word(s); InPlaceAt(s, Blanked(Padded(stem(w), |w|) + tail), stem, p)
  {
    hide IsDelimiter, Word;
    var w := Word(s);
    WordIsWord(s);
    var r := Blanked(Padded(stem(w), |w|) + tail);
    assert s[..|w|] == w;
    if p == 0 {
      assert s[0..] == s;
      assert r[0..|w|] == stem(w) + Spaces(|w| - |stem(w)|);
    } else {
      assert s[p - 1] == w[p - 1];
      assert p < |w| ==> s[p] == w[p];
    }
  }

  /** Stemming happens in place: every word where it stood, and of the rest only the delimiters behind words change. */
  lemma {:induction false} StemInPlace(s: string, stem: string -> string, p: nat)
    requires Shortens(stem) && NulFree(s) && p < |s|
    ensures InPlaceAt(s, Blanked(Cut(s, stem)), stem, p)
    decreases |s|
  {
    hide IsDelimiter, Shortens, Cut, Word, Padded, Blanked, InPlaceAt, IsWord;
    CutFirst(s, stem);
    var r := Blanked(Cut(s, stem));
    if IsDelimiter(s[0]) {
      BlankedJoin([s[0]], Cut(s[1..], stem));
      if p > 0 {
        StemInPlace(s[1..], stem, p - 1);
        assert r[1..] == Blanked(Cut(s[1..], stem));
        InPlaceBehind(s, r, stem, 1, p);
      } else {
        DelimiterStays(s, r, stem);
      }
    } else {
      var w := Word(s);
      StemShort(stem, w);
      if p > |w| {
        var b := |w| + 1;
        StemInPlace(s[b..], stem, p - b);
        var head := Padded(stem(w), |w|) + [NUL];
        Regroup3(Padded(stem(w), |w|), [NUL], Cut(s[b..], stem));
        BlankedJoin(head, Cut(s[b..], stem));
        assert r[b..] == Blanked(Cut(s[b..], stem));
        InPlaceBehind(s, r, stem, b, p);
      } else {
        StemmedWord(s, stem, if |w| == |s| then [] else [NUL] + Cut(s[|w| + 1..], stem), p);
      }
    }
  }

  lemma DelimiterStays(s: string, r: string, stem: string -> string)
    requires s != [] && IsDelimiter(s[0]) && |r| == |s| && r[0] == s[0]
    ensures InPlaceAt(s, r, stem, 0)
  {
  }

  lemma StemShort(stem: string -> string, w: string)
    requires Shortens(stem) && IsWord(w)
    ensures |stem(w)| <= |w| && NulFree(stem(w))
  {
  }
}
