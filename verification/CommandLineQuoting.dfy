/**
 * The quoting rules in the header comment of `setargv` (cheshire2/zMain_NT_new.c:396-401),
 * read as an encoder: quoting any arguments by them and spacing the results with blanks
 * gives a line that splits back into exactly those arguments.
 */
module CommandLineQuoting {
  import opened CStrings
  import opened CommandLine

  /** The three ways the rules give to write an argument. */
  datatype Style =
    | Bare     // without quotes around it, an inner quote written as backslash quote
    | Escaped  // in quotes, an inner quote written as backslash quote
    | Doubled  // in quotes, an inner quote written as two quotes

  /** An argument that needs no quotes around it: nothing in it ends a word. */
  predicate Unbroken(a: string) {
    forall i :: 0 <= i < |a| ==> !IsBlank(a[i])
  }

  predicate Allowed(a: string, style: Style) {
    style == Bare ==> a != [] && Unbroken(a)
  }

  function InnerQuote(style: Style): (r: string) {
    if style == Doubled then ['"', '"'] else ['\\', '"']
  }

  /**
   * An argument after its opening quote, if it has one, with its closing quote. `slashes`
   * backslashes are pending: they are doubled if a quote follows, and written as they are if not.
   */
  function QuoteBody(a: string, slashes: nat, style: Style): (r: string)
    decreases |a|
  {
    if a == [] then (if style == Bare then Slashes(slashes) else Slashes(2 * slashes) + ['"'])
    else if a[0] == '\\' then QuoteBody(a[1..], slashes + 1, style)
    else if a[0] == '"' then
      Slashes(2 * slashes) + InnerQuote(style) + QuoteBody(a[1..], 0, style)
    else Slashes(slashes) + [a[0]] + QuoteBody(a[1..], 0, style)
  }

  function Quote(a: string, style: Style): (r: string) {
    (if style == Bare then [] else ['"']) + QuoteBody(a, 0, style)
  }

  /** What may follow a written argument on the line. */
  predicate EndsWord(rest: string) {
    rest == [] || IsBlank(rest[0])
  }

  lemma {:induction false} ParseClosingQuote(slashes: nat, rest: string)
    requires EndsWord(rest)
    ensures ParseArg(Slashes(2 * slashes) + (['"'] + rest), 0, true) == Parsed(Slashes(slashes), rest)
  {
    SlashesAccumulate(2 * slashes, ['"'] + rest, 0, true);
    assert (['"'] + rest)[1..] == rest;
    assert ParseArg(rest, 0, false) == Parsed(Slashes(0), rest);
    assert Slashes(slashes) + Slashes(0) == Slashes(slashes);
  }

  lemma ParseDoubled(n: nat, tail: string)
    ensures ParseArg(['"', '"'] + tail, 2 * n, true) == ParseArg(tail, 0, true).After(Slashes(n) + ['"'])
  {
  }

  lemma ParseEscaped(n: nat, tail: string, inquote: bool)
    ensures ParseArg(['\\', '"'] + tail, 2 * n, inquote) == ParseArg(tail, 0, inquote).After(Slashes(n) + ['"'])
  {
  }

  lemma ParseInnerQuote(slashes: nat, style: Style, tail: string)
    ensures ParseArg(Slashes(2 * slashes) + (InnerQuote(style) + tail), 0, style != Bare)
         == ParseArg(tail, 0, style != Bare).After(Slashes(slashes) + ['"'])
  {
    hide ParseArg, Slashes;
    SlashesAccumulate(2 * slashes, InnerQuote(style) + tail, 0, style != Bare);
    if style == Doubled {
      ParseDoubled(slashes, tail);
    } else {
      ParseEscaped(slashes, tail, style != Bare);
    }
  }

  lemma {:induction false} ParseOrdinary(slashes: nat, c: char, tail: string, inquote: bool)
    requires c != '\\' && c != '"' && (inquote || !IsBlank(c))
    ensures ParseArg(Slashes(slashes) + ([c] + tail), 0, inquote)
         == ParseArg(tail, 0, inquote).After(Slashes(slashes) + [c])
  {
    SlashesAccumulate(slashes, [c] + tail, 0, inquote);
    assert ([c] + tail)[1..] == tail;
  }

  lemma ParseBareEnd(slashes: nat, rest: string)
    requires EndsWord(rest)
    ensures ParseArg(Slashes(slashes) + rest, 0, false) == Parsed(Slashes(slashes), rest)
  {
    SlashesAccumulate(slashes, rest, 0, false);
  }

  lemma {:induction false} QuoteBodyParses(a: string, slashes: nat, style: Style, rest: string)
    requires (style == Bare ==> Unbroken(a)) && EndsWord(rest)
    ensures ParseArg(QuoteBody(a, slashes, style) + rest, 0, style != Bare) == Parsed(Slashes(slashes) + a, rest)
    decreases |a|
  {
    hide ParseArg;
    if a == [] {
      assert Slashes(slashes) + a == Slashes(slashes);
      if style == Bare {
        ParseBareEnd(slashes, rest);
      } else {
        ParseClosingQuote(slashes, rest);
        assert QuoteBody(a, slashes, style) + rest == Slashes(2 * slashes) + (['"'] + rest);
      }
    } else if a[0] == '\\' {
      QuoteBodyParses(a[1..], slashes + 1, style, rest);
      assert Slashes(slashes) + a == Slashes(slashes + 1) + a[1..];
    } else {
      QuoteBodyParses(a[1..], 0, style, rest);
      assert Slashes(0) + a[1..] == a[1..];
      if a[0] == '"' {
        ParseInnerQuote(slashes, style, QuoteBody(a[1..], 0, style) + rest);
      } else {
        ParseOrdinary(slashes, a[0], QuoteBody(a[1..], 0, style) + rest, style != Bare);
      }
      QuoteBodyStep(a, slashes, style, rest);
    }
  }

  lemma QuoteBodyStep(a: string, slashes: nat, style: Style, rest: string)
    requires a != [] && a[0] != '\\'
    ensures var tail := QuoteBody(a[1..], 0, style) + rest;
            QuoteBody(a, slashes, style) + rest ==
            if a[0] == '"' then Slashes(2 * slashes) + (InnerQuote(style) + tail)
            else Slashes(slashes) + ([a[0]] + tail)
    ensures Slashes(slashes) + [a[0]] + a[1..] == Slashes(slashes) + a
  {
  }

  /** One argument, in any style the rules allow for it, reads back exactly. */
  lemma QuoteParses(a: string, style: Style, rest: string)
    requires Allowed(a, style) && EndsWord(rest)
    ensures ParseArg(Quote(a, style) + rest, 0, false) == Parsed(a, rest)
  {
    hide QuoteBody;
    var body := QuoteBody(a, 0, style) + rest;
    QuoteBodyParses(a, 0, style, rest);
    assert Slashes(0) + a == a;
    if style == Bare {
      assert Quote(a, style) + rest == body;
    } else {
      assert Quote(a, style) + rest == ['"'] + body;
      assert (['"'] + body)[1..] == body;
    }
  }

  /** An argument as a caller writes it: blanks before it, and a quoting style. */
  datatype Word = Word(gap: string, arg: string, style: Style)

  function Write(words: seq<Word>, trailer: string): (line: string) {
    if words == [] then trailer
    else words[0].gap + (Quote(words[0].arg, words[0].style) + Write(words[1..], trailer))
  }

  /** Blanks separate the words; only the first may come without any. */
  predicate Spaced(words: seq<Word>) {
    forall i :: 0 <= i < |words| ==>
      Blanks(words[i].gap) && (0 < i ==> words[i].gap != []) && Allowed(words[i].arg, words[i].style)
  }

  function Args(words: seq<Word>): (r: seq<string>)
    ensures |r| == |words| && forall i :: 0 <= i < |words| ==> r[i] == words[i].arg
  {
    seq(|words|, i requires 0 <= i < |words| => words[i].arg)
  }

  lemma {:induction false} SkipGap(gap: string, s: string)
    requires Blanks(gap) && (s == [] || !IsBlank(s[0]))
    ensures SkipBlanks(gap + s) == s
  {
    if gap == [] {
      assert gap + s == s;
    } else {
      assert (gap + s)[1..] == gap[1..] + s;
      SkipGap(gap[1..], s);
    }
  }

  lemma SpacedTail(words: seq<Word>, trailer: string)
    requires words != [] && Spaced(words) && Blanks(trailer)
    ensures Spaced(words[1..]) && EndsWord(Write(words[1..], trailer))
    ensures Args(words) == [words[0].arg] + Args(words[1..])
  {
  }

  lemma {:induction false} BodyStarts(a: string, slashes: nat)
    requires Unbroken(a) && (slashes > 0 || a != [])
    ensures var r := QuoteBody(a, slashes, Bare); r != [] && !IsBlank(r[0])
    decreases |a|
  {
    if a != [] && a[0] == '\\' {
      BodyStarts(a[1..], slashes + 1);
    }
  }

  lemma QuoteStartsWord(a: string, style: Style, rest: string)
    requires Allowed(a, style)
    ensures Quote(a, style) + rest != [] && !IsBlank((Quote(a, style) + rest)[0])
  {
    if style == Bare {
      BodyStarts(a, 0);
      assert Quote(a, style) == QuoteBody(a, 0, style);
    }
  }

  /**
   * The round trip: whatever the arguments, however each is quoted within the rules and
   * however the words are spaced, the splitter gives the arguments back, in order.
   */
  lemma {:induction false} QuotedLineSplitsBack(words: seq<Word>, trailer: string)
    requires Spaced(words) && Blanks(trailer)
    ensures Split(Write(words, trailer)) == Args(words)
    decreases |words|
  {
    hide *;
    WriteUnfolds(words, trailer);
    var line := Write(words, trailer);
    if words == [] {
      SkipGap(trailer, []);
      assert trailer + [] == trailer;
      SplitUnfolds(line, []);
    } else {
      var w, rest := words[0], Write(words[1..], trailer);
      var text := Quote(w.arg, w.style) + rest;
      SpacedTail(words, trailer);
      QuoteStartsWord(w.arg, w.style, rest);
      QuoteParses(w.arg, w.style, rest);
      SkipGap(w.gap, text);
      SplitUnfolds(line, text);
      QuotedLineSplitsBack(words[1..], trailer);
    }
  }

  lemma WriteUnfolds(words: seq<Word>, trailer: string)
    requires Spaced(words)
    ensures words == [] ==> Write(words, trailer) == trailer
    ensures words != [] ==>
      Write(words, trailer) == words[0].gap + (Quote(words[0].arg, words[0].style) + Write(words[1..], trailer))
    ensures words != [] ==> Allowed(words[0].arg, words[0].style) && Blanks(words[0].gap)
  {
  }

  /** Seen through the C interface: `argv[i]` points at the i-th quoted argument. */
  method SplitQuoted(words: seq<Word>, trailer: string) returns (argc: nat, argv: array<Slot>, block: array<char>)
    requires Spaced(words) && Blanks(trailer) && NulFree(Write(words, trailer))
    ensures argc == |words| < argv.Length && argv[argc] == Null
    ensures forall i :: 0 <= i < argc ==>
              argv[i].At? && argv[i].offset < block.Length && StringAt(block[..], argv[i].offset) == words[i].arg
  {
    hide *;
    var line := Write(words, trailer);
    argc, argv, block := SetArgv(line);
    QuotedLineSplitsBack(words, trailer);
    SplitNulFree(line);
    forall i | 0 <= i < argc
      ensures argv[i].At? && argv[i].offset < block.Length && StringAt(block[..], argv[i].offset) == words[i].arg
    {
      StoredReads(Args(words), argv[..], block[..], i);
    }
  }

  lemma StoredReads(done: seq<string>, argv: seq<Slot>, block: string, i: nat)
    requires Stored(done, argv, block) && i < |done| && NulFree(done[i])
    ensures argv[i].At? && argv[i].offset < |block| && StringAt(block, argv[i].offset) == done[i]
  {
    hide UpToNul;
    PackReads(done, i, block);
    assert done == done[..i] + done[i..];
    PackConcat(done[..i], done[i..]);
  }
}
