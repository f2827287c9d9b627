/**
 * Every command line there is, as a spelling of its arguments: what the rules of `setargv`
 * (cheshire2/zMain_NT_new.c:396-401) let a caller write, piece by piece, and that the splitter
 * reads each spelling back. Quotes may open inside a word, and text may follow a closing quote.
 */
module CommandLineSpelling {
  import opened CStrings
  import opened CommandLine
  import opened CommandLineQuoting

  /** The pieces a word is spelled with. */
  datatype Mark =
    | Plain(c: char)  // any other character, a blank only between quotes
    | Backslash       // written twice before a quote, once otherwise
    | Literal         // a literal quote, as backslash quote
    | Twice           // a literal quote between quotes, as two quotes
    | Switch          // an opening or a closing quote

  /** The argument a row of marks stands for: switches leave no trace. */
  function Meaning(marks: seq<Mark>): (a: string) {
    if marks == [] then [] else Value(marks[0]) + Meaning(marks[1..])
  }

  function Value(m: Mark): (a: string) {
    match m
    case Plain(c) => [c]
    case Backslash => ['\\']
    case Literal => ['"']
    case Twice => ['"']
    case Switch => []
  }

  /** How the marks are written, with `slashes` backslashes pending. */
  function Spell(marks: seq<Mark>, slashes: nat): (r: string)
    decreases |marks|
  {
    if marks == [] then Slashes(slashes)
    else
      match marks[0]
      case Backslash => Spell(marks[1..], slashes + 1)
      case Plain(c) => Slashes(slashes) + ([c] + Spell(marks[1..], 0))
      case Literal => Slashes(2 * slashes) + (['\\', '"'] + Spell(marks[1..], 0))
      case Twice => Slashes(2 * slashes) + (['"', '"'] + Spell(marks[1..], 0))
      case Switch => Slashes(2 * slashes) + (['"'] + Spell(marks[1..], 0))
  }

  /** Blanks and doubled quotes only between quotes, and no quote right behind a closing one. */
  predicate Proper(marks: seq<Mark>, inquote: bool) {
    marks != [] ==>
      match marks[0]
      case Plain(c) => c != '\\' && c != '"' && (inquote || !IsBlank(c)) && Proper(marks[1..], inquote)
      case Backslash => Proper(marks[1..], inquote)
      case Literal => Proper(marks[1..], inquote)
      case Twice => inquote && Proper(marks[1..], inquote)
      case Switch => (inquote ==> marks[1..] == [] || !marks[1].Switch?) && Proper(marks[1..], !inquote)
  }

  /** Whether a quote is left open. */
  function LeftOpen(marks: seq<Mark>, inquote: bool): (r: bool) {
    if marks == [] then inquote else LeftOpen(marks[1..], if marks[0].Switch? then !inquote else inquote)
  }

  /** Only a word at the very end of the line can leave its quote open. */
  predicate MayFollow(rest: string, open: bool) {
    if open then rest == [] else EndsWord(rest)
  }

  lemma ParseEnd(slashes: nat, rest: string, inquote: bool)
    requires MayFollow(rest, inquote)
    ensures ParseArg(Slashes(slashes) + rest, 0, inquote) == Parsed(Slashes(slashes), rest)
  {
    SlashesAccumulate(slashes, rest, 0, inquote);
  }

  lemma ParseSwitch(n: nat, t: string, inquote: bool)
    requires inquote ==> t == [] || t[0] != '"'
    ensures ParseArg(['"'] + t, 2 * n, inquote) == ParseArg(t, 0, !inquote).After(Slashes(n))
  {
    assert (['"'] + t)[1..] == t;
  }

  /** Pending backslashes come first. */
  lemma {:induction false} SpellSlashed(marks: seq<Mark>, slashes: nat)
    requires slashes > 0
    ensures var r := Spell(marks, slashes); r != [] && r[0] == '\\'
    decreases |marks|
  {
    if marks != [] && marks[0].Backslash? {
      SpellSlashed(marks[1..], slashes + 1);
    }
  }

  /** What is spelled after a closing quote does not begin with another one. */
  lemma SwitchedOff(more: seq<Mark>, rest: string)
    requires Proper(more, false) && (more == [] || !more[0].Switch?) && MayFollow(rest, LeftOpen(more, false))
    ensures var t := Spell(more, 0) + rest; t == [] || t[0] != '"'
  {
    if more != [] && more[0].Backslash? {
      SpellSlashed(more[1..], 1);
    }
  }

  /** What a mark with n backslashes pending begins with. */
  function Lead(m: Mark, n: nat): (r: string)
    requires !m.Backslash?
  {
    match m
    case Plain(c) => Slashes(n) + [c]
    case Literal => Slashes(2 * n) + ['\\', '"']
    case Twice => Slashes(2 * n) + ['"', '"']
    case Switch => Slashes(2 * n) + ['"']
  }

  lemma Headed(m: Mark, more: seq<Mark>, n: nat, inquote: bool)
    requires !m.Backslash?
    ensures Spell([m] + more, n) == Lead(m, n) + Spell(more, 0)
    ensures LeftOpen([m] + more, inquote) == LeftOpen(more, if m.Switch? then !inquote else inquote)
    ensures Proper([m] + more, inquote) <==>
            && (m.Plain? ==> m.c != '\\' && m.c != '"' && (inquote || !IsBlank(m.c)))
            && (m.Twice? ==> inquote)
            && (m.Switch? && inquote ==> more == [] || !more[0].Switch?)
            && Proper(more, if m.Switch? then !inquote else inquote)
  {
    assert ([m] + more)[1..] == more;
  }

  /** What the rules ask of a mark between the given state and the text behind it. */
  predicate Fits(m: Mark, inquote: bool, tail: string) {
    && (m.Plain? ==> m.c != '\\' && m.c != '"' && (inquote || !IsBlank(m.c)))
    && (m.Twice? ==> inquote)
    && (m.Switch? && inquote ==> tail == [] || tail[0] != '"')
  }

  /** One mark with its backslashes, read in front of any text the rules allow there. */
  lemma LeadParses(m: Mark, n: nat, t: string, inquote: bool)
    requires !m.Backslash? && Fits(m, inquote, t)
    ensures ParseArg(Lead(m, n) + t, 0, inquote)
         == ParseArg(t, 0, if m.Switch? then !inquote else inquote).After(Slashes(n) + Value(m))
  {
    hide ParseArg, Slashes;
    match m
    case Plain(c) =>
      Regroup3(Slashes(n), [c], t);
      ParseOrdinary(n, c, t, inquote);
    case Literal =>
      Regroup3(Slashes(2 * n), ['\\', '"'], t);
      SlashesAccumulate(2 * n, ['\\', '"'] + t, 0, inquote);
      ParseEscaped(n, t, inquote);
    case Twice =>
      Regroup3(Slashes(2 * n), ['"', '"'], t);
      SlashesAccumulate(2 * n, ['"', '"'] + t, 0, inquote);
      ParseDoubled(n, t);
    case Switch =>
      Regroup3(Slashes(2 * n), ['"'], t);
      SlashesAccumulate(2 * n, ['"'] + t, 0, inquote);
      ParseSwitch(n, t, inquote);
      assert Slashes(n) + [] == Slashes(n);
  }

  lemma OneMark(m: Mark, more: seq<Mark>, slashes: nat, inquote: bool, rest: string)
    requires !m.Backslash? && Proper([m] + more, inquote) && MayFollow(rest, LeftOpen([m] + more, inquote))
    ensures var next := if m.Switch? then !inquote else inquote;
            && Proper(more, next) && MayFollow(rest, LeftOpen(more, next))
            && ParseArg(Spell([m] + more, slashes) + rest, 0, inquote)
               == ParseArg(Spell(more, 0) + rest, 0, next).After(Slashes(slashes) + Value(m))
  {
    hide ParseArg, Spell, Proper, LeftOpen, Lead, Value, Slashes;
    Headed(m, more, slashes, inquote);
    if m.Switch? && inquote {
      SwitchedOff(more, rest);
    }
    Regroup3(Lead(m, slashes), Spell(more, 0), rest);
    LeadParses(m, slashes, Spell(more, 0) + rest, inquote);
  }

  lemma BackslashStep(more: seq<Mark>, slashes: nat, inquote: bool)
    ensures Spell([Backslash] + more, slashes) == Spell(more, slashes + 1)
    ensures Proper([Backslash] + more, inquote) == Proper(more, inquote)
    ensures LeftOpen([Backslash] + more, inquote) == LeftOpen(more, inquote)
    ensures Slashes(slashes + 1) + Meaning(more) == Slashes(slashes) + Meaning([Backslash] + more)
  {
    assert ([Backslash] + more)[1..] == more;
    assert Slashes(slashes + 1) == Slashes(slashes) + ['\\'];
    Regroup3(Slashes(slashes), ['\\'], Meaning(more));
  }

  lemma MeaningStep(m: Mark, more: seq<Mark>, slashes: nat)
    ensures Slashes(slashes) + Value(m) + (Slashes(0) + Meaning(more)) == Slashes(slashes) + Meaning([m] + more)
  {
    hide Value;
    assert ([m] + more)[1..] == more;
    assert Slashes(0) + Meaning(more) == Meaning(more);
    Regroup3(Slashes(slashes), Value(m), Meaning(more));
  }

  /** One word, however it is spelled, reads back as what it means. */
  lemma {:induction false} SpellingParses(marks: seq<Mark>, slashes: nat, inquote: bool, rest: string)
    requires Proper(marks, inquote) && MayFollow(rest, LeftOpen(marks, inquote))
    ensures ParseArg(Spell(marks, slashes) + rest, 0, inquote) == Parsed(Slashes(slashes) + Meaning(marks), rest)
    decreases |marks|
  {
    hide ParseArg, Proper, LeftOpen, Spell, Meaning;
    if marks == [] {
      NoMarks(slashes, inquote);
      ParseEnd(slashes, rest, inquote);
    } else {
      var m, more := marks[0], marks[1..];
      assert marks == [m] + more;
      if m.Backslash? {
        BackslashStep(more, slashes, inquote);
        SpellingParses(more, slashes + 1, inquote, rest);
      } else {
        OneMark(m, more, slashes, inquote, rest);
        SpellingParses(more, 0, if m.Switch? then !inquote else inquote, rest);
        MeaningStep(m, more, slashes);
      }
    }
  }

  lemma NoMarks(slashes: nat, inquote: bool)
    ensures Spell([], slashes) == Slashes(slashes) && LeftOpen([], inquote) == inquote
    ensures Slashes(slashes) + Meaning([]) == Slashes(slashes)
  {
  }

  // ---------------------------------------------------------------- nothing but spellings

  function Backslashes(n: nat): (r: seq<Mark>)
    ensures |r| == n && forall i :: 0 <= i < n ==> r[i] == Backslash
  {
    seq(n, _ => Backslash)
  }

  lemma {:induction false} SpellBackslashes(n: nat, marks: seq<Mark>, slashes: nat, inquote: bool)
    ensures Spell(Backslashes(n) + marks, slashes) == Spell(marks, slashes + n)
    ensures Proper(Backslashes(n) + marks, inquote) == Proper(marks, inquote)
    ensures LeftOpen(Backslashes(n) + marks, inquote) == LeftOpen(marks, inquote)
  {
    if n == 0 {
      assert Backslashes(0) + marks == marks;
    } else {
      var more := Backslashes(n) + marks;
      assert more[1..] == Backslashes(n - 1) + marks;
      SpellBackslashes(n - 1, marks, slashes + 1, inquote);
    }
  }

  /** Where a word ends that begins in the given state: every beginning of a line has a spelling. */
  lemma {:induction false} WordIsSpelled(s: string, slashes: nat, inquote: bool)
    returns (marks: seq<Mark>, rest: string)
    ensures Proper(marks, inquote) && MayFollow(rest, LeftOpen(marks, inquote))
    ensures Spell(marks, 0) + rest == Slashes(slashes) + s
    ensures |rest| <= |s| && (s != [] && !IsBlank(s[0]) ==> |rest| < |s|)
    decreases |s|
  {
    hide Spell, Proper, LeftOpen, IsBlank;
    if s != [] && s[0] == '\\' {
      marks, rest := WordIsSpelled(s[1..], slashes + 1, inquote);
      assert Slashes(slashes + 1) + s[1..] == Slashes(slashes) + s;
    } else if s == [] || (!inquote && IsBlank(s[0])) {
      marks, rest := Backslashes(slashes), s;
      SpellBackslashes(slashes, [], 0, inquote);
      assert Backslashes(slashes) + [] == marks;
      NoMarks(slashes, inquote);
      EmptyProper(inquote);
    } else {
      var m, n, tail := NextMark(s, slashes, inquote);
      var more;
      more, rest := WordIsSpelled(tail, 0, if m.Switch? then !inquote else inquote);
      marks := WithMark(m, n, tail, more, rest, inquote);
    }
  }

  /** The mark a text begins with, after its backslashes. */
  lemma NextMark(s: string, slashes: nat, inquote: bool) returns (m: Mark, n: nat, tail: string)
    requires s != [] && s[0] != '\\' && (inquote || !IsBlank(s[0]))
    ensures |tail| < |s| && Fits(m, inquote, tail)
    ensures !m.Backslash? && Slashes(slashes) + s == Lead(m, n) + tail
  {
    var quote := s[0] == '"';
    n := if quote then slashes / 2 else slashes;
    var twice := quote && slashes % 2 == 0 && inquote && 1 < |s| && s[1] == '"';
    m := if !quote then Plain(s[0]) else if slashes % 2 == 1 then Literal else if twice then Twice else Switch;
    tail := s[if twice then 2 else 1..];
    Written(s, slashes, n, m, tail);
  }

  lemma WithMark(m: Mark, n: nat, tail: string, more: seq<Mark>, rest: string, inquote: bool)
    returns (marks: seq<Mark>)
    requires !m.Backslash? && Fits(m, inquote, tail) && Spell(more, 0) + rest == Slashes(0) + tail
    requires Proper(more, if m.Switch? then !inquote else inquote)
    ensures Proper(marks, inquote)
    ensures LeftOpen(marks, inquote) == LeftOpen(more, if m.Switch? then !inquote else inquote)
    ensures Spell(marks, 0) + rest == Lead(m, n) + tail
  {
    hide Spell, Proper, LeftOpen, IsBlank, Lead;
    assert Slashes(0) + tail == tail;
    if m.Switch? && inquote && more != [] && more[0].Switch? {
      SpelledSwitch(more, rest);
    }
    Headed(m, more, n, inquote);
    SpellBackslashes(n, [m] + more, 0, inquote);
    marks := Backslashes(n) + ([m] + more);
    Regroup3(Lead(m, n), Spell(more, 0), rest);
  }

  lemma SpelledSwitch(more: seq<Mark>, rest: string)
    requires more != [] && more[0].Switch?
    ensures var t := Spell(more, 0) + rest; t != [] && t[0] == '"'
  {
  }

  lemma Written(s: string, slashes: nat, n: nat, m: Mark, tail: string)
    requires s != [] && !m.Backslash?
    requires m.Plain? ==> s == [m.c] + tail && n == slashes
    requires !m.Plain? ==> n == slashes / 2
    requires m.Literal? ==> s == ['"'] + tail && slashes % 2 == 1
    requires m.Twice? ==> s == ['"', '"'] + tail && slashes % 2 == 0
    requires m.Switch? ==> s == ['"'] + tail && slashes % 2 == 0
    ensures Slashes(slashes) + s == Lead(m, n) + tail
  {
    if m.Literal? {
      assert Slashes(slashes) == Slashes(2 * n) + ['\\'];
    }
  }

  lemma EmptyProper(inquote: bool)
    ensures Proper([], inquote)
  {
  }

  // ---------------------------------------------------------------------- whole lines

  /** A word on a line: blanks before it, and its spelling. */
  datatype Spelled = Spelled(gap: string, marks: seq<Mark>)

  function LineOf(words: seq<Spelled>, trailer: string): (line: string) {
    if words == [] then trailer else words[0].gap + (Spell(words[0].marks, 0) + LineOf(words[1..], trailer))
  }

  /** Blanks between words; only the last one may leave its quote open, and nothing follows then. */
  predicate WellSpelled(words: seq<Spelled>, trailer: string) {
    && Blanks(trailer)
    && forall i :: 0 <= i < |words| ==>
         && Blanks(words[i].gap) && (0 < i ==> words[i].gap != [])
         && words[i].marks != [] && Proper(words[i].marks, false)
         && (LeftOpen(words[i].marks, false) ==> i == |words| - 1 && trailer == [])
  }

  function Meanings(words: seq<Spelled>): (r: seq<string>)
    ensures |r| == |words| && forall i :: 0 <= i < |words| ==> r[i] == Meaning(words[i].marks)
  {
    seq(|words|, i requires 0 <= i < |words| => Meaning(words[i].marks))
  }

  lemma WellSpelledTail(words: seq<Spelled>, trailer: string)
    requires words != [] && WellSpelled(words, trailer)
    ensures WellSpelled(words[1..], trailer)
    ensures MayFollow(LineOf(words[1..], trailer), LeftOpen(words[0].marks, false))
    ensures Meanings(words) == [Meaning(words[0].marks)] + Meanings(words[1..])
    ensures words[0].marks != [] && Proper(words[0].marks, false) && Blanks(words[0].gap)
  {
    hide Proper, LeftOpen, Spell, Meaning;
  }

  lemma SpellStartsWord(marks: seq<Mark>, rest: string)
    requires marks != [] && Proper(marks, false)
    ensures Spell(marks, 0) + rest != [] && !IsBlank((Spell(marks, 0) + rest)[0])
  {
    if marks[0].Backslash? {
      SpellSlashed(marks[1..], 1);
    }
  }

  lemma LineUnfolds(words: seq<Spelled>, trailer: string)
    ensures words == [] ==> LineOf(words, trailer) == trailer
    ensures words != [] ==>
              LineOf(words, trailer) == words[0].gap + (Spell(words[0].marks, 0) + LineOf(words[1..], trailer))
  {
  }

  /** Every line whose words are spelled by the rules splits into what the words mean. */
  lemma {:induction false} SpelledLineSplits(words: seq<Spelled>, trailer: string)
    requires WellSpelled(words, trailer)
    ensures Split(LineOf(words, trailer)) == Meanings(words)
    decreases |words|
  {
    hide *;
    LineUnfolds(words, trailer);
    var line := LineOf(words, trailer);
    if words == [] {
      TrailerOnly(trailer, words);
    } else {
      var marks, rest := words[0].marks, LineOf(words[1..], trailer);
      WellSpelledTail(words, trailer);
      SpellStartsWord(marks, rest);
      SpellingParses(marks, 0, false, rest);
      assert Slashes(0) + Meaning(marks) == Meaning(marks);
      SkipGap(words[0].gap, Spell(marks, 0) + rest);
      SplitUnfolds(line, Spell(marks, 0) + rest);
      SpelledLineSplits(words[1..], trailer);
    }
  }

  lemma TrailerOnly(trailer: string, words: seq<Spelled>)
    requires words == [] && WellSpelled(words, trailer)
    ensures Split(trailer) == Meanings(words)
  {
    SkipGap(trailer, []);
    assert trailer + [] == trailer;
  }

  /** And every line there is consists of such words. */
  lemma {:induction false} EveryLineIsSpelled(line: string) returns (words: seq<Spelled>, trailer: string)
    ensures WellSpelled(words, trailer) && LineOf(words, trailer) == line
    ensures line != [] && IsBlank(line[0]) && words != [] ==> words[0].gap != []
    decreases |line|
  {
    hide *;
    var gap, t := LeadingBlanks(line);
    if t == [] {
      words, trailer := [], line;
      OnlyBlanks(line, gap);
    } else {
      var marks, rest := WordIsSpelled(t, 0, false);
      NotSpelledEmpty(marks, t, rest);
      var more;
      more, trailer := EveryLineIsSpelled(rest);
      words := [Spelled(gap, marks)] + more;
      OpenIsLast(marks, more, trailer, rest);
      Preceded(gap, marks, more, trailer, rest);
    }
  }

  lemma OnlyBlanks(line: string, gap: string)
    requires Blanks(gap) && line == gap + []
    ensures WellSpelled([], line) && LineOf([], line) == line
  {
    assert line == gap;
  }

  lemma OpenIsLast(marks: seq<Mark>, more: seq<Spelled>, trailer: string, rest: string)
    requires WellSpelled(more, trailer) && LineOf(more, trailer) == rest && MayFollow(rest, LeftOpen(marks, false))
    ensures LeftOpen(marks, false) ==> more == [] && trailer == []
  {
    if LeftOpen(marks, false) {
      NothingLeft(more, trailer);
    }
  }

  lemma Preceded(gap: string, marks: seq<Mark>, more: seq<Spelled>, trailer: string, rest: string)
    requires Blanks(gap) && marks != [] && Proper(marks, false) && WellSpelled(more, trailer)
    requires LineOf(more, trailer) == rest && MayFollow(rest, LeftOpen(marks, false))
    requires LeftOpen(marks, false) ==> more == [] && trailer == []
    requires rest != [] && IsBlank(rest[0]) && more != [] ==> more[0].gap != []
    ensures WellSpelled([Spelled(gap, marks)] + more, trailer)
    ensures LineOf([Spelled(gap, marks)] + more, trailer) == gap + (Spell(marks, 0) + rest)
  {
    hide Proper, LeftOpen, Spell, IsBlank;
    var words := [Spelled(gap, marks)] + more;
    assert words[1..] == more;
    if more != [] {
      StartsSomewhere(more, trailer);
    }
  }

  lemma StartsSomewhere(words: seq<Spelled>, trailer: string)
    requires words != [] && WellSpelled(words, trailer)
    ensures LineOf(words, trailer) != []
  {
    SpellStartsWord(words[0].marks, LineOf(words[1..], trailer));
  }

  lemma LeadingBlanks(s: string) returns (gap: string, t: string)
    ensures Blanks(gap) && s == gap + t && (t == [] || !IsBlank(t[0]))
    ensures s != [] && IsBlank(s[0]) ==> gap != []
  {
    var k := 0;
    while k < |s| && IsBlank(s[k])
      invariant 0 <= k <= |s| && (k == 0 || IsBlank(s[0])) && forall i :: 0 <= i < k ==> IsBlank(s[i])
    {
      k := k + 1;
    }
    gap, t := s[..k], s[k..];
  }

  lemma NotSpelledEmpty(marks: seq<Mark>, t: string, rest: string)
    requires Spell(marks, 0) + rest == Slashes(0) + t && |rest| < |t|
    ensures marks != [] && Slashes(0) + t == t
  {
  }

  lemma NothingLeft(words: seq<Spelled>, trailer: string)
    requires WellSpelled(words, trailer) && LineOf(words, trailer) == []
    ensures words == [] && trailer == []
  {
    if words != [] {
      SpellStartsWord(words[0].marks, LineOf(words[1..], trailer));
    }
  }

  /** A tab separates words like a blank. */
  lemma TabSeparates()
    ensures Split("a\tc") == ["a", "c"]
  {
    hide Quote, Split, IsBlank;
    TabIsBlank();
    OneLetter('a');
    OneLetter('c');
    var words := [Word("", "a", Bare), Word("\t", "c", Bare)];
    assert words[1..] == [Word("\t", "c", Bare)] && words[1..][1..] == [];
    QuotedLineSplitsBack(words, "");
    assert Write(words[1..], "") == "\t" + ("c" + "");
    assert Write(words, "") == "" + ("a" + Write(words[1..], "")) == "a\tc";
    assert Args(words) == ["a", "c"];
  }

  lemma TabIsBlank()
    ensures IsBlank('\t') && Blanks("\t") && Blanks("") && Allowed("a", Bare) && Allowed("c", Bare)
  {
  }

  lemma OneLetter(c: char)
    requires c != '\\' && c != '"'
    ensures Quote([c], Bare) == [c]
  {
    assert [c][1..] == [];
    assert QuoteBody([], 0, Bare) == [];
  }
}
