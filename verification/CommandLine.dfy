/**
 * The Windows command-line splitter `setargv` (cheshire2/zMain_NT_new.c): a counting
 * pass that sizes one block, a filling pass that writes every argument into it unchecked,
 * and the quoting rules of its header comment as an encoder.
 */
module CommandLine {
  import opened CStrings

  predicate IsBlank(c: char) {
    c == ' ' || c == '\t'
  }

  predicate Blanks(s: string) {
    forall i :: 0 <= i < |s| ==> IsBlank(s[i])
  }

  function Slashes(n: nat): (r: string)
    ensures |r| == n && NulFree(r)
    ensures forall i :: 0 <= i < n ==> r[i] == '\\'
  {
    seq(n, _ => '\\')
  }

  // ---------------------------------------------------------------- splitting, on values

  datatype Parsed = Parsed(arg: string, rest: string) {
    function After(before: string): Parsed {
      Parsed(before + arg, rest)
    }
  }

  /**
   * One argument. `slashes` counts the backslashes just read and not yet resolved: what
   * they mean depends on the character after the run.
   */
  function ParseArg(s: string, slashes: nat, inquote: bool): (r: Parsed)
    ensures |r.rest| <= |s|
    ensures s != [] && !IsBlank(s[0]) ==> |r.rest| < |s|
  {
    if s != [] && s[0] == '\\' then
      ParseArg(s[1..], slashes + 1, inquote)
    else if s != [] && s[0] == '"' then
      if slashes % 2 == 1 then
        ParseArg(s[1..], 0, inquote).After(Slashes(slashes / 2) + ['"'])
      else if inquote && 1 < |s| && s[1] == '"' then
        ParseArg(s[2..], 0, inquote).After(Slashes(slashes / 2) + ['"'])
      else
        ParseArg(s[1..], 0, !inquote).After(Slashes(slashes / 2))
    else if s == [] || (!inquote && IsBlank(s[0])) then
      Parsed(Slashes(slashes), s)
    else
      ParseArg(s[1..], 0, inquote).After(Slashes(slashes) + [s[0]])
  }

  /** The rest starts at a blank, and the argument is no longer than what it was read from. */
  lemma {:induction false} ParseArgSpan(s: string, slashes: nat, inquote: bool)
    ensures var r := ParseArg(s, slashes, inquote);
            && r.rest == s[|s| - |r.rest|..]
            && (r.rest == [] || IsBlank(r.rest[0]))
            && |r.arg| <= slashes + |s| - |r.rest|
  {
    if s != [] && s[0] == '\\' {
      ParseArgSpan(s[1..], slashes + 1, inquote);
    } else if s != [] && s[0] == '"' {
      if slashes % 2 == 1 {
        ParseArgSpan(s[1..], 0, inquote);
      } else if inquote && 1 < |s| && s[1] == '"' {
        ParseArgSpan(s[2..], 0, inquote);
      } else {
        ParseArgSpan(s[1..], 0, !inquote);
      }
    } else if s != [] && (inquote || !IsBlank(s[0])) {
      ParseArgSpan(s[1..], 0, inquote);
    }
  }

  lemma {:induction false} ParseArgNulFree(s: string, slashes: nat, inquote: bool)
    requires NulFree(s)
    ensures NulFree(ParseArg(s, slashes, inquote).arg)
  {
    if s != [] && s[0] == '\\' {
      ParseArgNulFree(s[1..], slashes + 1, inquote);
    } else if s != [] && s[0] == '"' {
      if slashes % 2 == 1 {
        ParseArgNulFree(s[1..], 0, inquote);
      } else if inquote && 1 < |s| && s[1] == '"' {
        ParseArgNulFree(s[2..], 0, inquote);
      } else {
        ParseArgNulFree(s[1..], 0, !inquote);
      }
    } else if s != [] && (inquote || !IsBlank(s[0])) {
      ParseArgNulFree(s[1..], 0, inquote);
    }
  }

  function SkipBlanks(s: string): (r: string)
    ensures |r| <= |s| && r == s[|s| - |r|..]
    ensures r == [] || !IsBlank(r[0])
  {
    if s == [] || !IsBlank(s[0]) then s else SkipBlanks(s[1..])
  }

  /** The whole line: skip blanks, take an argument, repeat. */
  function Split(s: string): (args: seq<string>)
    decreases |s|
  {
    var t := SkipBlanks(s);
    if t == [] then []
    else
      var r := ParseArg(t, 0, false);
      [r.arg] + Split(r.rest)
  }

  lemma {:induction false} SplitNulFree(s: string)
    requires NulFree(s)
    ensures forall a :: a in Split(s) ==> NulFree(a)
    decreases |s|
  {
    var t := SkipBlanks(s);
    if t != [] {
      ParseArgSpan(t, 0, false);
      ParseArgNulFree(t, 0, false);
      SplitNulFree(ParseArg(t, 0, false).rest);
    }
  }

  // ------------------------------------------------------------ the guess bounds the use

  /** Blank runs in `s`, not counting one already open before it. */
  function BlankRuns(s: string, inRun: bool): (n: nat) {
    if s == [] then 0
    else if IsBlank(s[0]) then (if inRun then 0 else 1) + BlankRuns(s[1..], true)
    else BlankRuns(s[1..], false)
  }

  lemma {:induction false} OpenRunMattersOnce(s: string)
    ensures BlankRuns(s, true) <= BlankRuns(s, false) <= BlankRuns(s, true) + 1
    ensures s != [] && IsBlank(s[0]) ==> BlankRuns(s, false) == BlankRuns(s, true) + 1
  {
  }

  /** A run of blanks starts at i. */
  predicate StartsRun(s: string, i: nat) {
    i < |s| && IsBlank(s[i]) && (i == 0 || !IsBlank(s[i - 1]))
  }

  ghost function RunStarts(s: string): set<nat> {
    set i: nat | i < |s| && StartsRun(s, i)
  }

  lemma {:induction false} BlankRunsEnd(s: string, c: char, inRun: bool)
    ensures var open := if s == [] then inRun else IsBlank(s[|s| - 1]);
            BlankRuns(s + [c], inRun) == BlankRuns(s, inRun) + if IsBlank(c) && !open then 1 else 0
  {
    hide IsBlank;
    if s != [] {
      assert (s + [c])[0] == s[0] && (s + [c])[1..] == s[1..] + [c];
      BlankRunsEnd(s[1..], c, IsBlank(s[0]));
    }
  }

  /** The runs counted are the places where one starts. */
  lemma {:induction false} BlankRunsCount(s: string)
    ensures |RunStarts(s)| == BlankRuns(s, false)
  {
    hide IsBlank, BlankRuns, RunStarts;
    if s == [] {
      NoRuns();
    } else {
      var n := |s| - 1;
      var t, c := s[..n], s[n];
      assert s == t + [c];
      BlankRunsCount(t);
      BlankRunsEnd(t, c, false);
      RunStartsEnd(t, c);
    }
  }

  lemma RunStartsEnd(t: string, c: char)
    ensures var s := t + [c];
            RunStarts(s) == RunStarts(t) + (if StartsRun(s, |t|) then {|t|} else {}) && |t| !in RunStarts(t)
  {
    hide IsBlank;
    var s := t + [c];
    assert forall i: nat | i < |t| :: StartsRun(s, i) == StartsRun(t, i);
  }

  lemma NoRuns()
    ensures BlankRuns([], false) == 0 && RunStarts([]) == {}
  {
  }

  lemma {:induction false} SuffixHasFewerRuns(s: string, k: nat)
    requires k <= |s|
    ensures BlankRuns(s[k..], false) <= BlankRuns(s, false)
  {
    if k == 0 {
      assert s[0..] == s;
    } else {
      assert s[1..][k - 1..] == s[k..];
      SuffixHasFewerRuns(s[1..], k - 1);
      OpenRunMattersOnce(s[1..]);
    }
  }

  lemma {:induction false} SkippingClosesTheRun(s: string)
    requires s == [] || IsBlank(s[0])
    ensures BlankRuns(SkipBlanks(s), false) <= BlankRuns(s, true)
  {
    if s != [] {
      if s[1..] != [] && IsBlank(s[1]) {
        SkippingClosesTheRun(s[1..]);
      } else {
        assert SkipBlanks(s[1..]) == s[1..];
        if s[1..] != [] {
          assert BlankRuns(s[1..], true) == BlankRuns(s[1..], false);
        }
      }
    }
  }

  /** A line has at most one argument more than it has blank runs. */
  lemma {:induction false} ArgsWithinGuess(s: string)
    ensures |Split(s)| <= 1 + BlankRuns(s, false)
    ensures s == [] || IsBlank(s[0]) ==> |Split(s)| <= BlankRuns(s, false)
    decreases |s|
  {
    hide *;
    var t := SkipBlanks(s);
    SplitUnfolds(s, t);
    if t != [] {
      var r := ParseArg(t, 0, false);
      ParseArgSpan(t, 0, false);
      SuffixHasFewerRuns(t, |t| - |r.rest|);
      SuffixHasFewerRuns(s, |s| - |t|);
      ArgsWithinGuess(r.rest);
      if s != [] && IsBlank(s[0]) {
        SkippingClosesTheRun(s);
        OpenRunMattersOnce(s);
      }
    }
  }

  /** Every argument with its terminator fits in the bytes of the line plus one. */
  lemma {:induction false} ArgsFitTheLine(s: string)
    ensures |Pack(Split(s))| <= |s| + 1
    ensures s == [] || IsBlank(s[0]) ==> |Pack(Split(s))| <= |s|
    decreases |s|
  {
    var t := SkipBlanks(s);
    if t != [] {
      var r := ParseArg(t, 0, false);
      ParseArgSpan(t, 0, false);
      ArgsFitTheLine(r.rest);
      assert Split(s)[1..] == Split(r.rest);
    }
  }

  // ------------------------------------------------------------------- the source's code

  /** First pass: two slots, and one more for every run of blanks. */
  method CountSlots(line: string) returns (size: nat)
    ensures size == 2 + BlankRuns(line, false)
  {
    size := 2;
    var p := 0;
    while p < |line|
      invariant 0 <= p <= |line|
      invariant size + BlankRuns(line[p..], false) == 2 + BlankRuns(line, false)
    {
      if IsBlank(line[p]) {
        size := size + 1;
        OpenRunMattersOnce(line[p..]);
        while p < |line| && IsBlank(line[p])
          invariant 0 <= p <= |line|
          invariant size + BlankRuns(line[p..], true) == 2 + BlankRuns(line, false)
        {
          assert line[p..][1..] == line[p + 1..];
          p := p + 1;
        }
        if p == |line| {
          break;
        }
      }
      assert line[p..][1..] == line[p + 1..];
      p := p + 1;
    }
  }

  /** Writes out the backslashes that turned out to be literal. */
  method WriteSlashes(block: array<char>, start: nat, slashes: nat) returns (end: nat)
    requires start + slashes <= block.Length
    modifies block
    ensures end == start + slashes
    ensures block[..end] == old(block[..start]) + Slashes(slashes)
  {
    end := start;
    var left := slashes;
    while left > 0
      invariant 0 <= left <= slashes && end == start + slashes - left
      invariant block[..start] == old(block[..start])
      invariant forall k :: start <= k < end ==> block[k] == '\\'
    {
      block[end] := '\\';
      end := end + 1;
      left := left - 1;
    }
    assert block[..end] == block[..start] + block[start..end];
    assert block[start..end] == Slashes(slashes);
  }

  predicate AtEndOfArg(line: string, p: nat, inquote: bool) {
    p >= |line| || (!inquote && IsBlank(line[p]))
  }

  /** What the scanner knows after a run of backslashes and the character that ended it. */
  datatype Run = Run(p: nat, slashes: nat, inquote: bool, copy: bool) {
    function Continue(line: string): Parsed {
      if AtEndOfArg(line, p, inquote) then Parsed(Slashes(slashes), line[if p <= |line| then p else |line|..])
      else ParseArg(line[p + 1..], 0, inquote).After(Put(line))
    }

    /** The characters this run adds to the argument when the argument goes on. */
    function Put(line: string): string
      requires p < |line|
    {
      Slashes(slashes) + if copy then [line[p]] else []
    }
  }

  /** The decision taken at the first character `p` after `slashes` backslashes. */
  function Decide(line: string, p: nat, slashes: nat, inquote: bool): (r: Run)
    requires p <= |line|
    ensures p - slashes + r.slashes <= r.p <= |line|
  {
    if p < |line| && line[p] == '"' then
      if slashes % 2 == 1 then Run(p, slashes / 2, inquote, true)
      else if inquote && p + 1 < |line| && line[p + 1] == '"' then Run(p + 1, slashes / 2, inquote, true)
      else Run(p, slashes / 2, !inquote, false)
    else Run(p, slashes, inquote, true)
  }

  lemma DecideIsParse(line: string, p: nat, slashes: nat, inquote: bool)
    requires p <= |line| && (p < |line| ==> line[p] != '\\')
    ensures ParseArg(line[p..], slashes, inquote) == Decide(line, p, slashes, inquote).Continue(line)
  {
  }

  lemma {:induction false} SlashesAccumulate(n: nat, t: string, m: nat, inquote: bool)
    ensures ParseArg(Slashes(n) + t, m, inquote) == ParseArg(t, m + n, inquote)
  {
    hide ParseArg;
    if n == 0 {
      assert Slashes(n) + t == t;
    } else {
      assert Slashes(n) + t == ['\\'] + (Slashes(n - 1) + t);
      OneSlash(Slashes(n - 1) + t, m, inquote);
      SlashesAccumulate(n - 1, t, m + 1, inquote);
    }
  }

  lemma OneSlash(t: string, m: nat, inquote: bool)
    ensures ParseArg(['\\'] + t, m, inquote) == ParseArg(t, m + 1, inquote)
  {
    assert (['\\'] + t)[1..] == t;
  }

  /** Top half of the scanning loop: count a run of backslashes and decide what it meant. */
  method ScanRun(line: string, p0: nat, inquote: bool) returns (r: Run)
    requires p0 <= |line|
    ensures p0 + r.slashes <= r.p <= |line|
    ensures ParseArg(line[p0..], 0, inquote) == r.Continue(line)
  {
    hide ParseArg, Decide, Run.Continue;
    var p, slashes := p0, 0;
    while p < |line| && line[p] == '\\'
      invariant p0 + slashes == p <= |line|
      invariant line[p0..p] == Slashes(slashes)
    {
      assert line[p0..p + 1] == line[p0..p] + [line[p]];
      slashes := slashes + 1;
      p := p + 1;
    }
    assert line[p0..] == Slashes(slashes) + line[p..];
    SlashesAccumulate(slashes, line[p..], 0, inquote);
    DecideIsParse(line, p, slashes, inquote);
    r := Decide(line, p, slashes, inquote);
  }

  /** What the scanner has written so far, followed by what the next run yields. */
  lemma RunWrites(r: Run, line: string, out: string)
    requires r.p <= |line|
    ensures AtEndOfArg(line, r.p, r.inquote) ==>
              r.Continue(line).After(out) == Parsed(out + Slashes(r.slashes), line[r.p..])
    ensures !AtEndOfArg(line, r.p, r.inquote) ==>
              r.p < |line| && r.Continue(line).After(out) ==
                ParseArg(line[r.p + 1..], 0, r.inquote).After(out + r.Put(line))
  {
  }

  lemma AfterNothing(r: Parsed)
    ensures r.After([]) == r
  {
  }

  /** The scanning loop for one argument, writing from `start` on. */
  method FillArg(line: string, p0: nat, block: array<char>, start: nat) returns (p: nat, end: nat)
    requires start <= p0 <= |line| < block.Length
    modifies block
    ensures p0 <= p <= |line| && start <= end <= p
    ensures var r := ParseArg(line[p0..], 0, false);
            line[p..] == r.rest && block[..end] == old(block[..start]) + r.arg
  {
    hide ParseArg, Slashes, Run.Continue, AtEndOfArg, Parsed.After;
    p := p0;
    end := start;
    var inquote := false;
    ghost var goal := ParseArg(line[p0..], 0, false);
    ghost var before := block[..start];
    ghost var out := [];
    AfterNothing(goal);
    while true
      invariant p0 <= p <= |line|
      invariant start <= end <= p
      invariant block[..end] == before + out
      invariant goal == ParseArg(line[p..], 0, inquote).After(out)
      decreases |line| - p
    {
      var r := ScanRun(line, p, inquote);
      RunWrites(r, line, out);
      end := WriteSlashes(block, end, r.slashes);
      p, inquote := r.p, r.inquote;
      if AtEndOfArg(line, p, inquote) {
        return;
      }
      if r.copy {
        block[end] := line[p];
        end := end + 1;
      }
      assert block[..end] == before + (out + r.Put(line));
      out := out + r.Put(line);
      p := p + 1;
    }
  }

  datatype Slot = Null | At(offset: nat)

  lemma SkipsOne(line: string, p: nat)
    requires p <= |line|
    ensures SkipBlanks(line[p..]) == if p < |line| && IsBlank(line[p]) then SkipBlanks(line[p + 1..]) else line[p..]
  {
  }

  method SkipOver(line: string, p0: nat) returns (p: nat)
    requires p0 <= |line|
    ensures p0 <= p <= |line| && line[p..] == SkipBlanks(line[p0..])
    ensures p0 < |line| && IsBlank(line[p0]) ==> p0 < p
  {
    hide SkipBlanks;
    p := p0;
    while p < |line| && IsBlank(line[p])
      invariant p0 <= p <= |line|
      invariant SkipBlanks(line[p..]) == SkipBlanks(line[p0..])
    {
      SkipsOne(line, p);
      p := p + 1;
    }
    SkipsOne(line, p);
  }

  /** The table and block after the arguments `done` have been stored. */
  ghost predicate Stored(done: seq<string>, argv: seq<Slot>, block: string) {
    && |done| <= |argv|
    && Pack(done) <= block
    && forall i :: 0 <= i < |done| ==> argv[i] == At(|Pack(done[..i])|)
  }

  lemma StoredNone(argv: seq<Slot>, block: string)
    ensures Stored([], argv, block) && Pack([]) == []
  {
  }

  lemma StoredUse(done: seq<string>, argv: seq<Slot>, block: string)
    requires Stored(done, argv, block)
    ensures Pack(done) <= block
  {
  }

  lemma StoredElsewhere(done: seq<string>, argv: seq<Slot>, argv': seq<Slot>, block: string)
    requires Stored(done, argv, block) && |argv'| == |argv| && argv'[..|done|] == argv[..|done|]
    ensures Stored(done, argv', block)
  {
  }

  lemma StoreOne(done: seq<string>, arg: string, argv: seq<Slot>, block: string, argv': seq<Slot>, block': string)
    requires Stored(done, argv, block)
    requires |done| < |argv| == |argv'| && argv'[..|done|] == argv[..|done|] && argv'[|done|] == At(|Pack(done)|)
    requires Pack(done) + arg + [NUL] <= block'
    ensures Stored(done + [arg], argv', block')
    ensures |Pack(done + [arg])| == |Pack(done)| + |arg| + 1
  {
    PackAppend(done, arg);
    forall i | 0 <= i < |done + [arg]|
      ensures argv'[i] == At(|Pack((done + [arg])[..i])|)
    {
      assert (done + [arg])[..i] == done[..i];
      if i < |done| {
        assert argv'[i] == argv[..|done|][i];
      } else {
        assert done[..i] == done;
      }
    }
  }

  lemma SplitUnfolds(s: string, t: string)
    requires t == SkipBlanks(s)
    ensures t == [] ==> Split(s) == Split(t) == []
    ensures t != [] ==> Split(s) == [ParseArg(t, 0, false).arg] + Split(ParseArg(t, 0, false).rest)
    ensures t != [] ==> ParseArg(t, 0, false).rest == [] || IsBlank(ParseArg(t, 0, false).rest[0])
  {
    ParseArgSpan(t, 0, false);
  }

  /** One turn of the filling loop, at the first character of an argument. */
  method StoreArg(line: string, p0: nat, argv: array<Slot>, argc: nat, block: array<char>, argSpace: nat,
                  ghost done: seq<string>) returns (p: nat, next: nat)
    requires argSpace == |Pack(done)| <= p0 < |line| < block.Length && argc == |done| < argv.Length
    requires Stored(done, argv[..], block[..])
    modifies argv, block
    ensures p0 <= p <= |line| && next <= p + 1
    ensures var r := ParseArg(line[p0..], 0, false);
            line[p..] == r.rest && Stored(done + [r.arg], argv[..], block[..]) && next == |Pack(done + [r.arg])|
  {
    hide *;
    ghost var argv0, block0, arg := argv[..], block[..], ParseArg(line[p0..], 0, false).arg;
    StoredUse(done, argv0, block0);
    argv[argc] := At(argSpace);
    assert argv[..argc] == argv0[..argc];
    assert block[..argSpace] == Pack(done);
    var end: nat;
    p, end := FillArg(line, p0, block, argSpace);
    block[end] := NUL;
    assert block[..end + 1] == Pack(done) + arg + [NUL];
    StoreOne(done, arg, argv0, block0, argv[..], block[..]);
    next := end + 1;
  }

  lemma Regrouped(done: seq<string>, arg: string, rest: seq<string>)
    ensures done + ([arg] + rest) == done + [arg] + rest
  {
  }

  /** The loop ends with nothing left, either because it stopped or because it has used all slots. */
  lemma Finished(done: seq<string>, rest: seq<string>, whole: seq<string>, size: nat)
    requires done + rest == whole && (rest == [] || (|done| == size && |whole| <= size))
    ensures done == whole
  {
  }

  /** The filling loop: it goes on while there are slots, and stops at the end of the line. */
  method FillTable(line: string, size: nat, argv: array<Slot>, block: array<char>) returns (argc: nat)
    requires |Split(line)| <= size < argv.Length && |line| < block.Length && Stored([], argv[..], block[..])
    modifies argv, block
    ensures argc == |Split(line)| && Stored(Split(line), argv[..], block[..])
  {
    hide *;
    var p, argSpace := 0, 0;
    argc := 0;
    ghost var done: seq<string> := [];
    assert line[0..] == line;
    StoredNone(argv[..], block[..]);
    while argc < size
      invariant 0 <= argc <= size
      invariant 0 <= p <= |line| && argc == |done| && argSpace == |Pack(done)|
      invariant argSpace <= p || (argSpace == p + 1 && (p == |line| || IsBlank(line[p])))
      invariant done + Split(line[p..]) == Split(line)
      invariant Stored(done, argv[..], block[..])
    {
      ghost var p0 := p;
      p := SkipOver(line, p);
      SplitUnfolds(line[p0..], line[p..]);
      if p == |line| {
        break;
      }
      ghost var arg := ParseArg(line[p..], 0, false).arg;
      p, argSpace := StoreArg(line, p, argv, argc, block, argSpace, done);
      Regrouped(done, arg, Split(line[p..]));
      done := done + [arg];
      argc := argc + 1;
    }
    Finished(done, Split(line[p..]), Split(line), size);
  }

  /**
   * The splitter: a slot table sized by the first pass and one block of the line's length
   * plus one, filled without further checks.
   */
  method SetArgv(line: string) returns (argc: nat, argv: array<Slot>, block: array<char>)
    ensures argc == |Split(line)| < argv.Length
    ensures argv[argc] == Null
    ensures argv.Length == 2 + BlankRuns(line, false) && block.Length == |line| + 1
    ensures Stored(Split(line), argv[..], block[..])
  {
    hide *;
    var size := CountSlots(line);
    argv := new Slot[size](_ => Null);
    block := new char[|line| + 1](_ => NUL);
    size := size - 1;
    ArgsWithinGuess(line);
    StoredNone(argv[..], block[..]);
    argc := FillTable(line, size, argv, block);
    ghost var filled := argv[..];
    argv[argc] := Null;
    StoredElsewhere(Split(line), filled, argv[..], block[..]);
  }
}
