/**
 * Breaking an output line (`outputline`, cheshire2/z_dispmarc.c:420-476): the line is cut
 * in place at blanks, and every part after the first is printed behind an indent.
 */
module LineWrap {
  import opened Basics
  import opened CStrings

  /** The last blank in the first `window` characters, or -1. */
  function LastBlank(s: string, window: int): (k: int)
    requires window <= |s|
    ensures -1 <= k && (window >= 0 ==> k < window) && (window < 0 ==> k == -1)
    ensures k >= 0 ==> s[k] == ' '
    ensures forall i :: 0 <= i && k < i < window ==> s[i] != ' '
    decreases if window < 0 then 0 else window
  {
    if window <= 0 then -1
    else if s[window - 1] == ' ' then window - 1
    else LastBlank(s, window - 1)
  }

  /** The parts of a line, or the scan for a blank running out of its window. */
  datatype Cut = Parts(parts: seq<string>) | RunsOff

  /** Parts of at most `room` characters. */
  function CutRest(s: string, room: int): (r: Cut)
    ensures r.Parts? ==> r.parts != []
    decreases |s|
  {
    if |s| <= room then Parts([s])
    else
      var k := LastBlank(s, room + 1);
      if k < 0 then RunsOff
      else
        match CutRest(s[k + 1..], room)
        case RunsOff => RunsOff
        case Parts(rest) => Parts([s[..k]] + rest)
  }

  /** The whole line: it fits, or its first part is cut from the first `maxlen` characters. */
  function CutLine(line: string, maxlen: int, indent: int): (r: Cut)
    ensures r.Parts? ==> r.parts != []
  {
    if |line| <= maxlen then Parts([line])
    else
      var k := LastBlank(line, maxlen);
      if k < 0 then RunsOff
      else
        match CutRest(line[k + 1..], maxlen - (indent + 3))
        case RunsOff => RunsOff
        case Parts(rest) => Parts([line[..k]] + rest)
  }

  /** The parts with the removed blanks put back. */
  function Rejoin(parts: seq<string>): (s: string)
    requires parts != []
  {
    if |parts| == 1 then parts[0] else parts[0] + [' '] + Rejoin(parts[1..])
  }

  lemma RejoinOn(s: string, k: nat, rest: seq<string>)
    requires k < |s| && s[k] == ' ' && rest != [] && Rejoin(rest) == s[k + 1..]
    ensures Rejoin([s[..k]] + rest) == s
  {
  }

  lemma {:induction false} RestRejoins(s: string, room: int)
    requires CutRest(s, room).Parts?
    ensures Rejoin(CutRest(s, room).parts) == s
    ensures forall i :: 0 <= i < |CutRest(s, room).parts| ==> |CutRest(s, room).parts[i]| <= room
    decreases |s|
  {
    hide LastBlank, Rejoin;
    if |s| > room {
      var k := LastBlank(s, room + 1);
      RestRejoins(s[k + 1..], room);
      RejoinOn(s, k, CutRest(s[k + 1..], room).parts);
    } else {
      OnePart(s);
    }
  }

  lemma OnePart(s: string)
    ensures Rejoin([s]) == s
  {
  }

  /**
   * Whenever the cut succeeds: the parts rejoin to the line, the first is within the width,
   * and every other one is within it together with its indent of three more.
   */
  lemma CutRejoins(line: string, maxlen: int, indent: nat)
    requires CutLine(line, maxlen, indent).Parts?
    ensures var parts := CutLine(line, maxlen, indent).parts;
            && Rejoin(parts) == line
            && |parts[0]| <= maxlen
            && forall i :: 0 < i < |parts| ==> indent + 3 + |parts[i]| <= maxlen
  {
    hide LastBlank, Rejoin, CutRest;
    if |line| > maxlen {
      var k := LastBlank(line, maxlen);
      var room := maxlen - (indent + 3);
      RestRejoins(line[k + 1..], room);
      RejoinOn(line, k, CutRest(line[k + 1..], room).parts);
    } else {
      OnePart(line);
    }
  }

  // ---------------------------------------------------------------- when it succeeds

  /** A word of more than `room` characters at position w. */
  ghost predicate LongWordAt(s: string, room: int, w: int) {
    0 <= w && w + room < |s| && forall i :: w <= i <= w + room ==> s[i] != ' '
  }

  ghost predicate HasLongWord(s: string, room: int) {
    exists w :: LongWordAt(s, room, w)
  }

  lemma LongWordBehind(s: string, room: nat, k: int)
    requires 0 <= k <= room < |s| && s[k] == ' '
    ensures HasLongWord(s, room) <==> HasLongWord(s[k + 1..], room)
  {
    var t := s[k + 1..];
    if w :| LongWordAt(s, room, w) {
      assert w > k;
      assert LongWordAt(t, room, w - (k + 1));
    }
    if w :| LongWordAt(t, room, w) {
      forall i | w + k + 1 <= i <= w + k + 1 + room ensures s[i] != ' ' {
        assert s[i] == t[i - (k + 1)];
      }
      assert LongWordAt(s, room, w + k + 1);
    }
  }

  /** The later parts can be cut exactly when no word is longer than their room. */
  lemma {:induction false} RestCutsIff(s: string, room: int)
    ensures CutRest(s, room).Parts? <==> !HasLongWord(s, room)
    decreases |s|
  {
    if |s| > room {
      var k := LastBlank(s, room + 1);
      if k < 0 {
        assert LongWordAt(s, room, 0);
      } else {
        LongWordBehind(s, room, k);
        RestCutsIff(s[k + 1..], room);
      }
    }
  }

  /** The whole line, as a caller can check it beforehand, for every width and indent. */
  lemma CutsIff(line: string, maxlen: int, indent: int)
    ensures CutLine(line, maxlen, indent).Parts? <==>
            |line| <= maxlen ||
            (LastBlank(line, maxlen) >= 0
             && !HasLongWord(line[LastBlank(line, maxlen) + 1..], maxlen - (indent + 3)))
  {
    hide CutRest, HasLongWord;
    if |line| > maxlen && LastBlank(line, maxlen) >= 0 {
      RestCutsIff(line[LastBlank(line, maxlen) + 1..], maxlen - (indent + 3));
    }
  }

  // ------------------------------------------------------------------- the source's code

  function Blank(n: nat): (r: string)
    ensures |r| == n && forall i :: 0 <= i < n ==> r[i] == ' '
  {
    seq(n, _ => ' ')
  }

  /** The calls of the output function for a row of parts. */
  function Calls(parts: seq<string>, indent: nat): (r: seq<string>)
    requires parts != []
  {
    if |parts| == 1 then [Blank(indent), parts[0]]
    else [Blank(indent), parts[0], "\n"] + Calls(parts[1..], indent)
  }

  /** All calls: a line that fits is passed on whole, otherwise the first part stands without indent. */
  function AllCalls(parts: seq<string>, indent: nat): (r: seq<string>)
    requires parts != []
  {
    if |parts| == 1 then parts else [parts[0], "\n"] + Calls(parts[1..], indent + 3)
  }

  /** A C string in a buffer from position p on: the text and its terminator. */
  ghost predicate Holds(buf: array<char>, p: nat, s: string)
    reads buf
  {
    p + |s| < buf.Length && buf[p..p + |s|] == s && buf[p + |s|] == NUL && NulFree(s)
  }

  /** Looks for a blank from `c` down to `low`; `low - 1` means it would leave the window. */
  method BreakPoint(buf: array<char>, low: nat, c0: int, ghost s: string) returns (c: int)
    requires Holds(buf, low, s) && c0 < low + |s|
    ensures c == low + LastBlank(s, c0 - low + 1)
  {
    c := c0;
    if c < low {
      c := low - 1;
    }
    while c >= low && buf[c] != ' '
      invariant low - 1 <= c < low + |s|
      invariant LastBlank(s, c - low + 1) == LastBlank(s, c0 - low + 1)
    {
      assert buf[c] == buf[low..low + |s|][c - low];
      c := c - 1;
    }
    if c >= low {
      assert buf[c] == buf[low..low + |s|][c - low];
    }
  }

  /** `strlen` and the text an output function is handed, at once. */
  method ReadAt(buf: array<char>, p: nat, ghost s: string) returns (text: string)
    requires Holds(buf, p, s)
    ensures text == s
  {
    var q := p;
    while buf[q] != NUL
      invariant p <= q <= p + |s| && buf[p..q] == s[..q - p]
      decreases p + |s| - q
    {
      assert buf[p..p + |s|][q - p] == buf[q];
      q := q + 1;
    }
    text := buf[p..q];
  }

  /** `*c = '\0'` at a break: two strings where there was one. */
  method Break(buf: array<char>, p: nat, k: nat, ghost s: string)
    requires Holds(buf, p, s) && k < |s|
    modifies buf
    ensures Holds(buf, p, s[..k]) && Holds(buf, p + k + 1, s[k + 1..])
  {
    assert buf[p..p + k] == buf[p..p + |s|][..k];
    assert buf[p + k + 1..p + |s|] == buf[p..p + |s|][k + 1..];
    buf[p + k] := NUL;
    assert buf[p..p + k] == s[..k];
    assert buf[p + k + 1..p + |s|] == s[k + 1..];
  }

  /** A part that has to be broken: its calls, and what is left to do. */
  lemma BreakUnfolds(s: string, room: int, indent: nat)
    requires |s| > room
    ensures LastBlank(s, room + 1) < 0 ==> CutRest(s, room) == RunsOff
    ensures LastBlank(s, room + 1) >= 0 ==>
              var k := LastBlank(s, room + 1);
              var rest := CutRest(s[k + 1..], room);
              && CutRest(s, room).Parts? == rest.Parts?
              && (rest.Parts? ==> Calls(CutRest(s, room).parts, indent)
                                  == [Blank(indent), s[..k], "\n"] + Calls(rest.parts, indent))
  {
  }

  /** A part that fits is the last one. */
  lemma LastUnfolds(s: string, room: int, indent: nat)
    requires |s| <= room
    ensures CutRest(s, room) == Parts([s]) && Calls([s], indent) == [Blank(indent), s]
  {
  }

  /** The loop for the rest of the line; `ok` is false where the C code would leave the window. */
  method OutputRest(buf: array<char>, p0: nat, maxlen: int, indent: nat, ghost s: string)
    returns (ok: bool, out: seq<string>)
    requires Holds(buf, p0, s)
    modifies buf
    ensures ok == CutRest(s, maxlen - indent).Parts?
    ensures ok ==> out == Calls(CutRest(s, maxlen - indent).parts, indent)
  {
    hide CutRest, LastBlank, Calls, Holds;
    var room := maxlen - indent;
    var p: nat := p0;
    var next := ReadAt(buf, p, s);
    out := [];
    while |next| > room
      invariant Holds(buf, p, next)
      invariant CutRest(next, room).Parts? == CutRest(s, room).Parts?
      invariant CutRest(s, room).Parts? ==>
                  out + Calls(CutRest(next, room).parts, indent) == Calls(CutRest(s, room).parts, indent)
      decreases |next|
    {
      BreakUnfolds(next, room, indent);
      var c := BreakPoint(buf, p, p + room, next);
      if c < p {
        return false, [];
      }
      Break(buf, p, c - p, next);
      var part := ReadAt(buf, p, next[..c - p]);
      out := out + [Blank(indent), part, "\n"];
      next := ReadAt(buf, c + 1, next[c - p + 1..]);
      p := c + 1;
    }
    LastUnfolds(next, room, indent);
    out := out + [Blank(indent), next];
    ok := true;
  }

  /** `outputline` on a line of raw text: what is passed to the output function, call by call. */
  method OutputLine(buf: array<char>, maxlen: int, indent: nat, ghost line: string) returns (ok: bool, out: seq<string>)
    requires Holds(buf, 0, line)
    modifies buf
    ensures ok == CutLine(line, maxlen, indent).Parts?
    ensures ok ==> out == AllCalls(CutLine(line, maxlen, indent).parts, indent)
  {
    hide CutRest, LastBlank, Calls, Holds;
    var text := ReadAt(buf, 0, line);
    if |text| <= maxlen {
      return true, [text];
    }
    var c := BreakPoint(buf, 0, maxlen - 1, line);
    if c < 0 {
      return false, [];
    }
    Break(buf, 0, c, line);
    var first := ReadAt(buf, 0, line[..c]);
    ghost var rest := line[c + 1..];
    ok, out := OutputRest(buf, c + 1, maxlen, indent + 3, rest);
    if ok {
      ghost var parts := CutRest(rest, maxlen - (indent + 3)).parts;
      assert ([line[..c]] + parts)[1..] == parts;
      out := [first, "\n"] + out;
    }
  }

  // ------------------------------------------------------------------- what is printed

  /** The text a row of calls puts out. */
  function Concat(calls: seq<string>): (r: string) {
    if calls == [] then [] else calls[0] + Concat(calls[1..])
  }

  lemma ConcatOne(a: string, more: seq<string>)
    ensures Concat([a] + more) == a + Concat(more) && Concat([a]) == a
  {
    assert ([a] + more)[1..] == more && [a][1..] == [];
  }

  lemma ConcatFew(a: string, b: string, c: string, more: seq<string>)
    ensures Concat([a, b]) == a + b
    ensures Concat([a, b] + more) == a + (b + Concat(more))
    ensures Concat([a, b, c] + more) == (a + b) + (c + Concat(more))
  {
    hide Concat;
    ConcatOne(a, [b]);
    ConcatOne(b, []);
    assert [a] + [b] == [a, b];
    assert [a, b] + more == [a] + ([b] + more) && [a, b, c] + more == [a] + ([b] + ([c] + more));
    ConcatOne(a, [b] + more);
    ConcatOne(b, more);
    ConcatOne(a, [b] + ([c] + more));
    ConcatOne(b, [c] + more);
    ConcatOne(c, more);
    Regroup3(a, b, c + Concat(more));
  }

  ghost predicate OnOneLine(parts: seq<string>) {
    forall i :: 0 <= i < |parts| ==> '\n' !in parts[i]
  }

  function Indented(parts: seq<string>, indent: nat): (r: seq<string>)
    ensures |r| == |parts| && forall i :: 0 <= i < |parts| ==> r[i] == Blank(indent) + parts[i]
  {
    seq(|parts|, i requires 0 <= i < |parts| => Blank(indent) + parts[i])
  }

  lemma {:induction false} CallsPrint(parts: seq<string>, indent: nat)
    requires parts != [] && OnOneLine(parts)
    ensures Pieces(Concat(Calls(parts, indent)), '\n') == Indented(parts, indent)
    decreases |parts|
  {
    hide Pieces, Concat;
    var first := Blank(indent) + parts[0];
    NoNewline(indent, parts[0]);
    if |parts| == 1 {
      ConcatFew(Blank(indent), parts[0], "", []);
      PiecesWhole(first, '\n');
      assert Indented(parts, indent) == [first];
    } else {
      CallsPrint(parts[1..], indent);
      ConcatFew(Blank(indent), parts[0], "\n", Calls(parts[1..], indent));
      PiecesJoin(first, '\n', Concat(Calls(parts[1..], indent)));
      assert Indented(parts, indent) == [first] + Indented(parts[1..], indent);
    }
  }

  lemma NoNewline(indent: nat, part: string)
    requires '\n' !in part
    ensures '\n' !in Blank(indent) + part
  {
  }

  lemma AllCallsPrint(parts: seq<string>, indent: nat)
    requires parts != [] && OnOneLine(parts)
    ensures Pieces(Concat(AllCalls(parts, indent)), '\n') == [parts[0]] + Indented(parts[1..], indent + 3)
  {
    hide Pieces, Concat, Calls;
    if |parts| == 1 {
      assert parts == [parts[0]];
      ConcatOne(parts[0], []);
      PiecesWhole(parts[0], '\n');
      assert Indented(parts[1..], indent + 3) == [];
    } else {
      CallsPrint(parts[1..], indent + 3);
      ConcatFew(parts[0], "\n", "", Calls(parts[1..], indent + 3));
      PiecesJoin(parts[0], '\n', Concat(Calls(parts[1..], indent + 3)));
    }
  }

  lemma {:induction false} RejoinHolds(parts: seq<string>, c: char, i: nat)
    requires i < |parts| && c in parts[i]
    ensures c in Rejoin(parts)
    decreases i
  {
    if i > 0 {
      RejoinHolds(parts[1..], c, i - 1);
    }
  }

  /** The printed lines without their indents. */
  function Unindented(lines: seq<string>, indent: nat): (r: seq<string>)
    ensures |r| == |lines|
    ensures forall i :: 0 <= i < |lines| ==>
              r[i] == if i == 0 || |lines[i]| < indent then lines[i] else lines[i][indent..]
  {
    seq(|lines|, i requires 0 <= i < |lines| => if i == 0 || |lines[i]| < indent then lines[i] else lines[i][indent..])
  }

  /**
   * What a reader sees of a line that can be wrapped: no printed line is wider than the width,
   * all but the first begin with their indent, and without the indents, with a blank for each
   * break, they are the line.
   */
  lemma PrintedLines(line: string, maxlen: int, indent: nat)
    requires CutLine(line, maxlen, indent).Parts? && '\n' !in line
    ensures var lines := Pieces(Concat(AllCalls(CutLine(line, maxlen, indent).parts, indent)), '\n');
            && (forall i :: 0 <= i < |lines| ==> |lines[i]| <= maxlen)
            && (forall i :: 0 < i < |lines| ==> |lines[i]| >= indent + 3 && lines[i][..indent + 3] == Blank(indent + 3))
            && Rejoin(Unindented(lines, indent + 3)) == line
  {
    hide CutLine, Rejoin, Pieces, Concat, AllCalls, Blank;
    var parts := CutLine(line, maxlen, indent).parts;
    CutRejoins(line, maxlen, indent);
    forall i | 0 <= i < |parts|
      ensures '\n' !in parts[i]
    {
      if '\n' in parts[i] {
        RejoinHolds(parts, '\n', i);
      }
    }
    AllCallsPrint(parts, indent);
    var lines := [parts[0]] + Indented(parts[1..], indent + 3);
    forall i | 0 < i < |lines|
      ensures lines[i] == Blank(indent + 3) + parts[i]
    {
      assert lines[i] == Indented(parts[1..], indent + 3)[i - 1];
    }
    assert Unindented(lines, indent + 3) == parts;
  }

  // -------------------------------------------------------------------- no line too short

  /** The first word of s: up to its first blank, or all of it. */
  function FirstWord(s: string): (w: string)
    ensures w <= s && ' ' !in w && (|w| < |s| ==> s[|w|] == ' ')
  {
    if s == [] || s[0] == ' ' then [] else [s[0]] + FirstWord(s[1..])
  }

  /** Each part is as long as it can be: with the next word it would be too wide. */
  lemma {:induction false} RestIsGreedy(s: string, room: int, i: nat)
    requires CutRest(s, room).Parts? && i + 1 < |CutRest(s, room).parts|
    ensures var parts := CutRest(s, room).parts;
            |parts[i]| + 1 + |FirstWord(parts[i + 1])| > room
    decreases |s|
  {
    hide LastBlank, FirstWord;
    var k := LastBlank(s, room + 1);
    var rest := CutRest(s[k + 1..], room).parts;
    if i > 0 {
      RestIsGreedy(s[k + 1..], room, i - 1);
    } else {
      WordReaches(s, room + 1, k, room, rest);
    }
  }

  lemma WordReaches(s: string, window: int, k: nat, room: int, rest: seq<string>)
    requires window <= |s| && k == LastBlank(s, window) && k < |s|
    requires CutRest(s[k + 1..], room) == Parts(rest) && rest != []
    ensures k + 1 + |FirstWord(rest[0])| >= window
  {
    hide LastBlank, FirstWord;
    var t := s[k + 1..];
    FirstPart(t, room);
    var n := |FirstWord(rest[0])|;
    if n < |t| {
      assert s[k + 1 + n] == t[n];
    }
  }

  /** The first part of a text ends at its end or at a blank. */
  lemma FirstPart(t: string, room: int)
    requires CutRest(t, room).Parts?
    ensures var p := CutRest(t, room).parts[0];
            && p <= t && (|p| < |t| ==> t[|p|] == ' ')
            && |FirstWord(p)| <= |t| && (|FirstWord(p)| < |t| ==> t[|FirstWord(p)|] == ' ')
  {
    hide LastBlank, FirstWord;
    RestRejoins(t, room);
  }

  lemma CutIsGreedy(line: string, maxlen: int, indent: nat, i: nat)
    requires CutLine(line, maxlen, indent).Parts? && i + 1 < |CutLine(line, maxlen, indent).parts|
    ensures var parts := CutLine(line, maxlen, indent).parts;
            if i == 0 then |parts[0]| + 1 + |FirstWord(parts[1])| >= maxlen
            else indent + 3 + |parts[i]| + 1 + |FirstWord(parts[i + 1])| > maxlen
  {
    hide LastBlank, FirstWord, CutRest;
    var k, room := LastBlank(line, maxlen), maxlen - (indent + 3);
    var rest := CutRest(line[k + 1..], room).parts;
    if i > 0 {
      RestIsGreedy(line[k + 1..], room, i - 1);
    } else {
      WordReaches(line, maxlen, k, room, rest);
    }
  }
}
