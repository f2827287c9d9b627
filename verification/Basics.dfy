/** Small things several components share. */
module Basics {

  datatype Option<+T> = None | Some(value: T)

  /** The first position of an element, or -1. */
  function IndexOf<T(==)>(s: seq<T>, x: T): (k: int)
    ensures -1 <= k < |s|
    ensures k == -1 <==> x !in s
    ensures k != -1 ==> s[k] == x && forall j :: 0 <= j < k ==> s[j] != x
  {
    if s == [] then -1
    else if s[0] == x then 0
    else
      var k := IndexOf(s[1..], x);
      assert s == [s[0]] + s[1..];
      if k == -1 then -1 else k + 1
  }

  /** The numbers from lo up to, and without, hi. */
  function Numbers(lo: int, hi: int): (r: seq<int>)
    ensures |r| == if lo <= hi then hi - lo else 0
    ensures forall i :: 0 <= i < |r| ==> r[i] == lo + i
  {
    if lo <= hi then seq(hi - lo, i => lo + i) else []
  }

  /** A string cut at every `c`: one piece more than there are cuts. */
  function Pieces(s: string, c: char): (r: seq<string>)
    ensures r != []
  {
    if s == [] then [[]]
    else
      var r := Pieces(s[1..], c);
      if s[0] == c then [[]] + r else [[s[0]] + r[0]] + r[1..]
  }

  lemma {:induction false} PiecesJoin(a: string, c: char, b: string)
    requires c !in a
    ensures Pieces(a + ([c] + b), c) == [a] + Pieces(b, c)
  {
    var s := a + ([c] + b);
    if a == [] {
      assert s == [c] + b && s[1..] == b;
    } else {
      assert s[0] == a[0] && s[1..] == a[1..] + ([c] + b);
      PiecesJoin(a[1..], c, b);
      assert a == [a[0]] + a[1..];
    }
  }

  lemma {:induction false} PiecesWhole(a: string, c: char)
    requires c !in a
    ensures Pieces(a, c) == [a]
  {
    if a != [] {
      PiecesWhole(a[1..], c);
      assert a == [a[0]] + a[1..];
    }
  }

  /** The first piece ends at the first cut, or at the end. */
  lemma PiecesStop(a: string, c: char, rest: string)
    requires c !in a && (rest == [] || rest[0] == c)
    ensures Pieces(a + rest, c) == [a] + Pieces(rest, c)[1..]
  {
    if rest == [] {
      assert a + rest == a;
      PiecesWhole(a, c);
    } else {
      assert rest == [c] + rest[1..];
      PiecesJoin(a, c, rest[1..]);
    }
  }

  /** C's `isspace`. */
  predicate IsSpace(c: char) {
    c == ' ' || '\t' <= c <= '\r'
  }

  /** Blank, tab, newline, vertical tab, form feed and carriage return. */
  lemma IsSpaceMeans(c: char)
    ensures IsSpace(c) <==> c as int in {32, 9, 10, 11, 12, 13}
  {
  }

  /** C's `tolower` on ASCII. */
  function LowerCase(c: char): char {
    if 'A' <= c <= 'Z' then c - 'A' + 'a' else c
  }

  /** Capitals and small letters correspond in alphabetical order; nothing else changes. */
  lemma LowerCaseMeans(n: nat)
    requires n < 26
    ensures LowerCase("ABCDEFGHIJKLMNOPQRSTUVWXYZ"[n]) == "abcdefghijklmnopqrstuvwxyz"[n]
    ensures LowerCase("abcdefghijklmnopqrstuvwxyz"[n]) == "abcdefghijklmnopqrstuvwxyz"[n]
  {
  }
}
