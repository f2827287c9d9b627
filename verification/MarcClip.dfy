/**
 * Hiding braces in a MARC record (`clipMARCdata`, `unclipMARCdata`,
 * cheshire2/z_dispopac.c:631-685): bytes 1 and 2 stand in for the braces, and an
 * unassigned leader position records that they do.
 */
module MarcClip {

  const OPEN: char := 1 as char
  const CLOSE: char := 2 as char
  const FLAG: nat := 8

  function Replace(s: string, a: char, b: char): (r: string)
    ensures |r| == |s| && forall i :: 0 <= i < |s| ==> r[i] == if s[i] == a then b else s[i]
  {
    seq(|s|, i requires 0 <= i < |s| => if s[i] == a then b else s[i])
  }

  /** Substitution of one brace, refused when its stand-in is already in the record. */
  function Hide(s: string, brace: char, standIn: char): (r: string)
    ensures |r| == |s|
  {
    if brace in s && standIn !in s then Replace(s, brace, standIn) else s
  }

  function Code(s: string): (c: int) {
    (if '{' in s then 1 else 0) + (if '}' in s then 2 else 0)
  }

  /** Both substitutions, before anything is flagged. */
  function Hidden(s: string): (r: string)
    ensures |r| == |s|
  {
    Hide(Hide(s, '{', OPEN), '}', CLOSE)
  }

  function Clipped(s: string): (r: string)
    requires FLAG < |s|
    ensures |r| == |s|
  {
    var t := Hidden(s);
    if Code(s) != 0 then t[FLAG := ('0' as int + Code(s)) as char] else t
  }

  function Unclipped(s: string): (r: string)
    requires FLAG < |s|
    ensures |r| == |s|
  {
    if s[FLAG] != ' ' then Replace(Replace(s, OPEN, '{'), CLOSE, '}') else s
  }

  /** `strchr` from position p on; the length if there is none. */
  method Find(rec: array<char>, c: char, p: nat) returns (k: nat)
    requires p <= rec.Length
    ensures p <= k <= rec.Length && (k < rec.Length ==> rec[k] == c)
    ensures forall i :: p <= i < k ==> rec[i] != c
  {
    k := p;
    while k < rec.Length && rec[k] != c
      invariant p <= k <= rec.Length && forall i :: p <= i < k ==> rec[i] != c
    {
      k := k + 1;
    }
  }

  /** The `strchr` loops that overwrite each find. */
  method Overwrite(rec: array<char>, a: char, b: char)
    requires a != b
    modifies rec
    ensures rec[..] == Replace(old(rec[..]), a, b)
  {
    var k := Find(rec, a, 0);
    while k < rec.Length
      invariant 0 <= k <= rec.Length && (k < rec.Length ==> rec[k] == a)
      invariant forall i :: 0 <= i < k ==> rec[i] == if old(rec[i]) == a then b else old(rec[i])
      invariant forall i :: k <= i < rec.Length ==> rec[i] == old(rec[i])
    {
      rec[k] := b;
      k := Find(rec, a, k);
    }
  }

  method HideBrace(rec: array<char>, brace: char, standIn: char) returns (found: bool)
    requires brace != standIn
    modifies rec
    ensures found == (brace in old(rec[..])) && rec[..] == Hide(old(rec[..]), brace, standIn)
  {
    ghost var s := rec[..];
    var k := Find(rec, brace, 0);
    var j := Find(rec, standIn, 0);
    found := k < rec.Length;
    assert found == (brace in s) by {
      if found {
        assert s[k] == brace;
      }
    }
    assert j < rec.Length <==> standIn in s by {
      if j < rec.Length {
        assert s[j] == standIn;
      }
    }
    if found && j == rec.Length {
      Overwrite(rec, brace, standIn);
    }
  }

  method Clip(rec: array<char>)
    requires FLAG < rec.Length
    modifies rec
    ensures rec[..] == Clipped(old(rec[..]))
  {
    hide Hide, Replace;
    ghost var s := rec[..];
    var open := HideBrace(rec, '{', OPEN);
    OtherBraceStays(s);
    var close := HideBrace(rec, '}', CLOSE);
    var code := (if open then 1 else 0) + (if close then 2 else 0);
    if code != 0 {
      ghost var t := rec[..];
      rec[FLAG] := ('0' as int + code) as char;
      assert rec[..] == t[FLAG := ('0' as int + code) as char];
    }
  }

  lemma OtherBraceStays(s: string)
    ensures '}' in Hide(s, '{', OPEN) <==> '}' in s
  {
    var t := Hide(s, '{', OPEN);
    if '}' in s {
      var i :| 0 <= i < |s| && s[i] == '}';
      assert t[i] == '}';
    }
    if '}' in t {
      var i :| 0 <= i < |t| && t[i] == '}';
      assert s[i] == '}';
    }
  }

  method Unclip(rec: array<char>)
    requires FLAG < rec.Length
    modifies rec
    ensures rec[..] == Unclipped(old(rec[..]))
  {
    if rec[FLAG] != ' ' {
      Overwrite(rec, OPEN, '{');
      Overwrite(rec, CLOSE, '}');
    }
  }

  // ---------------------------------------------------------------- what clipping promises

  /** `c` stands somewhere other than in the flag position. */
  ghost predicate Elsewhere(s: string, c: char) {
    exists i :: 0 <= i < |s| && i != FLAG && s[i] == c
  }

  ghost predicate SameElsewhere(s: string, t: string) {
    |s| == |t| && forall i :: 0 <= i < |s| && i != FLAG ==> t[i] == s[i]
  }

  /** Position by position, away from the flag. */
  lemma ClippedAt(s: string, i: nat)
    requires FLAG < |s| && i < |s| && i != FLAG
    ensures Clipped(s)[i] ==
            if s[i] == '{' && OPEN !in s then OPEN
            else if s[i] == '}' && CLOSE !in s then CLOSE
            else s[i]
  {
    OtherBraceStays(s);
    var t := Hide(s, '{', OPEN);
    assert CLOSE in t <==> CLOSE in s by {
      if CLOSE in s {
        var k :| 0 <= k < |s| && s[k] == CLOSE;
        assert t[k] == CLOSE;
      }
      if CLOSE in t {
        var k :| 0 <= k < |t| && t[k] == CLOSE;
        assert s[k] == CLOSE;
      }
    }
    assert s[i] == '{' ==> '{' in s;
    assert s[i] == '}' ==> '}' in t;
  }

  /** Clipping leaves no brace exactly when each brace it has to hide has a stand-in to spare. */
  lemma NoBraceLeftIff(s: string)
    requires FLAG < |s|
    ensures ('{' !in Clipped(s) && '}' !in Clipped(s)) <==>
            !(Elsewhere(s, '{') && OPEN in s) && !(Elsewhere(s, '}') && CLOSE in s)
  {
    hide Clipped;
    var r := Clipped(s);
    FlagIsNoBrace(s);
    forall i | 0 <= i < |s| && i != FLAG
      ensures r[i] == if s[i] == '{' && OPEN !in s then OPEN else if s[i] == '}' && CLOSE !in s then CLOSE else s[i]
    {
      ClippedAt(s, i);
    }
    if Elsewhere(s, '{') && OPEN in s {
      var i :| 0 <= i < |s| && i != FLAG && s[i] == '{';
      assert r[i] == '{';
    }
    if Elsewhere(s, '}') && CLOSE in s {
      var i :| 0 <= i < |s| && i != FLAG && s[i] == '}';
      assert r[i] == '}';
    }
  }

  lemma FlagIsNoBrace(s: string)
    requires FLAG < |s|
    ensures Clipped(s)[FLAG] != '{' && Clipped(s)[FLAG] != '}'
    ensures ('{' in s || '}' in s) ==> Clipped(s)[FLAG] != ' '
    ensures !('{' in s || '}' in s) ==> Clipped(s) == s
  {
  }

  /** The flag tells which braces the record had. */
  lemma FlagMeans(s: string)
    requires FLAG < |s|
    ensures var flag := Clipped(s)[FLAG];
            && ('{' in s && '}' !in s ==> flag == '1')
            && ('{' !in s && '}' in s ==> flag == '2')
            && ('{' in s && '}' in s ==> flag == '3')
            && ('{' !in s && '}' !in s ==> flag == s[FLAG])
  {
  }

  lemma UnclippedAt(s: string, i: nat)
    requires FLAG < |s| && i < |s|
    ensures Unclipped(s)[i] ==
            if s[FLAG] == ' ' then s[i] else if s[i] == OPEN then '{' else if s[i] == CLOSE then '}' else s[i]
  {
  }

  /**
   * Unclipping restores every byte but the flag if and only if the record had no stand-ins
   * of its own outside the flag, or there was nothing to clip and nothing flagged.
   */
  lemma ClipRestoresIff(s: string)
    requires FLAG < |s|
    ensures SameElsewhere(s, Unclipped(Clipped(s))) <==>
            (!Elsewhere(s, OPEN) && !Elsewhere(s, CLOSE)) || ('{' !in s && '}' !in s && s[FLAG] == ' ')
  {
    hide Clipped, Unclipped;
    var c, r := Clipped(s), Unclipped(Clipped(s));
    FlagIsNoBrace(s);
    forall i | 0 <= i < |s| && i != FLAG
      ensures c[i] == if s[i] == '{' && OPEN !in s then OPEN else if s[i] == '}' && CLOSE !in s then CLOSE else s[i]
      ensures r[i] == if c[FLAG] == ' ' then c[i] else if c[i] == OPEN then '{' else if c[i] == CLOSE then '}' else c[i]
    {
      ClippedAt(s, i);
      UnclippedAt(c, i);
    }
    if i :| 0 <= i < |s| && i != FLAG && (s[i] == OPEN || s[i] == CLOSE) {
      assert c[i] == s[i];
      assert c[FLAG] != ' ' ==> r[i] != s[i];
    }
  }
}
