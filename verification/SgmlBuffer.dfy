/**
 * The line buffer of the SGML pretty-printer (cheshire2/z_dispsgml.c:683): it has as many
 * bytes as the record, and every line is built in it with its indent, newline and terminator.
 */
module SgmlBuffer {
  import opened SgmlDisplay
  import opened SgmlTiling

  const TAB_LENGTH: nat := 5

  function PieceLength(p: Piece): (n: nat) {
    match p
    case Source(lo, hi) => if lo < hi then hi - lo else 0
    case Closer(lo, hi) => 1 + if lo < hi then hi - lo else 0
  }

  /** The bytes a line takes in the buffer. */
  function Width(line: Line): (n: nat) {
    TAB_LENGTH * line.indent + PieceLength(line.piece) + 2
  }

  ghost predicate AllFit(lines: seq<Line>, n: nat) {
    forall i :: 0 <= i < |lines| ==> Width(lines[i]) <= n
  }

  lemma AllFitAppend(p: seq<Line>, q: seq<Line>, n: nat)
    ensures AllFit(p + q, n) <==> AllFit(p, n) && AllFit(q, n)
  {
    if AllFit(p + q, n) {
      forall i | 0 <= i < |p|
        ensures Width(p[i]) <= n
      {
        assert (p + q)[i] == p[i];
      }
      forall i | 0 <= i < |q|
        ensures Width(q[i]) <= n
      {
        assert (p + q)[|p| + i] == q[i];
      }
    }
  }

  lemma OneFits(line: Line, n: nat)
    ensures AllFit([line], n) <==> Width(line) <= n
  {
    assert [line][0] == line;
  }

  /** Both tags are written out, in at least `<a>` and `</a>`. */
  predicate Explicit(e: Elem)
    requires e.Elem?
  {
    Opened(e) && e.start + 3 <= e.contentStart && e.contentEnd + 4 <= e.dataEnd
  }

  /**
   * What has to be checked of a record before it is displayed: nothing about elements that are
   * explicit and lie in explicit elements only (`sheltered`); of the others, that each of their
   * lines fits.
   */
  ghost predicate RoomFor(e: Elem, parent: Parent, level: nat, n: nat, sheltered: bool)
    requires Walkable(e, parent)
    decreases e, 1
  {
    e.Elem? ==>
      var safe := sheltered && Explicit(e);
      && (safe || Width(Line(Indent(level), StartTag(e, parent))) <= n)
      && (safe || Width(Line(Indent(level), EndTag(e, parent))) <= n)
      && RoomInside(e, level, n, safe)
      && (e.next.Elem? && parent.Under? ==>
            && (sheltered || AllFit(Between(e.contentStart > 0, Indent(level), e.dataEnd, e.next.start), n))
            && RoomFor(e.next, parent, level, n, sheltered))
  }

  ghost predicate RoomInside(e: Elem, level: nat, n: nat, safe: bool)
    requires e.Elem? && Walkable(e.sub, Under(e.endTag))
    decreases e, 0
  {
    if e.sub.Nil? then safe || AllFit(Content(e, level), n)
    else
      var last := Last(e.sub);
      && (safe || AllFit(Between(true, Indent(level + 1), e.contentStart, e.sub.start), n))
      && (safe || AllFit(Between(last.contentStart > 0, Indent(level + 1), last.dataEnd, e.contentEnd), n))
      && RoomFor(e.sub, Under(e.endTag), level + 1, n, safe)
  }

  /** A stretch that `level` pairs of explicit tags enclose fits with as many tabs. */
  lemma EnclosedFits(known: bool, level: nat, lo: int, hi: int, n: nat)
    requires 0 < level && 7 * level <= n && (known ==> 3 * level <= lo) && hi + 4 * level <= n
    ensures AllFit(Between(known, Indent(level), lo, hi), n)
    ensures known ==> Width(Line(Indent(level), Source(lo, hi))) <= n
  {
  }

  lemma TagsFit(e: Elem, parent: Parent, level: nat, lo: nat, hi: nat, n: nat)
    requires e.Elem? && Explicit(e) && Printable(e, parent) && Laid(e, lo, hi)
    requires 3 * level <= lo && hi + 4 * level <= n
    ensures Width(Line(Indent(level), StartTag(e, parent))) <= n
    ensures Width(Line(Indent(level), EndTag(e, parent))) <= n
  {
  }

  lemma {:induction false} InsideFitsIff(e: Elem, level: nat, lo: nat, hi: nat, n: nat, safe: bool)
    requires e.Elem? && Laid(e, lo, hi) && Walkable(e.sub, Under(e.endTag))
    requires safe ==> Explicit(e) && 3 * level <= lo && hi + 4 * level <= n
    ensures AllFit(Content(e, level), n) <==> RoomInside(e, level, n, safe)
    decreases e, 0
  {
    hide AllFit, Between, Walkable, RoomFor, Show;
    var ind := Indent(level + 1);
    if e.sub.Elem? {
      var last := Last(e.sub);
      var head, tail := Between(true, ind, e.contentStart, e.sub.start),
                        Between(last.contentStart > 0, ind, last.dataEnd, e.contentEnd);
      var mid := Show(e.sub, Under(e.endTag), level + 1);
      AllFitAppend(mid, tail, n);
      AllFitAppend(head, mid + tail, n);
      ShowFitsIff(e.sub, Under(e.endTag), level + 1, e.contentStart, e.contentEnd, n, safe);
      if safe {
        EnclosedFits(true, level + 1, e.contentStart, e.sub.start, n);
        EndIsLast(e.sub, e.contentStart, e.contentEnd);
        EnclosedFits(last.contentStart > 0, level + 1, last.dataEnd, e.contentEnd, n);
      }
    } else if safe {
      EnclosedFits(true, level + 1, e.contentStart, e.endTag, n);
      OneFits(Line(ind, Source(e.contentStart, e.endTag)), n);
    }
  }

  lemma {:induction false} ShowFitsIff(
      e: Elem, parent: Parent, level: nat, lo: nat, hi: nat, n: nat, sheltered: bool)
    requires Laid(e, lo, hi) && Walkable(e, parent) && (parent.Under? ==> 0 < level)
    requires sheltered ==> 3 * level <= lo && hi + 4 * level <= n
    ensures AllFit(Show(e, parent, level), n) <==> RoomFor(e, parent, level, n, sheltered)
    decreases e, 1
  {
    hide AllFit, Between, Content, RoomInside;
    NothingFits(n);
    if e.Elem? {
      var safe := sheltered && Explicit(e);
      var open, close := Line(Indent(level), StartTag(e, parent)), Line(Indent(level), EndTag(e, parent));
      InsideFitsIff(e, level, lo, hi, n, safe);
      OneFits(open, n);
      OneFits(close, n);
      if e.next.Elem? && parent.Under? {
        var gap := Between(e.contentStart > 0, Indent(level), e.dataEnd, e.next.start);
        AllFitAppend(gap, Show(e.next, parent, level), n);
        ShowFitsIff(e.next, parent, level, if Opened(e) then e.dataEnd else e.start + 1, hi, n, sheltered);
        if sheltered {
          EnclosedFits(e.contentStart > 0, level, e.dataEnd, e.next.start, n);
        }
      }
      AllFitAppend([close], After(e, parent, level), n);
      AllFitAppend(Content(e, level), [close] + After(e, parent, level), n);
      AllFitAppend([open], Content(e, level) + ([close] + After(e, parent, level)), n);
      if safe {
        TagsFit(e, parent, level, lo, hi, n);
      }
    }
  }

  lemma NothingFits(n: nat)
    ensures AllFit([], n)
  {
  }

  /**
   * Displaying a record never leaves its line buffer if and only if the lines of the elements
   * without tags of their own, and of those below such an element, fit.
   */
  lemma DisplayFitsIff(record: string, root: Elem)
    requires root.Elem? && Opened(root) && Laid(root, 0, |record|)
    ensures Walkable(root, NoParent)
    ensures AllFit(Show(root, NoParent, 0), |record|) <==> RoomFor(root, NoParent, 0, |record|, true)
  {
    hide AllFit, Show, RoomFor;
    RootWalkable(root, |record|);
    ShowFitsIff(root, NoParent, 0, 0, |record|, |record|, true);
  }

  ghost predicate AllExplicit(e: Elem) {
    e.Elem? ==> Explicit(e) && AllExplicit(e.sub) && AllExplicit(e.next)
  }

  lemma {:induction false} ExplicitHasRoom(e: Elem, parent: Parent, level: nat, n: nat)
    requires AllExplicit(e) && Walkable(e, parent)
    ensures RoomFor(e, parent, level, n, true)
    decreases e
  {
    if e.Elem? {
      ExplicitHasRoom(e.sub, Under(e.endTag), level + 1, n);
      if parent.Under? {
        ExplicitHasRoom(e.next, parent, level, n);
      }
    }
  }

  /** A record with all its tags in it is always displayed inside the buffer. */
  lemma ExplicitFits(record: string, root: Elem)
    requires root.Elem? && Laid(root, 0, |record|) && AllExplicit(root)
    ensures Walkable(root, NoParent) && AllFit(Show(root, NoParent, 0), |record|)
  {
    hide AllFit, Show, RoomFor;
    DisplayFitsIff(record, root);
    ExplicitHasRoom(root, NoParent, 0, |record|);
  }

  /**
   * A record of one element around an empty one of k bytes, with tags of s and t bytes: it fits
   * if and only if it has 12 bytes, and 8 of them in the tags. `<a><b/></a>` is one byte short.
   */
  lemma LoneEmptyFitsIff(record: string, s: nat, k: nat, t: nat)
    requires 3 <= s && 0 < k && 4 <= t && |record| == s + k + t
    ensures var root := Elem(0, s, s + k, s + k, s + k + t, Elem(s, 0, 0, 0, 0, Nil, Nil), Nil);
            && Opened(root) && Laid(root, 0, |record|) && Walkable(root, NoParent)
            && (AllFit(Show(root, NoParent, 0), |record|) <==> |record| >= 12 && s + t >= 8)
  {
    var inner := Elem(s, 0, 0, 0, 0, Nil, Nil);
    var root := Elem(0, s, s + k, s + k, s + k + t, inner, Nil);
    assert Laid(inner, s, s + k);
    assert Laid(root, 0, |record|);
    DisplayFitsIff(record, root);
    InnerRoom(inner, s, k, |record|);
    assert Last(inner) == inner;
    assert RoomFor(root, NoParent, 0, |record|, true) <==> RoomFor(inner, Under(s + k), 1, |record|, true);
  }

  lemma InnerRoom(inner: Elem, s: nat, k: nat, n: nat)
    requires inner == Elem(s, 0, 0, 0, 0, Nil, Nil) && 0 < k
    ensures Walkable(inner, Under(s + k))
    ensures RoomFor(inner, Under(s + k), 1, n, true) <==> n >= 12 && k + 8 <= n
  {
    var content := Line(2, Source(0, 0));
    assert Content(inner, 1) == [content];
    OneFits(content, n);
  }
}
