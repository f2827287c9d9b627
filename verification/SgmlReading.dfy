/**
 * What a reader sees in the output of the SGML pretty-printer: the lines that are not copied
 * from the record, where they stand and what they say, and what the indent of a line tells.
 */
module SgmlReading {
  import opened SgmlDisplay
  import opened SgmlTiling

  function Stretch(record: string, lo: int, hi: int): (r: string) {
    if 0 <= lo <= hi <= |record| then record[lo..hi] else ""
  }

  /** The text of a line after its indent. */
  function PieceText(record: string, p: Piece): (r: string) {
    match p
    case Source(lo, hi) => Stretch(record, lo, hi)
    case Closer(lo, hi) => "/" + Stretch(record, lo, hi)
  }

  // ------------------------------------------------------------- lines that copy nothing

  /** A made-up closing tag or an empty line, and how far the record had been copied by then. */
  datatype Extra = Extra(at: int, text: string)

  function MadeUp(record: string, lines: seq<Line>, at: int): (r: seq<Extra>) {
    if lines == [] then []
    else
      match lines[0].piece
      case Closer(_, _) => [Extra(at, PieceText(record, lines[0].piece))] + MadeUp(record, lines[1..], at)
      case Source(lo, hi) =>
        if hi <= lo then [Extra(at, "")] + MadeUp(record, lines[1..], at) else MadeUp(record, lines[1..], hi)
  }

  /** The text of e's own start tag: up to its content or, for an empty element, up to what follows. */
  function OwnTag(record: string, e: Elem, hi: nat): (r: string)
    requires e.Elem?
  {
    Stretch(record, e.start, if Opened(e) then e.contentStart else if e.next.Elem? then e.next.start else hi)
  }

  /**
   * What is to be printed beside the record's own text: an empty line for an element with
   * nothing in it, and "/" and its own start tag for one without an end tag, each where its text ends.
   */
  function Extras(record: string, e: Elem, hi: nat): (r: seq<Extra>)
    decreases e, 1
  {
    if e.Nil? then [] else ExtrasIn(record, e, hi) + Extras(record, e.next, hi)
  }

  function ExtrasIn(record: string, e: Elem, hi: nat): (r: seq<Extra>)
    requires e.Elem?
    decreases e, 0
  {
    (if e.sub.Elem? then Extras(record, e.sub, e.contentEnd)
     else if Opened(e) && e.contentStart < e.contentEnd then []
     else [Extra(if Opened(e) then e.contentEnd else ElementEnd(e, hi), "")])
    + if Opened(e) && e.contentEnd < e.dataEnd then [] else [Extra(ElementEnd(e, hi), "/" + OwnTag(record, e, hi))]
  }

  lemma {:induction false} MadeUpAppend(record: string, p: seq<Line>, q: seq<Line>, lo: int, mid: int)
    requires Tiles(p, lo, mid)
    ensures MadeUp(record, p + q, lo) == MadeUp(record, p, lo) + MadeUp(record, q, mid)
  {
    hide PieceText;
    if p == [] {
      assert p + q == q;
    } else {
      assert (p + q)[0] == p[0] && (p + q)[1..] == p[1..] + q;
      match p[0].piece
      case Closer(_, _) => MadeUpAppend(record, p[1..], q, lo, mid);
      case Source(a, b) => MadeUpAppend(record, p[1..], q, if b <= a then lo else b, mid);
    }
  }

  lemma NothingMadeUp(record: string, known: bool, indent: nat, lo: int, hi: int, at: int)
    ensures MadeUp(record, Between(known, indent, lo, hi), at) == [] && MadeUp(record, [], at) == []
  {
  }

  lemma OneLineMadeUp(record: string, line: Line, at: int)
    ensures MadeUp(record, [line], at)
         == if line.piece.Closer? then [Extra(at, PieceText(record, line.piece))]
            else if line.piece.hi <= line.piece.lo then [Extra(at, "")] else []
  {
  }

  lemma {:induction false} ContentExtras(record: string, e: Elem, lo: nat, hi: nat, level: nat)
    requires e.Elem? && Opened(e) && Laid(e, lo, hi)
    ensures Walkable(e.sub, Under(e.endTag))
    ensures MadeUp(record, Content(e, level), e.contentStart)
         == if e.sub.Elem? then Extras(record, e.sub, e.contentEnd)
            else if e.contentStart < e.contentEnd then [] else [Extra(e.contentEnd, "")]
    decreases e, 0
  {
    hide Tiles, Between, Show, Walkable, MadeUp;
    LaidWalkable(e.sub, e.contentStart, e.contentEnd, Under(e.endTag));
    var ind := Indent(level + 1);
    if e.sub.Elem? {
      var last, mid := Last(e.sub), End(e.sub, e.contentEnd);
      var head, tail := Between(true, ind, e.contentStart, e.sub.start),
                        Between(last.contentStart > 0, ind, last.dataEnd, e.contentEnd);
      var inner := Show(e.sub, Under(e.endTag), level + 1);
      TilesBetween(true, ind, e.contentStart, e.sub.start);
      ShowTiles(e.sub, e.contentStart, e.contentEnd, e.endTag, level + 1);
      ShowExtras(record, e.sub, e.contentStart, e.contentEnd, level + 1);
      MadeUpAppend(record, inner, tail, e.sub.start, mid);
      MadeUpAppend(record, head, inner + tail, e.contentStart, e.sub.start);
      NothingMadeUp(record, true, ind, e.contentStart, e.sub.start, e.contentStart);
      NothingMadeUp(record, last.contentStart > 0, ind, last.dataEnd, e.contentEnd, mid);
    } else {
      OneLineMadeUp(record, Line(ind, Source(e.contentStart, e.endTag)), e.contentStart);
    }
  }

  lemma {:induction false} ElementExtras(record: string, e: Elem, lo: nat, hi: nat, parent: Parent, level: nat)
    requires e.Elem? && Laid(e, lo, hi) && Printable(e, parent) && (Opened(e) || parent == Under(hi))
    ensures Walkable(e.sub, Under(e.endTag))
    ensures MadeUp(record, [Line(Indent(level), StartTag(e, parent))]
                           + (Content(e, level) + [Line(Indent(level), EndTag(e, parent))]), e.start)
         == ExtrasIn(record, e, hi)
    decreases e, 1
  {
    hide Tiles, Content, Walkable, MadeUp;
    var open, close := Line(Indent(level), StartTag(e, parent)), Line(Indent(level), EndTag(e, parent));
    OneLineMadeUp(record, open, e.start);
    if Opened(e) {
      TilesOne(open, e.start, e.contentStart);
      ContentTiles(e, lo, hi, level);
      ContentExtras(record, e, lo, hi, level);
      OneLineMadeUp(record, close, e.contentEnd);
      MadeUpAppend(record, Content(e, level), [close], e.contentStart, e.contentEnd);
      MadeUpAppend(record, [open], Content(e, level) + [close], e.start, e.contentStart);
    } else {
      var end := ElementEnd(e, hi);
      EmptyContent(e, level);
      TilesOne(open, e.start, end);
      EmptyMadeUp(record, e, level, end);
      OneLineMadeUp(record, close, end);
      MadeUpAppend(record, Content(e, level), [close], end, end);
      MadeUpAppend(record, [open], Content(e, level) + [close], e.start, end);
    }
  }

  lemma EmptyMadeUp(record: string, e: Elem, level: nat, at: int)
    requires e.Elem? && Unset(e)
    ensures Walkable(e.sub, Under(e.endTag)) && MadeUp(record, Content(e, level), at) == [Extra(at, "")]
  {
  }

  /** The extra lines of a list of elements, each with its place. */
  lemma {:induction false} ShowExtras(record: string, e: Elem, lo: nat, hi: nat, level: nat)
    requires e.Elem? && Laid(e, lo, hi)
    ensures Walkable(e, Under(hi))
    ensures MadeUp(record, Show(e, Under(hi), level), e.start) == Extras(record, e, hi)
    decreases e, 2
  {
    hide Tiles, Content, Walkable, Between, MadeUp, ExtrasIn;
    var parent, ind := Under(hi), Indent(level);
    LaidWalkable(e, lo, hi, parent);
    ElementTiles(e, lo, hi, parent, level);
    ElementExtras(record, e, lo, hi, parent, level);
    ShowIsOwn(e, parent, level);
    var own := [Line(ind, StartTag(e, parent))] + (Content(e, level) + [Line(ind, EndTag(e, parent))]);
    var until := if e.next.Elem? then e.next.start else 0;
    NothingMadeUp(record, e.contentStart > 0, ind, e.dataEnd, until, ElementEnd(e, hi));
    MadeUpAppend(record, own, After(e, parent, level), e.start, ElementEnd(e, hi));
    if e.next.Elem? {
      var gap := Between(e.contentStart > 0, ind, e.dataEnd, e.next.start);
      if Opened(e) {
        TilesBetween(true, ind, e.dataEnd, e.next.start);
      } else {
        TilesEmpty(e, ind, e.next.start);
      }
      ShowExtras(record, e.next, if Opened(e) then e.dataEnd else e.start + 1, hi, level);
      MadeUpAppend(record, gap, Show(e.next, parent, level), ElementEnd(e, hi), e.next.start);
    }
  }

  /**
   * A whole record: every element without an end tag is closed by "/" and its own start tag where
   * its text ends, every empty element has one empty line, and no other line is added.
   */
  lemma RecordExtras(record: string, root: Elem)
    requires root.Elem? && Opened(root) && Laid(root, 0, |record|)
    ensures Walkable(root, NoParent)
    ensures MadeUp(record, Show(root, NoParent, 0), root.start) == ExtrasIn(record, root, |record|)
  {
    hide Tiles, Content, Walkable, MadeUp, ExtrasIn;
    RootWalkable(root, |record|);
    ElementExtras(record, root, 0, |record|, NoParent, 0);
    ShowIsOwn(root, NoParent, 0);
    var own := [Line(0, StartTag(root, NoParent))] + (Content(root, 0) + [Line(0, EndTag(root, NoParent))]);
    assert own + [] == own;
  }

  // ----------------------------------------------------------------------- what indents say

  /** How many elements of the list have position `at` between their tags, one inside the other. */
  function Depth(e: Elem, at: int): (n: nat) {
    if e.Nil? then 0
    else (if Opened(e) && e.contentStart <= at < e.contentEnd then 1 + Depth(e.sub, at) else 0) + Depth(e.next, at)
  }

  function Min(a: nat, b: nat): nat {
    if a < b then a else b
  }

  /** Every line that shows something stands at the depth of what it shows, or of the tag it closes. */
  ghost predicate AtDepth(lines: seq<Line>, e: Elem, level: nat, lo: int, hi: int) {
    forall i :: 0 <= i < |lines| ==> LineAtDepth(lines[i], e, level, lo, hi)
  }

  ghost predicate LineAtDepth(line: Line, e: Elem, level: nat, lo: int, hi: int) {
    var p := line.piece;
    p.lo < p.hi ==> lo <= p.lo < hi && line.indent == Min(level + Depth(e, p.lo), 10)
  }

  lemma {:induction false} DepthBefore(e: Elem, lo: nat, hi: nat, at: int)
    requires Laid(e, lo, hi) && (e.Elem? ==> at <= e.start)
    ensures Depth(e, at) == 0
  {
    if e.Elem? {
      DepthBefore(e.next, if Opened(e) then e.dataEnd else e.start + 1, hi, at);
    }
  }

  lemma {:induction false} DepthBeyond(e: Elem, lo: nat, hi: nat, at: int)
    requires e.Elem? && Laid(e, lo, hi) && Opened(Last(e)) && Last(e).dataEnd <= at
    ensures Depth(e, at) == 0
  {
    if e.next.Elem? {
      EndIsLast(e.next, if Opened(e) then e.dataEnd else e.start + 1, hi);
      DepthBeyond(e.next, if Opened(e) then e.dataEnd else e.start + 1, hi, at);
    }
  }

  /** What lies inside an element is one deeper in the list that begins with it. */
  lemma DepthInside(e: Elem, lo: nat, hi: nat, at: int)
    requires e.Elem? && Laid(e, lo, hi) && Opened(e) && e.contentStart <= at < e.contentEnd
    ensures Depth(e, at) == 1 + Depth(e.sub, at)
  {
    DepthBefore(e.next, e.dataEnd, hi, at);
  }

  /** What lies behind an element is as deep as in the rest of the list. */
  lemma DepthBehind(e: Elem, lo: nat, hi: nat, at: int)
    requires e.Elem? && Laid(e, lo, hi) && (Opened(e) ==> e.dataEnd <= at)
    ensures Depth(e, at) == Depth(e.next, at)
  {
  }

  lemma AtDepthAppend(p: seq<Line>, q: seq<Line>, e: Elem, level: nat, lo: int, hi: int)
    requires AtDepth(p, e, level, lo, hi) && AtDepth(q, e, level, lo, hi)
    ensures AtDepth(p + q, e, level, lo, hi)
  {
    hide LineAtDepth;
  }

  /** Lines known one level further in, inside the first element. */
  lemma LiftInside(lines: seq<Line>, e: Elem, level: nat, lo: nat, hi: nat)
    requires e.Elem? && Laid(e, lo, hi) && Opened(e)
    requires AtDepth(lines, e.sub, level + 1, e.contentStart, e.contentEnd)
    ensures AtDepth(lines, e, level, lo, hi)
  {
    hide Depth, Laid;
    forall i | 0 <= i < |lines|
      ensures LineAtDepth(lines[i], e, level, lo, hi)
    {
      assert LineAtDepth(lines[i], e.sub, level + 1, e.contentStart, e.contentEnd);
      LaidBounds(e, lo, hi);
      if lines[i].piece.lo < lines[i].piece.hi {
        DepthInside(e, lo, hi, lines[i].piece.lo);
      }
    }
  }

  lemma LaidBounds(e: Elem, lo: nat, hi: nat)
    requires e.Elem? && Laid(e, lo, hi)
    ensures lo <= e.start < hi && (Opened(e) ==> lo <= e.contentStart && e.contentEnd <= e.dataEnd <= hi)
    ensures Laid(e.next, if Opened(e) then e.dataEnd else e.start + 1, hi)
    ensures e.next.Elem? ==> (if Opened(e) then e.dataEnd else e.start + 1) <= e.next.start < hi
    ensures Opened(e) || Unset(e)
    ensures Opened(e) ==> Laid(e.sub, e.contentStart, e.contentEnd)
  {
  }

  /** Lines known about the rest of the list. */
  lemma LiftBehind(lines: seq<Line>, e: Elem, level: nat, lo: nat, hi: nat)
    requires e.Elem? && Laid(e, lo, hi)
    requires AtDepth(lines, e.next, level, if Opened(e) then e.dataEnd else e.start + 1, hi)
    ensures AtDepth(lines, e, level, lo, hi)
  {
    hide Depth, Laid;
    LaidBounds(e, lo, hi);
    forall i | 0 <= i < |lines|
      ensures LineAtDepth(lines[i], e, level, lo, hi)
    {
      assert LineAtDepth(lines[i], e.next, level, if Opened(e) then e.dataEnd else e.start + 1, hi);
      if lines[i].piece.lo < lines[i].piece.hi {
        DepthBehind(e, lo, hi, lines[i].piece.lo);
      }
    }
  }

  lemma BetweenAtDepth(known: bool, start: int, end: int, e: Elem, level: nat, lo: int, hi: int)
    requires known && start < end ==> lo <= start < hi && Depth(e, start) == 0
    ensures AtDepth(Between(known, Indent(level), start, end), e, level, lo, hi)
  {
  }

  lemma {:induction false} ContentAtDepth(e: Elem, lo: nat, hi: nat, level: nat)
    requires e.Elem? && Laid(e, lo, hi) && Walkable(e.sub, Under(e.endTag))
    ensures AtDepth(Content(e, level), e, level, lo, hi)
    decreases e, 0
  {
    hide AtDepth, Between, Show, Walkable, Depth, Laid;
    LaidBounds(e, lo, hi);
    var ind := Indent(level + 1);
    if e.sub.Elem? {
      LaidBounds(e.sub, e.contentStart, e.contentEnd);
      var last := Last(e.sub);
      var head, tail := Between(true, ind, e.contentStart, e.sub.start),
                        Between(last.contentStart > 0, ind, last.dataEnd, e.contentEnd);
      var inner := Show(e.sub, Under(e.endTag), level + 1);
      ShowAtDepth(e.sub, e.contentStart, e.contentEnd, level + 1);
      DepthBefore(e.sub, e.contentStart, e.contentEnd, e.contentStart);
      BetweenAtDepth(true, e.contentStart, e.sub.start, e.sub, level + 1, e.contentStart, e.contentEnd);
      EndIsLast(e.sub, e.contentStart, e.contentEnd);
      if Opened(last) {
        DepthBeyond(e.sub, e.contentStart, e.contentEnd, last.dataEnd);
      }
      BetweenAtDepth(last.contentStart > 0, last.dataEnd, e.contentEnd, e.sub, level + 1, e.contentStart, e.contentEnd);
      AtDepthAppend(inner, tail, e.sub, level + 1, e.contentStart, e.contentEnd);
      AtDepthAppend(head, inner + tail, e.sub, level + 1, e.contentStart, e.contentEnd);
      LiftInside(Content(e, level), e, level, lo, hi);
    } else if Opened(e) {
      DepthBefore(e.sub, e.contentStart, e.contentEnd, e.contentStart);
      LeafAtDepth(Line(ind, Source(e.contentStart, e.endTag)), e.sub, level + 1, e.contentStart, e.contentEnd);
      LiftInside(Content(e, level), e, level, lo, hi);
    } else {
      LeafAtDepth(Line(ind, Source(e.contentStart, e.contentStart)), e, level, lo, hi);
    }
  }

  lemma LeafAtDepth(line: Line, e: Elem, level: nat, lo: int, hi: int)
    requires LineAtDepth(line, e, level, lo, hi)
    ensures AtDepth([line], e, level, lo, hi)
  {
  }

  lemma TagsAtDepth(e: Elem, lo: nat, hi: nat, parent: Parent, level: nat)
    requires e.Elem? && Laid(e, lo, hi) && Printable(e, parent)
    ensures AtDepth([Line(Indent(level), StartTag(e, parent))], e, level, lo, hi)
    ensures AtDepth([Line(Indent(level), EndTag(e, parent))], e, level, lo, hi)
  {
    hide Depth, Laid;
    LaidBounds(e, lo, hi);
    DepthBefore(e, lo, hi, e.start);
    if Opened(e) && e.contentEnd < e.dataEnd {
      DepthAtEnd(e, lo, hi);
    }
  }

  lemma DepthAtEnd(e: Elem, lo: nat, hi: nat)
    requires e.Elem? && Laid(e, lo, hi) && Opened(e) && e.contentEnd < e.dataEnd
    ensures Depth(e, e.endTag) == 0
  {
    DepthBefore(e.next, e.dataEnd, hi, e.endTag);
  }

  lemma {:induction false} ShowAtDepth(e: Elem, lo: nat, hi: nat, level: nat)
    requires e.Elem? && Laid(e, lo, hi)
    ensures Walkable(e, Under(hi)) && AtDepth(Show(e, Under(hi), level), e, level, lo, hi)
    decreases e, 2
  {
    hide AtDepth, Content, Walkable, Between, Depth, Laid;
    var parent, ind := Under(hi), Indent(level);
    LaidBounds(e, lo, hi);
    LaidWalkable(e, lo, hi, parent);
    ShowIsOwn(e, parent, level);
    var open, close := [Line(ind, StartTag(e, parent))], [Line(ind, EndTag(e, parent))];
    TagsAtDepth(e, lo, hi, parent, level);
    ContentAtDepth(e, lo, hi, level);
    AtDepthAppend(Content(e, level), close, e, level, lo, hi);
    AtDepthAppend(open, Content(e, level) + close, e, level, lo, hi);
    if e.next.Elem? {
      var lo' := if Opened(e) then e.dataEnd else e.start + 1;
      ShowAtDepth(e.next, lo', hi, level);
      LaidBounds(e.next, lo', hi);
      DepthBefore(e.next, lo', hi, if Opened(e) then e.dataEnd else 0);
      BetweenAtDepth(e.contentStart > 0, e.dataEnd, e.next.start, e.next, level, lo', hi);
      AtDepthAppend(Between(e.contentStart > 0, ind, e.dataEnd, e.next.start), Show(e.next, parent, level),
                    e.next, level, lo', hi);
      LiftBehind(After(e, parent, level), e, level, lo, hi);
    } else {
      NoneAtDepth(e, level, lo, hi);
    }
    AtDepthAppend(open + (Content(e, level) + close), After(e, parent, level), e, level, lo, hi);
  }

  lemma NoneAtDepth(e: Elem, level: nat, lo: int, hi: int)
    ensures AtDepth([], e, level, lo, hi)
  {
  }

  /** In the display of a record, the indent of a line is the depth, up to ten, of what it shows. */
  lemma RecordAtDepth(record: string, root: Elem)
    requires root.Elem? && Opened(root) && Laid(root, 0, |record|)
    ensures Walkable(root, NoParent)
    ensures AtDepth(Show(root, NoParent, 0), root, 0, 0, |record|)
  {
    hide AtDepth, Content, Walkable, Depth, Laid;
    RootWalkable(root, |record|);
    ShowIsOwn(root, NoParent, 0);
    TagsAtDepth(root, 0, |record|, NoParent, 0);
    ContentAtDepth(root, 0, |record|, 0);
    var open, close := [Line(0, StartTag(root, NoParent))], [Line(0, EndTag(root, NoParent))];
    AtDepthAppend(Content(root, 0), close, root, 0, 0, |record|);
    AtDepthAppend(open, Content(root, 0) + close, root, 0, 0, |record|);
    assert open + (Content(root, 0) + close) + [] == open + (Content(root, 0) + close);
  }
}
