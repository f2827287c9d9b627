/**
 * What the pretty-printer says about the record: the stretches it copies out are the
 * record from the root's start tag to its end, with nothing lost, repeated or moved.
 */
module SgmlTiling {
  import opened SgmlDisplay

  /** An element that was opened by a start tag: its offsets come in the order of the text. */
  predicate Opened(e: Elem)
    requires e.Elem?
  {
    e.start < e.contentStart <= e.contentEnd == e.endTag <= e.dataEnd
  }

  /** An empty XML element: the parser left its content offset unset and it has nothing inside. */
  predicate Unset(e: Elem)
    requires e.Elem?
  {
    e.contentStart == 0 && e.sub.Nil?
  }

  /** Elements in the order of the text, nested inside `lo..hi`. */
  predicate Laid(e: Elem, lo: nat, hi: nat) {
    e.Elem? ==>
      && lo <= e.start < hi
      && (Opened(e) || Unset(e))
      && (Opened(e) ==> Laid(e.sub, e.contentStart, e.contentEnd) && e.dataEnd <= hi)
      && Laid(e.next, if Opened(e) then e.dataEnd else e.start + 1, hi)
  }

  /** Where the text accounted for by e and the elements after it ends. */
  function End(e: Elem, hi: nat): (r: nat)
    requires e.Elem?
  {
    if e.next.Elem? then End(e.next, hi) else if Opened(e) then e.dataEnd else hi
  }

  /** The copied stretches, in order, are exactly `lo..hi`; made-up closers count for nothing. */
  predicate Tiles(lines: seq<Line>, lo: int, hi: int) {
    if lines == [] then lo == hi
    else
      match lines[0].piece
      case Closer(_, _) => Tiles(lines[1..], lo, hi)
      case Source(a, b) => if b <= a then Tiles(lines[1..], lo, hi) else a == lo && Tiles(lines[1..], b, hi)
  }

  lemma {:induction false} TilesAppend(p: seq<Line>, q: seq<Line>, lo: int, mid: int, hi: int)
    requires Tiles(p, lo, mid) && Tiles(q, mid, hi)
    ensures Tiles(p + q, lo, hi)
  {
    if p == [] {
      assert p + q == q;
    } else {
      assert (p + q)[1..] == p[1..] + q;
      match p[0].piece
      case Closer(_, _) => TilesAppend(p[1..], q, lo, mid, hi);
      case Source(a, b) => TilesAppend(p[1..], q, if b <= a then lo else b, mid, hi);
    }
  }

  lemma TilesOne(line: Line, lo: int, hi: int)
    requires line.piece == Source(lo, hi) && lo <= hi
    ensures Tiles([line], lo, hi)
  {
  }

  lemma TilesNothing(line: Line, at: int)
    requires line.piece.Closer? || line.piece.hi <= line.piece.lo
    ensures Tiles([line], at, at)
  {
  }

  lemma TilesBetween(known: bool, indent: nat, lo: int, hi: int)
    requires lo <= hi && (known || lo == hi)
    ensures Tiles(Between(known, indent, lo, hi), lo, hi)
  {
  }

  lemma {:induction false} LaidWalkable(e: Elem, lo: nat, hi: nat, parent: Parent)
    requires Laid(e, lo, hi) && parent.Under?
    ensures Walkable(e, parent)
  {
    if e.Elem? {
      if Opened(e) {
        LaidWalkable(e.sub, e.contentStart, e.contentEnd, Under(e.endTag));
      }
      LaidWalkable(e.next, if Opened(e) then e.dataEnd else e.start + 1, hi, parent);
    }
  }

  /** The last element decides how far the text reaches, and whether the rest is printed. */
  lemma {:induction false} EndIsLast(e: Elem, lo: nat, hi: nat)
    requires e.Elem? && Laid(e, lo, hi)
    ensures e.start < End(e, hi) <= hi
    ensures Opened(Last(e)) ==> End(e, hi) == Last(e).dataEnd && Last(e).contentStart > 0
    ensures !Opened(Last(e)) ==> End(e, hi) == hi && Last(e).contentStart == 0
  {
    if e.next.Elem? {
      EndIsLast(e.next, if Opened(e) then e.dataEnd else e.start + 1, hi);
    }
  }

  lemma {:induction false} ContentTiles(e: Elem, lo: nat, hi: nat, level: nat)
    requires e.Elem? && Opened(e) && Laid(e, lo, hi)
    ensures Walkable(e.sub, Under(e.endTag))
    ensures Tiles(Content(e, level), e.contentStart, e.contentEnd)
    decreases e, 0
  {
    hide Tiles, Between, Show, Walkable;
    LaidWalkable(e.sub, e.contentStart, e.contentEnd, Under(e.endTag));
    var ind := Indent(level + 1);
    if e.sub.Elem? {
      var last, mid := Last(e.sub), End(e.sub, e.contentEnd);
      EndIsLast(e.sub, e.contentStart, e.contentEnd);
      TilesBetween(true, ind, e.contentStart, e.sub.start);
      ShowTiles(e.sub, e.contentStart, e.contentEnd, e.endTag, level + 1);
      var tail := Between(last.contentStart > 0, ind, last.dataEnd, e.contentEnd);
      assert Tiles(tail, mid, e.contentEnd) by {
        if Opened(last) {
          TilesBetween(true, ind, last.dataEnd, e.contentEnd);
        } else {
          TilesEmpty(last, ind, e.contentEnd);
        }
      }
      TilesAppend(Show(e.sub, Under(e.endTag), level + 1), tail, e.sub.start, mid, e.contentEnd);
      TilesAppend(Between(true, ind, e.contentStart, e.sub.start),
                  Show(e.sub, Under(e.endTag), level + 1) + tail, e.contentStart, e.sub.start, e.contentEnd);
    } else {
      TilesOne(Line(ind, Source(e.contentStart, e.endTag)), e.contentStart, e.endTag);
    }
  }

  lemma TilesEmpty(last: Elem, indent: nat, at: nat)
    requires last.Elem? && last.contentStart == 0
    ensures Tiles(Between(last.contentStart > 0, indent, last.dataEnd, at), at, at)
  {
  }

  /** The tags and the content of one element, up to where the next stretch begins. */
  function ElementEnd(e: Elem, hi: nat): (r: nat)
    requires e.Elem?
  {
    if Opened(e) then e.dataEnd else if e.next.Elem? then e.next.start else hi
  }

  lemma {:induction false} ElementTiles(e: Elem, lo: nat, hi: nat, parent: Parent, level: nat)
    requires e.Elem? && Laid(e, lo, hi) && Printable(e, parent) && (Opened(e) || parent == Under(hi))
    ensures Walkable(e.sub, Under(e.endTag))
    ensures Tiles([Line(Indent(level), StartTag(e, parent))]
                  + (Content(e, level) + [Line(Indent(level), EndTag(e, parent))]), e.start, ElementEnd(e, hi))
    decreases e, 1
  {
    hide Tiles, Content, Walkable;
    var open, close := Line(Indent(level), StartTag(e, parent)), Line(Indent(level), EndTag(e, parent));
    if Opened(e) {
      TilesOne(open, e.start, e.contentStart);
      ContentTiles(e, lo, hi, level);
      assert Tiles([close], e.contentEnd, e.dataEnd) by {
        if e.dataEnd > e.contentEnd {
          TilesOne(close, e.contentEnd, e.dataEnd);
        } else {
          TilesNothing(close, e.contentEnd);
        }
      }
      TilesAppend(Content(e, level), [close], e.contentStart, e.contentEnd, e.dataEnd);
      TilesAppend([open], Content(e, level) + [close], e.start, e.contentStart, e.dataEnd);
    } else {
      var end := ElementEnd(e, hi);
      EmptyContent(e, level);
      TilesOne(open, e.start, end);
      TilesNothing(close, end);
      TilesAppend(Content(e, level), [close], end, end, end);
      TilesAppend([open], Content(e, level) + [close], e.start, end, end);
    }
  }

  lemma EmptyContent(e: Elem, level: nat)
    requires e.Elem? && Unset(e)
    ensures Walkable(e.sub, Under(e.endTag))
    ensures forall at :: Tiles(Content(e, level), at, at)
  {
  }

  /** A list of elements below one parent tiles the stretch from the first start tag on. */
  lemma {:induction false} ShowTiles(e: Elem, lo: nat, hi: nat, endTag: nat, level: nat)
    requires e.Elem? && Laid(e, lo, hi) && endTag == hi
    ensures Walkable(e, Under(endTag))
    ensures Tiles(Show(e, Under(endTag), level), e.start, End(e, hi))
    decreases e, 2
  {
    hide Tiles, Content, Walkable, Between;
    var parent, ind := Under(endTag), Indent(level);
    LaidWalkable(e, lo, hi, parent);
    ElementTiles(e, lo, hi, parent, level);
    var own := [Line(ind, StartTag(e, parent))] + (Content(e, level) + [Line(ind, EndTag(e, parent))]);
    if e.next.Elem? {
      var gap := Between(e.contentStart > 0, ind, e.dataEnd, e.next.start);
      assert Tiles(gap, ElementEnd(e, hi), e.next.start) by {
        if Opened(e) {
          TilesBetween(true, ind, e.dataEnd, e.next.start);
        } else {
          TilesEmpty(e, ind, e.next.start);
        }
      }
      ShowTiles(e.next, if Opened(e) then e.dataEnd else e.start + 1, hi, endTag, level);
      TilesAppend(gap, Show(e.next, parent, level), ElementEnd(e, hi), e.next.start, End(e, hi));
      TilesAppend(own, gap + Show(e.next, parent, level), e.start, ElementEnd(e, hi), End(e, hi));
    } else {
      assert own + [] == own;
    }
    ShowIsOwn(e, parent, level);
  }

  lemma ShowIsOwn(e: Elem, parent: Parent, level: nat)
    requires e.Elem? && Walkable(e, parent)
    ensures Walkable(e.sub, Under(e.endTag)) && Printable(e, parent)
    ensures Show(e, parent, level)
         == [Line(Indent(level), StartTag(e, parent))] + (Content(e, level) + [Line(Indent(level), EndTag(e, parent))])
            + After(e, parent, level)
  {
  }

  /** The text of the copied stretches, one after the other. */
  function Copied(record: string, lines: seq<Line>): (r: string) {
    if lines == [] then []
    else
      var p := lines[0].piece;
      (if p.Source? && 0 <= p.lo <= p.hi <= |record| then record[p.lo..p.hi] else [])
      + Copied(record, lines[1..])
  }

  lemma {:induction false} TilesInOrder(lines: seq<Line>, lo: int, hi: int)
    requires Tiles(lines, lo, hi)
    ensures lo <= hi
  {
    if lines != [] {
      match lines[0].piece
      case Closer(_, _) => TilesInOrder(lines[1..], lo, hi);
      case Source(a, b) => TilesInOrder(lines[1..], if b <= a then lo else b, hi);
    }
  }

  lemma {:induction false} TilesText(record: string, lines: seq<Line>, lo: int, hi: int)
    requires Tiles(lines, lo, hi) && 0 <= lo && hi <= |record|
    ensures lo <= hi && Copied(record, lines) == record[lo..hi]
  {
    TilesInOrder(lines, lo, hi);
    if lines != [] {
      match lines[0].piece
      case Closer(_, _) =>
        TilesText(record, lines[1..], lo, hi);
      case Source(a, b) =>
        if b <= a {
          TilesText(record, lines[1..], lo, hi);
        } else {
          TilesInOrder(lines[1..], b, hi);
          TilesText(record, lines[1..], b, hi);
          assert record[lo..b] + record[b..hi] == record[lo..hi];
        }
    }
  }

  /** Every line below an element is indented by at least its own level, clamped. */
  ghost predicate IndentedFrom(lines: seq<Line>, indent: nat) {
    forall i :: 0 <= i < |lines| ==> indent <= lines[i].indent <= MAX_INDENT
  }

  lemma IndentedAppend(p: seq<Line>, q: seq<Line>, indent: nat)
    requires IndentedFrom(p, indent) && IndentedFrom(q, indent)
    ensures IndentedFrom(p + q, indent)
  {
  }

  /** The tags of e stand at its own indent and all of its content stands further in (clamped). */
  lemma {:induction false} ContentIndented(e: Elem, level: nat)
    requires e.Elem? && Walkable(e.sub, Under(e.endTag))
    ensures IndentedFrom(Content(e, level), Indent(level + 1))
    decreases e, 0
  {
    hide Show;
    if e.sub.Elem? {
      var last, ind := Last(e.sub), Indent(level + 1);
      ShowIndented(e.sub, Under(e.endTag), level + 1);
      IndentedAppend(Show(e.sub, Under(e.endTag), level + 1),
                     Between(last.contentStart > 0, ind, last.dataEnd, e.contentEnd), ind);
    }
  }

  lemma {:induction false} ShowIndented(e: Elem, parent: Parent, level: nat)
    requires Walkable(e, parent)
    ensures IndentedFrom(Show(e, parent, level), Indent(level))
    decreases e, 1
  {
    hide Content;
    if e.Elem? {
      ContentIndented(e, level);
      if e.next.Elem? && parent.Under? {
        ShowIndented(e.next, parent, level);
      }
      IndentedAppend([Line(Indent(level), EndTag(e, parent))], After(e, parent, level), Indent(level));
      IndentedAppend(Content(e, level),
                     [Line(Indent(level), EndTag(e, parent))] + After(e, parent, level), Indent(level));
    }
  }

  /** Closing tags made up by the printer. */
  function Closers(lines: seq<Line>): (n: nat) {
    if lines == [] then 0 else (if lines[0].piece.Closer? then 1 else 0) + Closers(lines[1..])
  }

  /** Elements without an end tag in the record. */
  function Unclosed(e: Elem): (n: nat)
    decreases e, 1
  {
    if e.Nil? then 0
    else UnclosedIn(e) + Unclosed(e.next)
  }

  /** The same for e and what is below it, without the elements after it. */
  function UnclosedIn(e: Elem): (n: nat)
    requires e.Elem?
    decreases e, 0
  {
    (if XmlEmpty(e) || e.dataEnd <= e.contentEnd then 1 else 0) + Unclosed(e.sub)
  }

  lemma {:induction false} ClosersAppend(p: seq<Line>, q: seq<Line>)
    ensures Closers(p + q) == Closers(p) + Closers(q)
  {
    if p == [] {
      assert p + q == q;
    } else {
      assert (p + q)[1..] == p[1..] + q;
      ClosersAppend(p[1..], q);
    }
  }

  lemma BetweenHasNoCloser(known: bool, indent: nat, lo: int, hi: int)
    ensures Closers(Between(known, indent, lo, hi)) == 0
  {
  }

  lemma {:induction false} ContentClosers(e: Elem, level: nat)
    requires e.Elem? && Walkable(e.sub, Under(e.endTag))
    ensures Closers(Content(e, level)) == Unclosed(e.sub)
    decreases e, 0
  {
    hide Show, Closers, Between;
    if e.sub.Elem? {
      var last, ind := Last(e.sub), Indent(level + 1);
      var head, mid := Between(true, ind, e.contentStart, e.sub.start), Show(e.sub, Under(e.endTag), level + 1);
      var tail := Between(last.contentStart > 0, ind, last.dataEnd, e.contentEnd);
      ShowClosers(e.sub, Under(e.endTag), level + 1);
      BetweenHasNoCloser(true, ind, e.contentStart, e.sub.start);
      BetweenHasNoCloser(last.contentStart > 0, ind, last.dataEnd, e.contentEnd);
      ClosersAppend(mid, tail);
      ClosersAppend(head, mid + tail);
    } else {
      OneLine(Content(e, level)[0]);
    }
  }

  lemma OneLine(line: Line)
    ensures Closers([line]) == if line.piece.Closer? then 1 else 0
  {
  }

  /** One made-up closing tag for each element the record does not close, and no other. */
  lemma {:induction false} ShowClosers(e: Elem, parent: Parent, level: nat)
    requires Walkable(e, parent)
    ensures Closers(Show(e, parent, level)) == if e.Nil? || parent.Under? then Unclosed(e) else UnclosedIn(e)
    decreases e, 1
  {
    hide Content, Closers, Between;
    if e.Nil? {
      NoLines();
    } else {
      var open, close := Line(Indent(level), StartTag(e, parent)), Line(Indent(level), EndTag(e, parent));
      ContentClosers(e, level);
      OneLine(open);
      OneLine(close);
      NoLines();
      if e.next.Elem? && parent.Under? {
        ShowClosers(e.next, parent, level);
        BetweenHasNoCloser(e.contentStart > 0, Indent(level), e.dataEnd, e.next.start);
        ClosersAppend(Between(e.contentStart > 0, Indent(level), e.dataEnd, e.next.start), Show(e.next, parent, level));
      }
      ClosersAppend([close], After(e, parent, level));
      ClosersAppend(Content(e, level), [close] + After(e, parent, level));
      ClosersAppend([open], Content(e, level) + ([close] + After(e, parent, level)));
    }
  }

  lemma NoLines()
    ensures Closers([]) == 0
  {
  }

  /**
   * Displaying a record: the copied text is the record from the root's start tag to its
   * end, the level is back where it was, the root's two tags stand at indent 0 with
   * everything else at 1 or more, and closers are made up only for unclosed elements.
   */
  method DisplayRecord(record: string, root: Elem) returns (out: seq<Line>)
    requires root.Elem? && Opened(root) && Laid(root, 0, |record|)
    ensures Copied(record, out) == record[root.start..root.dataEnd]
    ensures Closers(out) == UnclosedIn(root)
    ensures |out| >= 2 && out[0] == Line(0, Source(root.start, root.contentStart)) && out[|out| - 1].indent == 0
    ensures IndentedFrom(out[1..|out| - 1], 1)
  {
    hide Tiles, Content, Copied, Closers, UnclosedIn, Walkable, IndentedFrom, Show;
    RootWalkable(root, |record|);
    var printer := new Printer();
    printer.Display(root, NoParent);
    out := printer.out;
    ElementTiles(root, 0, |record|, NoParent, 0);
    ShowIsOwn(root, NoParent, 0);
    var own := [Line(0, StartTag(root, NoParent))] + (Content(root, 0) + [Line(0, EndTag(root, NoParent))]);
    assert out == own && out == Show(root, NoParent, 0);
    TilesText(record, out, root.start, root.dataEnd);
    ShowClosers(root, NoParent, 0);
    ContentIndented(root, 0);
    assert out[1..|out| - 1] == Content(root, 0);
  }

  lemma RootWalkable(root: Elem, hi: nat)
    requires root.Elem? && Opened(root) && Laid(root, 0, hi)
    ensures Walkable(root, NoParent) && ElementEnd(root, hi) == root.dataEnd
  {
    LaidWalkable(root.sub, root.contentStart, root.contentEnd, Under(root.endTag));
  }
}
