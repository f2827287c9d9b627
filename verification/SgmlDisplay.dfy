/**
 * The SGML pretty-printer `sgmltree_disp` (cheshire2/z_dispsgml.c:694-902): a walk over
 * first-child/next-sibling links that copies stretches of the record out, tag by tag.
 */
module SgmlDisplay {

  const MAX_INDENT: nat := 10

  /** A parsed element: offsets into the record, its first sub-element and the next element. */
  datatype Elem =
    | Nil
    | Elem(start: nat, contentStart: nat, contentEnd: nat, endTag: nat, dataEnd: nat, sub: Elem, next: Elem)

  /** The `parent` pointer, of which the printer uses only the end tag's offset. */
  datatype Parent = NoParent | Under(endTag: nat)

  /** What a line shows: a stretch of the record, or a closing tag made up from a start tag. */
  datatype Piece = Source(lo: int, hi: int) | Closer(lo: int, hi: int)

  datatype Line = Line(indent: nat, piece: Piece)

  function Indent(level: nat): nat {
    if level <= MAX_INDENT then level else MAX_INDENT
  }

  function Last(e: Elem): (r: Elem)
    requires e.Elem?
    ensures r.Elem? && r.next.Nil?
  {
    if e.next.Nil? then e else Last(e.next)
  }

  /** An empty element in XML notation: no content offset lies after its start tag. */
  predicate XmlEmpty(e: Elem)
    requires e.Elem?
  {
    e.contentStart <= e.start
  }

  /** The elements after e are printed only below a parent; a lone XML element needs one. */
  predicate Printable(e: Elem, parent: Parent)
    requires e.Elem?
  {
    XmlEmpty(e) ==> e.next.Elem? || parent.Under?
  }

  function StartTag(e: Elem, parent: Parent): (p: Piece)
    requires e.Elem? && Printable(e, parent)
  {
    Source(e.start,
           if !XmlEmpty(e) then e.contentStart
           else if e.next.Elem? then e.next.start
           else parent.endTag)
  }

  function EndTag(e: Elem, parent: Parent): (p: Piece)
    requires e.Elem? && Printable(e, parent)
  {
    if !XmlEmpty(e) && e.dataEnd > e.contentEnd then Source(e.endTag, e.endTag + (e.dataEnd - e.contentEnd))
    else Closer(e.start, StartTag(e, parent).hi)
  }

  /** A stretch between elements, left out when it is empty or not after a known offset. */
  function Between(known: bool, indent: nat, lo: int, hi: int): (r: seq<Line>) {
    if known && hi > lo then [Line(indent, Source(lo, hi))] else []
  }

  /** Where the printer can go at all: it reads through no missing parent. */
  predicate Walkable(e: Elem, parent: Parent) {
    e.Elem? ==>
      && Printable(e, parent)
      && Walkable(e.sub, Under(e.endTag))
      && (parent.Under? ==> Walkable(e.next, parent))
  }

  /** What is between the tags of e. */
  function Content(e: Elem, level: nat): (r: seq<Line>)
    requires e.Elem? && Walkable(e.sub, Under(e.endTag))
    decreases e, 0
  {
    if e.sub.Elem? then
      var last := Last(e.sub);
      Between(true, Indent(level + 1), e.contentStart, e.sub.start)
      + (Show(e.sub, Under(e.endTag), level + 1)
         + Between(last.contentStart > 0, Indent(level + 1), last.dataEnd, e.contentEnd))
    else
      [Line(Indent(level + 1), Source(e.contentStart, if XmlEmpty(e) then e.contentStart else e.endTag))]
  }

  /** What follows the end tag of e. */
  function After(e: Elem, parent: Parent, level: nat): (r: seq<Line>)
    requires e.Elem? && Walkable(e, parent)
    decreases e, 0
  {
    if e.next.Elem? && parent.Under? then
      Between(e.contentStart > 0, Indent(level), e.dataEnd, e.next.start) + Show(e.next, parent, level)
    else []
  }

  /** All lines for e and the elements after it. */
  function Show(e: Elem, parent: Parent, level: nat): (r: seq<Line>)
    requires Walkable(e, parent)
    decreases e, 1
  {
    if e.Nil? then []
    else
      [Line(Indent(level), StartTag(e, parent))]
      + (Content(e, level)
         + ([Line(Indent(level), EndTag(e, parent))] + After(e, parent, level)))
  }

  // ------------------------------------------------------------------- the source's code

  class Printer {
    var indentLevel: nat
    var out: seq<Line>

    constructor ()
      ensures indentLevel == 0 && out == []
    {
      indentLevel := 0;
      out := [];
    }

    method Put(indent: nat, piece: Piece)
      modifies this`out
      ensures out == old(out) + [Line(indent, piece)]
    {
      out := out + [Line(indent, piece)];
    }

    method PutBetween(known: bool, indent: nat, lo: int, hi: int)
      modifies this`out
      ensures out == old(out) + Between(known, indent, lo, hi)
    {
      if hi - lo > 0 && known {
        Put(indent, Source(lo, hi));
      }
    }

    /** Between the tags: text, sub-elements and text, or just text. */
    method DisplayContent(e: Elem, indent: nat)
      requires e.Elem? && Walkable(e.sub, Under(e.endTag)) && indentLevel > 0 && indent == Indent(indentLevel)
      modifies this
      ensures indentLevel == old(indentLevel)
      ensures out == old(out) + Content(e, indentLevel - 1)
      decreases e, 0
    {
      hide Walkable, Between, Show;
      if e.sub.Elem? {
        PutBetween(true, indent, e.contentStart, e.sub.start);
        Display(e.sub, Under(e.endTag));
        var last := e.sub;
        while last.next.Elem?
          invariant last.Elem? && Last(last) == Last(e.sub)
          decreases last
        {
          last := last.next;
        }
        PutBetween(last.contentStart > 0, indent, last.dataEnd, e.contentEnd);
      } else {
        var datalen: int := if XmlEmpty(e) then 0 else e.endTag - e.contentStart;
        Put(indent, Source(e.contentStart, e.contentStart + datalen));
      }
    }

    /** The recursive descent, with its running indent level and its clamped indent. */
    method Display(e: Elem, parent: Parent)
      requires e.Elem? && Walkable(e, parent)
      modifies this
      ensures indentLevel == old(indentLevel)
      ensures out == old(out) + Show(e, parent, indentLevel)
      decreases e, 1
    {
      hide Walkable, Between, Show, Content;
      WalkableParts(e, parent);
      ghost var before, level := out, indentLevel;
      var indent := MAX_INDENT;
      if indentLevel <= MAX_INDENT {
        indent := indentLevel;
      }
      Put(indent, StartTag(e, parent));
      indentLevel := indentLevel + 1;
      if indentLevel <= MAX_INDENT {
        indent := indentLevel;
      }
      DisplayContent(e, indent);
      indentLevel := indentLevel - 1;
      if indentLevel <= MAX_INDENT {
        indent := indentLevel;
      }
      Put(indent, EndTag(e, parent));
      ghost var here := out;
      if e.next.Elem? && parent.Under? {
        PutBetween(e.contentStart > 0, indent, e.dataEnd, e.next.start);
        Display(e.next, parent);
      }
      ShowParts(e, parent, level, before, here, out);
    }
  }

  lemma ShowParts(e: Elem, parent: Parent, level: nat, before: seq<Line>, here: seq<Line>, now: seq<Line>)
    requires e.Elem? && Walkable(e, parent)
    requires here == before + [Line(Indent(level), StartTag(e, parent))] + Content(e, level)
                     + [Line(Indent(level), EndTag(e, parent))]
    requires now == here + After(e, parent, level)
    ensures now == before + Show(e, parent, level)
  {
    hide Content, Walkable, After;
  }

  lemma WalkableParts(e: Elem, parent: Parent)
    requires e.Elem? && Walkable(e, parent)
    ensures Printable(e, parent) && Walkable(e.sub, Under(e.endTag))
    ensures parent.Under? ==> Walkable(e.next, parent)
  {
  }
}
