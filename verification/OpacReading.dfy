/**
 * Reading an OPAC list element back: a reader of Tcl lists, written without looking at the
 * printer, and that it finds every name and value the record has, in order.
 */
module OpacReading {
  import opened CStrings
  import opened MarcClip
  import opened OpacRecord

  // ------------------------------------------------------------------- a Tcl list reader

  /** Where the brace is that closes the list s is inside of; `depth` lists are open in it. */
  function Closing(s: string, depth: nat): (k: nat)
    ensures k <= |s| && (k < |s| ==> s[k] == '}')
  {
    if s == [] then 0
    else if s[0] == '{' then 1 + Closing(s[1..], depth + 1)
    else if s[0] == '}' then if depth == 0 then 0 else 1 + Closing(s[1..], depth - 1)
    else 1 + Closing(s[1..], depth)
  }

  /** A word without braces ends at a blank. */
  function BareWord(s: string): (w: string)
    ensures w <= s
  {
    if s == [] || s[0] == ' ' then [] else [s[0]] + BareWord(s[1..])
  }

  /** The elements of a list: words and braced strings, between blanks. */
  function ReadList(s: string): (r: seq<string>)
    decreases |s|
  {
    if s == [] then []
    else if s[0] == ' ' then ReadList(s[1..])
    else if s[0] == '{' then
      var k := Closing(s[1..], 0);
      [s[1..][..k]] + ReadList(s[1..][if k < |s| - 1 then k + 1 else k..])
    else
      var w := BareWord(s);
      [w] + ReadList(s[|w|..])
  }

  /** The depth at the end of s when it begins at depth d; -1 if a brace closes too much. */
  function Level(s: string, d: nat): (e: int)
    ensures -1 <= e
  {
    if s == [] then d
    else if s[0] == '{' then Level(s[1..], d + 1)
    else if s[0] == '}' then if d == 0 then -1 else Level(s[1..], d - 1)
    else Level(s[1..], d)
  }

  predicate Balanced(s: string) {
    Level(s, 0) == 0
  }

  predicate BraceFree(s: string) {
    '{' !in s && '}' !in s
  }

  lemma {:induction false} LevelAppend(a: string, b: string, d: nat)
    requires Level(a, d) >= 0
    ensures Level(a + b, d) == Level(b, Level(a, d))
  {
    if a == [] {
      assert a + b == b;
    } else {
      assert (a + b)[0] == a[0] && (a + b)[1..] == a[1..] + b;
      LevelAppend(a[1..], b, if a[0] == '{' then d + 1 else if a[0] == '}' then d - 1 else d);
    }
  }

  lemma {:induction false} LevelHigher(s: string, d: nat, more: nat)
    requires Level(s, d) >= 0
    ensures Level(s, d + more) == Level(s, d) + more
  {
    if s != [] {
      LevelHigher(s[1..], if s[0] == '{' then d + 1 else if s[0] == '}' then d - 1 else d, more);
    }
  }

  lemma {:induction false} BraceFreeIsBalanced(s: string, d: nat)
    requires BraceFree(s)
    ensures Level(s, d) == d
  {
    if s != [] {
      BraceFreeIsBalanced(s[1..], d);
    }
  }

  lemma BalancedAppend(a: string, b: string)
    requires Balanced(a) && Balanced(b)
    ensures Balanced(a + b)
  {
    LevelAppend(a, b, 0);
  }

  lemma BalancedBraced(a: string)
    requires Balanced(a)
    ensures Balanced(['{'] + (a + ['}']))
  {
    LevelHigher(a, 0, 1);
    LevelAppend(a, ['}'], 1);
    var s := ['{'] + (a + ['}']);
    assert s[0] == '{' && s[1..] == a + ['}'];
    assert Level(['}'], 1) == Level([], 0);
  }

  /** The closing brace is looked for behind everything balanced. */
  lemma {:induction false} ClosingBehind(a: string, b: string, d: nat)
    requires Level(a, d) >= 0
    ensures Closing(a + b, d) == |a| + Closing(b, Level(a, d))
  {
    if a == [] {
      assert a + b == b;
    } else {
      assert (a + b)[0] == a[0] && (a + b)[1..] == a[1..] + b;
      ClosingBehind(a[1..], b, if a[0] == '{' then d + 1 else if a[0] == '}' then d - 1 else d);
    }
  }

  /** A braced element in front of a list. */
  lemma ReadBraced(x: string, rest: string)
    requires Balanced(x)
    ensures ReadList(['{'] + (x + (['}'] + rest))) == [x] + ReadList(rest)
  {
    hide ReadList, Closing;
    var t := x + (['}'] + rest);
    ClosingBehind(x, ['}'] + rest, 0);
    ClosesHere(rest);
    ReadOpen(t, |x|);
    assert t[..|x|] == x && t[|x| + 1..] == rest;
  }

  lemma ClosesHere(rest: string)
    ensures Closing(['}'] + rest, 0) == 0
  {
  }

  lemma ReadOpen(t: string, k: nat)
    requires k == Closing(t, 0) < |t|
    ensures ReadList(['{'] + t) == [t[..k]] + ReadList(t[k + 1..])
  {
    hide Closing;
    assert (['{'] + t)[1..] == t;
  }

  lemma ReadBlank(rest: string)
    ensures ReadList([' '] + rest) == ReadList(rest)
  {
    assert ([' '] + rest)[1..] == rest;
  }

  /** A plain name: letters and digits only, as far as the reader is concerned. */
  predicate IsName(w: string) {
    w != [] && BraceFree(w) && ' ' !in w
  }

  lemma {:induction false} BareWordStops(w: string, rest: string)
    requires ' ' !in w && (rest == [] || rest[0] == ' ')
    ensures BareWord(w + rest) == w
  {
    if w == [] {
      assert w + rest == rest;
    } else {
      assert (w + rest)[0] == w[0] && (w + rest)[1..] == w[1..] + rest;
      BareWordStops(w[1..], rest);
    }
  }

  lemma ReadName(w: string, rest: string)
    requires IsName(w) && (rest == [] || rest[0] == ' ')
    ensures ReadList(w + rest) == [w] + ReadList(rest)
  {
    BareWordStops(w, rest);
    var s := w + rest;
    assert s[0] == w[0] && w[0] in w;
    assert s[|w|..] == rest;
  }

  // ---------------------------------------------------------------- elements of a record

  /** A row of braced elements, each after a blank. */
  function Row(elements: seq<string>): (r: string) {
    if elements == [] then []
    else [' '] + (['{'] + (elements[0] + (['}'] + Row(elements[1..]))))
  }

  ghost predicate AllBalanced(elements: seq<string>) {
    forall i :: 0 <= i < |elements| ==> Balanced(elements[i])
  }

  lemma {:induction false} ReadRow(elements: seq<string>)
    requires AllBalanced(elements)
    ensures ReadList(Row(elements)) == elements
  {
    hide ReadList, Balanced;
    if elements == [] {
      ReadNothing();
    } else {
      ReadRow(elements[1..]);
      ReadBlank(['{'] + (elements[0] + (['}'] + Row(elements[1..]))));
      ReadBraced(elements[0], Row(elements[1..]));
    }
  }

  lemma ReadNothing()
    ensures ReadList("") == []
  {
  }

  lemma {:induction false} RowBalanced(elements: seq<string>)
    requires AllBalanced(elements)
    ensures Balanced(Row(elements)) && (Row(elements) == [] || Row(elements)[0] == ' ')
  {
    hide Balanced;
    if elements == [] {
      NothingBalanced();
    } else {
      RowBalanced(elements[1..]);
      BalancedBraced(elements[0]);
      NothingBalanced();
      var braced, rest := ['{'] + (elements[0] + ['}']), Row(elements[1..]);
      BalancedAppend(braced, rest);
      BalancedAppend([' '], braced + rest);
      Regroup3(['{'], elements[0] + ['}'], rest);
      Regroup3(elements[0], ['}'], rest);
    }
  }

  lemma NothingBalanced()
    ensures Balanced("") && Balanced(" ")
  {
    BraceFreeIsBalanced("", 0);
    BraceFreeIsBalanced(" ", 0);
  }

  lemma {:induction false} RowAppend(a: seq<string>, b: seq<string>)
    ensures Row(a + b) == Row(a) + Row(b)
  {
    if a == [] {
      assert a + b == b;
    } else {
      assert (a + b)[0] == a[0] && (a + b)[1..] == a[1..] + b;
      RowAppend(a[1..], b);
    }
  }

  // --------------------------------------------------------------------- names and values

  /** What a reader makes of a record: values under names, and groups of such values. */
  datatype Item = Pair(name: string, value: string) | Group(name: string, pairs: seq<Item>) | Unknown

  function ReadPair(x: string): (i: Item) {
    var l := ReadList(x);
    if |l| == 2 then Pair(l[0], l[1]) else Unknown
  }

  function ReadPairs(xs: seq<string>): (r: seq<Item>)
    ensures |r| == |xs| && forall i :: 0 <= i < |xs| ==> r[i] == ReadPair(xs[i])
  {
    seq(|xs|, i requires 0 <= i < |xs| => ReadPair(xs[i]))
  }

  /** An element: a group if its name says so, otherwise a name and a value. */
  function ReadItem(x: string): (i: Item) {
    var l := ReadList(x);
    if l != [] && (l[0] == "VOLUMEINFO" || l[0] == "CIRCDATA") then Group(l[0], ReadPairs(l[1..]))
    else ReadPair(x)
  }

  function ReadRecord(s: string): (r: seq<Item>)
    ensures var l := ReadList(s); |r| == |l| && forall i :: 0 <= i < |l| ==> r[i] == ReadItem(l[i])
  {
    var l := ReadList(s);
    seq(|l|, i requires 0 <= i < |l| => ReadItem(l[i]))
  }

  /** `name {text}` */
  function PairText(p: Item): (r: string)
    requires p.Pair?
  {
    p.name + ([' '] + (['{'] + (p.value + ['}'])))
  }

  predicate Plain(p: Item) {
    p.Pair? && IsName(p.name) && BraceFree(p.value) && p.name != "VOLUMEINFO" && p.name != "CIRCDATA"
  }

  lemma PairReads(p: Item)
    requires Plain(p)
    ensures Balanced(PairText(p)) && ReadPair(PairText(p)) == p && ReadItem(PairText(p)) == p
  {
    hide ReadList;
    BraceFreeIsBalanced(p.name, 0);
    BraceFreeIsBalanced(p.value, 0);
    BalancedBraced(p.value);
    NothingBalanced();
    var v := ['{'] + (p.value + ['}']);
    BalancedAppend([' '], v);
    BalancedAppend(p.name, [' '] + v);
    ReadName(p.name, [' '] + v);
    ReadBlank(v);
    assert ['}'] + [] == ['}'];
    ReadBraced(p.value, []);
    ReadNothing();
  }

  ghost predicate AllPlain(ps: seq<Item>) {
    forall i :: 0 <= i < |ps| ==> Plain(ps[i])
  }

  function Texts(ps: seq<Item>): (r: seq<string>)
    requires forall i :: 0 <= i < |ps| ==> ps[i].Pair?
    ensures |r| == |ps| && forall i :: 0 <= i < |ps| ==> r[i] == PairText(ps[i])
  {
    seq(|ps|, i requires 0 <= i < |ps| => PairText(ps[i]))
  }

  lemma PairsRead(ps: seq<Item>)
    requires AllPlain(ps)
    ensures AllBalanced(Texts(ps)) && ReadPairs(Texts(ps)) == ps
    ensures forall i :: 0 <= i < |ps| ==> ReadItem(Texts(ps)[i]) == ps[i]
  {
    hide ReadPair, ReadItem, Balanced, PairText;
    forall i | 0 <= i < |ps|
      ensures Balanced(Texts(ps)[i]) && ReadPair(Texts(ps)[i]) == ps[i] && ReadItem(Texts(ps)[i]) == ps[i]
    {
      assert Plain(ps[i]);
      PairReads(ps[i]);
    }
  }

  function GroupText(name: string, ps: seq<Item>): (r: string)
    requires forall i :: 0 <= i < |ps| ==> ps[i].Pair?
  {
    name + Row(Texts(ps))
  }

  lemma GroupReads(name: string, ps: seq<Item>)
    requires AllPlain(ps) && (name == "VOLUMEINFO" || name == "CIRCDATA")
    ensures Balanced(GroupText(name, ps)) && ReadItem(GroupText(name, ps)) == Group(name, ps)
  {
    hide ReadList, Balanced, IsName, PairText, Row, ReadPair;
    GroupNames();
    PairsRead(ps);
    RowBalanced(Texts(ps));
    NameBalanced(name);
    BalancedAppend(name, Row(Texts(ps)));
    ReadRow(Texts(ps));
    ReadName(name, Row(Texts(ps)));
    var l := ReadList(name + Row(Texts(ps)));
    assert l == [name] + Texts(ps) && l[1..] == Texts(ps);
  }

  lemma GroupNames()
    ensures IsName("VOLUMEINFO") && IsName("CIRCDATA")
  {
  }

  lemma NameBalanced(name: string)
    requires IsName(name)
    ensures Balanced(name)
  {
    BraceFreeIsBalanced(name, 0);
  }

  // ----------------------------------------------------------------- what a record says

  function FieldItems(names: seq<string>, fields: seq<Field>): (r: seq<Item>)
    requires |names| == |fields|
    ensures forall i :: 0 <= i < |r| ==> r[i].Pair?
  {
    if fields == [] then []
    else
      (match fields[0]
       case Missing => []
       case Present(v) => [Pair(names[0], v.text)])
      + FieldItems(names[1..], fields[1..])
  }

  function YesNo(on: bool): (r: string) {
    if on then "YES" else "NO"
  }

  /** A circulation record: three flags, and the optional fields around them. */
  function CircItems(c: Circ): (r: seq<Item>)
    requires CircValid(c)
    ensures forall i :: 0 <= i < |r| ==> r[i].Pair?
  {
    [Pair("availableNow", YesNo(c.availableNow))] + FieldItems(CIRC_NAMES_1, c.first)
    + [Pair("renewable", YesNo(c.renewable)), Pair("onHold", YesNo(c.onHold))] + FieldItems(CIRC_NAMES_2, c.second)
  }

  ghost function CircsItems(cs: seq<Circ>): (r: seq<Item>)
    requires CircsValid(cs)
    ensures forall i :: 0 <= i < |r| ==> r[i].Pair?
  {
    if cs == [] then [] else CircItems(cs[0]) + CircsItems(cs[1..])
  }

  ghost function VolumesItems(vs: seq<seq<Field>>): (r: seq<Item>)
    requires VolumesValid(vs)
    ensures forall i :: 0 <= i < |r| ==> r[i].Pair?
  {
    if vs == [] then [] else FieldItems(VOLUME_NAMES, vs[0]) + VolumesItems(vs[1..])
  }

  ghost function HoldingItems(h: Holding): (r: seq<Item>)
    requires HoldingValid(h)
  {
    match h
    case MarcHolding(data) => [Pair("MARCHOLDINGS", data.text)]
    case Holdings(fields, volumes, circulation) =>
      FieldItems(HOLDING_NAMES, fields)
      + (if volumes != [] then [Group("VOLUMEINFO", VolumesItems(volumes))] else [])
      + (if circulation != [] then [Group("CIRCDATA", CircsItems(circulation))] else [])
  }

  ghost function HoldingsItems(hs: seq<Holding>): (r: seq<Item>)
    requires forall i :: 0 <= i < |hs| ==> HoldingValid(hs[i])
  {
    if hs == [] then [] else HoldingItems(hs[0]) + HoldingsItems(hs[1..])
  }

  ghost function RecordItems(o: Opac): (r: seq<Item>)
    requires Valid(o)
  {
    (if o.bib.Missing? then [] else [Pair("BIBRECORD", Safe(o.bib.value.text))]) + HoldingsItems(o.holdings)
  }

  // ------------------------------------------------------------------ the text, as items

  /** An item that reads back. */
  ghost predicate Sayable(i: Item) {
    Plain(i) || (i.Group? && AllPlain(i.pairs) && (i.name == "VOLUMEINFO" || i.name == "CIRCDATA"))
  }

  ghost predicate AllSayable(items: seq<Item>) {
    forall i :: 0 <= i < |items| ==> Sayable(items[i])
  }

  ghost function ItemText(i: Item): (r: string)
    requires Sayable(i)
  {
    if i.Pair? then PairText(i) else GroupText(i.name, i.pairs)
  }

  ghost function ItemTexts(items: seq<Item>): (r: seq<string>)
    requires AllSayable(items)
    ensures |r| == |items| && forall i :: 0 <= i < |items| ==> r[i] == ItemText(items[i])
  {
    seq(|items|, i requires 0 <= i < |items| => ItemText(items[i]))
  }

  lemma ItemReads(i: Item)
    requires Sayable(i)
    ensures Balanced(ItemText(i)) && ReadItem(ItemText(i)) == i
  {
    hide Balanced, ReadItem, PairText, GroupText;
    if i.Pair? {
      PairReads(i);
    } else {
      GroupReads(i.name, i.pairs);
    }
  }

  lemma ItemsRead(items: seq<Item>)
    requires AllSayable(items)
    ensures AllBalanced(ItemTexts(items))
    ensures forall i :: 0 <= i < |items| ==> ReadItem(ItemTexts(items)[i]) == items[i]
  {
    hide Balanced, ReadItem, ItemText, Sayable;
    forall i | 0 <= i < |items|
      ensures Balanced(ItemTexts(items)[i]) && ReadItem(ItemTexts(items)[i]) == items[i]
    {
      ItemReads(items[i]);
    }
  }

  lemma ItemTextsAppend(a: seq<Item>, b: seq<Item>)
    requires AllSayable(a) && AllSayable(b)
    ensures AllSayable(a + b) && ItemTexts(a + b) == ItemTexts(a) + ItemTexts(b)
    ensures Row(ItemTexts(a + b)) == Row(ItemTexts(a)) + Row(ItemTexts(b))
  {
    hide ItemText, Sayable, Row;
    RowAppend(ItemTexts(a), ItemTexts(b));
  }

  // ----------------------------------------------------------- the printer writes the items

  lemma ElementIsRow(name: string, text: string)
    ensures Row(Texts([Pair(name, text)])) == Element(name, text)
  {
    assert Texts([Pair(name, text)]) == [PairText(Pair(name, text))];
    assert Row([]) == [];
    assert Row([PairText(Pair(name, text))]) == [' '] + (['{'] + (PairText(Pair(name, text)) + (['}'] + Row([]))));
  }

  lemma TextsAppend(a: seq<Item>, b: seq<Item>)
    requires (forall i :: 0 <= i < |a| ==> a[i].Pair?) && (forall i :: 0 <= i < |b| ==> b[i].Pair?)
    ensures Texts(a + b) == Texts(a) + Texts(b)
    ensures Row(Texts(a + b)) == Row(Texts(a)) + Row(Texts(b))
  {
    hide Row, PairText;
    assert Texts(a + b) == Texts(a) + Texts(b);
    RowAppend(Texts(a), Texts(b));
  }

  lemma {:induction false} FieldsTextIsRow(names: seq<string>, fields: seq<Field>)
    requires |names| == |fields|
    ensures FieldsText(names, fields) == Row(Texts(FieldItems(names, fields)))
  {
    hide Row, PairText, Element;
    if fields == [] {
      NoRow();
    } else {
      var more := FieldItems(names[1..], fields[1..]);
      FieldsTextIsRow(names[1..], fields[1..]);
      match fields[0]
      case Missing =>
        assert FieldItems(names, fields) == more;
      case Present(v) =>
        ElementIsRow(names[0], v.text);
        TextsAppend([Pair(names[0], v.text)], more);
    }
  }

  lemma NoRow()
    ensures Texts([]) == [] && Row([]) == ""
  {
  }

  lemma CircTextIsRow(c: Circ)
    requires CircValid(c)
    ensures CircText(c) == Row(Texts(CircItems(c)))
  {
    hide Row, PairText, Element, FieldsText, FieldItems, FieldsValid;
    var now, renew, hold := Pair("availableNow", YesNo(c.availableNow)), Pair("renewable", YesNo(c.renewable)),
                            Pair("onHold", YesNo(c.onHold));
    var f, g := FieldItems(CIRC_NAMES_1, c.first), FieldItems(CIRC_NAMES_2, c.second);
    FieldsTextIsRow(CIRC_NAMES_1, c.first);
    FieldsTextIsRow(CIRC_NAMES_2, c.second);
    ElementIsRow("availableNow", YesNo(c.availableNow));
    ElementIsRow("renewable", YesNo(c.renewable));
    ElementIsRow("onHold", YesNo(c.onHold));
    assert [renew, hold] == [renew] + [hold];
    TextsAppend([now], f);
    TextsAppend([renew], [hold]);
    TextsAppend([now] + f, [renew, hold]);
    TextsAppend([now] + f + [renew, hold], g);
  }

  lemma {:induction false} CircsTextIsRow(cs: seq<Circ>)
    requires CircsValid(cs)
    ensures CircsText(cs) == Row(Texts(CircsItems(cs)))
  {
    hide Row, PairText, CircText, CircItems, CircValid;
    if cs == [] {
      NoRow();
    } else {
      CircTextIsRow(cs[0]);
      CircsTextIsRow(cs[1..]);
      TextsAppend(CircItems(cs[0]), CircsItems(cs[1..]));
    }
  }

  lemma {:induction false} VolumesTextIsRow(vs: seq<seq<Field>>)
    requires VolumesValid(vs)
    ensures VolumesText(vs) == Row(Texts(VolumesItems(vs)))
  {
    hide Row, PairText, FieldsText, FieldItems, FieldsValid;
    if vs == [] {
      NoRow();
    } else {
      FieldsTextIsRow(VOLUME_NAMES, vs[0]);
      VolumesTextIsRow(vs[1..]);
      TextsAppend(FieldItems(VOLUME_NAMES, vs[0]), VolumesItems(vs[1..]));
    }
  }

  // --------------------------------------------------------------- texts without braces

  ghost predicate CleanFields(fields: seq<Field>) {
    forall i :: 0 <= i < |fields| ==> fields[i].Present? ==> BraceFree(fields[i].value.text)
  }

  /** No text in the record has a brace; of the bibliographic record, none is left after hiding. */
  ghost predicate Clean(o: Opac) {
    && (o.bib.Present? ==> BraceFree(Safe(o.bib.value.text)))
    && forall i :: 0 <= i < |o.holdings| ==> CleanHolding(o.holdings[i])
  }

  ghost predicate CleanHolding(h: Holding) {
    match h
    case MarcHolding(data) => BraceFree(data.text)
    case Holdings(fields, volumes, circulation) =>
      && CleanFields(fields)
      && (forall i :: 0 <= i < |volumes| ==> CleanFields(volumes[i]))
      && (forall i :: 0 <= i < |circulation| ==>
            CleanFields(circulation[i].first) && CleanFields(circulation[i].second))
  }

  ghost predicate GoodNames(names: seq<string>) {
    forall i :: 0 <= i < |names| ==> GoodName(names[i])
  }

  predicate GoodName(w: string) {
    IsName(w) && w != "VOLUMEINFO" && w != "CIRCDATA"
  }

  lemma HoldingNamesAreGood()
    ensures GoodNames(HOLDING_NAMES)
  {
    hide GoodName;
    GoodHoldingNames1();
    GoodHoldingNames2();
    GoodHoldingNames3();
    GoodHoldingNames4();
    GoodHoldingNames5();
    GoodHoldingNames6();
    var names := HOLDING_NAMES;
    forall i | 0 <= i < |names|
      ensures GoodName(names[i])
    {
      assert names[i] in names;
    }
  }

  lemma GoodHoldingNames1()
    ensures GoodName("typeOfRecord") && GoodName("encodingLevel") && GoodName("format")
  {
  }

  lemma GoodHoldingNames2()
    ensures GoodName("receiptAcqStatus") && GoodName("generalRetention") && GoodName("completeness")
  {
  }

  lemma GoodHoldingNames3()
    ensures GoodName("dateOfReport") && GoodName("nucCode") && GoodName("localLocation")
  {
  }

  lemma GoodHoldingNames4()
    ensures GoodName("shelvingLocation") && GoodName("callNumber") && GoodName("shelvingData")
  {
  }

  lemma GoodHoldingNames5()
    ensures GoodName("copyNumber") && GoodName("publicNote") && GoodName("reproductionNote")
  {
  }

  lemma GoodHoldingNames6()
    ensures GoodName("termsUseRepro") && GoodName("enumAndChron")
  {
  }

  lemma NamesAreGood()
    ensures GoodNames(VOLUME_NAMES) && GoodNames(CIRC_NAMES_1) && GoodNames(CIRC_NAMES_2)
    ensures GoodName("BIBRECORD") && GoodName("MARCHOLDINGS")
    ensures GoodName("availableNow") && GoodName("renewable") && GoodName("onHold")
  {
    hide GoodName;
    GoodRecordNames();
    GoodFlagNames();
    GoodVolumeNames();
    GoodCircNames1();
    GoodCircNames2();
    GoodHoldingNames6();
  }

  lemma GoodRecordNames()
    ensures GoodName("BIBRECORD") && GoodName("MARCHOLDINGS")
  {
  }

  lemma GoodFlagNames()
    ensures GoodName("availableNow") && GoodName("renewable") && GoodName("onHold")
  {
  }

  lemma GoodVolumeNames()
    ensures GoodName("enumeration") && GoodName("chronology")
  {
  }

  lemma GoodCircNames1()
    ensures GoodName("availablityDate") && GoodName("availableThru")
  {
  }

  lemma GoodCircNames2()
    ensures GoodName("restrictions") && GoodName("itemId") && GoodName("midspine") && GoodName("temporaryLocation")
  {
  }

  lemma {:induction false} FieldItemsPlain(names: seq<string>, fields: seq<Field>)
    requires |names| == |fields| && GoodNames(names) && CleanFields(fields)
    ensures AllPlain(FieldItems(names, fields))
  {
    hide IsName, BraceFree;
    if fields != [] {
      FieldItemsPlain(names[1..], fields[1..]);
      assert GoodName(names[0]);
    }
  }

  lemma PlainAppend(a: seq<Item>, b: seq<Item>)
    requires AllPlain(a) && AllPlain(b)
    ensures AllPlain(a + b)
  {
    hide Plain;
  }

  lemma CircItemsPlain(c: Circ)
    requires CircValid(c) && CleanFields(c.first) && CleanFields(c.second)
    ensures AllPlain(CircItems(c))
  {
    hide IsName, FieldItems, CleanFields, FieldsValid, GoodNames;
    NamesAreGood();
    FieldItemsPlain(CIRC_NAMES_1, c.first);
    FieldItemsPlain(CIRC_NAMES_2, c.second);
    assert BraceFree("YES") && BraceFree("NO");
  }

  lemma {:induction false} CircsItemsPlain(cs: seq<Circ>)
    requires CircsValid(cs) && forall i :: 0 <= i < |cs| ==> CleanFields(cs[i].first) && CleanFields(cs[i].second)
    ensures AllPlain(CircsItems(cs))
  {
    hide Plain, CircItems, CleanFields, CircValid;
    if cs != [] {
      CircItemsPlain(cs[0]);
      CircsItemsPlain(cs[1..]);
      PlainAppend(CircItems(cs[0]), CircsItems(cs[1..]));
    }
  }

  lemma {:induction false} VolumesItemsPlain(vs: seq<seq<Field>>)
    requires VolumesValid(vs) && forall i :: 0 <= i < |vs| ==> CleanFields(vs[i])
    ensures AllPlain(VolumesItems(vs))
  {
    hide Plain, FieldItems, CleanFields, GoodNames, FieldsValid;
    if vs != [] {
      NamesAreGood();
      FieldItemsPlain(VOLUME_NAMES, vs[0]);
      VolumesItemsPlain(vs[1..]);
      PlainAppend(FieldItems(VOLUME_NAMES, vs[0]), VolumesItems(vs[1..]));
    }
  }

  // ---------------------------------------------------------------------- reading it back

  lemma PlainSays(ps: seq<Item>)
    requires AllPlain(ps)
    ensures AllSayable(ps) && Row(ItemTexts(ps)) == Row(Texts(ps))
  {
    hide Row, PairText, GroupText;
    assert ItemTexts(ps) == Texts(ps);
  }

  lemma GroupSays(name: string, used: bool, ps: seq<Item>, inner: string)
    requires AllPlain(ps) && (name == "VOLUMEINFO" || name == "CIRCDATA")
    requires inner == Row(Texts(ps)) && (!used ==> inner == "")
    ensures var items := if used then [Group(name, ps)] else [];
            AllSayable(items) && Row(ItemTexts(items)) == Wrapper(name, used, inner)
  {
    hide PairText, IsName, BraceFree;
    var items := if used then [Group(name, ps)] else [];
    assert AllSayable(items);
    NoRow();
    if used {
      assert ItemTexts(items) == [GroupText(name, ps)];
      assert Row([GroupText(name, ps)]) == [' '] + (['{'] + (GroupText(name, ps) + (['}'] + Row([]))));
    } else {
      assert ItemTexts(items) == [];
    }
  }

  lemma HoldingSays(h: Holding)
    requires HoldingValid(h) && CleanHolding(h)
    ensures AllSayable(HoldingItems(h)) && HoldingText(h) == Row(ItemTexts(HoldingItems(h)))
  {
    hide Row, PairText, Wrapper, Element, FieldsText, VolumesText, CircsText, FieldItems, VolumesItems, CircsItems,
      CleanFields, AllPlain, AllSayable, FieldsValid, GoodNames, GoodName;
    NamesAreGood();
    match h
    case MarcHolding(data) =>
      OnePlain("MARCHOLDINGS", data.text);
      ElementIsRow("MARCHOLDINGS", data.text);
      PlainSays([Pair("MARCHOLDINGS", data.text)]);
    case Holdings(fields, volumes, circulation) =>
      HoldingNamesAreGood();
      var f, v, c := FieldItems(HOLDING_NAMES, fields), VolumesItems(volumes), CircsItems(circulation);
      FieldItemsPlain(HOLDING_NAMES, fields);
      FieldsTextIsRow(HOLDING_NAMES, fields);
      PlainSays(f);
      VolumesItemsPlain(volumes);
      VolumesTextIsRow(volumes);
      CircsItemsPlain(circulation);
      CircsTextIsRow(circulation);
      NothingInside(volumes, circulation);
      GroupSays("VOLUMEINFO", volumes != [], v, VolumesText(volumes));
      GroupSays("CIRCDATA", circulation != [], c, CircsText(circulation));
      var vi: seq<Item> := if volumes != [] then [Group("VOLUMEINFO", v)] else [];
      var ci: seq<Item> := if circulation != [] then [Group("CIRCDATA", c)] else [];
      ItemTextsAppend(f, vi);
      ItemTextsAppend(f + vi, ci);
  }

  lemma OnePlain(name: string, text: string)
    requires GoodName(name) && BraceFree(text)
    ensures AllPlain([Pair(name, text)])
  {
  }

  lemma NothingInside(vs: seq<seq<Field>>, cs: seq<Circ>)
    requires VolumesValid(vs) && CircsValid(cs)
    ensures (vs == [] ==> VolumesText(vs) == "") && (cs == [] ==> CircsText(cs) == "")
  {
  }

  lemma {:induction false} HoldingsSay(hs: seq<Holding>)
    requires forall i :: 0 <= i < |hs| ==> HoldingValid(hs[i]) && CleanHolding(hs[i])
    ensures AllSayable(HoldingsItems(hs)) && HoldingsText(hs) == Row(ItemTexts(HoldingsItems(hs)))
  {
    hide Row, HoldingValid, CleanHolding, HoldingText, HoldingItems, Sayable, ItemText;
    if hs == [] {
      assert ItemTexts([]) == [];
      NoRow();
    } else {
      HoldingSays(hs[0]);
      HoldingsSay(hs[1..]);
      ItemTextsAppend(HoldingItems(hs[0]), HoldingsItems(hs[1..]));
    }
  }

  /**
   * For every record whose texts have no braces, the printed element read as a Tcl list gives
   * back every name with its value, flags and groups included, in the order of the record.
   */
  lemma RecordReadsBack(o: Opac)
    requires Valid(o) && Clean(o)
    ensures ReadRecord(Text(o)) == RecordItems(o)
  {
    hide Row, HoldingValid, CleanHolding, ReadList, ReadItem, ItemText, Sayable, HoldingsText, HoldingsItems, Safe,
      BraceFree, GoodName, GoodNames, Balanced;
    var items := HoldingsItems(o.holdings);
    HoldingsSay(o.holdings);
    ItemsRead(items);
    ReadRow(ItemTexts(items));
    var rest := HoldingsText(o.holdings);
    if o.bib.Missing? {
      assert Text(o) == rest;
    } else {
      NamesAreGood();
      var bib := Pair("BIBRECORD", Safe(o.bib.value.text));
      BibReads(bib, rest);
    }
  }

  lemma BibReads(bib: Item, rest: string)
    requires bib.Pair? && bib.name == "BIBRECORD" && BraceFree(bib.value) && GoodName("BIBRECORD")
    ensures ReadList("{BIBRECORD {" + bib.value + "}}" + rest) == [PairText(bib)] + ReadList(rest)
    ensures ReadItem(PairText(bib)) == bib
  {
    hide ReadList, ReadItem, ReadPair;
    PairReads(bib);
    ReadBraced(PairText(bib), rest);
    assert "{BIBRECORD {" + bib.value + "}}" + rest == ['{'] + (PairText(bib) + (['}'] + rest));
  }

  // --------------------------------------------------------------------- flags by name

  /** The first value under a name. */
  function ValueOf(items: seq<Item>, name: string): (v: string) {
    if items == [] then ""
    else if items[0].Pair? && items[0].name == name then items[0].value
    else ValueOf(items[1..], name)
  }

  lemma {:induction false} ValueBehind(a: seq<Item>, b: seq<Item>, name: string)
    requires forall i :: 0 <= i < |a| ==> a[i].Pair? && a[i].name != name
    ensures ValueOf(a + b, name) == ValueOf(b, name)
  {
    if a == [] {
      assert a + b == b;
    } else {
      assert (a + b)[0] == a[0] && (a + b)[1..] == a[1..] + b;
      ValueBehind(a[1..], b, name);
    }
  }

  lemma {:induction false} FieldNames(names: seq<string>, fields: seq<Field>, name: string)
    requires |names| == |fields| && forall i :: 0 <= i < |names| ==> names[i] != name
    ensures forall i :: 0 <= i < |FieldItems(names, fields)| ==> FieldItems(names, fields)[i].name != name
  {
    if fields != [] {
      FieldNames(names[1..], fields[1..], name);
    }
  }

  /** Each flag of a circulation record is read under its own name. */
  lemma FlagsUnderTheirNames(c: Circ)
    requires CircValid(c)
    ensures ValueOf(CircItems(c), "availableNow") == YesNo(c.availableNow)
    ensures ValueOf(CircItems(c), "renewable") == YesNo(c.renewable)
    ensures ValueOf(CircItems(c), "onHold") == YesNo(c.onHold)
  {
    hide FieldItems, FieldsValid;
    var now, renew, hold := Pair("availableNow", YesNo(c.availableNow)), Pair("renewable", YesNo(c.renewable)),
                            Pair("onHold", YesNo(c.onHold));
    var f, g := FieldItems(CIRC_NAMES_1, c.first), FieldItems(CIRC_NAMES_2, c.second);
    FieldNames(CIRC_NAMES_1, c.first, "renewable");
    FieldNames(CIRC_NAMES_1, c.first, "onHold");
    assert CircItems(c) == [now] + f + ([renew, hold] + g);
    assert CircItems(c) == [now] + f + [renew] + ([hold] + g);
    ValueBehind([now] + f, [renew, hold] + g, "renewable");
    ValueBehind([now] + f + [renew], [hold] + g, "onHold");
  }

  // ------------------------------------------------------------------ what the size counts

  /** The number of names with a value, inside groups too. */
  function PairsIn(items: seq<Item>): (n: nat) {
    if items == [] then 0
    else (match items[0]
          case Pair(_, _) => 1
          case Group(_, pairs) => |pairs|
          case Unknown => 0)
         + PairsIn(items[1..])
  }

  lemma {:induction false} PairsInAppend(a: seq<Item>, b: seq<Item>)
    ensures PairsIn(a + b) == PairsIn(a) + PairsIn(b)
  {
    if a == [] {
      assert a + b == b;
    } else {
      assert (a + b)[0] == a[0] && (a + b)[1..] == a[1..] + b;
      PairsInAppend(a[1..], b);
    }
  }

  lemma {:induction false} PairsOnly(ps: seq<Item>)
    requires forall i :: 0 <= i < |ps| ==> ps[i].Pair?
    ensures PairsIn(ps) == |ps|
  {
    if ps != [] {
      PairsOnly(ps[1..]);
    }
  }

  function Declared(fields: seq<Field>): (n: nat) {
    if fields == [] then 0 else (if fields[0].Missing? then 0 else fields[0].value.length) + Declared(fields[1..])
  }

  function DeclaredVolumes(vs: seq<seq<Field>>): (n: nat) {
    if vs == [] then 0 else Declared(vs[0]) + DeclaredVolumes(vs[1..])
  }

  function DeclaredCircs(cs: seq<Circ>): (n: nat) {
    if cs == [] then 0 else Declared(cs[0].first) + Declared(cs[0].second) + DeclaredCircs(cs[1..])
  }

  function DeclaredHoldings(hs: seq<Holding>): (n: nat) {
    if hs == [] then 0
    else (match hs[0]
          case MarcHolding(data) => data.length
          case Holdings(fields, volumes, circulation) =>
            Declared(fields) + DeclaredVolumes(volumes) + DeclaredCircs(circulation))
         + DeclaredHoldings(hs[1..])
  }

  lemma {:induction false} FieldsSizeCounts(names: seq<string>, fields: seq<Field>)
    requires |names| == |fields|
    ensures FieldsSize(fields) == 23 * |FieldItems(names, fields)| + Declared(fields)
  {
    if fields != [] {
      FieldsSizeCounts(names[1..], fields[1..]);
    }
  }

  lemma {:induction false} VolumesSizeCounts(vs: seq<seq<Field>>)
    requires VolumesValid(vs)
    ensures VolumesSize(vs) == 23 * |VolumesItems(vs)| + DeclaredVolumes(vs)
  {
    hide FieldItems, FieldsSize, Declared, FieldsValid;
    if vs != [] {
      FieldsSizeCounts(VOLUME_NAMES, vs[0]);
      VolumesSizeCounts(vs[1..]);
    }
  }

  lemma {:induction false} CircsSizeCounts(cs: seq<Circ>)
    requires CircsValid(cs)
    ensures CircsSize(cs) == 23 * |CircsItems(cs)| + DeclaredCircs(cs)
  {
    hide FieldItems, FieldsSize, Declared, FieldsValid;
    if cs != [] {
      FieldsSizeCounts(CIRC_NAMES_1, cs[0].first);
      FieldsSizeCounts(CIRC_NAMES_2, cs[0].second);
      CircsSizeCounts(cs[1..]);
    }
  }

  lemma HoldingSizeCounts(h: Holding)
    requires HoldingValid(h)
    ensures HoldingSize(h) == 23 * PairsIn(HoldingItems(h)) + DeclaredHoldings([h])
  {
    hide FieldItems, FieldsSize, VolumesItems, VolumesSize, CircsItems, CircsSize, Declared, FieldsValid;
    assert DeclaredHoldings([]) == 0 && PairsIn([]) == 0;
    match h
    case MarcHolding(data) =>
      PairsOnly([Pair("MARCHOLDINGS", data.text)]);
    case Holdings(fields, volumes, circulation) =>
      var f, v, c := FieldItems(HOLDING_NAMES, fields), VolumesItems(volumes), CircsItems(circulation);
      FieldsSizeCounts(HOLDING_NAMES, fields);
      VolumesSizeCounts(volumes);
      CircsSizeCounts(circulation);
      PairsOnly(f);
      GroupCounts("VOLUMEINFO", v);
      GroupCounts("CIRCDATA", c);
      NoneCounted(volumes, circulation);
      var vi: seq<Item> := if volumes != [] then [Group("VOLUMEINFO", v)] else [];
      var ci: seq<Item> := if circulation != [] then [Group("CIRCDATA", c)] else [];
      PairsInAppend(f, vi);
      PairsInAppend(f + vi, ci);
  }

  lemma GroupCounts(name: string, ps: seq<Item>)
    ensures PairsIn([Group(name, ps)]) == |ps|
  {
    assert [Group(name, ps)][1..] == [];
  }

  lemma NoneCounted(vs: seq<seq<Field>>, cs: seq<Circ>)
    requires VolumesValid(vs) && CircsValid(cs)
    ensures vs == [] ==> |VolumesItems(vs)| == 0
    ensures cs == [] ==> |CircsItems(cs)| == 0
  {
  }

  lemma {:induction false} HoldingsSizeCounts(hs: seq<Holding>)
    requires forall i :: 0 <= i < |hs| ==> HoldingValid(hs[i])
    ensures HoldingsSize(hs) == 23 * PairsIn(HoldingsItems(hs)) + DeclaredHoldings(hs)
  {
    hide HoldingItems, HoldingSize, HoldingValid, PairsIn;
    if hs == [] {
      assert PairsIn([]) == 0 by {
        PairsOnly([]);
      }
    } else {
      HoldingSizeCounts(hs[0]);
      HoldingsSizeCounts(hs[1..]);
      PairsInAppend(HoldingItems(hs[0]), HoldingsItems(hs[1..]));
    }
  }

  /** The size guessed: 23 bytes for the record and for every name with a value in it, and all declared lengths. */
  lemma SizeCounts(o: Opac)
    requires Valid(o)
    ensures Size(o) == 23 * (1 + PairsIn(HoldingsItems(o.holdings)))
                       + (if o.bib.Present? then o.bib.value.length else 0) + DeclaredHoldings(o.holdings)
  {
    hide HoldingsItems, HoldingsSize, HoldingValid;
    HoldingsSizeCounts(o.holdings);
  }
}
