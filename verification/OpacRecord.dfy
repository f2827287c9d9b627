/**
 * Printing an OPAC record as a Tcl list (cheshire2/z_dispopac.c:281-625): one function
 * guesses the size of the text, another writes it without looking at the size again.
 */
module OpacRecord {
  import opened MarcClip

  /** A string with the length its sender declared for it; the text is not longer than that. */
  datatype Octets = Octets(text: string, length: nat) {
    predicate Valid() { |text| <= length }
  }

  datatype Field = Missing | Present(value: Octets)

  const NAME_SIZE: int := 18
  const FORMATTING: int := 5

  /** The names of the optional fields, in the order both functions take them. */
  const HOLDING_NAMES: seq<string> := [
    "typeOfRecord", "encodingLevel", "format", "receiptAcqStatus", "generalRetention", "completeness",
    "dateOfReport", "nucCode", "localLocation", "shelvingLocation", "callNumber", "shelvingData",
    "copyNumber", "publicNote", "reproductionNote", "termsUseRepro", "enumAndChron"]

  const VOLUME_NAMES: seq<string> := ["enumeration", "chronology", "enumAndChron"]
  const CIRC_NAMES_1: seq<string> := ["availablityDate", "availableThru", "restrictions", "itemId"]
  const CIRC_NAMES_2: seq<string> := ["enumAndChron", "midspine", "temporaryLocation"]

  datatype Circ = Circ(availableNow: bool, renewable: bool, onHold: bool, first: seq<Field>, second: seq<Field>)

  datatype Holding =
    | MarcHolding(data: Octets)
    | Holdings(fields: seq<Field>, volumes: seq<seq<Field>>, circulation: seq<Circ>)

  datatype Opac = Opac(bib: Field, holdings: seq<Holding>)

  // -------------------------------------------------------------------- text and guess

  /** ` {name {text}}` */
  function Element(name: string, text: string): (r: string)
    ensures |r| == |name| + 6 + |text|
  {
    " {" + name + " {" + text + "}}"
  }

  function FieldsText(names: seq<string>, fields: seq<Field>): (r: string)
    requires |names| == |fields|
  {
    if fields == [] then ""
    else
      (match fields[0]
       case Missing => ""
       case Present(v) => Element(names[0], v.text))
      + FieldsText(names[1..], fields[1..])
  }

  function FieldsSize(fields: seq<Field>): (n: int) {
    if fields == [] then 0
    else (if fields[0].Missing? then 0 else NAME_SIZE + FORMATTING + fields[0].value.length) + FieldsSize(fields[1..])
  }

  function Flag(name: string, on: bool): (r: string)
    ensures |r| == |name| + 6 + if on then 3 else 2
  {
    Element(name, if on then "YES" else "NO")
  }

  predicate CircValid(c: Circ) {
    && |c.first| == |CIRC_NAMES_1| && |c.second| == |CIRC_NAMES_2| && FieldsValid(c.first) && FieldsValid(c.second)
  }

  predicate FieldsValid(fields: seq<Field>) {
    forall i :: 0 <= i < |fields| ==> fields[i].Present? ==> fields[i].value.Valid()
  }

  function CircText(c: Circ): (r: string)
    requires CircValid(c)
  {
    Flag("availableNow", c.availableNow) + FieldsText(CIRC_NAMES_1, c.first)
    + Flag("renewable", c.renewable) + Flag("onHold", c.onHold) + FieldsText(CIRC_NAMES_2, c.second)
  }

  function CircSize(c: Circ): (n: int) {
    3 * (NAME_SIZE + FORMATTING) + FieldsSize(c.first) + FieldsSize(c.second)
  }

  ghost predicate CircsValid(cs: seq<Circ>) {
    forall i :: 0 <= i < |cs| ==> CircValid(cs[i])
  }

  ghost predicate VolumesValid(vs: seq<seq<Field>>) {
    forall i :: 0 <= i < |vs| ==> |vs[i]| == |VOLUME_NAMES| && FieldsValid(vs[i])
  }

  ghost function CircsText(cs: seq<Circ>): (r: string)
    requires CircsValid(cs)
  {
    if cs == [] then "" else CircText(cs[0]) + CircsText(cs[1..])
  }

  function CircsSize(cs: seq<Circ>): (n: int) {
    if cs == [] then 0 else CircSize(cs[0]) + CircsSize(cs[1..])
  }

  ghost function VolumesText(vs: seq<seq<Field>>): (r: string)
    requires VolumesValid(vs)
  {
    if vs == [] then "" else FieldsText(VOLUME_NAMES, vs[0]) + VolumesText(vs[1..])
  }

  function VolumesSize(vs: seq<seq<Field>>): (n: int) {
    if vs == [] then 0 else FieldsSize(vs[0]) + VolumesSize(vs[1..])
  }

  ghost predicate HoldingValid(h: Holding) {
    match h
    case MarcHolding(data) => data.Valid()
    case Holdings(fields, volumes, circulation) =>
      |fields| == |HOLDING_NAMES| && FieldsValid(fields) && VolumesValid(volumes) && CircsValid(circulation)
  }

  function Wrapper(name: string, used: bool, inner: string): (r: string) {
    if used then " {" + name + inner + "}" else inner
  }

  ghost function HoldingText(h: Holding): (r: string)
    requires HoldingValid(h)
  {
    match h
    case MarcHolding(data) => Element("MARCHOLDINGS", data.text)
    case Holdings(fields, volumes, circulation) =>
      FieldsText(HOLDING_NAMES, fields)
      + Wrapper("VOLUMEINFO", volumes != [], VolumesText(volumes))
      + Wrapper("CIRCDATA", circulation != [], CircsText(circulation))
  }

  function HoldingSize(h: Holding): (n: int) {
    match h
    case MarcHolding(data) => NAME_SIZE + FORMATTING + data.length
    case Holdings(fields, volumes, circulation) => FieldsSize(fields) + VolumesSize(volumes) + CircsSize(circulation)
  }

  ghost predicate Valid(o: Opac) {
    && (o.bib.Present? ==> o.bib.value.Valid())
    && forall i :: 0 <= i < |o.holdings| ==> HoldingValid(o.holdings[i])
  }

  /** The bibliographic record goes through the brace clipping, which keeps its length. */
  function BibText(bib: Field): (r: string) {
    if bib.Missing? then "" else "{BIBRECORD {" + Safe(bib.value.text) + "}}"
  }

  /** A record too short for the flag has its braces hidden all the same. */
  function Safe(text: string): (r: string)
    ensures |r| == |text|
  {
    if FLAG < |text| then Clipped(text) else Hidden(text)
  }

  ghost function HoldingsText(hs: seq<Holding>): (r: string)
    requires forall i :: 0 <= i < |hs| ==> HoldingValid(hs[i])
  {
    if hs == [] then "" else HoldingText(hs[0]) + HoldingsText(hs[1..])
  }

  function HoldingsSize(hs: seq<Holding>): (n: int) {
    if hs == [] then 0 else HoldingSize(hs[0]) + HoldingsSize(hs[1..])
  }

  /** What `MakeOPACListElement` writes. */
  ghost function Text(o: Opac): (r: string)
    requires Valid(o)
  {
    BibText(o.bib) + HoldingsText(o.holdings)
  }

  /** What `calcOPACsize` returns. */
  function Size(o: Opac): (n: int) {
    FORMATTING + NAME_SIZE + (if o.bib.Present? then o.bib.value.length else 0) + HoldingsSize(o.holdings)
  }

  // ------------------------------------------------------------------- the source's code

  method SizeOfHoldings(fields: seq<Field>, volumes: seq<seq<Field>>, circulation: seq<Circ>) returns (n: int)
    ensures n == FieldsSize(fields) + VolumesSize(volumes) + CircsSize(circulation)
  {
    hide FieldsSize, CircSize;
    n := FieldsSize(fields);
    ghost var goal := n + VolumesSize(volumes);
    var i := 0;
    assert volumes[0..] == volumes && circulation[0..] == circulation;
    while i < |volumes|
      invariant 0 <= i <= |volumes| && n + VolumesSize(volumes[i..]) == goal
    {
      assert volumes[i..][1..] == volumes[i + 1..];
      n := n + FieldsSize(volumes[i]);
      i := i + 1;
    }
    i := 0;
    while i < |circulation|
      invariant 0 <= i <= |circulation| && n + CircsSize(circulation[i..]) == goal + CircsSize(circulation)
    {
      assert circulation[i..][1..] == circulation[i + 1..];
      n := n + CircSize(circulation[i]);
      i := i + 1;
    }
  }

  /** `calcOPACsize`. */
  method CalcSize(o: Opac) returns (n: int)
    ensures n == Size(o)
  {
    hide HoldingSize;
    n := FORMATTING + NAME_SIZE;
    if o.bib.Present? {
      n := n + o.bib.value.length;
    }
    var i := 0;
    assert o.holdings[0..] == o.holdings;
    while i < |o.holdings|
      invariant 0 <= i <= |o.holdings| && n + HoldingsSize(o.holdings[i..]) == Size(o)
    {
      assert o.holdings[i..][1..] == o.holdings[i + 1..];
      var k := SizeOfHolding(o.holdings[i]);
      n := n + k;
      i := i + 1;
    }
  }

  method SizeOfHolding(h: Holding) returns (n: int)
    ensures n == HoldingSize(h)
  {
    match h
    case MarcHolding(data) => n := NAME_SIZE + FORMATTING + data.length;
    case Holdings(fields, volumes, circulation) => n := SizeOfHoldings(fields, volumes, circulation);
  }

  /** The two list loops of `MakeOPACListElement`, each inside its wrapper. */
  method AppendLists(buffer: string, volumes: seq<seq<Field>>, circulation: seq<Circ>) returns (text: string)
    requires VolumesValid(volumes) && CircsValid(circulation)
    ensures text == buffer + Wrapper("VOLUMEINFO", volumes != [], VolumesText(volumes))
                    + Wrapper("CIRCDATA", circulation != [], CircsText(circulation))
  {
    hide VolumesText, CircsText, VolumesValid, CircsValid;
    var vs := AppendVolumes(volumes);
    var cs := AppendCircs(circulation);
    text := buffer;
    if volumes != [] {
      text := text + (" {VOLUMEINFO" + vs + "}");
    } else {
      text := text + vs;
    }
    if circulation != [] {
      text := text + (" {CIRCDATA" + cs + "}");
    } else {
      text := text + cs;
    }
  }

  method AppendVolumes(volumes: seq<seq<Field>>) returns (text: string)
    requires VolumesValid(volumes)
    ensures text == VolumesText(volumes)
  {
    hide FieldsText;
    text := "";
    var i := 0;
    assert volumes[0..] == volumes;
    while i < |volumes|
      invariant 0 <= i <= |volumes| && VolumesValid(volumes[i..])
      invariant text + VolumesText(volumes[i..]) == VolumesText(volumes)
    {
      assert volumes[i..][1..] == volumes[i + 1..];
      text := text + FieldsText(VOLUME_NAMES, volumes[i]);
      i := i + 1;
    }
  }

  method AppendCircs(cs: seq<Circ>) returns (text: string)
    requires CircsValid(cs)
    ensures text == CircsText(cs)
  {
    hide CircText, CircValid;
    text := "";
    var i := 0;
    assert cs[0..] == cs;
    while i < |cs|
      invariant 0 <= i <= |cs| && CircsValid(cs[i..]) && text + CircsText(cs[i..]) == CircsText(cs)
    {
      assert cs[i..][1..] == cs[i + 1..];
      text := text + CircText(cs[i]);
      i := i + 1;
    }
  }

  method AppendHolding(buffer: string, h: Holding) returns (text: string)
    requires HoldingValid(h)
    ensures text == buffer + HoldingText(h)
  {
    hide FieldsText, VolumesText, CircsText, VolumesValid, CircsValid, Wrapper;
    match h
    case MarcHolding(data) =>
      text := buffer + Element("MARCHOLDINGS", data.text);
    case Holdings(fields, volumes, circulation) =>
      text := AppendLists(buffer + FieldsText(HOLDING_NAMES, fields), volumes, circulation);
  }

  /** `MakeOPACListElement`, into the block `CalcSize` sized; the text fits it if every volume list has room. */
  method MakeElement(o: Opac) returns (text: string, size: int)
    requires Valid(o)
    ensures size == Size(o) && text == Text(o)
    ensures AllRoomy(o.holdings) ==> |text| + 1 <= size
  {
    hide HoldingText, HoldingValid, HoldingsSize, AllRoomy;
    size := CalcSize(o);
    text := BibText(o.bib);
    var i := 0;
    assert o.holdings[0..] == o.holdings;
    while i < |o.holdings|
      invariant 0 <= i <= |o.holdings| && text + HoldingsText(o.holdings[i..]) == Text(o)
    {
      assert o.holdings[i..][1..] == o.holdings[i + 1..];
      text := AppendHolding(text, o.holdings[i]);
      i := i + 1;
    }
    TextFitsIff(o);
  }

  // -------------------------------------------------------------------- what is left over

  /** Bytes to spare for one kind of fields: names shorter than the allowance, texts than declared. */
  function FieldsSpare(names: seq<string>, fields: seq<Field>): (n: int)
    requires |names| == |fields|
  {
    if fields == [] then 0
    else (match fields[0]
          case Missing => 0
          case Present(v) => 17 - |names[0]| + (v.length - |v.text|))
         + FieldsSpare(names[1..], fields[1..])
  }

  lemma {:induction false} FieldsBalance(names: seq<string>, fields: seq<Field>)
    requires |names| == |fields|
    ensures FieldsSize(fields) == |FieldsText(names, fields)| + FieldsSpare(names, fields)
  {
    if fields != [] {
      FieldsBalance(names[1..], fields[1..]);
    }
  }

  lemma {:induction false} FieldsSpareNonNegative(names: seq<string>, fields: seq<Field>)
    requires |names| == |fields| && FieldsValid(fields) && forall i :: 0 <= i < |names| ==> |names[i]| <= 17
    ensures FieldsSpare(names, fields) >= 0
  {
    if fields != [] {
      assert FieldsValid(fields[1..]);
      FieldsSpareNonNegative(names[1..], fields[1..]);
    }
  }

  /** The three flags are counted at 23 bytes each and need between 51 and 54. */
  function CircSpare(c: Circ): (n: int)
    requires CircValid(c)
  {
    (if c.availableNow then 2 else 3) + (if c.renewable then 5 else 6) + (if c.onHold then 8 else 9)
    + FieldsSpare(CIRC_NAMES_1, c.first) + FieldsSpare(CIRC_NAMES_2, c.second)
  }

  lemma CircBalance(c: Circ)
    requires CircValid(c)
    ensures CircSize(c) == |CircText(c)| + CircSpare(c) && CircSpare(c) >= 15
  {
    hide FieldsText, FieldsSpare, FieldsSize, FieldsValid, Flag;
    FieldsBalance(CIRC_NAMES_1, c.first);
    FieldsBalance(CIRC_NAMES_2, c.second);
    FieldsSpareNonNegative(CIRC_NAMES_1, c.first);
    FieldsSpareNonNegative(CIRC_NAMES_2, c.second);
  }

  ghost function CircsSpare(cs: seq<Circ>): (n: int)
    requires CircsValid(cs)
  {
    if cs == [] then 0 else CircSpare(cs[0]) + CircsSpare(cs[1..])
  }

  lemma {:induction false} CircsBalance(cs: seq<Circ>)
    requires CircsValid(cs)
    ensures CircsSize(cs) == |CircsText(cs)| + CircsSpare(cs) && CircsSpare(cs) >= 15 * |cs|
  {
    hide CircText, CircSpare, CircSize, CircValid;
    if cs != [] {
      CircBalance(cs[0]);
      CircsBalance(cs[1..]);
    }
  }

  ghost function VolumesSpare(vs: seq<seq<Field>>): (n: int)
    requires VolumesValid(vs)
  {
    if vs == [] then 0 else FieldsSpare(VOLUME_NAMES, vs[0]) + VolumesSpare(vs[1..])
  }

  lemma {:induction false} VolumesBalance(vs: seq<seq<Field>>)
    requires VolumesValid(vs)
    ensures VolumesSize(vs) == |VolumesText(vs)| + VolumesSpare(vs)
  {
    hide FieldsText, FieldsSpare, FieldsSize, FieldsValid;
    if vs != [] {
      FieldsBalance(VOLUME_NAMES, vs[0]);
      VolumesBalance(vs[1..]);
    }
  }

  /** In how many volumes the j-th field is given. */
  function Given(vs: seq<seq<Field>>, j: nat): (n: nat)
    requires forall i :: 0 <= i < |vs| ==> j < |vs[i]|
  {
    if vs == [] then 0 else (if vs[0][j].Present? then 1 else 0) + Given(vs[1..], j)
  }

  /** What the names of the given fields leave of their allowances. */
  function NameRoom(vs: seq<seq<Field>>): (n: nat)
    requires forall i :: 0 <= i < |vs| ==> |vs[i]| == |VOLUME_NAMES|
  {
    6 * Given(vs, 0) + 7 * Given(vs, 1) + 5 * Given(vs, 2)
  }

  /** No volume at all, or names that leave the 13 bytes of the list's wrapper: any three fields will do. */
  predicate Roomy(vs: seq<seq<Field>>) {
    (forall i :: 0 <= i < |vs| ==> |vs[i]| == |VOLUME_NAMES|) && (vs == [] || NameRoom(vs) >= 13)
  }

  lemma VolumeSpare(v: seq<Field>)
    requires |v| == |VOLUME_NAMES| && FieldsValid(v)
    ensures FieldsSpare(VOLUME_NAMES, v)
         >= (if v[0].Present? then 6 else 0) + (if v[1].Present? then 7 else 0) + (if v[2].Present? then 5 else 0)
  {
    var names := VOLUME_NAMES;
    assert |names[1..]| == 2 && |names[1..][1..]| == 1;
    assert FieldsSpare(names[1..][1..][1..], v[1..][1..][1..]) == 0;
    assert names[1..][0] == "chronology" && names[1..][1..][0] == "enumAndChron";
    assert v[1..][0] == v[1] && v[1..][1..][0] == v[2];
    assert FieldsSpare(names[1..][1..], v[1..][1..]) >= if v[2].Present? then 5 else 0;
    assert FieldsSpare(names[1..], v[1..]) >= (if v[1].Present? then 7 else 0) + (if v[2].Present? then 5 else 0);
  }

  lemma {:induction false} VolumesSpareRoom(vs: seq<seq<Field>>)
    requires VolumesValid(vs)
    ensures VolumesSpare(vs) >= NameRoom(vs)
  {
    hide FieldsSpare, FieldsValid;
    if vs != [] {
      VolumeSpare(vs[0]);
      VolumesSpareRoom(vs[1..]);
    }
  }

  /** The two list wrappers, 13 and 11 bytes, come out of what the fields leave. */
  ghost function HoldingSpare(h: Holding): (n: int)
    requires HoldingValid(h)
  {
    match h
    case MarcHolding(data) => 5 + (data.length - |data.text|)
    case Holdings(fields, volumes, circulation) =>
      FieldsSpare(HOLDING_NAMES, fields)
      + (VolumesSpare(volumes) - if volumes != [] then 13 else 0)
      + (CircsSpare(circulation) - if circulation != [] then 11 else 0)
  }

  lemma HoldingBalance(h: Holding)
    requires HoldingValid(h)
    ensures HoldingSize(h) == |HoldingText(h)| + HoldingSpare(h)
    ensures h.MarcHolding? || Roomy(h.volumes) ==> HoldingSpare(h) >= 0
  {
    hide FieldsText, FieldsSpare, FieldsSize, CircsText, CircsSpare, CircsSize, VolumesText, VolumesSpare, VolumesSize,
      FieldsValid, CircsValid, NameRoom;
    match h
    case MarcHolding(data) =>
    case Holdings(fields, volumes, circulation) =>
      FieldsBalance(HOLDING_NAMES, fields);
      FieldsSpareNonNegative(HOLDING_NAMES, fields);
      VolumesBalance(volumes);
      VolumesSpareRoom(volumes);
      CircsBalance(circulation);
      NoVolumes();
  }

  lemma NoVolumes()
    ensures VolumesValid([]) && VolumesSpare([]) == 0 && CircsValid([]) && CircsSpare([]) == 0
  {
  }

  ghost function HoldingsSpare(hs: seq<Holding>): (n: int)
    requires forall i :: 0 <= i < |hs| ==> HoldingValid(hs[i])
  {
    if hs == [] then 0 else HoldingSpare(hs[0]) + HoldingsSpare(hs[1..])
  }

  ghost predicate AllRoomy(hs: seq<Holding>) {
    forall i :: 0 <= i < |hs| ==> hs[i].MarcHolding? || Roomy(hs[i].volumes)
  }

  lemma {:induction false} HoldingsBalance(hs: seq<Holding>)
    requires forall i :: 0 <= i < |hs| ==> HoldingValid(hs[i])
    ensures HoldingsSize(hs) == |HoldingsText(hs)| + HoldingsSpare(hs)
    ensures AllRoomy(hs) ==> HoldingsSpare(hs) >= 0
  {
    hide HoldingSize, HoldingText, HoldingSpare, HoldingValid, Roomy;
    if hs != [] {
      HoldingBalance(hs[0]);
      HoldingsBalance(hs[1..]);
      assert AllRoomy(hs) ==> AllRoomy(hs[1..]);
    }
  }

  /** What is left of the guess once the text is written. */
  ghost function Spare(o: Opac): (n: int)
    requires Valid(o)
  {
    (if o.bib.Missing? then 23 else 9 + (o.bib.value.length - |o.bib.value.text|)) + HoldingsSpare(o.holdings)
  }

  /**
   * What is left is accounted for byte by byte; and the text and its terminator fit whenever
   * every volume list has room, although neither list wrapper is ever counted.
   */
  lemma TextFitsIff(o: Opac)
    requires Valid(o)
    ensures Size(o) == |Text(o)| + Spare(o)
    ensures |Text(o)| + 1 <= Size(o) <==> Spare(o) >= 1
    ensures AllRoomy(o.holdings) ==> |Text(o)| + 1 <= Size(o)
  {
    hide HoldingsSize, HoldingsText, HoldingsSpare, HoldingValid, AllRoomy;
    HoldingsBalance(o.holdings);
  }

  /** After a bibliographic record, a list of volumes alone fits if and only if some volume says something. */
  lemma LoneVolumesFitIff(text: string, vs: seq<seq<Field>>)
    requires vs != [] && VolumesValid(vs)
    ensures var none := seq(|HOLDING_NAMES|, _ => Missing);
            var o := Opac(Present(Octets(text, |text|)), [Holdings(none, vs, [])]);
            Valid(o) && (|Text(o)| + 1 <= Size(o) <==> NameRoom(vs) > 0)
  {
    hide VolumesValid, VolumesSpare, NameRoom, CircsValid, CircsSpare, FieldsSpare, Size, Text;
    var none: seq<Field> := seq(|HOLDING_NAMES|, _ => Missing);
    var h := Holdings(none, vs, []);
    var o := Opac(Present(Octets(text, |text|)), [h]);
    AllMissing(HOLDING_NAMES, none);
    VolumesSpareRoom(vs);
    NothingGiven(vs);
    NoVolumes();
    assert HoldingSpare(h) == VolumesSpare(vs) - 13;
    LoneHolding(h);
    TextFitsIff(o);
  }

  lemma LoneHolding(h: Holding)
    requires HoldingValid(h)
    ensures HoldingsSpare([h]) == HoldingSpare(h)
  {
  }

  /** Names leave at least 5 bytes or, when no field is given, nothing is left at all. */
  lemma {:induction false} NothingGiven(vs: seq<seq<Field>>)
    requires VolumesValid(vs)
    ensures NameRoom(vs) == 0 || NameRoom(vs) >= 5
    ensures NameRoom(vs) == 0 ==> VolumesSpare(vs) == 0
  {
    hide FieldsSpare, FieldsValid;
    if vs != [] {
      NothingGiven(vs[1..]);
      if NameRoom(vs) == 0 {
        AllMissing(VOLUME_NAMES, vs[0]);
      }
    }
  }

  /** A volume list can overrun the guess: after a bibliographic record, one volume with nothing in it. */
  lemma EmptyVolumeOverruns(text: string)
    ensures var none := seq(|HOLDING_NAMES|, _ => Missing);
            var o := Opac(Present(Octets(text, |text|)), [Holdings(none, [[Missing, Missing, Missing]], [])]);
            Valid(o) && |Text(o)| + 1 > Size(o)
  {
    var none: seq<Field> := seq(|HOLDING_NAMES|, _ => Missing);
    var empty := [Missing, Missing, Missing];
    var h := Holdings(none, [empty], []);
    var o := Opac(Present(Octets(text, |text|)), [h]);
    AllMissing(HOLDING_NAMES, none);
    AllMissing(VOLUME_NAMES, empty);
    assert VolumesSpare([empty]) == 0;
    assert HoldingSpare(h) == -13;
    assert HoldingsSpare([h]) == -13;
    TextFitsIff(o);
  }

  lemma {:induction false} AllMissing(names: seq<string>, fields: seq<Field>)
    requires |names| == |fields| && forall i :: 0 <= i < |fields| ==> fields[i].Missing?
    ensures FieldsSpare(names, fields) == 0
  {
    if fields != [] {
      AllMissing(names[1..], fields[1..]);
    }
  }
}
