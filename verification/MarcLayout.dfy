/**
 * Writing a MARC record: leader, directory with cumulative offsets, and field data; and
 * the round trip through the slicer.
 */
module MarcLayout {
  import opened CStrings
  import opened Scanning
  import opened Marc

  datatype Field = Field(tag: string, body: string) {
    function Data(): string {
      body + [FIELD_END]
    }
  }

  predicate Plain(s: string) {
    forall i :: 0 <= i < |s| ==> s[i] != FIELD_END && s[i] != RECORD_END && s[i] != NUL
  }

  /** A field the format can hold. */
  predicate Holdable(f: Field) {
    |f.tag| == 3 && Plain(f.tag) && Plain(f.body) && |f.body| + 1 < 10000
  }

  function EntryText(f: Field, off: nat): (r: string)
    requires |f.tag| == 3
    ensures |r| == ENTRY
  {
    f.tag + (Padded(|f.Data()|, 4) + Padded(off, 5))
  }

  function Directory(fs: seq<Field>, off: nat): (r: string)
    requires forall i :: 0 <= i < |fs| ==> |fs[i].tag| == 3
    ensures |r| == ENTRY * |fs|
  {
    if fs == [] then [] else EntryText(fs[0], off) + Directory(fs[1..], off + |fs[0].Data()|)
  }

  function AllData(fs: seq<Field>): (r: string) {
    if fs == [] then [] else fs[0].Data() + AllData(fs[1..])
  }

  /** The two parts of the leader around the base address. */
  datatype LeaderParts = LeaderParts(head: string, tail: string)

  function Base(fs: seq<Field>): nat {
    LEADER + ENTRY * |fs| + 1
  }

  ghost predicate Writable(l: LeaderParts, fs: seq<Field>) {
    && |l.head| == 12 && |l.tail| == 7 && Plain(l.head) && Plain(l.tail)
    && (forall i :: 0 <= i < |fs| ==> Holdable(fs[i]))
    && Base(fs) < 100000 && |AllData(fs)| < 100000
  }

  function Leader(l: LeaderParts, fs: seq<Field>): string {
    l.head + Padded(Base(fs), 5) + l.tail
  }

  function Write(l: LeaderParts, fs: seq<Field>): (rec: string)
    requires Writable(l, fs)
  {
    Leader(l, fs) + Directory(fs, 0) + [FIELD_END] + AllData(fs) + [RECORD_END]
  }

  lemma SkipEntry(e: string, rest: string, at: nat)
    requires |e| == ENTRY && at + ENTRY <= |rest|
    ensures (e + rest)[ENTRY + at..ENTRY + at + ENTRY] == rest[at..at + ENTRY]
    ensures (e + rest)[0..ENTRY] == e
  {
  }

  lemma DataStep(fs: seq<Field>, i: nat)
    requires 0 < i < |fs|
    ensures |AllData(fs[..i])| == |fs[0].Data()| + |AllData(fs[1..][..i - 1])|
  {
    assert fs[..i][1..] == fs[1..][..i - 1];
  }

  lemma {:induction false} DirectorySplit(fs: seq<Field>, off: nat, i: nat)
    requires i < |fs| && forall k :: 0 <= k < |fs| ==> |fs[k].tag| == 3
    ensures Directory(fs, off)[ENTRY * i..ENTRY * i + ENTRY] == EntryText(fs[i], off + |AllData(fs[..i])|)
    decreases i
  {
    hide EntryText, AllData, Field.Data;
    var next := off + |fs[0].Data()|;
    var rest := Directory(fs[1..], next);
    if i == 0 {
      NoData(fs);
      assert Directory(fs, off)[0..ENTRY] == EntryText(fs[0], off);
    } else {
      DirectorySplit(fs[1..], next, i - 1);
      DataStep(fs, i);
      SkipEntry(EntryText(fs[0], off), rest, ENTRY * (i - 1));
    }
  }

  lemma NoData(fs: seq<Field>)
    ensures AllData(fs[..0]) == []
  {
  }

  lemma {:induction false} DataSplit(fs: seq<Field>, i: nat)
    requires i < |fs|
    ensures |AllData(fs[..i])| + |fs[i].Data()| <= |AllData(fs)|
    ensures AllData(fs)[|AllData(fs[..i])|..|AllData(fs[..i])| + |fs[i].Data()|] == fs[i].Data()
    decreases i
  {
    if i == 0 {
      assert fs[..0] == [];
    } else {
      DataSplit(fs[1..], i - 1);
      assert fs[..i][1..] == fs[1..][..i - 1];
      var d, k := fs[0].Data(), |AllData(fs[1..][..i - 1])|;
      assert (d + AllData(fs[1..]))[|d| + k..|d| + k + |fs[i].Data()|] == AllData(fs[1..])[k..k + |fs[i].Data()|];
    }
  }

  lemma TenPowers()
    ensures Pow10(4) == 10000 && Pow10(5) == 100000
  {
  }

  /** The digits written into an entry read back. */
  lemma EntryReads(rec: string, p: nat, f: Field, off: nat)
    requires Holdable(f) && off < 100000 && p + ENTRY <= |rec| && rec[p..p + ENTRY] == EntryText(f, off)
    ensures EntryDigits(rec, p) && EntryAt(rec, p) == Entry(f.tag, |f.Data()|, off) && rec[p] != FIELD_END
  {
    hide Value, AllDigits, Scanning.Padded;
    var t, a, b := rec[p..p + ENTRY], Padded(|f.Data()|, 4), Padded(off, 5);
    assert rec[p..p + 3] == t[..3] == f.tag;
    assert rec[p + 3..p + 7] == t[3..7] == a;
    assert rec[p + 7..p + 12] == t[7..12] == b;
    TenPowers();
    PaddedValue(|f.Data()|, 4);
    PaddedValue(off, 5);
    assert rec[p] == f.tag[0];
  }

  /** Where the parts of a written record are. */
  lemma WrittenParts(l: LeaderParts, fs: seq<Field>, rec: string)
    requires Writable(l, fs) && rec == Write(l, fs)
    ensures |rec| == Base(fs) + |AllData(fs)| + 1
    ensures rec[..LEADER] == Leader(l, fs) && rec[12..17] == Padded(Base(fs), 5)
    ensures rec[LEADER..EntryPos(|fs|)] == Directory(fs, 0) && rec[EntryPos(|fs|)] == FIELD_END
    ensures rec[Base(fs)..Base(fs) + |AllData(fs)|] == AllData(fs)
  {
    hide Directory, AllData, Scanning.Padded, Plain;
    var lead := Leader(l, fs);
    assert lead[12..17] == Padded(Base(fs), 5);
    assert rec[12..17] == lead[12..17];
  }

  lemma WrittenEntry(l: LeaderParts, fs: seq<Field>, rec: string, i: nat)
    requires Writable(l, fs) && rec == Write(l, fs) && i < |fs|
    ensures 17 <= |rec| && AllDigits(rec[12..17]) && EntryFits(rec, EntryPos(i))
    ensures rec[EntryPos(i)..EntryPos(i) + 3] == fs[i].tag
    ensures FieldData(rec, EntryPos(i)) == fs[i].Data()
  {
    hide Directory, AllData, Scanning.Padded, Plain, Write, Value, AllDigits;
    WrittenParts(l, fs, rec);
    DirectorySplit(fs, 0, i);
    DataSplit(fs, i);
    TenPowers();
    PaddedValue(Base(fs), 5);
    var p, off := EntryPos(i), |AllData(fs[..i])|;
    SliceOfSlice(rec, LEADER, EntryPos(|fs|), ENTRY * i, ENTRY * i + ENTRY);
    EntryReads(rec, p, fs[i], off);
    SliceOfSlice(rec, Base(fs), Base(fs) + |AllData(fs)|, off, off + |fs[i].Data()|);
  }

  lemma SliceOfSlice(s: string, a: nat, b: nat, c: nat, d: nat)
    requires a <= b <= |s| && c <= d <= b - a
    ensures s[a..b][c..d] == s[a + c..a + d]
  {
    var x, y := s[a..b][c..d], s[a + c..a + d];
    forall i | 0 <= i < |x|
      ensures x[i] == y[i]
    {
      assert x[i] == s[a..b][c + i];
    }
    assert x == y;
  }

  /** A written record is one the slicer accepts. */
  lemma WrittenIsRecord(l: LeaderParts, fs: seq<Field>)
    requires Writable(l, fs)
    ensures Record(Write(l, fs), |fs|)
  {
    hide Directory, AllData, Scanning.Padded, Write, Value, AllDigits, EntryFits;
    var rec := Write(l, fs);
    WrittenParts(l, fs, rec);
    forall i | 0 <= i < |fs|
      ensures EntryFits(rec, EntryPos(i))
    {
      WrittenEntry(l, fs, rec, i);
    }
  }

  /** The slicer's own limit, as a condition on the fields written. */
  lemma WrittenSmallIff(l: LeaderParts, fs: seq<Field>)
    requires Writable(l, fs)
    ensures Record(Write(l, fs), |fs|)
    ensures AllSmall(Write(l, fs), |fs|) <==> forall i :: 0 <= i < |fs| ==> |fs[i].Data()| < FIELD_DATA
  {
    hide Record, Write, EntryFits, FieldData, AllDigits;
    var rec := Write(l, fs);
    WrittenIsRecord(l, fs);
    forall i | 0 <= i < |fs|
      ensures 17 <= |rec| && AllDigits(rec[12..17]) && EntryFits(rec, EntryPos(i))
      ensures FieldData(rec, EntryPos(i)) == fs[i].Data()
    {
      WrittenEntry(l, fs, rec, i);
    }
  }

  function Dollars(s: string): (r: string)
    ensures |r| == |s| && forall i :: 0 <= i < |s| ==> r[i] == if s[i] == SUBFIELD then '$' else s[i]
  {
    seq(|s|, i requires 0 <= i < |s| => if s[i] == SUBFIELD then '$' else s[i])
  }

  /** Tag, three blanks, and the body with `$` for its subfield marks. */
  function ShownField(f: Field): (r: string) {
    f.tag + "   " + Dollars(f.body)
  }

  lemma MarkedIsDollars(s: string)
    requires Plain(s)
    ensures Marked(s) == Dollars(s)
  {
  }

  function ShownFields(fs: seq<Field>, i: nat): (r: seq<string>)
    requires i <= |fs|
    decreases |fs| - i
  {
    if i == |fs| then [] else [ShownField(fs[i])] + ShownFields(fs, i + 1)
  }

  lemma {:induction false} WrittenItems(l: LeaderParts, fs: seq<Field>, i: nat)
    requires Writable(l, fs) && i <= |fs| && Record(Write(l, fs), |fs|)
    ensures ItemsFrom(Write(l, fs), i, |fs|) == ShownFields(fs, i)
    decreases |fs| - i
  {
    hide Record, Write, ItemsFrom, Item, EntryFits, FieldData, AllDigits;
    var rec := Write(l, fs);
    ItemsOn(rec, i, |fs|);
    if i < |fs| {
      WrittenItems(l, fs, i + 1);
      WrittenEntry(l, fs, rec, i);
      WrittenItem(rec, EntryPos(i), fs[i]);
    }
  }

  lemma WrittenItem(rec: string, p: nat, f: Field)
    requires Holdable(f) && 17 <= |rec| && AllDigits(rec[12..17]) && EntryFits(rec, p)
    requires rec[p..p + 3] == f.tag && FieldData(rec, p) == f.Data()
    ensures Item(rec, p) == ShownField(f)
  {
    hide UpToNul, AllDigits, EntryFits, Shown, Marked, FieldData;
    ShownBody(f.body, [FIELD_END]);
    MarkedIsDollars(f.body);
    assert NulFree(f.tag);
    UpToNulWhole(f.tag);
  }

  /**
   * The round trip, for every leader and every list of fields the format can hold: the
   * slicer gives the leader and then each field, in order.
   */
  lemma WrittenReadsBack(l: LeaderParts, fs: seq<Field>)
    requires Writable(l, fs)
    ensures Record(Write(l, fs), |fs|)
    ensures UpToNul(Write(l, fs)[..LEADER]) == Leader(l, fs)
    ensures ItemsFrom(Write(l, fs), 0, |fs|) == ShownFields(fs, 0)
  {
    hide Record, Write, ItemsFrom, UpToNul, ShownFields, AllData, Scanning.Padded;
    var rec := Write(l, fs);
    WrittenIsRecord(l, fs);
    WrittenItems(l, fs, 0);
    WrittenParts(l, fs, rec);
    LeaderNulFree(l, fs);
    UpToNulWhole(Leader(l, fs));
  }

  lemma LeaderNulFree(l: LeaderParts, fs: seq<Field>)
    requires Writable(l, fs)
    ensures NulFree(Leader(l, fs))
  {
  }

  ghost function LastBody(fs: seq<Field>, tag: string, i: nat): (r: Found)
    requires i <= |fs|
    decreases |fs| - i
  {
    if i == |fs| then Nothing
    else
      var later := LastBody(fs, tag, i + 1);
      if later.Data? then later
      else if 3 <= |tag| && fs[i].tag == tag[..3] then Found.Data(fs[i].Data())
      else Nothing
  }

  /** The tag look-up, by the first three characters, gives the data of the last such field, terminator included. */
  lemma {:induction false} WrittenLastField(l: LeaderParts, fs: seq<Field>, tag: string, i: nat)
    requires Writable(l, fs) && i <= |fs| && Record(Write(l, fs), |fs|) && NulFree(tag)
    ensures LastField(Write(l, fs), tag, i, |fs|) == LastBody(fs, tag, i)
    decreases |fs| - i
  {
    hide Record, Write, LastField, EntryFits, FieldData, AllDigits, UpToNul;
    var rec := Write(l, fs);
    LastOn(rec, tag, i, |fs|);
    if i < |fs| {
      WrittenLastField(l, fs, tag, i + 1);
      WrittenEntry(l, fs, rec, i);
      assert NulFree(fs[i].tag) && NulFree(fs[i].Data());
      UpToNulWhole(tag);
      UpToNulWhole(fs[i].tag);
      UpToNulWhole(fs[i].Data());
    }
  }
}
