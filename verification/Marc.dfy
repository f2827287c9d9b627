/**
 * Slicing MARC records (ac_utils/parse_marc.c, mr_field.c, mr_print.c) by their leader and
 * directory, as laid out in the MARC 21 Record Structure (ANSI/NISO Z39.2).
 */
module Marc {
  import opened CStrings
  import opened Scanning
  import opened AcList

  const LEADER: nat := 24
  const ENTRY: nat := 12
  const FIELD_DATA: nat := 1000

  const SUBFIELD: char := 31 as char   // octal 037
  const FIELD_END: char := 30 as char  // octal 036
  const RECORD_END: char := 29 as char // octal 035

  // ----------------------------------------------------------------- delimiter marks

  function Mark(c: char): char {
    if c == SUBFIELD then '$' else if c == FIELD_END || c == RECORD_END then NUL else c
  }

  function Marked(s: string): (r: string)
    ensures |r| == |s| && forall i :: 0 <= i < |s| ==> r[i] == Mark(s[i])
  {
    seq(|s|, i requires 0 <= i < |s| => Mark(s[i]))
  }

  /** `mr_subsfr`: the marks are replaced in the first `len` characters, in place. */
  method Substitute(buf: array<char>, len: nat)
    requires len <= buf.Length
    modifies buf
    ensures buf[..len] == Marked(old(buf[..len])) && buf[len..] == old(buf[len..])
  {
    var i := 0;
    while i < len
      invariant 0 <= i <= len
      invariant forall k :: 0 <= k < i ==> buf[k] == Mark(old(buf[k]))
      invariant forall k :: i <= k < buf.Length ==> buf[k] == old(buf[k])
    {
      if buf[i] == SUBFIELD {
        buf[i] := '$';
      } else if buf[i] == FIELD_END {
        buf[i] := NUL;
      } else if buf[i] == RECORD_END {
        buf[i] := NUL;
      }
      i := i + 1;
    }
  }

  /** What is shown of a field: up to its terminator, subfield marks as `$`. */
  function Shown(data: string): (r: string) {
    UpToNul(Marked(UpToNul(data)))
  }

  lemma UpToNulMarked(a: string, b: string)
    requires forall i :: 0 <= i < |a| ==> a[i] != FIELD_END && a[i] != RECORD_END && a[i] != NUL
    requires b == [] || b[0] == FIELD_END || b[0] == RECORD_END || b[0] == NUL
    ensures UpToNul(Marked(a + b)) == Marked(a)
  {
    hide UpToNul;
    assert NulFree(Marked(a));
    if b == [] {
      assert Marked(a + b) == Marked(a);
      UpToNulWhole(Marked(a));
    } else {
      assert Marked(a + b) == Marked(a) + [NUL] + Marked(b[1..]);
      UpToNulStops(Marked(a), Marked(b[1..]));
    }
  }

  /** Of a field exactly the part before its first terminator of any kind is shown, whatever follows. */
  lemma ShownBody(body: string, tail: string)
    requires forall i :: 0 <= i < |body| ==> body[i] != FIELD_END && body[i] != RECORD_END && body[i] != NUL
    requires tail == [] || tail[0] == FIELD_END || tail[0] == RECORD_END || tail[0] == NUL
    ensures Shown(body + tail) == Marked(body)
  {
    hide Marked;
    UpToNulJoin(body, tail);
    FirstStays(tail);
    UpToNulMarked(body, UpToNul(tail));
  }

  lemma FirstStays(s: string)
    ensures UpToNul(s) == [] || UpToNul(s)[0] == s[0]
  {
  }

  // ------------------------------------------------------------------- the directory

  datatype Entry = Entry(tag: string, len: nat, off: nat)

  /** `sscanf("%*12c%5d")` on the leader. */
  function BaseAddress(rec: string): nat
    requires 17 <= |rec| && AllDigits(rec[12..17])
  {
    Value(rec[12..17])
  }

  function EntryPos(i: nat): nat {
    LEADER + ENTRY * i
  }

  /** The digits `sscanf("%3c%4d%5d")` needs are there. */
  predicate EntryDigits(rec: string, p: nat) {
    p + ENTRY <= |rec| && AllDigits(rec[p + 3..p + 7]) && AllDigits(rec[p + 7..p + 12])
  }

  function EntryAt(rec: string, p: nat): (e: Entry)
    requires EntryDigits(rec, p)
  {
    Entry(rec[p..p + 3], Value(rec[p + 3..p + 7]), Value(rec[p + 7..p + 12]))
  }

  /** The directory entry at p points to data inside the record. */
  predicate EntryFits(rec: string, p: nat)
    requires 17 <= |rec| && AllDigits(rec[12..17])
  {
    && EntryDigits(rec, p) && rec[p] != FIELD_END
    && BaseAddress(rec) + EntryAt(rec, p).off + EntryAt(rec, p).len <= |rec|
  }

  /** A record with `n` directory entries closed by a field terminator. */
  ghost predicate Record(rec: string, n: nat) {
    && EntryPos(n) < |rec| && rec[EntryPos(n)] == FIELD_END
    && AllDigits(rec[12..17])
    && forall i :: 0 <= i < n ==> EntryFits(rec, EntryPos(i))
  }

  /** Every field leaves room for a terminator in the slicer's static buffer. */
  ghost predicate AllSmall(rec: string, n: nat)
    requires Record(rec, n)
  {
    forall i :: 0 <= i < n ==> |FieldData(rec, EntryPos(i))| < FIELD_DATA
  }

  function FieldData(rec: string, p: nat): (r: string)
    requires 17 <= |rec| && AllDigits(rec[12..17]) && EntryFits(rec, p)
  {
    var e := EntryAt(rec, p);
    rec[BaseAddress(rec) + e.off..BaseAddress(rec) + e.off + e.len]
  }

  /** The line the slicer makes of one entry. */
  function Item(rec: string, p: nat): (r: string)
    requires 17 <= |rec| && AllDigits(rec[12..17]) && EntryFits(rec, p)
  {
    UpToNul(rec[p..p + 3]) + "   " + Shown(FieldData(rec, p))
  }

  ghost function ItemsFrom(rec: string, i: nat, n: nat): (r: seq<string>)
    requires Record(rec, n) && i <= n
    decreases n - i
  {
    if i == n then [] else [Item(rec, EntryPos(i))] + ItemsFrom(rec, i + 1, n)
  }

  /** `sscanf` at a directory entry reads what the layout says. */
  lemma ScanEntry(rec: string, p: nat)
    requires EntryDigits(rec, p)
    ensures ScanInt(rec, p + 3, 4) == Match(EntryAt(rec, p).len, p + 7)
    ensures ScanInt(rec, p + 7, 5) == Match(EntryAt(rec, p).off, p + 12)
  {
    hide AllDigits, Value, ScanInt;
    ScanDigits(rec, p + 3, 4, p + 7);
    ScanDigits(rec, p + 7, 5, p + 12);
  }

  /** `strncpy`: the source up to its terminator, the rest of the `len` places cleared. */
  method CopyField(buf: array<char>, src: string)
    requires |src| < buf.Length
    modifies buf
    ensures buf[..|UpToNul(src)|] == UpToNul(src)
    ensures forall k :: |UpToNul(src)| <= k <= |src| ==> buf[k] == NUL
    ensures buf[|src| + 1..] == old(buf[|src| + 1..])
  {
    var s := UpToNul(src);
    var i := 0;
    while i < |src|
      invariant 0 <= i <= |src|
      invariant forall k :: 0 <= k < i ==> buf[k] == if k < |s| then s[k] else NUL
      invariant forall k :: i <= k < buf.Length ==> buf[k] == old(buf[k])
    {
      buf[i] := if i < |s| then s[i] else NUL;
      i := i + 1;
    }
    buf[|src|] := NUL;
  }

  /** What a reader of the buffer finds after copying and substituting. */
  method FieldText(buf: array<char>, src: string) returns (text: string)
    requires |src| < buf.Length
    modifies buf
    ensures text == Shown(src)
  {
    hide UpToNul;
    CopyField(buf, src);
    ghost var s := UpToNul(src);
    assert buf[..|src|] == s + buf[|s|..|src|];
    Substitute(buf, |src|);
    ShownInBuffer(buf[..], s, |src|);
    text := UpToNul(buf[..]);
  }

  lemma ShownInBuffer(buf: string, s: string, n: nat)
    requires |s| <= n < |buf| && NulFree(s)
    requires buf[..|s|] == Marked(s) && buf[|s|] == NUL
    ensures UpToNul(buf) == UpToNul(Marked(s))
  {
    hide UpToNul, Marked;
    var rest := buf[|s| + 1..];
    assert buf == Marked(s) + ([NUL] + rest);
    UpToNulClosed(Marked(s), [NUL] + rest);
  }

  lemma ItemsOn(rec: string, i: nat, n: nat)
    requires Record(rec, n) && i <= n
    ensures i == n ==> ItemsFrom(rec, i, n) == []
    ensures i < n ==> EntryFits(rec, EntryPos(i)) && rec[EntryPos(i)] != FIELD_END
    ensures i < n ==> ItemsFrom(rec, i, n) == [Item(rec, EntryPos(i))] + ItemsFrom(rec, i + 1, n)
  {
  }

  /** Where the directory walk stands, and when it stops. */
  lemma WalkAt(rec: string, i: nat, n: nat)
    requires Record(rec, n) && i <= n
    ensures EntryPos(i) < |rec| && 17 <= |rec| && AllDigits(rec[12..17])
    ensures rec[EntryPos(i)] == FIELD_END <==> i == n
    ensures rec[..LEADER] != []
  {
  }

  lemma ItemNulFree(rec: string, p: nat)
    requires 17 <= |rec| && AllDigits(rec[12..17]) && EntryFits(rec, p)
    ensures NulFree(Item(rec, p))
  {
  }

  /** `parseMarc`: the leader, then one item for every directory entry, in order. */
  method ParseMarc(rec: string, ghost n: nat) returns (list: AcList)
    requires Record(rec, n) && AllSmall(rec, n)
    ensures list.Valid() && fresh(list.Repr())
    ensures list.Items() == [UpToNul(rec[..LEADER])] + ItemsFrom(rec, 0, n)
  {
    hide Record, AllSmall, Sound, Strings, ItemsFrom, AcList.Items, UpToNul;
    WalkAt(rec, 0, n);
    list := new AcList();
    list.Append(rec[..LEADER]);
    AddItems(rec, list, n);
  }

  /** The loop over the directory. */
  method AddItems(rec: string, list: AcList, ghost n: nat)
    requires Record(rec, n) && AllSmall(rec, n) && list.Valid() && list.data != null
    modifies list.Repr()
    ensures list.Valid() && list.data != null && fresh(list.Repr() - old(list.Repr()))
    ensures list.Items() == old(list.Items()) + ItemsFrom(rec, 0, n)
  {
    hide Record, AllSmall, Sound, Strings, AllDigits, Value, ScanInt, ItemsFrom, Item, EntryFits, FieldData;
    hide AcList.Items;
    WalkAt(rec, 0, n);
    var fieldData := new char[FIELD_DATA](_ => NUL);
    ScanDigits(rec, 12, 5, 17);
    var base := ScanInt(rec, 12, 5).value;
    var dir := LEADER;
    ghost var i, goal := 0, list.Items() + ItemsFrom(rec, 0, n);
    while rec[dir] != FIELD_END
      invariant 0 <= i <= n && dir == EntryPos(i) < |rec|
      invariant rec[dir] == FIELD_END <==> i == n
      invariant list.Valid() && list.data != null && fresh(list.Repr() - old(list.Repr()))
      invariant fieldData !in list.Repr() && list.Items() + ItemsFrom(rec, i, n) == goal
      decreases n - i
    {
      ItemsOn(rec, i, n);
      SmallAt(rec, i, n);
      ghost var before := list.Items();
      AddItem(rec, base, dir, fieldData, list);
      ListJoins(before, Item(rec, dir), ItemsFrom(rec, i + 1, n));
      i := i + 1;
      WalkAt(rec, i, n);
      dir := dir + ENTRY;
    }
    ItemsOn(rec, n, n);
  }

  /** The body of the loop: the next item goes behind the others. */
  method AddItem(rec: string, base: int, dir: nat, fieldData: array<char>, list: AcList)
    requires 17 <= |rec| && AllDigits(rec[12..17]) && EntryFits(rec, dir) && base == BaseAddress(rec)
    requires |FieldData(rec, dir)| < fieldData.Length
    requires list.Valid() && list.data != null && fieldData !in list.Repr()
    modifies fieldData, list.Repr()
    ensures list.Valid() && list.data != null && list.Items() == old(list.Items()) + [Item(rec, dir)]
    ensures fresh(list.Repr() - old(list.Repr())) && fieldData !in list.Repr()
  {
    hide Sound, Strings, AllDigits, Item, EntryFits, FieldData, UpToNul, AcList.Items;
    var item := OneItem(rec, base, dir, fieldData);
    ItemNulFree(rec, dir);
    list.Add(item);
  }

  lemma SmallAt(rec: string, i: nat, n: nat)
    requires Record(rec, n) && AllSmall(rec, n) && i < n
    ensures EntryFits(rec, EntryPos(i)) && |FieldData(rec, EntryPos(i))| < FIELD_DATA
  {
  }

  lemma ListJoins(a: seq<string>, x: string, b: seq<string>)
    ensures a + ([x] + b) == a + [x] + b
  {
  }

  /** Read the entry, copy the field, substitute, format. */
  method OneItem(rec: string, base: int, dir: nat, fieldData: array<char>) returns (item: string)
    requires 17 <= |rec| && AllDigits(rec[12..17]) && EntryFits(rec, dir) && base == BaseAddress(rec)
    requires |FieldData(rec, dir)| < fieldData.Length
    modifies fieldData
    ensures item == Item(rec, dir)
  {
    hide AllDigits, Value, ScanInt, UpToNul, Shown;
    ScanEntry(rec, dir);
    var tag := rec[dir..dir + 3];
    var len := ScanInt(rec, dir + 3, 4);
    var off := ScanInt(rec, len.next, 5);
    var text := FieldText(fieldData, rec[base + off.value..base + off.value + len.value]);
    item := UpToNul(tag) + "   " + text;
  }

  // -------------------------------------------------------------- looking a field up

  function Take(s: string, k: nat): string {
    if |s| <= k then s else s[..k]
  }

  /** `strncmp(field_tag, tag, 3) == 0` for the C strings it is called with. */
  predicate SameTag(entryTag: string, tag: string) {
    Take(UpToNul(entryTag), 3) == Take(UpToNul(tag), 3)
  }

  datatype Found = Nothing | Data(text: string)

  /** The data of the last entry with the tag, among entries i and up. */
  ghost function LastField(rec: string, tag: string, i: nat, n: nat): (r: Found)
    requires Record(rec, n) && i <= n
    decreases n - i
  {
    if i == n then Nothing
    else
      var later := LastField(rec, tag, i + 1, n);
      if later.Data? then later
      else if SameTag(rec[EntryPos(i)..EntryPos(i) + 3], tag) then Data(UpToNul(FieldData(rec, EntryPos(i))))
      else Nothing
  }

  lemma LastOn(rec: string, tag: string, i: nat, n: nat)
    requires Record(rec, n) && i <= n
    ensures i == n ==> LastField(rec, tag, i, n) == Nothing
    ensures i < n ==> EntryFits(rec, EntryPos(i)) && rec[EntryPos(i)] != FIELD_END
    ensures i < n && LastField(rec, tag, i + 1, n).Data? ==> LastField(rec, tag, i, n) == LastField(rec, tag, i + 1, n)
    ensures i < n && LastField(rec, tag, i + 1, n) == Nothing ==>
              LastField(rec, tag, i, n) ==
              if SameTag(rec[EntryPos(i)..EntryPos(i) + 3], tag)
              then Data(UpToNul(FieldData(rec, EntryPos(i)))) else Nothing
  {
  }

  lemma StringInBuffer(buf: string, s: string)
    requires |s| < |buf| && buf[..|s|] == s && buf[|s|] == NUL && NulFree(s)
    ensures UpToNul(buf) == s
  {
  }

  /** Every field with the tag leaves room for a terminator in a buffer of `size` characters. */
  ghost predicate TaggedFit(rec: string, tag: string, n: nat, size: nat)
    requires Record(rec, n)
  {
    forall i :: 0 <= i < n && SameTag(rec[EntryPos(i)..EntryPos(i) + 3], tag) ==> |FieldData(rec, EntryPos(i))| < size
  }

  lemma TaggedFitsAt(rec: string, tag: string, i: nat, n: nat, size: nat)
    requires Record(rec, n) && TaggedFit(rec, tag, n, size) && i < n
    ensures EntryFits(rec, EntryPos(i))
    ensures SameTag(rec[EntryPos(i)..EntryPos(i) + 3], tag) ==> |FieldData(rec, EntryPos(i))| < size
  {
  }

  /** `mr_field`: later entries overwrite earlier ones; without a match the buffer is untouched. */
  method MrField(rec: string, tag: string, field: array<char>, ghost n: nat)
    requires Record(rec, n) && TaggedFit(rec, tag, n, field.Length)
    modifies field
    ensures match LastField(rec, tag, 0, n)
            case Nothing => field[..] == old(field[..])
            case Data(text) => UpToNul(field[..]) == text
  {
    hide Record, AllDigits, Value, ScanInt, LastField, EntryFits, UpToNul, SameTag, TaggedFit;
    WalkAt(rec, 0, n);
    ScanDigits(rec, 12, 5, 17);
    var base := ScanInt(rec, 12, 5).value;
    var dir := LEADER;
    ghost var i := 0;
    ghost var goal, seen := LastField(rec, tag, 0, n), Nothing;
    while rec[dir] != FIELD_END
      invariant 0 <= i <= n && dir == EntryPos(i) < |rec|
      invariant rec[dir] == FIELD_END <==> i == n
      invariant goal == (if LastField(rec, tag, i, n).Data? then LastField(rec, tag, i, n) else seen)
      invariant seen == Nothing ==> field[..] == old(field[..])
      invariant seen.Data? ==> UpToNul(field[..]) == seen.text
      decreases n - i
    {
      LastOn(rec, tag, i, n);
      TaggedFitsAt(rec, tag, i, n, field.Length);
      var copied := OneField(rec, base, dir, tag, field);
      if copied {
        seen := Data(UpToNul(FieldData(rec, dir)));
      }
      i := i + 1;
      WalkAt(rec, i, n);
      dir := dir + ENTRY;
    }
    LastOn(rec, tag, n, n);
  }

  method OneField(rec: string, base: int, dir: nat, tag: string, field: array<char>) returns (copied: bool)
    requires 17 <= |rec| && AllDigits(rec[12..17]) && EntryFits(rec, dir) && base == BaseAddress(rec)
    requires SameTag(rec[dir..dir + 3], tag) ==> |FieldData(rec, dir)| < field.Length
    modifies field
    ensures copied == SameTag(rec[dir..dir + 3], tag)
    ensures copied ==> UpToNul(field[..]) == UpToNul(FieldData(rec, dir))
    ensures !copied ==> field[..] == old(field[..])
  {
    hide AllDigits, Value, ScanInt, UpToNul, SameTag;
    ScanEntry(rec, dir);
    var len := ScanInt(rec, dir + 3, 4);
    var off := ScanInt(rec, len.next, 5);
    copied := SameTag(rec[dir..dir + 3], tag);
    if copied {
      var src := rec[base + off.value..base + off.value + len.value];
      CopyField(field, src);
      StringInBuffer(field[..], UpToNul(src));
    }
  }
}
