/** Whole-list operations on AC_LISTs (ac_list/list_utils.c), and every run of the basic ones. */
module AcListOps {
  import opened Basics
  import opened CStrings
  import opened AcList

  lemma ItemsNulFree(l: AcList)
    requires l.Valid()
    ensures forall i :: 0 <= i < |l.Items()| ==> NulFree(l.Items()[i])
  {
  }

  /** The turn all three copying loops are made of: add an item to one list, go on in the other. */
  method CopyOne(o: AcList, n: AcList, item: string) returns (next: Option<string>)
    requires o.Valid() && n.Valid() && o.Repr() !! n.Repr() && -1 <= n.curpos
    requires NulFree(item) && (o.data == null ==> item != [])
    modifies o.Repr(), n`curpos
    ensures o.Valid() && o.data != null && fresh(o.Repr() - old(o.Repr())) && o.Items() == old(o.Items()) + [item]
    ensures n.Valid() && n.Items() == old(n.Items()) && n.Repr() == old(n.Repr()) && o.Repr() !! n.Repr()
    ensures n.curpos == old(n.curpos) + 1
    ensures next == if n.curpos < |n.Items()| then Some(n.Items()[n.curpos]) else None
  {
    hide Sound, Strings, AcList.Items, AcList.Used;
    o.Add(item);
    next := n.Next();
  }

  /** `ac_list_add_list`: every item of `n`, in order, behind the items of `o`. */
  method AddList(o: AcList, n: AcList)
    requires o.Valid() && n.Valid() && o.Repr() !! n.Repr()
    requires o.data == null && n.idxsize > 0 ==> n.Items()[0] != []
    modifies o.Repr(), n`curpos
    ensures o.Valid() && fresh(o.Repr() - old(o.Repr())) && o.Items() == old(o.Items()) + old(n.Items())
    ensures n.Valid() && n.Items() == old(n.Items()) && n.Repr() == old(n.Repr())
  {
    hide Sound, Strings, AcList.Items, AcList.Used;
    ghost var mine, theirs := o.Items(), n.Items();
    ItemsNulFree(n);
    var item := n.First();
    ghost var k := 0;
    while item != None
      invariant n.Valid() && n.Items() == theirs && n.Repr() == old(n.Repr())
      invariant o.Valid() && fresh(o.Repr() - old(o.Repr())) && o.Repr() !! n.Repr()
      invariant 0 <= k <= |theirs| && o.Items() == mine + theirs[..k]
      invariant o.data == null ==> k == 0 && old(o.data) == null
      invariant item == None ==> k == |theirs|
      invariant item != None ==> k < |theirs| && item == Some(theirs[k]) && n.curpos == k
      decreases |theirs| - k, item != None
    {
      item := CopyOne(o, n, item.value);
      assert theirs[..k + 1] == theirs[..k] + [theirs[k]];
      k := k + 1;
    }
    assert theirs[..k] == theirs;
  }

  /** `ac_list_dup`: NULL for an empty list, otherwise a separate list with the same items. */
  method Dup(s: AcList) returns (d: AcList?)
    requires s.Valid() && (s.idxsize > 0 ==> s.Items()[0] != [])
    modifies s`curpos
    ensures s.Valid() && s.Items() == old(s.Items()) && s.Repr() == old(s.Repr())
    ensures s.idxsize == 0 ==> d == null
    ensures s.idxsize > 0 ==> d != null && d.Valid() && fresh(d.Repr()) && d.Items() == s.Items()
  {
    hide Sound, Strings, AcList.Items, AcList.Used;
    if s.idxsize == 0 {
      return null;
    }
    ghost var items := s.Items();
    ItemsNulFree(s);
    var l := new AcList();
    var item := s.First();
    ghost var k := 0;
    while item != None
      invariant s.Valid() && s.Items() == items && s.Repr() == old(s.Repr())
      invariant l.Valid() && fresh(l.Repr())
      invariant 0 <= k <= |items| && l.Items() == items[..k]
      invariant l.data == null ==> k == 0
      invariant item == None ==> k == |items|
      invariant item != None ==> k < |items| && item == Some(items[k]) && s.curpos == k
      decreases |items| - k, item != None
    {
      item := CopyOne(l, s, item.value);
      assert items[..k + 1] == items[..k] + [items[k]];
      k := k + 1;
    }
    assert items[..k] == items;
    return l;
  }

  /** `ac_list_sub_list`: `number` items from `start` on, all of which must exist. */
  method SubList(s: AcList, start: int, number: int) returns (d: AcList?)
    requires s.Valid()
    requires s.idxsize > 0 && number > 0 ==> 0 <= start && start + number <= s.idxsize && s.Items()[start] != []
    modifies s`curpos
    ensures s.Valid() && s.Items() == old(s.Items()) && s.Repr() == old(s.Repr())
    ensures s.idxsize == 0 ==> d == null
    ensures s.idxsize > 0 ==> d != null && d.Valid() && fresh(d.Repr())
    ensures s.idxsize > 0 ==> d.Items() == if number > 0 then s.Items()[start..start + number] else []
  {
    hide Sound, Strings, AcList.Items, AcList.Used;
    if s.idxsize == 0 {
      return null;
    }
    ghost var items := s.Items();
    ItemsNulFree(s);
    ghost var part := if number > 0 then items[start..start + number] else [];
    var l := new AcList();
    var found := s.Nth(start);
    var item := if found.Here? then Some(found.item) else None;
    var i := 0;
    while i < number
      invariant s.Valid() && s.Items() == items && s.Repr() == old(s.Repr())
      invariant l.Valid() && fresh(l.Repr())
      invariant 0 <= i <= |part| && l.Items() == part[..i]
      invariant l.data == null ==> i == 0
      invariant i < |part| ==> s.curpos == start + i && item == Some(part[i])
    {
      item := CopyOne(l, s, item.value);
      assert part[..i + 1] == part[..i] + [part[i]];
      i := i + 1;
    }
    assert part[..i] == part;
    return l;
  }

  // --------------------------------------------------------------------- every run

  datatype Op = Append(bytes: string) | Add(item: string) | Delete(item: string)
              | Find(item: string) | First | Next | Nth(which: int)

  /** `NoItem` is the pointer `ac_list_nth` makes from an unused slot. */
  datatype Reply = Done | Removed(ok: bool) | Position(pos: int) | Item(item: Option<string>) | NoItem

  /** The list as a plain sequence with a cursor; `started` once a block has been allocated. */
  datatype View = View(items: seq<string>, cursor: int, started: bool)

  /** What the C code demands of a call. */
  predicate Legal(v: View, op: Op) {
    match op
    case Append(bytes) => v.started || bytes != []
    case Add(item) => NulFree(item) && (v.started || item != [])
    case _ => true
  }

  function Step(v: View, op: Op): (r: (View, Reply)) {
    match op
    case Append(bytes) => (v.(items := v.items + [UpToNul(bytes)], started := true), Done)
    case Add(item) => (v.(items := v.items + [item], started := true), Done)
    case Delete(item) =>
      var pos := IndexOf(v.items, item);
      if pos < 0 then (v, Removed(false))
      else (v.(items := v.items[..pos] + v.items[pos + 1..]), Removed(true))
    case Find(item) => (v, Position(IndexOf(v.items, item)))
    case First => if v.items == [] then (v, Item(None)) else (v.(cursor := 0), Item(Some(v.items[0])))
    case Next =>
      var c := v.cursor + 1;
      (v.(cursor := c), Item(if 0 <= c < |v.items| then Some(v.items[c]) else None))
    case Nth(which) =>
      if 0 <= which < |v.items| then (v.(cursor := which), Item(Some(v.items[which])))
      else if which == |v.items| then (v.(cursor := which), NoItem)
      else (v, Item(None))
  }

  ghost function ViewOf(l: AcList): View
    requires l.Valid()
    reads l, l.index, l.data
  {
    View(l.Items(), l.curpos, l.data != null)
  }

  lemma FirstIndexUnique(items: seq<string>, item: string, a: int, b: int)
    requires 0 <= a < |items| && items[a] == item && item !in items[..a] && b == IndexOf(items, item)
    ensures a == b
  {
  }

  /** The operations that change the items. */
  method Change(l: AcList, op: Op) returns (reply: Reply)
    requires l.Valid() && Legal(ViewOf(l), op) && (op.Append? || op.Add? || op.Delete?)
    modifies l.Repr()
    ensures l.Valid() && l.curpos == old(l.curpos) && fresh(l.Repr() - old(l.Repr()))
    ensures (ViewOf(l), reply) == Step(old(ViewOf(l)), op)
  {
    hide Sound, Strings, UpToNul, AcList.Items, AcList.Used, IndexOf;
    reply := Done;
    if op.Append? {
      l.Append(op.bytes);
    } else if op.Add? {
      l.Add(op.item);
    } else {
      ghost var items := l.Items();
      var ok := l.Delete(op.item);
      reply := Removed(ok);
      if ok {
        ghost var pos :| 0 <= pos < |items| && items[pos] == op.item && op.item !in items[..pos]
                         && l.Items() == items[..pos] + items[pos + 1..];
        FirstIndexUnique(items, op.item, pos, IndexOf(items, op.item));
      }
    }
  }

  /** The operations that only look, or move the cursor. */
  method Look(l: AcList, op: Op) returns (reply: Reply)
    requires l.Valid() && 0 <= l.curpos && Legal(ViewOf(l), op) && (op.Find? || op.First? || op.Next? || op.Nth?)
    modifies l`curpos
    ensures l.Valid() && 0 <= l.curpos && l.Repr() == old(l.Repr())
    ensures (ViewOf(l), reply) == Step(old(ViewOf(l)), op)
  {
    hide Sound, Strings, AcList.Items, AcList.Used, IndexOf;
    var r;
    if op.Find? {
      var pos := l.Find(op.item);
      if pos != -1 {
        FirstIndexUnique(l.Items(), op.item, pos, IndexOf(l.Items(), op.item));
      }
      return Position(pos);
    } else if op.First? {
      r := l.First();
    } else if op.Next? {
      r := l.Next();
    } else {
      var found := l.Nth(op.which);
      match found
      case Here(item) => return Item(Some(item));
      case Nowhere => return Item(None);
      case Stray => return NoItem;
    }
    return Item(r);
  }

  /** Each operation does to the packed block what it does to the plain sequence. */
  method Perform(l: AcList, op: Op) returns (reply: Reply)
    requires l.Valid() && 0 <= l.curpos && Legal(ViewOf(l), op)
    modifies l.Repr()
    ensures l.Valid() && 0 <= l.curpos && fresh(l.Repr() - old(l.Repr()))
    ensures (ViewOf(l), reply) == Step(old(ViewOf(l)), op)
  {
    hide Sound, Step, ViewOf, Legal;
    if op.Append? || op.Add? || op.Delete? {
      reply := Change(l, op);
    } else {
      reply := Look(l, op);
    }
  }

  ghost predicate LegalRun(v: View, ops: seq<Op>)
    decreases |ops|
  {
    ops == [] || (Legal(v, ops[0]) && LegalRun(Step(v, ops[0]).0, ops[1..]))
  }

  ghost function Replies(v: View, ops: seq<Op>): (r: seq<Reply>)
    decreases |ops|
  {
    if ops == [] then [] else [Step(v, ops[0]).1] + Replies(Step(v, ops[0]).0, ops[1..])
  }

  /** Every legal run on a new list answers exactly as the plain sequence does. */
  method Run(ops: seq<Op>) returns (replies: seq<Reply>)
    requires LegalRun(View([], 0, false), ops)
    ensures replies == Replies(View([], 0, false), ops)
  {
    hide Sound, Strings, Legal, Step, Replies, LegalRun;
    var l := new AcList();
    replies := [];
    ghost var v := View([], 0, false);
    var i := 0;
    assert ops[0..] == ops;
    while i < |ops|
      invariant 0 <= i <= |ops| && l.Valid() && 0 <= l.curpos && fresh(l.Repr())
      invariant LegalRun(ViewOf(l), ops[i..])
      invariant replies + Replies(ViewOf(l), ops[i..]) == Replies(v, ops)
    {
      RunOn(ViewOf(l), ops[i..]);
      assert ops[i..][1..] == ops[i + 1..];
      var reply := Perform(l, ops[i]);
      replies := replies + [reply];
      i := i + 1;
    }
    RunOn(ViewOf(l), ops[i..]);
  }

  lemma RunOn(v: View, ops: seq<Op>)
    requires LegalRun(v, ops)
    ensures ops == [] ==> Replies(v, ops) == []
    ensures ops != [] ==>
      && Legal(v, ops[0])
      && LegalRun(Step(v, ops[0]).0, ops[1..])
      && Replies(v, ops) == [Step(v, ops[0]).1] + Replies(Step(v, ops[0]).0, ops[1..])
  {
  }
}
