/**
 * AC_LIST (the ac_list directory, header/list.h): strings packed into one growing block, an index of
 * their offsets, and a cursor.
 */
module AcList {
  import opened Basics
  import opened CStrings

  /** What every operation keeps: terminated contents and increasing offsets into them. */
  ghost predicate Sound(index: seq<int>, used: string) {
    && (index != [] ==> used != [])
    && (used != [] ==> used[|used| - 1] == NUL)
    && (forall i :: 0 <= i < |index| ==> 0 <= index[i] < |used|)
    && (forall i, j :: 0 <= i < j < |index| ==> index[i] < index[j])
  }

  /** The strings a reader finds at the indexed offsets. */
  ghost function Strings(index: seq<int>, used: string): (r: seq<string>)
    requires Sound(index, used)
    ensures |r| == |index|
  {
    seq(|index|, i requires 0 <= i < |index| => StringAt(used, index[i]))
  }

  lemma StringKept(used: string, at: nat, item: string)
    requires at < |used| && used[|used| - 1] == NUL
    ensures StringAt(used + item + [NUL], at) == StringAt(used, at)
  {
    assert (used + item + [NUL])[at..] == used[at..] + (item + [NUL]);
    assert used[at..][|used| - 1 - at] == NUL;
    UpToNulJoin(used[at..], item + [NUL]);
  }

  lemma StringAdded(used: string, item: string)
    ensures StringAt(used + item + [NUL], |used|) == UpToNul(item)
  {
    assert (used + item + [NUL])[|used|..] == item + [NUL];
    UpToNulClosed(item, [NUL]);
  }

  /** Storing behind the used part leaves every stored string as it was and adds one. */
  lemma StringsAppend(index: seq<int>, used: string, item: string)
    requires Sound(index, used)
    ensures Sound(index + [|used|], used + item + [NUL])
    ensures Strings(index + [|used|], used + item + [NUL]) == Strings(index, used) + [UpToNul(item)]
  {
    hide StringAt, UpToNul;
    forall i | 0 <= i < |index|
      ensures StringAt(used + item + [NUL], index[i]) == StringAt(used, index[i])
    {
      StringKept(used, index[i], item);
    }
    StringAdded(used, item);
    assert Strings(index + [|used|], used + item + [NUL]) == Strings(index, used) + [UpToNul(item)];
  }

  /** Dropping an offset drops exactly its string. */
  lemma StringsRemove(index: seq<int>, used: string, pos: nat)
    requires Sound(index, used) && pos < |index|
    ensures Sound(index[..pos] + index[pos + 1..], used)
    ensures Strings(index[..pos] + index[pos + 1..], used)
         == Strings(index, used)[..pos] + Strings(index, used)[pos + 1..]
  {
  }

  /** What a look-up by number returns: an item, NULL, or a pointer made from a slot not in use. */
  datatype Pick = Here(item: string) | Nowhere | Stray

  class AcList {
    var idxsize: nat
    var idxend: nat
    var index: array<int>
    var size: nat
    var end: nat
    var data: array?<char>
    var curpos: int

    ghost function Repr(): set<object>
      reads this
    {
      if data == null then {this, index} else var d: array<char> := data; {this, index, d}
    }

    ghost function Used(): string
      requires data == null || size <= data.Length
      reads this, data
    {
      if data == null then [] else data[..size]
    }

    ghost predicate Valid()
      reads this, index, data
    {
      && idxsize <= idxend == index.Length && 0 < idxend
      && (data == null ==> size == 0 && end == 0)
      && (data != null ==> 0 < size <= end == data.Length)
      && Sound(index[..idxsize], Used())
    }

    /** The list as its callers see it. */
    ghost function Items(): (r: seq<string>)
      requires Valid()
      reads this, index, data
      ensures |r| == idxsize
    {
      Strings(index[..idxsize], Used())
    }

    /** `ac_list_alloc` and `ac_list_init`. */
    constructor ()
      ensures Valid() && Items() == [] && curpos == 0 && data == null && fresh(Repr())
    {
      idxsize, idxend, index := 0, 1000, new int[1000](_ => 0);
      size, end, data := 0, 0, null;
      curpos := 0;
    }

    /** Room for `n` bytes and a terminator behind the used part. */
    method ReserveData(n: nat)
      requires Valid() && (data == null ==> 0 < n)
      modifies this`end, this`data
      ensures data != null && data.Length == end && size + n < end
      ensures data == old(data) || fresh(data)
      ensures Used() == old(Used())
    {
      if data == null {
        end := 2 * n;
        data := new char[end](_ => NUL);
      } else if end - size <= n {
        ghost var was := Used();
        end := 2 * (n + end);
        data := Grown(data, end);
        assert data[..size] == was;
      }
    }

    method ReserveIndex()
      requires idxsize <= idxend == index.Length && 0 < idxend
      modifies this`idxend, this`index
      ensures idxsize < idxend == index.Length && index[..idxsize] == old(index[..idxsize])
      ensures index == old(index) || fresh(index)
    {
      if idxsize >= idxend {
        idxend := 2 * idxend;
        var more := new int[idxend](_ => 0);
        var i := 0;
        while i < idxsize
          invariant 0 <= i <= idxsize && more[..i] == index[..i]
          modifies more
        {
          more[i] := index[i];
          i := i + 1;
        }
        index := more;
      }
    }

    /** Puts the item and its terminator behind the used part. */
    method Store(item: string)
      requires data != null && data.Length == end && size + |item| < end
      modifies this`size, data
      ensures size == old(size) + |item| + 1 && data[..size] == old(data[..size]) + item + [NUL]
    {
      var i := 0;
      while i < |item|
        invariant 0 <= i <= |item| && data[..size] == old(data[..size]) && data[size..size + i] == item[..i]
        modifies data
      {
        data[size + i] := item[i];
        i := i + 1;
      }
      data[size + |item|] := NUL;
      assert data[..size + |item| + 1] == data[..size] + data[size..size + |item|] + [NUL];
      size := size + |item| + 1;
    }

    /** `ac_list_append`. */
    method Append(item: string)
      requires Valid() && (data == null ==> item != [])
      modifies Repr()
      ensures Valid() && data != null && Items() == old(Items()) + [UpToNul(item)]
      ensures curpos == old(curpos) && fresh(Repr() - old(Repr()))
    {
      hide Sound, Strings;
      ghost var offsets, used := index[..idxsize], Used();
      ReserveData(|item|);
      ReserveIndex();
      index[idxsize] := size;
      idxsize := idxsize + 1;
      assert index[..idxsize] == offsets + [|used|];
      Store(item);
      assert Used() == used + item + [NUL];
      StringsAppend(offsets, used, item);
    }

    /** `ac_list_add`: a C string, so it is stored whole. */
    method Add(item: string)
      requires Valid() && NulFree(item) && (data == null ==> item != [])
      modifies Repr()
      ensures Valid() && data != null && Items() == old(Items()) + [item]
      ensures curpos == old(curpos) && fresh(Repr() - old(Repr()))
    {
      UpToNulWhole(item);
      Append(item);
    }

    /** What `data + index[i]` points at. */
    method Read(i: nat) returns (item: string)
      requires Valid() && i < idxsize
      ensures item == Items()[i]
    {
      hide Sound, Strings, StringAt, UpToNul;
      ghost var used, goal := Used(), Items()[i];
      StringsAt(index[..idxsize], used, i);
      var p := index[i];
      item := [];
      while data[p] != NUL
        invariant index[i] <= p < size
        invariant item + StringAt(used, p) == goal
        decreases size - p
      {
        ReadOn(used, p);
        assert used[p] == data[p];
        item := item + [data[p]];
        p := p + 1;
      }
      ReadOn(used, p);
    }

    /** `ac_list_find`: the first item equal to `item`, or -1. */
    method Find(item: string) returns (pos: int)
      requires Valid()
      ensures -1 <= pos < idxsize
      ensures pos == -1 ==> item !in Items()
      ensures pos != -1 ==> Items()[pos] == item && item !in Items()[..pos]
    {
      hide Sound, Strings;
      var i := 0;
      while i < idxsize
        invariant 0 <= i <= idxsize && item !in Items()[..i]
      {
        var it := Read(i);
        if it == item {
          return i;
        }
        i := i + 1;
      }
      assert Items()[..i] == Items();
      return -1;
    }

    /** The loop of `ac_list_delete`: offsets behind `pos` move down one place. */
    method ShiftDown(pos: nat)
      requires pos < idxsize <= index.Length
      modifies index
      ensures index[..idxsize - 1] == old(index[..pos]) + old(index[pos + 1..idxsize])
    {
      var i := pos;
      while i < idxsize - 1
        invariant pos <= i <= idxsize - 1
        invariant forall k :: 0 <= k < pos ==> index[k] == old(index[k])
        invariant forall k :: pos <= k < i ==> index[k] == old(index[k + 1])
        invariant forall k :: i <= k < idxsize ==> index[k] == old(index[k])
      {
        index[i] := index[i + 1];
        i := i + 1;
      }
    }

    /** `ac_list_delete`: takes the first item found out of the index. */
    method Delete(item: string) returns (ok: bool)
      requires Valid()
      modifies this`idxsize, index
      ensures Valid() && ok == (item in old(Items()))
      ensures !ok ==> Items() == old(Items())
      ensures ok ==> exists pos :: 0 <= pos < |old(Items())| && old(Items())[pos] == item
                       && item !in old(Items())[..pos]
                       && Items() == old(Items())[..pos] + old(Items())[pos + 1..]
    {
      hide Sound, Strings;
      ghost var offsets := index[..idxsize];
      var pos := Find(item);
      if pos < 0 {
        return false;
      }
      assert offsets[..pos] == index[..pos] && offsets[pos + 1..] == index[pos + 1..idxsize];
      ShiftDown(pos);
      ghost var kept := index[..idxsize - 1];
      index[idxsize - 1] := -1;
      idxsize := idxsize - 1;
      assert index[..idxsize] == kept;
      StringsRemove(offsets, Used(), pos);
      return true;
    }

    /** `ac_list_first`: the cursor goes to the first item; an empty list leaves it alone. */
    method First() returns (r: Option<string>)
      requires Valid()
      modifies this`curpos
      ensures Valid() && Items() == old(Items())
      ensures idxsize == 0 ==> r == None && curpos == old(curpos)
      ensures idxsize > 0 ==> r == Some(Items()[0]) && curpos == 0
    {
      hide Sound, Strings;
      if idxsize == 0 {
        return None;
      }
      curpos := 0;
      var it := Read(0);
      return Some(it);
    }

    /** `ac_list_next`: the cursor always moves, past the end too. */
    method Next() returns (r: Option<string>)
      requires Valid() && -1 <= curpos
      modifies this`curpos
      ensures Valid() && Items() == old(Items()) && curpos == old(curpos) + 1
      ensures r == if curpos < idxsize then Some(Items()[curpos]) else None
    {
      hide Sound, Strings;
      curpos := curpos + 1;
      if curpos >= idxsize {
        return None;
      }
      var it := Read(curpos);
      return Some(it);
    }

    /** `ac_list_nth`. The test lets the number of items through to a slot that holds no item's offset. */
    method Nth(which: int) returns (r: Pick)
      requires Valid()
      modifies this`curpos
      ensures Valid() && Items() == old(Items())
      ensures r == if 0 <= which < idxsize then Here(Items()[which]) else if which == idxsize then Stray else Nowhere
      ensures curpos == if 0 <= which <= idxsize then which else old(curpos)
    {
      hide Sound, Strings;
      if which < 0 || which > idxsize {
        return Nowhere;
      }
      curpos := which;
      if curpos == idxsize {
        return Stray;
      }
      var it := Read(curpos);
      return Here(it);
    }
  }

  lemma StringsAt(index: seq<int>, used: string, i: nat)
    requires Sound(index, used) && i < |index|
    ensures 0 <= index[i] < |used| && used[|used| - 1] == NUL
    ensures Strings(index, used)[i] == StringAt(used, index[i])
  {
  }

  lemma ReadOn(used: string, p: nat)
    requires p < |used|
    ensures StringAt(used, p) == if used[p] == NUL then [] else [used[p]] + StringAt(used, p + 1)
  {
  }

  /** `realloc` to a larger block. */
  method Grown(data: array<char>, end: nat) returns (more: array<char>)
    requires data.Length <= end
    ensures fresh(more) && more.Length == end && more[..data.Length] == data[..]
  {
    more := new char[end](_ => NUL);
    var i := 0;
    while i < data.Length
      invariant 0 <= i <= data.Length && more[..i] == data[..i]
    {
      more[i] := data[i];
      i := i + 1;
    }
  }
}
