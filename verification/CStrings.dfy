/** NUL-terminated strings: what a C reader sees in a block of characters. */
module CStrings {

  const NUL: char := '\0'

  /** A C string value: a run of characters with no terminator inside. */
  predicate NulFree(s: string) {
    NUL !in s
  }

  /** The characters before the first terminator (all of them when there is none). */
  function UpToNul(s: string): (r: string)
    ensures NulFree(r) && r <= s
    ensures |r| < |s| ==> s[|r|] == NUL
  {
    if s == [] || s[0] == NUL then [] else [s[0]] + UpToNul(s[1..])
  }

  /** What `strlen`/`%s` see when handed a pointer `at` into `block`. */
  function StringAt(block: string, at: nat): (r: string)
    requires at <= |block|
  {
    UpToNul(block[at..])
  }

  lemma Regroup3(a: string, b: string, c: string)
    ensures a + b + c == a + (b + c)
  {
  }

  /** The first terminator decides: anything may follow it. */
  lemma {:induction false} UpToNulJoin(a: string, b: string)
    ensures UpToNul(a + b) == if NulFree(a) then a + UpToNul(b) else UpToNul(a)
  {
    if a == [] {
      assert a + b == b;
    } else if a[0] == NUL {
      assert (a + b)[0] == NUL;
    } else {
      assert (a + b)[0] == a[0] && (a + b)[1..] == a[1..] + b;
      UpToNulJoin(a[1..], b);
      NulFreeTail(a);
      Regroup3([a[0]], a[1..], UpToNul(b));
    }
  }

  lemma NulFreeTail(a: string)
    requires a != [] && a[0] != NUL
    ensures NulFree(a) <==> NulFree(a[1..])
    ensures a == [a[0]] + a[1..]
  {
  }

  lemma UpToNulStops(s: string, tail: string)
    requires NulFree(s)
    ensures UpToNul(s + [NUL] + tail) == s
  {
    Regroup3(s, [NUL], tail);
    UpToNulJoin(s, [NUL] + tail);
  }

  lemma {:induction false} UpToNulWhole(s: string)
    requires NulFree(s)
    ensures UpToNul(s) == s
  {
  }

  /** A terminator right behind changes nothing. */
  lemma UpToNulClosed(a: string, b: string)
    requires b != [] && b[0] == NUL
    ensures UpToNul(a + b) == UpToNul(a)
  {
    UpToNulJoin(a, b);
    if NulFree(a) {
      UpToNulWhole(a);
    }
  }

  /** Items stored one after the other, each closed by a terminator. */
  function Pack(items: seq<string>): (r: string) {
    if items == [] then [] else items[0] + [NUL] + Pack(items[1..])
  }

  lemma {:induction false} PackAppend(items: seq<string>, item: string)
    ensures Pack(items + [item]) == Pack(items) + item + [NUL]
  {
    if items == [] {
      assert items + [item] == [item];
      assert Pack([item]) == item + [NUL] + Pack([]);
    } else {
      assert (items + [item])[1..] == items[1..] + [item];
      PackAppend(items[1..], item);
    }
  }

  lemma {:induction false} PackConcat(a: seq<string>, b: seq<string>)
    ensures Pack(a + b) == Pack(a) + Pack(b)
  {
    if a == [] {
      assert a + b == b;
    } else {
      assert (a + b)[1..] == a[1..] + b;
      PackConcat(a[1..], b);
    }
  }

  /** A pointer to the start of the i-th packed item reads back exactly that item. */
  lemma PackReads(items: seq<string>, i: nat, block: string)
    requires i < |items| && NulFree(items[i])
    requires Pack(items) <= block
    ensures |Pack(items[..i])| <= |block|
    ensures StringAt(block, |Pack(items[..i])|) == items[i]
  {
    assert items == items[..i] + items[i..];
    PackConcat(items[..i], items[i..]);
    var before := Pack(items[..i]);
    var rest := Pack(items[i..][1..]);
    assert Pack(items[i..]) == items[i] + [NUL] + rest;
    var after := block[|Pack(items)|..];
    assert block == Pack(items) + after;
    assert block[|before|..] == items[i] + [NUL] + (rest + after);
    UpToNulStops(items[i], rest + after);
  }
}
