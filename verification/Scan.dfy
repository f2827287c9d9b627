/**
 * The index scan of `Cheshire_Scan` (cheshire2/web_driver.c:2187-2283), after the Scan
 * service of ANSI/NISO Z39.50-1995, section 3.2.8.1: position a cursor at a term, step it
 * back to the preferred position, and list entries at a fixed stride.
 */
module Scan {

  const GLOBAL_KEY: string := ">>>Global Data Values<<<"

  /** An index entry: `small` data or a `bitmap` block leave the previous count in place. */
  datatype Entry = Entry(key: string, count: int, small: bool, bitmap: bool) {
    predicate Loads() { !small && !bitmap }
    predicate Special(bitmapped: bool) { (bitmapped && bitmap) || key == GLOBAL_KEY }
  }

  datatype Shown = Shown(key: string, count: int)

  /** Byte order of keys. */
  predicate Before(a: string, b: string) {
    b != [] && (a == [] || a[0] < b[0] || (a[0] == b[0] && Before(a[1..], b[1..])))
  }

  /** The first entry at or after the term; the number of entries if there is none. */
  function AtOrAfter(index: seq<Entry>, term: string): (a: nat)
    ensures a <= |index|
    ensures forall i :: 0 <= i < a ==> Before(index[i].key, term)
    ensures a < |index| ==> !Before(index[a].key, term)
  {
    if index == [] || !Before(index[0].key, term) then 0 else 1 + AtOrAfter(index[1..], term)
  }

  /** At k the keys part: a ends there or has the smaller character. */
  ghost predicate PartsAt(a: string, b: string, k: nat) {
    && k <= |a| && k < |b| && a[..k] == b[..k]
    && (k == |a| || a[k] < b[k])
  }

  /** One key is before another exactly if it is smaller where they first differ. */
  lemma {:induction false} BeforeMeans(a: string, b: string)
    ensures Before(a, b) <==> exists k: nat :: PartsAt(a, b, k)
  {
    if b != [] && a != [] && a[0] == b[0] {
      BeforeMeans(a[1..], b[1..]);
      assert a == [a[0]] + a[1..] && b == [b[0]] + b[1..];
      if k: nat :| PartsAt(a, b, k) {
        PartsFurther(a, b, k);
      }
      if k: nat :| PartsAt(a[1..], b[1..], k) {
        assert a[..k + 1] == [a[0]] + a[1..][..k] && b[..k + 1] == [b[0]] + b[1..][..k];
        assert PartsAt(a, b, k + 1);
      }
    } else {
      if Before(a, b) {
        assert PartsAt(a, b, 0);
      }
      if k: nat :| PartsAt(a, b, k) {
        assert k > 0 ==> a[..k][0] == b[..k][0];
      }
    }
  }

  lemma PartsFurther(a: string, b: string, k: nat)
    requires a != [] && b != [] && a[0] == b[0] && PartsAt(a, b, k)
    ensures k > 0 && PartsAt(a[1..], b[1..], k - 1)
  {
    assert a[1..][..k - 1] == a[..k][1..] && b[1..][..k - 1] == b[..k][1..];
  }

  /** A strict order in which any two different keys have their place. */
  lemma {:induction false} BeforeIsOrder(a: string, b: string, c: string)
    ensures !Before(a, a)
    ensures Before(a, b) && Before(b, c) ==> Before(a, c)
    ensures a != b ==> Before(a, b) || Before(b, a)
    ensures !(Before(a, b) && Before(b, a))
    decreases |a| + |b| + |c|
  {
    if a != [] && b != [] {
      BeforeIsOrder(a[1..], b[1..], if c == [] then [] else c[1..]);
      assert a == [a[0]] + a[1..] && b == [b[0]] + b[1..];
    } else if a != [] || b != [] {
      BeforeIsOrder(if a == [] then [] else a[1..], if b == [] then [] else b[1..], if c == [] then [] else c[1..]);
    }
  }

  /** Keys in strictly increasing order, as the database keeps them. */
  ghost predicate Sorted(index: seq<Entry>) {
    forall i, j :: 0 <= i < j < |index| ==> Before(index[i].key, index[j].key)
  }

  /** In a sorted index the search lands on the term itself if it is there, and never passes a key at or behind it. */
  lemma AtOrAfterFinds(index: seq<Entry>, term: string, k: nat)
    requires Sorted(index) && k < |index|
    ensures index[k].key == term ==> AtOrAfter(index, term) == k
    ensures AtOrAfter(index, term) <= k <==> !Before(index[k].key, term)
  {
    hide AtOrAfter, Before;
    var a := AtOrAfter(index, term);
    BeforeIsOrder(term, term, term);
    if a < |index| {
      BeforeIsOrder(index[a].key, index[k].key, term);
    }
  }

  /** A database cursor: `at` is -1 until positioned; a call that fails moves nothing. */
  class Cursor {
    const index: seq<Entry>
    var at: int
    var current: Entry

    ghost predicate Valid()
      reads this
    {
      -1 <= at < |index| && (at >= 0 ==> current == index[at])
    }

    /** The place a backward step starts from: behind the last entry until positioned. */
    ghost function Place(): nat
      requires Valid()
      reads this
    {
      if at == -1 then |index| else at
    }

    constructor (index: seq<Entry>, term: string)
      ensures Valid() && this.index == index && at == -1 && current == Entry(term, 0, true, false)
    {
      this.index := index;
      at := -1;
      current := Entry(term, 0, true, false);
    }

    method SetRange(term: string) returns (found: bool)
      requires Valid() && at == -1
      modifies this
      ensures Valid() && found == (AtOrAfter(index, term) < |index|) && Place() == AtOrAfter(index, term)
      ensures !found ==> at == -1 && current == old(current)
    {
      var a := AtOrAfter(index, term);
      found := a < |index|;
      if found {
        at, current := a, index[a];
      }
    }

    method Prev() returns (found: bool)
      requires Valid()
      modifies this
      ensures Valid() && found == (old(Place()) > 0)
      ensures found ==> at == old(Place()) - 1
      ensures !found ==> at == old(at) && current == old(current)
    {
      var target := if at == -1 then |index| - 1 else at - 1;
      found := target >= 0;
      if found {
        at, current := target, index[target];
      }
    }

    method Next() returns (found: bool)
      requires Valid()
      modifies this
      ensures Valid() && found == (old(at) + 1 < |index|)
      ensures at == (if found then old(at) + 1 else old(at)) && (!found ==> current == old(current))
    {
      found := at + 1 < |index|;
      if found {
        at, current := at + 1, index[at + 1];
      }
    }
  }

  function Back(place: nat, steps: nat): (r: nat) {
    if place >= steps then place - steps else 0
  }

  /** Where the listing starts: the term's place less the entries stepped back, or the first. */
  function Start(a: nat, position: int, step: nat): (b: nat) {
    Back(a, if position > 1 then (position - 1) * (step + 1) else 0)
  }

  method StepBack(c: Cursor, step: nat)
    requires c.Valid()
    modifies c
    ensures c.Valid() && c.Place() == Back(old(c.Place()), step + 1) && (|c.index| > 0 ==> c.at >= 0)
    ensures |c.index| == 0 ==> c.current == old(c.current)
  {
    var j := 0;
    while j <= step
      invariant c.Valid() && 0 <= j <= step + 1 && c.Place() == Back(old(c.Place()), j)
      invariant |c.index| > 0 && j > 0 ==> c.at >= 0
      invariant |c.index| == 0 ==> c.current == old(c.current)
    {
      var found := c.Prev();
      j := j + 1;
    }
  }

  /** The backing-up loops: `position - 1` times a stride of single steps. */
  method BackUp(c: Cursor, position: int, step: nat)
    requires c.Valid()
    modifies c
    ensures c.Valid() && c.Place() == Start(old(c.Place()), position, step)
    ensures |c.index| > 0 && (position > 1 || old(c.at) >= 0) ==> c.at >= 0
    ensures |c.index| == 0 ==> c.current == old(c.current)
  {
    var i := position;
    ghost var steps: nat := 0;
    while i > 1
      invariant c.Valid() && (i == position || 1 <= i <= position)
      invariant steps == if position > 1 then (position - i) * (step + 1) else 0
      invariant c.Place() == Back(old(c.Place()), steps)
      invariant |c.index| > 0 && (i < position || old(c.at) >= 0) ==> c.at >= 0
      invariant |c.index| == 0 ==> c.current == old(c.current)
      decreases i
    {
      StepBack(c, step);
      steps := steps + (step + 1);
      OneMore(position - i, step + 1);
      i := i - 1;
    }
  }

  lemma OneMore(a: int, b: int)
    ensures (a + 1) * b == a * b + b
  {
  }

  /** The stride of single steps forward; false once the index has run out. */
  method StepForward(c: Cursor, step: nat) returns (all: bool)
    requires c.Valid()
    modifies c
    ensures c.Valid() && all == (old(c.at) + step + 1 < |c.index|)
    ensures all ==> c.at == old(c.at) + step + 1
    ensures old(c.at) <= c.at
  {
    all := true;
    var i := 0;
    while i <= step
      invariant c.Valid() && 0 <= i <= step + 1
      invariant old(c.at) <= c.at && (all ==> c.at == old(c.at) + i)
      invariant !all ==> old(c.at) + i >= |c.index| && c.at == |c.index| - 1
    {
      var found := c.Next();
      if !found {
        all := false;
      }
      i := i + 1;
    }
  }

  // ------------------------------------------------------------------- the listing

  /** What the do-while loop lists from entry i on, with `more` still wanted and `temp` the last count. */
  function Listing(index: seq<Entry>, bitmapped: bool, i: nat, step: nat, more: int, temp: int): (r: seq<Shown>)
    requires i < |index|
    decreases |index| - i
  {
    var e, next := index[i], i + step + 1;
    var temp' := if e.Loads() then e.count else temp;
    var more' := if e.Special(bitmapped) then more else more - 1;
    (if e.Special(bitmapped) then [] else [Shown(e.key, temp')])
    + if next < |index| && more' != 0 then Listing(index, bitmapped, next, step, more', temp') else []
  }

  lemma ListingUnfolds(index: seq<Entry>, bitmapped: bool, i: nat, step: nat, more: int, temp: int)
    requires i < |index|
    ensures var e, next := index[i], i + step + 1;
            var temp' := if e.Loads() then e.count else temp;
            var more' := if e.Special(bitmapped) then more else more - 1;
            Listing(index, bitmapped, i, step, more, temp)
            == (if e.Special(bitmapped) then [] else [Shown(e.key, temp')])
               + if next < |index| && more' != 0 then Listing(index, bitmapped, next, step, more', temp') else []
  {
  }

  // -------------------------------------------------------------- what the listing shows

  /** The entries a stride from place i on visits. */
  function Stride(index: seq<Entry>, i: nat, step: nat): (r: seq<Entry>)
    decreases if i < |index| then |index| - i else 0
  {
    if i >= |index| then [] else [index[i]] + Stride(index, i + step + 1, step)
  }

  /** They are the entries i, i + (step + 1), i + 2 (step + 1), ... up to the end, all of them. */
  lemma {:induction false} StrideAt(index: seq<Entry>, i: nat, step: nat, k: nat)
    ensures var v, place := Stride(index, i, step), i + k * (step + 1);
            && (k < |v| <==> place < |index|)
            && (k < |v| ==> v[k] == index[place])
    decreases k
  {
    if k == 0 {
      assert 0 * (step + 1) == 0;
    } else {
      OneMore(k - 1, step + 1);
      assert (k - 1) * (step + 1) >= 0;
      if i < |index| {
        StrideAt(index, i + step + 1, step, k - 1);
      }
    }
  }

  /** From the k-th visited entry on, the numbers of those that are not special. */
  function Visible(v: seq<Entry>, bitmapped: bool, k: nat): (r: seq<nat>)
    ensures forall j :: 0 <= j < |r| ==> k <= r[j] < |v|
    decreases |v| - k
  {
    if k >= |v| then []
    else (if v[k].Special(bitmapped) then [] else [k]) + Visible(v, bitmapped, k + 1)
  }

  /** In order, and none left out. */
  lemma {:induction false} VisibleIsExact(v: seq<Entry>, bitmapped: bool, k: nat)
    ensures var r := Visible(v, bitmapped, k);
            && (forall i, j :: 0 <= i < j < |r| ==> r[i] < r[j])
            && (forall p :: p in r <==> k <= p < |v| && !v[p].Special(bitmapped))
    decreases |v| - k
  {
    hide Entry.Special;
    if k < |v| {
      VisibleIsExact(v, bitmapped, k + 1);
    }
  }

  /** The entry of global values is never listed, nor is a bitmap block of a bitmapped index; every other entry is. */
  lemma NothingElseHidden(v: seq<Entry>, bitmapped: bool, k: nat)
    requires k < |v|
    ensures k in Visible(v, bitmapped, 0) <==> v[k].key != GLOBAL_KEY && (bitmapped ==> !v[k].bitmap)
  {
    VisibleIsExact(v, bitmapped, 0);
  }

  /**
   * The preferred position: with enough entries before it, the entry found for the term is the
   * `position`-th one visited; without, the scan starts at the first entry.
   */
  lemma TermAtPosition(index: seq<Entry>, a: nat, position: int, step: nat)
    requires a < |index| && position >= 1
    ensures var v, back := Stride(index, Start(a, position, step), step), (position - 1) * (step + 1);
            if back <= a then position - 1 < |v| && v[position - 1] == index[a] else Start(a, position, step) == 0
  {
    hide Stride;
    if position == 1 {
      assert 0 * (step + 1) == 0;
    }
    StrideAt(index, Start(a, position, step), step, position - 1);
  }

  /** The count the loop holds after k visited entries: that of the last one that was loaded. */
  function Held(v: seq<Entry>, k: nat, stale: int): (r: int)
    requires k <= |v|
  {
    if k == 0 then stale
    else if v[k - 1].Loads() then v[k - 1].count
    else Held(v, k - 1, stale)
  }

  /** An entry with too little data, or of a bitmap block's size, leaves the count held as it is; any other sets it. */
  lemma HeldOver(v: seq<Entry>, k: nat, stale: int)
    requires k < |v|
    ensures Held(v, k + 1, stale) == if v[k].small || v[k].bitmap then Held(v, k, stale) else v[k].count
  {
  }

  /** Entry m is the last one before k that loads. */
  ghost predicate LastLoad(v: seq<Entry>, k: nat, m: nat)
    requires k <= |v|
  {
    m < k && v[m].Loads() && forall i :: m < i < k ==> !v[i].Loads()
  }

  lemma {:induction false} HeldIsLastLoad(v: seq<Entry>, k: nat, stale: int)
    requires k <= |v|
    ensures forall m: nat :: LastLoad(v, k, m) ==> Held(v, k, stale) == v[m].count
    ensures (forall i :: 0 <= i < k ==> !v[i].Loads()) ==> Held(v, k, stale) == stale
  {
    hide Entry.Loads;
    if k > 0 {
      HeldIsLastLoad(v, k - 1, stale);
      forall m: nat | LastLoad(v, k, m)
        ensures Held(v, k, stale) == v[m].count
      {
        if m < k - 1 {
          assert LastLoad(v, k - 1, m);
        }
      }
    }
  }

  predicate Inside(v: seq<Entry>, places: seq<nat>) {
    forall j :: 0 <= j < |places| ==> places[j] < |v|
  }

  /** The visited entries with these numbers, each with the count held when it is reached. */
  function ShowAll(v: seq<Entry>, places: seq<nat>, stale: int): (r: seq<Shown>)
    requires Inside(v, places)
    ensures |r| == |places|
    ensures forall j :: 0 <= j < |places| ==> r[j] == Shown(v[places[j]].key, Held(v, places[j] + 1, stale))
  {
    seq(|places|, j requires 0 <= j < |places| => Shown(v[places[j]].key, Held(v, places[j] + 1, stale)))
  }

  /** The first k, or all of them if k is negative. */
  function Take(s: seq<nat>, k: int): seq<nat> {
    if k < 0 || |s| <= k then s else s[..k]
  }

  lemma TakeInside(v: seq<Entry>, bitmapped: bool, k: nat, more: int)
    ensures Inside(v, Take(Visible(v, bitmapped, k), more))
  {
  }

  /**
   * From the k-th visited entry on: the listing is the first `more` entries of the stride that
   * are not special, in order, each with the last count loaded up to it. A negative number
   * lists all of them.
   */
  lemma {:induction false} ListingIsVisible(
      index: seq<Entry>, bitmapped: bool, start: nat, step: nat, k: nat, more: int, stale: int)
    requires k < |Stride(index, start, step)| && more != 0
    ensures var v, i := Stride(index, start, step), start + k * (step + 1);
            && i < |index| && Inside(v, Take(Visible(v, bitmapped, k), more))
            && Listing(index, bitmapped, i, step, more, Held(v, k, stale))
               == ShowAll(v, Take(Visible(v, bitmapped, k), more), stale)
    decreases |Stride(index, start, step)| - k
  {
    hide Listing, Stride, Visible, ShowAll, Take, Held, Inside, Entry.Special, Entry.Loads;
    var v, i := Stride(index, start, step), start + k * (step + 1);
    StrideAt(index, start, step, k);
    StrideAt(index, start, step, k + 1);
    OneMore(k, step + 1);
    TakeInside(v, bitmapped, k, more);
    ListingUnfolds(index, bitmapped, i, step, more, Held(v, k, stale));
    HeldNext(v, k, stale);
    var special := v[k].Special(bitmapped);
    var more' := if special then more else more - 1;
    if k + 1 < |v| && more' != 0 {
      ListingIsVisible(index, bitmapped, start, step, k + 1, more', stale);
    }
    TakeInside(v, bitmapped, k + 1, more');
    ShowOne(v, bitmapped, k, more, stale);
  }

  lemma HeldNext(v: seq<Entry>, k: nat, stale: int)
    requires k < |v|
    ensures Held(v, k + 1, stale) == if v[k].Loads() then v[k].count else Held(v, k, stale)
  {
  }

  /** What is shown from k on: entry k unless it is special, then what is shown from k + 1 on. */
  lemma ShowOne(v: seq<Entry>, bitmapped: bool, k: nat, more: int, stale: int)
    requires k < |v| && more != 0
    requires Inside(v, Take(Visible(v, bitmapped, k), more))
    ensures var special := v[k].Special(bitmapped);
            var more' := if special then more else more - 1;
            && Inside(v, Take(Visible(v, bitmapped, k + 1), more'))
            && ShowAll(v, Take(Visible(v, bitmapped, k), more), stale)
               == (if special then [] else [Shown(v[k].key, Held(v, k + 1, stale))])
                  + (if k + 1 < |v| && more' != 0
                     then ShowAll(v, Take(Visible(v, bitmapped, k + 1), more'), stale) else [])
  {
    hide *;
    var special := v[k].Special(bitmapped);
    var more' := if special then more else more - 1;
    TakeInside(v, bitmapped, k + 1, more');
    VisibleOne(v, bitmapped, k);
    var later := Visible(v, bitmapped, k + 1);
    TakeOne(k, later, more);
    if !special {
      ShowAllOne(v, k, Take(later, more'), stale);
    } else {
      assert [] + later == later;
    }
    ShowNone(v, stale);
  }

  lemma TakeOne(k: nat, later: seq<nat>, more: int)
    requires more != 0
    ensures Take([k] + later, more) == [k] + Take(later, more - 1)
    ensures Take(later, 0) == [] && Take([], more) == [] && Take([], more - 1) == []
  {
  }

  lemma ShowAllOne(v: seq<Entry>, k: nat, places: seq<nat>, stale: int)
    requires k < |v| && Inside(v, places)
    ensures Inside(v, [k] + places)
    ensures ShowAll(v, [k] + places, stale) == [Shown(v[k].key, Held(v, k + 1, stale))] + ShowAll(v, places, stale)
  {
    hide Held;
  }

  lemma ShowNone(v: seq<Entry>, stale: int)
    ensures Inside(v, []) && ShowAll(v, [], stale) == []
  {
  }

  lemma VisibleOne(v: seq<Entry>, bitmapped: bool, k: nat)
    requires k < |v|
    ensures Visible(v, bitmapped, k)
         == (if v[k].Special(bitmapped) then [] else [k]) + Visible(v, bitmapped, k + 1)
    ensures k + 1 == |v| ==> Visible(v, bitmapped, k + 1) == []
  {
  }

  /** The same entries with their own counts. */
  function OwnCounts(v: seq<Entry>, places: seq<nat>): (r: seq<Shown>)
    requires Inside(v, places)
    ensures |r| == |places|
    ensures forall j :: 0 <= j < |places| ==> r[j] == Shown(v[places[j]].key, v[places[j]].count)
  {
    seq(|places|, j requires 0 <= j < |places| => Shown(v[places[j]].key, v[places[j]].count))
  }

  /** Entry k is loaded itself; or the last one loaded before it, or the initial count if none was, says the same. */
  ghost predicate CountRight(v: seq<Entry>, k: nat, stale: int)
    requires k < |v|
  {
    || v[k].Loads()
    || (exists m: nat :: LastLoad(v, k, m) && v[m].count == v[k].count)
    || ((forall i :: 0 <= i < k ==> !v[i].Loads()) && stale == v[k].count)
  }

  lemma CountRightIff(v: seq<Entry>, k: nat, stale: int)
    requires k < |v|
    ensures CountRight(v, k, stale) <==> Held(v, k + 1, stale) == v[k].count
  {
    hide Entry.Loads, Held, LastLoad;
    HeldNext(v, k, stale);
    HeldIsLastLoad(v, k, stale);
    if !v[k].Loads() && exists i :: 0 <= i < k && v[i].Loads() {
      var m := LastLoadIs(v, k);
    }
  }

  lemma {:induction false} LastLoadIs(v: seq<Entry>, k: nat) returns (m: nat)
    requires k <= |v| && exists i :: 0 <= i < k && v[i].Loads()
    ensures LastLoad(v, k, m)
  {
    hide Entry.Loads;
    if v[k - 1].Loads() {
      m := k - 1;
    } else {
      m := LastLoadIs(v, k - 1);
    }
  }

  /** The listing shows its entries' own counts if and only if the count is right at every listed place. */
  lemma CountsAreOwnIff(index: seq<Entry>, bitmapped: bool, start: nat, step: nat, more: int, stale: int)
    requires start < |index| && more != 0
    ensures var v := Stride(index, start, step);
            var places := Take(Visible(v, bitmapped, 0), more);
            && Inside(v, places)
            && (Listing(index, bitmapped, start, step, more, stale) == OwnCounts(v, places)
                <==> forall j :: 0 <= j < |places| ==> CountRight(v, places[j], stale))
  {
    hide Listing, Stride, Visible, Take, ShowAll, OwnCounts, CountRight, Held;
    var v := Stride(index, start, step);
    var places := Take(Visible(v, bitmapped, 0), more);
    ListedFrom(index, bitmapped, start, step, more, stale);
    var shown, own := ShowAll(v, places, stale), OwnCounts(v, places);
    forall j | 0 <= j < |places|
      ensures shown[j] == own[j] <==> CountRight(v, places[j], stale)
    {
      CountRightIff(v, places[j], stale);
    }
    assert shown == own <==> forall j :: 0 <= j < |places| ==> shown[j] == own[j];
  }

  // ----------------------------------------------------------------------------- the scan

  /** `Endless` is a loop whose cursor does not move and whose count never reaches 0. */
  datatype Result = NoMatchingTerms | Scanned(items: seq<Shown>) | Endless

  /** The number still wanted after n turns that all stay at entry e. */
  ghost function Wanted(e: Entry, bitmapped: bool, more: int, n: nat): int
    decreases n
  {
    if n == 0 then more
    else Wanted(e, bitmapped, if e.Special(bitmapped) then more else more - 1, n - 1)
  }

  /** Staying at one entry comes to an end exactly for a positive number and an entry that is not special. */
  lemma StandingEndsIff(e: Entry, bitmapped: bool, more: int)
    requires more != 0
    ensures (exists n: nat :: n > 0 && Wanted(e, bitmapped, more, n) == 0) <==> more > 0 && !e.Special(bitmapped)
  {
    forall n: nat
      ensures Wanted(e, bitmapped, more, n) == if e.Special(bitmapped) then more else more - n
    {
      WantedAfter(e, bitmapped, more, n);
    }
    if more > 0 && !e.Special(bitmapped) {
      assert Wanted(e, bitmapped, more, more) == 0;
    }
  }

  lemma {:induction false} WantedAfter(e: Entry, bitmapped: bool, more: int, n: nat)
    ensures Wanted(e, bitmapped, more, n) == if e.Special(bitmapped) then more else more - n
    decreases n
  {
    if n > 0 {
      WantedAfter(e, bitmapped, if e.Special(bitmapped) then more else more - 1, n - 1);
    }
  }

  /** What the cursor holds after the search: the entry found, or the term it was given. */
  function Landed(index: seq<Entry>, term: string): (e: Entry) {
    var a := AtOrAfter(index, term);
    if a < |index| then index[a] else Entry(term, 0, true, false)
  }

  function Copies(x: Shown, n: nat): (r: seq<Shown>)
    ensures |r| == n && forall i :: 0 <= i < n ==> r[i] == x
  {
    seq(n, _ => x)
  }

  /** With a negative step the cursor never moves: the same entry again and again. */
  method ListInPlace(e: Entry, bitmapped: bool, numberOfTerms: int, stale: int) returns (r: Result)
    requires numberOfTerms != 0
    ensures r == Endless <==> !exists n: nat :: n > 0 && Wanted(e, bitmapped, numberOfTerms, n) == 0
    ensures r != Endless ==> numberOfTerms > 0
                             && r == Scanned(Copies(Shown(e.key, if e.Loads() then e.count else stale), numberOfTerms))
  {
    StandingEndsIff(e, bitmapped, numberOfTerms);
    if e.Special(bitmapped) || numberOfTerms < 0 {
      return Endless;
    }
    var more, temp, items := numberOfTerms, stale, [];
    while more != 0
      invariant 0 <= more <= numberOfTerms
      invariant more < numberOfTerms && e.Loads() ==> temp == e.count
      invariant !e.Loads() ==> temp == stale
      invariant items == Copies(Shown(e.key, if e.Loads() then e.count else stale), numberOfTerms - more)
    {
      if e.Loads() {
        temp := e.count;
      }
      items := items + [Shown(e.key, temp)];
      more := more - 1;
    }
    r := Scanned(items);
  }

  /**
   * The scan; asking for 0 terms returns at once. `stale` is what the uninitialised count holds
   * before any entry is loaded. In an empty index with a preferred position above 1 there is
   * nothing to step back to, and the term itself is listed. A negative step lists one entry
   * over and over.
   */
  method ScanIndex(index: seq<Entry>, bitmapped: bool, term: string, numberOfTerms: int, step: int, position: int,
                   stale: int)
    returns (r: Result)
    ensures r == NoMatchingTerms <==> numberOfTerms != 0 && AtOrAfter(index, term) == |index| && position <= 1
    ensures r == Endless ==> step < 0
    ensures numberOfTerms == 0 ==> r == Scanned([])
    ensures numberOfTerms != 0 && r.Scanned? && index != [] && step >= 0 ==>
              var v := Stride(index, Start(AtOrAfter(index, term), position, step), step);
              var places := Take(Visible(v, bitmapped, 0), numberOfTerms);
              Inside(v, places) && r.items == ShowAll(v, places, stale)
    ensures numberOfTerms != 0 && r.Scanned? && index == [] && step >= 0 ==>
              r.items == if term == GLOBAL_KEY then [] else [Shown(term, stale)]
    ensures numberOfTerms != 0 && r != NoMatchingTerms && step < 0 ==>
              var e := Landed(index, term);
              if numberOfTerms < 0 || e.Special(bitmapped) then r == Endless
              else r == Scanned(Copies(Shown(e.key, if e.Loads() then e.count else stale), numberOfTerms))
  {
    hide AtOrAfter, Entry.Loads, Entry.Special, Stride, Visible, ShowAll, Take, Inside;
    if numberOfTerms == 0 {
      return Scanned([]);
    }
    var c := new Cursor(index, term);
    var found := c.SetRange(term);
    if !found && position <= 1 {
      return NoMatchingTerms;
    }
    if step < 0 {
      StandingEndsIff(c.current, bitmapped, numberOfTerms);
      r := ListInPlace(c.current, bitmapped, numberOfTerms, stale);
      return;
    }
    BackUp(c, position, step);
    ghost var b := c.Place();
    var items := ListForward(c, bitmapped, step, numberOfTerms, stale);
    if index != [] {
      ListedFrom(index, bitmapped, b, step, numberOfTerms, stale);
    } else {
      TermEntry(term, bitmapped);
      assert c.index == [];
    }
    r := Scanned(items);
  }

  lemma TermEntry(term: string, bitmapped: bool)
    ensures var e := Entry(term, 0, true, false); !e.Loads() && (e.Special(bitmapped) <==> term == GLOBAL_KEY)
  {
  }

  lemma ListedFrom(index: seq<Entry>, bitmapped: bool, b: nat, step: nat, more: int, stale: int)
    requires b < |index| && more != 0
    ensures var v := Stride(index, b, step);
            var places := Take(Visible(v, bitmapped, 0), more);
            Inside(v, places) && Listing(index, bitmapped, b, step, more, stale) == ShowAll(v, places, stale)
  {
    hide Listing, Visible, ShowAll, Take, Inside;
    ListingIsVisible(index, bitmapped, b, step, 0, more, stale);
    assert 0 * (step + 1) == 0;
  }

  /** What the loop lists from a cursor's place on; in an empty index, just what it holds. */
  ghost function ListingAt(
      index: seq<Entry>, bitmapped: bool, at: int, current: Entry, step: nat, more: int, temp: int): seq<Shown>
    requires -1 <= at < |index| && (index != [] ==> at >= 0 && current == index[at])
  {
    if index != [] then Listing(index, bitmapped, at, step, more, temp)
    else if current.Special(bitmapped) then []
    else [Shown(current.key, if current.Loads() then current.count else temp)]
  }

  lemma ListingAtUnfolds(
      index: seq<Entry>, bitmapped: bool, at: int, current: Entry, step: nat, more: int, temp: int)
    requires -1 <= at < |index| && (index != [] ==> at >= 0 && current == index[at])
    ensures var next := at + step + 1;
            var temp' := if current.Loads() then current.count else temp;
            var more' := if current.Special(bitmapped) then more else more - 1;
            ListingAt(index, bitmapped, at, current, step, more, temp)
            == (if current.Special(bitmapped) then [] else [Shown(current.key, temp')])
               + (if next < |index| && more' != 0
                  then ListingAt(index, bitmapped, next, index[next], step, more', temp') else [])
  {
    hide Listing, Entry.Loads, Entry.Special;
    if index != [] {
      ListingUnfolds(index, bitmapped, at, step, more, temp);
    }
  }

  lemma Grouped(a: seq<Shown>, b: seq<Shown>, c: seq<Shown>)
    ensures a + (b + c) == a + b + c && a + [] == a
  {
  }

  /** The do-while loop with a step forward. */
  method ListForward(c: Cursor, bitmapped: bool, step: nat, numberOfTerms: int, stale: int)
    returns (items: seq<Shown>)
    requires c.Valid() && numberOfTerms != 0
    requires c.index != [] ==> c.at >= 0
    modifies c
    ensures items == ListingAt(c.index, bitmapped, old(c.at), old(c.current), step, numberOfTerms, stale)
  {
    hide ListingAt, Entry.Loads, Entry.Special;
    var more, temp := numberOfTerms, stale;
    items := [];
    var going := true;
    ghost var goal := ListingAt(c.index, bitmapped, c.at, c.current, step, more, temp);
    while going
      invariant c.Valid() && (c.index != [] ==> c.at >= 0)
      invariant !going ==> items == goal
      invariant going ==> items + ListingAt(c.index, bitmapped, c.at, c.current, step, more, temp) == goal
      decreases going, |c.index| - c.at
    {
      ListingAtUnfolds(c.index, bitmapped, c.at, c.current, step, more, temp);
      ghost var before := items;
      if c.current.Loads() {
        temp := c.current.count;
      }
      if !c.current.Special(bitmapped) {
        items := items + [Shown(c.current.key, temp)];
        more := more - 1;
      }
      var all := StepForward(c, step);
      going := all && more != 0;
      Grouped(before, items[|before|..],
              if going then ListingAt(c.index, bitmapped, c.at, c.current, step, more, temp) else []);
    }
  }
}
