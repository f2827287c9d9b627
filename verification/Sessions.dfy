/**
 * The client's list of open Z39.50 sessions (cheshire2/zAppInit.c): a doubly linked list
 * with head, tail and count, changed by connect, disconnect and quit.
 */
module Sessions {
  import opened Basics

  class Session {
    const fd: int
    var prev: Session?
    var next: Session?

    constructor (fd: int)
      ensures this.fd == fd && prev == null && next == null
    {
      this.fd := fd;
      prev, next := null, null;
    }
  }

  ghost function At(nodes: seq<Session>, k: int): Session? {
    if 0 <= k < |nodes| then nodes[k] else null
  }

  /** The links of node k point to its neighbours. */
  ghost predicate LinkedAt(nodes: seq<Session>, k: nat)
    requires k < |nodes|
    reads nodes
  {
    nodes[k].prev == At(nodes, k - 1) && nodes[k].next == At(nodes, k + 1)
  }

  ghost predicate Linked(nodes: seq<Session>)
    reads nodes
  {
    && (forall i, j :: 0 <= i < j < |nodes| ==> nodes[i] != nodes[j])
    && (forall k :: 0 <= k < |nodes| ==> LinkedAt(nodes, k))
  }

  /** The links of node j, other than k, once k has been taken out between its neighbours. */
  ghost predicate MendedAt(nodes: seq<Session>, k: nat, j: nat)
    requires j < |nodes|
    reads nodes
  {
    && nodes[j].prev == (if j == k + 1 then At(nodes, k - 1) else At(nodes, j - 1))
    && nodes[j].next == (if j == k - 1 then At(nodes, k + 1) else At(nodes, j + 1))
  }

  lemma MendedIsLinked(nodes: seq<Session>, k: nat)
    requires k < |nodes| && (forall i, j :: 0 <= i < j < |nodes| ==> nodes[i] != nodes[j])
    requires forall j :: 0 <= j < |nodes| && j != k ==> MendedAt(nodes, k, j)
    ensures Linked(nodes[..k] + nodes[k + 1..])
  {
    var now := nodes[..k] + nodes[k + 1..];
    forall j | 0 <= j < |now|
      ensures LinkedAt(now, j)
    {
      assert MendedAt(nodes, k, if j < k then j else j + 1);
    }
  }

  function FdsOf(nodes: seq<Session>): (r: seq<int>)
    ensures |r| == |nodes| && forall i :: 0 <= i < |r| ==> r[i] == nodes[i].fd
  {
    seq(|nodes|, i requires 0 <= i < |nodes| => nodes[i].fd)
  }

  function Without(s: seq<int>, id: int): (r: seq<int>) {
    var k := IndexOf(s, id);
    if k == -1 then s else s[..k] + s[k + 1..]
  }

  lemma FirstAt(nodes: seq<Session>, k: nat, id: int)
    requires k < |nodes| && nodes[k].fd == id && forall j :: 0 <= j < k ==> nodes[j].fd != id
    ensures IndexOf(FdsOf(nodes), id) == k && id in FdsOf(nodes)
    ensures Without(FdsOf(nodes), id) == FdsOf(nodes[..k] + nodes[k + 1..])
  {
  }

  lemma NotThere(nodes: seq<Session>, id: int)
    requires forall j :: 0 <= j < |nodes| ==> nodes[j].fd != id
    ensures id !in FdsOf(nodes) && Without(FdsOf(nodes), id) == FdsOf(nodes)
  {
  }

  lemma LinksOn(nodes: seq<Session>, k: nat)
    requires Linked(nodes) && k < |nodes|
    ensures nodes[k].next == At(nodes, k + 1)
  {
    assert LinkedAt(nodes, k);
  }

  /** The first position with a property, or -1. */
  function FirstWhere(s: seq<int>, same: int -> bool): (k: int)
    ensures -1 <= k < |s|
    ensures k == -1 ==> forall j :: 0 <= j < |s| ==> !same(s[j])
    ensures k != -1 ==> same(s[k]) && forall j :: 0 <= j < k ==> !same(s[j])
    decreases |s|
  {
    if s == [] then -1
    else if same(s[0]) then 0
    else
      var k := FirstWhere(s[1..], same);
      assert s == [s[0]] + s[1..];
      if k == -1 then -1 else k + 1
  }

  // ------------------------------------------------------------------- freed sessions

  /** One of the first n sessions of a list has been freed. */
  ghost predicate Reached(nodes: seq<Session>, n: int, freed: seq<Session>) {
    exists j :: 0 <= j < n && j < |nodes| && nodes[j] in freed
  }

  /** No session in the list has been freed. */
  ghost predicate Live(nodes: seq<Session>, freed: seq<Session>) {
    forall j :: 0 <= j < |nodes| ==> nodes[j] !in freed
  }

  /** There are sessions in the list, and all of them have been freed. */
  ghost predicate Dead(nodes: seq<Session>, freed: seq<Session>) {
    nodes != [] && forall j :: 0 <= j < |nodes| ==> nodes[j] in freed
  }

  lemma NothingReached(nodes: seq<Session>, freed: seq<Session>)
    ensures !Reached(nodes, 0, freed)
  {
  }

  lemma ReachedMore(nodes: seq<Session>, n: nat, freed: seq<Session>)
    requires n < |nodes|
    ensures Reached(nodes, n + 1, freed) <==> Reached(nodes, n, freed) || nodes[n] in freed
  {
  }

  lemma ReachedSome(nodes: seq<Session>, n: int, freed: seq<Session>)
    ensures Live(nodes, freed) ==> !Reached(nodes, n, freed)
    ensures Dead(nodes, freed) && n > 0 ==> Reached(nodes, n, freed)
  {
    if Dead(nodes, freed) && n > 0 {
      assert nodes[0] in freed;
    }
  }

  /** The session freed last was listed at k and no longer is: the others are still live. */
  lemma LiveWithout(nodes: seq<Session>, k: nat, freed: seq<Session>)
    requires Linked(nodes) && k < |nodes| && Live(nodes, freed)
    ensures Live(nodes[..k] + nodes[k + 1..], freed + [nodes[k]])
  {
  }

  /** A session further on is not among those freed before it. */
  lemma NotYetFreed(nodes: seq<Session>, n: nat, freed: seq<Session>)
    requires Linked(nodes) && n < |nodes| && Live(nodes, freed)
    ensures nodes[n] !in freed + nodes[..n]
  {
  }

  class Association {
    var head: Session?
    var tail: Session?
    var counts: int
    ghost var nodes: seq<Session>

    ghost predicate Valid()
      reads this, nodes
    {
      && Linked(nodes)
      && head == At(nodes, 0) && tail == At(nodes, |nodes| - 1) && counts == |nodes|
    }

    /** The descriptors of the open sessions, in the order they were connected. */
    ghost function Fds(): seq<int>
      reads this
    {
      FdsOf(nodes)
    }

    constructor ()
      ensures Valid() && nodes == []
    {
      head, tail, counts, nodes := null, null, 0, [];
    }

    /** `LookupAssociation`; `read` says whether it came by a freed session. */
    method Lookup(id: int, freed: seq<Session>) returns (session: Session?, read: bool)
      requires Valid()
      ensures session == At(nodes, IndexOf(Fds(), id))
      ensures session == null <==> id !in Fds()
      ensures read <==> Reached(nodes, if id in Fds() then IndexOf(Fds(), id) + 1 else |nodes|, freed)
    {
      hide IndexOf, Reached;
      session, read := head, false;
      ghost var k := 0;
      NothingReached(nodes, freed);
      while session != null
        invariant 0 <= k <= |nodes| && session == At(nodes, k)
        invariant forall j :: 0 <= j < k ==> nodes[j].fd != id
        invariant read <==> Reached(nodes, k, freed)
        decreases |nodes| - k
      {
        ReachedMore(nodes, k, freed);
        read := read || session in freed;
        if session.fd == id {
          assert Fds()[k] == id;
          return;
        }
        assert LinkedAt(nodes, k);
        session := session.next;
        k := k + 1;
      }
      assert id !in Fds();
    }

    /** `SearchAssociation`, with the comparison it makes as a parameter. */
    method Search(same: int -> bool, freed: seq<Session>) returns (session: Session?, read: bool)
      requires Valid()
      ensures session == At(nodes, FirstWhere(Fds(), same))
      ensures session == null <==> FirstWhere(Fds(), same) == -1
      ensures read <==> Reached(nodes, if session != null then FirstWhere(Fds(), same) + 1 else |nodes|, freed)
    {
      hide FirstWhere, Reached;
      session, read := head, false;
      ghost var k := 0;
      NothingReached(nodes, freed);
      while session != null
        invariant 0 <= k <= |nodes| && session == At(nodes, k)
        invariant forall j :: 0 <= j < k ==> !same(nodes[j].fd)
        invariant read <==> Reached(nodes, k, freed)
        decreases |nodes| - k
      {
        ReachedMore(nodes, k, freed);
        read := read || session in freed;
        if same(session.fd) {
          assert Fds()[k] == session.fd;
          return;
        }
        assert LinkedAt(nodes, k);
        session := session.next;
        k := k + 1;
      }
      assert forall j :: 0 <= j < |nodes| ==> !same(Fds()[j]);
    }

    /** The list part of `ConnectCmd`: a new session goes to the tail. */
    method Insert(session: Session, freed: seq<Session>) returns (read: bool)
      requires Valid() && session !in nodes
      modifies this, nodes, session
      ensures Valid() && nodes == old(nodes) + [session] && Fds() == old(Fds()) + [session.fd]
      ensures read <==> old(nodes) != [] && old(nodes)[|old(nodes)| - 1] in freed
    {
      read := false;
      assert forall k :: 0 <= k < |nodes| ==> LinkedAt(nodes, k);
      session.prev := null;
      session.next := null;
      if head == null {
        head := session;
        tail := head;
        counts := 1;
      } else {
        session.prev := tail;
        read := tail in freed;
        tail.next := session;
        tail := session;
        counts := counts + 1;
      }
      ghost var was := nodes;
      nodes := nodes + [session];
      forall k | 0 <= k < |nodes|
        ensures LinkedAt(nodes, k)
      {
        assert k < |was| ==> old(LinkedAt(was, k));
      }
    }

    /** Takes node k out of the ghost sequence; the real links have been mended around it. */
    ghost method Drop(k: nat)
      requires k < |nodes| && (forall i, j :: 0 <= i < j < |nodes| ==> nodes[i] != nodes[j])
      requires head == (if k == 0 then At(nodes, 1) else At(nodes, 0))
      requires tail == (if k == |nodes| - 1 then At(nodes, |nodes| - 2) else At(nodes, |nodes| - 1))
      requires counts == |nodes| - 1
      requires forall j :: 0 <= j < |nodes| && j != k ==> MendedAt(nodes, k, j)
      modifies this`nodes
      ensures nodes == old(nodes)[..k] + old(nodes)[k + 1..] && Valid()
    {
      hide Linked, LinkedAt, MendedAt;
      MendedIsLinked(nodes, k);
      nodes := nodes[..k] + nodes[k + 1..];
    }

    /** The first two branches of the removal: the head goes. */
    method RemoveHead(tmp: Session)
      requires Valid() && nodes != [] && tmp == head
      modifies this, nodes
      ensures Valid() && nodes == old(nodes)[..0] + old(nodes)[1..]
    {
      assert LinkedAt(nodes, 0);
      if tmp == tail {
        head := null;
        tail := null;
        counts := 0;
      } else {
        assert LinkedAt(nodes, 1);
        head := tmp.next;
        tmp.next.prev := null;
        counts := counts - 1;
        forall j | 0 < j < |nodes|
          ensures MendedAt(nodes, 0, j)
        {
          assert old(LinkedAt(nodes, j));
        }
      }
      Drop(0);
    }

    /**
     * `RemoveAssociation`; it reads through the head, so the list must not be empty. It comes
     * by all sessions up to the one removed and the one behind that, whose link it mends.
     */
    method Remove(id: int, freed: seq<Session>) returns (ok: bool, read: bool)
      requires Valid() && nodes != []
      modifies this, nodes
      ensures Valid() && ok == (id in old(Fds()))
      ensures Fds() == Without(old(Fds()), id)
      ensures !ok ==> nodes == old(nodes)
      ensures ok ==> var k := IndexOf(old(Fds()), id); nodes == old(nodes)[..k] + old(nodes)[k + 1..]
      ensures read <==> Reached(old(nodes), if ok then IndexOf(old(Fds()), id) + 2 else |old(nodes)|, freed)
    {
      hide IndexOf, Without, Linked, Reached;
      var tmp := head;
      NothingReached(nodes, freed);
      if tmp.fd == id {
        FirstAt(nodes, 0, id);
        read := TouchNext(0, tmp, false, freed);
        RemoveHead(tmp);
        return true, read;
      }
      ok, read := RemoveLater(id, freed);
    }

    /** The loop of the removal, once the head has turned out not to be the session. */
    method RemoveLater(id: int, freed: seq<Session>) returns (ok: bool, read: bool)
      requires Valid() && nodes != [] && nodes[0].fd != id
      modifies this, nodes
      ensures Valid() && ok == (id in old(Fds()))
      ensures Fds() == Without(old(Fds()), id)
      ensures !ok ==> nodes == old(nodes)
      ensures ok ==> var k := IndexOf(old(Fds()), id); nodes == old(nodes)[..k] + old(nodes)[k + 1..]
      ensures read <==> Reached(old(nodes), if ok then IndexOf(old(Fds()), id) + 2 else |old(nodes)|, freed)
    {
      hide IndexOf, Without, Linked, Reached;
      var tmp := head;
      NothingReached(nodes, freed);
      read := false;
      ghost var k := 0;
      while tmp != null
        invariant 0 <= k <= |nodes| && tmp == At(nodes, k)
        invariant forall j :: 0 <= j < k ==> nodes[j].fd != id
        invariant Valid() && nodes == old(nodes) && nodes[0].fd != id
        invariant read <==> Reached(nodes, k, freed)
        decreases |nodes| - k
      {
        if tmp.fd == id {
          FirstAt(nodes, k, id);
          read := TouchNext(k, tmp, read, freed);
          Unlink(k, tmp);
          return true, read;
        }
        ReachedMore(nodes, k, freed);
        read := read || tmp in freed;
        LinksOn(nodes, k);
        tmp := tmp.next;
        k := k + 1;
      }
      NotThere(nodes, id);
      return false, read;
    }

    /** The session to be removed is read, and the one behind it, if any, written. */
    method TouchNext(ghost k: nat, tmp: Session, before: bool, freed: seq<Session>) returns (read: bool)
      requires Valid() && k < |nodes| && tmp == nodes[k] && before == Reached(nodes, k, freed)
      ensures read == Reached(nodes, k + 2, freed)
    {
      hide Linked;
      LinksOn(nodes, k);
      read := before || tmp in freed || (tmp.next != null && tmp.next in freed);
    }

    /** The loop's inner branches: mend the neighbours of a node that is not the head. */
    method Unlink(ghost k: nat, tmp: Session)
      requires Valid() && 0 < k < |nodes| && tmp == nodes[k]
      modifies this, nodes
      ensures Valid() && nodes == old(nodes)[..k] + old(nodes)[k + 1..]
    {
      assert LinkedAt(nodes, k) && LinkedAt(nodes, k - 1);
      if tmp == tail {
        tail := tmp.prev;
        tmp.prev.next := null;
      } else {
        assert LinkedAt(nodes, k + 1);
        tmp.prev.next := tmp.next;
        tmp.next.prev := tmp.prev;
      }
      counts := counts - 1;
      forall j | 0 <= j < |nodes| && j != k
        ensures MendedAt(nodes, k, j)
      {
        assert old(LinkedAt(nodes, j));
      }
      Drop(k);
    }

    /** The end of `QuitCmd`. */
    method Clear()
      modifies this
      ensures Valid() && nodes == []
    {
      head, tail, counts, nodes := null, null, 0, [];
    }
  }

  // --------------------------------------------------------------------- every run

  /**
   * Connect comes with the comparison its search for an older session makes, with what it finds
   * about the state of sessions, and with the descriptor of the new connection, if there is one.
   */
  datatype Command =
    | Connect(same: int -> bool, isOpen: int -> bool, result: Option<int>)
    | Disconnect(ids: seq<int>)
    | DisconnectAll
    | Quit
  {
    /** A command that names nothing looks at nothing. */
    predicate Idle() { Disconnect? && ids == [] }
  }

  /** The open sessions; or freed sessions still in the list; or one of those has been read. */
  datatype State = Listed(fds: seq<int>) | Dangling | FreedRead

  function DropAll(s: seq<int>, ids: seq<int>): (r: seq<int>) {
    if ids == [] then s else DropAll(Without(s, ids[0]), ids[1..])
  }

  function Added(s: seq<int>, result: Option<int>): (r: seq<int>) {
    match result
    case None => s
    case Some(fd) => s + [fd]
  }

  /** Connect: a session still open is used again, one shut down makes way for the new one. */
  function Connected(s: seq<int>, same: int -> bool, isOpen: int -> bool, result: Option<int>): (r: seq<int>) {
    var k := FirstWhere(s, same);
    if k == -1 then Added(s, result)
    else if isOpen(s[k]) then s
    else Added(Without(s, s[k]), result)
  }

  function Effect(s: State, c: Command): (r: State) {
    match s
    case FreedRead => FreedRead
    case Dangling => if c.Idle() then Dangling else FreedRead
    case Listed(fds) =>
      match c
      case Connect(same, isOpen, result) => Listed(Connected(fds, same, isOpen, result))
      case Disconnect(ids) => Listed(DropAll(fds, ids))
      case DisconnectAll => if fds == [] then Listed([]) else Dangling
      case Quit => Listed([])
  }

  function After(s: State, cs: seq<Command>): (r: State)
    decreases |cs|
  {
    if cs == [] then s else After(Effect(s, cs[0]), cs[1..])
  }

  /** Take the session out of the list and free it. */
  method Release(a: Association, session: Session, freed: seq<Session>, ghost k: nat)
    returns (freed': seq<Session>, read: bool)
    requires a.Valid() && k < |a.nodes| && session == a.nodes[k]
    requires forall j :: 0 <= j < k ==> a.nodes[j].fd != session.fd
    modifies a, a.nodes
    ensures a.Valid() && a.Fds() == Without(old(a.Fds()), session.fd)
    ensures forall j :: 0 <= j < |a.nodes| ==> a.nodes[j] in old(a.nodes)
    ensures freed' == freed + [session]
    ensures Live(old(a.nodes), freed) ==> !read && Live(a.nodes, freed')
    ensures Dead(old(a.nodes), freed) ==> read
  {
    hide Linked, IndexOf, Without, Live, Dead, Reached;
    ghost var nodes := a.nodes;
    FirstAt(nodes, k, session.fd);
    if Live(nodes, freed) {
      LiveWithout(nodes, k, freed);
    }
    var ok;
    ok, read := a.Remove(session.fd, freed);
    read := read || session in freed;
    freed' := freed + [session];
    Fewer(nodes, a.nodes, k);
    ReachedSome(nodes, k + 2, freed);
    LiveAt(nodes, k, freed);
  }

  lemma LiveAt(nodes: seq<Session>, k: nat, freed: seq<Session>)
    requires k < |nodes|
    ensures Live(nodes, freed) ==> nodes[k] !in freed
    ensures Dead(nodes, freed) ==> nodes[k] in freed
  {
  }

  /** Look a session up, and release it if it is there. */
  method DropOne(a: Association, id: int, freed: seq<Session>) returns (freed': seq<Session>, read: bool)
    requires a.Valid()
    modifies a, a.nodes
    ensures a.Valid() && a.Fds() == Without(old(a.Fds()), id)
    ensures forall k :: 0 <= k < |a.nodes| ==> a.nodes[k] in old(a.nodes)
    ensures Live(old(a.nodes), freed) ==> !read && Live(a.nodes, freed')
    ensures Dead(old(a.nodes), freed) ==> read
  {
    hide Linked, IndexOf, Without, Live, Dead, Reached;
    var session, look := a.Lookup(id, freed);
    ghost var k := IndexOf(a.Fds(), id);
    ReachedSome(a.nodes, if session != null then k + 1 else |a.nodes|, freed);
    DeadIsThere(a.nodes, freed);
    if session != null {
      freed', read := Release(a, session, freed, k);
      read := look || read;
    } else {
      NotPresent(a.Fds(), id);
      freed', read := freed, look;
    }
  }

  lemma DeadIsThere(nodes: seq<Session>, freed: seq<Session>)
    ensures Dead(nodes, freed) ==> nodes != []
  {
  }

  /** `DisconnectCmd` with session ids: look each one up, and remove it if it is there. */
  method DisconnectEach(a: Association, ids: seq<int>, freed: seq<Session>)
    returns (freed': seq<Session>, read: bool)
    requires a.Valid()
    modifies a, a.nodes
    ensures a.Valid() && a.Fds() == DropAll(old(a.Fds()), ids)
    ensures forall k :: 0 <= k < |a.nodes| ==> a.nodes[k] in old(a.nodes)
    ensures Live(old(a.nodes), freed) ==> !read && Live(a.nodes, freed')
    ensures Dead(old(a.nodes), freed) ==> (read <==> ids != [])
    ensures ids == [] ==> a.nodes == old(a.nodes) && freed' == freed
  {
    hide Linked, IndexOf, Without, Live, Dead;
    var i := 0;
    freed', read := freed, false;
    assert ids[0..] == ids;
    while i < |ids|
      invariant 0 <= i <= |ids| && a.Valid() && DropAll(a.Fds(), ids[i..]) == DropAll(old(a.Fds()), ids)
      invariant forall k :: 0 <= k < |a.nodes| ==> a.nodes[k] in old(a.nodes)
      invariant Live(old(a.nodes), freed) ==> !read && Live(a.nodes, freed')
      invariant Dead(old(a.nodes), freed) && i > 0 ==> read
      invariant i == 0 ==> !read && a.nodes == old(a.nodes) && freed' == freed
    {
      assert ids[i..][1..] == ids[i + 1..];
      var now;
      freed', now := DropOne(a, ids[i], freed');
      read := read || now;
      i := i + 1;
    }
  }

  lemma Fewer(was: seq<Session>, now: seq<Session>, k: int)
    requires 0 <= k < |was| && now == was[..k] + was[k + 1..]
    ensures forall j :: 0 <= j < |now| ==> now[j] in was
  {
  }

  lemma NotPresent(s: seq<int>, id: int)
    requires id !in s
    ensures Without(s, id) == s
  {
  }

  /** `ConnectCmd`: the search, the older session's removal, and the new session. */
  method ConnectOne(a: Association, same: int -> bool, isOpen: int -> bool, result: Option<int>, freed: seq<Session>)
    returns (freed': seq<Session>, read: bool)
    requires a.Valid()
    modifies a, a.nodes
    ensures a.Valid() && a.Fds() == Connected(old(a.Fds()), same, isOpen, result)
    ensures forall k :: 0 <= k < |a.nodes| ==> a.nodes[k] in old(a.nodes) || fresh(a.nodes[k])
    ensures Live(old(a.nodes), freed) ==> !read && Live(a.nodes, freed')
    ensures Dead(old(a.nodes), freed) ==> read
  {
    hide Linked, IndexOf, Without, FirstWhere, Live, Dead, Reached;
    var session, look := a.Search(same, freed);
    ghost var k := FirstWhere(a.Fds(), same);
    ReachedSome(a.nodes, if session != null then k + 1 else |a.nodes|, freed);
    DeadIsThere(a.nodes, freed);
    freed', read := freed, look;
    if session != null {
      if isOpen(session.fd) {
        return;
      }
      FirstSame(a.Fds(), same, k);
      freed', read := Release(a, session, freed, k);
      read := look || read;
    }
    if result.Some? {
      var now := AddNew(a, result.value, freed');
      read := read || now;
    }
  }

  /** The first session the search accepts is the first one with its descriptor. */
  lemma FirstSame(s: seq<int>, same: int -> bool, k: int)
    requires 0 <= k < |s| && k == FirstWhere(s, same)
    ensures forall j :: 0 <= j < k ==> s[j] != s[k]
  {
  }

  method AddNew(a: Association, fd: int, freed: seq<Session>) returns (read: bool)
    requires a.Valid()
    modifies a, a.nodes
    ensures a.Valid() && a.Fds() == old(a.Fds()) + [fd]
    ensures forall k :: 0 <= k < |a.nodes| ==> a.nodes[k] in old(a.nodes) || fresh(a.nodes[k])
    ensures Live(old(a.nodes), freed) ==> !read && Live(a.nodes, freed)
  {
    hide Linked;
    var session := new Session(fd);
    read := a.Insert(session, freed);
  }

  /**
   * `disconnect all`: every session is closed, then every one freed, once and in order, its
   * link read before; and the list is left as it is.
   */
  method FreeAll(a: Association, freed: seq<Session>) returns (freed': seq<Session>, read: bool)
    requires a.Valid()
    ensures freed' == freed + a.nodes
    ensures Live(a.nodes, freed) ==> !read
    ensures Dead(a.nodes, freed) ==> read
  {
    hide Linked, Live, Dead, Reached;
    read := CloseAll(a, freed);
    freed' := freed;
    var session := a.head;
    ghost var n := 0;
    ReachedSome(a.nodes, |a.nodes|, freed);
    DeadIsThere(a.nodes, freed);
    while session != null
      invariant 0 <= n <= |a.nodes| && freed' == freed + a.nodes[..n] && session == At(a.nodes, n)
      invariant Live(a.nodes, freed) ==> !read
      invariant Dead(a.nodes, freed) ==> read
      decreases |a.nodes| - n
    {
      var tmp := session;
      if Live(a.nodes, freed) {
        NotYetFreed(a.nodes, n, freed);
      }
      read := read || tmp in freed';
      LinksOn(a.nodes, n);
      session := session.next;
      freed' := freed' + [tmp];
      n := n + 1;
    }
  }

  /** The first loop of `disconnect all` and quit: each session's connection is closed. */
  method CloseAll(a: Association, freed: seq<Session>) returns (read: bool)
    requires a.Valid()
    ensures read <==> Reached(a.nodes, |a.nodes|, freed)
  {
    hide Linked, Reached;
    read := false;
    var session := a.head;
    ghost var n := 0;
    NothingReached(a.nodes, freed);
    while session != null
      invariant 0 <= n <= |a.nodes| && session == At(a.nodes, n) && (read <==> Reached(a.nodes, n, freed))
      decreases |a.nodes| - n
    {
      ReachedMore(a.nodes, n, freed);
      read := read || session in freed;
      LinksOn(a.nodes, n);
      session := session.next;
      n := n + 1;
    }
  }

  /** One command, with the sessions freed so far; `read` if it comes by one of them. */
  method Perform(a: Association, c: Command, freed: seq<Session>) returns (freed': seq<Session>, read: bool)
    requires a.Valid() && (Live(a.nodes, freed) || Dead(a.nodes, freed))
    modifies a, a.nodes
    ensures a.Valid()
    ensures forall k :: 0 <= k < |a.nodes| ==> a.nodes[k] in old(a.nodes) || fresh(a.nodes[k])
    ensures Dead(old(a.nodes), freed) ==> (read <==> !c.Idle()) && (c.Idle() ==> Dead(a.nodes, freed'))
    ensures Live(old(a.nodes), freed) ==> !read
    ensures Live(old(a.nodes), freed) ==>
              match Effect(Listed(old(a.Fds())), c)
              case Listed(fds) => Live(a.nodes, freed') && a.Fds() == fds
              case Dangling => Dead(a.nodes, freed')
              case FreedRead => false
  {
    hide Linked, IndexOf, Without, DropAll, Connected;
    match c
    case Connect(same, isOpen, result) =>
      freed', read := ConnectOne(a, same, isOpen, result, freed);
    case Disconnect(ids) =>
      freed', read := DisconnectEach(a, ids, freed);
    case DisconnectAll =>
      freed', read := FreeAll(a, freed);
    case Quit =>
      freed', read := FreeAll(a, freed);
      a.Clear();
  }

  /**
   * Every run of commands, up to the first that comes by a freed session: the list is well
   * formed and holds what the commands say, and no session in it has been freed, or all have.
   */
  method Execute(cs: seq<Command>) returns (a: Association, freed: seq<Session>, safe: bool)
    ensures a.Valid()
    ensures match After(Listed([]), cs)
            case Listed(fds) => safe && Live(a.nodes, freed) && a.Fds() == fds
            case Dangling => safe && Dead(a.nodes, freed)
            case FreedRead => !safe
  {
    hide Linked, Effect, Live, Dead;
    a := new Association();
    freed, safe := [], true;
    ghost var s := Listed([]);
    var i := 0;
    assert cs[0..] == cs && a.Fds() == [];
    NothingListed(freed);
    while i < |cs|
      invariant 0 <= i <= |cs| && a.Valid() && fresh(a) && (forall k :: 0 <= k < |a.nodes| ==> fresh(a.nodes[k]))
      invariant safe && Stands(s, a, freed)
      invariant After(s, cs[i..]) == After(Listed([]), cs)
    {
      assert cs[i..][1..] == cs[i + 1..];
      ghost var was := s;
      s := Effect(s, cs[i]);
      var read;
      freed, read := Perform(a, cs[i], freed);
      Stepped(was, cs[i]);
      if read {
        safe := false;
        ReadStays(cs[i + 1..]);
        return;
      }
      i := i + 1;
    }
  }

  /** What a state of the run says about the list. */
  ghost predicate Stands(s: State, a: Association, freed: seq<Session>)
    reads a
  {
    match s
    case Listed(fds) => Live(a.nodes, freed) && a.Fds() == fds
    case Dangling => Dead(a.nodes, freed)
    case FreedRead => false
  }

  lemma NothingListed(freed: seq<Session>)
    ensures Live([], freed)
  {
  }

  lemma Stepped(s: State, c: Command)
    ensures s.Listed? ==> Effect(s, c) != FreedRead
    ensures s.Dangling? ==> Effect(s, c) == if c.Idle() then Dangling else FreedRead
  {
  }

  lemma {:induction false} ReadStays(cs: seq<Command>)
    ensures After(FreedRead, cs) == FreedRead
    decreases |cs|
  {
    if cs != [] {
      ReadStays(cs[1..]);
    }
  }

  // -------------------------------------------------------------- which runs are safe

  /** Once sessions are freed in the list, any command that says something reads one. */
  lemma {:induction false} DanglingRuns(cs: seq<Command>)
    ensures !After(Dangling, cs).Listed?
    ensures After(Dangling, cs) == FreedRead <==> exists j :: 0 <= j < |cs| && !cs[j].Idle()
    decreases |cs|
  {
    if cs != [] {
      if cs[0].Idle() {
        DanglingRuns(cs[1..]);
        assert forall j :: 0 < j < |cs| ==> cs[j] == cs[1..][j - 1];
      } else {
        ReadStays(cs[1..]);
      }
    }
  }

  /** Command i frees sessions in the list, and command j behind it is not an empty disconnect. */
  ghost predicate ReadsFreed(s: seq<int>, cs: seq<Command>, i: nat, j: nat) {
    && i < j < |cs| && cs[i].DisconnectAll? && !cs[j].Idle()
    && After(Listed(s), cs[..i]).Listed? && After(Listed(s), cs[..i]).fds != []
  }

  /** A run reads a freed session if and only if anything follows a `disconnect all` of a list with sessions in it. */
  lemma {:induction false} FreedReadIff(s: seq<int>, cs: seq<Command>)
    ensures After(Listed(s), cs) == FreedRead <==> exists i: nat, j: nat :: ReadsFreed(s, cs, i, j)
    decreases |cs|
  {
    hide DropAll, Connected;
    if cs != [] {
      var s', rest := Effect(Listed(s), cs[0]), cs[1..];
      forall i: nat | 0 < i <= |cs|
        ensures After(Listed(s), cs[..i]) == After(s', rest[..i - 1])
      {
        assert cs[..i][1..] == rest[..i - 1];
      }
      if s'.Listed? {
        FreedReadIff(s'.fds, rest);
        FreedReadLater(s, cs, s'.fds);
      } else {
        FreedReadNow(s, cs);
      }
    }
  }

  lemma FreedReadLater(s: seq<int>, cs: seq<Command>, s': seq<int>)
    requires cs != [] && Effect(Listed(s), cs[0]) == Listed(s')
    requires forall i: nat | 0 < i <= |cs| :: After(Listed(s), cs[..i]) == After(Listed(s'), cs[1..][..i - 1])
    ensures (exists i: nat, j: nat :: ReadsFreed(s, cs, i, j))
       <==> (exists i: nat, j: nat :: ReadsFreed(s', cs[1..], i, j))
  {
    hide After, DropAll, Connected;
    var rest := cs[1..];
    if i: nat, j: nat :| ReadsFreed(s, cs, i, j) {
      if i == 0 {
        FirstState(s, cs);
      } else {
        assert ReadsFreed(s', rest, i - 1, j - 1);
      }
    }
    if i: nat, j: nat :| ReadsFreed(s', rest, i, j) {
      assert cs[i + 1] == rest[i] && cs[j + 1] == rest[j];
      assert ReadsFreed(s, cs, i + 1, j + 1);
    }
  }

  lemma FirstState(s: seq<int>, cs: seq<Command>)
    ensures After(Listed(s), cs[..0]) == Listed(s)
  {
  }

  lemma FreedReadNow(s: seq<int>, cs: seq<Command>)
    requires cs != [] && Effect(Listed(s), cs[0]) == Dangling
    requires forall i: nat | 0 < i <= |cs| :: After(Listed(s), cs[..i]) == After(Dangling, cs[1..][..i - 1])
    ensures After(Listed(s), cs) == FreedRead <==> exists i: nat, j: nat :: ReadsFreed(s, cs, i, j)
  {
    hide DropAll, Connected;
    var rest := cs[1..];
    FirstState(s, cs);
    DanglingRuns(rest);
    if j: nat :| j < |rest| && !rest[j].Idle() {
      assert ReadsFreed(s, cs, 0, j + 1);
    }
    if i: nat, j: nat :| ReadsFreed(s, cs, i, j) {
      if i > 0 {
        DanglingRuns(rest[..i - 1]);
      }
      assert i == 0 && rest[j - 1] == cs[j];
    }
  }

  ghost predicate Distinct(s: seq<int>) {
    forall i, j :: 0 <= i < j < |s| ==> s[i] != s[j]
  }

  /** A descriptor handed out by connect is not one still in use. */
  ghost predicate FreshDescriptors(s: State, cs: seq<Command>)
    decreases |cs|
  {
    cs == [] || (FreshOne(s, cs[0]) && FreshDescriptors(Effect(s, cs[0]), cs[1..]))
  }

  ghost predicate FreshOne(s: State, c: Command) {
    s.Listed? && c.Connect? && c.result.Some? ==>
      var k := FirstWhere(s.fds, c.same);
      c.result.value !in (if k == -1 then s.fds else Without(s.fds, s.fds[k]))
  }

  /** With distinct descriptors, removing one removes it and nothing else. */
  lemma WithoutIsExact(s: seq<int>, id: int)
    requires Distinct(s)
    ensures Distinct(Without(s, id))
    ensures forall x :: x in Without(s, id) <==> x in s && x != id
  {
  }

  /**
   * After a connect the list has what it had, without the session that made way, and the new
   * session, if there is one, last; an older session still open leaves everything as it is.
   */
  lemma ConnectIsExact(s: seq<int>, same: int -> bool, isOpen: int -> bool, result: Option<int>)
    requires Distinct(s)
    ensures var r, k := Connected(s, same, isOpen, result), FirstWhere(s, same);
            if k != -1 && isOpen(s[k]) then r == s
            else
              && (forall x :: x in r <==> (x in s && (k == -1 || x != s[k])) || result == Some(x))
              && (result.Some? ==> r != [] && r[|r| - 1] == result.value)
              && |r| == |s| - (if k == -1 then 0 else 1) + (if result.Some? then 1 else 0)
  {
    hide FirstWhere, Distinct, Without;
    var k := FirstWhere(s, same);
    if k != -1 {
      WithoutIsExact(s, s[k]);
      WithoutOne(s, s[k]);
    }
  }

  lemma WithoutOne(s: seq<int>, id: int)
    requires id in s
    ensures |Without(s, id)| == |s| - 1
  {
  }

  lemma {:induction false} DropAllIsExact(s: seq<int>, ids: seq<int>)
    requires Distinct(s)
    ensures Distinct(DropAll(s, ids))
    ensures forall x :: x in DropAll(s, ids) <==> x in s && x !in ids
    decreases |ids|
  {
    hide Without, Distinct;
    if ids != [] {
      WithoutIsExact(s, ids[0]);
      DropAllIsExact(Without(s, ids[0]), ids[1..]);
      assert forall x :: x in ids <==> x == ids[0] || x in ids[1..];
    }
  }

  /** In every run with fresh descriptors, no descriptor is listed twice. */
  lemma {:induction false} RunsStayDistinct(s: State, cs: seq<Command>)
    requires (s.Listed? ==> Distinct(s.fds)) && FreshDescriptors(s, cs)
    ensures After(s, cs).Listed? ==> Distinct(After(s, cs).fds)
    decreases |cs|
  {
    hide DropAll, Without, FreshOne;
    if cs != [] {
      if s.Listed? {
        OneStaysDistinct(s.fds, cs[0]);
      }
      RunsStayDistinct(Effect(s, cs[0]), cs[1..]);
    }
  }

  lemma OneStaysDistinct(s: seq<int>, c: Command)
    requires Distinct(s) && FreshOne(Listed(s), c)
    ensures Effect(Listed(s), c).Listed? ==> Distinct(Effect(Listed(s), c).fds)
  {
    hide DropAll, Without;
    match c
    case Disconnect(ids) => DropAllIsExact(s, ids);
    case Connect(same, _, _) =>
      var k := FirstWhere(s, same);
      if k != -1 {
        WithoutIsExact(s, s[k]);
      }
    case _ =>
  }
}
