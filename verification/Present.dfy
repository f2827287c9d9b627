/**
 * The chunked Present loop of `PresentCmd2` (cheshire2/zAppInit.c:887-937) against an
 * arbitrary server, after the Present service of ANSI/NISO Z39.50-1995, section 3.2.3.1.
 */
module Present {
  import opened Basics

  /** What one Present request came back with. */
  datatype Reply = Records(count: int) | Failure(diagnostic: bool)

  /** A server may answer each call as it likes: call number, start point, records asked for. */
  type Server = (nat, int, int) -> Reply

  /** It never returns more than it was asked for, nor less than nothing. */
  ghost predicate Modest(server: Server) {
    forall k, s, c :: c >= 0 && server(k, s, c).Records? ==> 0 <= server(k, s, c).count <= c
  }

  /** The search the loop presents from, and the size it prefers to ask for. */
  datatype Search = Search(resultCount: int, preferredMessageSize: nat) {
    function Preferred(): nat {
      preferredMessageSize / 1000
    }
  }

  /** The loop's variables, and the numbers of the records received so far. */
  datatype Loop = Loop(start: int, remaining: int, calls: nat, received: seq<int>)

  /** How many records the next request asks for. */
  function Request(q: Search, l: Loop): (c: int) {
    var want := if l.remaining < q.Preferred() then l.remaining else q.Preferred();
    if want + l.start > q.resultCount + 1 then q.resultCount + 1 - l.start else want
  }

  datatype Status = Going(at: Loop) | Ended(at: Loop)

  /** One turn of the loop body. */
  function Turn(server: Server, q: Search, l: Loop): (s: Status) {
    match server(l.calls, l.start, Request(q, l))
    case Failure(diagnostic) =>
      if diagnostic then Ended(l.(calls := l.calls + 1)) else Going(l.(calls := l.calls + 1))
    case Records(n) =>
      var l' := Loop(l.start + n, l.remaining - n, l.calls + 1, l.received + Numbers(l.start, l.start + n));
      if n <= 0 then Ended(l') else Going(l')
  }

  /** Up to n turns, while records remain. */
  function Run(server: Server, q: Search, l: Loop, n: nat): (s: Status)
    decreases n
  {
    if l.remaining <= 0 then Ended(l)
    else if n == 0 then Going(l)
    else
      match Turn(server, q, l)
      case Ended(l') => Ended(l')
      case Going(l') => Run(server, q, l', n - 1)
  }

  /** The range of records a loop was started on, clamped to the result set. */
  datatype Range = Range(first: int, count: int)

  /** What every state of the loop keeps, with `r` the clamped range. */
  ghost predicate InRange(q: Search, r: Range, l: Loop) {
    && l.start + l.remaining == r.first + r.count <= q.resultCount + 1
    && r.first <= l.start && 0 <= l.remaining
    && l.received == Numbers(r.first, l.start)
  }

  /**
   * A request never reaches past the result set, and the clamp inside the loop changes nothing:
   * it asks for all that remains, or for as many records of 1000 bytes as the client prefers.
   */
  lemma RequestFits(q: Search, r: Range, l: Loop)
    requires InRange(q, r, l) && 0 < l.remaining
    ensures 0 <= Request(q, l) <= l.remaining && l.start + Request(q, l) <= q.resultCount + 1
    ensures 1000 * Request(q, l) <= q.preferredMessageSize
    ensures Request(q, l) == l.remaining || q.preferredMessageSize < 1000 * (Request(q, l) + 1)
  {
  }

  lemma TurnKeepsRange(server: Server, q: Search, r: Range, l: Loop)
    requires Modest(server) && InRange(q, r, l) && 0 < l.remaining
    ensures InRange(q, r, Turn(server, q, l).at)
    ensures Turn(server, q, l).at.calls == l.calls + 1
  {
  }

  /**
   * For every modest server and after any number of turns: start and remaining add up to
   * the end of the range, and what has been received is the range up to the start point,
   * with no gap and no record twice.
   */
  lemma {:induction false} RunKeepsRange(server: Server, q: Search, r: Range, l: Loop, n: nat)
    requires Modest(server) && InRange(q, r, l)
    ensures InRange(q, r, Run(server, q, l, n).at)
    decreases n
  {
    hide InRange, Turn, Modest;
    if l.remaining > 0 && n > 0 {
      TurnKeepsRange(server, q, r, l);
      if Turn(server, q, l).Going? {
        RunKeepsRange(server, q, r, Turn(server, q, l).at, n - 1);
      }
    }
  }

  // -------------------------------------------------------------------- when it ends

  /** Call k, were it made in state l, would come back as a failure without a diagnostic. */
  predicate Silent(server: Server, q: Search, l: Loop, k: nat) {
    server(k, l.start, Request(q, l)) == Failure(false)
  }

  /** From l on, every further answer to the same request is such a failure. */
  ghost predicate Stuck(server: Server, q: Search, l: Loop) {
    l.remaining > 0 && forall k: nat :: l.calls <= k ==> Silent(server, q, l, k)
  }

  lemma {:induction false} StuckStays(server: Server, q: Search, l: Loop, n: nat)
    requires Stuck(server, q, l)
    ensures Run(server, q, l, n).Going?
    decreases n
  {
    if n > 0 {
      assert Silent(server, q, l, l.calls);
      var next := l.(calls := l.calls + 1);
      assert Turn(server, q, l) == Going(next) && Request(q, next) == Request(q, l);
      forall k: nat | next.calls <= k ensures Silent(server, q, next, k) {
        assert Silent(server, q, l, k);
      }
      StuckStays(server, q, next, n - 1);
    }
  }

  /** A run that is still going at m turns can be continued from there. */
  lemma {:induction false} RunOn(server: Server, q: Search, l: Loop, m: nat, n: nat)
    requires Run(server, q, l, m).Going?
    ensures Run(server, q, l, m + n) == Run(server, q, Run(server, q, l, m).at, n)
    decreases m
  {
    hide Turn;
    if m > 0 {
      RunOn(server, q, Turn(server, q, l).at, m - 1, n);
    }
  }

  /** Waiting for call k, the next one whose answer is not such a failure. */
  lemma {:induction false} NeverEndingIsStuck(server: Server, q: Search, l: Loop, k: nat) returns (m: nat)
    requires forall n: nat :: Run(server, q, l, n).Going?
    requires Stuck(server, q, l) || (l.calls <= k && !Silent(server, q, l, k))
    ensures Run(server, q, l, m).Going? && Stuck(server, q, Run(server, q, l, m).at)
    decreases l.remaining, k - l.calls
  {
    hide Run, Stuck;
    FirstTurns(server, q, l);
    if Stuck(server, q, l) {
      m := 0;
    } else {
      var next := Turn(server, q, l).at;
      GoesOn(server, q, l);
      var k' := k;
      if Silent(server, q, l, l.calls) {
        assert next == l.(calls := l.calls + 1) && Request(q, next) == Request(q, l);
        assert Silent(server, q, next, k) == Silent(server, q, l, k);
      } else {
        assert next.remaining < l.remaining;
        k' := Wait(server, q, next);
      }
      m := NeverEndingIsStuck(server, q, next, k');
      m := m + 1;
    }
  }

  lemma FirstTurns(server: Server, q: Search, l: Loop)
    ensures Run(server, q, l, 0).at == l
  {
  }

  lemma GoesOn(server: Server, q: Search, l: Loop)
    requires forall n: nat :: Run(server, q, l, n).Going?
    ensures Turn(server, q, l).Going?
    ensures forall n: nat :: Run(server, q, Turn(server, q, l).at, n) == Run(server, q, l, n + 1)
    ensures forall n: nat :: Run(server, q, Turn(server, q, l).at, n).Going?
    ensures Turn(server, q, l).at.remaining > 0
  {
    hide Turn;
    assert Run(server, q, l, 0).Going? && Run(server, q, l, 1).Going?;
    forall n: nat ensures Run(server, q, Turn(server, q, l).at, n) == Run(server, q, l, n + 1) {
      assert Run(server, q, l, n + 1).Going?;
    }
    assert Run(server, q, Turn(server, q, l).at, 0).Going?;
  }

  ghost predicate Ends(server: Server, q: Search, l: Loop) {
    exists n: nat :: Run(server, q, l, n).Ended?
  }

  ghost predicate GetsStuck(server: Server, q: Search, l: Loop) {
    exists m: nat :: Run(server, q, l, m).Going? && Stuck(server, q, Run(server, q, l, m).at)
  }

  /**
   * The loop ends if and only if it does not reach a point from which the server answers
   * with failures that carry no diagnostic for ever.
   */
  lemma EndsUnlessStuck(server: Server, q: Search, l: Loop)
    ensures Ends(server, q, l) <==> !GetsStuck(server, q, l)
  {
    hide Turn, Stuck, Run;
    if GetsStuck(server, q, l) {
      var m: nat :| Run(server, q, l, m).Going? && Stuck(server, q, Run(server, q, l, m).at);
      forall n: nat ensures Run(server, q, l, n).Going? {
        StuckStays(server, q, Run(server, q, l, m).at, n);
        RunOn(server, q, l, m, n);
        if Run(server, q, l, n).Ended? {
          EndedStays(server, q, l, n, m + n);
        }
      }
    }
    if !Ends(server, q, l) {
      assert forall n: nat :: Run(server, q, l, n).Going?;
      assert Run(server, q, l, 0).Going?;
      MoreToCome(server, q, l);
      var k := Wait(server, q, l);
      var m := NeverEndingIsStuck(server, q, l, k);
    }
  }

  lemma MoreToCome(server: Server, q: Search, l: Loop)
    requires Run(server, q, l, 0).Going?
    ensures l.remaining > 0
  {
  }

  lemma Wait(server: Server, q: Search, l: Loop) returns (k: nat)
    requires l.remaining > 0
    ensures Stuck(server, q, l) || (l.calls <= k && !Silent(server, q, l, k))
  {
    k := 0;
    if !Stuck(server, q, l) {
      k :| l.calls <= k && !Silent(server, q, l, k);
    }
  }

  lemma {:induction false} EndedStays(server: Server, q: Search, l: Loop, n: nat, m: nat)
    requires Run(server, q, l, n).Ended? && n <= m
    ensures Run(server, q, l, m).Ended?
    decreases n
  {
    hide Turn;
    if l.remaining > 0 && n > 0 && Turn(server, q, l).Going? {
      EndedStays(server, q, Turn(server, q, l).at, n - 1, m - 1);
    }
  }

  // ---------------------------------------------------------------- when all is delivered

  /** A server that answers every request for records with at least one. */
  ghost predicate Generous(server: Server) {
    forall k, s, c :: c > 0 ==> server(k, s, c).Records? && 0 < server(k, s, c).count <= c
  }

  /** Against such a server every turn gets something, as long as a turn asks for something. */
  lemma GenerousTurn(server: Server, q: Search, r: Range, l: Loop)
    requires Generous(server) && InRange(q, r, l) && 0 < l.remaining && q.preferredMessageSize >= 1000
    ensures Turn(server, q, l).Going? && Turn(server, q, l).at.remaining < l.remaining
    ensures InRange(q, r, Turn(server, q, l).at)
  {
    RequestFits(q, r, l);
    assert Request(q, l) > 0;
  }

  lemma {:induction false} DeliversFrom(server: Server, q: Search, r: Range, l: Loop) returns (n: nat, last: Loop)
    requires Generous(server) && InRange(q, r, l) && q.preferredMessageSize >= 1000
    ensures Run(server, q, l, n) == Ended(last) && last.received == Numbers(r.first, r.first + r.count)
    decreases l.remaining
  {
    hide Generous, Turn;
    if l.remaining <= 0 {
      n, last := 0, l;
    } else {
      GenerousTurn(server, q, r, l);
      n, last := DeliversFrom(server, q, r, Turn(server, q, l).at);
      n := n + 1;
    }
  }

  /** A client that prefers less than 1000 bytes asks for no record at all, and a server that sends none ends it. */
  lemma AsksForNothing(server: Server, q: Search, r: Range, l: Loop)
    requires Generous(server) && Modest(server) && InRange(q, r, l) && 0 < l.remaining && q.preferredMessageSize < 1000
    ensures Request(q, l) == 0
    ensures Turn(server, q, l).at.received == l.received
  {
    RequestFits(q, r, l);
    var reply := server(l.calls, l.start, 0);
    assert reply.Records? ==> reply.count == 0;
  }

  lemma {:induction false} NothingDelivered(server: Server, q: Search, r: Range, l: Loop, n: nat)
    requires Generous(server) && Modest(server) && InRange(q, r, l) && q.preferredMessageSize < 1000
    ensures Run(server, q, l, n).at.received == l.received
    decreases n
  {
    hide Generous, Modest, Turn, InRange;
    if l.remaining > 0 && n > 0 {
      AsksForNothing(server, q, r, l);
      if Turn(server, q, l).Going? {
        TurnKeepsRange(server, q, r, l);
        NothingDelivered(server, q, r, Turn(server, q, l).at, n - 1);
      }
    }
  }

  /** The whole range, in order: what a run from `l` can end with. */
  ghost predicate Delivers(server: Server, q: Search, r: Range, l: Loop) {
    exists n: nat :: Run(server, q, l, n).Ended?
                     && Run(server, q, l, n).at.received == Numbers(r.first, r.first + r.count)
  }

  /**
   * A server that sends at least one record whenever it is asked for any delivers the whole
   * range if and only if the client prefers messages of at least 1000 bytes.
   */
  lemma DeliversAllIff(server: Server, q: Search, r: Range)
    requires Generous(server) && Modest(server) && r.count > 0 && r.first + r.count <= q.resultCount + 1
    ensures Delivers(server, q, r, Loop(r.first, r.count, 0, [])) <==> q.preferredMessageSize >= 1000
  {
    hide Generous, Modest, Run;
    var l := Loop(r.first, r.count, 0, []);
    assert InRange(q, r, l);
    if q.preferredMessageSize >= 1000 {
      var n, last := DeliversFrom(server, q, r, l);
    } else {
      forall n: nat
        ensures Run(server, q, l, n).at.received == []
      {
        NothingDelivered(server, q, r, l, n);
      }
    }
  }

  // ------------------------------------------------------------------- the source's code

  datatype Outcome = StartOutOfRange | CountOutOfRange | Presented

  function Clamped(q: Search, startPoint: int, numberRecords: int): (r: Range) {
    Range(startPoint,
          if numberRecords + startPoint > q.resultCount + 1 then q.resultCount + 1 - startPoint else numberRecords)
  }

  /** The clamped range holds exactly the records asked for that the result set has. */
  lemma ClampedHolds(q: Search, startPoint: int, numberRecords: int, x: int)
    requires InBounds(q, startPoint, numberRecords)
    ensures var r := Clamped(q, startPoint, numberRecords);
            && r.count > 0 && r.first == startPoint && r.first + r.count <= q.resultCount + 1
            && (r.first <= x < r.first + r.count
                <==> startPoint <= x < startPoint + numberRecords && x <= q.resultCount)
  {
  }

  /** The loop as the range checks leave it to be run. */
  function Begin(q: Search, startPoint: int, numberRecords: int): (l: Loop) {
    var r := Clamped(q, startPoint, numberRecords);
    Loop(r.first, r.count, 0, [])
  }

  predicate InBounds(q: Search, startPoint: int, numberRecords: int) {
    0 < startPoint <= q.resultCount && 0 < numberRecords
  }

  /** A server whose failures all carry diagnostics lets every loop end. */
  lemma DiagnosedEnds(server: Server, q: Search, l: Loop)
    requires forall k, s, c :: server(k, s, c) != Failure(false)
    ensures Ends(server, q, l)
  {
    hide Run, Turn;
    EndsUnlessStuck(server, q, l);
    if GetsStuck(server, q, l) {
      var m: nat :| Run(server, q, l, m).Going? && Stuck(server, q, Run(server, q, l, m).at);
      var at := Run(server, q, l, m).at;
      StuckIsSilent(server, q, at);
    }
  }

  lemma StuckIsSilent(server: Server, q: Search, l: Loop)
    requires Stuck(server, q, l)
    ensures Silent(server, q, l, l.calls)
  {
  }

  /**
   * The command from its range checks on, against every server on which its loop ends.
   * `last.received` is what arrived: the clamped range up to `last.start`.
   */
  method PresentRecords(server: Server, q: Search, startPoint: int, numberRecords: int)
    returns (outcome: Outcome, last: Loop)
    requires Modest(server)
    requires InBounds(q, startPoint, numberRecords) ==> Ends(server, q, Begin(q, startPoint, numberRecords))
    ensures outcome == StartOutOfRange <==> startPoint > q.resultCount || startPoint <= 0
    ensures outcome == CountOutOfRange <==> 0 < startPoint <= q.resultCount && numberRecords <= 0
    ensures outcome != Presented ==> last.received == []
    ensures outcome == Presented ==>
              && InRange(q, Clamped(q, startPoint, numberRecords), last)
              && exists n: nat :: Run(server, q, Begin(q, startPoint, numberRecords), n) == Ended(last)
  {
    hide Modest, Run;
    last := Loop(startPoint, 0, 0, []);
    if startPoint > q.resultCount || startPoint <= 0 {
      return StartOutOfRange, last;
    }
    if numberRecords <= 0 {
      return CountOutOfRange, last;
    }
    var count := numberRecords;
    if count + startPoint > q.resultCount + 1 {
      count := q.resultCount + 1 - startPoint;
    }
    ghost var r := Range(startPoint, count);
    var l0 := Loop(startPoint, count, 0, []);
    ghost var turns: nat := 0;
    ghost var bound: nat :| Run(server, q, l0, bound).Ended?;
    last := l0;
    outcome := Presented;
    RunStart(server, q, l0);
    while last.remaining > 0
      invariant outcome == Presented && InRange(q, r, last)
      invariant last.remaining > 0 ==> Run(server, q, l0, turns) == Going(last)
      invariant last.remaining <= 0 ==> Run(server, q, l0, turns) == Ended(last)
      decreases bound - turns
    {
      if bound <= turns {
        EndedStays(server, q, l0, bound, turns);
      }
      TurnKeepsRange(server, q, r, last);
      RunStep(server, q, l0, turns);
      turns := turns + 1;
      var asked := if last.remaining < q.Preferred() then last.remaining else q.Preferred();
      if asked + last.start > q.resultCount + 1 {
        asked := q.resultCount + 1 - last.start;
      }
      var reply := server(last.calls, last.start, asked);
      if reply.Failure? {
        last := last.(calls := last.calls + 1);
        if reply.diagnostic {
          assert Run(server, q, l0, turns) == Ended(last);
          return;
        }
      } else {
        last := Loop(last.start + reply.count, last.remaining - reply.count, last.calls + 1,
                     last.received + Numbers(last.start, last.start + reply.count));
        if reply.count <= 0 {
          assert Run(server, q, l0, turns) == Ended(last);
          return;
        }
      }
    }
  }

  lemma RunStart(server: Server, q: Search, l: Loop)
    requires l.remaining > 0
    ensures Run(server, q, l, 0) == Going(l)
  {
  }

  lemma RunStep(server: Server, q: Search, l: Loop, n: nat)
    requires Run(server, q, l, n).Going?
    ensures var t := Turn(server, q, Run(server, q, l, n).at);
            Run(server, q, l, n + 1) == if t.at.remaining <= 0 then Ended(t.at) else t
  {
    hide Turn;
    RunOn(server, q, l, n, 1);
    RunGoing(server, q, l, n);
  }

  lemma {:induction false} RunGoing(server: Server, q: Search, l: Loop, n: nat)
    requires Run(server, q, l, n).Going?
    ensures Run(server, q, l, n).at.remaining > 0
    decreases n
  {
    hide Turn;
    if n > 0 {
      RunGoing(server, q, Turn(server, q, l).at, n - 1);
    }
  }
}
