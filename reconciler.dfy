/**
 Reconciliation of a depth snapshot with the buffered diff-event stream:
 the stale-event filter, the sequence-id gate (straddle check for the first
 event, contiguity check afterwards), the bid-then-ask application of each
 accepted event, and the stop on the first ordering violation.

 The live stream is modelled as a finite buffer of events that were already
 received and decoded when the snapshot arrived.
 */
module Reconciler {
  import opened Book

  /** A diff event: the update-id range `[U, u]` it covers and its bid and
      ask update lists. */
  datatype DiffEvent = DiffEvent(
    firstUpdateId: int,   // U
    finalUpdateId: int,   // u
    bids: seq<Level>,
    asks: seq<Level>)

  /** A depth snapshot: the id it is consistent with and its two sides. */
  datatype Snapshot = Snapshot(lastUpdateId: int, bids: seq<Level>, asks: seq<Level>)

  /** What the reconciliation loop leaves behind: the book, the cursor, how
      many buffered events it applied and whether it stopped on a desync. */
  datatype Outcome = Outcome(book: OrderBook, lastUpdateId: int, applied: nat, desynced: bool)

  /** An event whose range is not reversed. */
  predicate WellFormed(e: DiffEvent)
  {
    e.firstUpdateId <= e.finalUpdateId
  }

  // ---------------------------------------------------------------------------
  // Stale-event filter
  // ---------------------------------------------------------------------------

  /** The buffer without the events whose final id is at or below the
      snapshot's id, in their original order. */
  function DropStale(buffer: seq<DiffEvent>, lastUpdateId: int): seq<DiffEvent>
    decreases |buffer|
  {
    if buffer == [] then []
    else
      var n := |buffer| - 1;
      DropStale(buffer[..n], lastUpdateId) + (if buffer[n].finalUpdateId <= lastUpdateId then [] else [buffer[n]])
  }

  /** Removes every buffered event with `u <= lastUpdateId`. */
  method RemoveStale(buffer: seq<DiffEvent>, lastUpdateId: int) returns (kept: seq<DiffEvent>)
    ensures kept == DropStale(buffer, lastUpdateId)
    ensures forall i :: 0 <= i < |kept| ==> kept[i].finalUpdateId > lastUpdateId
    ensures forall e :: e in kept <==> e in buffer && e.finalUpdateId > lastUpdateId
  {
    kept := [];
    var i := 0;
    while i < |buffer|
      invariant 0 <= i <= |buffer|
      invariant kept == DropStale(buffer[..i], lastUpdateId)
    {
      assert buffer[..i + 1][..i] == buffer[..i];
      if buffer[i].finalUpdateId > lastUpdateId {
        kept := kept + [buffer[i]];
      }
      i := i + 1;
    }
    assert buffer[..i] == buffer;
    DropStaleMembers(buffer, lastUpdateId);
  }

  /** Exactly the fresh events survive the filter. */
  lemma {:induction false} DropStaleMembers(buffer: seq<DiffEvent>, lastUpdateId: int)
    ensures forall e :: e in DropStale(buffer, lastUpdateId) <==> e in buffer && e.finalUpdateId > lastUpdateId
    decreases |buffer|
  {
    if buffer != [] {
      var n := |buffer| - 1;
      DropStaleMembers(buffer[..n], lastUpdateId);
      assert buffer == buffer[..n] + [buffer[n]];
    }
  }

  /** A buffer holding only fresh events passes the filter whole. */
  lemma {:induction false} DropStaleAllFresh(buffer: seq<DiffEvent>, lastUpdateId: int)
    requires forall i :: 0 <= i < |buffer| ==> buffer[i].finalUpdateId > lastUpdateId
    ensures DropStale(buffer, lastUpdateId) == buffer
    decreases |buffer|
  {
    if buffer != [] {
      var n := |buffer| - 1;
      DropStaleAllFresh(buffer[..n], lastUpdateId);
      assert buffer[..n] + [buffer[n]] == buffer;
    }
  }

  /** Filtering a concatenation filters each part. */
  lemma {:induction false} DropStaleConcat(a: seq<DiffEvent>, b: seq<DiffEvent>, lastUpdateId: int)
    ensures DropStale(a + b, lastUpdateId) == DropStale(a, lastUpdateId) + DropStale(b, lastUpdateId)
    decreases |b|
  {
    if b == [] {
      assert a + b == a;
    } else {
      var n := |b| - 1;
      assert (a + b)[..|a + b| - 1] == a + b[..n];
      DropStaleConcat(a, b[..n], lastUpdateId);
    }
  }

  /** The survivors are a subsequence of the buffer: they sit at strictly
      increasing positions, so their relative order is the original one. */
  lemma {:induction false} DropStaleOrder(buffer: seq<DiffEvent>, lastUpdateId: int) returns (pos: seq<nat>)
    ensures |pos| == |DropStale(buffer, lastUpdateId)|
    ensures forall k :: 0 <= k < |pos| ==> pos[k] < |buffer| && buffer[pos[k]] == DropStale(buffer, lastUpdateId)[k]
    ensures forall k, l :: 0 <= k < l < |pos| ==> pos[k] < pos[l]
    decreases |buffer|
  {
    if buffer == [] {
      pos := [];
    } else {
      var n := |buffer| - 1;
      pos := DropStaleOrder(buffer[..n], lastUpdateId);
      if buffer[n].finalUpdateId > lastUpdateId {
        pos := pos + [n];
      }
    }
  }

  /** Events at or below the snapshot's id, wherever they sit in the buffer,
      have no effect on the reconciliation. */
  lemma StaleEventsIgnored(snapshot: Snapshot, a: seq<DiffEvent>, stale: seq<DiffEvent>, b: seq<DiffEvent>)
    requires forall i :: 0 <= i < |stale| ==> stale[i].finalUpdateId <= snapshot.lastUpdateId
    ensures Reconciliation(snapshot, a + stale + b) == Reconciliation(snapshot, a + b)
  {
    var id := snapshot.lastUpdateId;
    DropStaleConcat(a + stale, b, id);
    DropStaleConcat(a, stale, id);
    DropStaleConcat(a, b, id);
    DropStaleAllStale(stale, id);
    assert DropStale(a + stale + b, id) == DropStale(a + b, id);
  }

  /** A buffer holding only stale events filters to nothing. */
  lemma {:induction false} DropStaleAllStale(buffer: seq<DiffEvent>, lastUpdateId: int)
    requires forall i :: 0 <= i < |buffer| ==> buffer[i].finalUpdateId <= lastUpdateId
    ensures DropStale(buffer, lastUpdateId) == []
    decreases |buffer|
  {
    if buffer != [] {
      DropStaleAllStale(buffer[..|buffer| - 1], lastUpdateId);
    }
  }

  // ---------------------------------------------------------------------------
  // Sequence-id gate and event application
  // ---------------------------------------------------------------------------

  /** The ordering check of the loop. The first processed event must
      straddle the id right after the cursor (`U <= id + 1 <= u`); every later
      event must start right after it (`U == id + 1`). */
  predicate Accepts(isFirstEventProcessed: bool, lastUpdateId: int, e: DiffEvent)
  {
    if !isFirstEventProcessed then
      e.firstUpdateId <= lastUpdateId + 1 && e.finalUpdateId >= lastUpdateId + 1
    else
      e.firstUpdateId == lastUpdateId + 1
  }

  /** One accepted event: its bid updates, then its ask updates. */
  function ApplyEvent(book: OrderBook, e: DiffEvent): OrderBook
  {
    ApplyLevels(ApplyLevels(book, e.bids), e.asks)
  }

  /** A run of accepted events, applied in the order they were popped. */
  function ApplyEvents(book: OrderBook, events: seq<DiffEvent>): OrderBook
    decreases |events|
  {
    if events == [] then book else ApplyEvents(ApplyEvent(book, events[0]), events[1..])
  }

  /** The cursor after a run of accepted events: the final id of the last
      one, or the starting cursor if there is none. */
  function CursorAfter(lastUpdateId: int, events: seq<DiffEvent>): int
  {
    if events == [] then lastUpdateId else events[|events| - 1].finalUpdateId
  }

  /** Every event of the run passes the gate in the state its predecessors
      leave: the cursor is the previous event's final id, and only the very
      first event of the session gets the straddle check. */
  predicate ValidChainFrom(isFirstEventProcessed: bool, lastUpdateId: int, events: seq<DiffEvent>)
  {
    forall i :: 0 <= i < |events| ==>
      Accepts(isFirstEventProcessed || i > 0, CursorAfter(lastUpdateId, events[..i]), events[i])
  }

  /** The sequence rule for a whole session started from a snapshot id. */
  predicate ValidChain(baseline: int, events: seq<DiffEvent>)
  {
    ValidChainFrom(false, baseline, events)
  }

  /** The reconciliation loop over a finite buffer: pop the oldest event;
      on a rejected one stop, leaving book and cursor as they are; on an
      accepted one apply it and move the cursor to its final id. */
  function Run(book: OrderBook, lastUpdateId: int, isFirstEventProcessed: bool, pending: seq<DiffEvent>): Outcome
    decreases |pending|
  {
    if pending == [] then Outcome(book, lastUpdateId, 0, false)
    else if !Accepts(isFirstEventProcessed, lastUpdateId, pending[0]) then Outcome(book, lastUpdateId, 0, true)
    else
      var r := Run(ApplyEvent(book, pending[0]), pending[0].finalUpdateId, true, pending[1..]);
      r.(applied := r.applied + 1)
  }

  /** A whole session: seed from the snapshot, filter the buffer, run the loop. */
  function Reconciliation(snapshot: Snapshot, buffer: seq<DiffEvent>): Outcome
  {
    Run(SnapshotBook(snapshot.bids, snapshot.asks), snapshot.lastUpdateId, false,
        DropStale(buffer, snapshot.lastUpdateId))
  }

  // ---------------------------------------------------------------------------
  // The loop
  // ---------------------------------------------------------------------------

  /** Seeds the book from the snapshot, drops stale buffered events, then pops
      and applies events until the buffer is empty or an event fails the
      ordering check. Returns the book, the cursor, whether it stopped on a
      desync, and the events still in the buffer. The book is always the
      snapshot followed by exactly the accepted prefix of the filtered buffer,
      and a rejected event changes neither book nor cursor. */
  method Reconcile(snapshot: Snapshot, buffer: seq<DiffEvent>)
    returns (book: OrderBook, lastUpdateId: int, desynced: bool, remaining: seq<DiffEvent>)
    ensures var r := Reconciliation(snapshot, buffer);
      book == r.book && lastUpdateId == r.lastUpdateId && desynced == r.desynced
    ensures var events := DropStale(buffer, snapshot.lastUpdateId);
      var k := Reconciliation(snapshot, buffer).applied;
      && k <= |events|
      && ValidChain(snapshot.lastUpdateId, events[..k])
      && book == ApplyEvents(SnapshotBook(snapshot.bids, snapshot.asks), events[..k])
      && lastUpdateId == CursorAfter(snapshot.lastUpdateId, events[..k])
      && (desynced <==> k < |events|)
      && (desynced ==> !Accepts(k > 0, lastUpdateId, events[k]) && remaining == events[k + 1..])
      && (!desynced ==> remaining == [])
  {
    book := ProcessSnapshot(snapshot.bids, snapshot.asks);
    lastUpdateId := snapshot.lastUpdateId;
    var pending := RemoveStale(buffer, lastUpdateId);
    var isFirstEventProcessed := false;
    desynced := false;

    ghost var events := pending;
    ghost var total := Reconciliation(snapshot, buffer);
    ghost var done := 0;
    assert events[..0] == [];
    while pending != []
      invariant 0 <= done <= |events| && pending == events[done..]
      invariant isFirstEventProcessed == (done > 0)
      invariant ValidChain(snapshot.lastUpdateId, events[..done])
      invariant book == ApplyEvents(SnapshotBook(snapshot.bids, snapshot.asks), events[..done])
      invariant lastUpdateId == CursorAfter(snapshot.lastUpdateId, events[..done])
      invariant var r := Run(book, lastUpdateId, isFirstEventProcessed, pending);
        r.book == total.book && r.lastUpdateId == total.lastUpdateId &&
        r.desynced == total.desynced && done + r.applied == total.applied
      invariant !desynced
    {
      var eventData := pending[0];
      pending := pending[1..];

      if !isFirstEventProcessed {
        if eventData.firstUpdateId > lastUpdateId + 1 || eventData.finalUpdateId < lastUpdateId + 1 {
          desynced := true;
          break;
        }
        isFirstEventProcessed := true;
      } else {
        if eventData.firstUpdateId != lastUpdateId + 1 {
          desynced := true;
          break;
        }
      }

      assert Accepts(done > 0, lastUpdateId, eventData);
      AcceptStep(SnapshotBook(snapshot.bids, snapshot.asks), snapshot.lastUpdateId, events, done);

      book := UpdateOrderBook(book, eventData.bids, true);
      book := UpdateOrderBook(book, eventData.asks, false);
      lastUpdateId := eventData.finalUpdateId;
      done := done + 1;
    }
    remaining := pending;
    RunSpec(SnapshotBook(snapshot.bids, snapshot.asks), snapshot.lastUpdateId, false, events);
  }

  // ---------------------------------------------------------------------------
  // Lemmas about the loop
  // ---------------------------------------------------------------------------

  /** The loop's accept step: if the state is that of a valid prefix and the
      next event passes the gate, applying it gives the state of the prefix
      one event longer. */
  lemma AcceptStep(seed: OrderBook, baseline: int, events: seq<DiffEvent>, done: nat)
    requires done < |events|
    requires ValidChain(baseline, events[..done])
    requires Accepts(done > 0, CursorAfter(baseline, events[..done]), events[done])
    ensures ValidChain(baseline, events[..done + 1])
    ensures ApplyEvent(ApplyEvents(seed, events[..done]), events[done]) == ApplyEvents(seed, events[..done + 1])
    ensures events[done].finalUpdateId == CursorAfter(baseline, events[..done + 1])
  {
    assert events[..done + 1] == events[..done] + [events[done]];
    ValidChainSnoc(baseline, events[..done], events[done]);
    ApplyEventsSnoc(seed, events[..done], events[done]);
  }

  /** Applying one more accepted event extends the run by that event. */
  lemma {:induction false} ApplyEventsSnoc(book: OrderBook, events: seq<DiffEvent>, e: DiffEvent)
    ensures ApplyEvents(book, events + [e]) == ApplyEvent(ApplyEvents(book, events), e)
    decreases |events|
  {
    if events == [] {
      assert [e][1..] == [];
    } else {
      assert (events + [e])[1..] == events[1..] + [e];
      ApplyEventsSnoc(ApplyEvent(book, events[0]), events[1..], e);
    }
  }

  /** An event that passes the gate in the state a valid run leaves extends
      the run. */
  lemma ValidChainSnoc(baseline: int, events: seq<DiffEvent>, e: DiffEvent)
    requires ValidChain(baseline, events)
    requires Accepts(|events| > 0, CursorAfter(baseline, events), e)
    ensures ValidChain(baseline, events + [e])
  {
  }

  lemma ValidChainCons(isFirstEventProcessed: bool, lastUpdateId: int, e: DiffEvent, rest: seq<DiffEvent>)
    requires Accepts(isFirstEventProcessed, lastUpdateId, e)
    requires ValidChainFrom(true, e.finalUpdateId, rest)
    ensures ValidChainFrom(isFirstEventProcessed, lastUpdateId, [e] + rest)
  {
  }

  /** An accepted head followed by a valid run of the tail is a valid run,
      with the effect and the cursor of the tail's run started after the head. */
  lemma PrefixCons(book: OrderBook, lastUpdateId: int, isFirstEventProcessed: bool, pending: seq<DiffEvent>, k: nat)
    requires pending != [] && k < |pending|
    requires Accepts(isFirstEventProcessed, lastUpdateId, pending[0])
    requires ValidChainFrom(true, pending[0].finalUpdateId, pending[1..][..k])
    ensures ValidChainFrom(isFirstEventProcessed, lastUpdateId, pending[..k + 1])
    ensures ApplyEvents(book, pending[..k + 1]) == ApplyEvents(ApplyEvent(book, pending[0]), pending[1..][..k])
    ensures CursorAfter(lastUpdateId, pending[..k + 1]) == CursorAfter(pending[0].finalUpdateId, pending[1..][..k])
  {
    var prefix := pending[..k + 1];
    assert prefix == [pending[0]] + pending[1..][..k];
    assert prefix[1..] == pending[1..][..k];
    ValidChainCons(isFirstEventProcessed, lastUpdateId, pending[0], pending[1..][..k]);
  }

  /** What the loop computes, stated without reference to the loop: it
      applies the longest prefix of the buffer that satisfies the sequence
      rule, the cursor ends on that prefix's last final id, and it reports a
      desync exactly when it stopped before the end, on an event that fails
      the gate in the state the prefix left. */
  lemma {:induction false} RunSpec(book: OrderBook, lastUpdateId: int, isFirstEventProcessed: bool, pending: seq<DiffEvent>)
    ensures var r := Run(book, lastUpdateId, isFirstEventProcessed, pending);
      && r.applied <= |pending|
      && ValidChainFrom(isFirstEventProcessed, lastUpdateId, pending[..r.applied])
      && r.book == ApplyEvents(book, pending[..r.applied])
      && r.lastUpdateId == CursorAfter(lastUpdateId, pending[..r.applied])
      && (r.desynced <==> r.applied < |pending|)
      && (r.applied < |pending| ==>
            !Accepts(isFirstEventProcessed || r.applied > 0, r.lastUpdateId, pending[r.applied]))
    decreases |pending|
  {
    if pending != [] && Accepts(isFirstEventProcessed, lastUpdateId, pending[0]) {
      var e := pending[0];
      var rest := pending[1..];
      var next := ApplyEvent(book, e);
      RunSpec(next, e.finalUpdateId, true, rest);
      var k := Run(next, e.finalUpdateId, true, rest).applied;
      PrefixCons(book, lastUpdateId, isFirstEventProcessed, pending, k);
      if k < |rest| {
        assert pending[k + 1] == rest[k];
      }
    } else if pending != [] {
      assert pending[..0] == [];
    }
  }

  /** A session runs through the whole filtered buffer without a desync if
      and only if the buffer obeys the sequence rule; then the book is the
      snapshot followed by every buffered event, and the cursor is the last
      event's final id. */
  lemma NoDesyncIffValidChain(snapshot: Snapshot, buffer: seq<DiffEvent>)
    ensures var events := DropStale(buffer, snapshot.lastUpdateId);
      var r := Reconciliation(snapshot, buffer);
      (!r.desynced <==> ValidChain(snapshot.lastUpdateId, events))
    ensures var events := DropStale(buffer, snapshot.lastUpdateId);
      var r := Reconciliation(snapshot, buffer);
      ValidChain(snapshot.lastUpdateId, events) ==>
        r.book == ApplyEvents(SnapshotBook(snapshot.bids, snapshot.asks), events) &&
        r.lastUpdateId == CursorAfter(snapshot.lastUpdateId, events)
  {
    var id := snapshot.lastUpdateId;
    var events := DropStale(buffer, id);
    var seed := SnapshotBook(snapshot.bids, snapshot.asks);
    RunSpec(seed, id, false, events);
    var r := Reconciliation(snapshot, buffer);
    var k := r.applied;
    if !r.desynced {
      assert events[..k] == events;
    }
  }

  /** Once the stale filter has run, the straddle check on the first event
      reduces to `U <= lastUpdateId + 1`: its `u` is already past the id. */
  lemma FirstGateAfterFilter(buffer: seq<DiffEvent>, lastUpdateId: int, e: DiffEvent)
    requires e in DropStale(buffer, lastUpdateId)
    ensures Accepts(false, lastUpdateId, e) <==> e.firstUpdateId <= lastUpdateId + 1
  {
  }

  /** Along a run accepted by the gate, with well-formed events, each event
      ends strictly after the cursor it was checked against. */
  lemma ChainStepAdvances(baseline: int, events: seq<DiffEvent>, i: int)
    requires ValidChain(baseline, events)
    requires forall k :: 0 <= k < |events| ==> WellFormed(events[k])
    requires 0 <= i < |events|
    ensures events[i].finalUpdateId > (if i == 0 then baseline else events[i - 1].finalUpdateId)
  {
  }

  /** The cursor only moves forward: along an accepted run of well-formed
      events the final ids strictly increase, starting above the snapshot id. */
  lemma {:induction false} CursorIncreases(baseline: int, events: seq<DiffEvent>, i: int, j: int)
    requires ValidChain(baseline, events)
    requires forall k :: 0 <= k < |events| ==> WellFormed(events[k])
    requires 0 <= i < j < |events|
    ensures baseline < events[i].finalUpdateId < events[j].finalUpdateId
    decreases j
  {
    ChainStepAdvances(baseline, events, j);
    if i < j - 1 {
      CursorIncreases(baseline, events, i, j - 1);
    } else if i > 0 {
      CursorIncreases(baseline, events, i - 1, i);
    } else {
      ChainStepAdvances(baseline, events, 0);
    }
  }

  /** The gate does not check `U <= u` on later events, so a reversed range
      passes contiguity and moves the cursor backwards. */
  lemma CursorMovesBackOnReversedRange()
    ensures var events := [DiffEvent(101, 101, [], []), DiffEvent(102, 50, [], [])];
      ValidChain(100, events) && CursorAfter(100, events) < 100
  {
  }

  /** The same gap in a session: after 101-110 the reversed 111-105 moves the
      cursor back to 105, and then 106-107, whose ids were already covered,
      is accepted as well. */
  lemma ReversedRangeReplaysIds()
    ensures var buffer := [DiffEvent(101, 110, [], []), DiffEvent(111, 105, [], []), DiffEvent(106, 107, [], [])];
      Reconciliation(Snapshot(100, [], []), buffer) == Outcome(map[], 107, 3, false)
  {
    var buffer := [DiffEvent(101, 110, [], []), DiffEvent(111, 105, [], []), DiffEvent(106, 107, [], [])];
    DropStaleAllFresh(buffer, 100);
    assert SnapshotBook([], []) == map[];
    assert forall e: DiffEvent :: e.bids == [] && e.asks == [] ==> ApplyEvent(map[], e) == map[];
    assert buffer[2..][1..] == [];
    assert Run(map[], 105, true, buffer[2..]) == Outcome(map[], 107, 1, false);
    assert buffer[1..][1..] == buffer[2..];
    assert Run(map[], 110, true, buffer[1..]) == Outcome(map[], 107, 2, false);
  }

  /** A worked session: snapshot at id 100 with one bid and one ask; a stale
      event is dropped, then two contiguous events delete both levels. */
  lemma EndToEndScenario()
    ensures var snapshot := Snapshot(100, [Level("10.0", 5.0)], [Level("11.0", 3.0)]);
      var buffer := [
        DiffEvent(95, 100, [], []),
        DiffEvent(101, 101, [Level("10.0", 0.0)], []),
        DiffEvent(102, 103, [], [Level("11.0", 0.0)])];
      Reconciliation(snapshot, buffer) == Outcome(map[], 103, 2, false)
  {
    var buffer := [
      DiffEvent(95, 100, [], []),
      DiffEvent(101, 101, [Level("10.0", 0.0)], []),
      DiffEvent(102, 103, [], [Level("11.0", 0.0)])];
    assert DropStale(buffer, 100) == buffer[1..] by {
      assert [buffer[0]][..0] == [];
      assert DropStale([buffer[0]], 100) == [];
      assert buffer[..2][..1] == [buffer[0]];
      assert DropStale(buffer[..2], 100) == [buffer[1]];
    }
    var seed := map["10.0" := 5.0, "11.0" := 3.0];
    assert SnapshotBook([Level("10.0", 5.0)], [Level("11.0", 3.0)]) == seed;
    var afterFirst := map["11.0" := 3.0];
    assert ApplyEvent(seed, buffer[1]) == afterFirst;
    assert ApplyEvent(afterFirst, buffer[2]) == map[];
  }

  /** A first event that leaves a gap after the snapshot is rejected: the
      session stops with the seeded book and the snapshot's id. */
  lemma DesyncScenario(bids: seq<Level>, asks: seq<Level>, rest: seq<DiffEvent>)
    ensures var snapshot := Snapshot(100, bids, asks);
      Reconciliation(snapshot, [DiffEvent(102, 105, [], [])] + rest)
        == Outcome(SnapshotBook(bids, asks), 100, 0, true)
  {
    var first := DiffEvent(102, 105, [], []);
    DropStaleConcat([first], rest, 100);
    assert [first][..0] == [];
    assert DropStale([first], 100) == [first];
  }

  /** Accepted events keep an all-positive book all-positive. */
  lemma {:induction false} ApplyEventsKeepsPositive(book: OrderBook, events: seq<DiffEvent>)
    requires AllPositive(book)
    ensures AllPositive(ApplyEvents(book, events))
    decreases |events|
  {
    if events != [] {
      ApplyLevelsKeepsPositive(book, events[0].bids);
      ApplyLevelsKeepsPositive(ApplyLevels(book, events[0].bids), events[0].asks);
      ApplyEventsKeepsPositive(ApplyEvent(book, events[0]), events[1..]);
    }
  }

  /** From a snapshot with positive quantities, a session never stores a
      zero or negative level, whatever the buffer holds and wherever it stops. */
  lemma SessionPositive(snapshot: Snapshot, buffer: seq<DiffEvent>)
    requires PositiveLevels(snapshot.bids) && PositiveLevels(snapshot.asks)
    ensures AllPositive(Reconciliation(snapshot, buffer).book)
  {
    var seed := SnapshotBook(snapshot.bids, snapshot.asks);
    SeedIsApplyOnPositive(map[], snapshot.bids);
    SeedIsApplyOnPositive(SeedLevels(map[], snapshot.bids), snapshot.asks);
    ApplyLevelsKeepsPositive(map[], snapshot.bids);
    ApplyLevelsKeepsPositive(ApplyLevels(map[], snapshot.bids), snapshot.asks);
    var events := DropStale(buffer, snapshot.lastUpdateId);
    RunSpec(seed, snapshot.lastUpdateId, false, events);
    ApplyEventsKeepsPositive(seed, events[..Reconciliation(snapshot, buffer).applied]);
  }
}
