# Order-book reconciliation, modelled in Dafny

A model of the core of a Binance depth-stream collector (`OrderBook.cs`). The
collector keeps a local replica of a limit order book. It seeds the replica
from a REST depth snapshot, then applies buffered diff events from the
WebSocket stream on top. Before applying an event it checks the event's
update-id range against the last applied id. The first processed event must
straddle `lastUpdateId + 1`; every later event must start exactly at
`lastUpdateId + 1`. Each accepted event applies its bid list, then its ask
list. A positive quantity overwrites the price level; any other quantity
removes it. The session stops on the first ordering violation.

Two modules:

- `Book` (`book.dfy`): the price -> quantity store. It holds the specification
  functions `ApplyLevel`, `ApplyLevels`, `SeedLevels` and `SnapshotBook`, and
  the two loops of the source, `ProcessSnapshot` and `UpdateOrderBook`, each
  proved against those functions. Lemmas state the per-price meaning of an
  update list: the last entry for a price decides it, unmentioned prices are
  untouched, positivity is preserved, and the update is idempotent.
- `Reconciler` (`reconciler.dfy`): events and snapshots, the stale-event
  filter (`RemoveStale`, specified by `DropStale`), the ordering gate
  (`Accepts`, the checks at OrderBook.cs:62-79), the application of one
  accepted event (`ApplyEvent`: bids, then asks, OrderBook.cs:87-90), the loop as a function (`Run`, `Reconciliation`) and as a
  method (`Reconcile`). `RunSpec` says what the loop computes without
  reference to the loop: the longest accepted prefix of the filtered buffer
  is applied, and a desync is reported exactly when an event fails the gate.

Quantities are C# `decimal`, which is exact, so they are modelled as `real`.
Prices are the exchange's price strings, used verbatim as map keys.

Three behaviours of the code are worth stating plainly; the model follows
the code in each:

- The comment at OrderBook.cs:175 says a level is removed when its quantity
  is zero, but the test at OrderBook.cs:172 removes it for any quantity that
  is not `> 0`.
- Snapshot seeding stores every entry unconditionally, even a zero quantity
  (OrderBook.cs:151, 158). `SeedIsApplyOnPositive` shows this agrees with the
  update rule when every snapshot quantity is positive, and `SessionPositive`
  shows that a snapshot with positive quantities yields a session whose book
  never holds a zero or negative level.
- The code never checks `U <= u`. The cursor therefore only increases for
  well-formed events (`CursorIncreases`). `CursorMovesBackOnReversedRange`
  shows a reversed later event passing the contiguity check and moving the
  cursor backwards; `ReversedRangeReplaysIds` shows a session that then
  accepts an event whose ids were already applied.

## Model

| member | source | states |
|---|---|---|
| `Book.ApplyLevel` | OrderBook.cs:171-175 | a positive quantity leaves exactly that quantity stored for the price; any other quantity leaves the price absent; every other price keeps its lookup |
| `Book.UpdateOrderBook` | OrderBook.cs:164-179 | the loop's result is the in-order application of the update list; for each price its last entry decides it (stored exactly if positive, absent otherwise); unmentioned prices keep their previous lookup |
| `Book.ApplyLevelsLast` | OrderBook.cs:166-176 | the last occurrence of a price in an update list decides it: overwrite with that quantity, not add, or removal |
| `Book.ApplyLevelsUntouched` | OrderBook.cs:166-178 | a price the update list never mentions keeps its previous quantity or stays absent |
| `Book.ApplyLevelsKeys` | OrderBook.cs:166-178 | no key is added other than the prices the update list mentions |
| `Book.ApplyLevelsKeepsPositive` | OrderBook.cs:172-175 | if every stored quantity is positive before an update, every stored quantity is positive after it |
| `Book.ApplyLevelsIdempotent` | OrderBook.cs:166-176 | applying the same update list twice gives the same book as applying it once (overwrite and deletion are idempotent) |
| `Book.RemoveAbsentIsNoOp` | OrderBook.cs:174-175 | removing a price that is not stored leaves the book unchanged |
| `Book.ProcessSnapshot` | OrderBook.cs:143-162 | the seeded book's keys are the union of bid and ask prices; a price listed among the asks holds its last ask quantity (asks are written after bids); a bid-only price holds its last bid quantity |
| `Book.SeedLevelsKeys` | OrderBook.cs:147-159 | seeding adds exactly the listed prices to the existing keys |
| `Book.SeedLevelsUntouched` | OrderBook.cs:147-159 | seeding leaves a price it does not list as it was |
| `Book.SeedLevelsLast` | OrderBook.cs:147-159 | seeding stores the last listed quantity for each price, whatever its sign |
| `Book.SnapshotBookKeys` | OrderBook.cs:143-162 | the snapshot book's key set is exactly the bid prices plus the ask prices |
| `Book.SeedIsApplyOnPositive` | OrderBook.cs:147-159 | when every listed quantity is positive, seeding a list equals applying it as an update |
| `Reconciler.RemoveStale` | OrderBook.cs:44-45 | the filtered buffer keeps exactly the buffered events with `u > lastUpdateId`, and every survivor has `u > lastUpdateId` |
| `Reconciler.DropStaleMembers` | OrderBook.cs:45 | an event survives the filter if and only if it was buffered and its `u` exceeds the snapshot id |
| `Reconciler.DropStaleConcat` | OrderBook.cs:45 | the filter distributes over concatenation of buffers |
| `Reconciler.DropStaleOrder` | OrderBook.cs:45 | the survivors sit at strictly increasing positions of the original buffer, so their relative order is kept |
| `Reconciler.DropStaleAllStale` | OrderBook.cs:45 | a buffer of only stale events filters to nothing |
| `Reconciler.DropStaleAllFresh` | OrderBook.cs:45 | a buffer of only fresh events passes the filter whole |
| `Reconciler.StaleEventsIgnored` | OrderBook.cs:44-45 | inserting stale events anywhere in the buffer changes neither the final book, nor the cursor, nor the desync verdict |
| `Reconciler.Reconcile` | OrderBook.cs:38-101 | the final book is the snapshot followed by the bid-then-ask updates of exactly the accepted prefix of the filtered buffer, in pop order; the cursor is that prefix's last `u` (or the snapshot id); a desync is reported exactly when an event failed the gate, which then changed nothing, and the rest of the buffer is left unprocessed; after every accepted event the loop's book and cursor are those of the prefix applied so far |
| `Reconciler.RunSpec` | OrderBook.cs:50-101 | the loop applies the longest prefix satisfying the ordering rules, ends with the cursor on its last `u`, and reports a desync if and only if it stopped on an event that fails the gate |
| `Reconciler.NoDesyncIffValidChain` | OrderBook.cs:62-100 | a session consumes the whole filtered buffer without a desync if and only if the buffer obeys the straddle-then-contiguity rule; then the book is the snapshot followed by every event, and the cursor is the last event's `u` |
| `Reconciler.FirstGateAfterFilter` | OrderBook.cs:45-69 | after the stale filter, the first-event check reduces to `U <= lastUpdateId + 1` |
| `Reconciler.ChainStepAdvances` | OrderBook.cs:62-79 | along an accepted run of well-formed events, each event's `u` is above the cursor it was checked against |
| `Reconciler.CursorIncreases` | OrderBook.cs:62-100 | along an accepted run of well-formed events the final ids strictly increase, all above the snapshot id |
| `Reconciler.CursorMovesBackOnReversedRange` | OrderBook.cs:75-100 | a later event with `U == lastUpdateId + 1` but `u < U` passes the gate and moves the cursor backwards |
| `Reconciler.ReversedRangeReplaysIds` | OrderBook.cs:45-100 | a session from snapshot 100 over 101-110, 111-105, 106-107 accepts all three: the cursor moves back to 105, then ids already applied are applied again, ending at 107 with no desync |
| `Reconciler.ApplyEventsKeepsPositive` | OrderBook.cs:87-90 | applying accepted events, bids then asks, keeps an all-positive book all-positive |
| `Reconciler.SessionPositive` | OrderBook.cs:38-101 | from a snapshot whose quantities are all positive, the book a session ends with holds only positive quantities, whatever the buffer |
| `Reconciler.EndToEndScenario` | OrderBook.cs:38-101 | snapshot 100 with bid 10.0 and ask 11.0, a stale event, then events 101 and 102-103 deleting both levels: empty book, cursor 103, no desync |
| `Reconciler.DesyncScenario` | OrderBook.cs:62-69 | a first event starting at 102 after snapshot 100 is rejected; book and cursor stay those of the snapshot |

## Left out

- The WebSocket connection, receive loop and HTTP snapshot fetch (`ReceiveEvents`, `GetDepthSnapshot`, OrderBook.cs:22-23, 113-141): network I/O. The snapshot and the buffer are parameters of `Reconcile`.
- JSON parsing and the casts to `long`, `string` and `decimal`: events and snapshots are already-decoded datatypes. A malformed field is not modelled.
- `Console.WriteLine` of the book and of "Invalid event ordering." (OrderBook.cs:67, 77, 93-97): output only. The desync is the `desynced` result.
- The `Task.Delay(100)` polling and the endless `while (true)`: the model processes a finite, already-collected buffer. `Reconcile` returns when the buffer is empty, where the source would idle and poll again.
- The concurrent producer appending to the shared list: the buffer is a fixed sequence. Events that would arrive after the stale filter ran are not part of the input, so they are neither filtered nor processed.
- Cancellation and WebSocket close after the loop (OrderBook.cs:107-110): process lifecycle; no book state is involved.
- 64-bit wrap-around of `lastUpdateId + 1`: ids are unbounded integers; exchange ids stay far below the `long` range.
- In-place mutation of the dictionary: the C# `UpdateOrderBook` and `ProcessSnapshot` mutate the dictionary they are given and return it; the model works on map values, so aliasing between the argument and the result is not captured (every caller reassigns the result, so nothing observes it).
