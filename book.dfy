/**
 The order-book store: a map from price level to quantity, the price-level
 update that the diff events drive (upsert on a positive quantity, delete
 otherwise) and the seeding of the map from a depth snapshot.

 Prices are the exchange's price strings, used verbatim as keys; quantities
 are exact decimals, modelled as `real`.
 */
module Book {

  datatype Option<T> = None | Some(value: T)

  /** One `[price, quantity]` entry of a bid or ask list. */
  datatype Level = Level(price: string, quantity: real)

  /** The local replica: price -> quantity. */
  type OrderBook = map<string, real>

  /** The quantity stored for `p`, if any. */
  function Get(book: OrderBook, p: string): Option<real>
  {
    if p in book then Some(book[p]) else None
  }

  /** The set of prices mentioned in a list of levels. */
  function Prices(levels: seq<Level>): set<string>
  {
    set i | 0 <= i < |levels| :: levels[i].price
  }

  /** `j` is the last position of price `p` in `levels`. */
  predicate IsLastOf(levels: seq<Level>, p: string, j: int)
  {
    && 0 <= j < |levels|
    && levels[j].price == p
    && forall k :: j < k < |levels| ==> levels[k].price != p
  }

  /** Every stored quantity is strictly positive. */
  predicate AllPositive(book: OrderBook)
  {
    forall p :: p in book ==> book[p] > 0.0
  }

  /** Every level of the list carries a strictly positive quantity. */
  predicate PositiveLevels(levels: seq<Level>)
  {
    forall i :: 0 <= i < |levels| ==> levels[i].quantity > 0.0
  }

  // ---------------------------------------------------------------------------
  // Specification functions
  // ---------------------------------------------------------------------------

  /** The effect of one update entry: a positive quantity overwrites the
      level, any other quantity removes the price key. */
  function ApplyLevel(book: OrderBook, l: Level): (r: OrderBook)
    ensures l.quantity > 0.0 ==> l.price in r && r[l.price] == l.quantity
    ensures l.quantity <= 0.0 ==> l.price !in r
    ensures forall p :: p != l.price ==> Get(r, p) == Get(book, p)
  {
    if l.quantity > 0.0 then book[l.price := l.quantity] else book - {l.price}
  }

  /** The entries of an update list applied one after the other, in list order. */
  function ApplyLevels(book: OrderBook, levels: seq<Level>): OrderBook
    decreases |levels|
  {
    if levels == [] then book else ApplyLevels(ApplyLevel(book, levels[0]), levels[1..])
  }

  /** Snapshot seeding of a list: every entry is stored, whatever its quantity,
      later entries overwriting earlier ones. */
  function SeedLevels(book: OrderBook, levels: seq<Level>): OrderBook
    decreases |levels|
  {
    if levels == [] then book else SeedLevels(book[levels[0].price := levels[0].quantity], levels[1..])
  }

  /** The book built from a snapshot: the bids, then the asks, into an empty map. */
  function SnapshotBook(bids: seq<Level>, asks: seq<Level>): OrderBook
  {
    SeedLevels(SeedLevels(map[], bids), asks)
  }

  // ---------------------------------------------------------------------------
  // Operations
  // ---------------------------------------------------------------------------

  /** Builds the book from the snapshot's bid and ask lists. The key set is
      the union of both price sets; on a price present on both sides the ask
      entry, written last, is the one kept. */
  method ProcessSnapshot(bids: seq<Level>, asks: seq<Level>) returns (book: OrderBook)
    ensures book == SnapshotBook(bids, asks)
    ensures book.Keys == Prices(bids) + Prices(asks)
    ensures forall p, j :: IsLastOf(asks, p, j) ==> book[p] == asks[j].quantity
    ensures forall p, j :: IsLastOf(bids, p, j) && p !in Prices(asks) ==> book[p] == bids[j].quantity
  {
    book := map[];
    var i := 0;
    while i < |bids|
      invariant 0 <= i <= |bids|
      invariant SeedLevels(book, bids[i..]) == SeedLevels(map[], bids)
    {
      assert bids[i..][1..] == bids[i + 1..];
      book := book[bids[i].price := bids[i].quantity];
      i := i + 1;
    }
    assert bids[i..] == [];
    i := 0;
    while i < |asks|
      invariant 0 <= i <= |asks|
      invariant SeedLevels(book, asks[i..]) == SnapshotBook(bids, asks)
    {
      assert asks[i..][1..] == asks[i + 1..];
      book := book[asks[i].price := asks[i].quantity];
      i := i + 1;
    }
    assert asks[i..] == [];
    SnapshotBookKeys(bids, asks);
    forall p, j | IsLastOf(asks, p, j) ensures book[p] == asks[j].quantity {
      SeedLevelsLast(SeedLevels(map[], bids), asks, p, j);
    }
    forall p, j | IsLastOf(bids, p, j) && p !in Prices(asks) ensures book[p] == bids[j].quantity {
      SeedLevelsLast(map[], bids, p, j);
      SeedLevelsUntouched(SeedLevels(map[], bids), asks, p);
    }
  }

  /** Applies one side's update list to the book. `isBid` only says which side
      the list came from; the store itself is side-agnostic and ignores it. */
  method UpdateOrderBook(book: OrderBook, updates: seq<Level>, isBid: bool) returns (r: OrderBook)
    ensures r == ApplyLevels(book, updates)
    ensures forall p, j :: IsLastOf(updates, p, j) && updates[j].quantity > 0.0 ==> p in r && r[p] == updates[j].quantity
    ensures forall p, j :: IsLastOf(updates, p, j) && updates[j].quantity <= 0.0 ==> p !in r
    ensures forall p :: p !in Prices(updates) ==> Get(r, p) == Get(book, p)
  {
    r := book;
    var i := 0;
    while i < |updates|
      invariant 0 <= i <= |updates|
      invariant ApplyLevels(r, updates[i..]) == ApplyLevels(book, updates)
    {
      assert updates[i..][1..] == updates[i + 1..];
      var entry := updates[i];
      if entry.quantity > 0.0 {
        r := r[entry.price := entry.quantity];
      } else {
        r := r - {entry.price};
      }
      i := i + 1;
    }
    assert updates[i..] == [];
    forall p, j | IsLastOf(updates, p, j)
      ensures updates[j].quantity > 0.0 ==> p in r && r[p] == updates[j].quantity
      ensures updates[j].quantity <= 0.0 ==> p !in r
    {
      ApplyLevelsLast(book, updates, p, j);
    }
    forall p | p !in Prices(updates) ensures Get(r, p) == Get(book, p) {
      ApplyLevelsUntouched(book, updates, p);
    }
  }

  // ---------------------------------------------------------------------------
  // Lemmas about the price-level update
  // ---------------------------------------------------------------------------

  lemma PricesTail(levels: seq<Level>)
    requires levels != []
    ensures Prices(levels) == {levels[0].price} + Prices(levels[1..])
  {
  }

  /** A price the update list never mentions keeps its previous level
      (present with the same quantity, or absent). */
  lemma {:induction false} ApplyLevelsUntouched(book: OrderBook, levels: seq<Level>, p: string)
    requires p !in Prices(levels)
    ensures Get(ApplyLevels(book, levels), p) == Get(book, p)
    decreases |levels|
  {
    if levels != [] {
      PricesTail(levels);
      ApplyLevelsUntouched(ApplyLevel(book, levels[0]), levels[1..], p);
    }
  }

  /** The last entry for a price decides it: a positive quantity is stored
      exactly (overwrite, not add), any other quantity leaves the key absent. */
  lemma {:induction false} ApplyLevelsLast(book: OrderBook, levels: seq<Level>, p: string, j: int)
    requires IsLastOf(levels, p, j)
    ensures levels[j].quantity > 0.0 ==> p in ApplyLevels(book, levels) && ApplyLevels(book, levels)[p] == levels[j].quantity
    ensures levels[j].quantity <= 0.0 ==> p !in ApplyLevels(book, levels)
    decreases |levels|
  {
    var tail := levels[1..];
    if j == 0 {
      assert p !in Prices(tail) by {
        forall i | 0 <= i < |tail| ensures tail[i].price != p {
          assert tail[i] == levels[i + 1];
        }
      }
      ApplyLevelsUntouched(ApplyLevel(book, levels[0]), tail, p);
    } else {
      assert IsLastOf(tail, p, j - 1);
      ApplyLevelsLast(ApplyLevel(book, levels[0]), tail, p, j - 1);
    }
  }

  /** A price mentioned in a list has a last position in it. */
  lemma {:induction false} LastOfExists(levels: seq<Level>, p: string) returns (j: int)
    requires p in Prices(levels)
    ensures IsLastOf(levels, p, j)
    decreases |levels|
  {
    var n := |levels|;
    if levels[n - 1].price == p {
      j := n - 1;
    } else {
      var init := levels[..n - 1];
      assert p in Prices(init) by {
        var i :| 0 <= i < n && levels[i].price == p;
        assert init[i].price == p;
      }
      j := LastOfExists(init, p);
    }
  }

  /** No key appears except those already stored or mentioned by the update. */
  lemma {:induction false} ApplyLevelsKeys(book: OrderBook, levels: seq<Level>)
    ensures ApplyLevels(book, levels).Keys <= book.Keys + Prices(levels)
    decreases |levels|
  {
    if levels != [] {
      PricesTail(levels);
      ApplyLevelsKeys(ApplyLevel(book, levels[0]), levels[1..]);
    }
  }

  /** An update never stores a zero or negative quantity: if the book held
      only positive levels before, it holds only positive levels after. */
  lemma {:induction false} ApplyLevelsKeepsPositive(book: OrderBook, levels: seq<Level>)
    requires AllPositive(book)
    ensures AllPositive(ApplyLevels(book, levels))
    decreases |levels|
  {
    if levels != [] {
      var next := ApplyLevel(book, levels[0]);
      assert AllPositive(next) by {
        forall p | p in next ensures next[p] > 0.0 {
          if p != levels[0].price { assert Get(next, p) == Get(book, p); }
        }
      }
      ApplyLevelsKeepsPositive(next, levels[1..]);
    }
  }

  /** Two books with the same lookup at every price are the same book. */
  lemma BooksEqual(a: OrderBook, b: OrderBook)
    requires forall p :: Get(a, p) == Get(b, p)
    ensures a == b
  {
    assert forall p :: p in a <==> Get(a, p).Some?;
    assert a.Keys == b.Keys;
  }

  /** Applying the same update list twice has the effect of applying it once:
      overwrites and deletions are both idempotent. */
  lemma ApplyLevelsIdempotent(book: OrderBook, levels: seq<Level>)
    ensures ApplyLevels(ApplyLevels(book, levels), levels) == ApplyLevels(book, levels)
  {
    var once := ApplyLevels(book, levels);
    var twice := ApplyLevels(once, levels);
    forall p ensures Get(twice, p) == Get(once, p) {
      if p in Prices(levels) {
        var j := LastOfExists(levels, p);
        ApplyLevelsLast(book, levels, p, j);
        ApplyLevelsLast(once, levels, p, j);
      } else {
        ApplyLevelsUntouched(once, levels, p);
      }
    }
    BooksEqual(twice, once);
  }

  /** Deleting a price that is not stored leaves the book as it is. */
  lemma RemoveAbsentIsNoOp(book: OrderBook, l: Level)
    requires l.quantity <= 0.0 && l.price !in book
    ensures ApplyLevels(book, [l]) == book
  {
  }

  // ---------------------------------------------------------------------------
  // Lemmas about snapshot seeding
  // ---------------------------------------------------------------------------

  lemma {:induction false} SeedLevelsKeys(book: OrderBook, levels: seq<Level>)
    ensures SeedLevels(book, levels).Keys == book.Keys + Prices(levels)
    decreases |levels|
  {
    if levels != [] {
      PricesTail(levels);
      SeedLevelsKeys(book[levels[0].price := levels[0].quantity], levels[1..]);
    }
  }

  lemma {:induction false} SeedLevelsUntouched(book: OrderBook, levels: seq<Level>, p: string)
    requires p !in Prices(levels)
    ensures Get(SeedLevels(book, levels), p) == Get(book, p)
    decreases |levels|
  {
    if levels != [] {
      PricesTail(levels);
      SeedLevelsUntouched(book[levels[0].price := levels[0].quantity], levels[1..], p);
    }
  }

  /** During seeding the last entry for a price is the one stored. */
  lemma {:induction false} SeedLevelsLast(book: OrderBook, levels: seq<Level>, p: string, j: int)
    requires IsLastOf(levels, p, j)
    ensures p in SeedLevels(book, levels) && SeedLevels(book, levels)[p] == levels[j].quantity
    decreases |levels|
  {
    var tail := levels[1..];
    var next := book[levels[0].price := levels[0].quantity];
    if j == 0 {
      assert p !in Prices(tail) by {
        forall i | 0 <= i < |tail| ensures tail[i].price != p {
          assert tail[i] == levels[i + 1];
        }
      }
      SeedLevelsUntouched(next, tail, p);
    } else {
      assert IsLastOf(tail, p, j - 1);
      SeedLevelsLast(next, tail, p, j - 1);
    }
  }

  /** The snapshot book's keys are exactly the bid and ask prices. */
  lemma SnapshotBookKeys(bids: seq<Level>, asks: seq<Level>)
    ensures SnapshotBook(bids, asks).Keys == Prices(bids) + Prices(asks)
  {
    SeedLevelsKeys(map[], bids);
    SeedLevelsKeys(SeedLevels(map[], bids), asks);
  }

  /** When every quantity is positive, as on a well-formed snapshot, seeding
      is the same as applying the levels as an update. */
  lemma {:induction false} SeedIsApplyOnPositive(book: OrderBook, levels: seq<Level>)
    requires PositiveLevels(levels)
    ensures SeedLevels(book, levels) == ApplyLevels(book, levels)
    decreases |levels|
  {
    if levels != [] {
      assert PositiveLevels(levels[1..]) by {
        forall i | 0 <= i < |levels[1..]| ensures levels[1..][i].quantity > 0.0 {
          assert levels[1..][i] == levels[i + 1];
        }
      }
      SeedIsApplyOnPositive(book[levels[0].price := levels[0].quantity], levels[1..]);
    }
  }
}
