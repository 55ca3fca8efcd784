/**
 * The book of the repository's tests: eight levels loaded into an empty book, then the
 * updates, queries and orders the tests apply to it, with the answers they expect.
 */
module BookScenarios {
  import opened Wrappers
  import opened EntryTypes
  import opened Entries
  import opened OrderBook

  /** The levels the tests load, highest price first. */
  function SeedList(): seq<Entry> {
    [Entry(99, 0, Some(Ask)), Entry(98, 50, Some(Ask)), Entry(97, 0, Some(Spread)), Entry(96, 0, Some(Spread)),
     Entry(95, 40, Some(Bid)), Entry(94, 30, Some(Bid)), Entry(93, 0, Some(Bid)), Entry(92, 77, Some(Bid))]
  }

  /** A book holding exactly those levels, described level by level. */
  predicate IsSeed(es: seq<Entry>) {
    |es| == 8
    && es[0] == Entry(99, 0, Some(Ask)) && es[1] == Entry(98, 50, Some(Ask))
    && es[2] == Entry(97, 0, Some(Spread)) && es[3] == Entry(96, 0, Some(Spread))
    && es[4] == Entry(95, 40, Some(Bid)) && es[5] == Entry(94, 30, Some(Bid))
    && es[6] == Entry(93, 0, Some(Bid)) && es[7] == Entry(92, 77, Some(Bid))
  }

  /** addAll of the levels into an empty book stores them as listed. */
  lemma LoadSeed()
    ensures IsSeed(UpsertAll([], SeedList()))
  {
    SortedByNeighbours(SeedList());
    LoadSorted(SeedList());
  }

  lemma SeedSorted(es: seq<Entry>)
    requires IsSeed(es)
    ensures Sorted(es)
  {
    SortedByNeighbours(es);
  }

  /** The bids hold 147 in all, the asks 50. */
  lemma SeedSideTotals(es: seq<Entry>)
    requires IsSeed(es)
    ensures SideTotal(es, Bid) == 147 && SideTotal(es, Ask) == 50
  {
    assert es == SeedList();
  }

  /** The best bid is the highest live bid. */
  lemma SeedBestBid(es: seq<Entry>)
    requires IsSeed(es)
    ensures BestBidOf(es) == Entry(95, 40, Some(Bid))
  {
    BestBidAt(es, 4);
  }

  /** The best ask is the lowest live ask: the empty level at 99 does not count. */
  lemma SeedBestAsk(es: seq<Entry>)
    requires IsSeed(es)
    ensures BestAskOf(es) == Entry(98, 50, Some(Ask))
  {
    BestAskAt(es, 1);
  }

  /** getEntryByPrice finds a stored level, and answers an empty level for a price the book lacks. */
  lemma SeedEntryAt(es: seq<Entry>)
    requires IsSeed(es)
    ensures EntryAt(es, 95) == Entry(95, 40, Some(Bid))
    ensures EntryAt(es, 100500) == Entry(100500, 0, None)
  {
    SeedSorted(es);
    LookupAt(es, 4);
    assert Lookup(es, 100500).None?;
  }

  /** A sell walks the levels from the best bid down. */
  lemma SeedSellWalk(es: seq<Entry>)
    requires IsSeed(es)
    ensures SellWalk(es) == [4, 5, 6, 7]
  {
    SeedBestBid(es);
    forall i | 0 <= i < 4
      ensures es[i].price > 95
    {
      assert i == 0 || i == 1 || i == 2 || i == 3;
    }
    FirstAtOrBelowAt(es, 95, 4);
    var w := Ascending(4, 8);
    assert |w| == 4 && w[0] == 4 && w[1] == 5 && w[2] == 6 && w[3] == 7;
  }

  /** Selling 5 takes them from the best bid, which keeps 35; the bids then hold 142. */
  lemma SellFive(es: seq<Entry>)
    requires IsSeed(es)
    ensures var (after, outcome) := AfterSell(es, 5);
      outcome == Pass && after == es[4 := Entry(95, 35, Some(Bid))]
      && SideTotal(after, Bid) == 142 && BestBidOf(after) == Entry(95, 35, Some(Bid))
  {
    SeedSellWalk(es);
    var after := es[4 := Entry(95, 35, Some(Bid))];
    assert Consume(es, [4, 5, 6, 7], 5) == (after, 0);
    SeedSideTotals(es);
    SideTotalUpdate(es, 4, Entry(95, 35, Some(Bid)), Bid);
    BestBidAt(after, 4);
  }

  /** The book with every bid emptied. */
  function NoBids(es: seq<Entry>): seq<Entry>
    requires |es| == 8
  {
    es[4 := es[4].(size := 0)][5 := es[5].(size := 0)][6 := es[6].(size := 0)][7 := es[7].(size := 0)]
  }

  lemma NoBidsTotal(es: seq<Entry>)
    requires IsSeed(es)
    ensures SideTotal(NoBids(es), Bid) == 0
  {
    var b1 := es[4 := es[4].(size := 0)];
    var b2 := b1[5 := es[5].(size := 0)];
    var b3 := b2[6 := es[6].(size := 0)];
    SeedSideTotals(es);
    SideTotalUpdate(es, 4, es[4].(size := 0), Bid);
    SideTotalUpdate(b1, 5, es[5].(size := 0), Bid);
    SideTotalUpdate(b2, 6, es[6].(size := 0), Bid);
    SideTotalUpdate(b3, 7, es[7].(size := 0), Bid);
  }

  /** Each bid in turn gives up all it holds, the demand shrinking by as much. */
  lemma SeedSellAll(es: seq<Entry>, n: int)
    requires IsSeed(es) && n >= 147
    ensures Consume(es, [4, 5, 6, 7], n) == (NoBids(es), n - 147)
  {
    var b1 := es[4 := es[4].(size := 0)];
    var b2 := b1[5 := es[5].(size := 0)];
    var b3 := b2[6 := es[6].(size := 0)];
    var b4 := b3[7 := es[7].(size := 0)];
    assert [4, 5, 6, 7][1..] == [5, 6, 7] && [5, 6, 7][1..] == [6, 7] && [6, 7][1..] == [7] && [7][1..] == [];
    if n == 147 {
      assert Consume(b3, [7], 77) == (b4, 0);
    } else {
      assert Consume(b3, [7], n - 70) == (b4, n - 147);
    }
    assert Consume(b2, [6, 7], n - 70) == (b4, n - 147);
    assert Consume(b1, [5, 6, 7], n - 40) == (b4, n - 147);
  }

  /** Selling exactly what the bids hold empties every bid without an error. */
  lemma SellAllBids(es: seq<Entry>)
    requires IsSeed(es)
    ensures var (after, outcome) := AfterSell(es, 147);
      outcome == Pass && after == NoBids(es) && SideTotal(after, Bid) == 0
  {
    SeedSellWalk(es);
    SeedSellAll(es, 147);
    NoBidsTotal(es);
  }

  /** Selling more than the bids hold throws, naming the size of the order; the bids stay emptied. */
  lemma SellTooMuch(es: seq<Entry>)
    requires IsSeed(es)
    ensures AfterSell(es, 149) == (NoBids(es), Fail(NoMoreBids(149)))
  {
    SeedSellWalk(es);
    SeedSellAll(es, 149);
  }

  /** Empty levels updated in above and below the best bid leave it as it was. */
  lemma EmptyBidsKeepBestBid(es: seq<Entry>)
    requires IsSeed(es)
    ensures BestBidOf(Upsert(Upsert(es, Entry(96, 0, Some(Bid))), Entry(94, 0, Some(Bid)))) == Entry(95, 40, Some(Bid))
  {
    SeedSorted(es);
    SeedBestBid(es);
    UpsertKeepsBestBid(es, Entry(96, 0, Some(Bid)));
    UpsertKeepsBestBid(Upsert(es, Entry(96, 0, Some(Bid))), Entry(94, 0, Some(Bid)));
  }

  /** A live bid above the best bid becomes the best bid. */
  lemma HigherBidBecomesBest(es: seq<Entry>)
    requires IsSeed(es)
    ensures BestBidOf(Upsert(es, Entry(96, 1, Some(Bid)))) == Entry(96, 1, Some(Bid))
  {
    SeedSorted(es);
    UpsertInPlace(es, 3, Entry(96, 1, Some(Bid)));
    BestBidAt(es[3 := Entry(96, 1, Some(Bid))], 3);
  }

  /** Updating the best bid's own level replaces it, so the best bid is the new entry. */
  lemma UpdatedBestBid(es: seq<Entry>)
    requires IsSeed(es)
    ensures BestBidOf(Upsert(es, Entry(95, 1, Some(Bid)))) == Entry(95, 1, Some(Bid))
  {
    SeedSorted(es);
    var s := es[4 := Entry(95, 1, Some(Bid))];
    UpsertInPlace(es, 4, Entry(95, 1, Some(Bid)));
    forall i | 0 <= i < 4
      ensures !LiveBid(s[i])
    {
      assert i == 0 || i == 1 || i == 2 || i == 3;
    }
    BestBidAt(s, 4);
  }

  /** An update at a price the book does not hold adds a ninth level. */
  lemma UpdateAddsLevel(es: seq<Entry>)
    requires IsSeed(es)
    ensures var s := Upsert(es, Entry(50, 20, Some(Ask)));
      Entry(50, 20, Some(Ask)) in s && |s| == 9
  {
    SeedSorted(es);
    forall i | 0 <= i < |es|
      ensures es[i].price != 50
    {
      assert i == 0 || i == 1 || i == 2 || i == 3 || i == 4 || i == 5 || i == 6 || i == 7;
    }
    assert Lookup(es, 50).None?;
  }

  /** An update at a price the book holds replaces that level, and the book keeps one level at that price. */
  lemma UpdateReplacesLevel(es: seq<Entry>)
    requires IsSeed(es)
    ensures var s := Upsert(es, Entry(99, 20, Some(Ask)));
      && s == es[0 := Entry(99, 20, Some(Ask))]
      && forall i :: 0 <= i < |s| && s[i].price == 99 ==> i == 0
  {
    SeedSorted(es);
    UpsertInPlace(es, 0, Entry(99, 20, Some(Ask)));
  }

  /** Empty asks updated in leave the best ask as it was. */
  lemma EmptyAsksKeepBestAsk(es: seq<Entry>)
    requires IsSeed(es)
    ensures BestAskOf(Upsert(Upsert(es, Entry(99, 0, Some(Ask))), Entry(97, 0, Some(Ask)))) == Entry(98, 50, Some(Ask))
  {
    SeedSorted(es);
    SeedBestAsk(es);
    UpsertKeepsBestAsk(es, Entry(99, 0, Some(Ask)));
    UpsertKeepsBestAsk(Upsert(es, Entry(99, 0, Some(Ask))), Entry(97, 0, Some(Ask)));
  }

  /** A live ask below the best ask becomes the best ask. */
  lemma LowerAskBecomesBest(es: seq<Entry>)
    requires IsSeed(es)
    ensures BestAskOf(Upsert(es, Entry(97, 1, Some(Ask)))) == Entry(97, 1, Some(Ask))
  {
    SeedSorted(es);
    UpsertInPlace(es, 2, Entry(97, 1, Some(Ask)));
    BestAskAt(es[2 := Entry(97, 1, Some(Ask))], 2);
  }

  /** A buy walks the levels from the best ask up. */
  lemma SeedBuyWalk(es: seq<Entry>)
    requires IsSeed(es)
    ensures BuyWalk(es) == [1, 0]
  {
    SeedBestAsk(es);
    CountAtOrAboveAt(es, 98, 2);
    var w := BuyWalk(es);
    assert |w| == 2 && w[0] == 1 && w[1] == 0;
  }

  /** Buying 5 takes them from the best ask; the asks then hold 45. */
  lemma BuyFive(es: seq<Entry>)
    requires IsSeed(es)
    ensures var (after, outcome) := AfterBuy(es, 5);
      outcome == Pass && after == es[1 := Entry(98, 45, Some(Ask))] && SideTotal(after, Ask) == 45
  {
    SeedBuyWalk(es);
    assert Consume(es, [1, 0], 5) == (es[1 := Entry(98, 45, Some(Ask))], 0);
    SeedSideTotals(es);
    SideTotalUpdate(es, 1, Entry(98, 45, Some(Ask)), Ask);
  }

  /** Refilling the level at 99 replaces it where it stands. */
  lemma RefillAsk(es: seq<Entry>)
    requires IsSeed(es)
    ensures Upsert(es, Entry(99, 10, Some(Ask))) == es[0 := Entry(99, 10, Some(Ask))]
  {
    SeedSorted(es);
    UpsertInPlace(es, 0, Entry(99, 10, Some(Ask)));
  }

  /** In the refilled book a buy still starts at 98, and goes on up to 99. */
  lemma RefilledBuyWalk(es: seq<Entry>)
    requires IsSeed(es)
    ensures BuyWalk(es[0 := Entry(99, 10, Some(Ask))]) == [1, 0]
  {
    var s := es[0 := Entry(99, 10, Some(Ask))];
    forall i | 1 < i < 8
      ensures !LiveAsk(s[i]) && s[i].price < 98
    {
      assert i == 2 || i == 3 || i == 4 || i == 5 || i == 6 || i == 7;
    }
    BestAskAt(s, 1);
    CountAtOrAboveAt(s, 98, 2);
    var w := Descending(2);
    assert |w| == 2 && w[0] == 1 && w[1] == 0;
  }

  /** Buying 55 from the refilled book empties the level at 98 and takes 5 from the level at 99. */
  lemma RefilledBuy(es: seq<Entry>)
    requires IsSeed(es)
    ensures var s := es[0 := Entry(99, 10, Some(Ask))];
      AfterBuy(s, 55) == (s[1 := Entry(98, 0, Some(Ask))][0 := Entry(99, 5, Some(Ask))], Pass)
  {
    RefilledBuyWalk(es);
    var s := es[0 := Entry(99, 10, Some(Ask))];
    var s1 := s[1 := Entry(98, 0, Some(Ask))];
    var after := s1[0 := Entry(99, 5, Some(Ask))];
    assert [1, 0][1..] == [0];
    assert Consume(s1, [0], 5) == (after, 0);
    assert Consume(s, [1, 0], 55) == (after, 0);
  }

  /** Above the spread, the tests' book holds no live ask. */
  lemma SeedNoAsksBelow(es: seq<Entry>)
    requires IsSeed(es)
    ensures forall i :: 2 <= i < |es| ==> !LiveAsk(es[i])
  {
    forall i | 2 <= i < |es|
      ensures !LiveAsk(es[i])
    {
      assert i == 2 || i == 3 || i == 4 || i == 5 || i == 6 || i == 7;
    }
  }

  /** After that buy the level at 99, down to 5, is the only live ask left. */
  lemma RefilledBestAsk(es: seq<Entry>)
    requires IsSeed(es)
    ensures BestAskOf(AfterBuy(es[0 := Entry(99, 10, Some(Ask))], 55).0) == Entry(99, 5, Some(Ask))
  {
    RefilledBuy(es);
    SeedNoAsksBelow(es);
    var after := es[0 := Entry(99, 10, Some(Ask))][1 := Entry(98, 0, Some(Ask))][0 := Entry(99, 5, Some(Ask))];
    assert |after| == 8 && after[0] == Entry(99, 5, Some(Ask)) && !LiveAsk(after[1]);
    assert forall i :: 1 <= i < |after| ==> !LiveAsk(after[i]) by {
      forall i | 1 <= i < |after|
        ensures !LiveAsk(after[i])
      {
        if i >= 2 {
          assert after[i] == es[i];
        }
      }
    }
    BestAskAt(after, 0);
  }

  /**
   * After the level at 99 is refilled with 10, buying 55 empties the best ask (50) and takes
   * the remaining 5 from the next ask up, which becomes the best ask.
   */
  lemma BuyThroughBestAsk(es: seq<Entry>)
    requires IsSeed(es)
    ensures var (after, outcome) := AfterBuy(Upsert(es, Entry(99, 10, Some(Ask))), 55);
      outcome == Pass && BestAskOf(after) == Entry(99, 5, Some(Ask))
  {
    RefillAsk(es);
    RefilledBuy(es);
    RefilledBestAsk(es);
  }

  /**
   * A book with bids and no asks: bestAsk answers the empty level at price 0, so a buy walks
   * every level from the lowest price up and takes its size from the bids.
   */
  lemma BuyWithoutAsksTakesBids()
    ensures AfterBuy([Entry(95, 40, Some(Bid)), Entry(94, 30, Some(Bid))], 5)
      == ([Entry(95, 40, Some(Bid)), Entry(94, 25, Some(Bid))], Pass)
  {
    var s := [Entry(95, 40, Some(Bid)), Entry(94, 30, Some(Bid))];
    assert BestAskOf(s) == Sentinel(0);
    CountAtOrAboveAt(s, 0, 2);
    var w := BuyWalk(s);
    assert |w| == 2 && w[0] == 1 && w[1] == 0;
    assert s[1 := Entry(94, 25, Some(Bid))] == [Entry(95, 40, Some(Bid)), Entry(94, 25, Some(Bid))];
    assert Consume(s, [1, 0], 5) == (s[1 := Entry(94, 25, Some(Bid))], 0);
  }
}
