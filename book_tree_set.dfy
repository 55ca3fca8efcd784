/**
 * BookTreeSetImpl.java: the book as an object whose entry set the operations change in place.
 * The TreeSet ordered by descending price becomes a sequence kept Sorted.
 */
module BookTreeSetImpl {
  import opened Wrappers
  import opened EntryTypes
  import opened Entries
  import opened OrderBook

  class BookTreeSet {
    /** The entries, highest price first, at most one per price. */
    var entries: seq<Entry>

    ghost predicate Valid()
      reads this
    {
      Sorted(entries)
    }

    /** An empty book. */
    constructor ()
      ensures Valid() && entries == []
    {
      entries := [];
    }

    /** getEntries: all entries, sorted by descending price. */
    method GetEntries() returns (r: seq<Entry>)
      requires Valid()
      ensures r == entries
      ensures forall i, j :: 0 <= i < j < |r| ==> r[i].price > r[j].price
    {
      r := entries;
    }

    /** bestBid: the highest-priced bid of non-zero size, or an empty level at price 0. */
    method BestBid() returns (r: Entry)
      requires Valid()
      ensures r == BestBidOf(entries)
      ensures r == Sentinel(0) || (r in entries && LiveBid(r))
      ensures r == Sentinel(0) <==> forall x :: x in entries ==> !LiveBid(x)
      ensures forall x :: x in entries && LiveBid(x) ==> x.price <= r.price
    {
      r := BestBidOf(entries);
    }

    /** bestAsk: the lowest-priced ask of non-zero size, or an empty level at price 0. */
    method BestAsk() returns (r: Entry)
      requires Valid()
      ensures r == BestAskOf(entries)
      ensures r == Sentinel(0) || (r in entries && LiveAsk(r))
      ensures r == Sentinel(0) <==> forall x :: x in entries ==> !LiveAsk(x)
      ensures forall x :: x in entries && LiveAsk(x) ==> r.price <= x.price
    {
      r := BestAskOf(entries);
    }

    /** getEntryByPrice: the level stored at that price, or an empty level at that price. */
    method GetEntryByPrice(price: int) returns (r: Entry)
      requires Valid()
      ensures r == EntryAt(entries, price)
      ensures r.price == price
      ensures r in entries || r == Sentinel(price)
      ensures (exists x :: x in entries && x.price == price) ==> r in entries
    {
      r := EntryAt(entries, price);
    }

    /** clear. */
    method Clear()
      modifies this
      ensures Valid() && entries == []
    {
      entries := [];
    }

    /** update: the entry at e's price, if any, is removed; then e is added. */
    method Update(e: Entry)
      requires Valid()
      modifies this
      ensures Valid() && entries == Upsert(old(entries), e)
      ensures Lookup(entries, e.price) == Some(e)
      ensures forall p :: p != e.price ==> Lookup(entries, p) == Lookup(old(entries), p)
    {
      if Lookup(entries, e.price).Some? {
        entries := Without(entries, e.price);
      }
      entries := Insert(entries, e);
    }

    /** addAll: update with each entry of the list, in list order. */
    method AddAll(received: seq<Entry>)
      requires Valid()
      modifies this
      ensures Valid() && entries == UpsertAll(old(entries), received)
    {
      for i := 0 to |received|
        invariant Valid() && entries == UpsertAll(old(entries), received[..i])
      {
        assert received[..i + 1][..i] == received[..i];
        Update(received[i]);
      }
      assert received[..|received|] == received;
    }

    /** orderSell: walk tailSet(bestBid()), highest price first. */
    method OrderSell(size: int) returns (outcome: Outcome<BookError>)
      requires Valid()
      modifies this
      ensures Valid() && (entries, outcome) == AfterSell(old(entries), size)
    {
      var selected := SellWalk(entries);
      outcome := RemoveFromFirstShares(selected, size);
    }

    /** orderBuy: walk descendingSet().tailSet(bestAsk()), lowest price first. */
    method OrderBuy(size: int) returns (outcome: Outcome<BookError>)
      requires Valid()
      modifies this
      ensures Valid() && (entries, outcome) == AfterBuy(old(entries), size)
    {
      var selected := BuyWalk(entries);
      outcome := RemoveFromFirstShares(selected, size);
    }

    /**
     * removeFromFirstShares: reduce the selected entries in place, in order, while demand is
     * left; then report demand left over by the type of the first selected entry.
     */
    method RemoveFromFirstShares(selected: seq<nat>, size: int) returns (outcome: Outcome<BookError>)
      requires Valid() && InBounds(entries, selected)
      modifies this
      ensures Valid() && (entries, outcome) == Order(old(entries), selected, size)
    {
      var sizeLeft := size;
      var i := 0;
      while i < |selected|
        invariant 0 <= i <= |selected|
        invariant |entries| == |old(entries)|
        invariant forall j :: 0 <= j < |entries| ==> entries[j].price == old(entries)[j].price
        invariant forall j :: 0 <= j < |entries| ==> entries[j].kind == old(entries)[j].kind
        invariant Consume(old(entries), selected, size) == Consume(entries, selected[i..], sizeLeft)
      {
        if sizeLeft == 0 {
          break;
        }
        var k := selected[i];
        var entry := entries[k];
        if sizeLeft < entry.size {
          entries := entries[k := entry.(size := entry.size - sizeLeft)];
          sizeLeft := 0;
        } else {
          sizeLeft := sizeLeft - entry.size;
          entries := entries[k := entry.(size := 0)];
        }
        assert selected[i..][1..] == selected[i + 1..];
        i := i + 1;
      }
      if sizeLeft != 0 {
        if |selected| == 0 {
          outcome := Fail(EmptySelection);
        } else if entries[selected[0]].kind == Some(Bid) {
          outcome := Fail(NoMoreBids(size));
        } else if entries[selected[0]].kind == Some(Ask) {
          outcome := Fail(NoMoreAsks(size));
        } else {
          outcome := Pass;
        }
      } else {
        outcome := Pass;
      }
    }
  }
}
