/**
 * The order book's contract (OrderBook.java) as functions of the book's entries,
 * a sequence kept strictly descending by price, as BookTreeSetImpl.java keeps it.
 */
module OrderBook {
  import opened Wrappers
  import opened Decimal
  import opened EntryTypes
  import opened Entries

  /** Strictly descending prices: the TreeSet's order, with at most one entry per price. */
  predicate Sorted(es: seq<Entry>) {
    forall i, j :: 0 <= i < j < |es| ==> es[i].price > es[j].price
  }

  /** Strictly descending from each entry to the next is enough. */
  lemma {:induction false} SortedByNeighbours(es: seq<Entry>)
    requires forall i :: 0 < i < |es| ==> es[i - 1].price > es[i].price
    ensures Sorted(es)
  {
    if |es| > 1 {
      SortedByNeighbours(es[1..]);
      assert es[1..][0] == es[1];
    }
  }

  /** The entry stored at price p, found the way the TreeSet finds it: by price alone. */
  function Lookup(es: seq<Entry>, p: int): (r: Option<Entry>)
    ensures r.Some? ==> r.value in es && r.value.price == p
    ensures r.None? <==> forall i :: 0 <= i < |es| ==> es[i].price != p
  {
    if es == [] then None
    else if es[0].price == p then Some(es[0])
    else Lookup(es[1..], p)
  }

  /** In a sorted book, the entry at a position is the one found under its price. */
  lemma {:induction false} LookupAt(es: seq<Entry>, i: int)
    requires Sorted(es) && 0 <= i < |es|
    ensures Lookup(es, es[i].price) == Some(es[i])
  {
    if i > 0 {
      LookupAt(es[1..], i - 1);
    }
  }

  /** Two sorted books that store the same entry under every price are the same book. */
  lemma {:induction false} SortedExtensional(a: seq<Entry>, b: seq<Entry>)
    requires Sorted(a) && Sorted(b)
    requires forall p :: Lookup(a, p) == Lookup(b, p)
    ensures a == b
  {
    if a == [] {
      assert forall i :: 0 <= i < |b| ==> Lookup(a, b[i].price).None?;
    } else {
      LookupAt(a, 0);
      assert Lookup(b, a[0].price) == Some(a[0]);
      assert b != [];
      LookupAt(b, 0);
      assert Lookup(a, b[0].price) == Some(b[0]);
      assert a[0] == b[0];
      forall p
        ensures Lookup(a[1..], p) == Lookup(b[1..], p)
      {
        if p == a[0].price {
          assert Lookup(a[1..], p).None?;
          assert Lookup(b[1..], p).None?;
        } else {
          assert Lookup(a, p) == Lookup(a[1..], p);
          assert Lookup(b, p) == Lookup(b[1..], p);
        }
      }
      SortedExtensional(a[1..], b[1..]);
      assert a == [a[0]] + a[1..] && b == [b[0]] + b[1..];
    }
  }

  /** TreeSet.remove: drop the entry whose price is p, keep the rest in order. */
  function Without(es: seq<Entry>, p: int): (r: seq<Entry>)
    ensures forall q :: Lookup(r, q) == if q == p then None else Lookup(es, q)
    ensures forall x :: x in r ==> x in es
    ensures Sorted(es) ==> Sorted(r)
  {
    if es == [] then []
    else if es[0].price == p then Without(es[1..], p)
    else
      var rest := Without(es[1..], p);
      assert Sorted(es) ==> forall x :: x in rest ==> x.price < es[0].price;
      [es[0]] + rest
  }

  /** TreeSet.add of a price the book does not hold: the entry goes where its price belongs. */
  function Insert(es: seq<Entry>, e: Entry): (r: seq<Entry>)
    requires Sorted(es) && Lookup(es, e.price).None?
    ensures Sorted(r) && |r| == |es| + 1
    ensures forall q :: Lookup(r, q) == if q == e.price then Some(e) else Lookup(es, q)
    ensures forall x :: x in r <==> x == e || x in es
  {
    if es == [] || es[0].price < e.price then [e] + es
    else [es[0]] + Insert(es[1..], e)
  }

  /** update: remove the entry at e's price if there is one, then add e. */
  function Upsert(es: seq<Entry>, e: Entry): (r: seq<Entry>)
    requires Sorted(es)
    ensures Sorted(r)
    ensures Lookup(r, e.price) == Some(e)
    ensures forall q :: q != e.price ==> Lookup(r, q) == Lookup(es, q)
  {
    var kept := if Lookup(es, e.price).Some? then Without(es, e.price) else es;
    Insert(kept, e)
  }

  /** Updating twice with the same entry leaves the book as updating once. */
  lemma UpsertIdempotent(es: seq<Entry>, e: Entry)
    requires Sorted(es)
    ensures Upsert(Upsert(es, e), e) == Upsert(es, e)
  {
    SortedExtensional(Upsert(Upsert(es, e), e), Upsert(es, e));
  }

  /** Replacing an entry by one at the same price keeps the book sorted. */
  lemma SortedReplace(es: seq<Entry>, i: int, e: Entry)
    requires Sorted(es) && 0 <= i < |es| && e.price == es[i].price
    ensures Sorted(es[i := e])
  {
    var replaced := es[i := e];
    assert forall j :: 0 <= j < |es| ==> replaced[j].price == es[j].price;
  }

  /** Updating a price the book already holds replaces that entry where it stands. */
  lemma UpsertInPlace(es: seq<Entry>, i: int, e: Entry)
    requires Sorted(es) && 0 <= i < |es| && e.price == es[i].price
    ensures Upsert(es, e) == es[i := e]
  {
    var replaced := es[i := e];
    SortedReplace(es, i, e);
    forall p
      ensures Lookup(replaced, p) == Lookup(Upsert(es, e), p)
    {
      if p == e.price {
        LookupAt(replaced, i);
      } else {
        LookupElsewhere(es, i, e, p);
      }
    }
    SortedExtensional(replaced, Upsert(es, e));
  }

  /** Replacing the entry at one price leaves what the book finds under every other price. */
  lemma LookupElsewhere(es: seq<Entry>, i: int, e: Entry, p: int)
    requires Sorted(es) && 0 <= i < |es| && e.price == es[i].price && p != e.price
    ensures Lookup(es[i := e], p) == Lookup(es, p)
  {
    var replaced := es[i := e];
    SortedReplace(es, i, e);
    if Lookup(es, p).Some? {
      var j :| 0 <= j < |es| && es[j] == Lookup(es, p).value;
      LookupAt(es, j);
      LookupAt(replaced, j);
    } else {
      assert forall j :: 0 <= j < |replaced| ==> replaced[j].price == es[j].price;
    }
  }

  /** Updates at different prices commute. */
  lemma UpsertCommutes(es: seq<Entry>, a: Entry, b: Entry)
    requires Sorted(es) && a.price != b.price
    ensures Upsert(Upsert(es, a), b) == Upsert(Upsert(es, b), a)
  {
    SortedExtensional(Upsert(Upsert(es, a), b), Upsert(Upsert(es, b), a));
  }

  /** addAll: the updates of a list, applied in list order. */
  function UpsertAll(es: seq<Entry>, list: seq<Entry>): (r: seq<Entry>)
    requires Sorted(es)
    ensures Sorted(r)
  {
    if list == [] then es
    else Upsert(UpsertAll(es, list[..|list| - 1]), list[|list| - 1])
  }

  /** The last entry of the list with price p, if any. */
  function LastAt(list: seq<Entry>, p: int): (r: Option<Entry>)
    ensures r.Some? ==> r.value in list && r.value.price == p
    ensures r.None? <==> forall i :: 0 <= i < |list| ==> list[i].price != p
  {
    if list == [] then None
    else if list[|list| - 1].price == p then Some(list[|list| - 1])
    else LastAt(list[..|list| - 1], p)
  }

  /** After addAll, each price holds the last entry of the list at that price, or what it held before. */
  lemma {:induction false} UpsertAllLastWins(es: seq<Entry>, list: seq<Entry>, p: int)
    requires Sorted(es)
    ensures Lookup(UpsertAll(es, list), p) == if LastAt(list, p).Some? then LastAt(list, p) else Lookup(es, p)
  {
    if list != [] {
      UpsertAllLastWins(es, list[..|list| - 1], p);
    }
  }

  /** addAll of a sorted list into an empty book stores exactly that list. */
  lemma LoadSorted(list: seq<Entry>)
    requires Sorted(list)
    ensures UpsertAll([], list) == list
  {
    forall p
      ensures Lookup(UpsertAll([], list), p) == Lookup(list, p)
    {
      UpsertAllLastWins([], list, p);
      var l := LastAt(list, p);
      if l.Some? {
        var i :| 0 <= i < |list| && list[i] == l.value;
        LookupAt(list, i);
      }
    }
    SortedExtensional(UpsertAll([], list), list);
  }

  /** An entry that bestBid may return: a bid with a non-zero size. */
  predicate LiveBid(e: Entry) {
    e.kind == Some(Bid) && e.size != 0
  }

  /** An entry that bestAsk may return: an ask with a non-zero size. */
  predicate LiveAsk(e: Entry) {
    e.kind == Some(Ask) && e.size != 0
  }

  /**
   * bestBid: the first live bid in the book's order, else the sentinel at price 0.
   * In a sorted book that is the highest-priced live bid.
   */
  function BestBidOf(es: seq<Entry>): (r: Entry)
    ensures r == Sentinel(0) || (r in es && LiveBid(r))
    ensures LiveBid(r) <==> exists x :: x in es && LiveBid(x)
    ensures Sorted(es) ==> forall x :: x in es && LiveBid(x) ==> x.price <= r.price
  {
    if es == [] then Sentinel(0)
    else if LiveBid(es[0]) then es[0]
    else BestBidOf(es[1..])
  }

  /**
   * bestAsk: the live asks sorted by ascending price, first one taken (the earliest on a tie),
   * else the sentinel at price 0.
   */
  function BestAskOf(es: seq<Entry>): (r: Entry)
    ensures r == Sentinel(0) || (r in es && LiveAsk(r))
    ensures LiveAsk(r) <==> exists x :: x in es && LiveAsk(x)
    ensures forall x :: x in es && LiveAsk(x) ==> r.price <= x.price
  {
    if es == [] then Sentinel(0)
    else
      var rest := BestAskOf(es[1..]);
      if LiveAsk(es[0]) && (!LiveAsk(rest) || es[0].price <= rest.price) then es[0] else rest
  }

  /** bestBid answers the first live bid in the book's order. */
  lemma {:induction false} BestBidAt(es: seq<Entry>, k: int)
    requires 0 <= k < |es| && LiveBid(es[k])
    requires forall i :: 0 <= i < k ==> !LiveBid(es[i])
    ensures BestBidOf(es) == es[k]
  {
    if k > 0 {
      BestBidAt(es[1..], k - 1);
    }
  }

  /** bestAsk answers the lowest live ask, the first one in the book's order on a tie. */
  lemma {:induction false} BestAskAt(es: seq<Entry>, k: int)
    requires 0 <= k < |es| && LiveAsk(es[k])
    requires forall i :: 0 <= i < k && LiveAsk(es[i]) ==> es[i].price > es[k].price
    requires forall i :: k < i < |es| && LiveAsk(es[i]) ==> es[i].price >= es[k].price
    ensures BestAskOf(es) == es[k]
  {
    var rest := BestAskOf(es[1..]);
    if k > 0 {
      BestAskAt(es[1..], k - 1);
    } else if LiveAsk(rest) {
      var j :| 0 <= j < |es[1..]| && es[1..][j] == rest;
      assert es[j + 1] == rest;
    }
  }

  /** In a sorted book every stored entry is the one found under its price. */
  lemma LookupMember(es: seq<Entry>, x: Entry)
    requires Sorted(es) && x in es
    ensures Lookup(es, x.price) == Some(x)
  {
    var i :| 0 <= i < |es| && es[i] == x;
    LookupAt(es, i);
  }

  /** Updating in a level that is not a live bid, at a price other than the best bid's, keeps the best bid. */
  lemma UpsertKeepsBestBid(es: seq<Entry>, e: Entry)
    requires Sorted(es) && !LiveBid(e) && e.price != BestBidOf(es).price
    ensures BestBidOf(Upsert(es, e)) == BestBidOf(es)
  {
    var u := Upsert(es, e);
    var b, r := BestBidOf(es), BestBidOf(u);
    if LiveBid(r) {
      assert r.price != e.price;
      LookupMember(u, r);
      assert Lookup(es, r.price) == Some(r);
      assert r in es;
      LookupMember(es, b);
      assert Lookup(u, b.price) == Some(b);
      assert b in u;
      assert r.price == b.price;
      LookupMember(u, b);
    } else if LiveBid(b) {
      LookupMember(es, b);
    }
  }

  /** Updating in a level that is not a live ask, at a price other than the best ask's, keeps the best ask. */
  lemma UpsertKeepsBestAsk(es: seq<Entry>, e: Entry)
    requires Sorted(es) && !LiveAsk(e) && e.price != BestAskOf(es).price
    ensures BestAskOf(Upsert(es, e)) == BestAskOf(es)
  {
    var u := Upsert(es, e);
    var a, r := BestAskOf(es), BestAskOf(u);
    if LiveAsk(r) {
      assert r.price != e.price;
      LookupMember(u, r);
      assert Lookup(es, r.price) == Some(r);
      assert r in es;
      LookupMember(es, a);
      assert Lookup(u, a.price) == Some(a);
      assert a in u;
      assert r.price == a.price;
      LookupMember(u, a);
    } else if LiveAsk(a) {
      LookupMember(es, a);
    }
  }

  /** Where tailSet(p) of the descending book starts: the first entry priced at or below p. */
  function FirstAtOrBelow(es: seq<Entry>, p: int): (k: nat)
    ensures k <= |es|
    ensures forall i :: 0 <= i < k ==> es[i].price > p
    ensures k < |es| ==> es[k].price <= p
    ensures Sorted(es) ==> forall i :: k <= i < |es| ==> es[i].price <= p
  {
    if es == [] || es[0].price <= p then 0 else 1 + FirstAtOrBelow(es[1..], p)
  }

  /** The first entry at or below p is the one every earlier entry is priced above. */
  lemma {:induction false} FirstAtOrBelowAt(es: seq<Entry>, p: int, k: int)
    requires 0 <= k <= |es| && forall i :: 0 <= i < k ==> es[i].price > p
    requires k < |es| ==> es[k].price <= p
    ensures FirstAtOrBelow(es, p) == k
  {
    if k > 0 {
      FirstAtOrBelowAt(es[1..], p, k - 1);
    }
  }

  /** How many leading entries are priced at or above p: the part descendingSet().tailSet(p) walks. */
  function CountAtOrAbove(es: seq<Entry>, p: int): (m: nat)
    ensures m <= |es|
    ensures forall i :: 0 <= i < m ==> es[i].price >= p
    ensures Sorted(es) ==> forall i :: m <= i < |es| ==> es[i].price < p
  {
    if es == [] || es[0].price < p then 0 else 1 + CountAtOrAbove(es[1..], p)
  }

  /** The leading run at or above p ends at the first entry below p. */
  lemma {:induction false} CountAtOrAboveAt(es: seq<Entry>, p: int, m: int)
    requires 0 <= m <= |es| && forall i :: 0 <= i < m ==> es[i].price >= p
    requires m < |es| ==> es[m].price < p
    ensures CountAtOrAbove(es, p) == m
  {
    if m > 0 {
      CountAtOrAboveAt(es[1..], p, m - 1);
    }
  }

  /** getEntryByPrice: if the price is present, the first entry of tailSet(price); else the sentinel at that price. */
  function EntryAt(es: seq<Entry>, p: int): (r: Entry)
    ensures Sorted(es) ==> r == match Lookup(es, p) case Some(x) => x case None => Sentinel(p)
  {
    if Lookup(es, p).Some? then
      var k := FirstAtOrBelow(es, p);
      if k < |es| then es[k] else Sentinel(p)
    else Sentinel(p)
  }

  /** Every index of the walk points into the book. */
  predicate InBounds(es: seq<Entry>, walk: seq<nat>) {
    forall t :: 0 <= t < |walk| ==> walk[t] < |es|
  }

  /** No entry is visited twice. */
  predicate Distinct(walk: seq<nat>) {
    forall s, t :: 0 <= s < t < |walk| ==> walk[s] != walk[t]
  }

  /** The indices lo, lo + 1, ..., hi - 1. */
  function Ascending(lo: nat, hi: nat): (r: seq<nat>)
    ensures |r| == if lo <= hi then hi - lo else 0
    ensures forall t :: 0 <= t < |r| ==> r[t] == lo + t
    decreases hi - lo
  {
    if lo < hi then [lo] + Ascending(lo + 1, hi) else []
  }

  /** The indices m - 1, m - 2, ..., 0. */
  function Descending(m: nat): (r: seq<nat>)
    ensures |r| == m
    ensures forall t :: 0 <= t < m ==> r[t] == m - 1 - t
  {
    if m == 0 then [] else [m - 1] + Descending(m - 1)
  }

  /**
   * orderSell's selection, tailSet(bestBid()): every entry priced at or below the best bid,
   * whatever its type, highest price first.
   */
  function SellWalk(es: seq<Entry>): (walk: seq<nat>)
    ensures InBounds(es, walk) && Distinct(walk)
    ensures Sorted(es) ==> forall i :: 0 <= i < |es| ==> (i in walk <==> es[i].price <= BestBidOf(es).price)
    ensures Sorted(es) ==> forall t :: 0 < t < |walk| ==> es[walk[t - 1]].price > es[walk[t]].price
  {
    var k := FirstAtOrBelow(es, BestBidOf(es).price);
    var walk := Ascending(k, |es|);
    assert forall i :: k <= i < |es| ==> i in walk by {
      forall i | k <= i < |es| ensures i in walk {
        assert walk[i - k] == i;
      }
    }
    walk
  }

  /**
   * orderBuy's selection, descendingSet().tailSet(bestAsk()): every entry priced at or above
   * the best ask, whatever its type, lowest price first.
   */
  function BuyWalk(es: seq<Entry>): (walk: seq<nat>)
    ensures InBounds(es, walk) && Distinct(walk)
    ensures Sorted(es) ==> forall i :: 0 <= i < |es| ==> (i in walk <==> es[i].price >= BestAskOf(es).price)
    ensures Sorted(es) ==> forall t :: 0 < t < |walk| ==> es[walk[t - 1]].price < es[walk[t]].price
  {
    var m := CountAtOrAbove(es, BestAskOf(es).price);
    var walk := Descending(m);
    assert forall i :: 0 <= i < m ==> i in walk by {
      forall i | 0 <= i < m ensures i in walk {
        assert walk[m - 1 - i] == i;
      }
    }
    walk
  }

  /** Sum of the sizes of the walked entries. */
  function WalkTotal(es: seq<Entry>, walk: seq<nat>): int
    requires InBounds(es, walk)
  {
    if walk == [] then 0 else es[walk[0]].size + WalkTotal(es, walk[1..])
  }

  /** Sum of the sizes of all entries. */
  function Total(es: seq<Entry>): int {
    if es == [] then 0 else es[0].size + Total(es[1..])
  }

  /** Sum of the sizes of the entries of one type, as the tests add them up. */
  function SideTotal(es: seq<Entry>, t: EntryType): int {
    if es == [] then 0 else Share(es[0], t) + SideTotal(es[1..], t)
  }

  /** What an entry adds to the total of side t. */
  function Share(e: Entry, t: EntryType): int {
    if e.kind == Some(t) then e.size else 0
  }

  /** Replacing one entry changes a side's total by the difference of the two entries' shares. */
  lemma {:induction false} SideTotalUpdate(es: seq<Entry>, i: int, x: Entry, t: EntryType)
    requires 0 <= i < |es|
    ensures SideTotal(es[i := x], t) == SideTotal(es, t) - Share(es[i], t) + Share(x, t)
  {
    if i > 0 {
      SideTotalUpdate(es[1..], i - 1, x, t);
      assert es[i := x][1..] == es[1..][i - 1 := x];
    }
  }

  predicate NonNegative(es: seq<Entry>) {
    forall i :: 0 <= i < |es| ==> es[i].size >= 0
  }

  /**
   * removeFromFirstShares on the walked entries, as values: visit them in order while
   * demand is left; an entry larger than the demand loses the demand, any other entry is
   * zeroed and its size taken off the demand. Returns the book and the demand left over.
   */
  function Consume(es: seq<Entry>, walk: seq<nat>, n: int): (r: (seq<Entry>, int))
    requires InBounds(es, walk)
    ensures |r.0| == |es|
    ensures forall i :: 0 <= i < |es| ==> r.0[i].price == es[i].price && r.0[i].kind == es[i].kind
    ensures n == 0 ==> r == (es, 0)
    decreases |walk|
  {
    if walk == [] || n == 0 then (es, n)
    else
      var k := walk[0];
      var e := es[k];
      if n < e.size then (es[k := e.(size := e.size - n)], 0)
      else Consume(es[k := e.(size := 0)], walk[1..], n - e.size)
  }

  /** An entry off the walk is never touched. */
  lemma {:induction false} ConsumeOutside(es: seq<Entry>, walk: seq<nat>, n: int, i: int)
    requires InBounds(es, walk) && 0 <= i < |es| && i !in walk
    ensures Consume(es, walk, n).0[i] == es[i]
    decreases |walk|
  {
    if walk != [] && n != 0 && es[walk[0]].size <= n {
      assert i != walk[0] && i !in walk[1..];
      ConsumeOutside(es[walk[0] := es[walk[0]].(size := 0)], walk[1..], n - es[walk[0]].size, i);
    }
  }

  /** Consuming never moves an entry: a sorted book stays sorted. */
  lemma ConsumeKeepsSorted(es: seq<Entry>, walk: seq<nat>, n: int)
    requires Sorted(es) && InBounds(es, walk)
    ensures Sorted(Consume(es, walk, n).0)
  {
  }

  lemma {:induction false} TotalUpdate(es: seq<Entry>, i: int, x: Entry)
    requires 0 <= i < |es|
    ensures Total(es[i := x]) == Total(es) - es[i].size + x.size
  {
    if i > 0 {
      TotalUpdate(es[1..], i - 1, x);
      assert es[i := x][1..] == es[1..][i - 1 := x];
    }
  }

  /** Whatever the sizes, the book's total drops by exactly the demand that was filled. */
  lemma {:induction false} ConsumeConserves(es: seq<Entry>, walk: seq<nat>, n: int)
    requires InBounds(es, walk)
    ensures var r := Consume(es, walk, n); Total(r.0) == Total(es) - (n - r.1)
    decreases |walk|
  {
    if walk != [] && n != 0 {
      var k := walk[0];
      var e := es[k];
      if n < e.size {
        TotalUpdate(es, k, e.(size := e.size - n));
      } else {
        TotalUpdate(es, k, e.(size := 0));
        ConsumeConserves(es[k := e.(size := 0)], walk[1..], n - e.size);
      }
    }
  }

  /** With non-negative sizes and demand, no size goes negative and the leftover is between 0 and the demand. */
  lemma {:induction false} ConsumeNonNegative(es: seq<Entry>, walk: seq<nat>, n: int)
    requires InBounds(es, walk) && NonNegative(es) && n >= 0
    ensures var r := Consume(es, walk, n); NonNegative(r.0) && 0 <= r.1 <= n
    decreases |walk|
  {
    if walk != [] && n != 0 {
      var k := walk[0];
      var e := es[k];
      if n >= e.size {
        ConsumeNonNegative(es[k := e.(size := 0)], walk[1..], n - e.size);
      }
    }
  }

  lemma {:induction false} WalkTotalNonNegative(es: seq<Entry>, walk: seq<nat>)
    requires InBounds(es, walk) && NonNegative(es)
    ensures WalkTotal(es, walk) >= 0
  {
    if walk != [] {
      WalkTotalNonNegative(es, walk[1..]);
    }
  }

  /** Changing an entry the walk does not visit leaves the walked total alone. */
  lemma {:induction false} WalkTotalOutside(es: seq<Entry>, walk: seq<nat>, k: nat, x: Entry)
    requires InBounds(es, walk) && k < |es| && k !in walk
    ensures WalkTotal(es[k := x], walk) == WalkTotal(es, walk)
  {
    if walk != [] {
      WalkTotalOutside(es, walk[1..], k, x);
    }
  }

  lemma {:induction false} WalkTotalAppend(es: seq<Entry>, a: seq<nat>, b: seq<nat>)
    requires InBounds(es, a) && InBounds(es, b)
    ensures InBounds(es, a + b) && WalkTotal(es, a + b) == WalkTotal(es, a) + WalkTotal(es, b)
  {
    if a == [] {
      assert a + b == b;
    } else {
      assert (a + b)[1..] == a[1..] + b;
      WalkTotalAppend(es, a[1..], b);
    }
  }

  /** The walk's total is what comes before position t, the entry at t, and what comes after. */
  lemma {:induction false} WalkTotalSplit(es: seq<Entry>, walk: seq<nat>, t: nat)
    requires InBounds(es, walk) && t < |walk|
    ensures InBounds(es, walk[..t]) && InBounds(es, walk[t + 1..])
    ensures WalkTotal(es, walk) == WalkTotal(es, walk[..t]) + es[walk[t]].size + WalkTotal(es, walk[t + 1..])
  {
    if t > 0 {
      WalkTotalSplit(es, walk[1..], t - 1);
      assert walk[1..][..t - 1] == walk[..t][1..];
      assert walk[1..][t..] == walk[t + 1..];
    }
  }

  function Max(a: int, b: int): int {
    if a < b then b else a
  }

  /**
   * Consumption is conserved on the walked entries: the demand left over is what exceeds
   * their total, and their total drops by exactly the demand that was filled.
   */
  lemma {:induction false} ConsumeWalkTotal(es: seq<Entry>, walk: seq<nat>, n: int)
    requires InBounds(es, walk) && Distinct(walk) && NonNegative(es) && n >= 0
    ensures var r := Consume(es, walk, n);
      && r.1 == Max(0, n - WalkTotal(es, walk))
      && WalkTotal(r.0, walk) == WalkTotal(es, walk) - (n - r.1)
    decreases |walk|
  {
    WalkTotalNonNegative(es, walk);
    if walk != [] && n != 0 {
      var k := walk[0];
      var e := es[k];
      var rest := walk[1..];
      assert k !in rest;
      var es1 := es[k := e.(size := if n < e.size then e.size - n else 0)];
      WalkTotalOutside(es, rest, k, es1[k]);
      WalkTotalNonNegative(es, rest);
      if n >= e.size {
        ConsumeWalkTotal(es1, rest, n - e.size);
        ConsumeOutside(es1, rest, n - e.size, k);
      }
    }
  }

  /** What one visited entry gives up: nothing once demand is met, else at most its whole size. */
  function Taken(size: int, demand: int): int {
    if demand <= 0 then 0 else if demand < size then demand else size
  }

  /**
   * The greedy rule, entry by entry: the m-th walked entry loses what it can of the demand
   * that the entries before it left over, so entries after the demand is met keep their size.
   */
  lemma {:induction false} ConsumeAt(es: seq<Entry>, walk: seq<nat>, n: int, m: nat)
    requires InBounds(es, walk) && Distinct(walk) && NonNegative(es) && n >= 0 && m < |walk|
    ensures InBounds(es, walk[..m])
    ensures var size := es[walk[m]].size;
      Consume(es, walk, n).0[walk[m]].size == size - Taken(size, n - WalkTotal(es, walk[..m]))
    decreases |walk|, 2
  {
    assert InBounds(es, walk[..m]);
    if n == 0 {
      WalkTotalNonNegative(es, walk[..m]);
    } else if m == 0 {
      ConsumeAtHead(es, walk, n);
    } else {
      ConsumeAtLater(es, walk, n, m);
    }
  }

  /** A later walked entry: the first one takes its share, the rest of the walk sees what is left. */
  lemma {:induction false} ConsumeAtLater(es: seq<Entry>, walk: seq<nat>, n: int, m: nat)
    requires InBounds(es, walk) && Distinct(walk) && NonNegative(es) && n > 0 && 0 < m < |walk|
    ensures InBounds(es, walk[..m])
    ensures var size := es[walk[m]].size;
      Consume(es, walk, n).0[walk[m]].size == size - Taken(size, n - WalkTotal(es, walk[..m]))
    decreases |walk|, 1
  {
    var k := walk[0];
    assert InBounds(es, walk[..m]) && walk[..m][1..] == walk[1..][..m - 1];
    assert WalkTotal(es, walk[..m]) == es[k].size + WalkTotal(es, walk[1..][..m - 1]);
    WalkTotalNonNegative(es, walk[1..][..m - 1]);
    if n < es[k].size {
      ConsumeStops(es, walk, n, walk[m]);
    } else {
      ConsumeAtPassed(es, walk, n, m);
    }
  }

  /** A later walked entry behind one the demand empties sees the demand the first one left. */
  lemma {:induction false} ConsumeAtPassed(es: seq<Entry>, walk: seq<nat>, n: int, m: nat)
    requires InBounds(es, walk) && Distinct(walk) && NonNegative(es) && 0 < m < |walk|
    requires 0 < n && es[walk[0]].size <= n
    ensures var size := es[walk[m]].size;
      Consume(es, walk, n).0[walk[m]].size == size - Taken(size, n - es[walk[0]].size - WalkTotal(es, walk[1..][..m - 1]))
    decreases |walk|, 0
  {
    var k, rest := walk[0], walk[1..];
    var e := es[k];
    var es1 := es[k := e.(size := 0)];
    ConsumePasses(es, walk, n);
    assert walk[m] == rest[m - 1] && walk[m] != k;
    assert Distinct(rest) && k !in rest[..m - 1];
    WalkTotalOutside(es, rest[..m - 1], k, e.(size := 0));
    ConsumeAt(es1, rest, n - e.size, m - 1);
  }

  /** Demand smaller than the first walked entry leaves every other entry as it was. */
  lemma ConsumeStops(es: seq<Entry>, walk: seq<nat>, n: int, j: int)
    requires InBounds(es, walk) && walk != [] && 0 < n < es[walk[0]].size
    requires 0 <= j < |es| && j != walk[0]
    ensures Consume(es, walk, n).0[j] == es[j]
  {
  }

  /** Demand at least the first walked entry empties it and passes the rest on down the walk. */
  lemma ConsumePasses(es: seq<Entry>, walk: seq<nat>, n: int)
    requires InBounds(es, walk) && walk != [] && 0 < n && es[walk[0]].size <= n
    ensures var e := es[walk[0]];
      Consume(es, walk, n) == Consume(es[walk[0] := e.(size := 0)], walk[1..], n - e.size)
  {
  }

  /** The first walked entry loses what it can of the whole demand. */
  lemma ConsumeAtHead(es: seq<Entry>, walk: seq<nat>, n: int)
    requires InBounds(es, walk) && Distinct(walk) && walk != [] && n > 0
    ensures var size := es[walk[0]].size;
      Consume(es, walk, n).0[walk[0]].size == size - Taken(size, n)
  {
    var k := walk[0];
    var e := es[k];
    if n >= e.size {
      var es1 := es[k := e.(size := 0)];
      assert k !in walk[1..];
      ConsumeOutside(es1, walk[1..], n - e.size, k);
    }
  }

  /** The errors removeFromFirstShares throws. */
  datatype BookError =
    | NoMoreBids(size: int)   // BookException from a walk that starts on a bid
    | NoMoreAsks(size: int)   // BookException from a walk that starts on an ask
    | EmptySelection          // IndexOutOfBoundsException: get(0) on an empty walk
  {
    function Message(): string {
      match this
      case NoMoreBids(n) => "cannot sell " + IntToString(n) + " shares, no more bids available"
      case NoMoreAsks(n) => "cannot buy " + IntToString(n) + " shares, no more asks available"
      case EmptySelection => "Index 0 out of bounds for length 0"
    }
  }

  /**
   * The check after the walk: demand left over is an error chosen by the type of the first
   * walked entry, and silently dropped when that entry is a spread or untyped.
   */
  function Verdict(after: seq<Entry>, walk: seq<nat>, n: int, left: int): (r: Outcome<BookError>)
    requires InBounds(after, walk)
    ensures left == 0 ==> r == Pass
    ensures r == Fail(EmptySelection) <==> left != 0 && walk == []
    ensures r.Fail? ==> r.error == EmptySelection || r.error == NoMoreBids(n) || r.error == NoMoreAsks(n)
    ensures r.Fail? && walk != [] ==> (r.error == NoMoreBids(n) <==> after[walk[0]].kind == Some(Bid))
    ensures left != 0 && walk != [] && after[walk[0]].kind == Some(Bid) ==> r == Fail(NoMoreBids(n))
    ensures left != 0 && walk != [] && after[walk[0]].kind == Some(Ask) ==> r == Fail(NoMoreAsks(n))
    ensures left != 0 && walk != [] && (after[walk[0]].kind == Some(Spread) || after[walk[0]].kind == None) ==> r == Pass
  {
    if left == 0 then Pass
    else if walk == [] then Fail(EmptySelection)
    else if after[walk[0]].kind == Some(Bid) then Fail(NoMoreBids(n))
    else if after[walk[0]].kind == Some(Ask) then Fail(NoMoreAsks(n))
    else Pass
  }

  /** removeFromFirstShares: the book after the walk, and whether it threw. Nothing is rolled back. */
  function Order(es: seq<Entry>, walk: seq<nat>, n: int): (r: (seq<Entry>, Outcome<BookError>))
    requires InBounds(es, walk)
    ensures |r.0| == |es|
    ensures n == 0 ==> r == (es, Pass)
    ensures r.1.Fail? ==> r.1.error == EmptySelection || r.1.error == NoMoreBids(n) || r.1.error == NoMoreAsks(n)
  {
    var (after, left) := Consume(es, walk, n);
    (after, Verdict(after, walk, n, left))
  }

  /** orderSell. */
  function AfterSell(es: seq<Entry>, n: int): (r: (seq<Entry>, Outcome<BookError>))
    ensures |r.0| == |es| && (Sorted(es) ==> Sorted(r.0))
    ensures n == 0 ==> r == (es, Pass)
    ensures r.1.Fail? ==> r.1.error == EmptySelection || r.1.error == NoMoreBids(n) || r.1.error == NoMoreAsks(n)
  {
    Order(es, SellWalk(es), n)
  }

  /** orderBuy. */
  function AfterBuy(es: seq<Entry>, n: int): (r: (seq<Entry>, Outcome<BookError>))
    ensures |r.0| == |es| && (Sorted(es) ==> Sorted(r.0))
    ensures n == 0 ==> r == (es, Pass)
    ensures r.1.Fail? ==> r.1.error == EmptySelection || r.1.error == NoMoreBids(n) || r.1.error == NoMoreAsks(n)
  {
    Order(es, BuyWalk(es), n)
  }

  /** Demand the walked entries can cover is filled: no error, and their total drops by exactly the demand. */
  lemma OrderFills(es: seq<Entry>, walk: seq<nat>, n: int)
    requires InBounds(es, walk) && Distinct(walk) && NonNegative(es)
    requires 0 <= n <= WalkTotal(es, walk)
    ensures var r := Order(es, walk, n);
      r.1 == Pass && WalkTotal(r.0, walk) == WalkTotal(es, walk) - n && NonNegative(r.0)
  {
    ConsumeWalkTotal(es, walk, n);
    ConsumeNonNegative(es, walk, n);
  }

  /** Demand beyond the walked total zeroes every walked entry. */
  lemma ConsumeExhausts(es: seq<Entry>, walk: seq<nat>, n: int, t: nat)
    requires InBounds(es, walk) && Distinct(walk) && NonNegative(es)
    requires n > WalkTotal(es, walk) && t < |walk|
    ensures Consume(es, walk, n).0[walk[t]].size == 0
  {
    WalkTotalNonNegative(es, walk);
    WalkTotalSplit(es, walk, t);
    WalkTotalNonNegative(es, walk[t + 1..]);
    ConsumeAt(es, walk, n, t);
  }

  /**
   * Demand beyond the walked total empties every walked entry, and then the first walked
   * entry's type decides the error: BID or ASK throw, anything else drops the rest silently.
   */
  lemma OrderShortfall(es: seq<Entry>, walk: seq<nat>, n: int)
    requires InBounds(es, walk) && Distinct(walk) && NonNegative(es)
    requires n > WalkTotal(es, walk)
    ensures var r := Order(es, walk, n);
      && (forall t :: 0 <= t < |walk| ==> r.0[walk[t]].size == 0)
      && r.1 == if walk == [] then Fail(EmptySelection)
                else if es[walk[0]].kind == Some(Bid) then Fail(NoMoreBids(n))
                else if es[walk[0]].kind == Some(Ask) then Fail(NoMoreAsks(n))
                else Pass
  {
    WalkTotalNonNegative(es, walk);
    ConsumeWalkTotal(es, walk, n);
    forall t | 0 <= t < |walk|
      ensures Consume(es, walk, n).0[walk[t]].size == 0
    {
      ConsumeExhausts(es, walk, n, t);
    }
  }

  /** When the book has a live bid, the sell walk starts on the best bid. */
  lemma SellStartsAtBestBid(es: seq<Entry>)
    requires Sorted(es) && exists x :: x in es && LiveBid(x)
    ensures SellWalk(es) != [] && es[SellWalk(es)[0]] == BestBidOf(es)
  {
    var b := BestBidOf(es);
    var i :| 0 <= i < |es| && es[i] == b;
    var k := FirstAtOrBelow(es, b.price);
    assert k <= i;
    assert k == i;
    assert SellWalk(es)[0] == k;
  }

  /** When the book has a live ask, the buy walk starts on the best ask. */
  lemma BuyStartsAtBestAsk(es: seq<Entry>)
    requires Sorted(es) && exists x :: x in es && LiveAsk(x)
    ensures BuyWalk(es) != [] && es[BuyWalk(es)[0]] == BestAskOf(es)
  {
    var a := BestAskOf(es);
    var i :| 0 <= i < |es| && es[i] == a;
    var m := CountAtOrAbove(es, a.price);
    assert i < m;
    assert es[m - 1].price >= a.price;
    assert m - 1 == i;
    assert BuyWalk(es)[0] == m - 1;
  }

  /** A sell the walk can cover succeeds and takes exactly its size out of the walked entries. */
  lemma SellFills(es: seq<Entry>, n: int)
    requires Sorted(es) && NonNegative(es) && 0 <= n <= WalkTotal(es, SellWalk(es))
    ensures var (after, outcome) := AfterSell(es, n);
      && outcome == Pass
      && Sorted(after) && NonNegative(after)
      && WalkTotal(after, SellWalk(es)) == WalkTotal(es, SellWalk(es)) - n
  {
    OrderFills(es, SellWalk(es), n);
  }

  /** A buy the walk can cover succeeds and takes exactly its size out of the walked entries. */
  lemma BuyFills(es: seq<Entry>, n: int)
    requires Sorted(es) && NonNegative(es) && 0 <= n <= WalkTotal(es, BuyWalk(es))
    ensures var (after, outcome) := AfterBuy(es, n);
      && outcome == Pass
      && Sorted(after) && NonNegative(after)
      && WalkTotal(after, BuyWalk(es)) == WalkTotal(es, BuyWalk(es)) - n
  {
    OrderFills(es, BuyWalk(es), n);
  }

  /** A sell larger than the walk, in a book with a live bid, throws "no more bids" after emptying the walk. */
  lemma SellShortfallWithBids(es: seq<Entry>, n: int)
    requires Sorted(es) && NonNegative(es) && exists x :: x in es && LiveBid(x)
    requires n > WalkTotal(es, SellWalk(es))
    ensures AfterSell(es, n).1 == Fail(NoMoreBids(n))
    ensures forall i :: 0 <= i < |es| && es[i].price <= BestBidOf(es).price ==> AfterSell(es, n).0[i].size == 0
  {
    SellStartsAtBestBid(es);
    OrderShortfall(es, SellWalk(es), n);
    var walk := SellWalk(es);
    forall i | 0 <= i < |es| && es[i].price <= BestBidOf(es).price
      ensures AfterSell(es, n).0[i].size == 0
    {
      var t :| 0 <= t < |walk| && walk[t] == i;
    }
  }

  /** A buy larger than the walk, in a book with a live ask, throws "no more asks" after emptying the walk. */
  lemma BuyShortfallWithAsks(es: seq<Entry>, n: int)
    requires Sorted(es) && NonNegative(es) && exists x :: x in es && LiveAsk(x)
    requires n > WalkTotal(es, BuyWalk(es))
    ensures AfterBuy(es, n).1 == Fail(NoMoreAsks(n))
    ensures forall i :: 0 <= i < |es| && es[i].price >= BestAskOf(es).price ==> AfterBuy(es, n).0[i].size == 0
  {
    BuyStartsAtBestAsk(es);
    OrderShortfall(es, BuyWalk(es), n);
    var walk := BuyWalk(es);
    forall i | 0 <= i < |es| && es[i].price >= BestAskOf(es).price
      ensures AfterBuy(es, n).0[i].size == 0
    {
      var t :| 0 <= t < |walk| && walk[t] == i;
    }
  }

  /** A sell never touches entries priced above the best bid, nor any price, type or position. */
  lemma SellFrame(es: seq<Entry>, n: int)
    requires Sorted(es)
    ensures var after := AfterSell(es, n).0;
      && |after| == |es|
      && (forall i :: 0 <= i < |es| ==> after[i].price == es[i].price && after[i].kind == es[i].kind)
      && (forall i :: 0 <= i < |es| && es[i].price > BestBidOf(es).price ==> after[i] == es[i])
  {
    forall i | 0 <= i < |es| && es[i].price > BestBidOf(es).price
      ensures AfterSell(es, n).0[i] == es[i]
    {
      ConsumeOutside(es, SellWalk(es), n, i);
    }
  }

  /** A buy never touches entries priced below the best ask, nor any price, type or position. */
  lemma BuyFrame(es: seq<Entry>, n: int)
    requires Sorted(es)
    ensures var after := AfterBuy(es, n).0;
      && |after| == |es|
      && (forall i :: 0 <= i < |es| ==> after[i].price == es[i].price && after[i].kind == es[i].kind)
      && (forall i :: 0 <= i < |es| && es[i].price < BestAskOf(es).price ==> after[i] == es[i])
  {
    forall i | 0 <= i < |es| && es[i].price < BestAskOf(es).price
      ensures AfterBuy(es, n).0[i] == es[i]
    {
      ConsumeOutside(es, BuyWalk(es), n, i);
    }
  }

  /** With no live ask the sentinel's price 0 starts the buy walk: every entry priced 0 or more is walked. */
  lemma BuyWithoutAsksWalksFromZero(es: seq<Entry>)
    requires Sorted(es) && forall x :: x in es ==> !LiveAsk(x)
    ensures forall i :: 0 <= i < |es| ==> (i in BuyWalk(es) <==> es[i].price >= 0)
  {
  }
}
