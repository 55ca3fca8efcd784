# Order book — a Dafny model

This project models the core of a small limit order book.

The book holds price levels (`BookEntry`). Each level has:
- a price, which is the key: at most one level per price;
- a size;
- a type: `ASK`, `BID` or `SPREAD`.

`BookTreeSetImpl` keeps the levels in a `TreeSet` ordered by descending price. It offers:
- `update` (replace the level at a price);
- `addAll`, `clear` and `getEntries`;
- the queries `bestBid`, `bestAsk` and `getEntryByPrice`;
- the orders `orderSell` and `orderBuy`. Both walk a tail of the book and take the order's size out of the levels they pass, through `removeFromFirstShares`.

`CommandHandler` reads text lines such as `u,9,1,bid`, `q,best_bid`, `q,size,10` and `o,sell,5`. It strips each line and splits it on commas. It then calls the book and writes the answers of queries as `%d,%d%n` or `%d%n`.

## Layout

| file | module | models |
|---|---|---|
| `wrappers.dfy` | `Wrappers` | `Option`, `Result` and `Outcome` (success or a thrown exception) |
| `decimal.dfy` | `Decimal` | `%d` formatting and `Integer.parseInt`, including the 32-bit range check |
| `entry_type.dfy` | `EntryTypes` | the `EntryType` enum, its alias table and `valueOfByAlias` |
| `book_entry.dfy` | `Entries` | `BookEntry` as a value (`Entry`) and as a mutable object (`BookEntry`), plus `equals` and `toString` |
| `order_book.dfy` | `OrderBook` | the book's operations as functions of its level sequence, and their properties |
| `book_tree_set.dfy` | `BookTreeSetImpl` | the `BookTreeSetImpl` class: each method changes `entries` in place and is proved against the functions of `OrderBook` |
| `command_handler.dfy` | `CommandHandling` | strip, split, decoding, execution and the `CommandHandler` class |
| `book_scenarios.dfy` | `BookScenarios` | the book of the repository's tests and the answers the tests expect |
| `command_scenarios.dfy` | `CommandScenarios` | the lines the handler's tests send and what handling them does |

How the model represents the Java program:
- The book is the strictly descending sequence `entries: seq<Entry>` (predicate `Sorted`). The `TreeSet`'s comparator looks at the price only, so membership, removal and `tailSet` all go by price (`Lookup`, `Without`, `FirstAtOrBelow`).
- An order's selection is a list of indices into that sequence (`SellWalk`, `BuyWalk`).
- `removeFromFirstShares` is a loop over the selection that changes sizes in place. It is specified by `Consume`, which does the same walk as a recursive function, and by `Verdict`, which decides whether the method throws.
- Every exception becomes a value:
  - `BookException` becomes `Fail(NoMoreBids(size))` or `Fail(NoMoreAsks(size))`;
  - the `IndexOutOfBoundsException` of `get(0)` on an empty selection becomes `Fail(EmptySelection)`;
  - the `ArrayIndexOutOfBoundsException` of a missing field becomes `MissingField`;
  - a `NumberFormatException` becomes `NotANumber`;
  - an unknown alias becomes `UnknownSide`.
- The book keeps whatever the walk changed before an exception, as the Java does, and writes nothing back.
- `handle` is modelled in two steps: `Parse` decodes the line into a `Command`, then `Execute` runs it. This is faithful: in the Java every field is read and checked before the book is called, so a malformed line never reaches the book.

Where the interface's comments (`OrderBook.java:21-52`: the best bid and ask are non-zero levels, an order removes shares "out of asks, most cheap ones" or "out of bids, most expensive ones" and throws "if no more asks available") promise more than the code does, the model follows the code:
- When no live bid (or ask) exists, `bestBid` (or `bestAsk`) answers an empty level at price 0. The order then walks from price 0; it does not throw at once.
- The walk covers every level on the far side of the best price, whatever its type, including spreads and levels of the other side.
- When demand is left over, the exception depends only on the type of the first walked level. If that level is a spread, the leftover is dropped without an error.

## Model

| member | source | states |
|---|---|---|
| `Decimal.IntToString` | src/main/java/com/juniorproject/orderbook/service/CommandHandler.java:20 | `%d` writes a minus sign exactly for negative numbers, then a non-empty run of ASCII digits |
| `Decimal.IntToStringInjective` | src/main/java/com/juniorproject/orderbook/entity/BookEntry.java:41-44 | different numbers are written differently |
| `Decimal.ParseInt` | src/main/java/com/juniorproject/orderbook/service/CommandHandler.java:119-121 | `Integer.parseInt` accepts only a run of ASCII digits with an optional `-` or `+` in front; a digit run reads as its decimal value, negated after `-`, when that fits in 32 bits, and is rejected otherwise |
| `Decimal.ParseIntNonCanonical` | src/main/java/com/juniorproject/orderbook/service/CommandHandler.java:120-121 | text `%d` never writes: `+5` and `007` are accepted, a lone sign, an empty field, a letter or a leading space is rejected |
| `Decimal.ParseIntOfIntToString` | src/main/java/com/juniorproject/orderbook/service/CommandHandler.java:77 | `Integer.parseInt` reads back every 32-bit value that `%d` writes |
| `EntryTypes.Values` | src/main/java/com/juniorproject/orderbook/entity/EntryType.java:8-10 | `values()` lists three distinct constants |
| `EntryTypes.ValuesComplete` | src/main/java/com/juniorproject/orderbook/entity/EntryType.java:8-10 | every constant appears in `values()` |
| `EntryTypes.AliasMap` | src/main/java/com/juniorproject/orderbook/entity/EntryType.java:14-20 | the alias table maps each constant's alias to that constant, and holds nothing else |
| `EntryTypes.BuildAliasMap` | src/main/java/com/juniorproject/orderbook/entity/EntryType.java:16-20 | the static initialiser's loop over `values()` builds exactly that table |
| `EntryTypes.ValueOfByAlias` | src/main/java/com/juniorproject/orderbook/entity/EntryType.java:26-33 | succeeds if and only if some constant has that alias, and then returns it; otherwise throws `NoEnumAlias` carrying the alias |
| `EntryTypes.ValueOfByAliasRoundTrip` | src/main/java/com/juniorproject/orderbook/entity/EntryType.java:26-33 | decoding a constant's alias gives back that constant |
| `EntryTypes.ValueOfByAliasRejectsNames` | src/main/java/com/juniorproject/orderbook/entity/EntryType.java:26-33 | the lookup is exact: the upper-case constant names are not accepted |
| `Entries.Sentinel` | src/main/java/com/juniorproject/orderbook/entity/BookEntry.java:11-13 | `new BookEntry(price)` has that price, size 0 and a null type |
| `Entries.Equals` | src/main/java/com/juniorproject/orderbook/entity/BookEntry.java:56-72 | `equals` holds exactly when price, size and type all agree |
| `Entries.EqualsStricterThanSamePrice` | src/main/java/com/juniorproject/orderbook/repository/BookTreeSetImpl.java:26 | equal entries have the same price, but two entries the book's comparator treats as one level need not be equal |
| `Entries.ToString` | src/main/java/com/juniorproject/orderbook/entity/BookEntry.java:41-44 | `toString` opens with `Entry [price=` and closes with `]`; `ToStringInjective` shows that it tells apart any two different entries |
| `Entries.ToStringInjective` | src/main/java/com/juniorproject/orderbook/entity/BookEntry.java:41-44 | `toString` prints every field, so two entries print alike only when they are equal |
| `Entries.BookEntry.constructor` | src/main/java/com/juniorproject/orderbook/entity/BookEntry.java:15-19 | the new object holds the given price, size and type |
| `Entries.BookEntry.WithPrice` | src/main/java/com/juniorproject/orderbook/entity/BookEntry.java:11-13 | the one-argument constructor leaves size 0 and the type null |
| `Entries.BookEntry.SetSize` | src/main/java/com/juniorproject/orderbook/entity/BookEntry.java:29-31 | changes the size and nothing else |
| `Entries.BookEntry.SetType` | src/main/java/com/juniorproject/orderbook/entity/BookEntry.java:37-39 | changes the type and nothing else |
| `OrderBook.Lookup` | src/main/java/com/juniorproject/orderbook/repository/BookTreeSetImpl.java:50 | `contains` by price: the level found has that price and is in the book; nothing is found exactly when no level has that price |
| `OrderBook.Without` | src/main/java/com/juniorproject/orderbook/repository/BookTreeSetImpl.java:51 | `remove` drops the level at that price, leaves every other price as it was, and keeps the order |
| `OrderBook.Insert` | src/main/java/com/juniorproject/orderbook/repository/BookTreeSetImpl.java:53 | `add` of a new price puts the level in order, adds one level, and changes no other price |
| `OrderBook.Upsert` | src/main/java/com/juniorproject/orderbook/repository/BookTreeSetImpl.java:48-54 | `update` keeps the book sorted, stores the entry under its price, and leaves every other price as it was |
| `OrderBook.UpsertIdempotent` | src/main/java/com/juniorproject/orderbook/repository/OrderBook.java:14-19 | updating twice with the same entry gives the same book as updating once |
| `OrderBook.UpsertInPlace` | src/main/java/com/juniorproject/orderbook/repository/BookTreeSetImpl.java:48-54 | updating a price already present replaces that level in its position ("overwritten") |
| `OrderBook.UpsertCommutes` | src/main/java/com/juniorproject/orderbook/repository/BookTreeSetImpl.java:48-54 | updates at different prices can be applied in either order |
| `OrderBook.LookupElsewhere` | src/main/java/com/juniorproject/orderbook/repository/BookTreeSetImpl.java:48-54 | replacing the level at one price changes what is found at no other price |
| `OrderBook.UpsertAll` | src/main/java/com/juniorproject/orderbook/repository/BookTreeSetImpl.java:38-41 | `addAll` keeps the book sorted |
| `OrderBook.UpsertAllLastWins` | src/main/java/com/juniorproject/orderbook/repository/BookTreeSetImpl.java:38-41 | after `addAll`, each price holds the list's last entry at that price, or what it held before |
| `OrderBook.LoadSorted` | src/main/java/com/juniorproject/orderbook/repository/OrderBook.java:67-72 | `addAll` of a descending list into an empty book stores exactly that list |
| `OrderBook.BestBidOf` | src/main/java/com/juniorproject/orderbook/repository/BookTreeSetImpl.java:56-61 | `bestBid` returns the empty level at price 0 or a live bid of the book; it is a live bid exactly when the book has one; in a sorted book no live bid is priced higher |
| `OrderBook.BestAskOf` | src/main/java/com/juniorproject/orderbook/repository/BookTreeSetImpl.java:63-69 | `bestAsk` returns the empty level at price 0 or a live ask of the book; it is a live ask exactly when the book has one; no live ask is priced lower |
| `OrderBook.BestBidAt` | src/main/java/com/juniorproject/orderbook/repository/BookTreeSetImpl.java:58-60 | `bestBid` is the first live bid in the book's order |
| `OrderBook.BestAskAt` | src/main/java/com/juniorproject/orderbook/repository/BookTreeSetImpl.java:65-68 | `bestAsk` is the lowest-priced live ask; on a tie the sort is stable, so it is the first one in the book's order |
| `OrderBook.LookupMember` | src/main/java/com/juniorproject/orderbook/repository/BookTreeSetImpl.java:23-27 | in a sorted book every stored level is the one found under its price |
| `OrderBook.UpsertKeepsBestBid` | src/main/java/com/juniorproject/orderbook/repository/OrderBook.java:21-26 | an update that is not a live bid, at a price other than the best bid's, leaves the best bid unchanged |
| `OrderBook.UpsertKeepsBestAsk` | src/main/java/com/juniorproject/orderbook/repository/OrderBook.java:28-33 | an update that is not a live ask, at a price other than the best ask's, leaves the best ask unchanged |
| `OrderBook.FirstAtOrBelow` | src/main/java/com/juniorproject/orderbook/repository/BookTreeSetImpl.java:75 | the start of `tailSet(p)`: every earlier level is priced above p; in a sorted book every level from there on is priced at or below p |
| `OrderBook.CountAtOrAbove` | src/main/java/com/juniorproject/orderbook/repository/BookTreeSetImpl.java:84-88 | the extent of `descendingSet().tailSet(p)`: the levels before the count are priced at or above p; in a sorted book every later level is priced below p |
| `OrderBook.EntryAt` | src/main/java/com/juniorproject/orderbook/repository/BookTreeSetImpl.java:71-79 | `getEntryByPrice` returns the level stored at that price, or the empty level at that price when there is none |
| `OrderBook.SellWalk` | src/main/java/com/juniorproject/orderbook/repository/BookTreeSetImpl.java:93-98 | `orderSell` visits a level if and only if its price is at or below the best bid's, each level once, highest price first |
| `OrderBook.BuyWalk` | src/main/java/com/juniorproject/orderbook/repository/BookTreeSetImpl.java:81-91 | `orderBuy` visits a level if and only if its price is at or above the best ask's, each level once, lowest price first |
| `OrderBook.BuyWithoutAsksWalksFromZero` | src/main/java/com/juniorproject/orderbook/repository/BookTreeSetImpl.java:81-91 | with no live ask, a buy walks every level priced 0 or more |
| `OrderBook.SideTotalUpdate` | src/test/java/com/juniorproject/orderbook/repository/BookTreeSetImplTest.java:105-114 | replacing one level changes a side's total size by the difference of the old and new levels' contributions |
| `OrderBook.Consume` | src/main/java/com/juniorproject/orderbook/repository/BookTreeSetImpl.java:100-116 | the loop changes sizes only: the book keeps its length, and every price and type; a zero-size order changes nothing |
| `OrderBook.ConsumeOutside` | src/main/java/com/juniorproject/orderbook/repository/BookTreeSetImpl.java:103-116 | a level the selection does not contain is left untouched |
| `OrderBook.ConsumeKeepsSorted` | src/main/java/com/juniorproject/orderbook/repository/BookTreeSetImpl.java:108-114 | setting sizes keeps the book sorted |
| `OrderBook.ConsumeConserves` | src/main/java/com/juniorproject/orderbook/repository/BookTreeSetImpl.java:102-116 | the book's total size drops by exactly the part of the order that was filled |
| `OrderBook.ConsumeNonNegative` | src/main/java/com/juniorproject/orderbook/repository/BookTreeSetImpl.java:108-114 | with non-negative sizes and order size, no size goes negative, and the unfilled part is between 0 and the order size |
| `OrderBook.ConsumeWalkTotal` | src/main/java/com/juniorproject/orderbook/repository/BookTreeSetImpl.java:102-116 | the unfilled part is what the order exceeds the selection's total by (else 0), and the selection's total drops by the filled part |
| `OrderBook.ConsumeAt` | src/main/java/com/juniorproject/orderbook/repository/BookTreeSetImpl.java:103-116 | the greedy rule level by level: each selected level gives up what it can of the demand the levels before it left, so levels after the order is filled keep their size |
| `OrderBook.Order` | src/main/java/com/juniorproject/orderbook/repository/BookTreeSetImpl.java:100-127 | `removeFromFirstShares` keeps the book's length, a zero-size order changes nothing and succeeds, and the only exceptions are the empty selection, "no more bids" and "no more asks", each carrying the order's size |
| `OrderBook.Verdict` | src/main/java/com/juniorproject/orderbook/repository/BookTreeSetImpl.java:117-126 | the check after the loop: no demand left means no exception; leftover demand with an empty selection fails `get(0)`; otherwise the first selected level's type decides, a bid giving "no more bids", an ask "no more asks", and a spread or untyped level no exception |
| `OrderBook.AfterSell` | src/main/java/com/juniorproject/orderbook/repository/BookTreeSetImpl.java:93-98 | `orderSell` keeps the book's length and order, a zero-size sell changes nothing, and it throws only the three exceptions of `removeFromFirstShares`; `SellFills`, `SellShortfallWithBids` and `SellFrame` state how much it takes and from where |
| `OrderBook.AfterBuy` | src/main/java/com/juniorproject/orderbook/repository/BookTreeSetImpl.java:81-91 | `orderBuy` keeps the book's length and order, a zero-size buy changes nothing, and it throws only the three exceptions of `removeFromFirstShares`; `BuyFills`, `BuyShortfallWithAsks` and `BuyFrame` state how much it takes and from where |
| `OrderBook.OrderFills` | src/main/java/com/juniorproject/orderbook/repository/BookTreeSetImpl.java:100-127 | an order the selection can cover succeeds, takes exactly its size out of the selected levels, and leaves no size negative |
| `OrderBook.ConsumeExhausts` | src/main/java/com/juniorproject/orderbook/repository/BookTreeSetImpl.java:111-114 | an order larger than the selection's total zeroes every selected level |
| `OrderBook.OrderShortfall` | src/main/java/com/juniorproject/orderbook/repository/BookTreeSetImpl.java:117-126 | an order larger than the selection's total zeroes every selected level. The error depends on the first selected level: a bid gives "no more bids", an ask "no more asks", an empty selection `get(0)`'s exception; any other type gives no error |
| `OrderBook.SellStartsAtBestBid` | src/main/java/com/juniorproject/orderbook/repository/BookTreeSetImpl.java:95 | when the book has a live bid, the sell walk starts at the best bid |
| `OrderBook.BuyStartsAtBestAsk` | src/main/java/com/juniorproject/orderbook/repository/BookTreeSetImpl.java:84-88 | when the book has a live ask, the buy walk starts at the best ask |
| `OrderBook.SellFills` | src/main/java/com/juniorproject/orderbook/repository/OrderBook.java:48-53 | a sell the walk can cover succeeds, keeps the book sorted and non-negative, and takes exactly its size from the walked levels |
| `OrderBook.BuyFills` | src/main/java/com/juniorproject/orderbook/repository/OrderBook.java:41-46 | a buy the walk can cover succeeds, keeps the book sorted and non-negative, and takes exactly its size from the walked levels |
| `OrderBook.SellShortfallWithBids` | src/main/java/com/juniorproject/orderbook/repository/BookTreeSetImpl.java:117-121 | a sell larger than the walk, in a book with a live bid, throws "no more bids" for the order's size, after emptying every level at or below the best bid |
| `OrderBook.BuyShortfallWithAsks` | src/main/java/com/juniorproject/orderbook/repository/BookTreeSetImpl.java:122-125 | a buy larger than the walk, in a book with a live ask, throws "no more asks" for the order's size, after emptying every level at or above the best ask |
| `OrderBook.SellFrame` | src/main/java/com/juniorproject/orderbook/repository/BookTreeSetImpl.java:93-98 | a sell changes no price, type or position, and leaves every level above the best bid as it was |
| `OrderBook.BuyFrame` | src/main/java/com/juniorproject/orderbook/repository/BookTreeSetImpl.java:81-91 | a buy changes no price, type or position, and leaves every level below the best ask as it was |
| `BookTreeSetImpl.BookTreeSet.constructor` | src/main/java/com/juniorproject/orderbook/repository/BookTreeSetImpl.java:25-27 | a new book is empty |
| `BookTreeSetImpl.BookTreeSet.BestBid` | src/main/java/com/juniorproject/orderbook/repository/BookTreeSetImpl.java:56-61 | answers a bid of non-zero size at least as high as every such bid in the book, or the empty level at price 0 exactly when there is none |
| `BookTreeSetImpl.BookTreeSet.BestAsk` | src/main/java/com/juniorproject/orderbook/repository/BookTreeSetImpl.java:63-69 | answers an ask of non-zero size at most as high as every such ask in the book, or the empty level at price 0 exactly when there is none |
| `BookTreeSetImpl.BookTreeSet.GetEntryByPrice` | src/main/java/com/juniorproject/orderbook/repository/BookTreeSetImpl.java:71-79 | answers a level at that price: the stored one when the book has one, an empty one otherwise |
| `BookTreeSetImpl.BookTreeSet.GetEntries` | src/main/java/com/juniorproject/orderbook/repository/BookTreeSetImpl.java:33-36 | returns all levels, in strictly descending price order |
| `BookTreeSetImpl.BookTreeSet.Clear` | src/main/java/com/juniorproject/orderbook/repository/BookTreeSetImpl.java:43-46 | empties the book |
| `BookTreeSetImpl.BookTreeSet.Update` | src/main/java/com/juniorproject/orderbook/repository/BookTreeSetImpl.java:48-54 | the new book is `Upsert` of the old one: the entry is found under its price, every other price is unchanged, and the book stays sorted |
| `BookTreeSetImpl.BookTreeSet.AddAll` | src/main/java/com/juniorproject/orderbook/repository/BookTreeSetImpl.java:38-41 | the loop of updates leaves the book as `UpsertAll` of the old book and the list |
| `BookTreeSetImpl.BookTreeSet.OrderSell` | src/main/java/com/juniorproject/orderbook/repository/BookTreeSetImpl.java:93-98 | the new book and the outcome are those of `AfterSell` on the old book |
| `BookTreeSetImpl.BookTreeSet.OrderBuy` | src/main/java/com/juniorproject/orderbook/repository/BookTreeSetImpl.java:81-91 | the new book and the outcome are those of `AfterBuy` on the old book |
| `BookTreeSetImpl.BookTreeSet.RemoveFromFirstShares` | src/main/java/com/juniorproject/orderbook/repository/BookTreeSetImpl.java:100-127 | the in-place loop leaves the book and the outcome that `Order` specifies |
| `CommandHandling.LeadEnd` | src/main/java/com/juniorproject/orderbook/service/CommandHandler.java:58 | where `strip` stops at the front: whitespace up to that point, and none on it |
| `CommandHandling.TrailStart` | src/main/java/com/juniorproject/orderbook/service/CommandHandler.java:58 | where `strip` stops at the back: whitespace after that point, and none just before it |
| `CommandHandling.Strip` | src/main/java/com/juniorproject/orderbook/service/CommandHandler.java:58 | `strip` returns a slice of the line with only whitespace outside it, and no whitespace at either end |
| `CommandHandling.StripOfPadded` | src/main/java/com/juniorproject/orderbook/service/CommandHandler.java:58 | surrounding a trimmed line with whitespace does not change what `strip` returns |
| `CommandHandling.SplitAll` | src/main/java/com/juniorproject/orderbook/service/CommandHandler.java:22 | splitting on the delimiter gives at least one piece, and no piece holds a comma |
| `CommandHandling.JoinSplitAll` | src/main/java/com/juniorproject/orderbook/service/CommandHandler.java:58 | splitting loses nothing: joining the pieces with commas gives the line back |
| `CommandHandling.SplitAllJoin` | src/main/java/com/juniorproject/orderbook/service/CommandHandler.java:58 | joining comma-free pieces and splitting again gives the pieces back |
| `CommandHandling.DropTrailingEmpty` | src/main/java/com/juniorproject/orderbook/service/CommandHandler.java:30 | `Pattern.split` drops trailing empty pieces: the result is a prefix, the dropped pieces are empty, and the last remaining piece is not |
| `CommandHandling.Split` | src/main/java/com/juniorproject/orderbook/service/CommandHandler.java:58 | `pattern.split` returns comma-free fields |
| `CommandHandling.SplitJoin` | src/main/java/com/juniorproject/orderbook/service/CommandHandler.java:58 | fields joined with commas, the last one non-empty, split back into those fields |
| `CommandHandling.Execute` | src/main/java/com/juniorproject/orderbook/service/CommandHandler.java:59-128 | a decoded command keeps the book sorted; an update replaces the level at its price; an ignored command changes nothing, writes nothing and passes; `q,best_bid` and `q,best_ask` leave the book alone and write `%d,%d%n` of the best bid's or best ask's price and size, and `q,size` writes `%d%n` of the size `getEntryByPrice` finds; an order gives the book and the outcome of the book's sell or buy, and only orders can throw |
| `CommandHandling.Decode` | src/main/java/com/juniorproject/orderbook/service/CommandHandler.java:59-128 | a line with no fields throws; a first field other than `u`, `q`, `o`, or an unknown `q` sub-command, is ignored; `u` reads the price, then the size, then the side, and throws on the first of them that is missing (`MissingField`), not a number (`NotANumber`) or not an alias (`UnknownSide`); it succeeds exactly when all three read, and then carries those values; `q` alone throws on the missing sub-command, `q,best_bid` and `q,best_ask` decode to their queries, and `q,size` throws on a missing or unparsable price and otherwise carries the parsed price; `o` reads its size before its sub-command, so a bad size throws even for an unknown sub-command, and an unknown sub-command with a good size is ignored; every command decoded is well formed, its numbers fitting in 32 bits |
| `CommandHandling.Parse` | src/main/java/com/juniorproject/orderbook/service/CommandHandler.java:56-74 | `handle`'s reading of a line: a blank line is ignored, and every command it decodes is one that has a text form; `ParseFormat` and `ParseIgnoresPadding` show it reads back every command's line, however padded |
| `CommandHandling.Handled` | src/main/java/com/juniorproject/orderbook/service/CommandHandler.java:56-74 | `handle` keeps the book sorted and writes at most one line; a malformed line throws exactly when it does not decode, and then leaves the book alone and writes nothing; a line that writes an answer leaves the book alone and does not throw |
| `CommandHandling.FormatPair` | src/main/java/com/juniorproject/orderbook/service/CommandHandler.java:97-98 | `%d,%d%n`: two comma-free numbers joined by one comma and ended by a newline; `FormatPairReadsBack` shows both read back |
| `CommandHandling.FormatSingle` | src/main/java/com/juniorproject/orderbook/service/CommandHandler.java:114 | `%d%n`: one comma-free number ended by a newline; `FormatSingleReadsBack` shows it reads back |
| `CommandHandling.DecodeFields` | src/main/java/com/juniorproject/orderbook/service/CommandHandler.java:59-128 | the fields of every well-formed command decode to that command |
| `CommandHandling.ParseFormat` | src/main/java/com/juniorproject/orderbook/service/CommandHandler.java:56-128 | every well-formed command, written as a line, decodes to itself |
| `CommandHandling.ParseIgnoresPadding` | src/main/java/com/juniorproject/orderbook/service/CommandHandler.java:58 | whitespace around a line, such as its terminator, does not change what the line decodes to |
| `CommandHandling.FormatPairReadsBack` | src/main/java/com/juniorproject/orderbook/service/CommandHandler.java:97-98 | a best-bid or best-ask answer strips and splits into two fields that parse back as the price and the size |
| `CommandHandling.FormatSingleReadsBack` | src/main/java/com/juniorproject/orderbook/service/CommandHandler.java:114 | a size answer strips into one field that parses back as the size |
| `CommandHandling.UpdateLineIdempotent` | src/main/java/com/juniorproject/orderbook/service/CommandHandler.java:119-128 | handling the same update line twice leaves the book as handling it once, and writes nothing |
| `CommandHandling.CommandHandler.constructor` | src/main/java/com/juniorproject/orderbook/service/CommandHandler.java:36-39 | the handler uses the given book and has written nothing |
| `CommandHandling.CommandHandler.Handle` | src/main/java/com/juniorproject/orderbook/service/CommandHandler.java:56-74 | the book, the output and the outcome after a line are those `Handled` gives for the old book; a line that does not decode changes nothing |
| `CommandHandling.CommandHandler.Dispatch` | src/main/java/com/juniorproject/orderbook/service/CommandHandler.java:76-128 | the calls `update`, `query` and `order` make leave the book, the output and the outcome that `Execute` gives for the old book |
| `BookScenarios.LoadSeed` | src/test/java/com/juniorproject/orderbook/BaseTest.java:14-22 | adding the tests' eight levels to an empty book stores them as listed |
| `BookScenarios.SeedSorted` | src/test/java/com/juniorproject/orderbook/BaseTest.java:14-22 | the tests' book is sorted |
| `BookScenarios.SeedSideTotals` | src/test/java/com/juniorproject/orderbook/repository/BookTreeSetImplTest.java:105-114 | the tests' bids hold 147 and their asks hold 50 |
| `BookScenarios.SeedBestBid` | src/test/java/com/juniorproject/orderbook/repository/BookTreeSetImplTest.java:52-55 | the best bid is 40 at 95 |
| `BookScenarios.SeedBestAsk` | src/test/java/com/juniorproject/orderbook/repository/BookTreeSetImplTest.java:76-79 | the best ask is 50 at 98 |
| `BookScenarios.SeedEntryAt` | src/test/java/com/juniorproject/orderbook/repository/BookTreeSetImplTest.java:94-103 | the level at 95 is the bid of 40; the level at 100500 is empty |
| `BookScenarios.UpdateAddsLevel` | src/test/java/com/juniorproject/orderbook/repository/BookTreeSetImplTest.java:30-35 | an update at a new price adds that entry as a ninth level |
| `BookScenarios.UpdateReplacesLevel` | src/test/java/com/juniorproject/orderbook/repository/BookTreeSetImplTest.java:37-50 | an update at 99 replaces that level, and the book keeps exactly one level at 99 |
| `BookScenarios.EmptyBidsKeepBestBid` | src/test/java/com/juniorproject/orderbook/repository/BookTreeSetImplTest.java:57-62 | empty bids at 96 and 94 leave the best bid as it was |
| `BookScenarios.HigherBidBecomesBest` | src/test/java/com/juniorproject/orderbook/repository/BookTreeSetImplTest.java:64-68 | a bid of 1 at 96 becomes the best bid |
| `BookScenarios.UpdatedBestBid` | src/test/java/com/juniorproject/orderbook/repository/BookTreeSetImplTest.java:70-74 | updating the level at 95 to 1 makes that the best bid |
| `BookScenarios.EmptyAsksKeepBestAsk` | src/test/java/com/juniorproject/orderbook/repository/BookTreeSetImplTest.java:81-86 | empty asks at 99 and 97 leave the best ask as it was |
| `BookScenarios.LowerAskBecomesBest` | src/test/java/com/juniorproject/orderbook/repository/BookTreeSetImplTest.java:88-92 | an ask of 1 at 97 becomes the best ask |
| `BookScenarios.SeedSellWalk` | src/test/java/com/juniorproject/orderbook/repository/BookTreeSetImplTest.java:143-147 | a sell walks the four bids, from the best bid down |
| `BookScenarios.SellFive` | src/test/java/com/juniorproject/orderbook/repository/BookTreeSetImplTest.java:116-125 | selling 5 leaves 35 at the best bid and 142 on the bids, without an error |
| `BookScenarios.NoBidsTotal` | src/test/java/com/juniorproject/orderbook/repository/BookTreeSetImplTest.java:127-136 | with every bid emptied, the bids hold 0 |
| `BookScenarios.SeedSellAll` | src/test/java/com/juniorproject/orderbook/repository/BookTreeSetImplTest.java:127-141 | an order of 147 or more empties the four bids and leaves the rest of the order unfilled |
| `BookScenarios.SellAllBids` | src/test/java/com/juniorproject/orderbook/repository/BookTreeSetImplTest.java:127-136 | selling 147 empties every bid without an error |
| `BookScenarios.SellTooMuch` | src/test/java/com/juniorproject/orderbook/repository/BookTreeSetImplTest.java:138-141 | selling 149 throws "no more bids" for 149, with the bids emptied |
| `BookScenarios.SeedBuyWalk` | src/test/java/com/juniorproject/orderbook/repository/BookTreeSetImplTest.java:158-165 | a buy walks the levels at 98 and then 99 |
| `BookScenarios.BuyFive` | src/test/java/com/juniorproject/orderbook/repository/BookTreeSetImplTest.java:158-165 | buying 5 leaves 45 at 98 and 45 on the asks, without an error |
| `BookScenarios.RefillAsk` | src/test/java/com/juniorproject/orderbook/repository/BookTreeSetImplTest.java:169 | an ask of 10 at 99 replaces the empty level there |
| `BookScenarios.RefilledBuyWalk` | src/test/java/com/juniorproject/orderbook/repository/BookTreeSetImplTest.java:170 | in the refilled book a buy still walks 98 then 99 |
| `BookScenarios.RefilledBuy` | src/test/java/com/juniorproject/orderbook/repository/BookTreeSetImplTest.java:167-173 | buying 55 there empties the level at 98 and leaves 5 at 99, without an error |
| `BookScenarios.RefilledBestAsk` | src/test/java/com/juniorproject/orderbook/repository/BookTreeSetImplTest.java:167-173 | the best ask after that buy is 5 at 99 |
| `BookScenarios.BuyThroughBestAsk` | src/test/java/com/juniorproject/orderbook/repository/BookTreeSetImplTest.java:167-173 | the update of 99 followed by a buy of 55 succeeds and leaves 5 at 99 as the best ask |
| `BookScenarios.BuyWithoutAsksTakesBids` | src/main/java/com/juniorproject/orderbook/repository/BookTreeSetImpl.java:81-91 | in a book with bids and no asks, a buy walks from the lowest level up and takes its size from a bid |
| `CommandScenarios.UpdateBidLine` | src/test/java/com/juniorproject/orderbook/service/CommandHandlerTest.java:31-35 | `u,9,1,bid` decodes to a bid of 1 at 9 |
| `CommandScenarios.UpdateAskLine` | src/test/java/com/juniorproject/orderbook/service/CommandHandlerTest.java:37-41 | `u,11,5,ask` decodes to an ask of 5 at 11 |
| `CommandScenarios.UpdateSpreadLine` | src/test/java/com/juniorproject/orderbook/service/CommandHandlerTest.java:43-47 | `u,11,5,spread` decodes to a spread level of 5 at 11 |
| `CommandScenarios.TailSpaces` | src/test/java/com/juniorproject/orderbook/service/CommandHandlerTest.java:49-53 | trailing spaces and a line terminator do not change what the update decodes to |
| `CommandScenarios.HandleUpdate` | src/test/java/com/juniorproject/orderbook/service/CommandHandlerTest.java:31-35 | handling `u,9,1,bid` updates the book with that entry and writes nothing |
| `CommandScenarios.HandleBestBid` | src/test/java/com/juniorproject/orderbook/service/CommandHandlerTest.java:55-61 | `q,best_bid` on a book whose best bid is 3 at 2 writes `2,3` and a newline |
| `CommandScenarios.HandleBestAsk` | src/test/java/com/juniorproject/orderbook/service/CommandHandlerTest.java:63-69 | `q,best_ask` on a book whose best ask is 4 at 3 writes `3,4` and a newline |
| `CommandScenarios.HandleSize` | src/test/java/com/juniorproject/orderbook/service/CommandHandlerTest.java:71-77 | `q,size,10` on a book holding 2 at 10 writes `2` and a newline |
| `CommandScenarios.HandleOrders` | src/test/java/com/juniorproject/orderbook/service/CommandHandlerTest.java:79-89 | `o,sell,1` runs a sell of 1 and `o,buy,100500` a buy of 100500 |
| `CommandScenarios.NameNotAliasLine` | src/main/java/com/juniorproject/orderbook/service/CommandHandler.java:119-122 | `u,9,1,BID` reads both numbers, then fails on the side, because `BID` is a name and not an alias |
| `CommandScenarios.UnknownSideLeavesBook` | src/main/java/com/juniorproject/orderbook/service/CommandHandler.java:119-126 | that line throws before the book is called, and writes nothing |

## Left out

- Logging (`log.info` and `log.error`), `OrderBookMain` and `MyWriter` are not part of this model. Output is the sequence of strings handed to the writer, and the platform newline of `%n` is fixed to `"\n"`, and `%d` is written with ASCII digits whatever the default locale.
- BookTreeSetImpl.getInstance and its holder class: the singleton is not modelled. A `BookTreeSet` is created with its constructor, and the handler is given one.
- BookEntry.hashCode: no operation of the core uses it.
- Object identity and aliasing: the Java book stores `BookEntry` objects and changes them through `setSize`. The model stores values and replaces them. Callers can hold the stored objects: `getEntries` copies the list but not its objects, `bestBid`, `bestAsk` and `getEntryByPrice` return the stored object itself, and the list given to `addAll` keeps the objects the book then changes. In the core, no caller reads such a reference after a later change to the book: the handler formats an answer at once. A caller that kept one would see the book's later changes in it; the model does not capture that.
- 32-bit arithmetic: prices, sizes and the remaining demand are unbounded integers. `Integer.parseInt`'s range check is modelled. The wrap-around that `sizeLeft -= entry.getSize()` could reach with sizes near the 32-bit limit is not.
- The interface's requirement that prices and order sizes be greater than zero is documentation, not a check in the code, so no operation requires it. Properties that need non-negative sizes or orders state that as a premise.
- `String.strip` and `Integer.parseInt` are modelled for ASCII: non-ASCII whitespace and non-ASCII digits are not recognised.
- CommandHandling.Split: its own contract states only that the fields are comma-free, which is weaker than `Pattern.split`. The round trips are stated by `SplitJoin`, `JoinSplitAll` and `SplitAllJoin`.
- OrderBook.Consume: its own contract states only what the walk cannot change. The greedy rule itself is stated by `ConsumeAt`, `ConsumeWalkTotal`, `ConsumeOutside` and `ConsumeConserves`.
- CommandHandling.CommandHandler.Handle is split into decoding and `Dispatch`. The handler's private `update`, `query` and `order` are the branches of `Dispatch`, and the field reads they make are the branches of `Decode`.
- The scenarios of the repository's tests are stated over any book holding the tests' eight levels, described level by level (`IsSeed`). `LoadSeed` shows that `addAll` of the tests' list yields such a book. The handler's tests use a mocked book; here they are stated over small books that answer what the mocks answer.
- The text of exception messages is modelled (`BookError.Message`, `AliasError.Message`), but no property is stated about it.
