/**
 * The lines the command handler's tests send, and what handling each one does to the book
 * and writes to the output.
 */
module CommandScenarios {
  import opened Wrappers
  import opened Decimal
  import opened EntryTypes
  import opened Entries
  import opened OrderBook
  import opened CommandHandling

  /** The text each test line is written as, field by field. */
  lemma UpdateBidText()
    ensures Format(UpdateCommand(Entry(9, 1, Some(Bid)))) == "u,9,1,bid"
  {
    assert IntToString(9) == "9" && IntToString(1) == "1";
    assert Join(["1", "bid"]) == "1,bid";
    assert Join(["9", "1", "bid"]) == "9,1,bid";
  }

  lemma UpdateAskText()
    ensures Format(UpdateCommand(Entry(11, 5, Some(Ask)))) == "u,11,5,ask"
  {
    assert IntToString(11) == "11" && IntToString(5) == "5";
    assert Join(["5", "ask"]) == "5,ask";
    assert Join(["11", "5", "ask"]) == "11,5,ask";
  }

  lemma UpdateSpreadText()
    ensures Format(UpdateCommand(Entry(11, 5, Some(Spread)))) == "u,11,5,spread"
  {
    assert IntToString(11) == "11" && IntToString(5) == "5";
    assert Join(["5", "spread"]) == "5,spread";
    assert Join(["11", "5", "spread"]) == "11,5,spread";
  }

  lemma SizeQueryText()
    ensures Format(SizeQuery(10)) == "q,size,10"
  {
    assert NatToString(10) == NatToString(1) + "0";
    assert IntToString(10) == "10";
    assert Join(["size", "10"]) == "size,10";
  }

  lemma SellText()
    ensures Format(SellOrder(1)) == "o,sell,1"
  {
    assert IntToString(1) == "1";
    assert Join(["sell", "1"]) == "sell,1";
  }

  /** The decimal text of the size the buy test orders. */
  lemma BuySizeText()
    ensures IntToString(100500) == "100500"
  {
    assert NatToString(10) == NatToString(1) + "0";
    assert NatToString(100) == NatToString(10) + "0";
    assert NatToString(1005) == NatToString(100) + "5";
    assert NatToString(10050) == NatToString(1005) + "0";
    assert NatToString(100500) == NatToString(10050) + "0";
  }

  lemma BuyText()
    ensures Format(BuyOrder(100500)) == "o,buy,100500"
  {
    BuySizeText();
    assert Join(["buy", "100500"]) == "buy,100500";
  }

  /** The update lines decode to the entry they name, for each of the three sides. */
  lemma UpdateBidLine()
    ensures Parse("u,9,1,bid") == Success(UpdateCommand(Entry(9, 1, Some(Bid))))
  {
    UpdateBidText();
    ParseFormat(UpdateCommand(Entry(9, 1, Some(Bid))));
  }

  lemma UpdateAskLine()
    ensures Parse("u,11,5,ask") == Success(UpdateCommand(Entry(11, 5, Some(Ask))))
  {
    UpdateAskText();
    ParseFormat(UpdateCommand(Entry(11, 5, Some(Ask))));
  }

  lemma UpdateSpreadLine()
    ensures Parse("u,11,5,spread") == Success(UpdateCommand(Entry(11, 5, Some(Spread))))
  {
    UpdateSpreadText();
    ParseFormat(UpdateCommand(Entry(11, 5, Some(Spread))));
  }

  /** The line with trailing spaces and a terminator is the bare line padded with whitespace. */
  lemma TailSpacesText()
    ensures "u,11,5,ask  \n" == [] + "u,11,5,ask" + "  \n"
    ensures AllWhitespace("  \n")
    ensures var line := "u,11,5,ask"; !IsWhitespace(line[0]) && !IsWhitespace(line[|line| - 1])
  {
  }

  /** Trailing spaces and the line terminator are stripped before the line is split. */
  lemma TailSpaces()
    ensures Parse("u,11,5,ask  \n") == Success(UpdateCommand(Entry(11, 5, Some(Ask))))
  {
    TailSpacesText();
    UpdateAskLine();
    ParseIgnoresPadding([], "u,11,5,ask", "  \n");
  }

  /** Handling an update line updates the book with the decoded entry and writes nothing. */
  lemma HandleUpdate(es: seq<Entry>)
    requires Sorted(es)
    ensures Handled(es, "u,9,1,bid") == Step(Upsert(es, Entry(9, 1, Some(Bid))), [], Pass)
  {
    UpdateBidLine();
  }

  lemma BestBidText()
    ensures Format(BestBidQuery) == "q,best_bid"
  {
    assert Join(["best_bid"]) == "best_bid";
  }

  lemma BestAskText()
    ensures Format(BestAskQuery) == "q,best_ask"
  {
    assert Join(["best_ask"]) == "best_ask";
  }

  /** The query and order lines decode to the query or order they name. */
  lemma BestBidLine()
    ensures Parse("q,best_bid") == Success(BestBidQuery)
  {
    BestBidText();
    ParseFormat(BestBidQuery);
  }

  lemma BestAskLine()
    ensures Parse("q,best_ask") == Success(BestAskQuery)
  {
    BestAskText();
    ParseFormat(BestAskQuery);
  }

  lemma SizeQueryLine()
    ensures Parse("q,size,10") == Success(SizeQuery(10))
  {
    SizeQueryText();
    ParseFormat(SizeQuery(10));
  }

  lemma SellLine()
    ensures Parse("o,sell,1") == Success(SellOrder(1))
  {
    SellText();
    ParseFormat(SellOrder(1));
  }

  lemma BuyLine()
    ensures Parse("o,buy,100500") == Success(BuyOrder(100500))
  {
    BuyText();
    ParseFormat(BuyOrder(100500));
  }

  /** What the three queries of the tests write. */
  lemma AnswerText()
    ensures FormatPair(2, 3) == "2,3\n" && FormatPair(3, 4) == "3,4\n" && FormatSingle(2) == "2\n"
  {
  }

  /** A best-bid query writes the best bid's price and size, comma-separated, and changes nothing. */
  lemma HandleBestBid()
    ensures var es := [Entry(2, 3, Some(Bid))];
      Handled(es, "q,best_bid") == Step(es, ["2,3\n"], Pass)
  {
    BestBidLine();
    AnswerText();
  }

  /** A best-ask query writes the best ask's price and size, comma-separated, and changes nothing. */
  lemma HandleBestAsk()
    ensures var es := [Entry(3, 4, Some(Ask))];
      Handled(es, "q,best_ask") == Step(es, ["3,4\n"], Pass)
  {
    BestAskLine();
    AnswerText();
  }

  /** A size query writes the size stored at that price and changes nothing. */
  lemma HandleSize()
    ensures var es := [Entry(10, 2, Some(Ask))];
      Handled(es, "q,size,10") == Step(es, ["2\n"], Pass)
  {
    SizeQueryLine();
    AnswerText();
  }

  /** Order lines run the book's sell and buy with the size they carry. */
  lemma HandleOrders(es: seq<Entry>)
    requires Sorted(es)
    ensures var r := AfterSell(es, 1);
      Handled(es, "o,sell,1") == Step(r.0, [], if r.1.Fail? then Fail(Rejected(r.1.error)) else Pass)
    ensures var r := AfterBuy(es, 100500);
      Handled(es, "o,buy,100500") == Step(r.0, [], if r.1.Fail? then Fail(Rejected(r.1.error)) else Pass)
  {
    SellLine();
    BuyLine();
  }

  /** The fields of a line that names the bid constant rather than its alias. */
  lemma NameNotAliasFields()
    ensures CleanFields(["u", "9", "1", "BID"])
    ensures Join(["u", "9", "1", "BID"]) == "u,9,1,BID"
  {
    var parts := ["u", "9", "1", "BID"];
    forall i | 0 <= i < 4
      ensures NoComma(parts[i])
    {
      assert i == 0 || i == 1 || i == 2 || i == 3;
    }
    assert Join(["1", "BID"]) == "1,BID";
    assert Join(["9", "1", "BID"]) == "9,1,BID";
  }

  lemma NameNotAliasText()
    ensures Split(Strip("u,9,1,BID")) == ["u", "9", "1", "BID"]
  {
    NameNotAliasFields();
    SplitJoinedLine(["u", "9", "1", "BID"]);
  }

  /** Decoding that line fails on its side, after both numbers have been read. */
  lemma NameNotAliasLine()
    ensures Parse("u,9,1,BID") == Failure(UnknownSide("BID"))
  {
    NameNotAliasText();
    UpdateBidText();
    DecodeFields(UpdateCommand(Entry(9, 1, Some(Bid))));
    ValueOfByAliasRejectsNames(Bid);
  }

  /** Such a line throws before the book is touched, and writes nothing. */
  lemma UnknownSideLeavesBook(es: seq<Entry>)
    requires Sorted(es)
    ensures Handled(es, "u,9,1,BID") == Step(es, [], Fail(Malformed(UnknownSide("BID"))))
  {
    NameNotAliasLine();
  }
}
