/**
 * CommandHandler.java: decode one line of text into a call on the book, and write the
 * answers of queries to the output.
 */
module CommandHandling {
  import opened Wrappers
  import opened Decimal
  import opened EntryTypes
  import opened Entries
  import opened OrderBook
  import opened BookTreeSetImpl

  /** The characters String.strip removes (the ASCII ones Character.isWhitespace accepts). */
  const Whitespace: set<char> :=
    {' ', '\t', '\n', '\U{B}', '\U{C}', '\r', '\U{1C}', '\U{1D}', '\U{1E}', '\U{1F}'}

  predicate IsWhitespace(c: char) {
    c in Whitespace
  }

  predicate AllWhitespace(s: string) {
    forall i :: 0 <= i < |s| ==> IsWhitespace(s[i])
  }

  /** Every character of s outside positions lo to hi is whitespace. */
  predicate WhitespaceOutside(s: string, lo: int, hi: int) {
    forall k :: 0 <= k < |s| && !(lo <= k < hi) ==> IsWhitespace(s[k])
  }

  /** The first position from k on that does not hold whitespace, or |s| if there is none. */
  function LeadEnd(s: string, k: nat): (i: nat)
    requires k <= |s|
    ensures k <= i <= |s|
    ensures forall t :: k <= t < i ==> IsWhitespace(s[t])
    ensures i < |s| ==> !IsWhitespace(s[i])
    decreases |s| - k
  {
    if k < |s| && IsWhitespace(s[k]) then LeadEnd(s, k + 1) else k
  }

  /** The position just after the last non-whitespace character between lo and j, or lo if there is none. */
  function TrailStart(s: string, lo: nat, j: nat): (r: nat)
    requires lo <= j <= |s|
    ensures lo <= r <= j
    ensures forall t :: r <= t < j ==> IsWhitespace(s[t])
    ensures lo < r ==> !IsWhitespace(s[r - 1])
  {
    if lo < j && IsWhitespace(s[j - 1]) then TrailStart(s, lo, j - 1) else j
  }

  /** LeadEnd is the one position with only whitespace before it and none on it. */
  lemma {:induction false} LeadEndAt(s: string, k: nat, i: nat)
    requires k <= i <= |s| && forall t :: k <= t < i ==> IsWhitespace(s[t])
    requires i < |s| ==> !IsWhitespace(s[i])
    ensures LeadEnd(s, k) == i
    decreases i - k
  {
    if k < i {
      LeadEndAt(s, k + 1, i);
    }
  }

  /** TrailStart is the one position with only whitespace after it and none just before it. */
  lemma {:induction false} TrailStartAt(s: string, lo: nat, j: nat, r: nat)
    requires lo <= r <= j <= |s| && forall t :: r <= t < j ==> IsWhitespace(s[t])
    requires lo < r ==> !IsWhitespace(s[r - 1])
    ensures TrailStart(s, lo, j) == r
    decreases j - r
  {
    if r < j {
      TrailStartAt(s, lo, j - 1, r);
    }
  }

  /** String.strip: the middle of s, between whitespace at either end. */
  function Strip(s: string): (r: string)
    ensures exists i, j :: 0 <= i <= j <= |s| && r == s[i..j] && WhitespaceOutside(s, i, j)
    ensures r != [] ==> !IsWhitespace(r[0]) && !IsWhitespace(r[|r| - 1])
  {
    var i := LeadEnd(s, 0);
    var j := TrailStart(s, i, |s|);
    assert WhitespaceOutside(s, i, j);
    s[i..j]
  }

  /** Surrounding whitespace does not change what strip returns. */
  lemma StripOfPadded(w1: string, s: string, w2: string)
    requires AllWhitespace(w1) && AllWhitespace(w2)
    requires s != [] ==> !IsWhitespace(s[0]) && !IsWhitespace(s[|s| - 1])
    ensures Strip(w1 + s + w2) == s
  {
    var line := w1 + s + w2;
    var i, j := |w1|, |w1| + |s|;
    assert forall t :: 0 <= t < i ==> line[t] == w1[t];
    assert forall t :: j <= t < |line| ==> line[t] == w2[t - j];
    if s == [] {
      LeadEndAt(line, 0, |line|);
      TrailStartAt(line, |line|, |line|, |line|);
    } else {
      assert line[i] == s[0] && line[j - 1] == s[|s| - 1];
      LeadEndAt(line, 0, i);
      TrailStartAt(line, i, |line|, j);
      assert line[i..j] == s;
    }
  }

  /** The pieces of s between commas, empty pieces included. */
  function SplitAll(s: string): (parts: seq<string>)
    ensures |parts| >= 1
    ensures forall i :: 0 <= i < |parts| ==> NoComma(parts[i])
    ensures |parts| == 1 ==> parts[0] == s
  {
    if s == [] then [""]
    else if s[0] == ',' then [""] + SplitAll(s[1..])
    else
      var rest := SplitAll(s[1..]);
      [[s[0]] + rest[0]] + rest[1..]
  }

  /** The pieces joined back with commas between them. */
  function Join(parts: seq<string>): string
    requires |parts| >= 1
  {
    if |parts| == 1 then parts[0] else parts[0] + "," + Join(parts[1..])
  }

  /** Splitting loses nothing: joining the pieces gives the string back. */
  lemma {:induction false} JoinSplitAll(s: string)
    ensures Join(SplitAll(s)) == s
  {
    if s != [] {
      JoinSplitAll(s[1..]);
      var rest := SplitAll(s[1..]);
      if s[0] == ',' {
        assert s == "," + s[1..];
      } else if |rest| == 1 {
        assert s == [s[0]] + s[1..];
      } else {
        assert Join(rest) == rest[0] + "," + Join(rest[1..]);
        assert s == [s[0]] + s[1..];
      }
    }
  }

  /** Joining comma-free pieces and splitting again gives the pieces back. */
  lemma {:induction false} SplitAllJoin(parts: seq<string>)
    requires |parts| >= 1 && forall i :: 0 <= i < |parts| ==> NoComma(parts[i])
    ensures SplitAll(Join(parts)) == parts
    decreases |parts|, |parts[0]|
  {
    var p := parts[0];
    if |parts| == 1 {
      SplitAllOfNoComma(p);
    } else if p == [] {
      assert Join(parts) == "," + Join(parts[1..]);
      SplitAllJoin(parts[1..]);
      assert parts == [""] + parts[1..];
    } else {
      var shorter := [p[1..]] + parts[1..];
      assert shorter[1..] == parts[1..];
      assert Join(parts) == [p[0]] + Join(shorter);
      SplitAllJoin(shorter);
      assert p == [p[0]] + p[1..];
      assert parts == [[p[0]] + p[1..]] + parts[1..];
    }
  }

  lemma {:induction false} SplitAllOfNoComma(s: string)
    requires NoComma(s)
    ensures SplitAll(s) == [s]
  {
    if s != [] {
      SplitAllOfNoComma(s[1..]);
    }
  }

  /** The pieces without the empty ones at the end. */
  function DropTrailingEmpty(parts: seq<string>): (r: seq<string>)
    ensures |r| <= |parts| && r == parts[..|r|]
    ensures forall i :: |r| <= i < |parts| ==> parts[i] == ""
    ensures r != [] ==> r[|r| - 1] != ""
  {
    if parts != [] && parts[|parts| - 1] == "" then DropTrailingEmpty(parts[..|parts| - 1])
    else parts
  }

  /**
   * Pattern.compile(",").split(s): the input alone when it holds no comma; otherwise the
   * pieces between commas, with trailing empty pieces removed.
   */
  function Split(s: string): (parts: seq<string>)
    ensures forall i :: 0 <= i < |parts| ==> NoComma(parts[i])
  {
    var all := SplitAll(s);
    if |all| == 1 then [s] else DropTrailingEmpty(all)
  }

  /** A decoded command line. */
  datatype Command =
    | UpdateCommand(entry: Entry)    // u,<price>,<size>,<side>
    | BestBidQuery                   // q,best_bid
    | BestAskQuery                   // q,best_ask
    | SizeQuery(price: int)          // q,size,<price>
    | BuyOrder(size: int)            // o,buy,<size>
    | SellOrder(size: int)           // o,sell,<size>
    | Ignored                        // any other command or sub-command

  /** What a malformed line throws. */
  datatype CommandError =
    | MissingField(index: nat)       // ArrayIndexOutOfBoundsException
    | NotANumber(text: string)       // NumberFormatException
    | UnknownSide(alias: string)     // IllegalArgumentException from valueOfByAlias

  function Field(parts: seq<string>, i: nat): Result<string, CommandError> {
    if i < |parts| then Success(parts[i]) else Failure(MissingField(i))
  }

  function Number(parts: seq<string>, i: nat): Result<int, CommandError> {
    var text :- Field(parts, i);
    match ParseInt(text)
    case Some(v) => Success(v)
    case None => Failure(NotANumber(text))
  }

  function Side(parts: seq<string>, i: nat): Result<EntryType, CommandError> {
    var alias :- Field(parts, i);
    match ValueOfByAlias(alias)
    case Success(t) => Success(t)
    case Failure(_) => Failure(UnknownSide(alias))
  }

  /**
   * handle, update, query and order up to their calls on the book: strip, split on commas,
   * dispatch on the first field, reading fields in the order the Java reads them.
   */
  function Parse(line: string): (r: Result<Command, CommandError>)
    ensures Strip(line) == [] ==> r == Success(Ignored)
    ensures r.Success? && !r.value.Ignored? ==> WellFormed(r.value)
  {
    Decode(Split(Strip(line)))
  }

  /**
   * The dispatch on the fields of a stripped, split line. A missing first field throws; a first
   * field other than u, q and o, and a q or o line with an unknown sub-command, is ignored; an
   * order's size is read before its sub-command is looked at.
   */
  function Decode(parts: seq<string>): (r: Result<Command, CommandError>)
    ensures parts == [] ==> r == Failure(MissingField(0))
    ensures |parts| > 0 && parts[0] != "u" && parts[0] != "q" && parts[0] != "o" ==> r == Success(Ignored)
    ensures r.Success? && !r.value.Ignored? ==> WellFormed(r.value)
    ensures |parts| > 0 && parts[0] == "u" ==> (r.Success? <==>
      |parts| > 3 && ParseInt(parts[1]).Some? && ParseInt(parts[2]).Some? && ValueOfByAlias(parts[3]).Success?)
    ensures |parts| == 1 && parts[0] == "u" ==> r == Failure(MissingField(1))
    ensures |parts| > 1 && parts[0] == "u" && ParseInt(parts[1]).None? ==> r == Failure(NotANumber(parts[1]))
    ensures |parts| == 2 && parts[0] == "u" && ParseInt(parts[1]).Some? ==> r == Failure(MissingField(2))
    ensures |parts| > 2 && parts[0] == "u" && ParseInt(parts[1]).Some? && ParseInt(parts[2]).None? ==>
      r == Failure(NotANumber(parts[2]))
    ensures |parts| == 3 && parts[0] == "u" && ParseInt(parts[1]).Some? && ParseInt(parts[2]).Some? ==>
      r == Failure(MissingField(3))
    ensures (|parts| > 3 && parts[0] == "u" && ParseInt(parts[1]).Some? && ParseInt(parts[2]).Some?
             && ValueOfByAlias(parts[3]).Failure?) ==> r == Failure(UnknownSide(parts[3]))
    ensures |parts| > 0 && parts[0] == "u" && r.Success? ==>
      r.value == UpdateCommand(Entry(ParseInt(parts[1]).value, ParseInt(parts[2]).value,
                                     Some(ValueOfByAlias(parts[3]).value)))
    ensures |parts| == 1 && parts[0] == "q" ==> r == Failure(MissingField(1))
    ensures |parts| > 1 && parts[0] == "q" && parts[1] == "best_bid" ==> r == Success(BestBidQuery)
    ensures |parts| > 1 && parts[0] == "q" && parts[1] == "best_ask" ==> r == Success(BestAskQuery)
    ensures |parts| == 2 && parts[0] == "q" && parts[1] == "size" ==> r == Failure(MissingField(2))
    ensures |parts| > 2 && parts[0] == "q" && parts[1] == "size" ==>
      r == match ParseInt(parts[2]) case Some(p) => Success(SizeQuery(p)) case None => Failure(NotANumber(parts[2]))
    ensures (|parts| > 1 && parts[0] == "q" && parts[1] != "best_bid" && parts[1] != "best_ask"
             && parts[1] != "size") ==> r == Success(Ignored)
    ensures |parts| > 0 && parts[0] == "o" && |parts| <= 2 ==> r == Failure(MissingField(2))
    ensures |parts| > 2 && parts[0] == "o" && ParseInt(parts[2]).None? ==> r == Failure(NotANumber(parts[2]))
    ensures |parts| > 2 && parts[0] == "o" && ParseInt(parts[2]).Some? ==>
      r == Success(if parts[1] == "buy" then BuyOrder(ParseInt(parts[2]).value)
                   else if parts[1] == "sell" then SellOrder(ParseInt(parts[2]).value)
                   else Ignored)
  {
    var alias :- Field(parts, 0);
    if alias == "u" then
      var price :- Number(parts, 1);
      var size :- Number(parts, 2);
      var side :- Side(parts, 3);
      Success(UpdateCommand(Entry(price, size, Some(side))))
    else if alias == "q" then
      var query :- Field(parts, 1);
      if query == "best_bid" then Success(BestBidQuery)
      else if query == "best_ask" then Success(BestAskQuery)
      else if query == "size" then
        var price :- Number(parts, 2);
        Success(SizeQuery(price))
      else Success(Ignored)
    else if alias == "o" then
      var size :- Number(parts, 2);
      // the size is the third field, so the second is there
      var order := parts[1];
      if order == "buy" then Success(BuyOrder(size))
      else if order == "sell" then Success(SellOrder(size))
      else Success(Ignored)
    else Success(Ignored)
  }

  /** `%d,%d%n` with the newline fixed to "\n". */
  function FormatPair(a: int, b: int): (r: string)
    ensures |r| >= 4 && r[|r| - 1] == '\n'
    ensures var k := |IntToString(a)|;
      0 < k < |r| - 2 && r[k] == ',' && NoComma(r[..k]) && NoComma(r[k + 1..])
  {
    IntToStringNoComma(a);
    IntToStringNoComma(b);
    IntToString(a) + "," + IntToString(b) + "\n"
  }

  /** `%d%n` with the newline fixed to "\n". */
  function FormatSingle(a: int): (r: string)
    ensures |r| >= 2 && r[|r| - 1] == '\n'
    ensures NoComma(r)
  {
    IntToStringNoComma(a);
    IntToString(a) + "\n"
  }

  /** What handle throws: a malformed line, or the book's exception. */
  datatype HandleError = Malformed(cause: CommandError) | Rejected(reason: BookError)

  /** The book after a line, the lines written, and whether it threw. */
  datatype Step = Step(entries: seq<Entry>, written: seq<string>, status: Outcome<HandleError>)

  /** What a decoded command does to a book. */
  function Execute(es: seq<Entry>, cmd: Command): (r: Step)
    requires Sorted(es)
    ensures Sorted(r.entries)
    ensures (cmd.BestBidQuery? || cmd.BestAskQuery? || cmd.SizeQuery?) ==> r.entries == es && |r.written| == 1
    ensures !(cmd.BestBidQuery? || cmd.BestAskQuery? || cmd.SizeQuery?) ==> r.written == []
    ensures r.status.Fail? ==> cmd.BuyOrder? || cmd.SellOrder?
    ensures cmd.Ignored? ==> r == Step(es, [], Pass)
    ensures cmd.BestBidQuery? ==> r == Step(es, [FormatPair(BestBidOf(es).price, BestBidOf(es).size)], Pass)
    ensures cmd.BestAskQuery? ==> r == Step(es, [FormatPair(BestAskOf(es).price, BestAskOf(es).size)], Pass)
    ensures cmd.SizeQuery? ==> r == Step(es, [FormatSingle(EntryAt(es, cmd.price).size)], Pass)
    ensures cmd.UpdateCommand? ==> r == Step(Upsert(es, cmd.entry), [], Pass)
    ensures cmd.SellOrder? ==> var (after, outcome) := AfterSell(es, cmd.size);
      r == Step(after, [], if outcome.Fail? then Fail(Rejected(outcome.error)) else Pass)
    ensures cmd.BuyOrder? ==> var (after, outcome) := AfterBuy(es, cmd.size);
      r == Step(after, [], if outcome.Fail? then Fail(Rejected(outcome.error)) else Pass)
  {
    match cmd
    case UpdateCommand(e) => Step(Upsert(es, e), [], Pass)
    case BestBidQuery =>
      var best := BestBidOf(es);
      Step(es, [FormatPair(best.price, best.size)], Pass)
    case BestAskQuery =>
      var best := BestAskOf(es);
      Step(es, [FormatPair(best.price, best.size)], Pass)
    case SizeQuery(p) => Step(es, [FormatSingle(EntryAt(es, p).size)], Pass)
    case BuyOrder(n) =>
      var (after, outcome) := AfterBuy(es, n);
      ConsumeKeepsSorted(es, BuyWalk(es), n);
      Step(after, [], if outcome.Fail? then Fail(Rejected(outcome.error)) else Pass)
    case SellOrder(n) =>
      var (after, outcome) := AfterSell(es, n);
      ConsumeKeepsSorted(es, SellWalk(es), n);
      Step(after, [], if outcome.Fail? then Fail(Rejected(outcome.error)) else Pass)
    case Ignored => Step(es, [], Pass)
  }

  /** handle: a line that does not decode changes nothing and writes nothing. */
  function Handled(es: seq<Entry>, line: string): (r: Step)
    requires Sorted(es)
    ensures Sorted(r.entries) && |r.written| <= 1
    ensures r.status.Fail? && r.status.error.Malformed? ==> r.entries == es && r.written == []
    ensures Parse(line).Failure? <==> r.status.Fail? && r.status.error.Malformed?
    ensures r.written != [] ==> r.entries == es && r.status == Pass
  {
    match Parse(line)
    case Failure(err) => Step(es, [], Fail(Malformed(err)))
    case Success(cmd) => Execute(es, cmd)
  }

  /** Commands that have a text form: every field fits a Java int and an update carries a side. */
  predicate WellFormed(cmd: Command) {
    match cmd
    case UpdateCommand(e) => IsInt32(e.price) && IsInt32(e.size) && e.kind.Some?
    case SizeQuery(p) => IsInt32(p)
    case BuyOrder(n) => IsInt32(n)
    case SellOrder(n) => IsInt32(n)
    case BestBidQuery => true
    case BestAskQuery => true
    case Ignored => false
  }

  /** The comma-separated fields of a command's line, as the handler's Javadoc lists them. */
  function Fields(cmd: Command): seq<string>
    requires WellFormed(cmd)
  {
    match cmd
    case UpdateCommand(e) => ["u", IntToString(e.price), IntToString(e.size), e.kind.value.Alias()]
    case BestBidQuery => ["q", "best_bid"]
    case BestAskQuery => ["q", "best_ask"]
    case SizeQuery(p) => ["q", "size", IntToString(p)]
    case BuyOrder(n) => ["o", "buy", IntToString(n)]
    case SellOrder(n) => ["o", "sell", IntToString(n)]
  }

  /** The line that issues a command. */
  function Format(cmd: Command): string
    requires WellFormed(cmd)
  {
    Join(Fields(cmd))
  }

  lemma {:induction false} JoinLast(parts: seq<string>)
    requires |parts| >= 1 && parts[|parts| - 1] != []
    ensures var s := Join(parts); var last := parts[|parts| - 1];
      |s| > 0 && s[|s| - 1] == last[|last| - 1]
  {
    if |parts| > 1 {
      JoinLast(parts[1..]);
    }
  }

  /** Decimal text ends in a digit. */
  lemma IntToStringEndsInDigit(x: int)
    ensures var s := IntToString(x); IsDigit(s[|s| - 1])
  {
    var s := IntToString(x);
    if x < 0 {
      assert s[|s| - 1] == s[1..][|s| - 2];
    }
  }

  /** Splitting comma-free fields joined by commas, the last one non-empty, gives the fields back. */
  lemma SplitJoin(parts: seq<string>)
    requires |parts| >= 1 && forall i :: 0 <= i < |parts| ==> NoComma(parts[i])
    requires parts[|parts| - 1] != []
    ensures Split(Join(parts)) == parts
  {
    SplitAllJoin(parts);
  }

  /** The fields of a well-formed command decode to that command. */
  lemma DecodeFields(cmd: Command)
    requires WellFormed(cmd)
    ensures Decode(Fields(cmd)) == Success(cmd)
  {
    match cmd
    case UpdateCommand(e) =>
      ParseIntOfIntToString(e.price);
      ParseIntOfIntToString(e.size);
      ValueOfByAliasRoundTrip(e.kind.value);
    case SizeQuery(p) =>
      ParseIntOfIntToString(p);
    case BuyOrder(n) =>
      ParseIntOfIntToString(n);
    case SellOrder(n) =>
      ParseIntOfIntToString(n);
    case BestBidQuery =>
    case BestAskQuery =>
  }

  /** A line of comma-free fields with no whitespace at its ends strips and splits into those fields. */
  lemma SplitJoinedLine(parts: seq<string>)
    requires CleanFields(parts)
    ensures Split(Strip(Join(parts))) == parts
  {
    var line := Join(parts);
    JoinLast(parts);
    assert line[0] == parts[0][0];
    StripOfPadded([], line, []);
    assert [] + line + [] == line;
    SplitJoin(parts);
  }

  /** A type's alias is a comma-free word ending in a letter. */
  lemma AliasClean(t: EntryType)
    ensures var a := t.Alias(); NoComma(a) && a != [] && !IsWhitespace(a[|a| - 1])
  {
  }

  /** Fields that join into a line Split and Strip take apart again: no commas, no whitespace at the ends. */
  predicate CleanFields(parts: seq<string>) {
    && |parts| >= 1 && (forall i :: 0 <= i < |parts| ==> NoComma(parts[i]))
    && parts[0] != [] && !IsWhitespace(parts[0][0])
    && var last := parts[|parts| - 1]; last != [] && !IsWhitespace(last[|last| - 1])
  }

  /** A command word, a sub-command word and a number make clean fields. */
  lemma CleanNumbered(a: string, b: string, n: int)
    requires NoComma(a) && NoComma(b) && a != [] && !IsWhitespace(a[0])
    ensures CleanFields([a, b, IntToString(n)])
  {
    var c := IntToString(n);
    IntToStringNoComma(n);
    IntToStringEndsInDigit(n);
    forall i | 0 <= i < 3
      ensures NoComma([a, b, c][i])
    {
      assert i == 0 || i == 1 || i == 2;
    }
  }

  /** An update's fields are clean. */
  lemma CleanUpdate(price: int, size: int, t: EntryType)
    ensures CleanFields(["u", IntToString(price), IntToString(size), t.Alias()])
  {
    var parts := ["u", IntToString(price), IntToString(size), t.Alias()];
    IntToStringNoComma(price);
    IntToStringNoComma(size);
    AliasClean(t);
    forall i | 0 <= i < 4
      ensures NoComma(parts[i])
    {
      assert i == 0 || i == 1 || i == 2 || i == 3;
    }
  }

  /** A command's fields hold no comma, and its line has no whitespace at either end. */
  lemma FieldsClean(cmd: Command)
    requires WellFormed(cmd)
    ensures CleanFields(Fields(cmd))
  {
    match cmd
    case UpdateCommand(e) =>
      CleanUpdate(e.price, e.size, e.kind.value);
    case SizeQuery(p) =>
      CleanNumbered("q", "size", p);
    case BuyOrder(n) =>
      CleanNumbered("o", "buy", n);
    case SellOrder(n) =>
      CleanNumbered("o", "sell", n);
    case BestBidQuery =>
      assert NoComma("q") && NoComma("best_bid");
    case BestAskQuery =>
      assert NoComma("q") && NoComma("best_ask");
  }

  /** A command's line strips and splits into its fields. */
  lemma SplitFormat(cmd: Command)
    requires WellFormed(cmd)
    ensures Split(Strip(Format(cmd))) == Fields(cmd)
  {
    FieldsClean(cmd);
    SplitJoinedLine(Fields(cmd));
  }

  /** Every well-formed command survives being written as a line and decoded again. */
  lemma ParseFormat(cmd: Command)
    requires WellFormed(cmd)
    ensures Parse(Format(cmd)) == Success(cmd)
  {
    SplitFormat(cmd);
    DecodeFields(cmd);
  }

  /** Whitespace around a line, such as its line terminator, does not change what it decodes to. */
  lemma ParseIgnoresPadding(w1: string, line: string, w2: string)
    requires AllWhitespace(w1) && AllWhitespace(w2)
    requires line != [] ==> !IsWhitespace(line[0]) && !IsWhitespace(line[|line| - 1])
    ensures Parse(w1 + line + w2) == Parse(line)
  {
    StripOfPadded(w1, line, w2);
    StripOfPadded([], line, []);
    assert [] + line + [] == line;
  }

  /** The pair a best-bid or best-ask query writes strips to the two numbers and a comma. */
  lemma StripFormatPair(a: int, b: int)
    ensures Strip(FormatPair(a, b)) == Join([IntToString(a), IntToString(b)])
  {
    var line := Join([IntToString(a), IntToString(b)]);
    assert Join([IntToString(b)]) == IntToString(b);
    assert line == IntToString(a) + "," + IntToString(b);
    IntToStringEndsInDigit(b);
    assert line[0] == IntToString(a)[0];
    assert line[|line| - 1] == IntToString(b)[|IntToString(b)| - 1];
    assert FormatPair(a, b) == [] + line + "\n";
    StripOfPadded([], line, "\n");
  }

  /** The pair a best-bid or best-ask query writes reads back as the two numbers. */
  lemma FormatPairReadsBack(a: int, b: int)
    requires IsInt32(a) && IsInt32(b)
    ensures var parts := Split(Strip(FormatPair(a, b)));
      |parts| == 2 && ParseInt(parts[0]) == Some(a) && ParseInt(parts[1]) == Some(b)
  {
    IntToStringNoComma(a);
    IntToStringNoComma(b);
    IntToStringEndsInDigit(b);
    StripFormatPair(a, b);
    SplitJoin([IntToString(a), IntToString(b)]);
    ParseIntOfIntToString(a);
    ParseIntOfIntToString(b);
  }

  /** The size a size query writes reads back as that number. */
  lemma FormatSingleReadsBack(a: int)
    requires IsInt32(a)
    ensures Split(Strip(FormatSingle(a))) == [IntToString(a)] && ParseInt(IntToString(a)) == Some(a)
  {
    IntToStringNoComma(a);
    IntToStringEndsInDigit(a);
    assert FormatSingle(a) == [] + IntToString(a) + "\n";
    StripOfPadded([], IntToString(a), "\n");
    SplitAllOfNoComma(IntToString(a));
    ParseIntOfIntToString(a);
  }

  /** Issuing the same update line twice leaves the book as issuing it once, and writes nothing. */
  lemma UpdateLineIdempotent(es: seq<Entry>, line: string)
    requires Sorted(es) && Parse(line).Success? && Parse(line).value.UpdateCommand?
    ensures var once := Handled(es, line);
      Handled(once.entries, line) == once && once.written == []
  {
    UpsertIdempotent(es, Parse(line).value.entry);
  }

  class CommandHandler {
    const book: BookTreeSet
    /** Everything written to the output so far, one string per write. */
    var output: seq<string>

    ghost predicate Valid()
      reads this, book
    {
      book.Valid()
    }

    constructor (book: BookTreeSet)
      requires book.Valid()
      ensures this.book == book && output == [] && Valid()
    {
      this.book := book;
      output := [];
    }

    /** handle: decode the line, call the book, write the answer of a query. */
    method Handle(line: string) returns (status: Outcome<HandleError>)
      requires Valid()
      modifies this, book
      ensures Valid()
      ensures var step := Handled(old(book.entries), line);
        book.entries == step.entries && output == old(output) + step.written && status == step.status
    {
      var parsed := Parse(line);
      if parsed.Failure? {
        return Fail(Malformed(parsed.error));
      }
      status := Dispatch(parsed.value);
    }

    /** update, query and order: the call a decoded command makes on the book, and what it writes. */
    method Dispatch(cmd: Command) returns (status: Outcome<HandleError>)
      requires Valid()
      modifies this, book
      ensures Valid()
      ensures var step := Execute(old(book.entries), cmd);
        book.entries == step.entries && output == old(output) + step.written && status == step.status
    {
      status := Pass;
      match cmd
      case UpdateCommand(e) =>
        book.Update(e);
      case BestBidQuery =>
        var best := book.BestBid();
        output := output + [FormatPair(best.price, best.size)];
      case BestAskQuery =>
        var best := book.BestAsk();
        output := output + [FormatPair(best.price, best.size)];
      case SizeQuery(p) =>
        var entry := book.GetEntryByPrice(p);
        output := output + [FormatSingle(entry.size)];
      case BuyOrder(n) =>
        var outcome := book.OrderBuy(n);
        if outcome.Fail? {
          status := Fail(Rejected(outcome.error));
        }
      case SellOrder(n) =>
        var outcome := book.OrderSell(n);
        if outcome.Fail? {
          status := Fail(Rejected(outcome.error));
        }
      case Ignored =>
    }
  }
}
