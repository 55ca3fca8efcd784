/** One price level of the book (BookEntry.java). */
module Entries {
  import opened Wrappers
  import opened Decimal
  import opened EntryTypes

  /**
   * A price level as a value: the price is the book's key, the size the
   * resting quantity, the kind None where Java leaves the type null.
   */
  datatype Entry = Entry(price: int, size: int, kind: Option<EntryType>)

  /** `new BookEntry(price)`: the zero-size, untyped entry the book answers with when it has nothing. */
  function Sentinel(price: int): (e: Entry)
    ensures e.price == price && e.size == 0 && e.kind.None?
  {
    Entry(price, 0, None)
  }

  /** BookEntry.equals: price, size and type must all agree. */
  function Equals(a: Entry, b: Entry): (r: bool)
    ensures r <==> a == b
  {
    a.price == b.price && a.size == b.size && a.kind == b.kind
  }

  /** The book's TreeSet compares prices only, so this is what membership in the book means. */
  predicate SamePrice(a: Entry, b: Entry) {
    a.price == b.price
  }

  /** Equality implies the book's price-only equivalence, but not the other way round. */
  lemma EqualsStricterThanSamePrice(a: Entry, b: Entry)
    ensures Equals(a, b) ==> SamePrice(a, b)
    ensures SamePrice(Entry(99, 0, Some(Ask)), Entry(99, 20, Some(Ask)))
    ensures !Equals(Entry(99, 0, Some(Ask)), Entry(99, 20, Some(Ask)))
  {
  }

  /** How string concatenation prints a possibly-null type. */
  function KindName(k: Option<EntryType>): string {
    match k
    case None => "null"
    case Some(t) => t.Name()
  }

  /** BookEntry.toString: `Entry [price=P, size=S, type=T]`. */
  function ToString(e: Entry): (r: string)
    ensures |r| > 13 && r[..13] == "Entry [price=" && r[|r| - 1] == ']'
  {
    "Entry [price=" + IntToString(e.price) + ", size=" + IntToString(e.size) + ", type=" + KindName(e.kind) + "]"
  }

  predicate NoComma(s: string) {
    forall i :: 0 <= i < |s| ==> s[i] != ','
  }

  lemma IntToStringNoComma(x: int)
    ensures NoComma(IntToString(x))
  {
    var s := IntToString(x);
    if x < 0 {
      assert forall i :: 1 <= i < |s| ==> s[i] == s[1..][i - 1];
    }
  }

  /** Position of the first comma in s, or |s| when there is none. */
  function FirstComma(s: string): (k: nat)
    ensures k <= |s|
  {
    if s == [] || s[0] == ',' then 0 else 1 + FirstComma(s[1..])
  }

  lemma {:induction false} FirstCommaAfter(x: string, y: string)
    requires NoComma(x) && |y| > 0 && y[0] == ','
    ensures FirstComma(x + y) == |x|
  {
    if x != [] {
      assert (x + y)[1..] == x[1..] + y;
      FirstCommaAfter(x[1..], y);
    }
  }

  /** A comma-free prefix followed by a comma is determined by the whole string. */
  lemma SplitAtComma(x1: string, y1: string, x2: string, y2: string)
    requires NoComma(x1) && NoComma(x2)
    requires |y1| > 0 && y1[0] == ',' && |y2| > 0 && y2[0] == ','
    requires x1 + y1 == x2 + y2
    ensures x1 == x2 && y1 == y2
  {
    FirstCommaAfter(x1, y1);
    FirstCommaAfter(x2, y2);
    assert x1 == (x1 + y1)[..|x1|] == (x2 + y2)[..|x2|] == x2;
    assert y1 == (x1 + y1)[|x1|..] == (x2 + y2)[|x2|..] == y2;
  }

  lemma DropCommonPrefix(h: string, x: string, y: string)
    requires h + x == h + y
    ensures x == y
  {
    assert x == (h + x)[|h|..] == (h + y)[|h|..] == y;
  }

  /** Reads a type name back; the inverse of KindName. */
  function KindOfName(s: string): Option<Option<EntryType>> {
    if s == "null" then Some(None)
    else if s == "ASK" then Some(Some(Ask))
    else if s == "BID" then Some(Some(Bid))
    else if s == "SPREAD" then Some(Some(Spread))
    else None
  }

  lemma KindOfNameRoundTrip(k: Option<EntryType>)
    ensures KindOfName(KindName(k)) == Some(k)
  {
  }

  /** The text after `price=`, written right-nested so its pieces can be taken apart one by one. */
  lemma ToStringShape(e: Entry)
    ensures ToString(e) == "Entry [price=" + (IntToString(e.price) + (", size=" + (IntToString(e.size) + (", type=" + (KindName(e.kind) + "]")))))
  {
  }

  /** toString renders every field, so two entries print alike only when they are equal. */
  lemma ToStringInjective(a: Entry, b: Entry)
    requires ToString(a) == ToString(b)
    ensures Equals(a, b)
  {
    var ka, kb := KindName(a.kind) + "]", KindName(b.kind) + "]";
    var sa, sb := ", type=" + ka, ", type=" + kb;
    var ra, rb := ", size=" + (IntToString(a.size) + sa), ", size=" + (IntToString(b.size) + sb);
    ToStringShape(a);
    ToStringShape(b);
    DropCommonPrefix("Entry [price=", IntToString(a.price) + ra, IntToString(b.price) + rb);
    IntToStringNoComma(a.price);
    IntToStringNoComma(b.price);
    SplitAtComma(IntToString(a.price), ra, IntToString(b.price), rb);
    IntToStringInjective(a.price, b.price);
    DropCommonPrefix(", size=", IntToString(a.size) + sa, IntToString(b.size) + sb);
    IntToStringNoComma(a.size);
    IntToStringNoComma(b.size);
    SplitAtComma(IntToString(a.size), sa, IntToString(b.size), sb);
    IntToStringInjective(a.size, b.size);
    DropCommonPrefix(", type=", ka, kb);
    assert KindName(a.kind) == ka[..|ka| - 1] == kb[..|kb| - 1] == KindName(b.kind);
    KindOfNameRoundTrip(a.kind);
    KindOfNameRoundTrip(b.kind);
  }

  /**
   * The Java object: the price is final, the size and the type are set in place.
   */
  class BookEntry {
    const price: int
    var size: int
    var kind: Option<EntryType>

    /** The value the object currently holds. */
    function Value(): Entry
      reads this
    {
      Entry(price, size, kind)
    }

    /** `new BookEntry(price, size, type)`. */
    constructor (price: int, size: int, kind: Option<EntryType>)
      ensures Value() == Entry(price, size, kind)
    {
      this.price := price;
      this.size := size;
      this.kind := kind;
    }

    /** `new BookEntry(price)`: Java's default field values, size 0 and a null type. */
    constructor WithPrice(price: int)
      ensures Value() == Sentinel(price)
    {
      this.price := price;
      this.size := 0;
      this.kind := None;
    }

    /** setSize changes the size and nothing else. */
    method SetSize(size: int)
      modifies this
      ensures Value() == old(Value()).(size := size)
    {
      this.size := size;
    }

    /** setType changes the type and nothing else. */
    method SetType(kind: Option<EntryType>)
      modifies this
      ensures Value() == old(Value()).(kind := kind)
    {
      this.kind := kind;
    }
  }
}
