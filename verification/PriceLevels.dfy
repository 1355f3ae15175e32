/** The collapsed book of an order map: one line a price, read off the map alone. */
module PriceLevels {

  import opened Conservation
  import opened Engine
  import opened OrderBook

  /** The orders at a price. */
  function AtPrice(m: OrderMap, price: u32): OrderMap {
    map r | r in m && m[r].price == price :: m[r]
  }

  /** All shares offered at a price, whatever order the map is walked in. */
  ghost function PriceSum(m: OrderMap, price: u32): nat {
    Sum(AtPrice(m, price))
  }

  ghost predicate Offered(m: OrderMap, price: u32) {
    exists r :: r in m && m[r].price == price
  }

  /** A line for exactly every price offered, in ascending order, with the shares offered at it as an
      unsigned 32-bit number. */
  ghost predicate LevelsOf(lines: seq<Line>, m: OrderMap) {
    && AscendingLines(lines)
    && (forall i :: 0 <= i < |lines| ==>
          Offered(m, lines[i].price) && lines[i].shares == PriceSum(m, lines[i].price) % U32)
    && (forall p :: Offered(m, p) ==> Line(p, PriceSum(m, p) % U32) in lines)
  }

  lemma {:induction false} WithoutLast(book: seq<Entry>, m: OrderMap)
    requires book != [] && Ascending(book) && EntriesOf(book, m)
    ensures var n := |book| - 1; Ascending(book[..n]) && EntriesOf(book[..n], m - {book[n].reference})
  {
    var n := |book| - 1;
    var last := book[n];
    assert EntryOf(last, m);
    forall i | 0 <= i < n
      ensures EntryOf(book[..n][i], m - {last.reference})
    {
      assert EntryOf(book[i], m) && Less(book[i], last);
    }
    forall r | r in m - {last.reference}
      ensures Entry(m[r], r) in book[..n]
    {
      var i :| 0 <= i < |book| && book[i] == Entry(m[r], r);
      assert book[..n][i] == book[i];
    }
  }

  lemma {:induction false} LastAtPrice(m: OrderMap, r: u64, price: u32)
    requires r in m
    ensures PriceSum(m, price) == PriceSum(m - {r}, price) + if m[r].price == price then m[r].shares else 0
  {
    if m[r].price == price {
      SumWithout(AtPrice(m, price), r);
      assert AtPrice(m, price) - {r} == AtPrice(m - {r}, price);
    } else {
      assert AtPrice(m, price) == AtPrice(m - {r}, price);
    }
  }

  /** Summing a price over the book is summing it over the map. */
  lemma {:induction false} BookSums(book: seq<Entry>, m: OrderMap, price: u32)
    requires Ascending(book) && EntriesOf(book, m)
    ensures SharesAt(book, price) == PriceSum(m, price)
    decreases |book|
  {
    if book == [] {
      assert m == map[];
    } else {
      var n := |book| - 1;
      assert EntryOf(book[n], m);
      WithoutLast(book, m);
      hide Ascending, EntriesOf, PriceSum;
      BookSums(book[..n], m - {book[n].reference}, price);
      LastAtPrice(m, book[n].reference, price);
    }
  }

  lemma {:induction false} BookPrices(book: seq<Entry>, m: OrderMap, price: u32)
    requires EntriesOf(book, m)
    ensures HasPrice(book, price) <==> Offered(m, price)
  {
    if HasPrice(book, price) {
      var i :| 0 <= i < |book| && book[i].order.price == price;
      assert EntryOf(book[i], m);
    }
    if Offered(m, price) {
      var r :| r in m && m[r].price == price;
      var i :| 0 <= i < |book| && book[i] == Entry(m[r], r);
    }
  }

  lemma {:induction false} CollapsedPrice(book: seq<Entry>, m: OrderMap, price: u32)
    requires Ascending(book) && EntriesOf(book, m)
    ensures price in Collapse(book) <==> Offered(m, price)
    ensures price in Collapse(book) ==> Collapse(book)[price] == PriceSum(m, price) % U32
  {
    hide *;
    AscendingIsGrouped(book);
    CollapseSums(book, price);
    BookSums(book, m, price);
    BookPrices(book, m, price);
  }

  /** Collapsing the sorted book of a map gives exactly the map's price levels. */
  lemma {:induction false} CollapsedLevels(book: seq<Entry>, m: OrderMap, lines: seq<Line>)
    requires Ascending(book) && EntriesOf(book, m) && LinesOf(lines, Collapse(book))
    ensures LevelsOf(lines, m)
  {
    hide Ascending, EntriesOf, Collapse, Offered, PriceSum;
    forall i | 0 <= i < |lines|
      ensures Offered(m, lines[i].price) && lines[i].shares == PriceSum(m, lines[i].price) % U32
    {
      assert LineOf(lines[i], Collapse(book));
      CollapsedPrice(book, m, lines[i].price);
    }
    forall p | Offered(m, p)
      ensures Line(p, PriceSum(m, p) % U32) in lines
    {
      CollapsedPrice(book, m, p);
    }
  }

  /** A map has exactly one such list of lines, so neither walk order leaves a trace in it. */
  lemma {:induction false} LevelsUnique(m: OrderMap, a: seq<Line>, b: seq<Line>)
    requires LevelsOf(a, m) && LevelsOf(b, m)
    ensures a == b
  {
    forall l
      ensures l in a <==> l in b
    {
      LevelsHold(m, a, l);
      LevelsHold(m, b, l);
    }
    AscendingLinesUnique(a, b);
  }

  lemma LevelsHold(m: OrderMap, lines: seq<Line>, l: Line)
    requires LevelsOf(lines, m)
    ensures l in lines <==> Offered(m, l.price) && l.shares == PriceSum(m, l.price) % U32
  {
    hide Offered, PriceSum;
  }

  lemma {:induction false} AscendingLinesUnique(a: seq<Line>, b: seq<Line>)
    requires AscendingLines(a) && AscendingLines(b) && forall l :: l in a <==> l in b
    ensures a == b
    decreases |a|
  {
    assert |b| > 0 ==> b[0] in b;
    if a != [] {
      assert a[0] in b && b[0] in a;
      assert a[0] == b[0];
      forall l
        ensures l in a[1..] <==> l in b[1..]
      {
        assert l in a[1..] <==> l in a && l != a[0] by {
          assert a == [a[0]] + a[1..];
        }
        assert l in b[1..] <==> l in b && l != b[0] by {
          assert b == [b[0]] + b[1..];
        }
      }
      AscendingLinesUnique(a[1..], b[1..]);
    }
  }

  /** The lines in terms of the map's entries. */
  lemma {:induction false} LevelsMean(lines: seq<Line>, m: OrderMap)
    requires LevelsOf(lines, m)
    ensures (set i | 0 <= i < |lines| :: lines[i].price) == (set r | r in m :: m[r].price)
    ensures forall i :: 0 <= i < |lines| ==>
              lines[i].shares == Sum(map r | r in m && m[r].price == lines[i].price :: m[r]) % 0x1_0000_0000
  {
    hide PriceSum, Sum, AscendingLines;
    var listed, offered := set i | 0 <= i < |lines| :: lines[i].price, set r | r in m :: m[r].price;
    forall p | p in offered
      ensures p in listed
    {
      assert Offered(m, p);
      var i :| 0 <= i < |lines| && lines[i] == Line(p, PriceSum(m, p) % U32);
    }
    forall p | p in listed
      ensures p in offered
    {
      assert Offered(m, p);
    }
    forall i | 0 <= i < |lines|
      ensures lines[i].shares == Sum(map r | r in m && m[r].price == lines[i].price :: m[r]) % 0x1_0000_0000
    {
      SumMeans(m, lines[i].price);
    }
  }

  lemma SumMeans(m: OrderMap, price: u32)
    ensures PriceSum(m, price) == Sum(map r | r in m && m[r].price == price :: m[r])
  {
    hide Sum;
  }

  lemma LevelsAscend(lines: seq<Line>, m: OrderMap)
    requires LevelsOf(lines, m)
    ensures forall i, j :: 0 <= i < j < |lines| ==> lines[i].price < lines[j].price
  {
  }

  /** The collapsed book of one side, as `main` asks for it. */
  method CollapsedBookOf(m: OrderMap, keys: seq<u64>) returns (lines: seq<Line>)
    requires Walk(keys, m)
    ensures LevelsOf(lines, m)
    ensures forall i, j :: 0 <= i < j < |lines| ==> lines[i].price < lines[j].price
    ensures (set i | 0 <= i < |lines| :: lines[i].price) == (set r | r in m :: m[r].price)
    ensures forall i :: 0 <= i < |lines| ==>
              lines[i].shares == Sum(map r | r in m && m[r].price == lines[i].price :: m[r]) % 0x1_0000_0000
  {
    hide *;
    var book := MakeBook(m, keys);
    lines := CollapseBook(book);
    CollapsedLevels(book, m, lines);
    LevelsAscend(lines, m);
    LevelsMean(lines, m);
  }
}
