/** The derived books: the sorted one and the one collapsed to a price level a line. */
module OrderBook {

  import opened Engine

  datatype Entry = Entry(order: Order, reference: u64)

  /** `operator<` of an order: price first, then shares. */
  predicate OrderLess(a: Order, b: Order) {
    a.price < b.price || (a.price == b.price && a.shares < b.shares)
  }

  /** `operator<` of the pair the book is sorted by. */
  predicate Less(a: Entry, b: Entry) {
    OrderLess(a.order, b.order) || (!OrderLess(b.order, a.order) && a.reference < b.reference)
  }

  ghost predicate Ascending(s: seq<Entry>) {
    forall i, j :: 0 <= i < j < |s| ==> Less(s[i], s[j])
  }

  /** The entries of a map. */
  ghost predicate EntryOf(e: Entry, m: OrderMap) {
    e.reference in m && m[e.reference] == e.order
  }

  ghost predicate EntriesOf(s: seq<Entry>, m: OrderMap) {
    && (forall i :: 0 <= i < |s| ==> EntryOf(s[i], m))
    && (forall r :: r in m ==> Entry(m[r], r) in s)
  }

  /** An order in which a hash map can be walked: every key once. */
  ghost predicate Walk(keys: seq<u64>, m: OrderMap) {
    && (forall r :: r in keys <==> r in m)
    && (forall i, j :: 0 <= i < j < |keys| ==> keys[i] != keys[j])
  }

  // ---------------------------------------------------------------- sorting

  function Insert(e: Entry, s: seq<Entry>): (t: seq<Entry>)
    ensures |t| == |s| + 1 && multiset(t) == multiset(s) + multiset{e}
  {
    if s == [] then [e]
    else if Less(e, s[0]) then [e] + s
    else
      assert s == [s[0]] + s[1..];
      [s[0]] + Insert(e, s[1..])
  }

  function Sort(s: seq<Entry>): (t: seq<Entry>)
    ensures |t| == |s| && multiset(t) == multiset(s)
  {
    if s == [] then []
    else
      assert s == s[..|s| - 1] + [s[|s| - 1]];
      Insert(s[|s| - 1], Sort(s[..|s| - 1]))
  }

  lemma {:induction false} InsertAscending(e: Entry, s: seq<Entry>)
    requires Ascending(s) && e !in s
    ensures Ascending(Insert(e, s))
  {
    if s != [] && !Less(e, s[0]) {
      var t := Insert(e, s[1..]);
      InsertAscending(e, s[1..]);
      assert e != s[0];
      forall i | 0 <= i < |t|
        ensures Less(s[0], t[i])
      {
        assert t[i] in multiset(t);
        assert t[i] in s[1..] || t[i] == e;
      }
    }
  }

  lemma {:induction false} SortAscending(s: seq<Entry>)
    requires forall i, j :: 0 <= i < j < |s| ==> s[i] != s[j]
    ensures Ascending(Sort(s))
    decreases |s|
  {
    if s != [] {
      var init, last := s[..|s| - 1], s[|s| - 1];
      SortAscending(init);
      SameMembers(init, Sort(init));
      InsertAscending(last, Sort(init));
    }
  }

  /** Ascending lists with the same members are the same list. */
  lemma {:induction false} AscendingUnique(s: seq<Entry>, t: seq<Entry>)
    requires Ascending(s) && Ascending(t) && forall e :: e in s <==> e in t
    ensures s == t
    decreases |s|
  {
    assert |t| > 0 ==> t[0] in t;
    if s != [] {
      assert s[0] in t && t[0] in s;
      assert s[0] == t[0];
      forall e
        ensures e in s[1..] <==> e in t[1..]
      {
        assert e in s[1..] <==> e in s && e != s[0] by {
          assert s == [s[0]] + s[1..];
        }
        assert e in t[1..] <==> e in t && e != t[0] by {
          assert t == [t[0]] + t[1..];
        }
      }
      AscendingUnique(s[1..], t[1..]);
    }
  }

  /** `make_book`, for whatever order the hash map is walked in. */
  method MakeBook(m: OrderMap, keys: seq<u64>) returns (book: seq<Entry>)
    requires Walk(keys, m)
    ensures Ascending(book) && EntriesOf(book, m)
    ensures forall i, j :: 0 <= i < j < |book| ==>
              || book[i].order.price < book[j].order.price
              || (book[i].order.price == book[j].order.price
                  && (book[i].order.shares < book[j].order.shares
                      || (book[i].order.shares == book[j].order.shares && book[i].reference < book[j].reference)))
    ensures |book| == |keys| && forall r :: r in m <==> exists i :: 0 <= i < |book| && book[i].reference == r
    ensures forall i :: 0 <= i < |book| ==> book[i].reference in m && book[i].order == m[book[i].reference]
  {
    var orders: seq<Entry> := [];
    for i := 0 to |keys|
      invariant |orders| == i
      invariant forall j :: 0 <= j < i ==> orders[j] == Entry(m[keys[j]], keys[j])
    {
      orders := orders + [Entry(m[keys[i]], keys[i])];
    }
    book := Sort(orders);
    SortedEntries(m, keys, orders);
    hide Sort;
    LessIsLexicographic(book);
    EntriesMean(book, m);
  }

  /** The order the book is sorted by: price, then shares, then reference. */
  lemma LessIsLexicographic(book: seq<Entry>)
    requires Ascending(book)
    ensures forall i, j :: 0 <= i < j < |book| ==>
              || book[i].order.price < book[j].order.price
              || (book[i].order.price == book[j].order.price
                  && (book[i].order.shares < book[j].order.shares
                      || (book[i].order.shares == book[j].order.shares && book[i].reference < book[j].reference)))
  {
    forall i, j | 0 <= i < j < |book|
      ensures Less(book[i], book[j])
    {
    }
  }

  lemma {:induction false} EntriesMean(book: seq<Entry>, m: OrderMap)
    requires EntriesOf(book, m)
    ensures forall r :: r in m <==> exists i :: 0 <= i < |book| && book[i].reference == r
    ensures forall i :: 0 <= i < |book| ==> book[i].reference in m && book[i].order == m[book[i].reference]
  {
    assert forall i :: 0 <= i < |book| ==> EntryOf(book[i], m);
    forall r | r in m
      ensures exists i :: 0 <= i < |book| && book[i].reference == r
    {
      var i :| 0 <= i < |book| && book[i] == Entry(m[r], r);
    }
  }

  lemma {:induction false} SortedEntries(m: OrderMap, keys: seq<u64>, orders: seq<Entry>)
    requires Walk(keys, m) && |orders| == |keys|
    requires forall j :: 0 <= j < |keys| ==> orders[j] == Entry(m[keys[j]], keys[j])
    ensures Ascending(Sort(orders)) && EntriesOf(Sort(orders), m)
  {
    SortAscending(orders);
    SameMembers(orders, Sort(orders));
    var book := Sort(orders);
    forall r | r in m
      ensures Entry(m[r], r) in book
    {
      var i :| 0 <= i < |keys| && keys[i] == r;
      assert orders[i] == Entry(m[r], r);
    }
    forall i | 0 <= i < |book|
      ensures EntryOf(book[i], m)
    {
      assert book[i] in orders;
    }
  }

  lemma SameMembers(s: seq<Entry>, t: seq<Entry>)
    requires multiset(s) == multiset(t)
    ensures forall e :: e in s <==> e in t
  {
    assert forall e :: e in s <==> e in multiset(s);
    assert forall e :: e in t <==> e in multiset(t);
  }

  /** Every map has exactly one book, so the walk order leaves no trace in it. */
  lemma {:induction false} BookUnique(m: OrderMap, s: seq<Entry>, t: seq<Entry>)
    requires Ascending(s) && EntriesOf(s, m) && Ascending(t) && EntriesOf(t, m)
    ensures s == t
  {
    forall e
      ensures e in s <==> e in t
    {
      assert e in s <==> EntryOf(e, m);
      assert e in t <==> EntryOf(e, m);
    }
    AscendingUnique(s, t);
  }

  // ---------------------------------------------------------------- collapsing

  /** Price to shares. */
  type Collapsed = map<u32, u32>

  /** One step of the merge: the current line grows when the price repeats, else a line for the
      new price is put in (or found) and becomes the current one. */
  function Merge(res: Collapsed, dest: u32, o: Order): Collapsed
    requires dest in res
  {
    if dest == o.price then res[dest := (res[dest] + o.shares) % U32]
    else if o.price in res then res
    else res[o.price := o.shares]
  }

  function Collapse(book: seq<Entry>): (res: Collapsed)
    ensures book != [] ==> book[|book| - 1].order.price in res
  {
    if book == [] then map[]
    else
      var n := |book| - 1;
      var o := book[n].order;
      if n == 0 then map[o.price := o.shares] else Merge(Collapse(book[..n]), book[n - 1].order.price, o)
  }

  /** A line of the container, which keeps them in order of price. */
  datatype Line = Line(price: u32, shares: u32)

  ghost predicate AscendingLines(s: seq<Line>) {
    forall i, j :: 0 <= i < j < |s| ==> s[i].price < s[j].price
  }

  ghost predicate LineOf(l: Line, c: Collapsed) {
    l.price in c && c[l.price] == l.shares
  }

  /** The lines of a map from price to shares. */
  ghost predicate LinesOf(s: seq<Line>, c: Collapsed) {
    && AscendingLines(s)
    && (forall i :: 0 <= i < |s| ==> LineOf(s[i], c))
    && (forall p :: p in c ==> Line(p, c[p]) in s)
  }

  /** Where a price belongs, searched from the end. */
  function Place(s: seq<Line>, price: u32): (i: nat)
    ensures i <= |s| && (i > 0 ==> s[i - 1].price < price) && (i < |s| ==> price <= s[i].price)
  {
    if s == [] || s[|s| - 1].price < price then |s| else Place(s[..|s| - 1], price)
  }

  /** `emplace_hint`: a price that has a line keeps it. */
  function EmplaceLine(s: seq<Line>, l: Line): (t: seq<Line>)
    ensures Place(s, l.price) < |t| && t[Place(s, l.price)].price == l.price
  {
    var i := Place(s, l.price);
    if i < |s| && s[i].price == l.price then s else s[..i] + [l] + s[i..]
  }

  lemma {:induction false} EmplacedLines(s: seq<Line>, c: Collapsed, l: Line)
    requires LinesOf(s, c)
    ensures LinesOf(EmplaceLine(s, l), if l.price in c then c else c[l.price := l.shares])
  {
    var i := Place(s, l.price);
    if i < |s| && s[i].price == l.price {
      assert LineOf(s[i], c);
    } else {
      assert l.price !in c by {
        if l.price in c {
          var j :| 0 <= j < |s| && s[j] == Line(l.price, c[l.price]);
        }
      }
      InsertedLine(s, c, l, i);
    }
  }

  lemma {:induction false} InsertedLine(s: seq<Line>, c: Collapsed, l: Line, i: nat)
    requires LinesOf(s, c) && l.price !in c && i <= |s|
    requires (i > 0 ==> s[i - 1].price < l.price) && (i < |s| ==> l.price < s[i].price)
    ensures LinesOf(s[..i] + [l] + s[i..], c[l.price := l.shares])
  {
    InsertedAscending(s, l, i);
    InsertedHold(s, c, l, i);
    InsertedHas(s, c, l, i);
  }

  lemma {:induction false} InsertedHold(s: seq<Line>, c: Collapsed, l: Line, i: nat)
    requires (forall k :: 0 <= k < |s| ==> LineOf(s[k], c)) && l.price !in c && i <= |s|
    ensures var t := s[..i] + [l] + s[i..];
            forall k :: 0 <= k < |t| ==> LineOf(t[k], c[l.price := l.shares])
  {
    var t := s[..i] + [l] + s[i..];
    forall k | 0 <= k < |t|
      ensures LineOf(t[k], c[l.price := l.shares])
    {
      if k != i {
        assert t[k] == s[if k < i then k else k - 1];
      }
    }
  }

  lemma {:induction false} InsertedHas(s: seq<Line>, c: Collapsed, l: Line, i: nat)
    requires (forall p :: p in c ==> Line(p, c[p]) in s) && i <= |s|
    ensures var c' := c[l.price := l.shares];
            forall p :: p in c' ==> Line(p, c'[p]) in s[..i] + [l] + s[i..]
  {
    var c' := c[l.price := l.shares];
    forall p | p in c'
      ensures Line(p, c'[p]) in s[..i] + [l] + s[i..]
    {
      if p != l.price {
        InsertKeeps(s, l, i, Line(p, c[p]));
      }
    }
  }

  lemma InsertKeeps(s: seq<Line>, l: Line, i: nat, x: Line)
    requires x in s && i <= |s|
    ensures x in s[..i] + [l] + s[i..]
  {
    assert s == s[..i] + s[i..];
  }

  lemma {:induction false} InsertedAscending(s: seq<Line>, l: Line, i: nat)
    requires AscendingLines(s) && i <= |s|
    requires (i > 0 ==> s[i - 1].price < l.price) && (i < |s| ==> l.price < s[i].price)
    ensures AscendingLines(s[..i] + [l] + s[i..])
  {
    var t := s[..i] + [l] + s[i..];
    forall j, k | 0 <= j < k < |t|
      ensures t[j].price < t[k].price
    {
      assert t[j] == if j < i then s[j] else if j == i then l else s[j - 1];
      assert t[k] == if k < i then s[k] else if k == i then l else s[k - 1];
      assert j < i ==> s[j].price <= s[i - 1].price;
      assert k > i ==> s[i].price <= s[k - 1].price;
    }
  }

  lemma {:induction false} UpdatedLine(s: seq<Line>, c: Collapsed, i: nat, shares: u32)
    requires LinesOf(s, c) && i < |s|
    ensures LinesOf(s[i := Line(s[i].price, shares)], c[s[i].price := shares])
  {
    var t, c' := s[i := Line(s[i].price, shares)], c[s[i].price := shares];
    forall p | p in c'
      ensures Line(p, c'[p]) in t
    {
      if p == s[i].price {
        assert t[i] == Line(p, c'[p]);
      } else {
        var j :| 0 <= j < |s| && s[j] == Line(p, c[p]);
        assert t[j] == s[j];
      }
    }
  }

  /** `collapse_book`: the lines come out in order of price, whatever book goes in. */
  method CollapseBook(book: seq<Entry>) returns (res: seq<Line>)
    ensures LinesOf(res, Collapse(book))
  {
    hide LinesOf, Place;
    if book == [] {
      NoLines();
      return [];
    }
    res := [Line(book[0].order.price, book[0].order.shares)];
    OneLine(book);
    var dest: nat := 0;
    for i := 1 to |book|
      invariant dest < |res| && res[dest].price == book[i - 1].order.price
      invariant LinesOf(res, Collapse(book[..i]))
    {
      assert book[..i + 1][..i] == book[..i];
      var o := book[i].order;
      LineAt(res, Collapse(book[..i]), dest);
      if res[dest].price == o.price {
        UpdatedLine(res, Collapse(book[..i]), dest, (res[dest].shares + o.shares) % U32);
        res := res[dest := Line(res[dest].price, (res[dest].shares + o.shares) % U32)];
      } else {
        EmplacedLines(res, Collapse(book[..i]), Line(o.price, o.shares));
        dest := Place(res, o.price);
        res := EmplaceLine(res, Line(o.price, o.shares));
      }
    }
    assert book[..|book|] == book;
  }

  lemma NoLines()
    ensures LinesOf([], Collapse([]))
  {
  }

  lemma OneLine(book: seq<Entry>)
    requires book != []
    ensures LinesOf([Line(book[0].order.price, book[0].order.shares)], Collapse(book[..1]))
  {
    assert book[..1][..0] == [];
    assert Collapse(book[..1]) == map[book[0].order.price := book[0].order.shares];
    assert [Line(book[0].order.price, book[0].order.shares)][0] == Line(book[0].order.price, book[0].order.shares);
  }

  lemma LineAt(s: seq<Line>, c: Collapsed, i: nat)
    requires LinesOf(s, c) && i < |s|
    ensures LineOf(s[i], c)
  {
  }

  /** All shares offered at a price. */
  function SharesAt(book: seq<Entry>, price: u32): nat {
    if book == [] then 0
    else var o := book[|book| - 1].order;
         SharesAt(book[..|book| - 1], price) + if o.price == price then o.shares else 0
  }

  ghost predicate HasPrice(book: seq<Entry>, price: u32) {
    exists i :: 0 <= i < |book| && book[i].order.price == price
  }

  /** Equal prices stand next to each other. */
  ghost predicate Grouped(book: seq<Entry>) {
    forall i, j, k :: 0 <= i < j < k < |book| && book[i].order.price == book[k].order.price
      ==> book[j].order.price == book[i].order.price
  }

  lemma AscendingIsGrouped(book: seq<Entry>)
    requires Ascending(book)
    ensures Grouped(book)
  {
    forall i, j, k | 0 <= i < j < k < |book| && book[i].order.price == book[k].order.price
      ensures book[j].order.price == book[i].order.price
    {
      assert Less(book[i], book[j]) && Less(book[j], book[k]);
    }
  }

  lemma {:induction false} AbsentPrice(book: seq<Entry>, price: u32)
    requires !HasPrice(book, price)
    ensures SharesAt(book, price) == 0
    decreases |book|
  {
    if book != [] {
      PricesSnoc(book, price);
      AbsentPrice(book[..|book| - 1], price);
    }
  }

  lemma {:induction false} PricesSnoc(book: seq<Entry>, price: u32)
    requires book != []
    ensures HasPrice(book, price) <==>
              HasPrice(book[..|book| - 1], price) || book[|book| - 1].order.price == price
  {
    var init := book[..|book| - 1];
    if HasPrice(init, price) {
      var i :| 0 <= i < |init| && init[i].order.price == price;
      assert book[i].order.price == price;
    }
    if HasPrice(book, price) && book[|book| - 1].order.price != price {
      var i :| 0 <= i < |book| && book[i].order.price == price;
      assert init[i].order.price == price;
    }
  }

  /** In a grouped book a price that has been there before is the one just before. */
  lemma {:induction false} RepeatedPrice(book: seq<Entry>)
    requires Grouped(book) && book != []
    ensures HasPrice(book[..|book| - 1], book[|book| - 1].order.price) ==>
              |book| >= 2 && book[|book| - 2].order.price == book[|book| - 1].order.price
  {
    var n := |book| - 1;
    if HasPrice(book[..n], book[n].order.price) {
      var i :| 0 <= i < n && book[..n][i].order.price == book[n].order.price;
      assert book[i].order.price == book[n].order.price;
    }
  }

  lemma {:induction false} CollapseSnoc(book: seq<Entry>)
    requires |book| >= 2
    ensures var n := |book| - 1;
            Collapse(book[..n]) != map[] && book[n - 1].order.price in Collapse(book[..n])
            && Collapse(book) == Merge(Collapse(book[..n]), book[n - 1].order.price, book[n].order)
  {
  }

  /** Collapsing a grouped book gives exactly its prices, each with the sum of its shares as an
      unsigned 32-bit number. */
  lemma {:induction false} CollapseSums(book: seq<Entry>, p: u32)
    requires Grouped(book)
    ensures p in Collapse(book) <==> HasPrice(book, p)
    ensures p in Collapse(book) ==> Collapse(book)[p] == SharesAt(book, p) % U32
    decreases |book|
  {
    if |book| == 1 {
      assert book[..0] == [];
      PricesSnoc(book, p);
    } else if book != [] {
      hide HasPrice, Collapse, Merge, Grouped;
      var n := |book| - 1;
      GroupedPrefix(book);
      CollapseSums(book[..n], p);
      CollapseSums(book[..n], book[n].order.price);
      PricesSnoc(book, p);
      RepeatedPrice(book);
      CollapseSnoc(book);
      if !HasPrice(book[..n], p) {
        AbsentPrice(book[..n], p);
      }
      MergeAt(Collapse(book[..n]), book[n - 1].order.price, book[n].order, p, SharesAt(book[..n], p));
    }
  }

  lemma {:induction false} MergeAt(res: Collapsed, dest: u32, o: Order, p: u32, total: nat)
    requires dest in res && (o.price in res ==> dest == o.price)
    requires if p in res then res[p] == total % U32 else total == 0
    ensures p in Merge(res, dest, o) <==> p in res || p == o.price
    ensures p in Merge(res, dest, o) ==>
              Merge(res, dest, o)[p] == (total + if o.price == p then o.shares else 0) % U32
  {
  }

  lemma {:induction false} GroupedPrefix(book: seq<Entry>)
    requires Grouped(book) && book != []
    ensures Grouped(book[..|book| - 1])
  {
  }

  /** In a sorted book a new price is above all the lines there are, so the hint is right and every
      line is put at the end. */
  lemma {:induction false} NewPriceComesLast(book: seq<Entry>, n: nat, lines: seq<Line>)
    requires Ascending(book) && 0 < n < |book| && LinesOf(lines, Collapse(book[..n]))
    requires book[n].order.price != book[n - 1].order.price
    ensures var l := Line(book[n].order.price, book[n].order.shares); EmplaceLine(lines, l) == lines + [l]
  {
    var l := Line(book[n].order.price, book[n].order.shares);
    if lines != [] {
      var last := lines[|lines| - 1];
      LineAt(lines, Collapse(book[..n]), |lines| - 1);
      hide Collapse, LinesOf;
      AscendingIsGrouped(book[..n]);
      CollapseSums(book[..n], last.price);
      LowerBefore(book, n, last.price);
    }
    hide *;
    AppendedLine(lines, l);
  }

  lemma AppendedLine(s: seq<Line>, l: Line)
    requires s != [] ==> s[|s| - 1].price < l.price
    ensures EmplaceLine(s, l) == s + [l]
  {
  }

  lemma {:induction false} LowerBefore(book: seq<Entry>, n: nat, price: u32)
    requires Ascending(book) && 0 < n < |book| && book[n].order.price != book[n - 1].order.price
    requires HasPrice(book[..n], price)
    ensures price < book[n].order.price
  {
    var i :| 0 <= i < n && book[..n][i].order.price == price;
    assert i < n - 1 ==> Less(book[i], book[n - 1]);
    assert Less(book[n - 1], book[n]);
  }

  /** Without the sort the merge forgets shares: a price that comes back is not added up. */
  lemma {:induction false} UnsortedLosesShares(x: u32, y: u32)
    requires x != y
    ensures var book := [Entry(Order(x, 1), 1), Entry(Order(y, 1), 2), Entry(Order(x, 1), 3)];
            x in Collapse(book) && Collapse(book)[x] == 1 && SharesAt(book, x) == 2
  {
    var one := [Entry(Order(x, 1), 1)];
    var two := one + [Entry(Order(y, 1), 2)];
    var book := two + [Entry(Order(x, 1), 3)];
    assert book == [Entry(Order(x, 1), 1), Entry(Order(y, 1), 2), Entry(Order(x, 1), 3)];
    assert book[..2] == two && two[..1] == one && one[..0] == [];
    assert Collapse(one) == map[x := 1] && SharesAt(one, x) == 1;
    assert Collapse(two) == map[x := 1, y := 1] && SharesAt(two, x) == 1;
  }

  ghost predicate SamePrices(a: seq<Entry>, b: seq<Entry>) {
    |a| == |b| && forall i :: 0 <= i < |a| ==> a[i].order.price == b[i].order.price
  }

  ghost predicate SumsRight(book: seq<Entry>) {
    forall p :: p in Collapse(book) ==> Collapse(book)[p] == SharesAt(book, p) % U32
  }

  /** One share at `k` and none elsewhere. */
  function OneShareAt(book: seq<Entry>, k: nat): (b: seq<Entry>)
    ensures SamePrices(book, b)
  {
    seq(|book|, i requires 0 <= i < |book| =>
      Entry(Order(book[i].order.price, if i == k then 1 else 0), book[i].reference))
  }

  lemma {:induction false} OneShareCounts(book: seq<Entry>, k: nat, n: nat)
    requires k < |book| && n <= |book|
    ensures SharesAt(OneShareAt(book, k)[..n], book[k].order.price) == if k < n then 1 else 0
  {
    if n > 0 {
      var b := OneShareAt(book, k);
      assert b[..n][..n - 1] == b[..n - 1];
      OneShareCounts(book, k, n - 1);
    }
  }

  /** A share that comes when its price has a line but not the current one is never added. */
  lemma {:induction false} OneShareIsLost(book: seq<Entry>, i: nat, k: nat, n: nat)
    requires i < k < |book| && n <= |book|
    requires book[i].order.price == book[k].order.price != book[k - 1].order.price
    ensures var c, p := Collapse(OneShareAt(book, k)[..n]), book[k].order.price;
            (p in c ==> c[p] == 0) && (i < n ==> p in c)
    decreases n
  {
    var b := OneShareAt(book, k);
    if n == 1 {
      assert b[..1][..0] == [];
    } else if n > 1 {
      assert b[..n][..n - 1] == b[..n - 1];
      OneShareIsLost(book, i, k, n - 1);
      CollapseSnoc(b[..n]);
      hide Collapse;
      MergeZero(Collapse(b[..n - 1]), b[n - 2].order.price, b[n - 1].order, book[k].order.price);
    }
  }

  lemma MergeZero(res: Collapsed, dest: u32, o: Order, p: u32)
    requires dest in res && (p in res ==> res[p] == 0)
    requires o.shares == 0 || (o.price == p && p in res && dest != p)
    ensures p in Merge(res, dest, o) <==> p in res || o.price == p
    ensures p in Merge(res, dest, o) ==> Merge(res, dest, o)[p] == 0
  {
  }

  lemma {:induction false} GroupedByPrices(a: seq<Entry>, b: seq<Entry>)
    requires SamePrices(a, b) && Grouped(a)
    ensures Grouped(b)
  {
    forall i, j, k | 0 <= i < j < k < |b| && b[i].order.price == b[k].order.price
      ensures b[j].order.price == b[i].order.price
    {
      assert a[i].order.price == a[k].order.price;
    }
  }

  /** In an ungrouped book some price comes back right after another one. */
  lemma {:induction false} ComesBack(book: seq<Entry>, i: nat, j: nat, k: nat) returns (back: nat)
    requires i < j < k < |book| && book[i].order.price == book[k].order.price != book[j].order.price
    ensures i < back <= k && book[back].order.price == book[i].order.price != book[back - 1].order.price
    decreases k - j
  {
    if book[j + 1].order.price == book[i].order.price {
      back := j + 1;
    } else {
      back := ComesBack(book, i, j + 1, k);
    }
  }

  lemma {:induction false} GroupedSums(b: seq<Entry>)
    requires Grouped(b)
    ensures SumsRight(b)
  {
    hide Collapse, Grouped, HasPrice, SharesAt;
    forall p | p in Collapse(b)
      ensures Collapse(b)[p] == SharesAt(b, p) % U32
    {
      CollapseSums(b, p);
    }
  }

  lemma {:induction false} ShareLost(book: seq<Entry>, i: nat, k: nat)
    requires i < k < |book| && book[i].order.price == book[k].order.price != book[k - 1].order.price
    ensures SamePrices(book, OneShareAt(book, k)) && !SumsRight(OneShareAt(book, k))
  {
    hide Collapse, SharesAt, OneShareAt;
    var b := OneShareAt(book, k);
    OneShareIsLost(book, i, k, |book|);
    OneShareCounts(book, k, |book|);
    assert b[..|book|] == b;
  }

  /** For a given run of prices the merge adds up all shares, whatever they are, exactly when equal
      prices stand together: that is all the sort is needed for. */
  lemma {:induction false} GroupedExactly(book: seq<Entry>)
    ensures Grouped(book) <==> forall b :: SamePrices(book, b) ==> SumsRight(b)
  {
    if Grouped(book) {
      forall b | SamePrices(book, b)
        ensures SumsRight(b)
      {
        GroupedByPrices(book, b);
        GroupedSums(b);
      }
    } else {
      var i, j, k :| 0 <= i < j < k < |book| && book[i].order.price == book[k].order.price
                     && book[j].order.price != book[i].order.price;
      hide *;
      var back := ComesBack(book, i, j, k);
      ShareLost(book, i, back);
    }
  }
}
