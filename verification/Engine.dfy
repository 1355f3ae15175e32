/** The order execution engine: two maps from reference to resident order, and what one
    feed record does to them. */
module Engine {

  const U32: int := 0x1_0000_0000
  const U64: int := 0x1_0000_0000_0000_0000

  type u32 = x: int | 0 <= x < U32
  type u64 = x: int | 0 <= x < U64

  datatype Order = Order(price: u32, shares: u32)

  type OrderMap = map<u64, Order>

  datatype Books = Books(buy: OrderMap, sell: OrderMap)

  const EMPTY := Books(map[], map[])

  /** A row of the orders table; prices are already in fixed point. */
  datatype Record = Record(orderType: char, reference: u64, newReference: u64,
                           shares: u32, price: u32, isBuy: bool)
  {
    predicate Adds() { orderType == 'A' || orderType == 'F' }

    predicate Executes() { orderType == 'E' || orderType == 'C' }

    predicate Cancels() { orderType == 'X' }

    predicate Takes() { Executes() || Cancels() }

    predicate Deletes() { orderType == 'D' }

    predicate Replaces() { orderType == 'U' }
  }

  datatype Outcome = Outcome(books: Books, answer: bool)

  /** `emplace` leaves an entry that is already there untouched. */
  function Emplace(m: OrderMap, reference: u64, o: Order): OrderMap {
    if reference in m then m else m[reference := o]
  }

  function AddOrder(b: Books, isBuy: bool, reference: u64, o: Order): Books {
    if isBuy then b.(buy := Emplace(b.buy, reference, o)) else b.(sell := Emplace(b.sell, reference, o))
  }

  /** Shares are unsigned 32-bit words, so taking too many wraps around. */
  function Reduce(m: OrderMap, reference: u64, shares: u32): OrderMap
    requires reference in m
  {
    var left := (m[reference].shares - shares) % U32;
    if left == 0 then m - {reference} else m[reference := m[reference].(shares := left)]
  }

  function TakeShares(b: Books, reference: u64, shares: u32): Outcome {
    if reference in b.buy then Outcome(b.(buy := Reduce(b.buy, reference, shares)), true)
    else if reference in b.sell then Outcome(b.(sell := Reduce(b.sell, reference, shares)), true)
    else Outcome(b, false)
  }

  function DeleteOrder(b: Books, reference: u64): Outcome {
    if reference in b.buy then Outcome(b.(buy := b.buy - {reference}), true)
    else if reference in b.sell then Outcome(b.(sell := b.sell - {reference}), true)
    else Outcome(b, false)
  }

  function ReplaceOrder(b: Books, reference: u64, newReference: u64, o: Order): Outcome {
    if reference in b.buy then
      Outcome(AddOrder(b.(buy := b.buy - {reference}), true, newReference, o), true)
    else if reference in b.sell then
      Outcome(AddOrder(b.(sell := b.sell - {reference}), false, newReference, o), true)
    else Outcome(b, false)
  }

  /** One record. A record answered false changes nothing. */
  function Run(b: Books, rec: Record): (o: Outcome)
    ensures !o.answer ==> o.books == b
  {
    if rec.Adds() then Outcome(AddOrder(b, rec.isBuy, rec.reference, Order(rec.price, rec.shares)), true)
    else if rec.Takes() then TakeShares(b, rec.reference, rec.shares)
    else if rec.Deletes() then DeleteOrder(b, rec.reference)
    else if rec.Replaces() then
      ReplaceOrder(b, rec.reference, rec.newReference, Order(rec.price, rec.shares))
    else Outcome(b, false)
  }

  /** 'A' and 'F' (add, without and with attribution): the reference joins the side it names, unless it is
      there already; nothing else changes. */
  lemma {:induction false} AddCodes(b: Books, rec: Record)
    requires rec.orderType == 'A' || rec.orderType == 'F'
    ensures Run(b, rec).answer
    ensures var b', r, o := Run(b, rec).books, rec.reference, Order(rec.price, rec.shares);
            if rec.isBuy then b'.sell == b.sell && b'.buy == (if r in b.buy then b.buy else b.buy[r := o])
            else b'.buy == b.buy && b'.sell == (if r in b.sell then b.sell else b.sell[r := o])
  {
  }

  /** The side the engine finds a reference on: the buying one first. */
  ghost predicate FoundOn(b: Books, r: u64, isBuy: bool) {
    if isBuy then r in b.buy else r !in b.buy && r in b.sell
  }

  /** 'E', 'C' and 'X' (executed, executed with price, cancelled): shares are taken from the order where it
      is found, modulo 2^32, and it leaves when none are left. */
  lemma {:induction false} TakeCodes(b: Books, rec: Record, isBuy: bool)
    requires rec.orderType == 'E' || rec.orderType == 'C' || rec.orderType == 'X'
    ensures Run(b, rec).answer <==> rec.reference in b.buy || rec.reference in b.sell
    ensures FoundOn(b, rec.reference, isBuy) ==>
              var b', r := Run(b, rec).books, rec.reference;
              var m, m' := if isBuy then b.buy else b.sell, if isBuy then b'.buy else b'.sell;
              && (if isBuy then b'.sell == b.sell else b'.buy == b.buy)
              && (m[r].shares == rec.shares ==> m' == m - {r})
              && (m[r].shares > rec.shares ==> m' == m[r := Order(m[r].price, m[r].shares - rec.shares)])
              && (m[r].shares < rec.shares ==>
                    m' == m[r := Order(m[r].price, m[r].shares - rec.shares + 0x1_0000_0000)])
  {
    if FoundOn(b, rec.reference, isBuy) {
      WrappedDifference(if isBuy then b.buy[rec.reference].shares else b.sell[rec.reference].shares, rec.shares);
    }
  }

  lemma WrappedDifference(x: u32, y: u32)
    ensures (x - y) % U32 == if x < y then x - y + 0x1_0000_0000 else x - y
  {
  }

  /** 'D': the order leaves the side it is found on. */
  lemma {:induction false} DeleteCode(b: Books, rec: Record)
    requires rec.orderType == 'D'
    ensures var r := rec.reference;
            Run(b, rec) == if r in b.buy then Outcome(Books(b.buy - {r}, b.sell), true)
                           else Outcome(Books(b.buy, b.sell - {r}), r in b.sell)
  {
    assert rec.reference !in b.sell ==> b.sell - {rec.reference} == b.sell;
  }

  /** 'U': the order leaves, and the new reference joins the same side unless it is there. */
  lemma {:induction false} ReplaceCode(b: Books, rec: Record, isBuy: bool)
    requires rec.orderType == 'U'
    ensures Run(b, rec).answer <==> rec.reference in b.buy || rec.reference in b.sell
    ensures FoundOn(b, rec.reference, isBuy) ==>
              var b', n := Run(b, rec).books, rec.newReference;
              var m, m' := if isBuy then b.buy else b.sell, if isBuy then b'.buy else b'.sell;
              var left := m - {rec.reference};
              && (if isBuy then b'.sell == b.sell else b'.buy == b.buy)
              && m' == if n in left then left else left[n := Order(rec.price, rec.shares)]
  {
  }

  /** Every other code, or a reference on neither side, is answered false (and changes nothing). */
  lemma {:induction false} OtherCodes(b: Books, rec: Record)
    ensures !Run(b, rec).answer <==>
              rec.orderType !in {'A', 'F'}
              && (rec.orderType in {'E', 'C', 'X', 'D', 'U'} ==> rec.reference !in b.buy && rec.reference !in b.sell)
  {
  }

  function Replay(b: Books, feed: seq<Record>): Books {
    if feed == [] then b else Run(Replay(b, feed[..|feed| - 1]), feed[|feed| - 1]).books
  }

  lemma {:induction false} ReplayAppend(b: Books, x: seq<Record>, y: seq<Record>)
    ensures Replay(b, x + y) == Replay(Replay(b, x), y)
    decreases |y|
  {
    if y == [] {
      assert x + y == x;
    } else {
      var n := |y| - 1;
      assert (x + y)[..|x + y| - 1] == x + y[..n];
      ReplayAppend(b, x, y[..n]);
    }
  }

  class ExecutionEngine {
    var allBuyOrders: OrderMap
    var allSellOrders: OrderMap

    function State(): Books
      reads this
    {
      Books(allBuyOrders, allSellOrders)
    }

    constructor ()
      ensures State() == EMPTY
    {
      allBuyOrders, allSellOrders := map[], map[];
    }

    method RunAddOrder(isBuy: bool, reference: u64, shares: u32, price: u32)
      modifies this
      ensures State() == AddOrder(old(State()), isBuy, reference, Order(price, shares))
    {
      if isBuy {
        allBuyOrders := Emplace(allBuyOrders, reference, Order(price, shares));
      } else {
        allSellOrders := Emplace(allSellOrders, reference, Order(price, shares));
      }
    }

    method RunExecuteOrder(reference: u64, shares: u32) returns (answer: bool)
      modifies this
      ensures Outcome(State(), answer) == TakeShares(old(State()), reference, shares)
    {
      answer, allBuyOrders := ExecuteIn(allBuyOrders, reference, shares);
      if !answer {
        answer, allSellOrders := ExecuteIn(allSellOrders, reference, shares);
      }
    }

    static method ExecuteIn(m: OrderMap, reference: u64, shares: u32) returns (found: bool, m': OrderMap)
      ensures found <==> reference in m
      ensures m' == if reference in m then Reduce(m, reference, shares) else m
    {
      m' := m;
      found := reference in m;
      if found {
        var o := m[reference];
        o := o.(shares := (o.shares - shares) % U32);
        m' := m'[reference := o];
        if o.shares == 0 {
          m' := m' - {reference};
          assert m' == m - {reference};
        }
      }
    }

    method RunDeleteOrder(reference: u64) returns (answer: bool)
      modifies this
      ensures Outcome(State(), answer) == DeleteOrder(old(State()), reference)
    {
      answer := reference in allBuyOrders;
      if answer {
        allBuyOrders := allBuyOrders - {reference};
      } else {
        answer := reference in allSellOrders;
        allSellOrders := allSellOrders - {reference};
      }
    }

    method RunReplaceOrder(reference: u64, newReference: u64, shares: u32, price: u32) returns (answer: bool)
      modifies this
      ensures Outcome(State(), answer) == ReplaceOrder(old(State()), reference, newReference, Order(price, shares))
    {
      if reference in allBuyOrders {
        allBuyOrders := allBuyOrders - {reference};
        RunAddOrder(true, newReference, shares, price);
        return true;
      }
      if reference in allSellOrders {
        allSellOrders := allSellOrders - {reference};
        RunAddOrder(false, newReference, shares, price);
        return true;
      }
      return false;
    }

    method RunOrder(rec: Record) returns (answer: bool)
      modifies this
      ensures Outcome(State(), answer) == Run(old(State()), rec)
    {
      match rec.orderType {
        case 'A' | 'F' =>
          RunAddOrder(rec.isBuy, rec.reference, rec.shares, rec.price);
          answer := true;
        case 'E' | 'C' | 'X' =>
          answer := RunExecuteOrder(rec.reference, rec.shares);
        case 'D' =>
          answer := RunDeleteOrder(rec.reference);
        case 'U' =>
          answer := RunReplaceOrder(rec.reference, rec.newReference, rec.shares, rec.price);
        case _ =>
          answer := false;
      }
    }
  }
}
