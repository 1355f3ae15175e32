/** Shares are neither made nor lost by the engine. */
module Conservation {

  import opened Engine
  import opened Ledger

  /** All shares resident in a map. */
  ghost function Sum(m: OrderMap): nat {
    if m == map[] then 0
    else
      var r :| r in m;
      m[r].shares + Sum(m - {r})
  }

  /** The sum does not depend on which entry is counted first. */
  lemma {:induction false} SumWithout(m: OrderMap, r: u64)
    requires r in m
    ensures Sum(m) == m[r].shares + Sum(m - {r})
    decreases |m|
  {
    var q :| q in m && Sum(m) == m[q].shares + Sum(m - {q});
    if q != r {
      SumWithout(m - {q}, r);
      SumWithout(m - {r}, q);
      assert m - {q} - {r} == m - {r} - {q};
    }
  }

  lemma {:induction false} SumUpdate(m: OrderMap, r: u64, o: Order)
    ensures Sum(m[r := o]) == o.shares + Sum(m - {r})
  {
    SumWithout(m[r := o], r);
    assert m[r := o] - {r} == m - {r};
  }

  ghost function Resident(b: Books): nat {
    Sum(b.buy) + Sum(b.sell)
  }

  /** Where shares come from and go to. */
  datatype Flows = Flows(introduced: nat, executed: nat, cancelled: nat, dropped: nat)

  function SharesOf(b: Books, r: u64): nat {
    if r in b.buy then b.buy[r].shares else if r in b.sell then b.sell[r].shares else 0
  }

  /** The flows of one record, as its fields and the engine's answer give them. */
  function FlowsOf(b: Books, rec: Record): Flows {
    if !Run(b, rec).answer then Flows(0, 0, 0, 0)
    else if rec.orderType in {'A', 'F'} then Flows(rec.shares, 0, 0, 0)
    else if rec.orderType in {'E', 'C'} then Flows(0, rec.shares, 0, 0)
    else if rec.orderType == 'X' then Flows(0, 0, rec.shares, 0)
    else if rec.orderType == 'D' then Flows(0, 0, 0, SharesOf(b, rec.reference))
    else Flows(rec.shares, 0, 0, SharesOf(b, rec.reference))
  }

  /** Which codes the flows count, and what they count of them. */
  lemma {:induction false} FlowsByCode(b: Books, rec: Record)
    ensures var f, done := FlowsOf(b, rec), Run(b, rec).answer;
            && f.introduced == (if done && rec.orderType in {'A', 'F', 'U'} then rec.shares else 0)
            && f.executed == (if done && rec.orderType in {'E', 'C'} then rec.shares else 0)
            && f.cancelled == (if done && rec.orderType == 'X' then rec.shares else 0)
            && (rec.orderType !in {'D', 'U'} ==> f.dropped == 0)
            && (rec.orderType in {'D', 'U'} && rec.reference in b.buy ==> f.dropped == b.buy[rec.reference].shares)
            && (rec.orderType in {'D', 'U'} && rec.reference !in b.buy ==>
                  f.dropped == if rec.reference in b.sell then b.sell[rec.reference].shares else 0)
  {
  }

  function Add(x: Flows, y: Flows): Flows {
    Flows(x.introduced + y.introduced, x.executed + y.executed, x.cancelled + y.cancelled, x.dropped + y.dropped)
  }

  function Total(feed: seq<Record>): Flows {
    if feed == [] then Flows(0, 0, 0, 0)
    else var n := |feed| - 1; Add(Total(feed[..n]), FlowsOf(Replay(EMPTY, feed[..n]), feed[n]))
  }

  ghost predicate Balanced(before: nat, f: Flows, after: nat) {
    before + f.introduced == after + f.executed + f.cancelled + f.dropped
  }

  /** A record that fits the book: an order it puts there finds no other under its reference on
      that side, and what it takes is there to be taken. */
  predicate Fits(b: Books, rec: Record) {
    var r := rec.reference;
    if rec.orderType in {'A', 'F'} then rec.shares == 0 || r !in Half(b, rec.isBuy)
    else if r !in b.buy && r !in b.sell then true
    else if rec.orderType in {'E', 'C', 'X'} then rec.shares <= SharesOf(b, r)
    else if rec.orderType == 'U' then
      rec.shares == 0 || rec.newReference == r || rec.newReference !in Half(b, r in b.buy)
    else true
  }

  lemma {:induction false} AddBalance(b: Books, isBuy: bool, r: u64, o: Order)
    ensures Resident(AddOrder(b, isBuy, r, o)) == Resident(b) + if r in Half(b, isBuy) then 0 else o.shares
  {
    var m := Half(b, isBuy);
    if r !in m {
      SumUpdate(m, r, o);
      assert m - {r} == m;
    }
  }

  lemma {:induction false} ReduceBalance(m: OrderMap, r: u64, shares: u32)
    requires r in m
    ensures Sum(Reduce(m, r, shares)) + shares == Sum(m) <==> shares <= m[r].shares
  {
    var left := (m[r].shares - shares) % U32;
    SumWithout(m, r);
    SumUpdate(m, r, m[r].(shares := left));
    assert left == if shares <= m[r].shares then m[r].shares - shares else m[r].shares - shares + U32;
  }

  /** One record balances exactly when it fits the book, whatever the book. */
  lemma {:induction false} BalancedIffFits(b: Books, rec: Record)
    ensures Balanced(Resident(b), FlowsOf(b, rec), Resident(Run(b, rec).books)) <==> Fits(b, rec)
  {
    var r := rec.reference;
    if rec.orderType in {'A', 'F'} {
      AddBalance(b, rec.isBuy, r, Order(rec.price, rec.shares));
    } else if r in b.buy || r in b.sell {
      var m := Half(b, r in b.buy);
      if rec.orderType in {'E', 'C', 'X'} {
        ReduceBalance(m, r, rec.shares);
      } else {
        SumWithout(m, r);
        var left := if r in b.buy then b.(buy := b.buy - {r}) else b.(sell := b.sell - {r});
        AddBalance(left, r in b.buy, rec.newReference, Order(rec.price, rec.shares));
      }
    }
  }

  lemma {:induction false} PermittedFits(l: Accounts, rec: Record)
    requires Permitted(l, rec)
    ensures Fits(View(l), rec)
  {
    var r := rec.reference;
    if LiveIn(l, r) {
      OtherSide(l, r);
    }
  }

  /** Over every valid feed, the shares added or introduced by a replace are the resident ones, plus
      those executed and cancelled, plus those dropped by deletes and replaces. */
  lemma {:induction false} SharesConserved(feed: seq<Record>)
    requires ValidFeed(feed)
    ensures Balanced(0, Total(feed), Resident(Replay(EMPTY, feed)))
    decreases |feed|
  {
    if feed != [] {
      hide Fits, Permitted, Run, View, FlowsOf, Resident;
      var n := |feed| - 1;
      var before := Replay(EMPTY, feed[..n]);
      ValidPrefix(feed, n);
      SharesConserved(feed[..n]);
      EngineRefinesLedger(feed[..n]);
      PostedSnoc(feed, n);
      PermittedFits(Posted(feed[..n]), feed[n]);
      BalancedIffFits(before, feed[n]);
    }
  }

  /** Executing more than is left does not empty an order: it wraps to almost 2^32 shares. */
  lemma {:induction false} OverExecutionWraps(r: u64, price: u32)
    ensures var b := Books(map[r := Order(price, 1)], map[]);
            var e := Record('E', r, 0, 2, 0, false);
            Run(b, e).books.buy == map[r := Order(price, 0xFFFF_FFFF)] && !Fits(b, e)
  {
  }
}
