/** An account book of a feed that never forgets an order, and what the engine keeps of it.
    The feed rules are those of Nasdaq TotalView-ITCH 5.0, sections 1.3 and 1.4: references are
    unique within the day, and modifications of an order add up. */
module Ledger {

  import opened Engine

  /** Everything ever said about one reference. */
  datatype Account = Account(isBuy: bool, price: u32, added: u32, taken: nat, closed: bool) {
    predicate Live() { !closed && taken < added }

    function Resident(): Order
      requires Live()
    {
      Order(price, added - taken)
    }
  }

  type Accounts = map<u64, Account>

  predicate LiveIn(l: Accounts, reference: u64) {
    reference in l && l[reference].Live()
  }

  function Open(l: Accounts, reference: u64, isBuy: bool, rec: Record): Accounts {
    l[reference := Account(isBuy, rec.price, rec.shares, 0, false)]
  }

  function Post(l: Accounts, rec: Record): Accounts {
    var r := rec.reference;
    if rec.orderType in {'A', 'F'} then Open(l, r, rec.isBuy, rec)
    else if !LiveIn(l, r) then l
    else if rec.orderType in {'E', 'C', 'X'} then l[r := l[r].(taken := l[r].taken + rec.shares)]
    else if rec.orderType == 'D' then l[r := l[r].(closed := true)]
    else if rec.orderType == 'U' then Open(l[r := l[r].(closed := true)], rec.newReference, l[r].isBuy, rec)
    else l
  }

  function Answer(l: Accounts, rec: Record): bool {
    rec.orderType in {'A', 'F'} || (LiveIn(l, rec.reference) && rec.orderType in {'E', 'C', 'X', 'D', 'U'})
  }

  /** The premises of a feed: fresh references, positive sizes, nothing taken twice. */
  predicate Permitted(l: Accounts, rec: Record) {
    && (rec.orderType in {'A', 'F'} ==> rec.reference !in l && rec.shares > 0)
    && (rec.orderType == 'U' && LiveIn(l, rec.reference) ==> rec.newReference !in l && rec.shares > 0)
    && (rec.orderType in {'E', 'C', 'X'} && LiveIn(l, rec.reference) ==>
          l[rec.reference].taken + rec.shares <= l[rec.reference].added)
  }

  function Posted(feed: seq<Record>): Accounts {
    if feed == [] then map[] else Post(Posted(feed[..|feed| - 1]), feed[|feed| - 1])
  }

  ghost predicate ValidFeed(feed: seq<Record>) {
    forall i :: 0 <= i < |feed| ==> Permitted(Posted(feed[..i]), feed[i])
  }

  /** The live accounts of one side, as the engine would hold them. */
  function Side(l: Accounts, isBuy: bool): OrderMap {
    map r | r in l && l[r].isBuy == isBuy && l[r].Live() :: l[r].Resident()
  }

  function View(l: Accounts): Books {
    Books(Side(l, true), Side(l, false))
  }

  // ---------------------------------------------------------------- refinement

  lemma {:induction false} ClosedLeaves(l: Accounts, r: u64)
    requires LiveIn(l, r)
    ensures Side(l[r := l[r].(closed := true)], true) == Side(l, true) - {r}
    ensures Side(l[r := l[r].(closed := true)], false) == Side(l, false) - {r}
  {
  }

  lemma {:induction false} OpenedEnters(l: Accounts, r: u64, isBuy: bool, rec: Record)
    requires r !in l && rec.shares > 0
    ensures View(Open(l, r, isBuy, rec)) == AddOrder(View(l), isBuy, r, Order(rec.price, rec.shares))
  {
    var l' := Open(l, r, isBuy, rec);
    assert Side(l', isBuy) == Side(l, isBuy)[r := Order(rec.price, rec.shares)];
    assert Side(l', !isBuy) == Side(l, !isBuy);
  }

  lemma {:induction false} TakenReduces(l: Accounts, rec: Record)
    requires rec.orderType in {'E', 'C', 'X'} && LiveIn(l, rec.reference) && Permitted(l, rec)
    ensures Outcome(View(Post(l, rec)), true) == TakeShares(View(l), rec.reference, rec.shares)
  {
    var r, isBuy := rec.reference, l[rec.reference].isBuy;
    var l' := Post(l, rec);
    var left := l[r].added - l[r].taken - rec.shares;
    assert (l[r].Resident().shares - rec.shares) % U32 == left;
    assert Side(l', isBuy) == Reduce(Side(l, isBuy), r, rec.shares);
    assert Side(l', !isBuy) == Side(l, !isBuy);
  }

  /** One permitted record keeps the engine equal to the view of the ledger. */
  lemma {:induction false} RunRefinesPost(l: Accounts, rec: Record)
    requires Permitted(l, rec)
    ensures Run(View(l), rec) == Outcome(View(Post(l, rec)), Answer(l, rec))
  {
    var r := rec.reference;
    if rec.orderType in {'A', 'F'} {
      OpenedEnters(l, r, rec.isBuy, rec);
    } else if LiveIn(l, r) {
      if rec.orderType in {'E', 'C', 'X'} {
        TakenReduces(l, rec);
      } else if rec.orderType == 'D' {
        ClosedLeaves(l, r);
        OtherSide(l, r);
      } else if rec.orderType == 'U' {
        ClosedLeaves(l, r);
        OtherSide(l, r);
        OpenedEnters(l[r := l[r].(closed := true)], rec.newReference, l[r].isBuy, rec);
      }
    }
  }

  lemma {:induction false} OtherSide(l: Accounts, r: u64)
    requires LiveIn(l, r)
    ensures r in Side(l, l[r].isBuy) && r !in Side(l, !l[r].isBuy)
    ensures Side(l, !l[r].isBuy) - {r} == Side(l, !l[r].isBuy)
  {
  }

  lemma ValidPrefix(feed: seq<Record>, n: nat)
    requires ValidFeed(feed) && n <= |feed|
    ensures ValidFeed(feed[..n])
  {
    forall i | 0 <= i < n
      ensures Permitted(Posted(feed[..n][..i]), feed[..n][i])
    {
      assert feed[..n][..i] == feed[..i];
    }
  }

  /** Over every valid feed the engine holds exactly the live accounts, with what is left of them. */
  lemma {:induction false} EngineRefinesLedger(feed: seq<Record>)
    requires ValidFeed(feed)
    ensures Replay(EMPTY, feed) == View(Posted(feed))
    decreases |feed|
  {
    if feed == [] {
      assert Side(map[], true) == map[] && Side(map[], false) == map[];
    } else {
      var n := |feed| - 1;
      ValidPrefix(feed, n);
      EngineRefinesLedger(feed[..n]);
      RunRefinesPost(Posted(feed[..n]), feed[n]);
    }
  }

  /** No reference is resident on both sides. */
  lemma {:induction false} SidesDisjoint(feed: seq<Record>)
    requires ValidFeed(feed)
    ensures Replay(EMPTY, feed).buy.Keys !! Replay(EMPTY, feed).sell.Keys
  {
    EngineRefinesLedger(feed);
  }

  // ---------------------------------------------------------------- orders in terms of the feed alone

  function TakenBy(rec: Record, r: u64): nat {
    if rec.orderType in {'E', 'C', 'X'} && rec.reference == r then rec.shares else 0
  }

  /** Shares that executions and cancellations naming `r` take, read off the records. */
  function SumTaken(feed: seq<Record>, r: u64): nat {
    if feed == [] then 0
    else var last := feed[|feed| - 1];
         SumTaken(feed[..|feed| - 1], r) + TakenBy(last, r)
  }

  predicate Names(rec: Record, r: u64) {
    (rec.orderType == 'D' || rec.orderType == 'U') && rec.reference == r
  }

  /** No record deletes or replaces `r`. */
  predicate Untouched(feed: seq<Record>, r: u64) {
    forall rec :: rec in feed ==> !Names(rec, r)
  }

  /** Record `k` brings reference `r` onto the book: an add, or a replace the engine accepts. */
  ghost predicate Introduces(feed: seq<Record>, k: int, r: u64) {
    && 0 <= k < |feed|
    && if feed[k].orderType in {'A', 'F'} then feed[k].reference == r
       else feed[k].orderType == 'U' && feed[k].newReference == r && Run(Replay(EMPTY, feed[..k]), feed[k]).answer
  }

  /** The side an introducing record puts its order on: its own, or that of the order replaced. */
  function SideOf(before: Books, rec: Record): bool {
    if rec.orderType in {'A', 'F'} then rec.isBuy else rec.reference in before.buy
  }

  function Half(b: Books, isBuy: bool): OrderMap {
    if isBuy then b.buy else b.sell
  }

  lemma {:induction false} IntroducedAccount(feed: seq<Record>, k: nat, r: u64)
    requires ValidFeed(feed) && Introduces(feed, k, r)
    ensures var l := Posted(feed[..k + 1]);
            var isBuy := SideOf(Replay(EMPTY, feed[..k]), feed[k]);
            r in l && l[r] == Account(isBuy, feed[k].price, feed[k].shares, 0, false)
    ensures feed[k].shares > 0
  {
    ValidPrefix(feed, k);
    EngineRefinesLedger(feed[..k]);
    RunRefinesPost(Posted(feed[..k]), feed[k]);
    assert feed[..k + 1][..k] == feed[..k];
  }

  /** What one record does to an account that exists. */
  lemma {:induction false} PostAccount(l: Accounts, rec: Record, r: u64)
    requires r in l && Permitted(l, rec)
    ensures r in Post(l, rec)
    ensures var a, a' := l[r], Post(l, rec)[r];
            && a'.isBuy == a.isBuy && a'.price == a.price && a'.added == a.added
            && (a.Live() ==> a'.closed == Names(rec, r))
            && (a.Live() ==> a'.taken == a.taken + TakenBy(rec, r))
            && (!a.Live() ==> !a'.Live())
  {
  }

  /** An account agrees with what the records since its introduction say. */
  ghost predicate Agrees(a: Account, isBuy: bool, intro: Record, tail: seq<Record>, r: u64) {
    && a.isBuy == isBuy && a.price == intro.price && a.added == intro.shares
    && (a.Live() <==> Untouched(tail, r) && SumTaken(tail, r) < intro.shares)
    && (a.Live() ==> a.taken == SumTaken(tail, r))
  }

  lemma {:induction false} AgreesStep(l: Accounts, rec: Record, isBuy: bool, intro: Record, tail: seq<Record>, r: u64)
    requires r in l && Permitted(l, rec) && Agrees(l[r], isBuy, intro, tail, r)
    ensures r in Post(l, rec) && Agrees(Post(l, rec)[r], isBuy, intro, tail + [rec], r)
  {
    PostAccount(l, rec, r);
    assert (tail + [rec])[..|tail|] == tail;
    assert Untouched(tail + [rec], r) <==> Untouched(tail, r) && !Names(rec, r);
  }

  lemma {:induction false} PostedSnoc(feed: seq<Record>, n: nat)
    requires ValidFeed(feed) && n < |feed|
    ensures Posted(feed[..n + 1]) == Post(Posted(feed[..n]), feed[n])
    ensures Permitted(Posted(feed[..n]), feed[n])
  {
    assert feed[..n + 1][..n] == feed[..n];
  }

  lemma {:induction false} AgreesAtIntro(feed: seq<Record>, k: nat, r: u64, isBuy: bool)
    requires ValidFeed(feed) && Introduces(feed, k, r)
    requires isBuy == SideOf(Replay(EMPTY, feed[..k]), feed[k])
    ensures r in Posted(feed[..k + 1]) && Agrees(Posted(feed[..k + 1])[r], isBuy, feed[k], [], r)
  {
    IntroducedAccount(feed, k, r);
  }

  lemma {:induction false} AccountSince(feed: seq<Record>, k: nat, n: nat, r: u64, isBuy: bool)
    requires ValidFeed(feed) && Introduces(feed, k, r) && k < n <= |feed|
    requires isBuy == SideOf(Replay(EMPTY, feed[..k]), feed[k])
    ensures r in Posted(feed[..n])
    ensures Agrees(Posted(feed[..n])[r], isBuy, feed[k], feed[k + 1..n], r)
    decreases n
  {
    hide *;
    if n == k + 1 {
      AgreesAtIntro(feed, k, r, isBuy);
    } else {
      AccountSince(feed, k, n - 1, r, isBuy);
      PostedSnoc(feed, n - 1);
      AgreesStep(Posted(feed[..n - 1]), feed[n - 1], isBuy, feed[k], feed[k + 1..n - 1], r);
    }
    assert feed[k + 1..n] == if n == k + 1 then [] else feed[k + 1..n - 1] + [feed[n - 1]];
  }

  /** The display rule: an order is on the book exactly while no record deleted or replaced it and
      the executions and cancellations naming it take less than it was introduced with, and then it
      shows the difference, on the side it was introduced on. */
  lemma {:induction false} ResidentExactly(feed: seq<Record>, k: nat, r: u64)
    requires ValidFeed(feed) && Introduces(feed, k, r)
    ensures var b, tail := Replay(EMPTY, feed), feed[k + 1..];
            var isBuy := SideOf(Replay(EMPTY, feed[..k]), feed[k]);
            && (r in Half(b, isBuy) <==> Untouched(tail, r) && SumTaken(tail, r) < feed[k].shares)
            && r !in Half(b, !isBuy)
            && (r in Half(b, isBuy) ==>
                  Half(b, isBuy)[r] == Order(feed[k].price, feed[k].shares - SumTaken(tail, r)))
  {
    AccountSince(feed, k, |feed|, r, SideOf(Replay(EMPTY, feed[..k]), feed[k]));
    assert feed[..|feed|] == feed && feed[k + 1..|feed|] == feed[k + 1..];
    EngineRefinesLedger(feed);
  }

  /** The reference a record adds an account for. */
  ghost predicate NewIn(l: Accounts, rec: Record, r: u64) {
    if rec.orderType in {'A', 'F'} then rec.reference == r
    else rec.orderType == 'U' && rec.newReference == r && LiveIn(l, rec.reference)
  }

  lemma {:induction false} PostKeys(l: Accounts, rec: Record, r: u64)
    ensures r in Post(l, rec) <==> r in l || NewIn(l, rec, r)
  {
  }

  lemma {:induction false} IntroducesPrefix(feed: seq<Record>, n: nat, k: nat, r: u64)
    requires k < n <= |feed|
    ensures Introduces(feed, k, r) <==> Introduces(feed[..n], k, r)
  {
    hide Run, Replay;
    assert feed[..n][..k] == feed[..k];
  }

  lemma {:induction false} IntroducesLast(feed: seq<Record>, r: u64)
    requires ValidFeed(feed) && feed != []
    ensures var n := |feed| - 1; Introduces(feed, n, r) <==> NewIn(Posted(feed[..n]), feed[n], r)
  {
    var n := |feed| - 1;
    ValidPrefix(feed, n);
    EngineRefinesLedger(feed[..n]);
    RunRefinesPost(Posted(feed[..n]), feed[n]);
    hide Run, Replay, View, Post;
  }

  /** The ledger knows a reference exactly when some record introduced it. */
  lemma {:induction false} KnownExactly(feed: seq<Record>, r: u64)
    requires ValidFeed(feed)
    ensures r in Posted(feed) <==> exists k :: Introduces(feed, k, r)
    decreases |feed|
  {
    if feed == [] {
      assert forall k :: !Introduces(feed, k, r);
    } else {
      var n := |feed| - 1;
      ValidPrefix(feed, n);
      KnownExactly(feed[..n], r);
      PostKeys(Posted(feed[..n]), feed[n], r);
      IntroducesLast(feed, r);
      hide Post, NewIn, ValidFeed;
      forall k: nat | k < n
        ensures Introduces(feed, k, r) <==> Introduces(feed[..n], k, r)
      {
        IntroducesPrefix(feed, n, k, r);
      }
      IntroducesBounds(feed, r);
      IntroducesBounds(feed[..n], r);
      hide Introduces;
      if k :| Introduces(feed[..n], k, r) {
        assert Introduces(feed, k, r);
      }
    }
  }

  lemma IntroducesBounds(feed: seq<Record>, r: u64)
    ensures forall k :: Introduces(feed, k, r) ==> 0 <= k < |feed|
  {
    hide Run, Replay;
  }

  /** What the premises ask of the next record, in terms of the feed and the book: an add names a reference
      no record introduced, a replace of a resident order gives it one, both with some shares, and no more
      is taken from a resident order than it has. */
  lemma {:induction false} PermittedExactly(feed: seq<Record>, rec: Record)
    requires ValidFeed(feed)
    ensures var b, r := Replay(EMPTY, feed), rec.reference;
            Permitted(Posted(feed), rec) <==>
              && (rec.orderType in {'A', 'F'} ==> (forall k :: !Introduces(feed, k, r)) && rec.shares > 0)
              && (rec.orderType == 'U' && (r in b.buy || r in b.sell) ==>
                    (forall k :: !Introduces(feed, k, rec.newReference)) && rec.shares > 0)
              && (rec.orderType in {'E', 'C', 'X'} && r in b.buy ==> rec.shares <= b.buy[r].shares)
              && (rec.orderType in {'E', 'C', 'X'} && r in b.sell ==> rec.shares <= b.sell[r].shares)
  {
    KnownExactly(feed, rec.reference);
    KnownExactly(feed, rec.newReference);
    EngineRefinesLedger(feed);
    hide Introduces, Posted, Replay;
  }

  /** A record puts no reference on the book but its own new one. */
  lemma {:induction false} OnlyIntroductions(b: Books, rec: Record, r: u64)
    requires r !in b.buy && r !in b.sell
    requires r in Run(b, rec).books.buy || r in Run(b, rec).books.sell
    ensures if rec.orderType in {'A', 'F'} then rec.reference == r
            else rec.orderType == 'U' && rec.newReference == r && Run(b, rec).answer
  {
  }

  /** Nothing is on the book that no record introduced. */
  lemma {:induction false} ResidentWasIntroduced(feed: seq<Record>, r: u64) returns (k: nat)
    requires r in Replay(EMPTY, feed).buy || r in Replay(EMPTY, feed).sell
    ensures Introduces(feed, k, r)
    decreases |feed|
  {
    hide Run;
    var n := |feed| - 1;
    var before := Replay(EMPTY, feed[..n]);
    if r in before.buy || r in before.sell {
      k := ResidentWasIntroduced(feed[..n], r);
      assert feed[..n][..k] == feed[..k];
    } else {
      OnlyIntroductions(before, feed[n], r);
      k := n;
    }
  }
}
