/** Runs of the orders executor on one stock and one day, sharing a store of quarter-hour snapshots. */
module Snapshot {

  import opened Bytes
  import opened Engine
  import opened EngineState
  import opened IsoTime
  import opened OrderBook

  const NS: nat := 1_000_000_000

  /** A row of the orders table with its time in nanoseconds; the table is kept in time order. */
  datatype Row = Row(ns: nat, rec: Record)

  ghost predicate Sorted(table: seq<Row>) {
    forall i, j :: 0 <= i < j < |table| ==> table[i].ns <= table[j].ns
  }

  /** The key-value store of the database. */
  type Store = map<string, seq<byte>>

  // ---------------------------------------------------------------- records of a time range

  /** The records at or after second `from` and before second `to`. */
  function Range(table: seq<Row>, from: int, to: int): seq<Record> {
    if table == [] then []
    else
      var last := table[|table| - 1];
      Range(table[..|table| - 1], from, to) + if from * NS <= last.ns < to * NS then [last.rec] else []
  }

  lemma {:induction false} RangeBefore(table: seq<Row>, from: int, to: int)
    requires forall i :: 0 <= i < |table| ==> table[i].ns < from * NS
    ensures Range(table, from, to) == []
  {
    if table != [] {
      RangeBefore(table[..|table| - 1], from, to);
    }
  }

  lemma {:induction false} RangeSplit(table: seq<Row>, a: int, b: int, c: int)
    requires Sorted(table) && a <= b <= c
    ensures Range(table, a, c) == Range(table, a, b) + Range(table, b, c)
    decreases |table|
  {
    if table != [] {
      var n := |table| - 1;
      RangeSplit(table[..n], a, b, c);
      assert a * NS <= b * NS <= c * NS;
      if table[n].ns < b * NS {
        RangeBefore(table[..n], b, c);
        assert Range(table, b, c) == [];
      } else {
        assert Range(table, a, b) == Range(table[..n], a, b);
      }
    }
  }

  lemma {:induction false} RangeEmpty(table: seq<Row>, a: int)
    ensures Range(table, a, a) == []
  {
    if table != [] {
      RangeEmpty(table[..|table| - 1], a);
    }
  }

  lemma {:induction false} RangeLength(table: seq<Row>, a: int, b: int)
    ensures |Range(table, a, b)| <= |table|
  {
    if table != [] {
      RangeLength(table[..|table| - 1], a, b);
    }
  }

  ghost predicate Inside(row: Row, from: nat, end: nat) {
    from * 1_000_000_000 <= row.ns < end * 1_000_000_000
  }

  /** The rows of a stretch are those inside. */
  ghost predicate Stretch(table: seq<Row>, lo: nat, hi: nat, from: nat, end: nat) {
    lo <= hi <= |table| && forall i :: 0 <= i < |table| ==> (lo <= i < hi <==> Inside(table[i], from, end))
  }

  lemma InsideBetween(table: seq<Row>, i: nat, n: nat, from: nat, end: nat)
    requires Sorted(table) && i < n < |table|
    ensures Inside(table[i], from, end) && Inside(table[n], from, end) ==>
              forall j :: i <= j <= n ==> Inside(table[j], from, end)
  {
  }

  /** In a sorted table a stretch that the last row continues has reached it, or was empty. */
  lemma {:induction false} StretchGrows(table: seq<Row>, lo: nat, hi: nat, from: nat, end: nat)
    requires Sorted(table) && table != [] && Stretch(table[..|table| - 1], lo, hi, from, end)
    ensures var n := |table| - 1;
            if Inside(table[n], from, end) then Stretch(table, if lo == hi then n else lo, n + 1, from, end)
                                                && (lo == hi || hi == n)
            else Stretch(table, lo, hi, from, end)
  {
    var n := |table| - 1;
    assert forall i :: 0 <= i < n ==> table[..n][i] == table[i];
    assert hi < n ==> !Inside(table[..n][hi], from, end);
    if lo < hi {
      InsideBetween(table, lo, n, from, end);
    }
  }

  lemma RangeSnoc(table: seq<Row>, from: nat, end: nat)
    requires table != []
    ensures Range(table, from, end)
         == Range(table[..|table| - 1], from, end)
            + if Inside(table[|table| - 1], from, end) then [table[|table| - 1].rec] else []
  {
  }

  /** A range is the records of a stretch of the table, in order: just those with their time in it. */
  lemma {:induction false} RangeIsStretch(table: seq<Row>, from: nat, end: nat) returns (lo: nat, hi: nat)
    requires Sorted(table)
    ensures lo <= hi <= |table| && |Range(table, from, end)| == hi - lo
    ensures forall i :: lo <= i < hi ==> Range(table, from, end)[i - lo] == table[i].rec
    ensures Stretch(table, lo, hi, from, end)
    ensures forall i :: 0 <= i < |table| ==>
              (lo <= i < hi <==> from * 1_000_000_000 <= table[i].ns < end * 1_000_000_000)
    decreases |table|
  {
    if table == [] {
      lo, hi := 0, 0;
    } else {
      var n := |table| - 1;
      RangeSnoc(table, from, end);
      lo, hi := RangeIsStretch(table[..n], from, end);
      StretchGrows(table, lo, hi, from, end);
      StretchMeans(table, lo, hi, from, end);
      if Inside(table[n], from, end) {
        lo, hi := if lo == hi then n else lo, n + 1;
        StretchMeans(table, lo, hi, from, end);
      }
      hide Range, Inside, Stretch, Sorted;
    }
  }

  lemma StretchMeans(table: seq<Row>, lo: nat, hi: nat, from: nat, end: nat)
    ensures Stretch(table, lo, hi, from, end) ==>
              forall i :: 0 <= i < |table| ==>
                (lo <= i < hi <==> from * 1_000_000_000 <= table[i].ns < end * 1_000_000_000)
  {
  }

  /** The state of the day at second `t`: everything from midnight on, replayed. */
  function StateAt(table: seq<Row>, d: Day, t: int): Books {
    Replay(EMPTY, Range(table, d.start, t))
  }

  /** Replaying from a state of the day catches up with the day. */
  lemma {:induction false} CatchUp(table: seq<Row>, d: Day, t: int, u: int)
    requires Sorted(table) && d.start <= t <= u
    ensures Replay(StateAt(table, d, t), Range(table, t, u)) == StateAt(table, d, u)
  {
    RangeSplit(table, d.start, t, u);
    ReplayAppend(EMPTY, Range(table, d.start, t), Range(table, t, u));
  }

  lemma {:induction false} ReplaySize(feed: seq<Record>)
    ensures |Replay(EMPTY, feed).buy| <= |feed| && |Replay(EMPTY, feed).sell| <= |feed|
    decreases |feed|
  {
    if feed != [] {
      ReplaySize(feed[..|feed| - 1]);
      RunSize(Replay(EMPTY, feed[..|feed| - 1]), feed[|feed| - 1]);
    }
  }

  lemma {:induction false} RunSize(b: Books, rec: Record)
    ensures |Run(b, rec).books.buy| <= |b.buy| + 1 && |Run(b, rec).books.sell| <= |b.sell| + 1
  {
    var b' := Run(b, rec).books;
    RunKeys(b, rec);
    hide Run;
    KeysSize(b.buy, b'.buy, if rec.Adds() then rec.reference else rec.newReference);
    KeysSize(b.sell, b'.sell, if rec.Adds() then rec.reference else rec.newReference);
  }

  lemma RunKeys(b: Books, rec: Record)
    ensures var r := if rec.Adds() then rec.reference else rec.newReference;
            Run(b, rec).books.buy.Keys <= b.buy.Keys + {r} && Run(b, rec).books.sell.Keys <= b.sell.Keys + {r}
  {
  }

  lemma {:induction false} KeysSize(m: OrderMap, m': OrderMap, r: u64)
    ensures m'.Keys <= m.Keys + {r} ==> |m'| <= |m| + 1
  {
    if m'.Keys <= m.Keys + {r} {
      SubsetSize(m'.Keys, m.Keys + {r});
    }
  }

  lemma {:induction false} SubsetSize(x: set<u64>, y: set<u64>)
    requires x <= y
    ensures |x| <= |y|
  {
    assert y == x + (y - x);
  }

  // ---------------------------------------------------------------- restoring

  /** What a prefix query of at most 100 keys gives: the first matching keys, in text order. */
  ghost predicate PrefixResult(results: seq<string>, store: Store, prefix: string) {
    && (forall i, j :: 0 <= i < j < |results| ==> TextLess(results[i], results[j]))
    && (forall i :: 0 <= i < |results| ==> results[i] in store && prefix <= results[i])
    && |results| <= 100
    && ((forall k :: k in store && prefix <= k ==> k in results) || |results| == 100)
  }

  /** `Undefined` is the construction of a string from the null `match`. */
  datatype Restored = NoSnapshot | Found(t: int) | Undefined

  /** The key scan: the last key before the first one after `best`. */
  function Scan(results: seq<string>, best: string): Option<string> {
    if results == [] || TextLess(best, results[0]) then None
    else match Scan(results[1..], best)
      case None => Some(results[0])
      case Some(k) => Some(k)
  }

  /** `restore_snapshot`, on an engine that held `before`. */
  function Restore(store: Store, results: seq<string>, best: string, before: Books): (Restored, Books)
    requires forall k :: k in results ==> k in store
  {
    if results == [] then (NoSnapshot, before)
    else match Scan(results, best)
      case None => (Undefined, before)
      case Some(key) =>
        ScanMember(results, best);
        var i := LastUnderscore(key);
        if i >= |key| then (NoSnapshot, before)
        else
          var parsed := ParseState(store[key], before);
          var time := ParseIso(key[i + 1..]);
          if parsed.ok && time.Some? then (Found(time.value), parsed.value) else (NoSnapshot, parsed.value)
  }

  lemma {:induction false} ScanMember(results: seq<string>, best: string)
    ensures Scan(results, best).Some? ==> Scan(results, best).value in results
  {
    if results != [] && !TextLess(best, results[0]) {
      ScanMember(results[1..], best);
    }
  }

  method RestoreSnapshot(store: Store, results: seq<string>, best: string,
                         engine: ExecutionEngine) returns (r: Restored)
    requires forall k :: k in results ==> k in store
    modifies engine
    ensures (r, engine.State()) == Restore(store, results, best, old(engine.State()))
  {
    hide ParseState, ParseIso, LastUnderscore, TextLess;
    if |results| == 0 {
      return NoSnapshot;
    }
    var found: Option<string> := None;
    var i := 0;
    while i < |results| && !TextLess(best, results[i])
      invariant 0 <= i <= |results|
      invariant found == if i == 0 then None else Some(results[i - 1])
      invariant Scan(results, best) == if Scan(results[i..], best).None? then found else Scan(results[i..], best)
    {
      found := Some(results[i]);
      i := i + 1;
    }
    if found == None {
      return Undefined;
    }
    var key := found.value;
    var idx := LastUnderscore(key);
    if idx >= |key| {
      return NoSnapshot;
    }
    var data := store[key];
    var ok, p, l := DeserializeState(engine, data, 0, |data|);
    assert data[0..|data|] == data;
    if !ok {
      return NoSnapshot;
    }
    match ParseIso(key[idx + 1..])
    case None => return NoSnapshot;
    case Some(t) => return Found(t);
  }

  // ---------------------------------------------------------------- one run

  datatype Request = Request(when: nat, pointInTime: bool)

  /** What a run shows: the books it prints, or nothing it could be held to. */
  datatype Result = Crashed | Printed(books: Books)

  ghost predicate Stored(before: Store, after: Store, key: string, b: Books) {
    exists buyKeys, sellKeys ::
      Walk(buyKeys, b.buy) && Walk(sellKeys, b.sell)
      && after == before[key := StateBytes(b, buyKeys, sellKeys)]
  }

  /** A fresh engine, or the restored one when snapshots are asked for. */
  function Begin(store: Store, results: seq<string>, key: string, req: Request): (Restored, Books)
    requires forall k :: k in results ==> k in store
  {
    if req.pointInTime then Restore(store, results, key, EMPTY) else (NoSnapshot, EMPTY)
  }

  /** One run: restore, replay, store. */
  ghost predicate RunStep(store: Store, results: seq<string>, table: seq<Row>, stock: string, d: Day,
                          req: Request, shown: Result, store': Store)
    requires d.Valid() && d.Contains(req.when)
    requires forall k :: k in results ==> k in store
  {
    var key := Key(stock, d, req.when);
    var (r, b) := Begin(store, results, key, req);
    if r.Undefined? then shown == Crashed && store' == store
    else
      var snap := if r.Found? then r.t else 0;
      var orders := Range(table, if snap != 0 then snap else d.start, req.when);
      var final := Replay(b, orders);
      && shown == Printed(final)
      && if req.pointInTime && orders != [] && snap < FloorQuarter(req.when)
         then Stored(store, store', key, final) else store' == store
  }

  /** A walk of a hash map; which one is the map's own affair. */
  method WalkOf(m: OrderMap) returns (keys: seq<u64>)
    ensures Walk(keys, m)
  {
    keys := [];
    var left := m.Keys;
    while left != {}
      invariant left <= m.Keys
      invariant forall r :: r in keys <==> r in m && r !in left
      invariant forall i, j :: 0 <= i < j < |keys| ==> keys[i] != keys[j]
      decreases |left|
    {
      var r :| r in left;
      keys := keys + [r];
      left := left - {r};
    }
  }

  /** The part of `main` between parsing the command line and printing. */
  method RunProgram(store: Store, results: seq<string>, table: seq<Row>, stock: string, d: Day, req: Request)
    returns (shown: Result, store': Store)
    requires d.Valid() && d.Contains(req.when)
    requires forall k :: k in results ==> k in store
    ensures RunStep(store, results, table, stock, d, req, shown, store')
  {
    var engine := new ExecutionEngine();
    var snap := 0;
    var key := Key(stock, d, req.when);
    store' := store;
    if req.pointInTime {
      var r := RestoreSnapshot(store, results, key, engine);
      match r
      case Undefined => return Crashed, store;
      case Found(t) => snap := t;
      case NoSnapshot =>
    }
    ghost var b := engine.State();
    var orders := Range(table, if snap != 0 then snap else d.start, req.when);
    var missed := 0;
    for i := 0 to |orders|
      invariant engine.State() == Replay(b, orders[..i])
    {
      var answer := engine.RunOrder(orders[i]);
      if !answer {
        missed := missed + 1;
      }
      assert orders[..i + 1][..i] == orders[..i];
    }
    assert orders[..|orders|] == orders;
    if req.pointInTime && orders != [] && snap < FloorQuarter(req.when) {
      var buyKeys := WalkOf(engine.allBuyOrders);
      var sellKeys := WalkOf(engine.allSellOrders);
      var blob, _, _ := SerializeState(engine, buyKeys, sellKeys);
      store' := store[key := blob[..]];
      assert Stored(store, store', key, engine.State());
    }
    shown := Printed(engine.State());
  }

  // ---------------------------------------------------------------- sound stores

  /** `key` holds the state of quarter hour `t` of the day, whatever the reader held before. */
  ghost predicate IsSnapshot(key: string, blob: seq<byte>, table: seq<Row>, stock: string, d: Day, t: nat)
    requires d.Valid()
  {
    && d.Contains(t) && t % QUARTER == 0 && key == At(stock, d, t)
    && forall before: Books :: ParseState(blob, before) == Parsed(true, StateAt(table, d, t), [])
  }

  /** Every snapshot of the day is what its key says. */
  ghost predicate Sound(store: Store, table: seq<Row>, stock: string, d: Day)
    requires d.Valid()
  {
    forall k :: k in store && DayPrefix(stock, d) <= k ==> exists t: nat :: IsSnapshot(k, store[k], table, stock, d, t)
  }

  ghost predicate StoredAt(store: Store, stock: string, d: Day, t: nat)
    requires d.Valid()
  {
    d.Contains(t) && At(stock, d, t) in store
  }

  /** A query result for the day, key by key: quarter hours, ascending. */
  lemma {:induction false} TimeOf(key: string, store: Store, table: seq<Row>, stock: string, d: Day) returns (t: nat)
    requires d.Valid() && Sound(store, table, stock, d)
    requires key in store && DayPrefix(stock, d) <= key
    ensures IsSnapshot(key, store[key], table, stock, d, t)
  {
    t :| IsSnapshot(key, store[key], table, stock, d, t);
  }

  lemma {:induction false} NthQuarter(results: seq<string>, i: nat, store: Store, table: seq<Row>,
                                      stock: string, d: Day)
    returns (t: nat)
    requires d.Valid() && Sound(store, table, stock, d) && i < |results|
    requires PrefixResult(results, store, DayPrefix(stock, d))
    ensures IsSnapshot(results[i], store[results[i]], table, stock, d, t)
    ensures d.start + QUARTER * i <= t
    decreases i
  {
    t := TimeOf(results[i], store, table, stock, d);
    StartAligned(d);
    if i > 0 {
      var u := NthQuarter(results, i - 1, store, table, stock, d);
      KeyOrder(stock, d, u, t);
      NextMultiple(u, t);
    }
  }

  lemma StartAligned(d: Day)
    requires d.Valid()
    ensures d.start % QUARTER == 0
  {
  }

  lemma NextMultiple(u: nat, t: nat)
    requires u < t && u % QUARTER == 0 && t % QUARTER == 0
    ensures u + QUARTER <= t
  {
  }

  /** A day has at most 96 snapshots, so the cap of 100 never hides one. */
  lemma {:induction false} CapNeverReached(results: seq<string>, store: Store, table: seq<Row>, stock: string, d: Day)
    requires d.Valid() && Sound(store, table, stock, d)
    requires PrefixResult(results, store, DayPrefix(stock, d))
    ensures |results| <= 96
    ensures forall k :: k in store && DayPrefix(stock, d) <= k ==> k in results
  {
    if |results| > 0 {
      var t := NthQuarter(results, |results| - 1, store, table, stock, d);
    }
  }

  // ---------------------------------------------------------------- the scan finds the latest snapshot

  lemma {:induction false} ScanStops(results: seq<string>, best: string)
    ensures Scan(results, best).None? <==> results == [] || TextLess(best, results[0])
    ensures Scan(results, best).Some? ==>
              exists i :: 0 <= i < |results| && results[i] == Scan(results, best).value
                          && !TextLess(best, results[i])
                          && (i + 1 < |results| ==> TextLess(best, results[i + 1]))
  {
    if results != [] && !TextLess(best, results[0]) {
      ScanStops(results[1..], best);
      if Scan(results[1..], best).Some? {
        var j :| 0 <= j < |results[1..]| && results[1..][j] == Scan(results[1..], best).value
                 && !TextLess(best, results[1..][j])
                 && (j + 1 < |results[1..]| ==> TextLess(best, results[1..][j + 1]));
        assert results[j + 1] == results[1..][j];
      } else {
        assert results[0] == Scan(results, best).value;
      }
    }
  }

  /** A stored quarter hour is at or before the request exactly when its key is not after the
      request's key. */
  lemma {:induction false} NotAfter(stock: string, d: Day, t: nat, when: nat)
    requires d.Valid() && d.Contains(t) && d.Contains(when) && t % QUARTER == 0
    ensures TextLess(Key(stock, d, when), At(stock, d, t)) <==> when < t
  {
    KeyIsAt(stock, d, when);
    FloorStays(d, when);
    KeyOrder(stock, d, FloorQuarter(when), t);
    if FloorQuarter(when) < t {
      NextMultiple(FloorQuarter(when), t);
    }
  }

  ghost predicate LatestStored(store: Store, stock: string, d: Day, when: nat, t: nat)
    requires d.Valid()
  {
    && StoredAt(store, stock, d, t) && t <= when
    && forall u: nat :: StoredAt(store, stock, d, u) && u <= when ==> u <= t
  }

  lemma {:induction false} KeyInPrefix(stock: string, d: Day, t: nat)
    requires d.Valid() && d.Contains(t)
    ensures DayPrefix(stock, d) <= At(stock, d, t)
  {
  }

  /** The scan gives the latest stored quarter hour not after the request. */
  lemma {:induction false} ScanLatest(store: Store, results: seq<string>, table: seq<Row>, stock: string,
                                      d: Day, when: nat)
    returns (t: nat)
    requires d.Valid() && d.Contains(when) && Sound(store, table, stock, d)
    requires PrefixResult(results, store, DayPrefix(stock, d))
    requires Scan(results, Key(stock, d, when)).Some?
    ensures var k := Scan(results, Key(stock, d, when)).value;
            k in store && IsSnapshot(k, store[k], table, stock, d, t) && LatestStored(store, stock, d, when, t)
  {
    var best := Key(stock, d, when);
    ScanStops(results, best);
    var i :| 0 <= i < |results| && results[i] == Scan(results, best).value && !TextLess(best, results[i])
             && (i + 1 < |results| ==> TextLess(best, results[i + 1]));
    t := TimeOf(results[i], store, table, stock, d);
    NotAfter(stock, d, t, when);
    hide Sound, TextLess, Key, Scan, PrefixResult;
    forall u: nat | StoredAt(store, stock, d, u) && u <= when
      ensures u <= t
    {
      NoneBetween(store, results, table, stock, d, when, i, t, u);
    }
  }

  /** Past the place where the scan stops, everything stored is later than the request. */
  lemma {:induction false} NoneBetween(store: Store, results: seq<string>, table: seq<Row>, stock: string, d: Day,
                                       when: nat, i: nat, t: nat, u: nat)
    requires d.Valid() && d.Contains(when) && Sound(store, table, stock, d)
    requires PrefixResult(results, store, DayPrefix(stock, d)) && i < |results|
    requires i + 1 < |results| ==> TextLess(Key(stock, d, when), results[i + 1])
    requires IsSnapshot(results[i], store[results[i]], table, stock, d, t)
    requires StoredAt(store, stock, d, u) && u <= when
    ensures u <= t
  {
    KeyInPrefix(stock, d, u);
    CapNeverReached(results, store, table, stock, d);
    var j :| 0 <= j < |results| && results[j] == At(stock, d, u);
    KeyOrder(stock, d, u, t);
    if i < j {
      var w := TimeOf(results[i + 1], store, table, stock, d);
      hide Sound, TextLess, Key;
      NotAfter(stock, d, w, when);
      KeyOrder(stock, d, w, u);
    }
  }

  ghost predicate HasSnapshot(store: Store, stock: string, d: Day)
    requires d.Valid()
  {
    exists t: nat :: StoredAt(store, stock, d, t)
  }

  ghost predicate HasSnapshotBy(store: Store, stock: string, d: Day, when: nat)
    requires d.Valid()
  {
    exists t: nat :: StoredAt(store, stock, d, t) && t <= when
  }

  lemma {:induction false} EmptyResult(store: Store, results: seq<string>, table: seq<Row>, stock: string, d: Day)
    requires d.Valid() && Sound(store, table, stock, d)
    requires PrefixResult(results, store, DayPrefix(stock, d))
    ensures results == [] <==> !HasSnapshot(store, stock, d)
  {
    CapNeverReached(results, store, table, stock, d);
    if results != [] {
      var t := NthQuarter(results, 0, store, table, stock, d);
      assert StoredAt(store, stock, d, t);
    }
    if HasSnapshot(store, stock, d) {
      var t: nat :| StoredAt(store, stock, d, t);
      KeyInPrefix(stock, d, t);
    }
  }

  /** The scan finds nothing exactly when nothing was stored at or before the request. */
  lemma {:induction false} ScanNothing(store: Store, results: seq<string>, table: seq<Row>, stock: string,
                                       d: Day, when: nat)
    requires d.Valid() && d.Contains(when) && Sound(store, table, stock, d)
    requires PrefixResult(results, store, DayPrefix(stock, d))
    ensures Scan(results, Key(stock, d, when)).None? <==> !HasSnapshotBy(store, stock, d, when)
  {
    var best := Key(stock, d, when);
    ScanStops(results, best);
    if Scan(results, best).Some? {
      var t := ScanLatest(store, results, table, stock, d, when);
      assert StoredAt(store, stock, d, t);
    }
    if HasSnapshotBy(store, stock, d, when) {
      var t: nat :| StoredAt(store, stock, d, t) && t <= when;
      KeyInPrefix(stock, d, t);
      CapNeverReached(results, store, table, stock, d);
      var first := NthQuarter(results, 0, store, table, stock, d);
      var j :| 0 <= j < |results| && results[j] == At(stock, d, t);
      var v := TimeOf(results[j], store, table, stock, d);
      KeyOrder(stock, d, t, v);
      KeyOrder(stock, d, first, t);
      NotAfter(stock, d, first, when);
    }
  }

  // ---------------------------------------------------------------- a run shows the day's state

  /** What restoring from a sound store should give: no snapshot and an untouched engine, the latest
      snapshot not after the request and its state, or, when all are later, the null `match`. */
  ghost predicate RestoredRight(r: Restored, b: Books, store: Store, table: seq<Row>, stock: string, d: Day, when: nat)
    requires d.Valid()
  {
    match r
    case Undefined => HasSnapshot(store, stock, d) && !HasSnapshotBy(store, stock, d, when)
    case NoSnapshot => b == EMPTY && (HasSnapshotBy(store, stock, d, when) <==> HasSnapshot(store, stock, d))
                       && (HasSnapshot(store, stock, d) ==> d.start == 0 && LatestStored(store, stock, d, when, 0))
    case Found(t) => d.start <= t <= when && t != 0 && LatestStored(store, stock, d, when, t)
                     && b == StateAt(table, d, t)
  }

  lemma {:induction false} RestoreSound(store: Store, results: seq<string>, table: seq<Row>, stock: string,
                                        d: Day, when: nat)
    returns (r: Restored, b: Books)
    requires d.Valid() && d.Contains(when) && Sound(store, table, stock, d)
    requires PrefixResult(results, store, DayPrefix(stock, d))
    ensures (r, b) == Restore(store, results, Key(stock, d, when), EMPTY)
    ensures RestoredRight(r, b, store, table, stock, d, when)
  {
    assert forall k :: k in results ==> k in store;
    var restored := Restore(store, results, Key(stock, d, when), EMPTY);
    r, b := restored.0, restored.1;
    hide Restore, Scan, PrefixResult, Sound, Key, LatestStored, HasSnapshot, HasSnapshotBy, StateAt;
    EmptyResult(store, results, table, stock, d);
    ScanNothing(store, results, table, stock, d, when);
    RestoreNothing(store, results, Key(stock, d, when));
    if Scan(results, Key(stock, d, when)).Some? {
      var t := ScanLatest(store, results, table, stock, d, when);
      RestoreFound(store, results, Key(stock, d, when), table, stock, d, t);
      LatestIsStored(store, stock, d, when, t);
      StateAtStart(table, d);
    } else {
      NoneHasNone(store, stock, d, when);
    }
  }

  lemma {:induction false} StateAtStart(table: seq<Row>, d: Day)
    ensures StateAt(table, d, d.start) == EMPTY
  {
    RangeEmpty(table, d.start);
  }

  lemma NoneHasNone(store: Store, stock: string, d: Day, when: nat)
    requires d.Valid()
    ensures HasSnapshotBy(store, stock, d, when) ==> HasSnapshot(store, stock, d)
  {
  }

  lemma {:induction false} RestoreNothing(store: Store, results: seq<string>, best: string)
    requires forall k :: k in results ==> k in store
    ensures results == [] ==> Scan(results, best).None? && Restore(store, results, best, EMPTY) == (NoSnapshot, EMPTY)
    ensures results != [] && Scan(results, best).None? ==> Restore(store, results, best, EMPTY) == (Undefined, EMPTY)
  {
  }

  lemma LatestIsStored(store: Store, stock: string, d: Day, when: nat, t: nat)
    requires d.Valid() && LatestStored(store, stock, d, when, t)
    ensures HasSnapshotBy(store, stock, d, when) && HasSnapshot(store, stock, d) && d.start <= t <= when
  {
  }

  lemma {:induction false} RestoreFound(store: Store, results: seq<string>, best: string, table: seq<Row>,
                                        stock: string, d: Day, t: nat)
    requires d.Valid() && forall k :: k in results ==> k in store
    requires Scan(results, best).Some?
    requires var k := Scan(results, best).value; k in store && IsSnapshot(k, store[k], table, stock, d, t)
    ensures Restore(store, results, best, EMPTY)
         == (if t == 0 then NoSnapshot else Found(t), StateAt(table, d, t))
  {
    hide ParseState, ParseIso, LastUnderscore, StateAt;
    KeySuffix(stock, d, t);
    ScanStops(results, best);
  }

  /** Whatever happened to a sound store before, a run that gets past the scan shows exactly the state
      of the whole day up to its instant; it fails to, with the null `match`, exactly when snapshots
      are asked for and all of the day's are later. */
  lemma {:induction false} RunShowsTheDay(store: Store, results: seq<string>, table: seq<Row>, stock: string, d: Day,
                                          req: Request, shown: Result, store': Store)
    requires d.Valid() && d.Contains(req.when) && Sorted(table) && Sound(store, table, stock, d)
    requires PrefixResult(results, store, DayPrefix(stock, d))
    requires RunStep(store, results, table, stock, d, req, shown, store')
    ensures shown == Crashed <==> req.pointInTime && HasSnapshot(store, stock, d)
                                  && !HasSnapshotBy(store, stock, d, req.when)
    ensures shown != Crashed ==> shown == Printed(StateAt(table, d, req.when))
  {
    assert forall k :: k in results ==> k in store;
    hide Restore, Sound, PrefixResult, Key, Stored, HasSnapshot, LatestStored;
    if req.pointInTime {
      var r, b := RestoreSound(store, results, table, stock, d, req.when);
      if r.Found? {
        LatestIsStored(store, stock, d, req.when, r.t);
        CatchUp(table, d, r.t, req.when);
      }
    }
  }

  /** A stored state is read back as it was. */
  lemma {:induction false} StoredReadsBack(b: Books, buyKeys: seq<u64>, sellKeys: seq<u64>)
    requires Walk(buyKeys, b.buy) && Walk(sellKeys, b.sell) && |b.buy| < U64 && |b.sell| < U64
    ensures forall before: Books :: ParseState(StateBytes(b, buyKeys, sellKeys), before) == Parsed(true, b, [])
  {
    var s := StateBytes(b, buyKeys, sellKeys);
    assert s + [] == s;
    forall before: Books
      ensures ParseState(s, before) == Parsed(true, b, [])
    {
      StateRoundTrip(b, buyKeys, sellKeys, before, []);
    }
  }

  /** A run at a quarter hour leaves a sound store sound. */
  lemma {:induction false} AlignedRunKeepsSound(store: Store, results: seq<string>, table: seq<Row>, stock: string,
                                                d: Day, req: Request, shown: Result, store': Store)
    requires d.Valid() && d.Contains(req.when) && Sorted(table) && |table| < U64 && Sound(store, table, stock, d)
    requires PrefixResult(results, store, DayPrefix(stock, d))
    requires RunStep(store, results, table, stock, d, req, shown, store')
    requires req.pointInTime ==> req.when % QUARTER == 0
    ensures Sound(store', table, stock, d)
  {
    RunShowsTheDay(store, results, table, stock, d, req, shown, store');
    if store' != store {
      var final := StateAt(table, d, req.when);
      var key := Key(stock, d, req.when);
      assert Stored(store, store', key, final);
      StoredIsSnapshot(store, store', table, stock, d, req.when);
      forall k | k in store' && DayPrefix(stock, d) <= k
        ensures exists t: nat :: IsSnapshot(k, store'[k], table, stock, d, t)
      {
        if k == key {
          assert IsSnapshot(k, store'[k], table, stock, d, req.when);
        } else {
          var t := TimeOf(k, store, table, stock, d);
          assert IsSnapshot(k, store'[k], table, stock, d, t);
        }
      }
    }
  }

  /** What has been stored reads back as the state of the day, and nothing else in the store changes. */
  lemma {:induction false} StoredParses(store: Store, store': Store, table: seq<Row>, stock: string,
                                        d: Day, when: nat)
    requires d.Valid() && d.Contains(when) && |table| < U64
    requires Stored(store, store', Key(stock, d, when), StateAt(table, d, when))
    ensures var key := Key(stock, d, when);
            && key in store'
            && (forall before: Books :: ParseState(store'[key], before) == Parsed(true, StateAt(table, d, when), []))
            && forall k :: k != key ==> (k in store' <==> k in store) && (k in store ==> store'[k] == store[k])
  {
    var b := StateAt(table, d, when);
    var buyKeys, sellKeys :| Walk(buyKeys, b.buy) && Walk(sellKeys, b.sell)
                             && store' == store[Key(stock, d, when) := StateBytes(b, buyKeys, sellKeys)];
    assert |b.buy| < U64 && |b.sell| < U64 by {
      ReplaySize(Range(table, d.start, when));
      RangeLength(table, d.start, when);
    }
    hide ParseState, StateBytes, StateAt, DaysFromCivil, Walk, Key;
    StoredReadsBack(b, buyKeys, sellKeys);
  }

  lemma {:induction false} StoredIsSnapshot(store: Store, store': Store, table: seq<Row>, stock: string,
                                            d: Day, when: nat)
    requires d.Valid() && d.Contains(when) && when % QUARTER == 0 && |table| < U64
    requires Stored(store, store', Key(stock, d, when), StateAt(table, d, when))
    ensures var key := Key(stock, d, when); key in store' && IsSnapshot(key, store'[key], table, stock, d, when)
    ensures forall k :: k in store' && k != Key(stock, d, when) ==> k in store && store'[k] == store[k]
  {
    StoredParses(store, store', table, stock, d, when);
    KeyIsAt(stock, d, when);
    FloorStays(d, when);
    hide ParseState, StateAt, DaysFromCivil, Key, Stored;
  }

  // ---------------------------------------------------------------- what a run stores

  /** Some record of the table lies in a time range. */
  ghost predicate RowsIn(table: seq<Row>, from: nat, end: nat) {
    exists i :: 0 <= i < |table| && from * NS <= table[i].ns < end * NS
  }

  lemma {:induction false} RangeHasRows(table: seq<Row>, from: nat, end: nat)
    ensures Range(table, from, end) != [] <==> RowsIn(table, from, end)
  {
    if table != [] {
      var n := |table| - 1;
      RangeHasRows(table[..n], from, end);
      if RowsIn(table[..n], from, end) {
        var i :| 0 <= i < n && from * NS <= table[..n][i].ns < end * NS;
        assert from * NS <= table[i].ns < end * NS;
      }
      if RowsIn(table, from, end) && !(from * NS <= table[n].ns < end * NS) {
        var i :| 0 <= i < |table| && from * NS <= table[i].ns < end * NS;
        assert from * NS <= table[..n][i].ns < end * NS;
      }
    }
  }

  /** Where a run goes on from: the latest stored instant not after it, or else the start of the day. */
  ghost predicate GoesOnFrom(store: Store, stock: string, d: Day, when: nat, from: nat)
    requires d.Valid()
  {
    if HasSnapshotBy(store, stock, d, when) then LatestStored(store, stock, d, when, from) else from == d.start
  }

  /** The stored instants of a sound store are quarter hours. */
  lemma {:induction false} StoredAligned(store: Store, table: seq<Row>, stock: string, d: Day, t: nat)
    requires d.Valid() && Sound(store, table, stock, d) && StoredAt(store, stock, d, t)
    ensures t % QUARTER == 0
  {
    KeyInPrefix(stock, d, t);
    var u := TimeOf(At(stock, d, t), store, table, stock, d);
    KeyOrder(stock, d, t, u);
  }

  /** The latest stored instant is the quarter hour of the request exactly when that is stored. */
  lemma {:induction false} LatestIsFloor(store: Store, table: seq<Row>, stock: string, d: Day, when: nat, t: nat)
    requires d.Valid() && d.Contains(when) && Sound(store, table, stock, d)
    requires LatestStored(store, stock, d, when, t)
    ensures t <= FloorQuarter(when)
    ensures t == FloorQuarter(when) <==> StoredAt(store, stock, d, FloorQuarter(when))
  {
    FloorStays(d, when);
    StoredAligned(store, table, stock, d, t);
    if t > FloorQuarter(when) {
      NextMultiple(FloorQuarter(when), t);
    }
  }

  lemma {:induction false} NoneByFloor(store: Store, stock: string, d: Day, when: nat)
    requires d.Valid() && d.Contains(when) && !HasSnapshotBy(store, stock, d, when)
    ensures !StoredAt(store, stock, d, FloorQuarter(when))
  {
    FloorStays(d, when);
  }

  lemma LatestUnique(store: Store, stock: string, d: Day, when: nat, t: nat, u: nat)
    requires d.Valid() && LatestStored(store, stock, d, when, t) && LatestStored(store, stock, d, when, u)
    ensures t == u
  {
  }

  /** What the run restores, in terms of where it goes on from. */
  lemma {:induction false} BeginsFrom(store: Store, results: seq<string>, table: seq<Row>, stock: string, d: Day,
                                      when: nat, from: nat)
    returns (r: Restored, b: Books)
    requires d.Valid() && d.Contains(when) && Sound(store, table, stock, d)
    requires PrefixResult(results, store, DayPrefix(stock, d)) && GoesOnFrom(store, stock, d, when, from)
    ensures (r, b) == Restore(store, results, Key(stock, d, when), EMPTY)
    ensures !r.Undefined? ==>
              from == (if r.Found? then r.t else d.start) && (r.Found? ==> r.t != 0)
              && ((if r.Found? then r.t else 0) < FloorQuarter(when)
                  <==> FloorQuarter(when) != 0 && !StoredAt(store, stock, d, FloorQuarter(when)))
  {
    hide Restore, Key, PrefixResult, Sound, LatestStored, StoredAt, HasSnapshot, HasSnapshotBy, FloorQuarter, StateAt;
    r, b := RestoreSound(store, results, table, stock, d, when);
    if HasSnapshotBy(store, stock, d, when) {
      LatestIsStored(store, stock, d, when, from);
      LatestIsFloor(store, table, stock, d, when, from);
      if r.Found? {
        LatestUnique(store, stock, d, when, from, r.t);
      } else if r.NoSnapshot? {
        LatestUnique(store, stock, d, when, from, 0);
      }
    } else {
      NoneByFloor(store, stock, d, when);
      if r.Found? {
        LatestIsStored(store, stock, d, when, r.t);
      }
    }
  }

  /** When a run changes a sound store: it asks for snapshots and is not stopped by the null `match`, the
      quarter hour at or before its instant is not the zero time and not stored yet, and some record lies
      between the instant it goes on from and its own. */
  lemma {:induction false} StoresExactly(store: Store, results: seq<string>, table: seq<Row>, stock: string, d: Day,
                                         req: Request, shown: Result, store': Store, from: nat)
    requires d.Valid() && d.Contains(req.when) && Sorted(table) && |table| < U64 && Sound(store, table, stock, d)
    requires PrefixResult(results, store, DayPrefix(stock, d))
    requires RunStep(store, results, table, stock, d, req, shown, store')
    requires GoesOnFrom(store, stock, d, req.when, from)
    ensures store' != store
       <==> req.pointInTime && shown != Crashed && FloorQuarter(req.when) != 0
            && !StoredAt(store, stock, d, FloorQuarter(req.when)) && RowsIn(table, from, req.when)
  {
    assert forall k :: k in results ==> k in store;
    if req.pointInTime {
      hide Restore, Sound, PrefixResult, Key, Stored, GoesOnFrom, FloorQuarter, Range, Replay;
      var r, b := BeginsFrom(store, results, table, stock, d, req.when, from);
      if !r.Undefined? {
        RangeHasRows(table, from, req.when);
        if !StoredAt(store, stock, d, FloorQuarter(req.when)) {
          StoringChanges(store, store', stock, d, req.when, Replay(b, Range(table, from, req.when)));
        }
      }
    }
  }

  lemma {:induction false} StoringChanges(store: Store, store': Store, stock: string, d: Day, when: nat, b: Books)
    requires d.Valid() && d.Contains(when) && !StoredAt(store, stock, d, FloorQuarter(when))
    ensures Stored(store, store', Key(stock, d, when), b) ==> store' != store
  {
    FloorStays(d, when);
    KeyIsAt(stock, d, when);
    hide Key;
    if Stored(store, store', Key(stock, d, when), b) {
      assert Key(stock, d, when) in store' && Key(stock, d, when) !in store;
    }
  }

  /** What it then stores: the books it prints, under the quarter hour, and nothing else. */
  lemma {:induction false} StoresPrinted(store: Store, results: seq<string>, table: seq<Row>, stock: string, d: Day,
                                         req: Request, shown: Result, store': Store)
    requires d.Valid() && d.Contains(req.when) && Sorted(table) && |table| < U64 && Sound(store, table, stock, d)
    requires PrefixResult(results, store, DayPrefix(stock, d))
    requires RunStep(store, results, table, stock, d, req, shown, store') && store' != store
    ensures shown.Printed? && StoredAt(store', stock, d, FloorQuarter(req.when))
    ensures var key := At(stock, d, FloorQuarter(req.when));
            && (forall before: Books :: ParseState(store'[key], before) == Parsed(true, shown.books, []))
            && forall k :: k != key ==> (k in store' <==> k in store) && (k in store ==> store'[k] == store[k])
  {
    RunShowsTheDay(store, results, table, stock, d, req, shown, store');
    var key := Key(stock, d, req.when);
    assert Stored(store, store', key, StateAt(table, d, req.when));
    StoredParses(store, store', table, stock, d, req.when);
    KeyIsAt(stock, d, req.when);
    FloorStays(d, req.when);
    hide ParseState, StateAt, DaysFromCivil, Key, Stored, RunStep, Sound, PrefixResult, At;
  }

  /** After a completed run at a quarter hour, that is stored exactly when it was before or there was a
      record to replay. */
  lemma {:induction false} QuarterStored(store: Store, results: seq<string>, table: seq<Row>, stock: string, d: Day,
                                         req: Request, shown: Result, store': Store, from: nat)
    requires d.Valid() && d.Contains(req.when) && Sorted(table) && |table| < U64 && Sound(store, table, stock, d)
    requires PrefixResult(results, store, DayPrefix(stock, d))
    requires RunStep(store, results, table, stock, d, req, shown, store')
    requires GoesOnFrom(store, stock, d, req.when, from)
    requires req.pointInTime && shown != Crashed && req.when % QUARTER == 0 && req.when != 0
    ensures StoredAt(store', stock, d, req.when)
       <==> StoredAt(store, stock, d, req.when) || RowsIn(table, from, req.when)
  {
    FloorStays(d, req.when);
    hide RunStep, Sound, PrefixResult, Sorted, GoesOnFrom, FloorQuarter, RowsIn;
    StoresExactly(store, results, table, stock, d, req, shown, store', from);
    if store' != store {
      StoresPrinted(store, results, table, stock, d, req, shown, store');
    }
  }

  // ---------------------------------------------------------------- any sequence of runs

  /** Instants that label their snapshot rightly, or get none stored: see `FirstQuarterStoresNothing`. */
  predicate Harmless(when: nat) {
    when % QUARTER == 0 || when < QUARTER
  }

  lemma {:induction false} HarmlessRunKeepsSound(store: Store, results: seq<string>, table: seq<Row>, stock: string,
                                                 d: Day, req: Request, shown: Result, store': Store)
    requires d.Valid() && d.Contains(req.when) && Sorted(table) && |table| < U64 && Sound(store, table, stock, d)
    requires PrefixResult(results, store, DayPrefix(stock, d))
    requires RunStep(store, results, table, stock, d, req, shown, store')
    requires req.pointInTime ==> Harmless(req.when)
    ensures Sound(store', table, stock, d)
  {
    hide RunStep, Sound, PrefixResult, Sorted;
    if req.pointInTime && req.when % QUARTER != 0 {
      FirstQuarterStoresNothing(store, results, table, stock, d, req, shown, store');
    } else {
      AlignedRunKeepsSound(store, results, table, stock, d, req, shown, store');
    }
  }

  /** A history of runs: the stores between them, and what each was asked and showed. */
  ghost predicate History(stores: seq<Store>, queries: seq<seq<string>>, reqs: seq<Request>, shown: seq<Result>,
                          table: seq<Row>, stock: string, d: Day)
    requires d.Valid()
  {
    && |stores| == |reqs| + 1 && |queries| == |shown| == |reqs|
    && forall i :: 0 <= i < |reqs| ==>
         && d.Contains(reqs[i].when)
         && PrefixResult(queries[i], stores[i], DayPrefix(stock, d))
         && RunStep(stores[i], queries[i], table, stock, d, reqs[i], shown[i], stores[i + 1])
  }

  /** The instants at which snapshots are asked for. */
  ghost predicate AsksAt(reqs: seq<Request>, instants: iset<nat>) {
    forall i :: 0 <= i < |reqs| && reqs[i].pointInTime ==> reqs[i].when in instants
  }

  ghost predicate AllHarmless(instants: iset<nat>, d: Day) {
    forall t: nat :: t in instants && d.Contains(t) ==> Harmless(t)
  }

  /** Over any sequence of runs on one day of records, started from a sound store and asking for
      snapshots only at harmless instants, every store stays sound. */
  lemma {:induction false} HistoryStaysSound(stores: seq<Store>, queries: seq<seq<string>>, reqs: seq<Request>,
                                             shown: seq<Result>, table: seq<Row>, stock: string, d: Day,
                                             instants: iset<nat>, n: nat)
    requires d.Valid() && Sorted(table) && |table| < U64
    requires History(stores, queries, reqs, shown, table, stock, d) && Sound(stores[0], table, stock, d)
    requires AsksAt(reqs, instants) && AllHarmless(instants, d)
    requires n <= |reqs|
    ensures Sound(stores[n], table, stock, d)
    decreases n
  {
    hide Sound, RunStep, PrefixResult, Harmless;
    if n > 0 {
      HistoryStaysSound(stores, queries, reqs, shown, table, stock, d, instants, n - 1);
      HarmlessRunKeepsSound(stores[n - 1], queries[n - 1], table, stock, d, reqs[n - 1], shown[n - 1], stores[n]);
    }
  }

  /** And every run that gets past the scan shows the state that replaying the whole day gives. */
  lemma {:induction false} HistoryShowsTheDay(stores: seq<Store>, queries: seq<seq<string>>, reqs: seq<Request>,
                                              shown: seq<Result>, table: seq<Row>, stock: string, d: Day,
                                              instants: iset<nat>, i: nat)
    requires d.Valid() && Sorted(table) && |table| < U64
    requires History(stores, queries, reqs, shown, table, stock, d) && Sound(stores[0], table, stock, d)
    requires AsksAt(reqs, instants) && AllHarmless(instants, d)
    requires i < |reqs|
    ensures shown[i] == Crashed <==> reqs[i].pointInTime && HasSnapshot(stores[i], stock, d)
                                     && !HasSnapshotBy(stores[i], stock, d, reqs[i].when)
    ensures shown[i] != Crashed ==> shown[i] == Printed(StateAt(table, d, reqs[i].when))
  {
    hide Sound, RunStep, PrefixResult;
    HistoryStaysSound(stores, queries, reqs, shown, table, stock, d, instants, i);
    RunShowsTheDay(stores[i], queries[i], table, stock, d, reqs[i], shown[i], stores[i + 1]);
  }

  lemma {:induction false} RunKeepsStored(store: Store, results: seq<string>, table: seq<Row>, stock: string, d: Day,
                                          req: Request, shown: Result, store': Store, t: nat)
    requires d.Valid() && d.Contains(req.when) && forall k :: k in results ==> k in store
    requires RunStep(store, results, table, stock, d, req, shown, store') && StoredAt(store, stock, d, t)
    ensures StoredAt(store', stock, d, t)
  {
    hide Begin, Key, Range, Replay, At;
  }

  lemma {:induction false} HistoryStep(stores: seq<Store>, queries: seq<seq<string>>, reqs: seq<Request>,
                                       shown: seq<Result>, table: seq<Row>, stock: string, d: Day, i: nat)
    requires d.Valid() && i < |reqs| && History(stores, queries, reqs, shown, table, stock, d)
    ensures |stores| == |reqs| + 1 && |queries| == |shown| == |reqs| && d.Contains(reqs[i].when)
    ensures PrefixResult(queries[i], stores[i], DayPrefix(stock, d))
    ensures forall k :: k in queries[i] ==> k in stores[i]
    ensures RunStep(stores[i], queries[i], table, stock, d, reqs[i], shown[i], stores[i + 1])
  {
    assert PrefixResult(queries[i], stores[i], DayPrefix(stock, d));
    hide RunStep;
  }

  lemma {:induction false} StepKeepsStored(stores: seq<Store>, queries: seq<seq<string>>, reqs: seq<Request>,
                                           shown: seq<Result>, table: seq<Row>, stock: string, d: Day,
                                           i: nat, t: nat)
    requires d.Valid() && i < |reqs| && History(stores, queries, reqs, shown, table, stock, d)
    requires |stores| == |reqs| + 1 && StoredAt(stores[i], stock, d, t)
    ensures StoredAt(stores[i + 1], stock, d, t)
  {
    HistoryStep(stores, queries, reqs, shown, table, stock, d, i);
    hide *;
    RunKeepsStored(stores[i], queries[i], table, stock, d, reqs[i], shown[i], stores[i + 1], t);
  }

  /** No run removes a snapshot. */
  lemma {:induction false} StoredStays(stores: seq<Store>, queries: seq<seq<string>>, reqs: seq<Request>,
                                       shown: seq<Result>, table: seq<Row>, stock: string, d: Day,
                                       i: nat, j: nat, t: nat)
    requires d.Valid() && History(stores, queries, reqs, shown, table, stock, d)
    requires i <= j <= |reqs| && StoredAt(stores[i], stock, d, t)
    ensures StoredAt(stores[j], stock, d, t)
    decreases j
  {
    if i < j {
      hide *;
      StoredStays(stores, queries, reqs, shown, table, stock, d, i, j - 1, t);
      StepKeepsStored(stores, queries, reqs, shown, table, stock, d, j - 1, t);
    }
  }

  /** Once an instant is stored, every later request at or after it finds a snapshot: it is not stopped by
      the null `match`, and goes on from the latest one, at or after that instant, with the state of the
      day then. At the instant itself it finds just that one, and leaves the store alone. */
  lemma {:induction false} HistoryFinds(stores: seq<Store>, queries: seq<seq<string>>, reqs: seq<Request>,
                                        shown: seq<Result>, table: seq<Row>, stock: string, d: Day,
                                        instants: iset<nat>, i: nat, j: nat, t: nat)
    returns (found: nat)
    requires d.Valid() && Sorted(table) && |table| < U64
    requires History(stores, queries, reqs, shown, table, stock, d) && Sound(stores[0], table, stock, d)
    requires AsksAt(reqs, instants) && AllHarmless(instants, d)
    requires i <= j < |reqs| && StoredAt(stores[i], stock, d, t)
    requires reqs[j].pointInTime && 0 < t <= reqs[j].when
    ensures (forall k :: k in queries[j] ==> k in stores[j])
            && Restore(stores[j], queries[j], Key(stock, d, reqs[j].when), EMPTY)
               == (Found(found), StateAt(table, d, found))
    ensures t <= found <= reqs[j].when && LatestStored(stores[j], stock, d, reqs[j].when, found)
    ensures shown[j] == Printed(StateAt(table, d, reqs[j].when))
    ensures reqs[j].when == t ==> found == t && stores[j + 1] == stores[j]
  {
    hide *;
    HistoryStep(stores, queries, reqs, shown, table, stock, d, j);
    StoredStays(stores, queries, reqs, shown, table, stock, d, i, j, t);
    HistoryStaysSound(stores, queries, reqs, shown, table, stock, d, instants, j);
    found := FindsStored(stores[j], queries[j], table, stock, d, reqs[j], shown[j], stores[j + 1], t);
  }

  lemma {:induction false} FindsStored(store: Store, results: seq<string>, table: seq<Row>, stock: string, d: Day,
                                       req: Request, shown: Result, store': Store, t: nat)
    returns (found: nat)
    requires d.Valid() && d.Contains(req.when) && Sorted(table) && |table| < U64 && Sound(store, table, stock, d)
    requires PrefixResult(results, store, DayPrefix(stock, d)) && forall k :: k in results ==> k in store
    requires RunStep(store, results, table, stock, d, req, shown, store')
    requires StoredAt(store, stock, d, t) && req.pointInTime && 0 < t <= req.when
    ensures Restore(store, results, Key(stock, d, req.when), EMPTY) == (Found(found), StateAt(table, d, found))
    ensures t <= found <= req.when && LatestStored(store, stock, d, req.when, found)
    ensures shown == Printed(StateAt(table, d, req.when))
    ensures req.when == t ==> found == t && store' == store
  {
    assert HasSnapshotBy(store, stock, d, req.when);
    StoredAligned(store, table, stock, d, t);
    FloorStays(d, req.when);
    hide RunStep, Sound, PrefixResult, Sorted, Restore, Key, StateAt, FloorQuarter, StoredAt;
    RunShowsTheDay(store, results, table, stock, d, req, shown, store');
    var r, b := RestoreSound(store, results, table, stock, d, req.when);
    NoneHasNone(store, stock, d, req.when);
    assert r.Found?;
    found := r.t;
    StoresExactly(store, results, table, stock, d, req, shown, store', found);
  }

  // ---------------------------------------------------------------- requests off the quarter hour

  /** A table with an order of two shares, added just at the quarter hour before `when`, of which one is
      executed. */
  function AddThenExecute(when: nat): (table: seq<Row>)
    ensures |table| == 2 && Sorted(table)
  {
    var ns := FloorQuarter(when) * NS;
    [Row(ns, Record('A', 1, 0, 2, 1, true)), Row(ns, Record('E', 1, 0, 1, 0, false))]
  }

  /** The one share left. */
  const LEFT: Books := Books(map[1 := Order(1, 1)], map[])

  function Both(when: nat): seq<Record> {
    [AddThenExecute(when)[0].rec, AddThenExecute(when)[1].rec]
  }

  /** Replaying the two records gives the one share, and doing so twice takes that one as well. */
  lemma {:induction false} ReplayBoth(when: nat)
    ensures Replay(EMPTY, Both(when)) == LEFT && Replay(LEFT, Both(when)) == EMPTY
  {
    var feed := Both(when);
    assert feed[..1] == [feed[0]] && feed[..1][..0] == [];
    var two := Books(map[1 := Order(1, 2)], map[]);
    assert Replay(EMPTY, []) == EMPTY && Replay(LEFT, []) == LEFT;
    assert Replay(EMPTY, feed[..1]) == two && Replay(LEFT, feed[..1]) == LEFT;
    assert map[1 := Order(1, 1)] - {1} == map[];
  }

  lemma {:induction false} RangeBoth(when: nat, from: nat, to: nat)
    requires when % QUARTER != 0
    ensures from <= FloorQuarter(when) && to == when ==> Range(AddThenExecute(when), from, to) == Both(when)
    ensures to == FloorQuarter(when) ==> Range(AddThenExecute(when), from, to) == []
  {
    var table := AddThenExecute(when);
    assert table[..1] == [table[0]] && table[..1][..0] == [];
    assert Range([], from, to) == [];
    assert Range(table[..1], from, to) == if from * NS <= table[0].ns < to * NS then [table[0].rec] else [];
  }

  lemma {:induction false} StatesOfBoth(d: Day, when: nat)
    requires d.Valid() && d.Contains(when) && when % QUARTER != 0
    ensures StateAt(AddThenExecute(when), d, FloorQuarter(when)) == EMPTY
    ensures Range(AddThenExecute(when), d.start, when) == Both(when)
    ensures StateAt(AddThenExecute(when), d, when) == LEFT
  {
    FloorStays(d, when);
    RangeBoth(when, d.start, when);
    RangeBoth(when, d.start, FloorQuarter(when));
    ReplayBoth(when);
    assert Replay(EMPTY, []) == EMPTY;
  }

  /** The store after a first run at `when`. */
  function StoreOf(stock: string, d: Day, when: nat): Store
    requires d.Valid() && d.Contains(when)
  {
    assert Walk([1], LEFT.buy) && Walk([], LEFT.sell);
    map[Key(stock, d, when) := StateBytes(LEFT, [1], [])]
  }

  /** A first run at such an instant shows the day, but labels its state with the quarter hour before. */
  lemma {:induction false} UnalignedRunSpoils(stock: string, d: Day, when: nat)
    requires d.Valid() && d.Contains(when) && when % QUARTER != 0 && QUARTER <= when
    ensures var store' := StoreOf(stock, d, when);
            RunStep(map[], [], AddThenExecute(when), stock, d, Request(when, true), Printed(LEFT), store')
            && !Sound(store', AddThenExecute(when), stock, d)
  {
    StatesOfBoth(d, when);
    FloorStays(d, when);
    assert Stored(map[], StoreOf(stock, d, when), Key(stock, d, when), LEFT) by {
      assert Walk([1], LEFT.buy) && Walk([], LEFT.sell);
      assert map[][Key(stock, d, when) := StateBytes(LEFT, [1], [])] == StoreOf(stock, d, when);
    }
    hide Stored, StateBytes;
    FirstRun(stock, d, when, LEFT, StoreOf(stock, d, when));
    WrongLabel(AddThenExecute(when), stock, d, when, LEFT);
  }

  lemma {:induction false} FirstRun(stock: string, d: Day, when: nat, b: Books, store': Store)
    requires d.Valid() && d.Contains(when) && 0 < FloorQuarter(when)
    requires StateAt(AddThenExecute(when), d, when) == b && Range(AddThenExecute(when), d.start, when) != []
    requires Stored(map[], store', Key(stock, d, when), b)
    ensures RunStep(map[], [], AddThenExecute(when), stock, d, Request(when, true), Printed(b), store')
  {
    hide Stored, Key, FloorQuarter, Range, Replay;
    assert Restore(map[], [], Key(stock, d, when), EMPTY) == (NoSnapshot, EMPTY);
  }

  lemma {:induction false} OneKey(store: Store, key: string, blob: seq<byte>, prefix: string)
    requires store == map[key := blob] && prefix <= key
    ensures key in store && PrefixResult([key], store, prefix)
  {
  }

  /** A store of one key, asked for just that key. */
  lemma {:induction false} RestoreOnly(store: Store, key: string, stock: string, d: Day, t: nat, b: Books)
    requires d.Valid() && d.Contains(t) && t != 0 && key == At(stock, d, t)
    requires key in store && ParseState(store[key], EMPTY) == Parsed(true, b, [])
    ensures Restore(store, [key], key, EMPTY) == (Found(t), b)
  {
    KeySuffix(stock, d, t);
    ScanOnly(key);
    hide ParseState, ParseIso, LastUnderscore, Scan, At, DaysFromCivil;
  }

  lemma {:induction false} ScanOnly(key: string)
    ensures Scan([key], key) == Some(key)
  {
    NotLess(key);
    hide TextLess;
    assert [key][1..] == [];
    assert Scan([], key) == None;
  }

  /** What a later run at the same key restores. */
  lemma {:induction false} RestoreSpoilt(stock: string, d: Day, when: nat)
    requires d.Valid() && d.Contains(when) && QUARTER <= when
    ensures var key, store := Key(stock, d, when), StoreOf(stock, d, when);
            && key in store && PrefixResult([key], store, DayPrefix(stock, d))
            && Restore(store, [key], key, EMPTY) == (Found(FloorQuarter(when)), LEFT)
  {
    var key, store, blob := Key(stock, d, when), StoreOf(stock, d, when), StateBytes(LEFT, [1], []);
    assert Walk([1], LEFT.buy) && Walk([], LEFT.sell) && store == map[key := blob];
    StoredReadsBack(LEFT, [1], []);
    assert ParseState(blob, EMPTY) == Parsed(true, LEFT, []);
    KeyIsAt(stock, d, when);
    FloorStays(d, when);
    assert FloorQuarter(when) != 0;
    hide *;
    OneKey(store, key, blob, DayPrefix(stock, d));
    RestoreOnly(store, key, stock, d, FloorQuarter(when), LEFT);
  }

  /** After it, a run at the quarter hour itself prints the wrong book: it finds the share there that was
      only added later. */
  lemma {:induction false} AlignedRunMisled(stock: string, d: Day, when: nat)
    requires d.Valid() && d.Contains(when) && when % QUARTER != 0 && QUARTER <= when
    ensures var key, store, quarter := Key(stock, d, when), StoreOf(stock, d, when), FloorQuarter(when);
            && d.Contains(quarter) && quarter % QUARTER == 0
            && key in store && PrefixResult([key], store, DayPrefix(stock, d))
            && RunStep(store, [key], AddThenExecute(when), stock, d, Request(quarter, true), Printed(LEFT), store)
            && LEFT != StateAt(AddThenExecute(when), d, quarter)
  {
    var quarter := FloorQuarter(when);
    FloorStays(d, when);
    FloorStays(d, quarter);
    RestoreSpoilt(stock, d, when);
    RangeBoth(when, quarter, quarter);
    StatesOfBoth(d, when);
    KeyIsAt(stock, d, when);
    KeyIsAt(stock, d, quarter);
    assert Key(stock, d, quarter) == Key(stock, d, when);
    hide Restore, Key, StoreOf, Range, PrefixResult, FloorQuarter;
    assert Replay(LEFT, []) == LEFT;
  }

  /** And so does the same run made twice: what happened since the quarter hour is replayed again. */
  lemma {:induction false} RepeatedRunMisled(stock: string, d: Day, when: nat)
    requires d.Valid() && d.Contains(when) && when % QUARTER != 0 && QUARTER <= when
    ensures var key, store := Key(stock, d, when), StoreOf(stock, d, when);
            && key in store && PrefixResult([key], store, DayPrefix(stock, d))
            && RunStep(store, [key], AddThenExecute(when), stock, d, Request(when, true), Printed(EMPTY), store)
            && EMPTY != StateAt(AddThenExecute(when), d, when)
  {
    RestoreSpoilt(stock, d, when);
    RangeBoth(when, FloorQuarter(when), when);
    ReplayBoth(when);
    StatesOfBoth(d, when);
    FloorStays(d, when);
    hide Restore, Key, StoreOf, Range, PrefixResult, FloorQuarter, Replay;
  }

  /** A key over another state than that of its quarter hour makes a store unsound. */
  lemma {:induction false} WrongLabel(table: seq<Row>, stock: string, d: Day, when: nat, b: Books)
    requires d.Valid() && d.Contains(when) && StateAt(table, d, FloorQuarter(when)) != b
    requires b == Books(map[1 := Order(1, 1)], map[]) && Walk([1], b.buy) && Walk([], b.sell)
    ensures !Sound(map[Key(stock, d, when) := StateBytes(b, [1], [])], table, stock, d)
  {
    var key, blob := Key(stock, d, when), StateBytes(b, [1], []);
    StoredReadsBack(b, [1], []);
    assert ParseState(blob, EMPTY).value == b;
    KeyIsAt(stock, d, when);
    FloorStays(d, when);
    hide *;
    var store := map[key := blob];
    if Sound(store, table, stock, d) {
      var t := TimeOf(key, store, table, stock, d);
      OneMeaning(key, blob, table, stock, d, t);
      KeyOrder(stock, d, t, FloorQuarter(when));
    }
  }

  lemma {:induction false} OneMeaning(key: string, blob: seq<byte>, table: seq<Row>, stock: string, d: Day, t: nat)
    requires d.Valid() && IsSnapshot(key, blob, table, stock, d, t)
    ensures d.Contains(t) && key == At(stock, d, t)
    ensures ParseState(blob, EMPTY).value == StateAt(table, d, t)
  {
    assert ParseState(blob, EMPTY) == Parsed(true, StateAt(table, d, t), []);
  }

  ghost predicate KeepsAllSound(stock: string, d: Day, when: nat)
    requires d.Valid() && d.Contains(when)
  {
    forall store, results, table, shown, store' ::
      Sorted(table) && |table| < U64 && Sound(store, table, stock, d)
      && PrefixResult(results, store, DayPrefix(stock, d)) && (forall k :: k in results ==> k in store)
      && RunStep(store, results, table, stock, d, Request(when, true), shown, store')
      ==> Sound(store', table, stock, d)
  }

  lemma {:induction false} BeginNotNegative(store: Store, results: seq<string>, table: seq<Row>, stock: string, d: Day,
                                            req: Request)
    requires d.Valid() && d.Contains(req.when) && Sound(store, table, stock, d)
    requires PrefixResult(results, store, DayPrefix(stock, d))
    ensures var r := Begin(store, results, Key(stock, d, req.when), req).0; r.Found? ==> r.t >= 0
  {
    hide Restore, Key, Sound, PrefixResult, DaysFromCivil;
    if req.pointInTime {
      var r, b := RestoreSound(store, results, table, stock, d, req.when);
    }
  }

  /** In the first quarter hour of 1970 the label would be zero, which counts as no snapshot, and
      nothing is stored. */
  lemma {:induction false} FirstQuarterStoresNothing(store: Store, results: seq<string>, table: seq<Row>, stock: string,
                                                     d: Day, req: Request, shown: Result, store': Store)
    requires d.Valid() && d.Contains(req.when) && Sound(store, table, stock, d) && req.when < QUARTER
    requires PrefixResult(results, store, DayPrefix(stock, d))
    requires RunStep(store, results, table, stock, d, req, shown, store')
    ensures store' == store
  {
    hide Begin, Key, Stored, Range, Replay, FloorQuarter, DaysFromCivil, Sound, PrefixResult, DayPrefix;
    BeginNotNegative(store, results, table, stock, d, req);
    FloorOfFirst(req.when);
  }

  lemma FloorOfFirst(t: nat)
    requires t < QUARTER
    ensures FloorQuarter(t) == 0
  {
  }

  /** Runs at an instant keep every sound store sound, for every table, exactly when the instant is
      a quarter hour (or no snapshot can be labelled at all). */
  lemma {:induction false} SoundExactlyAtQuarters(stock: string, d: Day, when: nat)
    requires d.Valid() && d.Contains(when)
    ensures KeepsAllSound(stock, d, when) <==> Harmless(when)
  {
    hide RunStep, Sound, PrefixResult, Sorted;
    if Harmless(when) {
      forall store, results, table, shown, store' |
        Sorted(table) && |table| < U64 && Sound(store, table, stock, d)
        && PrefixResult(results, store, DayPrefix(stock, d)) && (forall k :: k in results ==> k in store)
        && RunStep(store, results, table, stock, d, Request(when, true), shown, store')
        ensures Sound(store', table, stock, d)
      {
        HarmlessRunKeepsSound(store, results, table, stock, d, Request(when, true), shown, store');
      }
    } else {
      UnalignedRunSpoils(stock, d, when);
      EmptyStore(AddThenExecute(when), stock, d);
    }
  }

  lemma {:induction false} EmptyStore(table: seq<Row>, stock: string, d: Day)
    requires d.Valid()
    ensures Sound(map[], table, stock, d) && PrefixResult([], map[], DayPrefix(stock, d))
  {
  }

  /** What a run owes its user, unless it met the null `match`. */
  ghost predicate ShowsTheDay(shown: Result, table: seq<Row>, d: Day, when: nat) {
    shown == Crashed || shown == Printed(StateAt(table, d, when))
  }

  /** For every table, every history from a sound store that asks for snapshots at these instants, and at
      no others, shows the day in every run. */
  ghost predicate AllShowTheDay(stock: string, d: Day, instants: iset<nat>)
    requires d.Valid()
  {
    forall stores, queries, reqs: seq<Request>, shown, table ::
      History(stores, queries, reqs, shown, table, stock, d)
      && Sorted(table) && |table| < U64 && Sound(stores[0], table, stock, d) && AsksAt(reqs, instants)
      ==> forall i :: 0 <= i < |reqs| ==> ShowsTheDay(shown[i], table, d, reqs[i].when)
  }

  lemma {:induction false} HarmlessShowTheDay(stock: string, d: Day, instants: iset<nat>)
    requires d.Valid() && AllHarmless(instants, d)
    ensures AllShowTheDay(stock, d, instants)
  {
    forall stores, queries, reqs: seq<Request>, shown, table |
      History(stores, queries, reqs, shown, table, stock, d)
      && Sorted(table) && |table| < U64 && Sound(stores[0], table, stock, d) && AsksAt(reqs, instants)
      ensures forall i :: 0 <= i < |reqs| ==> ShowsTheDay(shown[i], table, d, reqs[i].when)
    {
      forall i | 0 <= i < |reqs|
        ensures ShowsTheDay(shown[i], table, d, reqs[i].when)
      {
        HistoryShowsTheDay(stores, queries, reqs, shown, table, stock, d, instants, i);
      }
    }
  }

  /** Two equal runs on an empty store. */
  lemma {:induction false} TwoRunsHistory(stock: string, d: Day, when: nat)
    requires d.Valid() && d.Contains(when) && !Harmless(when)
    ensures var store, req := StoreOf(stock, d, when), Request(when, true);
            && History([map[], store, store], [[], [Key(stock, d, when)]], [req, req],
                       [Printed(LEFT), Printed(EMPTY)], AddThenExecute(when), stock, d)
            && Sound(map[], AddThenExecute(when), stock, d)
            && !ShowsTheDay(Printed(EMPTY), AddThenExecute(when), d, when)
  {
    UnalignedRunSpoils(stock, d, when);
    RepeatedRunMisled(stock, d, when);
    EmptyStore(AddThenExecute(when), stock, d);
    hide *;
    HistoryOfTwo(map[], StoreOf(stock, d, when), [Key(stock, d, when)], Request(when, true), Printed(LEFT),
                 Printed(EMPTY), AddThenExecute(when), stock, d);
    ShowsOther(EMPTY, AddThenExecute(when), d, when);
  }

  lemma ShowsOther(b: Books, table: seq<Row>, d: Day, when: nat)
    ensures b != StateAt(table, d, when) ==> !ShowsTheDay(Printed(b), table, d, when)
  {
    hide StateAt;
  }

  lemma {:induction false} HistoryOfTwo(s0: Store, s1: Store, results: seq<string>, req: Request, shown0: Result,
                                        shown1: Result, table: seq<Row>, stock: string, d: Day)
    requires d.Valid() && d.Contains(req.when) && forall k :: k in results ==> k in s1
    requires PrefixResult([], s0, DayPrefix(stock, d)) && PrefixResult(results, s1, DayPrefix(stock, d))
    requires RunStep(s0, [], table, stock, d, req, shown0, s1) && RunStep(s1, results, table, stock, d, req, shown1, s1)
    ensures History([s0, s1, s1], [[], results], [req, req], [shown0, shown1], table, stock, d)
  {
    hide RunStep, PrefixResult, DayPrefix;
  }

  /** One wrong run is enough. */
  lemma {:induction false} NotAll(stock: string, d: Day, instants: iset<nat>, stores: seq<Store>,
                                  queries: seq<seq<string>>, reqs: seq<Request>, shown: seq<Result>,
                                  table: seq<Row>, i: nat)
    requires d.Valid() && History(stores, queries, reqs, shown, table, stock, d)
    requires Sorted(table) && |table| < U64 && Sound(stores[0], table, stock, d)
    requires forall j :: 0 <= j < |reqs| ==> reqs[j].when in instants
    requires i < |reqs| && !ShowsTheDay(shown[i], table, d, reqs[i].when)
    ensures !AllShowTheDay(stock, d, instants)
  {
    hide Sorted, Sound, ShowsTheDay, RunStep, PrefixResult;
    assert AsksAt(reqs, instants);
  }

  /** Which instants may be asked for: every run of every history shows the day exactly when all of them
      are quarter hours, or lie in the first quarter hour of 1970. */
  lemma {:induction false} HistoriesRightExactly(stock: string, d: Day, instants: iset<nat>)
    requires d.Valid()
    ensures AllShowTheDay(stock, d, instants) <==> AllHarmless(instants, d)
  {
    if AllHarmless(instants, d) {
      HarmlessShowTheDay(stock, d, instants);
    } else {
      var when: nat :| when in instants && d.Contains(when) && !Harmless(when);
      hide *;
      TwoRunsHistory(stock, d, when);
      var store, req := StoreOf(stock, d, when), Request(when, true);
      NotAll(stock, d, instants, [map[], store, store], [[], [Key(stock, d, when)]], [req, req],
             [Printed(LEFT), Printed(EMPTY)], AddThenExecute(when), 1);
    }
  }
}
