/** The binary form of the engine's state: writing it through a moving cursor, and reading it back. */
module EngineState {

  import opened Bytes
  import opened Engine
  import opened OrderBook

  // ---------------------------------------------------------------- the format

  function EntryBytes(r: u64, o: Order): (s: seq<byte>)
    ensures |s| == 16
  {
    LE(r, 8) + LE(o.price, 4) + LE(o.shares, 4)
  }

  function EntriesBytes(keys: seq<u64>, m: OrderMap): (s: seq<byte>)
    requires forall r :: r in keys ==> r in m
    ensures |s| == 16 * |keys|
  {
    if keys == [] then []
    else EntriesBytes(keys[..|keys| - 1], m) + EntryBytes(keys[|keys| - 1], m[keys[|keys| - 1]])
  }

  /** One map, walked in the order of `keys`: the number of entries, then the entries. */
  function MapBytes(keys: seq<u64>, m: OrderMap): (s: seq<byte>)
    requires Walk(keys, m)
    ensures |s| == 8 + 16 * |keys|
  {
    LE(|keys|, 8) + EntriesBytes(keys, m)
  }

  function SerializedSize(m: OrderMap): nat {
    8 + |m| * (8 + 4 * 2)
  }

  lemma {:induction false} WalkLength(keys: seq<u64>, m: OrderMap)
    requires Walk(keys, m)
    ensures |keys| == |m|
    decreases |keys|
  {
    if keys == [] {
      assert m == map[];
    } else {
      var last := keys[|keys| - 1];
      var init := keys[..|keys| - 1];
      forall r
        ensures r in init <==> r in m - {last}
      {
        assert r in keys <==> r in init || r == last by {
          assert keys == init + [last];
        }
      }
      WalkLength(init, m - {last});
      assert m.Keys == (m - {last}).Keys + {last};
    }
  }

  /** What `serialize_state` writes, for given walks of the two hash maps. */
  function StateBytes(b: Books, buyKeys: seq<u64>, sellKeys: seq<u64>): seq<byte>
    requires Walk(buyKeys, b.buy) && Walk(sellKeys, b.sell)
  {
    MapBytes(buyKeys, b.buy) + MapBytes(sellKeys, b.sell)
  }

  /** An entry byte by byte: reference, price, shares, each little-endian. */
  lemma {:induction false} EntrySpelled(r: u64, o: Order, i: nat)
    requires i < 8
    ensures Pow256(i) > 0 && EntryBytes(r, o)[i] == r / Pow256(i) % 256
    ensures i < 4 ==> EntryBytes(r, o)[8 + i] == o.price / Pow256(i) % 256
    ensures i < 4 ==> EntryBytes(r, o)[12 + i] == o.shares / Pow256(i) % 256
  {
    hide LE, Pow256;
    LEAt(r, 8, i);
    if i < 4 {
      LEAt(o.price, 4, i);
      LEAt(o.shares, 4, i);
    }
  }

  lemma {:induction false} EntriesAt(keys: seq<u64>, m: OrderMap, k: nat)
    requires (forall r :: r in keys ==> r in m) && k < |keys|
    ensures keys[k] in m && EntriesBytes(keys, m)[16 * k..16 * k + 16] == EntryBytes(keys[k], m[keys[k]])
    decreases |keys|
  {
    hide EntryBytes;
    var n := |keys| - 1;
    if k < n {
      EntriesAt(keys[..n], m, k);
    }
  }

  /** The bytes of a map: the number of its orders, then those in walk order, sixteen bytes each. */
  lemma {:induction false} MapSpelled(keys: seq<u64>, m: OrderMap, k: nat)
    requires Walk(keys, m)
    ensures |keys| == |m| && |MapBytes(keys, m)| == 8 + 16 * |m| && MapBytes(keys, m)[..8] == LE(|m|, 8)
    ensures k < |keys| ==> MapBytes(keys, m)[8 + 16 * k..24 + 16 * k] == EntryBytes(keys[k], m[keys[k]])
  {
    WalkLength(keys, m);
    if k < |keys| {
      EntriesAt(keys, m, k);
    }
    hide LE, EntryBytes, EntriesBytes, Walk;
    Behind(LE(|keys|, 8), EntriesBytes(keys, m), 16 * k);
  }

  lemma Behind(head: seq<byte>, body: seq<byte>, o: nat)
    ensures (head + body)[..|head|] == head
    ensures o + 16 <= |body| ==> (head + body)[|head| + o..|head| + o + 16] == body[o..o + 16]
  {
  }

  /** The bytes of a state: those of the buying map, then those of the selling one. */
  lemma {:induction false} StateSpelled(b: Books, buyKeys: seq<u64>, sellKeys: seq<u64>)
    requires Walk(buyKeys, b.buy) && Walk(sellKeys, b.sell)
    ensures var s := StateBytes(b, buyKeys, sellKeys);
            && |s| == 16 + 16 * |b.buy| + 16 * |b.sell|
            && s[..8 + 16 * |b.buy|] == MapBytes(buyKeys, b.buy)
            && s[8 + 16 * |b.buy|..] == MapBytes(sellKeys, b.sell)
  {
    hide MapBytes;
    MapSpelled(buyKeys, b.buy, 0);
    MapSpelled(sellKeys, b.sell, 0);
  }

  // ---------------------------------------------------------------- writing

  /** The buffer after `s` has been written at `p`. */
  ghost predicate Wrote(before: seq<byte>, after: seq<byte>, p: nat, s: seq<byte>) {
    p + |s| <= |before| && after == before[..p] + s + before[p + |s|..]
  }

  lemma {:induction false} WroteTwice(a: seq<byte>, b: seq<byte>, c: seq<byte>, p: nat, s: seq<byte>, t: seq<byte>)
    requires Wrote(a, b, p, s) && Wrote(b, c, p + |s|, t)
    ensures Wrote(a, c, p, s + t)
  {
    assert b[..p + |s|] == a[..p] + s;
    assert b[p + |s| + |t|..] == a[p + |s| + |t|..];
  }

  method SerializeInteger(buffer: array<byte>, p: nat, l: nat, v: nat, size: nat) returns (p': nat, l': nat)
    requires p + l == buffer.Length && size <= l
    modifies buffer
    ensures p' == p + size && l' == l - size
    ensures Wrote(old(buffer[..]), buffer[..], p, LE(v, size))
  {
    var bytes := LE(v, size);
    forall i | 0 <= i < size {
      buffer[p + i] := bytes[i];
    }
    p', l' := p + size, l - size;
  }

  method SerializeEntry(buffer: array<byte>, p: nat, l: nat, r: u64, o: Order) returns (p': nat, l': nat)
    requires p + l == buffer.Length && 16 <= l
    modifies buffer
    ensures p' == p + 16 && l' == l - 16
    ensures Wrote(old(buffer[..]), buffer[..], p, EntryBytes(r, o))
  {
    hide Wrote, LE;
    ghost var s0 := buffer[..];
    p', l' := SerializeInteger(buffer, p, l, r, 8);
    ghost var s1 := buffer[..];
    p', l' := SerializeInteger(buffer, p', l', o.price, 4);
    ghost var s2 := buffer[..];
    p', l' := SerializeInteger(buffer, p', l', o.shares, 4);
    WroteTwice(s0, s1, s2, p, LE(r, 8), LE(o.price, 4));
    WroteTwice(s0, s2, buffer[..], p, LE(r, 8) + LE(o.price, 4), LE(o.shares, 4));
  }

  /** The bytes after the first `i` entries. */
  ghost function MapPrefix(keys: seq<u64>, m: OrderMap, i: nat): (s: seq<byte>)
    requires Walk(keys, m) && i <= |keys|
    ensures |s| == 8 + 16 * i
  {
    LE(|keys|, 8) + EntriesBytes(keys[..i], m)
  }

  lemma {:induction false} MapPrefixStep(keys: seq<u64>, m: OrderMap, i: nat)
    requires Walk(keys, m) && i < |keys|
    ensures MapPrefix(keys, m, i + 1) == MapPrefix(keys, m, i) + EntryBytes(keys[i], m[keys[i]])
  {
    assert keys[..i + 1][..i] == keys[..i];
  }

  lemma {:induction false} MapPrefixEnds(keys: seq<u64>, m: OrderMap)
    requires Walk(keys, m)
    ensures MapPrefix(keys, m, 0) == LE(|keys|, 8) && MapPrefix(keys, m, |keys|) == MapBytes(keys, m)
  {
    assert keys[..|keys|] == keys && keys[..0] == [];
  }

  method SerializeOrderMap(buffer: array<byte>, p: nat, l: nat, m: OrderMap, keys: seq<u64>)
    returns (p': nat, l': nat)
    requires p + l == buffer.Length && Walk(keys, m) && SerializedSize(m) <= l
    modifies buffer
    ensures p' == p + SerializedSize(m) && l' == l - SerializedSize(m)
    ensures Wrote(old(buffer[..]), buffer[..], p, MapBytes(keys, m))
  {
    hide Wrote, LE, MapPrefix, EntryBytes, MapBytes;
    WalkLength(keys, m);
    MapPrefixEnds(keys, m);
    ghost var start := buffer[..];
    p', l' := SerializeInteger(buffer, p, l, |m|, 8);
    for i := 0 to |keys|
      invariant p' == p + 8 + 16 * i && l' == l - 8 - 16 * i
      invariant Wrote(start, buffer[..], p, MapPrefix(keys, m, i))
    {
      ghost var before := buffer[..];
      p', l' := SerializeEntry(buffer, p', l', keys[i], m[keys[i]]);
      MapPrefixStep(keys, m, i);
      WroteTwice(start, before, buffer[..], p, MapPrefix(keys, m, i), EntryBytes(keys[i], m[keys[i]]));
    }
  }

  lemma WroteAll(before: seq<byte>, after: seq<byte>, s: seq<byte>)
    requires Wrote(before, after, 0, s) && |s| == |before|
    ensures after == s
  {
  }

  /** `serialize_state`: the buffer is filled to the last byte, and the length counter ends at zero. */
  method SerializeState(engine: ExecutionEngine, buyKeys: seq<u64>, sellKeys: seq<u64>)
    returns (res: array<byte>, p: nat, l: nat)
    requires Walk(buyKeys, engine.allBuyOrders) && Walk(sellKeys, engine.allSellOrders)
    ensures fresh(res) && res[..] == StateBytes(engine.State(), buyKeys, sellKeys)
    ensures p == res.Length && l == 0
  {
    hide Wrote, MapBytes, Walk;
    var buy, sell := engine.allBuyOrders, engine.allSellOrders;
    res := new byte[SerializedSize(buy) + SerializedSize(sell)];
    p, l := 0, res.Length;
    ghost var start := res[..];
    p, l := SerializeOrderMap(res, p, l, buy, buyKeys);
    ghost var mid := res[..];
    p, l := SerializeOrderMap(res, p, l, sell, sellKeys);
    WalkLength(buyKeys, buy);
    WalkLength(sellKeys, sell);
    WroteTwice(start, mid, res[..], 0, MapBytes(buyKeys, buy), MapBytes(sellKeys, sell));
    WroteAll(start, res[..], StateBytes(engine.State(), buyKeys, sellKeys));
  }

  // ---------------------------------------------------------------- reading

  /** What a reader got, and the bytes it has not consumed. */
  datatype Parsed<T> = Parsed(ok: bool, value: T, rest: seq<byte>)

  function ParseEntry(s: seq<byte>): Parsed<(u64, Order)>
    requires |s| >= 16
  {
    IntegersFit(s);
    Parsed(true, (FromLE(s[..8]), Order(FromLE(s[8..12]), FromLE(s[12..16]))), s[16..])
  }

  lemma IntegersFit(s: seq<byte>)
    requires |s| >= 16
    ensures FromLE(s[..8]) < U64 && FromLE(s[8..12]) < U32 && FromLE(s[12..16]) < U32
  {
    Powers();
    FromLERange(s[..8]);
    FromLERange(s[8..12]);
    FromLERange(s[12..16]);
  }

  /** Where a failing read stops inside an entry: after the integers that were complete. */
  function Leftover(s: seq<byte>): seq<byte> {
    if |s| < 8 then s else if |s| < 12 then s[8..] else s[12..]
  }

  function ParseEntries(s: seq<byte>, n: nat, m: OrderMap): Parsed<OrderMap> {
    if n == 0 then Parsed(true, m, s)
    else if |s| < 16 then Parsed(false, m, Leftover(s))
    else
      var e := ParseEntry(s);
      ParseEntries(e.rest, n - 1, Emplace(m, e.value.0, e.value.1))
  }

  /** `deserialize_order_map` on a map that held `m`. */
  function ParseMap(s: seq<byte>, m: OrderMap): Parsed<OrderMap> {
    if |s| < 8 then Parsed(false, m, s) else ParseEntries(s[8..], FromLE(s[..8]), map[])
  }

  /** `deserialize_state` on an engine that held `b`. */
  function ParseState(s: seq<byte>, b: Books): Parsed<Books> {
    var buy := ParseMap(s, b.buy);
    if !buy.ok then Parsed(false, b.(buy := buy.value), buy.rest)
    else
      var sell := ParseMap(buy.rest, b.sell);
      Parsed(sell.ok, Books(buy.value, sell.value), sell.rest)
  }

  /** One integer at the cursor; nothing moves when too few bytes are left. */
  method DeserializeInteger(data: seq<byte>, p: nat, l: nat, size: nat)
    returns (ok: bool, v: nat, p': nat, l': nat)
    requires p + l <= |data|
    ensures ok <==> size <= l
    ensures ok ==> v == FromLE(data[p..p + l][..size]) && p' == p + size && l' == l - size
    ensures ok ==> data[p'..p' + l'] == data[p..p + l][size..]
    ensures !ok ==> p' == p && l' == l
  {
    if l < size {
      return false, 0, p, l;
    }
    assert data[p..p + size] == data[p..p + l][..size];
    return true, FromLE(data[p..p + size]), p + size, l - size;
  }

  method DeserializeEntry(data: seq<byte>, p: nat, l: nat)
    returns (ok: bool, reference: u64, o: Order, p': nat, l': nat)
    requires p + l <= |data|
    ensures p' + l' == p + l && (ok <==> 16 <= l)
    ensures ok ==> Parsed(true, (reference, o), data[p'..p' + l']) == ParseEntry(data[p..p + l])
    ensures !ok ==> data[p'..p' + l'] == Leftover(data[p..p + l])
  {
    hide FromLE;
    reference, o := 0, Order(0, 0);
    ghost var s := data[p..p + l];
    var r, price, shares;
    ok, r, p', l' := DeserializeInteger(data, p, l, 8);
    if !ok {
      return;
    }
    ok, price, p', l' := DeserializeInteger(data, p', l', 4);
    if !ok {
      return;
    }
    ok, shares, p', l' := DeserializeInteger(data, p', l', 4);
    if !ok {
      return;
    }
    IntegersFit(s);
    assert s[8..][..4] == s[8..12] && s[12..][..4] == s[12..16];
    reference, o := r, Order(price, shares);
  }

  method DeserializeOrderMap(data: seq<byte>, p: nat, l: nat, m: OrderMap)
    returns (ok: bool, orders: OrderMap, p': nat, l': nat)
    requires p + l <= |data|
    ensures p' + l' == p + l
    ensures Parsed(ok, orders, data[p'..p' + l']) == ParseMap(data[p..p + l], m)
  {
    hide ParseEntry, Leftover, FromLE, Emplace;
    var count;
    orders := m;
    ok, count, p', l' := DeserializeInteger(data, p, l, 8);
    if !ok {
      return;
    }
    orders := map[];
    for i := 0 to count
      invariant ok && p' + l' == p + l
      invariant ParseEntries(data[p'..p' + l'], count - i, orders) == ParseMap(data[p..p + l], m)
    {
      var reference, o;
      ok, reference, o, p', l' := DeserializeEntry(data, p', l');
      if !ok {
        return;
      }
      orders := Emplace(orders, reference, o);
    }
  }

  /** `deserialize_state`; a failed read leaves what had been read so far in the engine. */
  method DeserializeState(engine: ExecutionEngine, data: seq<byte>, p: nat, l: nat)
    returns (ok: bool, p': nat, l': nat)
    requires p + l <= |data|
    modifies engine
    ensures p' + l' == p + l
    ensures Parsed(ok, engine.State(), data[p'..p' + l']) == ParseState(data[p..p + l], old(engine.State()))
  {
    var orders;
    ok, orders, p', l' := DeserializeOrderMap(data, p, l, engine.allBuyOrders);
    engine.allBuyOrders := orders;
    if !ok {
      return;
    }
    ok, orders, p', l' := DeserializeOrderMap(data, p', l', engine.allSellOrders);
    engine.allSellOrders := orders;
  }

  // ---------------------------------------------------------------- round trip

  lemma {:induction false} EntryRoundTrip(r: u64, o: Order, rest: seq<byte>)
    ensures ParseEntry(EntryBytes(r, o) + rest) == Parsed(true, (r, o), rest)
  {
    var s := EntryBytes(r, o) + rest;
    assert s[..8] == LE(r, 8) && s[8..12] == LE(o.price, 4) && s[12..16] == LE(o.shares, 4);
    assert s[16..] == rest;
    Powers();
    FromLEOfLE(r, 8);
    FromLEOfLE(o.price, 4);
    FromLEOfLE(o.shares, 4);
  }

  /** The entries a walk has put into a fresh map. */
  function Walked(keys: seq<u64>, m: OrderMap): OrderMap
    requires forall r :: r in keys ==> r in m
  {
    map r | r in keys :: m[r]
  }

  lemma {:induction false} WalkedStep(keys: seq<u64>, i: nat, m: OrderMap)
    requires Walk(keys, m) && i < |keys|
    ensures Walked(keys[..i + 1], m) == Emplace(Walked(keys[..i], m), keys[i], m[keys[i]])
  {
    assert keys[i] !in keys[..i];
    assert keys[..i + 1] == keys[..i] + [keys[i]];
  }

  lemma {:induction false} EntriesRoundTrip(keys: seq<u64>, i: nat, m: OrderMap, rest: seq<byte>)
    requires Walk(keys, m) && i <= |keys|
    ensures ParseEntries(EntriesFrom(keys, i, m) + rest, |keys| - i, Walked(keys[..i], m)) == Parsed(true, m, rest)
    decreases |keys| - i
  {
    hide ParseEntry, EntryBytes;
    if i == |keys| {
      assert keys[..i] == keys && Walked(keys, m) == m;
      assert [] + rest == rest;
    } else {
      var r := keys[i];
      var tail := EntriesFrom(keys, i + 1, m) + rest;
      assert EntriesFrom(keys, i, m) + rest == EntryBytes(r, m[r]) + tail;
      EntryRoundTrip(r, m[r], tail);
      WalkedStep(keys, i, m);
      EntriesRoundTrip(keys, i + 1, m, rest);
    }
  }

  /** The entries from the `i`th on. */
  function EntriesFrom(keys: seq<u64>, i: nat, m: OrderMap): seq<byte>
    requires (forall r :: r in keys ==> r in m) && i <= |keys|
    decreases |keys| - i
  {
    if i == |keys| then [] else EntryBytes(keys[i], m[keys[i]]) + EntriesFrom(keys, i + 1, m)
  }

  lemma Regroup(a: seq<byte>, b: seq<byte>, c: seq<byte>)
    ensures (a + b) + c == a + (b + c)
  {
  }

  lemma {:induction false} EntriesSplit(keys: seq<u64>, i: nat, m: OrderMap)
    requires Walk(keys, m) && i <= |keys|
    ensures EntriesBytes(keys, m) == EntriesBytes(keys[..i], m) + EntriesFrom(keys, i, m)
    decreases |keys| - i
  {
    hide EntryBytes;
    if i == |keys| {
      assert keys[..i] == keys;
    } else {
      EntriesSplit(keys, i + 1, m);
      assert keys[..i + 1][..i] == keys[..i];
      Regroup(EntriesBytes(keys[..i], m), EntryBytes(keys[i], m[keys[i]]), EntriesFrom(keys, i + 1, m));
    }
  }

  /** A map written in any walk order is read back whole, and the bytes after it are left. */
  lemma {:induction false} MapRoundTrip(keys: seq<u64>, m: OrderMap, old': OrderMap, rest: seq<byte>)
    requires Walk(keys, m) && |m| < U64
    ensures ParseMap(MapBytes(keys, m) + rest, old') == Parsed(true, m, rest)
  {
    WalkLength(keys, m);
    Powers();
    FromLEOfLE(|keys|, 8);
    EntriesSplit(keys, 0, m);
    assert keys[..0] == [] && Walked([], m) == map[];
    EntriesRoundTrip(keys, 0, m, rest);
    assert EntriesBytes(keys, m) == EntriesFrom(keys, 0, m);
    ParseMapOf(LE(|keys|, 8), EntriesBytes(keys, m), |keys|, m, old', rest);
  }

  lemma {:induction false} ParseMapOf(head: seq<byte>, body: seq<byte>, n: nat, m: OrderMap, old': OrderMap,
                                      rest: seq<byte>)
    requires |head| == 8 && FromLE(head) == n && ParseEntries(body + rest, n, map[]) == Parsed(true, m, rest)
    ensures ParseMap(head + body + rest, old') == Parsed(true, m, rest)
  {
    hide ParseEntries, FromLE;
    var s := head + body + rest;
    assert s[..8] == head && s[8..] == body + rest;
  }

  /** `deserialize_state` of `serialize_state` restores both maps, for any walk orders, any earlier
      state and any trailing bytes, which stay unread. */
  lemma {:induction false} StateRoundTrip(b: Books, buyKeys: seq<u64>, sellKeys: seq<u64>, before: Books,
                                          rest: seq<byte>)
    requires Walk(buyKeys, b.buy) && Walk(sellKeys, b.sell) && |b.buy| < U64 && |b.sell| < U64
    ensures ParseState(StateBytes(b, buyKeys, sellKeys) + rest, before) == Parsed(true, b, rest)
  {
    hide ParseMap, MapBytes;
    var tail := MapBytes(sellKeys, b.sell) + rest;
    assert StateBytes(b, buyKeys, sellKeys) + rest == MapBytes(buyKeys, b.buy) + tail;
    MapRoundTrip(buyKeys, b.buy, before.buy, tail);
    MapRoundTrip(sellKeys, b.sell, before.sell, rest);
  }

  // ---------------------------------------------------------------- arbitrary input

  /** Reading `n` entries succeeds exactly when their bytes are there, and consumes exactly those. */
  lemma {:induction false} EntriesExactly(s: seq<byte>, n: nat, m: OrderMap)
    ensures ParseEntries(s, n, m).ok <==> 16 * n <= |s|
    ensures 16 * n <= |s| ==> ParseEntries(s, n, m).rest == s[16 * n..]
    decreases n
  {
    hide Emplace, FromLE;
    if n > 0 && |s| >= 16 {
      var e := ParseEntry(s);
      EntriesExactly(s[16..], n - 1, Emplace(m, e.value.0, e.value.1));
      assert 16 * n <= |s| ==> s[16..][16 * (n - 1)..] == s[16 * n..];
    }
  }

  /** The same for a map: its count, then that many entries. */
  lemma {:induction false} MapExactly(s: seq<byte>, m: OrderMap)
    ensures ParseMap(s, m).ok <==> 8 <= |s| && 8 + 16 * FromLE(s[..8]) <= |s|
    ensures ParseMap(s, m).ok ==> ParseMap(s, m).rest == s[8 + 16 * FromLE(s[..8])..]
    ensures |s| < 8 ==> ParseMap(s, m) == Parsed(false, m, s)
  {
    hide FromLE, ParseEntries;
    if |s| >= 8 {
      var n := FromLE(s[..8]);
      EntriesExactly(s[8..], n, map[]);
      assert 8 + 16 * n <= |s| ==> s[8..][16 * n..] == s[8 + 16 * n..];
    }
  }

  /** Entry `j` of the bytes, and the keys of the map read: the references of the entries that were there
      in full, each with its first order. */
  function EntryAt(s: seq<byte>, j: nat): (u64, Order)
    requires 16 * j + 16 <= |s|
  {
    ParseEntry(s[16 * j..]).value
  }

  lemma {:induction false} EntriesRead(s: seq<byte>, n: nat, m: OrderMap, r: u64)
    ensures var v := ParseEntries(s, n, m).value;
            && (r in m ==> r in v && v[r] == m[r])
            && (r in v && r !in m ==>
                  exists j :: 0 <= j < n && 16 * j + 16 <= |s| && EntryAt(s, j) == (r, v[r]))
            && (forall j :: 0 <= j < n && 16 * j + 16 <= |s| && EntryAt(s, j).0 == r ==> r in v)
    decreases n
  {
    hide ParseEntry, FromLE;
    if n > 0 && |s| >= 16 {
      var e := ParseEntry(s);
      assert s[0..] == s && EntryAt(s, 0) == e.value && e.rest == s[16..] by {
        ParsesRest(s);
      }
      var m' := Emplace(m, e.value.0, e.value.1);
      EntriesRead(s[16..], n - 1, m', r);
      var v := ParseEntries(s, n, m).value;
      forall j | 1 <= j < n && 16 * j + 16 <= |s|
        ensures EntryAt(s, j) == EntryAt(s[16..], j - 1)
      {
        assert s[16..][16 * (j - 1)..] == s[16 * j..];
      }
      if r in v && r !in m' {
        var j :| 0 <= j < n - 1 && 16 * j + 16 <= |s[16..]| && EntryAt(s[16..], j) == (r, v[r]);
        assert EntryAt(s, j + 1) == (r, v[r]);
      }
    }
  }

  lemma ParsesRest(s: seq<byte>)
    requires |s| >= 16
    ensures ParseEntry(s).rest == s[16..]
  {
  }

  // ---------------------------------------------------------------- truncated input

  /** A successful read never looks at the bytes it leaves. */
  lemma {:induction false} EntriesExtend(s: seq<byte>, n: nat, m: OrderMap, more: seq<byte>)
    requires ParseEntries(s, n, m).ok
    ensures ParseEntries(s + more, n, m) == ParseEntries(s, n, m).(rest := ParseEntries(s, n, m).rest + more)
    decreases n
  {
    if n > 0 {
      var t := s + more;
      assert t[..8] == s[..8] && t[8..12] == s[8..12] && t[12..16] == s[12..16] && t[16..] == s[16..] + more;
      var e := ParseEntry(s);
      EntriesExtend(e.rest, n - 1, Emplace(m, e.value.0, e.value.1), more);
    }
  }

  lemma {:induction false} MapExtend(s: seq<byte>, m: OrderMap, more: seq<byte>)
    requires ParseMap(s, m).ok
    ensures ParseMap(s + more, m) == ParseMap(s, m).(rest := ParseMap(s, m).rest + more)
  {
    hide ParseEntries;
    assert (s + more)[..8] == s[..8] && (s + more)[8..] == s[8..] + more;
    EntriesExtend(s[8..], FromLE(s[..8]), map[], more);
  }

  lemma {:induction false} StateExtend(s: seq<byte>, b: Books, more: seq<byte>)
    requires ParseState(s, b).ok
    ensures ParseState(s + more, b) == ParseState(s, b).(rest := ParseState(s, b).rest + more)
  {
    hide ParseMap;
    MapExtend(s, b.buy, more);
    MapExtend(ParseMap(s, b.buy).rest, b.sell, more);
  }

  /** Every strict prefix of a serialized state is rejected. */
  lemma {:induction false} PrefixRejected(b: Books, buyKeys: seq<u64>, sellKeys: seq<u64>, before: Books, n: nat)
    requires Walk(buyKeys, b.buy) && Walk(sellKeys, b.sell) && |b.buy| < U64 && |b.sell| < U64
    requires n < |StateBytes(b, buyKeys, sellKeys)|
    ensures !ParseState(StateBytes(b, buyKeys, sellKeys)[..n], before).ok
  {
    var s := StateBytes(b, buyKeys, sellKeys);
    StateRoundTrip(b, buyKeys, sellKeys, before, []);
    assert s + [] == s && s[..n] + s[n..] == s;
    if ParseState(s[..n], before).ok {
      StateExtend(s[..n], before, s[n..]);
    }
  }
}
