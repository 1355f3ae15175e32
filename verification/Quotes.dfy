/** The quote generator: midpoint displacement in place, over exact reals. */
module Quotes {

  function Min(x: real, y: real): (m: real)
    ensures m <= x && m <= y
  {
    if y < x then y else x
  }

  function Max(x: real, y: real): (m: real)
    ensures x <= m && y <= m
  {
    if x < y then y else x
  }

  /** A filled range: its cells, the pair returned, and how many draws were made in all. */
  datatype Filled = Filled(cells: seq<real>, low: real, high: real, drawn: nat)

  function Middle(n: nat): (m: nat)
    requires n >= 2
    ensures 1 <= m == n / 2 < n && (m >= 2 ==> m + 1 < n)
  {
    if n / 2 > 1 then n / 2 else 1
  }

  /** The middle cell drawn around the average of the ends. */
  function Displace(s: seq<real>, offset: real, generation: nat, drawn: nat): (f: Filled)
    requires |s| >= 2 && generation >= 1
    ensures |f.cells| == |s|
  {
    var front, back := s[0], s[|s| - 1];
    var newValue := Max(0.01, (front + back) / 2.0 + offset / (generation as real));
    Filled(s[Middle(|s|) := newValue], Min(Min(front, back), newValue), Max(Max(front, back), newValue), drawn)
  }

  /** Midpoint displacement of a range: the middle cell is drawn, then the left part including it is
      filled, then the right part from it on. */
  function Fill(s: seq<real>, draws: nat -> real, drawn: nat, generation: nat): (f: Filled)
    requires |s| >= 2 && generation >= 1
    ensures |f.cells| == |s|
    decreases |s|
  {
    var m := Middle(|s|);
    FillRight(FillLeft(Displace(s, draws(drawn), generation, drawn + 1), m, draws, generation), m, draws, generation)
  }

  /** A part of one cell needs no filling. */
  function FillLeft(f: Filled, m: nat, draws: nat -> real, generation: nat): (g: Filled)
    requires 1 <= m < |f.cells| && (m >= 2 ==> m + 1 < |f.cells|) && generation >= 1
    ensures |g.cells| == |f.cells|
    decreases |f.cells|, 0
  {
    if m >= 2 then JoinLeft(f, m, Fill(f.cells[..m + 1], draws, f.drawn, generation + 1)) else f
  }

  function FillRight(f: Filled, m: nat, draws: nat -> real, generation: nat): (g: Filled)
    requires 1 <= m < |f.cells| && generation >= 1
    ensures |g.cells| == |f.cells|
    decreases |f.cells|, 0
  {
    if |f.cells| - m >= 2 then JoinRight(f, m, Fill(f.cells[m..], draws, f.drawn, generation + 1)) else f
  }

  /** The cells up to and including `m` replaced by a filled range. */
  function JoinLeft(f: Filled, m: nat, left: Filled): (g: Filled)
    requires m < |f.cells| && |left.cells| == m + 1
    ensures |g.cells| == |f.cells|
  {
    Filled(left.cells + f.cells[m + 1..], Min(f.low, left.low), Max(f.high, left.high), left.drawn)
  }

  /** The cells from `m` on replaced by a filled range. */
  function JoinRight(f: Filled, m: nat, right: Filled): (g: Filled)
    requires m < |f.cells| && |right.cells| == |f.cells| - m
    ensures |g.cells| == |f.cells|
  {
    Filled(f.cells[..m] + right.cells, Min(f.low, right.low), Max(f.high, right.high), right.drawn)
  }

  /** The pair is positive and encloses the first `n` cells and the last one. */
  ghost predicate Covers(f: Filled, n: nat) {
    && 0.0 < f.low && 0 < |f.cells| && n <= |f.cells|
    && (forall i :: 0 <= i < n ==> f.low <= f.cells[i] <= f.high)
    && f.low <= f.cells[|f.cells| - 1] <= f.high
  }

  /** The first cell stays and the pair encloses the two ends there were. */
  ghost predicate Widens(s: seq<real>, f: Filled)
    requires s != []
  {
    && |f.cells| == |s| && f.cells[0] == s[0]
    && f.low <= Min(s[0], s[|s| - 1]) && Max(s[0], s[|s| - 1]) <= f.high
  }

  lemma DisplaceCovers(s: seq<real>, offset: real, generation: nat, drawn: nat)
    requires |s| >= 2 && generation >= 1 && s[0] > 0.0 && s[|s| - 1] > 0.0
    ensures var f := Displace(s, offset, generation, drawn);
            Covers(f, if Middle(|s|) == 1 then 2 else 1) && Widens(s, f) && f.low <= f.cells[Middle(|s|)] <= f.high
  {
    hide Middle;
  }

  lemma JoinLeftCovers(s: seq<real>, f: Filled, m: nat, left: Filled)
    requires m + 1 < |f.cells| && |left.cells| == m + 1 && Covers(f, 1) && Covers(left, m + 1)
    requires s != [] && Widens(s, f) && left.cells[0] == s[0]
    ensures Covers(JoinLeft(f, m, left), m + 1) && Widens(s, JoinLeft(f, m, left))
  {
  }

  lemma JoinRightCovers(s: seq<real>, f: Filled, m: nat, right: Filled)
    requires 1 <= m < |f.cells| && |right.cells| == |f.cells| - m && Covers(f, m + 1) && Covers(right, |right.cells|)
    requires s != [] && Widens(s, f)
    ensures Covers(JoinRight(f, m, right), |f.cells|) && Widens(s, JoinRight(f, m, right))
  {
  }

  /** The first cell stays, every cell becomes positive, and the pair encloses every cell as it is in
      the end, although recursive calls overwrite the shared midpoint and the last cell. */
  lemma {:induction false} FillEncloses(s: seq<real>, draws: nat -> real, drawn: nat, generation: nat)
    requires |s| >= 2 && generation >= 1 && s[0] > 0.0 && s[|s| - 1] > 0.0
    ensures Covers(Fill(s, draws, drawn, generation), |s|) && Widens(s, Fill(s, draws, drawn, generation))
    decreases |s|
  {
    hide Displace, Middle, JoinLeft, JoinRight, Min, Max;
    var m := Middle(|s|);
    var f0 := Displace(s, draws(drawn), generation, drawn + 1);
    DisplaceCovers(s, draws(drawn), generation, drawn + 1);
    if m >= 2 {
      FillEncloses(f0.cells[..m + 1], draws, f0.drawn, generation + 1);
      JoinLeftCovers(s, f0, m, Fill(f0.cells[..m + 1], draws, f0.drawn, generation + 1));
    }
    var f1 := FillLeft(f0, m, draws, generation);
    if |s| - m >= 2 {
      FillEncloses(f1.cells[m..], draws, f1.drawn, generation + 1);
      JoinRightCovers(s, f1, m, Fill(f1.cells[m..], draws, f1.drawn, generation + 1));
    }
  }

  /** The four draws on a range of four cells: the middle from the ends; then, a generation later, the
      second cell and, two later, the middle again; then, a generation after the first, the last cell. */
  lemma {:induction false} FillOfFour(a: real, x: real, y: real, b: real, draws: nat -> real, n: nat, g: nat)
    requires g >= 1
    ensures var m := Drawn(a, b, draws(n), g);
            var c1 := Drawn(a, m, draws(n + 1), g + 1);
            var c2 := Drawn(c1, m, draws(n + 2), g + 2);
            var c3 := Drawn(c2, b, draws(n + 3), g + 1);
            Fill([a, x, y, b], draws, n, g).cells == [a, c1, c2, c3] && Fill([a, x, y, b], draws, n, g).drawn == n + 4
  {
    var m := Drawn(a, b, draws(n), g);
    var c1 := Drawn(a, m, draws(n + 1), g + 1);
    var c2 := Drawn(c1, m, draws(n + 2), g + 2);
    var f0 := Displace([a, x, y, b], draws(n), g, n + 1);
    assert f0.cells == [a, x, m, b] && f0.cells[..3] == [a, x, m];
    FillOfThree(a, x, m, draws, n + 1, g + 1);
    var f1 := FillLeft(f0, 2, draws, g);
    assert f1.cells == [a, c1, c2, b] && f1.cells[2..] == [c2, b];
    FillOfTwo(c2, b, draws, n + 3, g + 1);
  }

  function Drawn(front: real, back: real, offset: real, generation: nat): real
    requires generation >= 1
  {
    var drawn := (front + back) / 2.0 + offset / (generation as real);
    if drawn < 0.01 then 0.01 else drawn
  }

  lemma {:induction false} FillOfTwo(a: real, b: real, draws: nat -> real, n: nat, g: nat)
    requires g >= 1
    ensures Fill([a, b], draws, n, g).cells == [a, Drawn(a, b, draws(n), g)] && Fill([a, b], draws, n, g).drawn == n + 1
  {
  }

  lemma {:induction false} FillOfThree(a: real, x: real, b: real, draws: nat -> real, n: nat, g: nat)
    requires g >= 1
    ensures var c1 := Drawn(a, b, draws(n), g);
            var f := Fill([a, x, b], draws, n, g);
            f.cells == [a, c1, Drawn(c1, b, draws(n + 1), g + 1)] && f.drawn == n + 2
  {
    var c1 := Drawn(a, b, draws(n), g);
    var f0 := Displace([a, x, b], draws(n), g, n + 1);
    assert f0.cells == [a, c1, b] && f0.cells[1..] == [c1, b];
    FillOfTwo(c1, b, draws, n + 1, g + 1);
  }

  // ---------------------------------------------------------------- in place

  lemma WriteOne(was: seq<real>, first: nat, end: nat, k: nat, v: real)
    requires first <= k < end <= |was|
    ensures var now := was[k := v];
            now[first..end] == was[first..end][k - first := v]
            && now[..first] == was[..first] && now[end..] == was[end..]
  {
  }

  lemma SpliceLeft(was: seq<real>, now: seq<real>, first: nat, end: nat, mid: nat)
    requires first <= mid <= end <= |was| == |now| && now[mid..] == was[mid..]
    ensures now[first..end] == now[first..mid] + was[first..end][mid - first..] && now[end..] == was[end..]
  {
    assert now[mid..end] == now[mid..][..end - mid] == was[mid..][..end - mid] == was[first..end][mid - first..];
    assert now[end..] == now[mid..][end - mid..] == was[mid..][end - mid..];
  }

  lemma SpliceRight(was: seq<real>, now: seq<real>, first: nat, end: nat, mid: nat)
    requires first <= mid <= end <= |was| == |now| && now[..mid] == was[..mid]
    ensures now[first..end] == was[first..end][..mid - first] + now[mid..end] && now[..first] == was[..first]
  {
    assert now[first..mid] == now[..mid][first..] == was[..mid][first..] == was[first..end][..mid - first];
    assert now[..first] == now[..mid][..first] == was[..mid][..first];
  }

  /** A new vector is all zeros; then its ends are set. */
  function Ends(front: real, back: real, volume: nat): (s: seq<real>)
    requires volume >= 2
    ensures |s| == volume
  {
    seq(volume, i => if i == 0 then front else if i == volume - 1 then back else 0.0)
  }

  lemma SeriesEnclosed(front: real, back: real, volume: nat, draws: nat -> real, drawn: nat)
    requires volume >= 2 && front > 0.0 && back > 0.0
    ensures var f := Fill(Ends(front, back, volume), draws, drawn, 1);
            f.cells[0] == front && 0.0 < f.low
            && forall i :: 0 <= i < volume ==> f.low <= f.cells[i] <= f.high
  {
    hide Fill, Min, Max;
    FillEncloses(Ends(front, back, volume), draws, drawn, 1);
  }

  class QuoteGenerator {
    const draws: nat -> real
    const last: real
    var drawn: nat

    /** The source of random offsets is a fixed but arbitrary sequence of draws. */
    constructor (initial: real, draws: nat -> real)
      ensures last == initial && this.draws == draws && drawn == 0
    {
      last, this.draws, drawn := initial, draws, 0;
    }

    method Draw() returns (offset: real)
      modifies this
      ensures offset == draws(old(drawn)) && drawn == old(drawn) + 1
    {
      offset := draws(drawn);
      drawn := drawn + 1;
    }

    /** `fill_values` on the cells `[first, end)`. The three conditions it asserts are required here, so
        they hold in every recursive call. */
    method FillValues(values: array<real>, first: nat, end: nat, generation: nat) returns (low: real, high: real)
      requires generation >= 1 && first + 2 <= end <= values.Length
      requires values[first] > 0.0 && values[end - 1] > 0.0
      modifies values, this
      ensures Filled(values[first..end], low, high, drawn)
           == Fill(old(values[first..end]), draws, old(drawn), generation)
      ensures values[..first] == old(values[..first]) && values[end..] == old(values[end..])
      decreases end - first, 1
    {
      hide Displace, FillLeft, FillRight, Covers, Widens;
      var middle := first + if (end - first) / 2 > 1 then (end - first) / 2 else 1;
      low, high := DrawMiddle(values, first, middle, end, generation);
      low, high := FillFirstPart(values, first, middle, end, generation, low, high);
      low, high := FillSecondPart(values, first, middle, end, generation, low, high);
    }

    method DrawMiddle(values: array<real>, first: nat, middle: nat, end: nat, generation: nat)
      returns (low: real, high: real)
      requires generation >= 1 && first + 2 <= end <= values.Length && middle == first + Middle(end - first)
      requires values[first] > 0.0 && values[end - 1] > 0.0
      modifies values, this
      ensures values[first] > 0.0 && values[middle] > 0.0 && values[end - 1] > 0.0
      ensures var average := (old(values[first]) + old(values[end - 1])) / 2.0;
              var drawn := average + draws(old(drawn)) / (generation as real);
              values[middle] == if drawn < 0.01 then 0.01 else drawn
      ensures low <= old(values[first]) <= high && low <= old(values[end - 1]) <= high && low <= values[middle] <= high
      ensures low in {old(values[first]), old(values[end - 1]), values[middle]}
      ensures high in {old(values[first]), old(values[end - 1]), values[middle]}
      ensures Filled(values[first..end], low, high, drawn)
           == Displace(old(values[first..end]), draws(old(drawn)), generation, old(drawn) + 1)
      ensures values[..first] == old(values[..first]) && values[end..] == old(values[end..])
    {
      hide Middle;
      var front, back := values[first], values[end - 1];
      low, high := Min(front, back), Max(front, back);
      var offset := Draw();
      var newValue := Max(0.01, (front + back) / 2.0 + offset / (generation as real));
      low, high := Min(low, newValue), Max(high, newValue);
      ghost var was := values[..];
      values[middle] := newValue;
      assert values[..] == was[middle := newValue];
      WriteOne(was, first, end, middle, newValue);
    }

    method FillFirstPart(values: array<real>, first: nat, middle: nat, end: nat, generation: nat,
                          low0: real, high0: real)
      returns (low: real, high: real)
      requires generation >= 1 && first < middle < end <= values.Length && (middle - first >= 2 ==> middle + 1 < end)
      requires values[first] > 0.0 && values[middle] > 0.0 && values[end - 1] > 0.0
      modifies values, this
      ensures values[middle] > 0.0 && values[end - 1] > 0.0
      ensures Filled(values[first..end], low, high, drawn)
           == FillLeft(Filled(old(values[first..end]), low0, high0, old(drawn)), middle - first, draws, generation)
      ensures values[..first] == old(values[..first]) && values[end..] == old(values[end..])
      decreases end - first, 0
    {
      hide Fill, Min, Max, Widens;
      low, high := low0, high0;
      if middle - first >= 2 {
        ghost var was := values[..];
        FillEncloses(values[first..middle + 1], draws, drawn, generation + 1);
        assert values[first..middle + 1] == values[first..end][..middle + 1 - first];
        var newMin, newMax := FillValues(values, first, middle + 1, generation + 1);
        low, high := Min(low, newMin), Max(high, newMax);
        SpliceLeft(was, values[..], first, end, middle + 1);
        assert values[middle] == values[first..middle + 1][middle - first];
        assert values[end - 1] == values[middle + 1..][end - middle - 2] == was[middle + 1..][end - middle - 2];
      }
    }

    method FillSecondPart(values: array<real>, first: nat, middle: nat, end: nat, generation: nat,
                          low0: real, high0: real)
      returns (low: real, high: real)
      requires generation >= 1 && first < middle < end <= values.Length
      requires values[middle] > 0.0 && values[end - 1] > 0.0
      modifies values, this
      ensures Filled(values[first..end], low, high, drawn)
           == FillRight(Filled(old(values[first..end]), low0, high0, old(drawn)), middle - first, draws, generation)
      ensures values[..first] == old(values[..first]) && values[end..] == old(values[end..])
      decreases end - first, 0
    {
      hide Fill, Min, Max;
      low, high := low0, high0;
      if end - middle >= 2 {
        ghost var was := values[..];
        assert values[middle..end] == values[first..end][middle - first..];
        var newMin, newMax := FillValues(values, middle, end, generation + 1);
        low, high := Min(low, newMin), Max(high, newMax);
        SpliceRight(was, values[..], first, end, middle);
      }
    }

    /** `operator()`: a series of `volume` prices from the last quote on, and what is quoted of it. */
    method Quote(volume: nat) returns (values: array<real>, open: real, high: real, low: real, close: real)
      requires last > 0.0 && volume >= 2
      modifies this
      ensures fresh(values) && values.Length == volume
      ensures Filled(values[..], low, high, drawn)
           == Fill(Ends(last, Max(0.0001, last + draws(old(drawn)) * 2.0), volume), draws, old(drawn) + 1, 1)
      ensures open == last == values[0] && close == values[volume - 1]
      ensures 0.0 < low <= open <= high && low <= close <= high
      ensures forall i :: 0 <= i < volume ==> low <= values[i] <= high
    {
      hide Fill, Min, Max;
      values := new real[volume](_ => 0.0);
      values[0] := last;
      var offset := Draw();
      ghost var back := Max(0.0001, last + offset * 2.0);
      values[volume - 1] := Max(0.0001, last + offset * 2.0);
      assert values[0..volume] == values[..] == Ends(last, back, volume);
      hide Ends;
      SeriesEnclosed(last, back, volume, draws, drawn);
      low, high := FillValues(values, 0, volume, 1);
      assert values[0..volume] == values[..];
      open, close := values[0], values[volume - 1];
    }
  }
}
