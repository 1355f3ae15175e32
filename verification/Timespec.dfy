/** Seconds and nanoseconds: arithmetic that saturates at zero, comparison and distance. */
module Timespec {

  import opened Arith
  import opened NumberTheory

  const SECOND: int := 1_000_000_000

  datatype Stamp = Stamp(sec: int, nsec: int) {
    function Total(): int { sec * SECOND + nsec }

    predicate Normal() { 0 <= nsec < SECOND }

    /** `operator<` and `operator>` */
    predicate Less(right: Stamp) { sec < right.sec || (sec == right.sec && nsec < right.nsec) }

    predicate Greater(right: Stamp) { sec > right.sec || (sec == right.sec && nsec > right.nsec) }

    function Delta(other: Stamp): int {
      if Greater(other) then (sec - other.sec) * SECOND + (nsec - other.nsec)
      else (other.sec - sec) * SECOND + (other.nsec - nsec)
    }
  }

  /** The normal stamp of a number of nanoseconds. */
  function OfTotal(total: int): Stamp {
    Stamp(total / SECOND, total % SECOND)
  }

  class Timespec {
    var sec: int
    var nsec: int

    function State(): Stamp
      reads this
    {
      Stamp(sec, nsec)
    }

    constructor (sec: int, nsec: int)
      ensures State() == Stamp(sec, nsec)
    {
      this.sec, this.nsec := sec, nsec;
    }

    /** From a duration, cut into seconds and a rest that has its sign. */
    constructor FromDuration(duration: int)
      ensures State().Total() == duration
      ensures State().Normal() <==> duration >= 0 || duration % SECOND == 0
      ensures State().Normal() ==> State() == OfTotal(duration)
    {
      sec, nsec := Quot(duration, SECOND), Rem(duration, SECOND);
    }

    method Reset()
      modifies this
      ensures State() == Stamp(0, 0)
    {
      sec, nsec := 0, 0;
    }

    /** `+=` never loses a nanosecond, whatever the signs; it keeps the stamp normal exactly when the
        nanoseconds do not go below zero or land on a whole second. */
    method AddAssign(duration: int)
      modifies this
      ensures State().Total() == old(State().Total()) + duration
      ensures State().Normal() <==> old(nsec) + duration >= 0 || (old(nsec) + duration) % SECOND == 0
    {
      var newNsec := nsec + duration;
      var durSec := Quot(newNsec, SECOND);
      newNsec := newNsec - durSec * SECOND;
      sec := sec + durSec;
      nsec := newNsec;
    }

    /** `-=` saturates at zero. */
    method SubtractAssign(duration0: int)
      requires State().Normal() && sec >= 0 && duration0 >= 0
      modifies this
      ensures State() == OfTotal(if old(State().Total()) > duration0 then old(State().Total()) - duration0 else 0)
    {
      var duration := duration0;
      var durSec := Quot(duration, SECOND);
      if durSec > sec {
        Reset();
        return;
      }
      sec := sec - durSec;
      duration := duration - durSec * SECOND;
      var durNsec := duration;
      assert durNsec < SECOND;
      if durNsec > nsec {
        if sec == 0 {
          Reset();
          return;
        }
        assert sec >= 1;
        sec := sec - 1;
        nsec := nsec + SECOND;
      }
      assert nsec >= durNsec;
      nsec := nsec - durNsec;
      assert nsec < SECOND;
    }
  }

  /** The comparisons are the order on total nanoseconds. */
  lemma {:induction false} OrderIsTotal(a: Stamp, b: Stamp)
    requires a.Normal() && b.Normal()
    ensures a.Less(b) <==> a.Total() < b.Total()
    ensures a.Greater(b) <==> a.Total() > b.Total()
    ensures a == b <==> a.Total() == b.Total()
  {
  }

  /** `delta` is a metric: the distance of the totals. */
  lemma {:induction false} DeltaIsMetric(a: Stamp, b: Stamp, c: Stamp)
    requires a.Normal() && b.Normal() && c.Normal()
    ensures a.Delta(b) == Abs(a.Total() - b.Total())
    ensures a.Delta(b) == b.Delta(a) >= 0
    ensures a.Delta(b) == 0 <==> a == b
    ensures a.Delta(c) <= a.Delta(b) + b.Delta(c)
  {
    OrderIsTotal(a, b);
  }

  /** A normal stamp is the stamp of its total. */
  lemma {:induction false} NormalIsOfTotal(a: Stamp)
    ensures OfTotal(a.Total()) == a <==> a.Normal()
  {
    if a.Normal() {
      QuotientUnique(a.Total(), SECOND, a.sec);
    }
  }

  /** Adding a duration and taking it off again changes nothing; taking it off first does so only
      when it was there. */
  method AddThenSubtract(t: Timespec, d: int)
    requires t.State().Normal() && t.sec >= 0 && d >= 0
    modifies t
    ensures t.State() == old(t.State())
  {
    t.AddAssign(d);
    NormalIsOfTotal(t.State());
    NormalIsOfTotal(old(t.State()));
    assert t.State().Total() >= 0;
    t.SubtractAssign(d);
  }

  method SubtractThenAdd(t: Timespec, d: int)
    requires t.State().Normal() && t.sec >= 0 && d >= 0
    modifies t
    ensures t.State() == old(t.State()) <==> d <= old(t.State().Total())
  {
    NormalIsOfTotal(t.State());
    t.SubtractAssign(d);
    t.AddAssign(d);
    NormalIsOfTotal(t.State());
  }
}
