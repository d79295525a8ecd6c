/**
 The `struct timespec` arithmetic of the event loop (src/loop.c, src/time_heap.c).
 `tv_sec` and `tv_nsec` are 64-bit on the server and are unbounded integers here; every value
 that the source squeezes through a C `int` goes through `Wrap32`.
 */
module Timespecs {
  import opened Basics

  const NS_PER_SEC := 1_000_000_000
  const NS_PER_MS := 1_000_000

  predicate FitsInt32(x: int) {
    -TWO_TO_THE_31 <= x < TWO_TO_THE_31
  }

  // A C `int`, as a two's complement conversion leaves it.
  function Wrap32(x: int): (r: int)
    ensures FitsInt32(r)
    ensures FitsInt32(x) <==> r == x
  {
    (x + TWO_TO_THE_31) % TWO_TO_THE_32 - TWO_TO_THE_31
  }

  // C's `/` and `%`, which round toward zero; Dafny's are Euclidean.
  function CDiv(a: int, b: int): int
    requires b > 0
  {
    if a >= 0 then a / b else -((-a) / b)
  }

  function CMod(a: int, b: int): (r: int)
    requires b > 0
    ensures a == CDiv(a, b) * b + r
    ensures -b < r < b
    ensures if a >= 0 then r >= 0 else r <= 0
  {
    a - CDiv(a, b) * b
  }

  datatype Timespec = Timespec(sec: int, nsec: int) {
    predicate Normal() {
      0 <= nsec < NS_PER_SEC
    }

    // Normal, or normal with one second borrowed into the nanoseconds.
    predicate AtMostOneBorrow() {
      0 <= nsec < 2 * NS_PER_SEC
    }

    function Total(): int {
      sec * NS_PER_SEC + nsec
    }

    predicate Gt(that: Timespec) {
      sec > that.sec || (sec == that.sec && nsec > that.nsec)
    }
  }

  predicate Le(a: Timespec, b: Timespec) {
    !a.Gt(b)
  }

  // On normal values the comparison of fields is the comparison of the instants.
  lemma GtIsLater(a: Timespec, b: Timespec)
    requires a.Normal() && b.Normal()
    ensures a.Gt(b) <==> a.Total() > b.Total()
    ensures a == b <==> a.Total() == b.Total()
  {
  }

  // With a borrowed second the comparison is off by less than one second.
  lemma LeWithinASecond(a: Timespec, b: Timespec)
    requires a.AtMostOneBorrow() && 0 <= b.nsec
    requires Le(a, b)
    ensures a.Total() < b.Total() + NS_PER_SEC
    ensures a.Normal() ==> a.Total() <= b.Total()
  {
  }

  /* ---------- timer_subtract ---------- */

  // What the borrow leaves in the first argument, which the source passes by pointer.
  function Borrow(a: Timespec, b: Timespec): Timespec {
    if a.nsec < b.nsec then Timespec(a.sec - 1, a.nsec + NS_PER_SEC) else a
  }

  lemma Wrap32Congruent(x: int, k: int)
    ensures Wrap32(x + k * TWO_TO_THE_32) == Wrap32(x)
  {
    assert (x + TWO_TO_THE_31 + k * TWO_TO_THE_32) % TWO_TO_THE_32 == (x + TWO_TO_THE_31) % TWO_TO_THE_32;
  }

  lemma FloorMilliseconds(seconds: int, nanoseconds: int)
    ensures (seconds * NS_PER_SEC + nanoseconds) / NS_PER_MS == seconds * 1000 + nanoseconds / NS_PER_MS
  {
  }

  // Each field's difference goes through an int, and so does their sum in milliseconds.
  function MillisBetween(left: Timespec, b: Timespec): int {
    Wrap32(Wrap32(left.sec - b.sec) * 1000 + CDiv(Wrap32(left.nsec - b.nsec), NS_PER_MS))
  }

  method TimerSubtract(a: Timespec, b: Timespec) returns (left: Timespec, milliseconds: int)
    ensures left == Borrow(a, b) && left.Total() == a.Total() && FitsInt32(milliseconds)
    ensures milliseconds == MillisBetween(left, b)
    ensures a.AtMostOneBorrow() && b.Normal() ==>
              var exact := (a.Total() - b.Total()) / NS_PER_MS;
              milliseconds == Wrap32(exact) && (milliseconds == exact <==> FitsInt32(exact))
  {
    left := a;
    if left.nsec < b.nsec {
      left := left.(sec := left.sec - 1);
      left := left.(nsec := left.nsec + NS_PER_SEC);
    }
    var seconds := Wrap32(left.sec - b.sec);
    var nanoseconds := Wrap32(left.nsec - b.nsec);
    milliseconds := Wrap32(seconds * 1000 + CDiv(nanoseconds, NS_PER_MS));
    if a.AtMostOneBorrow() && b.Normal() {
      var whole := left.sec - b.sec;
      var k := (whole + TWO_TO_THE_31) / TWO_TO_THE_32;
      assert whole == seconds + k * TWO_TO_THE_32;
      FloorMilliseconds(whole, left.nsec - b.nsec);
      Wrap32Congruent(seconds * 1000 + CDiv(nanoseconds, NS_PER_MS), k * 1000);
    }
  }

  /* ---------- timer_add ---------- */

  // Truncated seconds and the rest are added to their fields, and at most one second is carried.
  function Added(a: Timespec, milliseconds: int): Timespec {
    var sec := a.sec + CDiv(milliseconds, 1000);
    var nsec := a.nsec + CMod(milliseconds, 1000) * NS_PER_MS;
    if nsec >= NS_PER_SEC then Timespec(sec + 1, nsec - NS_PER_SEC) else Timespec(sec, nsec)
  }

  method TimerAdd(a: Timespec, milliseconds: int) returns (r: Timespec)
    requires FitsInt32(milliseconds)
    ensures r == Added(a, milliseconds) && r.Total() == a.Total() + milliseconds * NS_PER_MS
    ensures a.Normal() ==> (r.Normal() <==> a.nsec + CMod(milliseconds, 1000) * NS_PER_MS >= 0)
    ensures a.Normal() && milliseconds >= 0 ==> r.Normal()
    ensures a.AtMostOneBorrow() && milliseconds >= 0 ==> r.AtMostOneBorrow()
  {
    r := a;
    var seconds := CDiv(milliseconds, 1000);
    var rest := milliseconds - seconds * 1000;
    assert rest == CMod(milliseconds, 1000);
    var nanoseconds := Wrap32(rest * NS_PER_MS);
    r := r.(sec := r.sec + seconds);
    r := r.(nsec := r.nsec + nanoseconds);
    if r.nsec >= NS_PER_SEC {
      r := r.(nsec := r.nsec - NS_PER_SEC);
      r := r.(sec := r.sec + 1);
    }
  }

  /* ---------- tu_modify_timer ---------- */

  datatype TimeUnit = Milliseconds | Seconds | Minutes | Hours | Days

  function UnitSeconds(unit: TimeUnit): nat
    requires !unit.Milliseconds?
  {
    match unit
    case Seconds => 1
    case Minutes => 60
    case Hours => 60 * 60
    case Days => 24 * 60 * 60
  }

  function UnitNs(unit: TimeUnit): nat {
    if unit.Milliseconds? then NS_PER_MS else UnitSeconds(unit) * NS_PER_SEC
  }

  // The source multiplies `time` by the unit in an `int`; milliseconds are never multiplied up.
  predicate ScaleFits(time: int, unit: TimeUnit) {
    unit.Milliseconds? || FitsInt32(time * UnitSeconds(unit))
  }

  // The timespec in normal form that stands for an instant.
  function FromTotal(total: int): (t: Timespec)
    ensures t.Normal() && t.Total() == total
  {
    Timespec(total / NS_PER_SEC, total % NS_PER_SEC)
  }

  // A normal timer moved by a signed number of units.
  function Moved(timer: Timespec, time: int, unit: TimeUnit): Timespec {
    FromTotal(timer.Total() + time * UnitNs(unit))
  }

  // One second carried either way.
  function OneCarry(nsec: int): int {
    if nsec < 0 then nsec + NS_PER_SEC else if nsec >= NS_PER_SEC then nsec - NS_PER_SEC else nsec
  }

  // What a relative update by `time` units may make of a deadline: it moves by the amount exactly when
  // the scaled amount fits an int, and it stays as normal as it was.
  predicate UpdatedBy(timer: Timespec, time: int, unit: TimeUnit, r: Timespec) {
    && (r.Total() == timer.Total() + time * UnitNs(unit) <==> ScaleFits(time, unit))
    && (timer.Normal() ==> r.Normal())
    && (timer.AtMostOneBorrow() ==> r.AtMostOneBorrow())
    && r.nsec == (if unit.Milliseconds? then OneCarry(timer.nsec + CMod(time, 1000) * NS_PER_MS) else timer.nsec)
  }

  method TuModifyTimer(timer: Timespec, time: int, unit: TimeUnit) returns (r: Timespec)
    requires FitsInt32(time)
    ensures UpdatedBy(timer, time, unit, r)
    ensures timer.Normal() && ScaleFits(time, unit) ==> r == Moved(timer, time, unit)
    ensures !unit.Milliseconds? ==> r == timer.(sec := timer.sec + Wrap32(time * UnitSeconds(unit)))
  {
    match unit {
      case Milliseconds =>
        r := AddMilliseconds(timer, time);
      case Seconds =>
        r := timer.(sec := timer.sec + time);
      case Minutes =>
        r := timer.(sec := timer.sec + Wrap32(time * 60));
      case Hours =>
        r := timer.(sec := timer.sec + Wrap32(time * 3600));
      case Days =>
        r := timer.(sec := timer.sec + Wrap32(time * 86400));
    }
    if !unit.Milliseconds? {
      SecondsTotal(timer, r, time, unit);
    }
    if timer.Normal() && ScaleFits(time, unit) {
      GtIsLater(r, Moved(timer, time, unit));
    }
  }

  lemma SecondsTotal(timer: Timespec, r: Timespec, time: int, unit: TimeUnit)
    requires FitsInt32(time) && !unit.Milliseconds?
    requires r == timer.(sec := timer.sec + Wrap32(time * UnitSeconds(unit)))
    ensures r.Total() == timer.Total() + time * UnitNs(unit) <==> ScaleFits(time, unit)
  {
    var scaled := time * UnitSeconds(unit);
    assert time * UnitNs(unit) == scaled * NS_PER_SEC;
    assert r.Total() == timer.Total() + Wrap32(scaled) * NS_PER_SEC;
  }

  // The milliseconds case: C's truncated quotient and remainder, then one carry either way.
  method AddMilliseconds(timer: Timespec, time: int) returns (r: Timespec)
    requires FitsInt32(time)
    ensures r.Total() == timer.Total() + time * NS_PER_MS
    ensures r.nsec == OneCarry(timer.nsec + CMod(time, 1000) * NS_PER_MS)
    ensures timer.Normal() ==> r.Normal()
    ensures timer.AtMostOneBorrow() ==> r.AtMostOneBorrow()
  {
    r := timer;
    r := r.(sec := r.sec + CDiv(time, 1000));
    r := r.(nsec := r.nsec + Wrap32(CMod(time, 1000) * 1000000));
    if r.nsec < 0 {
      r := r.(sec := r.sec - 1);
      r := r.(nsec := r.nsec + 1000000000);
    }
    if r.nsec >= 1000000000 {
      r := r.(sec := r.sec + 1);
      r := r.(nsec := r.nsec - 1000000000);
    }
  }

  // Two relative updates, by t and by -t, bring a deadline back exactly, whenever the first one fits.
  lemma MovedBackAndForth(timer: Timespec, time: int, unit: TimeUnit, there: Timespec, back: Timespec)
    requires FitsInt32(time) && FitsInt32(-time) && timer.Normal() && ScaleFits(time, unit)
    requires UpdatedBy(timer, time, unit, there) && UpdatedBy(there, -time, unit, back)
    ensures ScaleFits(-time, unit) && back == timer
  {
    NegatedFits(time, unit);
    assert time * UnitNs(unit) + (-time) * UnitNs(unit) == 0;
    GtIsLater(back, timer);
  }

  // No whole number of minutes, hours or days is 2^31 seconds.
  lemma NegatedFits(time: int, unit: TimeUnit)
    requires FitsInt32(-time) && ScaleFits(time, unit)
    ensures ScaleFits(-time, unit)
  {
    match unit
    case Milliseconds =>
    case Seconds => assert UnitSeconds(unit) == 1;
    case Minutes => assert time * UnitSeconds(unit) == 60 * time;
    case Hours => assert time * UnitSeconds(unit) == 3600 * time;
    case Days => assert time * UnitSeconds(unit) == 86400 * time;
  }

  // How long the units are, each by the one below it, down to the nanosecond.
  lemma UnitsAgree(timer: Timespec, n: int)
    ensures Moved(timer, n, Milliseconds).Total() == timer.Total() + n * 1_000_000
    ensures Moved(timer, n, Seconds) == Moved(timer, 1000 * n, Milliseconds)
    ensures Moved(timer, n, Minutes) == Moved(timer, 60 * n, Seconds)
    ensures Moved(timer, n, Hours) == Moved(timer, 60 * n, Minutes)
    ensures Moved(timer, n, Days) == Moved(timer, 24 * n, Hours)
    ensures Timespec(n, 0).Total() == n * 1_000_000_000
  {
  }

  // Thirty seconds from (100, 0).
  lemma ThirtySecondsOn()
    ensures Moved(Timespec(100, 0), 30, Seconds) == Timespec(130, 0)
  {
  }

  // 24856 days are more than 2^31 seconds: the timer moves back 24854 days and some hours instead.
  lemma ManyDaysMoveBack(timer: Timespec, r: Timespec)
    requires r == timer.(sec := timer.sec + Wrap32(24856 * UnitSeconds(Days)))
    ensures !ScaleFits(24856, Days) && r.sec == timer.sec - 2_147_408_896
  {
    assert 24856 * UnitSeconds(Days) == 2_147_558_400;
  }
}
