/** With six-decimal storage token bucket and GCRA part wherever a rate makes either of them round:
    runs that tell them apart. */
module Divergence {
  import opened Foundation
  import opened Histories
  import opened Rates
  import opened Stored
  import Meter
  import TokenBucket
  import Gcra
  import Rounding

  /** They differ on this run, by more than what a refusal reports as remaining. */
  ghost predicate Differ(r: Rate, h: seq<Call>)
    requires r.Valid() && h != []
  {
    && Legal(TokenBucket.Script(r, SixDecimals), h) && Legal(Gcra.Script(r, SixDecimals), h)
    && Printable(SixDecimals, h)
    && Answer(Gcra.Script(r, SixDecimals), h)
       != Gcra.Blanked(Answer(TokenBucket.Script(r, SixDecimals), h), Last(h).quantity)
  }

  lemma DifferingMeters(r: Rate, h: seq<Call>)
    requires r.Valid() && h != [] && Last(h).quantity == 0
    requires Ordered(h) && Printable(SixDecimals, h) && forall i :: 0 <= i < |h| ==> !h[i].drop
    requires Meter.AnswerAfter(r, Meter.RoundedUnits, h) != Meter.AnswerAfter(r, Meter.RoundedInstant, h)
    ensures Differ(r, h)
  {
    hide TokenBucket.Step, Gcra.Step, Meter.Answer, Meter.AnswerAfter;
    LegalUndropped(TokenBucket.Script(r, SixDecimals), h);
    LegalUndropped(Gcra.Script(r, SixDecimals), h);
    TokenBucket.RunRefinesMeter(r, SixDecimals, h);
    Gcra.RunRefinesMeter(r, SixDecimals, h);
  }

  /** If a unit is not worth whole microseconds, one unit and one peek tell them apart: the rounded
      TAT is late, and GCRA has less room at once, or early, and it is empty first. */
  lemma RoundedInstantDiffers(r: Rate) returns (h: seq<Call>)
    requires r.Valid() && !Microseconds(r.emission)
    ensures h != [] && Differ(r, h)
  {
    var w := Write(SixDecimals, r.emission);
    var t := if w > r.emission then 0.0 else w;
    var a, b := Call(0.0, 1, false), Call(t, 0, false);
    h := [a, b];
    FirstUnit(r, t, w);
    assert Init(h) == [a] && Init([a]) == [] && Last(h) == b;
    WholeIsMillionths(0);
    WriteIsMillionths(r.emission);
    WriteIsMonotone(SixDecimals, 0.0, r.emission);
    WriteKeepsWhole(SixDecimals, 0);
    assert w != r.emission;
    DifferingMeters(r, h);
  }

  lemma WriteIsMillionths(x: real)
    ensures Microseconds(Write(SixDecimals, x))
  {
    assert Write(SixDecimals, x) == Millionths(Nearest(x));
  }

  lemma FirstUnit(r: Rate, t: real, w: real)
    requires r.Valid() && w == Write(SixDecimals, r.emission)
    requires if w > r.emission then t == 0.0 else w < r.emission && t == w && 0.0 <= w
    ensures var h := [Call(0.0, 1, false), Call(t, 0, false)];
            Meter.AnswerAfter(r, Meter.RoundedUnits, h) != Meter.AnswerAfter(r, Meter.RoundedInstant, h)
  {
    hide Write, Units;
    var a, b := Call(0.0, 1, false), Call(t, 0, false);
    var h := [a, b];
    assert Init(h) == [a] && Last(h) == b && Last([a]) == a;
    assert Seconds(r, 1.0) == r.emission;
    BackAndForth(r, r.capacity as real);
    BackAndForth(r, 1.0);
    Linear(r, 1.0, r.capacity as real);
    WriteKeepsWhole(SixDecimals, r.capacity - 1);
    assert Meter.Fits(r, 0.0, 1) && Meter.Next(r, 0.0, 1) == r.emission;
    assert Meter.Room(r, r.emission) == (r.capacity - 1) as real;
    Linear(r, r.capacity as real - (r.capacity - 1) as real, 1.0);
    assert Meter.Left(r, Meter.RoundedUnits, [a]) == r.emission;
    assert Meter.Left(r, Meter.RoundedInstant, [a]) == w;
    Linear(r, w, r.emission);
    Linear(r, r.emission, w);
  }

  /** If some refill loses its last fraction, a refusal in between tells them apart: the bucket is
      full later than GCRA is empty. */
  lemma RoundedUnitsDiffer(r: Rate, t: real) returns (h: seq<Call>)
    requires r.Valid() && Microseconds(r.emission) && Microseconds(t) && 0.0 <= t
    requires Write(SixDecimals, Units(r, t)) < Units(r, t) < r.capacity as real
    ensures h != [] && Differ(r, h)
  {
    hide Write, Microseconds, Units, Seconds;
    var a, b, c := Call(0.0, r.capacity, false), Call(t, r.capacity, false), Call(Horizon(r), 0, false);
    h := [a, b, c];
    assert Init(h) == [a, b] && Init([a, b]) == [a] && Init([a]) == [] && Last(h) == c;
    WholeIsMillionths(0);
    WholeHorizon(r);
    BackAndForth(r, r.capacity as real);
    Linear(r, t, Horizon(r));
    assert Ordered([a]) && Ordered([a, b]) && Ordered(h);
    assert Microseconds(0.0) && Microseconds(Horizon(r)) && Printable(SixDecimals, h);
    Emptied(r, t);
    Rounding.LosslessRun(r, Meter.RoundedInstant, h);
    DifferingMeters(r, h);
  }

  lemma WholeHorizon(r: Rate)
    requires Microseconds(r.emission)
    ensures Microseconds(Horizon(r))
  {
    hide Microseconds;
    Rounding.WholeTimes(r.emission, r.capacity);
    assert Horizon(r) == r.emission * r.capacity as real;
  }

  lemma Emptied(r: Rate, t: real)
    requires r.Valid() && 0.0 <= t
    requires Write(SixDecimals, Units(r, t)) < Units(r, t) < r.capacity as real
    ensures var h := [Call(0.0, r.capacity, false), Call(t, r.capacity, false), Call(Horizon(r), 0, false)];
            Meter.AnswerAfter(r, Meter.RoundedUnits, h) != Meter.AnswerAfter(r, Meter.Perfect, h)
  {
    hide Write, Units, Seconds;
    var a, b, c := Call(0.0, r.capacity, false), Call(t, r.capacity, false), Call(Horizon(r), 0, false);
    var h, full, x := [a, b, c], r.capacity as real, Units(r, t);
    assert Init(h) == [a, b] && Init([a, b]) == [a] && Last(h) == c && Last([a, b]) == b && Last([a]) == a;
    BackAndForth(r, full);
    BackAndForth(r, t);
    Linear(r, 0.0, full);
    Linear(r, t, Horizon(r));
    WriteKeepsWhole(SixDecimals, 0);
    Linear(r, full, 0.0);
    assert Write(SixDecimals, 0.0) == 0.0 && Meter.Room(r, Horizon(r)) == 0.0;
    assert Meter.Fits(r, 0.0, r.capacity) && Meter.Next(r, 0.0, r.capacity) == Horizon(r);
    assert Meter.Kept(r, Meter.RoundedUnits, 0.0, 0.0, r.capacity) == Seconds(r, full - 0.0);
    assert Meter.Found(r, Meter.RoundedUnits, [a]) == 0.0;
    assert full - 0.0 == full;
    assert Meter.Left(r, Meter.RoundedUnits, [a]) == Seconds(r, full) == Horizon(r);
    assert Meter.Left(r, Meter.Perfect, [a]) == Horizon(r);
    var found := Horizon(r) - t;
    Linear(r, Horizon(r), t);
    Linear(r, t, 0.0);
    Meter.InUnits(r, found, r.capacity);
    assert Meter.Room(r, found) == x;
    assert Meter.Left(r, Meter.Perfect, [a, b]) == found;
    var w := Write(SixDecimals, x);
    Linear(r, full - x, full - w);
    Linear(r, full - w, full - x);
    assert Meter.Left(r, Meter.RoundedUnits, [a, b]) == Seconds(r, full - w) > found;
  }

  /** A microsecond after the start or a microsecond before a whole unit, a fraction is rounded away. */
  lemma SomeLoss(r: Rate) returns (t: real)
    requires r.Valid() && Microseconds(r.emission) && r.perSecond - Floor(r.perSecond) as real != 0.5
    requires !Rounding.WholeRate(r)
    ensures Microseconds(t) && 0.0 <= t
    ensures Write(SixDecimals, Units(r, t)) < Units(r, t) < r.capacity as real
  {
    var m: int :| r.emission == Millionths(m);
    var p := r.perSecond;
    hide Units, Write, Millionths;
    PartOfOne(r, m);
    OneTick(r, m);
    if p - Floor(p) as real < 0.5 {
      t := Millionths(1);
      RoundsDown(p, Units(r, t));
    } else {
      t := Millionths(m - 1);
      OtherHalf(p);
      RoundsDown(1000000.0 - p, Units(r, t));
    }
  }

  /** Unless the rate is a million units per second, a microsecond brings less than one unit. */
  lemma PartOfOne(r: Rate, m: int)
    requires r.Valid() && r.emission == Millionths(m) && !Rounding.WholeRate(r)
    ensures m > 1 && 0.0 < r.perSecond < 1000000.0
  {
    var x := r.perSecond * MICRO;
    assert x * m as real == 1.0;
    assert m > 1;
    assert 0.0 < x < 1.0;
  }

  lemma OneTick(r: Rate, m: int)
    requires r.Valid() && r.emission == Millionths(m) && m > 1
    ensures 0.0 <= Millionths(1) && 0.0 <= Millionths(m - 1)
    ensures Units(r, Millionths(1)) * 1000000.0 == r.perSecond
    ensures Units(r, Millionths(m - 1)) * 1000000.0 == 1000000.0 - r.perSecond
  {
    assert Millionths(m - 1) == Millionths(m) - MICRO;
    assert r.perSecond * (Millionths(m) - MICRO) == r.perSecond * Millionths(m) - r.perSecond * MICRO;
  }

  lemma OtherHalf(p: real)
    requires p - Floor(p) as real > 0.5
    ensures 0.0 < 1000000.0 - p - Floor(1000000.0 - p) as real < 0.5
  {
    var n := Floor(p);
    hide Floor;
    FloorIs(1000000.0 - p, 999999 - n);
  }

  lemma RoundsDown(p: real, x: real)
    requires x * 1000000.0 == p && 0.0 < p - Floor(p) as real < 0.5
    ensures Write(SixDecimals, x) < x
  {
    FloorIs(x * 1000000.0 + 0.5, Floor(p));
    hide Floor;
    assert Nearest(x) == Floor(p);
  }

  // ---- half an odd number of units per second ----

  /** Drain the bucket, then ask for all of it at every microsecond. */
  function Impatient(r: Rate, n: nat): seq<Call>
    requires 1 <= r.capacity
  {
    if n == 0 then [Call(0.0, r.capacity, false)]
    else Impatient(r, n - 1) + [Call(Millionths(n), r.capacity, false)]
  }

  predicate IsHalfRate(r: Rate) {
    r.perSecond - Floor(r.perSecond) as real == 0.5
  }

  /** What n refusals a microsecond apart leave in the bucket, each rounded up by half a millionth. */
  function Gained(r: Rate, n: nat): real {
    Millionths(n * (Floor(r.perSecond) + 1))
  }

  lemma GainedMore(r: Rate, n: nat)
    requires r.Valid() && IsHalfRate(r)
    ensures Gained(r, 0) == 0.0 && 0.0 <= Gained(r, n)
    ensures Gained(r, n + 1) == Gained(r, n) + (r.perSecond + 0.5) * MICRO
    ensures Write(SixDecimals, Gained(r, n + 1) - 0.5 * MICRO) == Gained(r, n + 1)
    ensures Units(r, Millionths(1)) == r.perSecond * MICRO
    ensures Units(r, Millionths(n)) <= Gained(r, n)
  {
    var g := Floor(r.perSecond) + 1;
    assert (n + 1) * g == n * g + g && g as real == r.perSecond + 0.5;
    assert 0 <= n * g;
    assert (n * g) as real == n as real * g as real;
    RoundsUp((n + 1) * g);
    MulLess(r.perSecond, g as real, n as real * MICRO + 1.0);
    NoMoreThan(r.perSecond, g, n);
  }

  lemma NoMoreThan(p: real, g: int, n: nat)
    requires p <= g as real
    ensures Millionths(n) * p <= Millionths(n * g)
  {
    assert (n * g) as real == n as real * g as real;
    assert p * n as real <= g as real * n as real;
  }

  lemma RoundsUp(k: int)
    ensures Write(SixDecimals, Millionths(k) - 0.5 * MICRO) == Millionths(k)
  {
    var x := Millionths(k) - 0.5 * MICRO;
    assert x * 1000000.0 + 0.5 == k as real;
    FloorIs(x * 1000000.0 + 0.5, k);
  }

  /** The bucket gets ahead of GCRA, which refuses without rounding. */
  lemma {:induction false} GetsAhead(r: Rate, n: nat)
    requires r.Valid() && IsHalfRate(r) && Gained(r, n) < r.capacity as real
    ensures var h := Impatient(r, n);
            && Calls(h) && Last(h).now == Millionths(n)
            && Meter.Left(r, Meter.RoundedUnits, h) == Seconds(r, r.capacity as real - Gained(r, n))
            && Meter.Left(r, Meter.Perfect, h) == Horizon(r) - Millionths(n)
  {
    hide Gained, Write, Units, Seconds, Calls, Meter.Left;
    var h := Impatient(r, n);
    GainedMore(r, n);
    if n == 0 {
      FirstCall(h[0]);
      Emptying(r);
    } else {
      GainedMore(r, n - 1);
      GetsAhead(r, n - 1);
      assert Init(h) == Impatient(r, n - 1);
      Tick(n);
      NextCall(Impatient(r, n - 1), n, Last(h));
      RefusedAhead(r, n, h);
    }
  }

  /** Calls in order, at whole microseconds, that find whatever key there is. */
  ghost predicate Calls(h: seq<Call>) {
    h != [] && Ordered(h) && forall i :: 0 <= i < |h| ==> !h[i].drop && Microseconds(h[i].now)
  }

  lemma FirstCall(c: Call)
    requires c.now == Millionths(0) && !c.drop
    ensures Calls([c])
  {
    MicrosecondsAre(0);
  }

  lemma NextCall(h: seq<Call>, n: nat, c: Call)
    requires Calls(h) && Last(h).now <= c.now == Millionths(n) && !c.drop
    ensures Calls(h + [c])
  {
    hide Microseconds;
    MicrosecondsAre(n);
  }

  lemma MicrosecondsAre(n: int)
    ensures Microseconds(Millionths(n))
  {
  }

  lemma Tick(n: int)
    ensures Millionths(n) == Millionths(n - 1) + Millionths(1) && Millionths(1) == MICRO
  {
  }

  lemma Emptying(r: Rate)
    requires r.Valid() && IsHalfRate(r)
    ensures var h := [Call(0.0, r.capacity, false)];
            && Meter.Left(r, Meter.RoundedUnits, h) == Seconds(r, r.capacity as real - Gained(r, 0))
            && Meter.Left(r, Meter.Perfect, h) == Horizon(r) - Millionths(0)
  {
    hide Write, Seconds, Units;
    var full := r.capacity as real;
    GainedMore(r, 0);
    BackAndForth(r, full);
    WriteKeepsWhole(SixDecimals, 0);
    Linear(r, full, 0.0);
    assert Meter.Fits(r, 0.0, r.capacity) && Meter.Next(r, 0.0, r.capacity) == Horizon(r);
    assert Write(SixDecimals, 0.0) == 0.0 && Meter.Room(r, Horizon(r)) == 0.0;
    assert Meter.Kept(r, Meter.RoundedUnits, 0.0, 0.0, r.capacity) == Seconds(r, full - 0.0);
  }

  lemma RefusedAhead(r: Rate, n: nat, h: seq<Call>)
    requires r.Valid() && IsHalfRate(r) && n > 0 && Gained(r, n) < r.capacity as real
    requires |h| > 1 && Last(h) == Call(Millionths(n), r.capacity, false)
    requires Last(Init(h)).now == Millionths(n - 1)
    requires Meter.Left(r, Meter.RoundedUnits, Init(h)) == Seconds(r, r.capacity as real - Gained(r, n - 1))
    requires Meter.Left(r, Meter.Perfect, Init(h)) == Horizon(r) - Millionths(n - 1)
    ensures Meter.Left(r, Meter.RoundedUnits, h) == Seconds(r, r.capacity as real - Gained(r, n))
    ensures Meter.Left(r, Meter.Perfect, h) == Horizon(r) - Millionths(n)
  {
    hide Gained, Write, Units, Seconds, Meter.Room, Meter.Drain;
    var full, x, y, tick := r.capacity as real, Gained(r, n - 1), Gained(r, n) - 0.5 * MICRO, Millionths(1);
    GainedMore(r, n - 1);
    GainedMore(r, n);
    Tick(n);
    TokenBucket.LevelIsRoom(r, x);
    Rounding.RoomAfterDrain(r, Seconds(r, full - x), tick);
    var found := Meter.Drain(Seconds(r, full - x), tick);
    assert Meter.Room(r, found) == y;
    Meter.InUnits(r, found, r.capacity);
    DrainedTo(r, n);
    Meter.InUnits(r, Horizon(r) - Millionths(n), r.capacity);
  }

  /** Without rounding, n microseconds after the start. */
  lemma DrainedTo(r: Rate, n: nat)
    requires r.Valid() && IsHalfRate(r) && n > 0 && Gained(r, n) < r.capacity as real
    ensures 0.0 <= Horizon(r) - Millionths(n) && Meter.Room(r, Horizon(r) - Millionths(n)) < r.capacity as real
    ensures Meter.Drain(Horizon(r) - Millionths(n - 1), Millionths(1)) == Horizon(r) - Millionths(n)
  {
    hide Gained, Units, Seconds;
    GainedMore(r, n);
    Tick(n);
    BackAndForth(r, r.capacity as real);
    Linear(r, Horizon(r), Millionths(n));
    Linear(r, Millionths(n), Horizon(r));
  }

  /** When the bucket is a whole microsecond ahead, a peek in that microsecond finds it full. */
  lemma HalfRateDiffers(r: Rate) returns (h: seq<Call>)
    requires r.Valid() && IsHalfRate(r) && Microseconds(r.emission) && 2.0 * r.perSecond <= r.capacity as real
    ensures h != [] && Differ(r, h)
  {
    hide Gained, Units, Seconds, Microseconds, Write;
    var k := 2 * Floor(r.perSecond) + 1;
    WholeMicrosecond(r, k);
    var polls, end := Impatient(r, k), Call(Horizon(r) - Millionths(1), 0, false);
    GetsAhead(r, k);
    h := polls + [end];
    assert Init(h) == polls && Last(h) == end;
    WholeHorizon(r);
    MicrosecondsAre(1);
    MillionthsAdd(Horizon(r), Millionths(1));
    Tick(k + 1);
    assert Ordered(h);
    Rounding.LosslessRun(r, Meter.RoundedInstant, h);
    FullBefore(r, h, k);
    DifferingMeters(r, h);
  }

  /** k refusals gain what a microsecond brings. */
  lemma WholeMicrosecond(r: Rate, k: int)
    requires r.Valid() && IsHalfRate(r) && Microseconds(r.emission) && 2.0 * r.perSecond <= r.capacity as real
    requires k == 2 * Floor(r.perSecond) + 1
    ensures 0 < k && Gained(r, k) < r.capacity as real
    ensures Seconds(r, r.capacity as real - Gained(r, k)) == Horizon(r) - Millionths(k + 1)
    ensures Millionths(k + 1) <= Horizon(r)
  {
    var m: int :| r.emission == Millionths(m);
    var p, g := r.perSecond, Floor(r.perSecond) + 1;
    PartOfOne(r, m);
    assert k as real == 2.0 * p && g as real == p + 0.5;
    GainedOver(r, k, g);
    hide Units, Seconds, Gained, Microseconds, IsHalfRate;
    BackAndForth(r, Millionths(k + 1));
    Linear(r, r.capacity as real, Gained(r, k));
    Linear(r, Gained(r, k), r.capacity as real);
    assert g as real < 1000000.0;
    SmallPart(k, g);
  }

  lemma GainedOver(r: Rate, k: int, g: int)
    requires 0 < k && k as real == 2.0 * r.perSecond && g as real == r.perSecond + 0.5
    ensures Gained(r, k) == Units(r, Millionths(k + 1)) == Millionths(k * g)
  {
    var p := r.perSecond;
    assert (k * g) as real == k as real * g as real;
    assert k as real * g as real == p * (k + 1) as real;
  }

  lemma SmallPart(k: int, g: int)
    requires 0 < k && 0 < g < 1000000
    ensures Millionths(k * g) < k as real
  {
    assert 0 < k * (1000000 - g);
    BelowWhole(k * g, k);
  }

  lemma BelowWhole(n: int, k: int)
    requires n < k * 1000000
    ensures Millionths(n) < k as real
  {
  }

  lemma FullBefore(r: Rate, h: seq<Call>, k: int)
    requires r.Valid() && |h| > 1 && Last(h) == Call(Horizon(r) - Millionths(1), 0, false)
    requires Last(Init(h)).now == Millionths(k)
    requires Meter.Left(r, Meter.RoundedUnits, Init(h)) == Horizon(r) - Millionths(k + 1)
    requires Meter.Left(r, Meter.Perfect, Init(h)) == Horizon(r) - Millionths(k)
    ensures Meter.AnswerAfter(r, Meter.RoundedUnits, h) != Meter.AnswerAfter(r, Meter.Perfect, h)
  {
    hide Units, Seconds;
    Tick(k + 1);
    assert Meter.Found(r, Meter.RoundedUnits, h) == 0.0;
    assert Meter.Found(r, Meter.Perfect, h) == Millionths(1);
  }
}
