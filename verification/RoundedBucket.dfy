/** What storing with six decimals does to clients of a token bucket: a wait that is too short, little
    lost by any one refusal, and everything by those who ask too often. */
module RoundedBucket {
  import opened Foundation
  import opened Histories
  import opened Rates
  import opened Stored
  import opened TokenBucket
  import Meter
  import Rounding

  /** A day's wait for one unit: refused at 2.01 s and told to wait 86398 s, the client is refused
      again after just that wait, because the refusal has written 23 millionths of the 23.26 it found. */
  lemma RetryAfterCanBeEarly()
    ensures var r, f := Configured(1, 86400, 1), SixDecimals;
            var h, c := [Call(0.0, 1, false), Call(2.01, 1, false)], Call(86400.01, 1, false);
            && Legal(TokenBucket.Script(r, f), h + [c]) && Printable(f, h + [c])
            && Answer(TokenBucket.Script(r, f), h) == Reply(1, 1, 0, 86398, 86398)
            && Answer(TokenBucket.Script(r, f), h + [c]).status == 1
  {
    var r, f := Configured(1, 86400, 1), SixDecimals;
    var a, b, c := Call(0.0, 1, false), Call(2.01, 1, false), Call(86400.01, 1, false);
    var h := [a, b];
    assert Init(h) == [a] && Init([a]) == [] && Init(h + [c]) == h && Last(h + [c]) == c;
    EarlyClock(h + [c]);
    EarlyLevel();
    LateRefill();
    hide Configured, Step, Seconds, Millionths, Write, LevelFound, Level, Printable, Microseconds;
    LegalUndropped(TokenBucket.Script(r, f), h + [c]);
    RetryCondition(r, f, h, c, 86398);
  }

  lemma EarlyClock(h: seq<Call>)
    requires |h| == 3 && h[0].now == 0.0 && h[1].now == 2.01 && h[2].now == 86400.01
    ensures Printable(SixDecimals, h) && Ordered(h)
  {
    assert 0.0 == Millionths(0) && 2.01 == Millionths(2010000) && 86400.01 == Millionths(86400010000);
    assert Init(h) == h[..2] && Init(h[..2]) == h[..1];
    assert Ordered(h[..1]) && Ordered(h[..2]);
  }

  lemma LateRefill()
    ensures Seconds(Configured(1, 86400, 1), 1.0 - Millionths(23)) > 86398.0
  {
    assert Configured(1, 86400, 1).emission == 86400.0;
  }

  lemma EarlyLevel()
    ensures var r, f, h := Configured(1, 86400, 1), SixDecimals, [Call(0.0, 1, false), Call(2.01, 1, false)];
            && LevelFound(r, f, h) == Ratio(2.01, 86400.0) && Write(f, LevelFound(r, f, h)) == Millionths(23)
            && Answer(TokenBucket.Script(r, f), h) == Reply(1, 1, 0, 86398, 86398)
  {
    var r, f := Configured(1, 86400, 1), SixDecimals;
    var a, b := Call(0.0, 1, false), Call(2.01, 1, false);
    assert Init([a, b]) == [a] && Init([a]) == [];
    assert r.perSecond == Ratio(1.0, 86400.0) && r.emission == 86400.0;
    assert Nearest(0.0) == 0;
    assert After(TokenBucket.Script(r, f), [a]) == Step(r, f, Gone, a).0;
    var x := Ratio(2.01, 86400.0);
    assert Nearest(x) == 23;
    assert LevelFound(r, f, [a, b]) == x;
    Dividing(r, 1.0 - x);
  }

  /** Refused calls cost little: n of them in a row, and any peeks, leave at most n roundings less
      in the bucket than there would be if nothing had been asked since. */
  lemma RefusalsCostLittle(r: Rate, h: seq<Call>, i: nat)
    requires r.Valid() && i < |h| - 1 && Legal(TokenBucket.Script(r, SixDecimals), h) && Printable(SixDecimals, h)
    requires forall j :: i < j < |h| - 1 && h[j].quantity > 0 ==>
               Answer(TokenBucket.Script(r, SixDecimals), h[..j + 1]).status == 1
    ensures LevelFound(r, SixDecimals, h)
            >= Level(r, View(After(TokenBucket.Script(r, SixDecimals), h[..i + 1]), false), Last(h).now)
               - Errors(SixDecimals, |h| - 2 - i)
  {
    hide Level, Seconds, Units, Step, Errors, Printable, Legal, After, Answer, LevelFound, Microseconds, Expired,
      Meter.Fits, Meter.Found, Meter.Left, Meter.Drain;
    var s, m := TokenBucket.Script(r, SixDecimals), Meter.RoundedUnits;
    LegalIsOrdered(s, h);
    forall j | i < j < |h| - 1 && h[j].quantity > 0
      ensures !Meter.Fits(r, Meter.Found(r, m, h[..j + 1]), h[j].quantity)
    {
      RefusedByMeter(r, h, j);
    }
    Rounding.RefusalsLoseLittle(r, h, i);
    InOrder(h, i);
    BehindInTokens(r, h, i);
  }

  /** How far behind the meter is, in tokens. */
  lemma BehindInTokens(r: Rate, h: seq<Call>, i: nat)
    requires r.Valid() && i < |h| - 1 && Legal(TokenBucket.Script(r, SixDecimals), h) && Printable(SixDecimals, h)
    requires h[i].now <= Last(h).now && Last(h[..i + 1]) == h[i]
    requires Meter.Found(r, Meter.RoundedUnits, h)
             <= Meter.Drain(Meter.Left(r, Meter.RoundedUnits, h[..i + 1]), Last(h).now - h[i].now)
                + Seconds(r, Errors(SixDecimals, |h| - 2 - i))
    ensures LevelFound(r, SixDecimals, h)
            >= Level(r, View(After(TokenBucket.Script(r, SixDecimals), h[..i + 1]), false), Last(h).now)
               - Errors(SixDecimals, |h| - 2 - i)
  {
    hide Level, Seconds, Units, Step, Errors, Legal, Meter.Found, Meter.Left, Meter.Drain;
    var s := TokenBucket.Script(r, SixDecimals);
    LegalPrefix(s, h, i + 1);
    PrintablePart(h, i + 1);
    hide Printable;
    TracksMeter(r, SixDecimals, h[..i + 1], Last(h).now, false);
    TracksMeter(r, SixDecimals, h, Last(h).now, false);
    var full, found := r.capacity as real, LevelFound(r, SixDecimals, h);
    var idle := Level(r, View(After(s, h[..i + 1]), false), Last(h).now);
    Rounding.SecondsAdd(r, full - idle, Errors(SixDecimals, |h| - 2 - i));
    Linear(r, full - found, full - idle + Errors(SixDecimals, |h| - 2 - i));
  }

  lemma RefusedByMeter(r: Rate, h: seq<Call>, j: nat)
    requires r.Valid() && j < |h| && Legal(TokenBucket.Script(r, SixDecimals), h) && Printable(SixDecimals, h)
    requires h[j].quantity > 0 && Answer(TokenBucket.Script(r, SixDecimals), h[..j + 1]).status == 1
    ensures !Meter.Fits(r, Meter.Found(r, Meter.RoundedUnits, h[..j + 1]), h[j].quantity)
  {
    hide Step, Meter.Fits, Meter.Found;
    LegalPrefix(TokenBucket.Script(r, SixDecimals), h, j + 1);
    PrintablePart(h, j + 1);
    RunRefinesMeter(r, SixDecimals, h[..j + 1]);
  }

  lemma PrintablePart(h: seq<Call>, i: nat)
    requires i <= |h| && Printable(SixDecimals, h)
    ensures Printable(SixDecimals, h[..i])
  {
    hide Microseconds;
  }

  lemma {:induction false} InOrder(h: seq<Call>, i: nat)
    requires Ordered(h) && i < |h|
    ensures h[i].now <= Last(h).now && Last(h[..i + 1]) == h[i]
    decreases |h|
  {
    if i < |h| - 1 {
      InOrder(Init(h), i);
    }
  }

  /** The instant of the n-th poll, one every dt seconds. */
  function Tick(dt: real, n: nat): real {
    dt * n as real
  }

  /** A client that drains the bucket and then asks for one unit every dt seconds. */
  function Polls(r: Rate, dt: real, n: nat): (h: seq<Call>)
    requires 1 <= r.capacity
    ensures |h| == n + 1
  {
    if n == 0 then [Call(0.0, r.capacity, false)] else Polls(r, dt, n - 1) + [Call(Tick(dt, n), 1, false)]
  }

  /** What one interval adds to the bucket, in the millionths that are written. */
  function Gain(r: Rate, dt: real): int {
    Nearest(Units(r, dt))
  }

  /** What the n-th poll finds, as long as all before it were refused. */
  function FoundBy(r: Rate, dt: real, n: nat): real {
    Millionths((n - 1) * Gain(r, dt)) + Units(r, dt)
  }

  /** As long as polls find less than a unit they are refused, and the bucket holds what the intervals
      have added, each rounded to millionths. */
  lemma {:induction false} Polling(r: Rate, dt: real, n: nat)
    requires r.Valid() && Microseconds(dt) && 0.0 <= dt && (n == 0 || FoundBy(r, dt, n) < 1.0)
    ensures var h, s := Polls(r, dt, n), TokenBucket.Script(r, SixDecimals);
            && h != [] && Ordered(h) && Legal(s, h) && Printable(SixDecimals, h)
            && Last(h).now == Tick(dt, n)
            && After(s, h)
               == Held(Bucket(Millionths(n * Gain(r, dt)), Tick(dt, n)), Some(Tick(dt, n) + Keep(r) as real))
            && (n > 0 ==> Answer(s, h).status == 1)
  {
    assert Millionths(0 * Gain(r, dt)) == 0.0;
    hide Step, Write, Microseconds, Tick, Keep, Units, FoundBy, Gain, Millionths;
    var h, s := Polls(r, dt, n), TokenBucket.Script(r, SixDecimals);
    OnTick(dt, n);
    if n == 0 {
      assert Init(h) == [];
      Drained(r);
    } else {
      FoundLater(r, dt, n);
      Polling(r, dt, n - 1);
      assert Init(h) == Polls(r, dt, n - 1);
      Polled(r, dt, n);
    }
  }

  lemma FoundLater(r: Rate, dt: real, n: nat)
    requires r.Valid() && 0.0 <= dt && n > 0
    ensures 0 <= Gain(r, dt) && 0.0 <= Units(r, dt) <= FoundBy(r, dt, n)
    ensures FoundBy(r, dt, n + 1) == FoundBy(r, dt, n) + Millionths(Gain(r, dt))
    ensures n > 1 ==> FoundBy(r, dt, n - 1) <= FoundBy(r, dt, n)
    ensures FoundBy(r, dt, 1) == Units(r, dt)
  {
    hide Units;
    Linear(r, 0.0, dt);
    var k := Gain(r, dt);
    assert n * k == (n - 1) * k + k && 0 <= (n - 1) * k;
    assert n > 1 ==> (n - 1) * k == (n - 2) * k + k;
  }

  /** Rounding after adding millionths adds them to the rounding. */
  lemma AddsMillionths(k: int, x: real)
    ensures Write(SixDecimals, Millionths(k) + x) == Millionths(k + Nearest(x))
  {
    FloorIs((Millionths(k) + x) * 1000000.0 + 0.5, k + Nearest(x));
  }

  /** The n-th poll, from what the one before it has written. */
  function BeforePoll(r: Rate, dt: real, n: nat): Entry<Bucket>
    requires r.perSecond != 0.0 && n > 0
  {
    Held(Bucket(Millionths((n - 1) * Gain(r, dt)), Tick(dt, n - 1)), Some(Tick(dt, n - 1) + Keep(r) as real))
  }

  lemma Polled(r: Rate, dt: real, n: nat)
    requires r.Valid() && 0.0 <= dt && n > 0 && Write(SixDecimals, Tick(dt, n)) == Tick(dt, n)
    requires Tick(dt, n) == Tick(dt, n - 1) + dt
    ensures var (e, a) := Step(r, SixDecimals, BeforePoll(r, dt, n), Call(Tick(dt, n), 1, false));
            && (a.status == 0 <==> 1.0 <= FoundBy(r, dt, n))
            && (FoundBy(r, dt, n) < 1.0 ==>
                  e == Held(Bucket(Millionths(n * Gain(r, dt)), Tick(dt, n)), Some(Tick(dt, n) + Keep(r) as real))
                  && a.status == 1)
  {
    hide Units, Keep, Refill, Wait, Write, Tick, Millionths, Nearest;
    var k := (n - 1) * Gain(r, dt);
    assert n * Gain(r, dt) == k + Gain(r, dt);
    AddsMillionths(k, Units(r, dt));
    Linear(r, 0.0, 0.0);
    NothingInNoTime(r, dt, Millionths(k));
  }

  /** With no time between two polls nothing is added. */
  lemma NothingInNoTime(r: Rate, dt: real, x: real)
    requires r.Valid() && 0.0 <= dt
    ensures dt == 0.0 ==> Units(r, dt) == 0.0 && x + Units(r, dt) == x
  {
  }

  /** What is lost adds up: a client that asks again before half a millionth of a unit has been added
      never gets another one, however long it goes on. */
  lemma PollingStarves(r: Rate, dt: real, n: nat)
    requires r.Valid() && Microseconds(dt) && 0.0 <= dt && Gain(r, dt) == 0 && n > 0
    ensures Answer(TokenBucket.Script(r, SixDecimals), Polls(r, dt, n)).status == 1
  {
    hide Step, Units;
    WriteError(SixDecimals, Units(r, dt));
    assert (n - 1) * Gain(r, dt) == 0;
    assert FoundBy(r, dt, n) == Units(r, dt);
    Polling(r, dt, n);
  }

  /** Any other client is served at the latest when what is written for it would come to a unit. */
  lemma PollingIsServed(r: Rate, dt: real) returns (n: nat)
    requires r.Valid() && Microseconds(dt) && 0.0 <= dt && Gain(r, dt) > 0
    ensures 0 < n && (n - 1) * Gain(r, dt) <= 1000000
    ensures Answer(TokenBucket.Script(r, SixDecimals), Polls(r, dt, n)).status == 0
    ensures forall i: nat :: 0 < i < n ==> Answer(TokenBucket.Script(r, SixDecimals), Polls(r, dt, i)).status == 1
  {
    hide Step, Units, FoundBy, Gain, Tick, Write, Microseconds, Millionths, Keep;
    n := FirstFull(r, dt, 1);
    forall i: nat | 0 < i < n ensures Answer(TokenBucket.Script(r, SixDecimals), Polls(r, dt, i)).status == 1 {
      Polling(r, dt, i);
    }
    Polling(r, dt, n - 1);
    OnTick(dt, n);
    assert Init(Polls(r, dt, n)) == Polls(r, dt, n - 1);
    Polled(r, dt, n);
  }

  lemma {:induction false} FirstFull(r: Rate, dt: real, i: nat) returns (n: nat)
    requires r.Valid() && 0.0 <= dt && Gain(r, dt) > 0 && 0 < i
    requires forall j: nat :: 0 < j < i ==> FoundBy(r, dt, j) < 1.0
    requires (i - 1) * Gain(r, dt) <= 1000000
    ensures 0 < n && (n - 1) * Gain(r, dt) <= 1000000 && 1.0 <= FoundBy(r, dt, n)
    ensures forall j: nat :: 0 < j < n ==> FoundBy(r, dt, j) < 1.0
    decreases 1000000 - (i - 1) * Gain(r, dt)
  {
    hide Units, Gain;
    n := i;
    if FoundBy(r, dt, i) < 1.0 {
      Linear(r, 0.0, dt);
      var k := Gain(r, dt);
      assert i * k == (i - 1) * k + k;
      NotYet(r, dt, i);
      n := FirstFull(r, dt, i + 1);
    }
  }

  lemma NotYet(r: Rate, dt: real, i: nat)
    requires r.Valid() && 0.0 <= dt && 0 < i && FoundBy(r, dt, i) < 1.0
    ensures i * Gain(r, dt) <= 1000000
  {
    var k, x := Gain(r, dt), Units(r, dt);
    hide Units;
    WriteError(SixDecimals, x);
    assert Write(SixDecimals, x) == Millionths(k);
    assert i * k == (i - 1) * k + k;
    assert Millionths(i * k) < 1.0 + 0.0000005;
  }

  /** So whether a client that polls every dt seconds is ever served again depends only on whether an
      interval adds anything that is written. */
  lemma ServedAgain(r: Rate, dt: real)
    requires r.Valid() && Microseconds(dt) && 0.0 <= dt
    ensures (exists n: nat :: 0 < n && Answer(TokenBucket.Script(r, SixDecimals), Polls(r, dt, n)).status == 0)
            <==> Write(SixDecimals, Units(r, dt)) != 0.0
  {
    hide Step, Polls, Units, Microseconds;
    Linear(r, 0.0, dt);
    assert Write(SixDecimals, Units(r, dt)) == Millionths(Gain(r, dt)) && 0 <= Gain(r, dt);
    if Gain(r, dt) > 0 {
      var n := PollingIsServed(r, dt);
    } else {
      forall n: nat | 0 < n ensures Answer(TokenBucket.Script(r, SixDecimals), Polls(r, dt, n)).status == 1 {
        PollingStarves(r, dt, n);
      }
    }
  }

  lemma OnTick(dt: real, n: nat)
    requires Microseconds(dt)
    ensures Microseconds(Tick(dt, n)) && Write(SixDecimals, Tick(dt, n)) == Tick(dt, n)
    ensures if n == 0 then Tick(dt, n) == 0.0 else Tick(dt, n) == Tick(dt, n - 1) + dt
  {
    var i: int :| dt == Millionths(i);
    assert dt * n as real == Millionths(i * n);
    WritesInPlace(SixDecimals, dt * n as real);
  }

  lemma Drained(r: Rate)
    requires r.Valid()
    ensures Step(r, SixDecimals, Gone, Call(0.0, r.capacity, false)).0
            == Held(Bucket(0.0, 0.0), Some(0.0 + Keep(r) as real))
  {
    hide Keep, Refill;
    WriteKeepsWhole(SixDecimals, 0);
  }
}
