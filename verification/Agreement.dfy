/** Token bucket and GCRA are the same policy in two representations. */
module Agreement {
  import opened Foundation
  import opened Histories
  import opened Rates
  import opened Stored
  import Meter
  import TokenBucket
  import Gcra
  import Divergence
  import Rounding

  /** The one rate that both are configured with. */
  function RateOf(requests: int, period: int, burst: int): Rate
    requires 1 <= requests && 1 <= period && 0 <= burst
  {
    Configured(requests, period, requests + burst)
  }

  /** The rate rounds nothing: whole units per second and whole microseconds per unit. */
  ghost predicate Even(r: Rate) {
    Rounding.WholeRate(r) && Microseconds(r.emission)
  }

  /** On the same instants and quantities, with keys reclaimed at any lawful time on either side,
      token_bucket(requests, period, burst) and gcra(requests, period, requests + burst - 1)
      give the same five numbers, except that a GCRA refusal reports nothing remaining; with
      six-decimal storage, if the rate is even. */
  lemma BucketIsGcra(requests: int, period: int, burst: int, f: Format, h: seq<Call>, g: seq<Call>)
    requires 1 <= requests && 1 <= period && 0 <= burst && h != [] && SameCalls(h, g)
    requires Legal(TokenBucket.Script(RateOf(requests, period, burst), f), h)
    requires Legal(Gcra.Script(Configured(requests, period, (requests + burst - 1) + 1), f), g)
    requires f.Exact? || (Even(RateOf(requests, period, burst)) && Printable(f, h))
    ensures var bucket := Answer(TokenBucket.Script(RateOf(requests, period, burst), f), h);
            var gcra := Answer(Gcra.Script(Configured(requests, period, (requests + burst - 1) + 1), f), g);
            && gcra == Gcra.Blanked(bucket, Last(h).quantity)
            && (Last(h).quantity <= 1 ==> gcra == bucket)
  {
    hide TokenBucket.Step, Gcra.Step, Configured, Meter.Answer, Meter.Found, Meter.Left,
      Rounding.WholeRate, Microseconds;
    var r := RateOf(requests, period, burst);
    var m, n := TokenBucket.Remembers(f), Gcra.Remembers(f);
    TokenBucket.RunRefinesMeter(r, f, h);
    Gcra.RunRefinesMeter(r, f, g);
    LegalIsOrdered(TokenBucket.Script(r, f), h);
    Meter.DropsAreInvisible(r, n, h, g);
    Rounding.LosslessRun(r, m, h);
    Rounding.LosslessRun(r, n, h);
    NothingLeftForOne(r, Meter.Found(r, m, h));
  }

  /** With six-decimal storage they agree on every run of a configured zone if and only if its rate is
      even. A rate that is not is betrayed by the TAT it rounds, by a refill it cuts off, or, if it is
      half an odd number of units per second, by what ties add that are rounded up. */
  lemma OnlyEvenRatesAgree(requests: int, period: int, burst: int)
    requires 1 <= requests && 1 <= period && 0 <= burst
    ensures (exists h :: h != [] && Divergence.Differ(RateOf(requests, period, burst), h))
            <==> !Even(RateOf(requests, period, burst))
  {
    hide RateOf, Microseconds, Rounding.WholeRate;
    var r := RateOf(requests, period, burst);
    RoomForHalf(requests, period, burst);
    if Even(r) {
      forall h | h != [] ensures !Divergence.Differ(r, h) {
        EvenRatesAgree(requests, period, burst, h);
      }
    } else {
      var h := DifferingRun(r);
    }
  }

  lemma EvenRatesAgree(requests: int, period: int, burst: int, h: seq<Call>)
    requires 1 <= requests && 1 <= period && 0 <= burst && h != []
    requires Even(RateOf(requests, period, burst))
    ensures !Divergence.Differ(RateOf(requests, period, burst), h)
  {
    hide Even, Legal, Printable;
    if Divergence.Differ(RateOf(requests, period, burst), h) {
      BucketIsGcra(requests, period, burst, SixDecimals, h, h);
      assert false;
    }
  }

  lemma DifferingRun(r: Rate) returns (h: seq<Call>)
    requires r.Valid() && !Even(r)
    requires Divergence.IsHalfRate(r) ==> 2.0 * r.perSecond <= r.capacity as real
    ensures h != [] && Divergence.Differ(r, h)
  {
    hide Divergence.Differ, Write, Units, Microseconds;
    if !Microseconds(r.emission) {
      h := Divergence.RoundedInstantDiffers(r);
    } else if Divergence.IsHalfRate(r) {
      h := Divergence.HalfRateDiffers(r);
    } else {
      var t := Divergence.SomeLoss(r);
      h := Divergence.RoundedUnitsDiffer(r, t);
    }
  }

  /** A rate with a fraction has a period of at least two seconds, and a bucket for all of it. */
  lemma RoomForHalf(requests: int, period: int, burst: int)
    requires 1 <= requests && 1 <= period && 0 <= burst
    ensures var r := RateOf(requests, period, burst);
            r.Valid() && (Divergence.IsHalfRate(r) ==> 2.0 * r.perSecond <= r.capacity as real)
  {
    var r := RateOf(requests, period, burst);
    var p := r.perSecond;
    RatioTimes(requests as real, period as real);
    assert p * period as real == requests as real;
    if period == 1 {
      FloorIs(p, requests);
    } else {
      TwiceOrMore(p, period);
    }
  }

  lemma TwiceOrMore(p: real, n: int)
    requires 0.0 <= p && 2 <= n
    ensures 2.0 * p <= p * n as real
  {
    assert 0.0 <= p * (n - 2) as real;
  }

  /** When a single unit is refused, nothing is remaining. */
  lemma NothingLeftForOne(r: Rate, b: real)
    requires r.Valid() && 0.0 <= b <= Horizon(r)
    ensures Meter.Answer(r, b, 1).status == 1 ==> Meter.Answer(r, b, 1).remaining == 0
  {
    hide Seconds, Units, Meter.Room, Meter.Overshoot;
    Meter.InUnits(r, b, 1);
    Meter.RoomInRange(r, b);
  }
}
