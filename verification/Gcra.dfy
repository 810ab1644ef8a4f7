/** The generic cell rate algorithm: the theoretical arrival time (TAT) of the next unit. */
module Gcra {
  import opened Foundation
  import opened Histories
  import opened Rates
  import opened Stored
  import Meter

  /** The TAT a call works from; it never lies in the past. */
  function Tat(view: Option<real>, now: real): real {
    if view.None? then now else Max(view.value, now)
  }

  /** How far the clock is past the instant at which the new TAT would be allowed. */
  function Slack(r: Rate, now: real, newTat: real): real {
    now - (newTat - Horizon(r))
  }

  function AnswerAt(r: Rate, now: real, tat: real, q: nat): Reply
    requires r.emission != 0.0
  {
    var newTat := tat + Seconds(r, q as real);
    if q == 0 then
      var room := Floor(Ratio(Slack(r, now, tat), r.emission));
      var avail := if room > r.capacity then r.capacity else room;
      Reply(if avail < 1 then 1 else 0, r.capacity, avail, -1, AtLeast(0, Ceil(tat - now)))
    else if Slack(r, now, newTat) < 0.0 then
      Reply(1, r.capacity, 0, AtLeast(1, Ceil(-Slack(r, now, newTat))), AtLeast(0, Ceil(tat - now)))
    else
      Reply(0, r.capacity, Floor(Ratio(Slack(r, now, newTat), r.emission)), -1, AtLeast(0, Ceil(newTat - now)))
  }

  function Step(r: Rate, f: Format, e: Entry<real>, c: Call): (Entry<real>, Reply)
    requires r.emission != 0.0
  {
    var tat := Tat(View(e, c.drop), c.now);
    var newTat := tat + Seconds(r, c.quantity as real);
    (if c.quantity > 0 && Slack(r, c.now, newTat) >= 0.0 then
       Held(Write(f, newTat), Some(c.now + AtLeast(1, Ceil(newTat - c.now)) as real))
     else if c.drop then Gone else e,
     AnswerAt(r, c.now, tat, c.quantity))
  }

  function Script(r: Rate, f: Format): Histories.Script<real>
    requires r.emission != 0.0
  {
    (e, c) => Step(r, f, e, c)
  }

  /** The arithmetic of the Lua body that only concerns its arguments. */
  method Intervals(requests: int, period: int, burst: int, quantity: nat)
    returns (emission: real, horizon: real, cost: real)
    requires 1 <= requests && 1 <= period && 0 <= burst
    ensures var r := Configured(requests, period, burst + 1);
            && emission == r.emission && emission != 0.0 && r.capacity == burst + 1
            && horizon == Horizon(r) && cost == Seconds(r, quantity as real)
  {
    emission := Ratio(period as real, requests as real);
    horizon := emission * (burst + 1) as real;
    cost := emission * quantity as real;
  }

  /** The Lua body, step by step on the key. */
  method GcraScript(key: Key<real>, requests: int, period: int, burst: int, quantity: nat, now: real, f: Format)
    returns (reply: Reply)
    requires 1 <= requests && 1 <= period && 0 <= burst
    modifies key
    ensures (key.entry, reply)
            == Step(Configured(requests, period, burst + 1), f, old(key.entry),
                    Call(now, quantity, Expired(old(key.entry), now)))
  {
    hide Seconds, Horizon, Ratio, Write, Configured, Rate.Valid, Floor, Ceil;
    ghost var r := Configured(requests, period, burst + 1);
    var limit := burst + 1;
    var emission, horizon, cost := Intervals(requests, period, burst, quantity);
    var data := key.Get(now);
    var tat := if data.None? then now else data.value;
    if tat < now {
      tat := now;
    }
    assert tat == Tat(View(old(key.entry), Expired(old(key.entry), now)), now);
    if quantity == 0 {
      var avail := Floor(Ratio(now - (tat - horizon), emission));
      if avail > limit {
        avail := limit;
      }
      var status := 0;
      if avail < 1 {
        status := 1;
      }
      var reset := AtLeast(0, Ceil(tat - now));
      reply := Reply(status, limit, avail, -1, reset);
      assert reply == AnswerAt(r, now, tat, quantity);
      return;
    }
    var newTat := tat + cost;
    var allowAt := newTat - horizon;
    var diff := now - allowAt;
    if diff < 0.0 {
      var retryAfter := AtLeast(1, Ceil(-diff));
      var reset := AtLeast(0, Ceil(tat - now));
      reply := Reply(1, limit, 0, retryAfter, reset);
      assert reply == AnswerAt(r, now, tat, quantity);
      return;
    }
    var remaining := Floor(Ratio(diff, emission));
    var reset := AtLeast(0, Ceil(newTat - now));
    key.Set(Write(f, newTat));
    var ttl := AtLeast(1, Ceil(newTat - now));
    key.Expire(now, ttl);
    reply := Reply(0, limit, remaining, -1, reset);
    assert reply == AnswerAt(r, now, tat, quantity);
  }

  /** A stored TAT is at most one horizon ahead, up to the rounding of one write, and the key is kept
      until it has passed, to the next whole second. */
  ghost predicate Sound(r: Rate, f: Format, e: Entry<real>, now: real) {
    e.Held? ==>
      && e.value <= now + Horizon(r) + Error(f)
      && e.expireAt.Some? && e.value <= e.expireAt.value < e.value + Error(f) + 1.0
  }

  lemma {:induction false} AlwaysSound(r: Rate, f: Format, h: seq<Call>)
    requires r.Valid() && h != [] && Legal(Script(r, f), h) && Printable(f, h)
    ensures Sound(r, f, After(Script(r, f), h), Last(h).now)
  {
    hide Seconds, Horizon, Write, Error, AnswerAt;
    if |h| > 1 {
      AlwaysSound(r, f, Init(h));
    }
    var e, c := After(Script(r, f), Init(h)), Last(h);
    var newTat := Tat(View(e, c.drop), c.now) + Seconds(r, c.quantity as real);
    WriteError(f, newTat);
    KeptUntilPast(f, newTat, c.now);
    Linear(r, c.quantity as real, 0.0);
  }

  /** The deadline lies on the clock's grid, so rounding does not carry a TAT past it. */
  lemma KeptUntilPast(f: Format, tat: real, now: real)
    requires f.Exact? || Microseconds(now)
    ensures Write(f, tat) <= now + AtLeast(1, Ceil(tat - now)) as real
  {
    hide Write, Microseconds;
    var deadline := now + AtLeast(1, Ceil(tat - now)) as real;
    if f.SixDecimals? {
      WholeIsMillionths(AtLeast(1, Ceil(tat - now)));
      MillionthsAdd(now, AtLeast(1, Ceil(tat - now)) as real);
    }
    WritesInPlace(f, deadline);
    WriteIsMonotone(f, tat, deadline);
  }

  /** The TAT read as a backlog: the seconds it lies ahead. */
  function Backlog(view: Option<real>, now: real): real {
    Tat(view, now) - now
  }

  /** GCRA reports nothing remaining with a refusal. */
  function Blanked(a: Reply, q: nat): Reply {
    if q > 0 && a.status == 1 then a.(remaining := 0) else a
  }

  /** How the stored TAT remembers a backlog. */
  function Remembers(f: Format): Meter.Memory {
    if f.Exact? then Meter.Perfect else Meter.RoundedInstant
  }

  /** One call on the TAT is one call on the meter, also beyond the horizon. */
  lemma StepRefinesMeter(r: Rate, now: real, tat: real, q: nat)
    requires r.Valid() && now <= tat
    ensures AnswerAt(r, now, tat, q) == Blanked(Meter.Answer(r, tat - now, q), q)
  {
    hide Seconds, Units, Ratio;
    var b, cost := tat - now, Seconds(r, q as real);
    Meter.InUnits(r, b, q);
    Meter.InUnits(r, b, 1);
    Linear(r, 0.0, b);
    SlackIsRoom(r, b);
    SlackIsRoom(r, b + cost);
    Linear(r, 0.0, q as real);
    assert Slack(r, now, tat + cost) == Horizon(r) - (b + cost);
    assert Slack(r, now, tat) == Horizon(r) - b;
  }

  lemma SlackIsRoom(r: Rate, b: real)
    requires r.Valid()
    ensures Ratio(Horizon(r) - b, r.emission) == Meter.Room(r, b)
  {
    hide Seconds, Units, Ratio;
    Dividing(r, Horizon(r) - b);
    Linear(r, Horizon(r), b);
    BackAndForth(r, r.capacity as real);
  }

  lemma LeavesRefinesMeter(r: Rate, f: Format, e: Entry<real>, c: Call, later: real, drop: bool)
    requires r.Valid() && Sound(r, f, e, c.now) && c.now <= later && (f.Exact? || Microseconds(c.now))
    requires c.drop ==> Expired(e, c.now)
    requires drop ==> Expired(Step(r, f, e, c).0, later)
    ensures var b := Backlog(View(e, c.drop), c.now);
            Backlog(View(Step(r, f, e, c).0, drop), later)
            == Meter.Drain(Meter.Kept(r, Remembers(f), c.now, b, c.quantity), later - c.now)
  {
    hide Seconds, Horizon, AnswerAt, Write;
    Linear(r, 0.0, c.quantity as real);
    KeptUntilPast(f, Tat(View(e, c.drop), c.now) + Seconds(r, c.quantity as real), c.now);
    WritesInPlace(Exact, Tat(View(e, c.drop), c.now) + Seconds(r, c.quantity as real));
  }

  lemma {:induction false} TracksMeter(r: Rate, f: Format, h: seq<Call>, later: real, drop: bool)
    requires r.Valid() && h != [] && Legal(Script(r, f), h) && Printable(f, h) && Last(h).now <= later
    requires drop ==> Expired(After(Script(r, f), h), later)
    ensures Backlog(View(After(Script(r, f), Init(h)), Last(h).drop), Last(h).now) == Meter.Found(r, Remembers(f), h)
    ensures Backlog(View(After(Script(r, f), h), drop), later)
            == Meter.Drain(Meter.Left(r, Remembers(f), h), later - Last(h).now)
  {
    hide Seconds, Meter.Kept, Step, Remembers;
    if |h| > 1 {
      TracksMeter(r, f, Init(h), Last(h).now, Last(h).drop);
      AlwaysSound(r, f, Init(h));
    }
    LeavesRefinesMeter(r, f, After(Script(r, f), Init(h)), Last(h), later, drop);
  }

  /** Every run of GCRA answers like the meter, whenever keys are reclaimed, except that a refusal
      reports nothing remaining; with six-decimal storage, like the meter that rounds the instant
      at which it will have drained. */
  lemma RunRefinesMeter(r: Rate, f: Format, h: seq<Call>)
    requires r.Valid() && h != [] && Legal(Script(r, f), h) && Printable(f, h)
    ensures Answer(Script(r, f), h) == Blanked(Meter.AnswerAfter(r, Remembers(f), h), Last(h).quantity)
    ensures 0.0 <= Meter.Found(r, Remembers(f), h) <= Horizon(r) + Error(f)
  {
    hide Seconds, AnswerAt, Meter.Answer, Remembers;
    TracksMeter(r, f, h, Last(h).now, false);
    if |h| > 1 {
      AlwaysSound(r, f, Init(h));
    }
    Linear(r, 0.0, r.capacity as real);
    var e, c := After(Script(r, f), Init(h)), Last(h);
    StepRefinesMeter(r, c.now, Tat(View(e, c.drop), c.now), c.quantity);
  }

  /** When the server reclaims an expired key makes no difference to any reply of a run. */
  lemma ExpiryIsInvisible(r: Rate, f: Format, h: seq<Call>, g: seq<Call>)
    requires r.Valid() && h != [] && SameCalls(h, g) && Printable(f, h)
    requires Legal(Script(r, f), h) && Legal(Script(r, f), g)
    ensures Answer(Script(r, f), h) == Answer(Script(r, f), g)
  {
    RunRefinesMeter(r, f, h);
    RunRefinesMeter(r, f, g);
    Meter.DropsAreInvisible(r, Remembers(f), h, g);
  }

  /** After a refusal of at most burst + 1 units, the same call made again k seconds later is
      admitted if and only if k has reached Retry-After: a refusal writes nothing. */
  lemma RetryAfterIsExact(r: Rate, f: Format, h: seq<Call>, c: Call, k: nat)
    requires r.Valid() && h != [] && 1 <= k && Legal(Script(r, f), h + [c]) && Printable(f, h + [c])
    requires 1 <= c.quantity == Last(h).quantity <= r.capacity && c.now == Last(h).now + k as real
    requires Answer(Script(r, f), h).status == 1
    ensures Answer(Script(r, f), h + [c]).status
            == if k >= Answer(Script(r, f), h).retryAfter then 0 else 1
  {
    hide Step, Seconds, Horizon, Write, Remembers;
    assert Init(h + [c]) == h;
    assert forall i :: 0 <= i < |h| ==> (h + [c])[i] == h[i];
    RunRefinesMeter(r, f, h);
    RunRefinesMeter(r, f, h + [c]);
    RefusalForgetsNothing(r, f, h);
    Meter.RetryInRun(r, Remembers(f), h, c, k);
  }

  lemma RefusalForgetsNothing(r: Rate, f: Format, h: seq<Call>)
    requires h != [] && Last(h).quantity > 0 && Meter.AnswerAfter(r, Remembers(f), h).status == 1
    ensures Meter.Left(r, Remembers(f), h) == Meter.Found(r, Remembers(f), h)
  {
    hide Meter.Found, Meter.Fits, Write;
  }

  /** A peek is pure, and its remaining is exact in every state and for either storage. */
  lemma PeekIsPureAndExact(r: Rate, f: Format, e: Entry<real>, c: Call)
    requires r.Valid() && c.quantity == 0
    ensures PeekIsPure(Script(r, f), e, c) && RemainingIsExact(Script(r, f), e, c)
    ensures Script(r, f)(e, c).1.status == 0 <==> 1 <= Script(r, f)(e, c).1.remaining
  {
    hide Seconds, AnswerAt, Meter.Answer, Meter.Fits;
    var tat := Tat(View(e, c.drop), c.now);
    StepRefinesMeter(r, c.now, tat, 0);
    Meter.RemainingIsExact(r, tat - c.now, 0, 1);
    EveryRemainingIsExact(r, f, e, c);
  }

  /** With an admission too. A refusal reports nothing remaining, which is exact if and only if not
      even one unit would have been admitted. */
  lemma EveryRemainingIsExact(r: Rate, f: Format, e: Entry<real>, c: Call)
    requires r.Valid()
    ensures var s := Script(r, f);
            if c.quantity == 0 || s(e, c).1.status == 0 then RemainingIsExact(s, e, c)
            else s(e, c).1.remaining == 0
                 && (RemainingIsExact(s, e, c) <==> s(e, c.(quantity := 1)).1.status == 1)
  {
    hide Seconds, AnswerAt, Meter.Answer, Meter.Fits;
    var s, tat := Script(r, f), Tat(View(e, c.drop), c.now);
    var a, b := s(e, c).1, tat - c.now;
    StepRefinesMeter(r, c.now, tat, c.quantity);
    if c.quantity > 0 {
      MeterAdmits(r, b, c.quantity);
    }
    forall q: nat | Taken(c, a) < q
      ensures s(e, c.(quantity := q)).1.status == 0
              <==> q - Taken(c, a) <= Meter.Answer(r, b, c.quantity).remaining
    {
      StepRefinesMeter(r, c.now, tat, q);
      Meter.RemainingIsExact(r, b, c.quantity, q - Taken(c, a));
      MeterAdmits(r, b, q);
    }
    assert s(e, c.(quantity := 1)).1.status in {0, 1} by {
      StepRefinesMeter(r, c.now, tat, 1);
      MeterAdmits(r, b, 1);
    }
  }

  /** Reset is the least number of whole seconds after which the whole burst is admitted, if the
      TAT that is left is written without loss. */
  lemma ResetIsExact(r: Rate, f: Format, h: seq<Call>, c: Call, k: nat)
    requires r.Valid() && h != [] && Legal(Script(r, f), h + [c]) && Printable(f, h + [c])
    requires c.quantity == r.capacity && c.now == Last(h).now + k as real
    requires f.Exact? || Answer(Script(r, f), h).status == 1 || Last(h).quantity == 0
             || Microseconds(Seconds(r, Last(h).quantity as real) + BacklogFound(r, f, h))
    ensures Answer(Script(r, f), h + [c]).status == if k >= Answer(Script(r, f), h).reset then 0 else 1
  {
    hide Step, Seconds, Horizon, Write, Microseconds, Meter.Found, Meter.Kept, Meter.Fits, Meter.Room;
    assert Init(h + [c]) == h;
    assert forall i :: 0 <= i < |h| ==> (h + [c])[i] == h[i];
    RunRefinesMeter(r, f, h);
    RunRefinesMeter(r, f, h + [c]);
    TracksMeter(r, f, h, Last(h).now, false);
    RememberedTat(r, f, h);
    Meter.ResetInRun(r, Remembers(f), h, c, k);
  }

  lemma RememberedTat(r: Rate, f: Format, h: seq<Call>)
    requires r.Valid() && h != [] && (f.Exact? || Microseconds(Last(h).now))
    requires f.Exact? || Meter.AnswerAfter(r, Remembers(f), h).status == 1 || Last(h).quantity == 0
             || Microseconds(Seconds(r, Last(h).quantity as real) + Meter.Found(r, Remembers(f), h))
    ensures Meter.Left(r, Remembers(f), h) == Meter.Next(r, Meter.Found(r, Remembers(f), h), Last(h).quantity)
  {
    hide Seconds, Write, Microseconds, Meter.Found;
    var left := Meter.Next(r, Meter.Found(r, Remembers(f), h), Last(h).quantity);
    if f.SixDecimals? && Meter.AnswerAfter(r, Remembers(f), h).status == 0 && Last(h).quantity > 0 {
      MillionthsAdd(Last(h).now, left);
      WritesInPlace(SixDecimals, Last(h).now + left);
    }
  }

  lemma MeterAdmits(r: Rate, b: real, q: nat)
    requires 1 <= q
    ensures Meter.Answer(r, b, q).status == if Meter.Fits(r, b, q) then 0 else 1
  {
  }

  /** Every reply of every run meets the contract, except a peek at a TAT beyond the horizon. */
  lemma RepliesMeetContract(r: Rate, f: Format, h: seq<Call>)
    requires r.Valid() && h != [] && Legal(Script(r, f), h) && Printable(f, h)
    ensures var a := Answer(Script(r, f), h);
            && (Contract(a) <==>
                  Last(h).quantity > 0
                  || BacklogFound(r, f, h) <= Horizon(r))
            && (f.Exact? ==> Contract(a)) && a.limit == r.capacity && a.remaining <= a.limit
            && (a.retryAfter == -1 <==> a.status == 0 || Last(h).quantity == 0)
  {
    hide Remembers, Meter.Answer, Seconds;
    TracksMeter(r, f, h, Last(h).now, false);
    RunRefinesMeter(r, f, h);
    BlankedMeetsContract(r, Meter.Found(r, Remembers(f), h), Last(h).quantity);
  }

  lemma BlankedMeetsContract(r: Rate, b: real, q: nat)
    requires r.Valid() && 0.0 <= b
    ensures var a := Blanked(Meter.Answer(r, b, q), q);
            && (Contract(a) <==> q > 0 || b <= Horizon(r))
            && a.limit == r.capacity && a.remaining <= a.limit
            && (a.retryAfter == -1 <==> a.status == 0 || q == 0)
  {
    hide Seconds, Units;
    Linear(r, 0.0, q as real);
    if b <= Horizon(r) {
      Meter.AnswerMeetsContract(r, b, q);
    } else {
      BackAndForth(r, r.capacity as real);
      Linear(r, b, Horizon(r));
      Linear(r, 0.0, b);
    }
  }

  /** A peek breaks the promise of a non-negative remaining just when the stored TAT lies beyond
      the horizon. */
  lemma PeekGoesNegative(r: Rate, f: Format, e: Entry<real>, c: Call)
    requires r.Valid() && c.quantity == 0
    ensures Step(r, f, e, c).1.remaining < 0 <==> c.now + Horizon(r) < Tat(View(e, c.drop), c.now)
  {
    hide Seconds, Units, Ratio;
    var slack := Slack(r, c.now, Tat(View(e, c.drop), c.now));
    Dividing(r, slack);
    Linear(r, 0.0, slack);
  }

  /** Rounding to six decimals can put it there: a unit and a peek in the same microsecond. */
  lemma RoundingMakesPeekNegative()
    ensures var r := Configured(3, 2, 1);
            var h := [Call(100.0, 1, false), Call(100.0, 0, false)];
            && Legal(Script(r, SixDecimals), h) && Printable(SixDecimals, h)
            && Answer(Script(r, SixDecimals), h).remaining < 0
  {
    var r := Configured(3, 2, 1);
    var s, a, b := Script(r, SixDecimals), Call(100.0, 1, false), Call(100.0, 0, false);
    assert Init([a, b]) == [a] && Init([a]) == [];
    var t := 100.0 + Ratio(2.0, 3.0);
    assert After(s, []) == Gone && Horizon(r) == Seconds(r, 1.0) == Ratio(2.0, 3.0);
    assert Nearest(t) == 100666667;
    assert After(s, [a]) == Step(r, SixDecimals, Gone, a).0;
    assert Tat(View(After(s, [a]), false), 100.0) == Millionths(100666667) > t;
    assert Legal(s, [a]);
    assert 100.0 == Millionths(100000000);
    PeekGoesNegative(r, SixDecimals, After(s, [a]), b);
  }

  /** On the clock's grid rounding commutes with the clock. */
  lemma WriteShifts(now: real, x: real)
    requires Microseconds(now)
    ensures Write(SixDecimals, now + x) == now + Write(SixDecimals, x)
  {
    var n: int :| now == Millionths(n);
    FloorIs((now + x) * 1000000.0 + 0.5, n + Nearest(x));
  }

  /** If the horizon itself is not rounded up, no stored TAT lies beyond it. */
  lemma {:induction false} WithinHorizon(r: Rate, h: seq<Call>)
    requires r.Valid() && h != [] && Legal(Script(r, SixDecimals), h) && Printable(SixDecimals, h)
    requires Write(SixDecimals, Horizon(r)) <= Horizon(r)
    ensures var e := After(Script(r, SixDecimals), h);
            e.Held? ==> e.value <= Last(h).now + Horizon(r)
  {
    hide Seconds, Horizon, Write, AnswerAt, Microseconds;
    if |h| > 1 {
      WithinHorizon(r, Init(h));
    }
    var e, c := After(Script(r, SixDecimals), Init(h)), Last(h);
    var newTat := Tat(View(e, c.drop), c.now) + Seconds(r, c.quantity as real);
    if newTat <= c.now + Horizon(r) {
      WriteIsMonotone(SixDecimals, newTat, c.now + Horizon(r));
      WriteShifts(c.now, Horizon(r));
    }
  }

  /** If it is rounded up, taking the whole burst and peeking at once shows it. */
  lemma BeyondHorizon(r: Rate) returns (h: seq<Call>)
    requires r.Valid() && Write(SixDecimals, Horizon(r)) > Horizon(r)
    ensures h != [] && Legal(Script(r, SixDecimals), h) && Printable(SixDecimals, h)
    ensures !Contract(Answer(Script(r, SixDecimals), h))
  {
    hide Write, Seconds, Microseconds;
    var s, a, b := Script(r, SixDecimals), Call(0.0, r.capacity, false), Call(0.0, 0, false);
    h := [a, b];
    assert Init(h) == [a] && Init([a]) == [] && Last(h) == b;
    assert Ordered([a]) && Ordered(h);
    LegalUndropped(s, h);
    WholeIsMillionths(0);
    assert Microseconds(0.0);
    WholeBurst(r);
    Linear(r, 0.0, r.capacity as real);
    assert After(s, []) == Gone && After(s, [a]) == Step(r, SixDecimals, Gone, a).0;
    assert Tat(View(After(s, [a]), false), 0.0) == Write(SixDecimals, Horizon(r));
    PeekGoesNegative(r, SixDecimals, After(s, [a]), b);
  }

  lemma WholeBurst(r: Rate)
    requires r.Valid()
    ensures var (e, a) := Step(r, SixDecimals, Gone, Call(0.0, r.capacity, false));
            e.Held? && e.value == Write(SixDecimals, Horizon(r))
  {
    hide Write, Seconds;
    assert 0.0 + Seconds(r, r.capacity as real) == Horizon(r);
  }

  /** So, with six-decimal storage, some run of a zone breaks the reply contract if and only if its
      horizon, the period's worth of its burst, is rounded up when it is written. */
  lemma ContractCanBreak(r: Rate)
    requires r.Valid()
    ensures (exists h :: && h != [] && Legal(Script(r, SixDecimals), h) && Printable(SixDecimals, h)
                         && !Contract(Answer(Script(r, SixDecimals), h)))
            <==> Write(SixDecimals, Horizon(r)) > Horizon(r)
  {
    hide Write, Seconds, Contract, Legal, Printable, Step;
    if Write(SixDecimals, Horizon(r)) > Horizon(r) {
      var h := BeyondHorizon(r);
    } else {
      forall h | h != [] && Legal(Script(r, SixDecimals), h) && Printable(SixDecimals, h)
        ensures Contract(Answer(Script(r, SixDecimals), h))
      {
        AlwaysKept(r, SixDecimals, h);
      }
    }
  }

  /** Where it is not, or nothing is rounded at all, every reply of every run meets the contract. */
  lemma AlwaysKept(r: Rate, f: Format, h: seq<Call>)
    requires r.Valid() && h != [] && Legal(Script(r, f), h) && Printable(f, h)
    requires Write(f, Horizon(r)) <= Horizon(r)
    ensures Contract(Answer(Script(r, f), h))
    ensures 0.0 <= BacklogFound(r, f, h) <= Horizon(r)
  {
    hide Write, Seconds, Contract, Step;
    RepliesMeetContract(r, f, h);
    Linear(r, 0.0, r.capacity as real);
    if |h| > 1 {
      if f.SixDecimals? {
        WithinHorizon(r, Init(h));
      } else {
        AlwaysSound(r, f, Init(h));
      }
    }
  }

  /** Nor does any number of its replies exceed a bound on the horizon and what was asked for. */
  lemma RepliesFit(r: Rate, f: Format, h: seq<Call>, bound: int)
    requires r.Valid() && h != [] && Legal(Script(r, f), h) && Printable(f, h) && Write(f, Horizon(r)) <= Horizon(r)
    requires 1 <= bound && Horizon(r) <= bound as real && Seconds(r, Last(h).quantity as real) <= bound as real
    ensures var a := Answer(Script(r, f), h);
            a.limit == r.capacity && a.remaining <= r.capacity && a.retryAfter <= bound && a.reset <= bound
  {
    hide Remembers, Meter.Answer, Meter.Found, Step, Write;
    RunRefinesMeter(r, f, h);
    TracksMeter(r, f, h, Last(h).now, false);
    AlwaysKept(r, f, h);
    Meter.AnswerFits(r, Meter.Found(r, Remembers(f), h), Last(h).quantity, bound);
  }

  /** The backlog that the last call of h finds. */
  function BacklogFound(r: Rate, f: Format, h: seq<Call>): real
    requires h != [] && r.emission != 0.0
  {
    Backlog(View(After(Script(r, f), Init(h)), Last(h).drop), Last(h).now)
  }

  /** A value no later than the stored TAT and its deadline. */
  function Reach(e: Entry<real>, now: real): real {
    if e.Held? && e.expireAt.Some? then Max(now, Min(e.value, e.expireAt.value)) else now
  }

  /** One call takes its worth out of the free seconds, up to one rounding, and never more than
      there are. */
  lemma TakesItsWorth(r: Rate, f: Format, e: Entry<real>, c: Call, since: real)
    requires r.Valid() && since <= c.now && (c.drop ==> Expired(e, c.now))
    ensures var (e1, a) := Step(r, f, e, c);
            var worth := if a.status == 0 then Seconds(r, c.quantity as real) else 0.0;
            var reach := Max(c.now, Reach(e, since));
            && worth - Reach(e1, c.now) <= -reach + (if c.quantity > 0 && a.status == 0 then Error(f) else 0.0)
            && (0.0 < worth ==> reach + worth <= c.now + Horizon(r))
  {
    hide Seconds, Horizon, Write, Error, AnswerAt;
    var tat := Tat(View(e, c.drop), c.now);
    AdmitsWhenSlack(r, c.now, tat, c.quantity);
    Linear(r, 0.0, c.quantity as real);
    WriteError(f, tat + Seconds(r, c.quantity as real));
  }

  /** Seconds' worth admitted since `from`, plus the seconds free before the horizon, never
      exceed the horizon plus the time that has passed, up to the rounding of the writes. */
  lemma {:induction false} Budget(r: Rate, f: Format, h: seq<Call>, from: real, to: real)
    requires r.Valid() && h != [] && Legal(Script(r, f), h)
    requires from <= Last(h).now < to
    ensures var worth := Seconds(r, AdmittedIn(Script(r, f), h, from, to) as real);
            var bound := Horizon(r) + (Last(h).now - from) + Errors(f, AdmittingIn(Script(r, f), h, from, to));
            && worth <= bound
            && worth + (Last(h).now + Horizon(r) - Reach(After(Script(r, f), h), Last(h).now)) <= bound
  {
    hide Seconds, Error, Errors, Step;
    var s, c := Script(r, f), Last(h);
    var e := After(s, Init(h));
    var before := AdmittedIn(s, Init(h), from, to);
    if Init(h) == [] || Last(Init(h)).now < from {
      NothingBefore(s, Init(h), from, to);
    } else {
      Budget(r, f, Init(h), from, to);
    }
    TakesItsWorth(r, f, e, c, if Init(h) == [] then c.now else Last(Init(h)).now);
    assert (before + c.quantity) as real == before as real + c.quantity as real;
    Linear(r, before as real + c.quantity as real, c.quantity as real);
    Linear(r, 0.0, c.quantity as real);
    Linear(r, 0.0, r.capacity as real);
    ErrorsAdd(f, AdmittingIn(s, Init(h), from, to));
  }

  lemma AdmitsWhenSlack(r: Rate, now: real, tat: real, q: nat)
    requires r.Valid()
    ensures q > 0 ==> (AnswerAt(r, now, tat, q).status == 0 <==> Slack(r, now, tat + Seconds(r, q as real)) >= 0.0)
  {
  }

  /** In every run, a span of time admits at most burst + 1 units plus one per emission
      interval; with six-decimal storage, plus half a microsecond for each admission. */
  lemma {:induction false} RateBound(r: Rate, f: Format, h: seq<Call>, from: real, to: real)
    requires r.Valid() && Legal(Script(r, f), h) && from <= to
    ensures AdmittedIn(Script(r, f), h, from, to) as real
            <= r.capacity as real + Units(r, (to - from) + Errors(f, AdmittingIn(Script(r, f), h, from, to)))
  {
    hide Seconds, Units, Errors;
    var n := AdmittedIn(Script(r, f), h, from, to);
    var span := (to - from) + Errors(f, AdmittingIn(Script(r, f), h, from, to));
    ErrorsAdd(f, AdmittingIn(Script(r, f), h, from, to));
    Linear(r, 0.0, span);
    if h == [] {
    } else if from <= Last(h).now < to {
      Budget(r, f, h, from, to);
      Linear(r, Seconds(r, n as real) - Horizon(r), span);
      Linear(r, Seconds(r, n as real), Horizon(r));
      BackAndForth(r, n as real);
      BackAndForth(r, r.capacity as real);
    } else {
      RateBound(r, f, Init(h), from, to);
    }
  }
}
