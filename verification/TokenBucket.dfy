/** The token bucket: tokens and the instant they were counted, refilled lazily. */
module TokenBucket {
  import opened Foundation
  import opened Histories
  import opened Rates
  import opened Stored
  import Meter

  datatype Bucket = Bucket(tokens: real, ts: real)

  /** Tokens in the bucket at an instant; a missing key is a full bucket. */
  function Level(r: Rate, b: Option<Bucket>, now: real): real
  {
    if b.None? then r.capacity as real
    else if b.value.ts < now then
      Min(r.capacity as real, b.value.tokens + Units(r, now - b.value.ts))
    else b.value.tokens
  }

  function Stamp(b: Option<Bucket>, now: real): real {
    if b.None? then now else Max(b.value.ts, now)
  }

  /** Seconds the key is kept: long enough to refill an empty bucket. */
  function Keep(r: Rate): int
    requires r.perSecond != 0.0
  {
    AtLeast(1, Ceil(Ratio(r.capacity as real, r.perSecond)))
  }

  /** Whole seconds until the bucket is full again. */
  function Refill(r: Rate, level: real): int
    requires r.perSecond != 0.0
  {
    AtLeast(0, Ceil(Ratio(r.capacity as real - level, r.perSecond)))
  }

  /** Whole seconds until q tokens are there. */
  function Wait(r: Rate, level: real, q: nat): int
    requires r.perSecond != 0.0
  {
    AtLeast(1, Ceil(Ratio(q as real - level, r.perSecond)))
  }

  /** Tokens left after asking for q of them. */
  function Spend(level: real, q: nat): real {
    if q as real <= level then level - q as real else level
  }

  function AnswerAt(r: Rate, level: real, q: nat): Reply
    requires r.perSecond != 0.0
  {
    if q == 0 then
      Reply(if level < 1.0 then 1 else 0, r.capacity, Floor(level), -1, Refill(r, level))
    else if q as real <= level then
      Reply(0, r.capacity, Floor(level - q as real), -1, Refill(r, level - q as real))
    else
      Reply(1, r.capacity, Floor(level), Wait(r, level, q), Refill(r, level))
  }

  function Step(r: Rate, f: Format, e: Entry<Bucket>, c: Call): (Entry<Bucket>, Reply)
    requires r.perSecond != 0.0
  {
    var view := View(e, c.drop);
    var level := Level(r, view, c.now);
    (if c.quantity > 0 then
       Held(Bucket(Write(f, Spend(level, c.quantity)), Write(f, Stamp(view, c.now))),
            Some(c.now + Keep(r) as real))
     else if c.drop then Gone else e,
     AnswerAt(r, level, c.quantity))
  }

  function Script(r: Rate, f: Format): Histories.Script<Bucket>
    requires r.perSecond != 0.0
  {
    (e, c) => Step(r, f, e, c)
  }

  /** The first half of the Lua body: read the hash and refill it. */
  method Refilled(key: Key<Bucket>, ghost r: Rate, capacity: int, rate: real, now: real)
    returns (tokens: real, ts: real)
    requires r.capacity == capacity && r.perSecond == rate
    modifies key
    ensures var view := View(old(key.entry), Expired(old(key.entry), now));
            && key.entry == (if Expired(old(key.entry), now) then Gone else old(key.entry))
            && tokens == Level(r, view, now) && ts == Stamp(view, now)
  {
    var data := key.Get(now);
    tokens, ts := capacity as real, now;
    if data.Some? {
      tokens, ts := data.value.tokens, data.value.ts;
    }
    var elapsed := now - ts;
    if elapsed > 0.0 {
      tokens := tokens + elapsed * rate;
      if tokens > capacity as real {
        tokens := capacity as real;
      }
      ts := now;
    }
  }

  /** The Lua body, step by step on the key. */
  method TokenBucketScript(key: Key<Bucket>, requests: int, period: int, burst: int, quantity: nat,
                           now: real, f: Format)
    returns (reply: Reply)
    requires 1 <= requests && 1 <= period && 0 <= burst
    modifies key
    ensures (key.entry, reply)
            == Step(Configured(requests, period, requests + burst), f, old(key.entry),
                    Call(now, quantity, Expired(old(key.entry), now)))
  {
    var capacity := requests + burst;
    var rate := Ratio(requests as real, period as real);
    ghost var r := Configured(requests, period, capacity);
    assert rate == r.perSecond && rate != 0.0;
    hide Level, Stamp, Ratio, Write, Floor, Ceil, Configured, Rate.Valid;
    var tokens, ts := Refilled(key, r, capacity, rate, now);
    ghost var level := tokens;
    var ttl := AtLeast(1, Ceil(Ratio(capacity as real, rate)));
    var reset := AtLeast(0, Ceil(Ratio(capacity as real - tokens, rate)));
    if quantity == 0 {
      var status := 0;
      if tokens < 1.0 {
        status := 1;
      }
      reply := Reply(status, capacity, Floor(tokens), -1, reset);
      assert reply == AnswerAt(r, level, quantity);
      return;
    }
    if tokens >= quantity as real {
      tokens := tokens - quantity as real;
      key.Put(Bucket(Write(f, tokens), Write(f, ts)));
      key.Expire(now, ttl);
      reset := AtLeast(0, Ceil(Ratio(capacity as real - tokens, rate)));
      reply := Reply(0, capacity, Floor(tokens), -1, reset);
      assert reply == AnswerAt(r, level, quantity);
      return;
    }
    key.Put(Bucket(Write(f, tokens), Write(f, ts)));
    key.Expire(now, ttl);
    var retryAfter := AtLeast(1, Ceil(Ratio(quantity as real - tokens, rate)));
    reply := Reply(1, capacity, Floor(tokens), retryAfter, reset);
    assert reply == AnswerAt(r, level, quantity);
  }

  /** A stored bucket is between empty and full, was counted in the past, and is kept until an empty
      one would be full again, to the next whole second. */
  ghost predicate Sound(r: Rate, e: Entry<Bucket>, now: real)
    requires r.Valid()
  {
    e.Held? ==>
      && 0.0 <= e.value.tokens <= r.capacity as real && e.value.ts <= now
      && e.expireAt.Some? && e.value.ts + Horizon(r) <= e.expireAt.value < e.value.ts + Horizon(r) + 1.0
  }

  lemma LevelInRange(r: Rate, e: Entry<Bucket>, c: Call)
    requires r.Valid() && Sound(r, e, c.now)
    ensures 0.0 <= Level(r, View(e, c.drop), c.now) <= r.capacity as real
  {
    hide Units, Seconds;
    if e.Held? {
      Linear(r, 0.0, c.now - e.value.ts);
    }
  }

  lemma KeepIsEnough(r: Rate)
    requires r.Valid()
    ensures Horizon(r) <= Keep(r) as real < Horizon(r) + 1.0
  {
    hide Seconds, Ratio;
    Linear(r, r.capacity as real, 0.0);
    Dividing(r, r.capacity as real);
  }

  lemma StepIsSound(r: Rate, f: Format, e: Entry<Bucket>, c: Call)
    requires r.Valid() && Sound(r, e, c.now) && (f.Exact? || Microseconds(c.now))
    ensures Sound(r, Step(r, f, e, c).0, c.now)
  {
    hide Level, Write, AnswerAt, Horizon, Keep;
    var level := Level(r, View(e, c.drop), c.now);
    LevelInRange(r, e, c);
    KeepIsEnough(r);
    assert Stamp(View(e, c.drop), c.now) == c.now;
    var after := Spend(level, c.quantity);
    WritesInPlace(f, c.now);
    WriteKeepsWhole(f, 0);
    WriteKeepsWhole(f, r.capacity);
    WriteIsMonotone(f, 0.0, after);
    WriteIsMonotone(f, after, r.capacity as real);
  }

  lemma {:induction false} AlwaysSound(r: Rate, f: Format, h: seq<Call>)
    requires r.Valid() && h != [] && Legal(Script(r, f), h) && Printable(f, h)
    ensures Sound(r, After(Script(r, f), h), Last(h).now)
  {
    if |h| > 1 {
      AlwaysSound(r, f, Init(h));
    }
    StepIsSound(r, f, After(Script(r, f), Init(h)), Last(h));
  }

  /** The bucket read as a backlog: the seconds it needs to refill. */
  function Backlog(r: Rate, b: Option<Bucket>, now: real): real {
    Seconds(r, r.capacity as real - Level(r, b, now))
  }

  /** Refilling is draining, and by its deadline a bucket is full, so dropping it changes nothing. */
  lemma RefillIsDrain(r: Rate, e: Entry<Bucket>, since: real, now: real, drop: bool)
    requires r.Valid() && e.Held? && Sound(r, e, since) && since <= now
    requires drop ==> Expired(e, now)
    ensures Backlog(r, View(e, drop), now)
            == Meter.Drain(Seconds(r, r.capacity as real - e.value.tokens), now - e.value.ts)
  {
    hide Seconds, Units;
    var gap, gained := r.capacity as real - e.value.tokens, Units(r, now - e.value.ts);
    BackAndForth(r, now - e.value.ts);
    Linear(r, gap, gained);
    Linear(r, gap, r.capacity as real);
  }

  lemma LevelIsRoom(r: Rate, level: real)
    requires r.Valid() && 0.0 <= level <= r.capacity as real
    ensures var b := Seconds(r, r.capacity as real - level);
            0.0 <= b <= Horizon(r) && Meter.Room(r, b) == level
  {
    hide Seconds, Units;
    BackAndForth(r, r.capacity as real - level);
    Linear(r, 0.0, r.capacity as real - level);
    Linear(r, r.capacity as real - level, r.capacity as real);
  }

  /** Spending q tokens queues q units of work. */
  lemma SpendIsNext(r: Rate, level: real, b: real, q: nat)
    requires r.Valid() && 0.0 <= level <= r.capacity as real
    requires b == Seconds(r, r.capacity as real - level)
    ensures Meter.Fits(r, b, q) <==> q as real <= level
    ensures Meter.Overshoot(r, b, q) == Seconds(r, q as real - level)
    ensures Meter.Next(r, b, q) == Seconds(r, r.capacity as real - Spend(level, q))
  {
    hide Seconds, Meter.Room, Meter.Overshoot, Meter.Fits;
    LevelIsRoom(r, level);
    Meter.InUnits(r, b, q);
    Linear(r, r.capacity as real - level + q as real, q as real);
  }

  lemma AnswersAgree(r: Rate, level: real, b: real, q: nat)
    requires r.Valid() && 0.0 <= level <= r.capacity as real
    requires b == Seconds(r, r.capacity as real - level)
    ensures 0.0 <= b <= Horizon(r) && AnswerAt(r, level, q) == Meter.Answer(r, b, q)
  {
    hide Seconds, Horizon, Ratio, Meter.Room, Meter.Overshoot, Meter.Fits, Meter.Next;
    LevelIsRoom(r, level);
    SpendIsNext(r, level, b, q);
    SpendIsNext(r, level, b, 1);
    LevelIsRoom(r, Spend(level, q));
    Dividing(r, r.capacity as real - level);
    Dividing(r, r.capacity as real - Spend(level, q));
    Dividing(r, q as real - level);
  }

  /** How the stored bucket remembers a backlog. */
  function Remembers(f: Format): Meter.Memory {
    if f.Exact? then Meter.Perfect else Meter.RoundedUnits
  }

  /** One call on the bucket is one call on the meter. */
  lemma StepRefinesMeter(r: Rate, f: Format, e: Entry<Bucket>, c: Call)
    requires r.Valid() && Sound(r, e, c.now)
    ensures var b := Backlog(r, View(e, c.drop), c.now);
            && 0.0 <= b <= Horizon(r)
            && Step(r, f, e, c).1 == Meter.Answer(r, b, c.quantity)
  {
    hide Seconds, Level, AnswerAt, Meter.Answer;
    var level := Level(r, View(e, c.drop), c.now);
    LevelInRange(r, e, c);
    AnswersAgree(r, level, Backlog(r, View(e, c.drop), c.now), c.quantity);
  }

  /** What a call leaves, read at any later time, is what the meter remembers, drained. */
  lemma LeavesRefinesMeter(r: Rate, f: Format, e: Entry<Bucket>, c: Call, later: real, drop: bool)
    requires r.Valid() && Sound(r, e, c.now) && c.now <= later && (f.Exact? || Microseconds(c.now))
    requires c.drop ==> Expired(e, c.now)
    requires drop ==> Expired(Step(r, f, e, c).0, later)
    ensures var b := Backlog(r, View(e, c.drop), c.now);
            Backlog(r, View(Step(r, f, e, c).0, drop), later)
            == Meter.Drain(Meter.Kept(r, Remembers(f), c.now, b, c.quantity), later - c.now)
  {
    hide Seconds, Units, Meter.Next, Meter.Room, AnswerAt, Write;
    var e1, level := Step(r, f, e, c).0, Level(r, View(e, c.drop), c.now);
    LevelInRange(r, e, c);
    StepIsSound(r, f, e, c);
    SpendIsNext(r, level, Backlog(r, View(e, c.drop), c.now), c.quantity);
    Linear(r, 0.0, 0.0);
    if c.quantity > 0 {
      LevelIsRoom(r, Spend(level, c.quantity));
      WritesInPlace(f, c.now);
      WritesInPlace(Exact, Spend(level, c.quantity));
      RefillIsDrain(r, e1, c.now, later, drop);
    } else if e.Held? && !c.drop {
      RefillIsDrain(r, e, c.now, later, drop);
      RefillIsDrain(r, e, c.now, c.now, false);
    }
  }

  lemma FreshIsEmpty(r: Rate, now: real)
    ensures Backlog(r, None, now) == 0.0
  {
  }

  lemma {:induction false} TracksMeter(r: Rate, f: Format, h: seq<Call>, later: real, drop: bool)
    requires r.Valid() && h != [] && Legal(Script(r, f), h) && Printable(f, h) && Last(h).now <= later
    requires drop ==> Expired(After(Script(r, f), h), later)
    ensures Backlog(r, View(After(Script(r, f), Init(h)), Last(h).drop), Last(h).now)
            == Meter.Found(r, Remembers(f), h)
    ensures Backlog(r, View(After(Script(r, f), h), drop), later)
            == Meter.Drain(Meter.Left(r, Remembers(f), h), later - Last(h).now)
  {
    hide Seconds, Level, Meter.Kept, Step, Remembers;
    var e := After(Script(r, f), Init(h));
    if |h| > 1 {
      TracksMeter(r, f, Init(h), Last(h).now, Last(h).drop);
      AlwaysSound(r, f, Init(h));
    } else {
      FreshIsEmpty(r, Last(h).now);
    }
    LeavesRefinesMeter(r, f, e, Last(h), later, drop);
  }

  /** Every run of the token bucket answers like the meter, whenever keys are reclaimed; with
      six-decimal storage, like the meter that rounds the units left. */
  lemma RunRefinesMeter(r: Rate, f: Format, h: seq<Call>)
    requires r.Valid() && h != [] && Legal(Script(r, f), h) && Printable(f, h)
    ensures Answer(Script(r, f), h) == Meter.AnswerAfter(r, Remembers(f), h)
    ensures 0.0 <= Meter.Found(r, Remembers(f), h) <= Horizon(r)
  {
    hide Remembers;
    TracksMeter(r, f, h, Last(h).now, false);
    if |h| > 1 {
      AlwaysSound(r, f, Init(h));
    }
    StepRefinesMeter(r, f, After(Script(r, f), Init(h)), Last(h));
  }

  /** When the server reclaims an expired key makes no difference to any reply of a run. */
  lemma ExpiryIsInvisible(r: Rate, f: Format, h: seq<Call>, g: seq<Call>)
    requires r.Valid() && h != [] && SameCalls(h, g) && Printable(f, h)
    requires Legal(Script(r, f), h) && Legal(Script(r, f), g)
    ensures Answer(Script(r, f), h) == Answer(Script(r, f), g)
  {
    RunRefinesMeter(r, f, h);
    RunRefinesMeter(r, f, g);
    Meter.DropsAreInvisible(r, Remembers(f), h, g);
  }

  /** The level that the last call of h finds. */
  function LevelFound(r: Rate, f: Format, h: seq<Call>): real
    requires h != [] && r.perSecond != 0.0
  {
    Level(r, View(After(Script(r, f), Init(h)), Last(h).drop), Last(h).now)
  }

  /** After a refusal of at most the capacity, the same call made again k seconds later is admitted
      if and only if the tokens that the refusal has written, not those that it has found, refill
      in that time. */
  lemma RetryCondition(r: Rate, f: Format, h: seq<Call>, c: Call, k: nat)
    requires r.Valid() && h != [] && 1 <= k && Legal(Script(r, f), h + [c]) && Printable(f, h + [c])
    requires 1 <= c.quantity == Last(h).quantity <= r.capacity && c.now == Last(h).now + k as real
    requires Answer(Script(r, f), h).status == 1
    ensures Answer(Script(r, f), h + [c]).status
            == if Seconds(r, c.quantity as real - Write(f, LevelFound(r, f, h))) <= k as real then 0 else 1
  {
    hide Level, Seconds, Units, Write, Step, Meter.Found, Meter.Fits, Meter.Room, Meter.Overshoot, AnswerAt;
    PrintablePrefix(f, h, c);
    RunRefinesMeter(r, f, h);
    RunRefinesMeter(r, f, h + [c]);
    Meter.RetryCondition(r, Remembers(f), h, c, k);
    TracksMeter(r, f, h, Last(h).now, false);
    RememberedLevel(r, f, h);
  }

  lemma PrintablePrefix(f: Format, h: seq<Call>, c: Call)
    requires Printable(f, h + [c])
    ensures Init(h + [c]) == h && Printable(f, h)
  {
    assert forall i :: 0 <= i < |h| ==> (h + [c])[i] == h[i];
  }

  /** What the meter remembers of a refusal, in units. */
  lemma RememberedLevel(r: Rate, f: Format, h: seq<Call>)
    requires r.Valid() && h != [] && Legal(Script(r, f), h) && Printable(f, h)
    requires Last(h).quantity > 0 && Answer(Script(r, f), h).status == 1
    requires Meter.Found(r, Remembers(f), h) == Seconds(r, r.capacity as real - LevelFound(r, f, h))
    ensures Meter.Overshoot(r, Meter.Left(r, Remembers(f), h), Last(h).quantity)
            == Seconds(r, Last(h).quantity as real - Write(f, LevelFound(r, f, h)))
  {
    hide Level, Seconds, Write, Units;
    var level, q := LevelFound(r, f, h), Last(h).quantity;
    if |h| > 1 {
      AlwaysSound(r, f, Init(h));
    }
    LevelInRange(r, After(Script(r, f), Init(h)), Last(h));
    LevelIsRoom(r, level);
    SpendIsNext(r, level, Seconds(r, r.capacity as real - level), q);
    var w := Write(f, level);
    WritesInPlace(Exact, level);
    Linear(r, r.capacity as real - w, r.capacity as real - q as real);
    Linear(r, r.capacity as real, r.capacity as real - w);
    Linear(r, r.capacity as real, r.capacity as real - q as real);
    Linear(r, q as real, w);
    Linear(r, r.capacity as real, w);
  }

  /** So Retry-After is sufficient and minimal whenever the level is written without loss, as exact
      storage does. */
  lemma RetryAfterIsExact(r: Rate, f: Format, h: seq<Call>, c: Call, k: nat)
    requires r.Valid() && h != [] && 1 <= k && Legal(Script(r, f), h + [c]) && Printable(f, h + [c])
    requires 1 <= c.quantity == Last(h).quantity <= r.capacity && c.now == Last(h).now + k as real
    requires Answer(Script(r, f), h).status == 1
    requires f.Exact? || Microseconds(LevelFound(r, f, h))
    ensures Answer(Script(r, f), h + [c]).status
            == if k >= Answer(Script(r, f), h).retryAfter then 0 else 1
  {
    hide Level, LevelFound, Seconds, Ratio, Write, Script, Answer, Legal, Printable, Microseconds;
    RetryCondition(r, f, h, c, k);
    WritesInPlace(f, LevelFound(r, f, h));
    RefusalSays(r, f, h);
  }

  /** What a refusal says about the level it has found. */
  lemma RefusalSays(r: Rate, f: Format, h: seq<Call>)
    requires r.Valid() && h != [] && Last(h).quantity > 0 && Answer(Script(r, f), h).status == 1
    ensures LevelFound(r, f, h) < Last(h).quantity as real
    ensures Answer(Script(r, f), h).retryAfter
            == AtLeast(1, Ceil(Seconds(r, Last(h).quantity as real - LevelFound(r, f, h))))
  {
    hide Level, Seconds, Ratio, Write;
    Dividing(r, Last(h).quantity as real - LevelFound(r, f, h));
  }

  /** With rounded storage, waiting out Retry-After is off by at most the worth of one rounding:
      when a unit is worth at most two million seconds, one second more is always enough, and any
      wait more than a second shorter is refused. */
  lemma RetryAfterWithinOneSecond(r: Rate, f: Format, h: seq<Call>, c: Call, k: nat)
    requires r.Valid() && h != [] && 1 <= k && Legal(Script(r, f), h + [c]) && Printable(f, h + [c])
    requires 1 <= c.quantity == Last(h).quantity <= r.capacity && c.now == Last(h).now + k as real
    requires Answer(Script(r, f), h).status == 1 && r.emission <= 2000000.0
    ensures k > Answer(Script(r, f), h).retryAfter ==> Answer(Script(r, f), h + [c]).status == 0
    ensures k < Answer(Script(r, f), h).retryAfter - 1 ==> Answer(Script(r, f), h + [c]).status == 1
  {
    hide Level, LevelFound, Seconds, Ratio, Write, Script, Answer, Legal, Printable;
    RetryCondition(r, f, h, c, k);
    RefusalSays(r, f, h);
    WriteError(f, LevelFound(r, f, h));
    SmallWorth(r, c.quantity as real - LevelFound(r, f, h), c.quantity as real - Write(f, LevelFound(r, f, h)));
  }

  lemma SmallWorth(r: Rate, x: real, y: real)
    requires r.Valid() && r.emission <= 2000000.0 && -0.0000005 <= x - y <= 0.0000005
    ensures -1.0 <= Seconds(r, x) - Seconds(r, y) <= 1.0
  {
    Linear(r, x, y);
    Linear(r, x - y, 0.0000005);
    Linear(r, -0.0000005, x - y);
  }

  /** Remaining is exact with every reply. */
  lemma EveryRemainingIsExact(r: Rate, f: Format, e: Entry<Bucket>, c: Call)
    requires r.Valid() && Sound(r, e, c.now)
    ensures RemainingIsExact(Script(r, f), e, c)
  {
    hide Level, Ratio, Write, Keep;
  }

  /** Reset is the least number of whole seconds after which the whole capacity is admitted, if the
      level that is left is written without loss. */
  lemma ResetIsExact(r: Rate, f: Format, h: seq<Call>, c: Call, k: nat)
    requires r.Valid() && h != [] && Legal(Script(r, f), h + [c]) && Printable(f, h + [c])
    requires c.quantity == r.capacity && c.now == Last(h).now + k as real
    requires f.Exact? || Last(h).quantity == 0 || Microseconds(Spend(LevelFound(r, f, h), Last(h).quantity))
    ensures Answer(Script(r, f), h + [c]).status == if k >= Answer(Script(r, f), h).reset then 0 else 1
  {
    hide Level, Seconds, Units, Write, Step, Meter.Found, Meter.Fits, Meter.Room, Meter.Overshoot, AnswerAt;
    PrintablePrefix(f, h, c);
    RunRefinesMeter(r, f, h);
    RunRefinesMeter(r, f, h + [c]);
    TracksMeter(r, f, h, Last(h).now, false);
    if |h| > 1 {
      AlwaysSound(r, f, Init(h));
    }
    var level, q := LevelFound(r, f, h), Last(h).quantity;
    LevelInRange(r, After(Script(r, f), Init(h)), Last(h));
    SpendIsNext(r, level, Seconds(r, r.capacity as real - level), q);
    LevelIsRoom(r, Spend(level, q));
    WritesInPlace(if q == 0 then Exact else f, Spend(level, q));
    Meter.ResetInRun(r, Remembers(f), h, c, k);
  }

  lemma PeekIsPureAndExact(r: Rate, f: Format, e: Entry<Bucket>, c: Call)
    requires r.Valid() && Sound(r, e, c.now) && c.quantity == 0
    ensures PeekIsPure(Script(r, f), e, c) && RemainingIsExact(Script(r, f), e, c)
    ensures Script(r, f)(e, c).1.status == 0 <==> 1 <= Script(r, f)(e, c).1.remaining
  {
  }

  lemma RepliesMeetContract(r: Rate, f: Format, h: seq<Call>)
    requires r.Valid() && h != [] && Legal(Script(r, f), h) && Printable(f, h)
    ensures var a := Answer(Script(r, f), h);
            && Contract(a) && a.limit == r.capacity && a.remaining <= a.limit
            && (a.retryAfter == -1 <==> a.status == 0 || Last(h).quantity == 0)
  {
    RunRefinesMeter(r, f, h);
    Meter.AnswerMeetsContract(r, Meter.Found(r, Remembers(f), h), Last(h).quantity);
  }

  /** Nor does any number of its replies exceed a bound on the horizon and what was asked for. */
  lemma RepliesFit(r: Rate, f: Format, h: seq<Call>, bound: int)
    requires r.Valid() && h != [] && Legal(Script(r, f), h) && Printable(f, h)
    requires 1 <= bound && Horizon(r) <= bound as real && Seconds(r, Last(h).quantity as real) <= bound as real
    ensures var a := Answer(Script(r, f), h);
            a.limit == r.capacity && a.remaining <= r.capacity && a.retryAfter <= bound && a.reset <= bound
  {
    hide Remembers, Meter.Answer, Meter.Found, Step;
    RunRefinesMeter(r, f, h);
    Meter.AnswerFits(r, Meter.Found(r, Remembers(f), h), Last(h).quantity, bound);
  }

  /** Between two calls the level rises by at most the rate, even if the key is dropped. */
  lemma LevelGrowth(r: Rate, e: Entry<Bucket>, since: real, now: real, drop: bool)
    requires r.Valid() && Sound(r, e, since) && since <= now
    requires drop ==> Expired(e, now)
    ensures Level(r, View(e, drop), now) <= Level(r, View(e, false), since) + Units(r, now - since)
  {
    hide Seconds, Units;
    Linear(r, now - since, 0.0);
    if e.Held? {
      BackAndForth(r, r.capacity as real);
      Linear(r, now - e.value.ts, since - e.value.ts);
      Linear(r, Horizon(r), now - e.value.ts);
      Linear(r, 0.0, since - e.value.ts);
    }
  }

  /** Units admitted since `from`, plus the tokens left, never exceed the capacity plus what the
      rate has added, up to the rounding of the writes. */
  lemma {:induction false} Budget(r: Rate, f: Format, h: seq<Call>, from: real, to: real)
    requires r.Valid() && h != [] && Legal(Script(r, f), h) && Printable(f, h)
    requires from <= Last(h).now < to
    ensures AdmittedIn(Script(r, f), h, from, to) as real
            + Level(r, View(After(Script(r, f), h), false), Last(h).now)
            <= r.capacity as real + Units(r, Last(h).now - from)
               + Errors(f, ConsumingIn(h, from, to))
  {
    hide Level, Units, Seconds, Write, Error, Errors;
    var s, c := Script(r, f), Last(h);
    var e := After(s, Init(h));
    if Init(h) != [] {
      AlwaysSound(r, f, Init(h));
    }
    LevelInRange(r, e, c);
    Linear(r, 0.0, c.now - from);
    if Init(h) == [] || Last(Init(h)).now < from {
      NothingBefore(s, Init(h), from, to);
    } else {
      Budget(r, f, Init(h), from, to);
      LevelGrowth(r, e, Last(Init(h)).now, c.now, c.drop);
      Linear(r, c.now - from, Last(Init(h)).now - from);
    }
    LeavesAtMost(r, f, e, c);
    ErrorsAdd(f, ConsumingIn(Init(h), from, to));
  }

  /** One call leaves what it found, less what it admitted, up to one rounding. */
  lemma LeavesAtMost(r: Rate, f: Format, e: Entry<Bucket>, c: Call)
    requires r.Valid() && Sound(r, e, c.now) && (f.Exact? || Microseconds(c.now))
    ensures var (e1, a) := Step(r, f, e, c);
            Level(r, View(e1, false), c.now) + (if a.status == 0 then c.quantity as real else 0.0)
            <= Level(r, View(e, c.drop), c.now) + if c.quantity > 0 then Error(f) else 0.0
  {
    hide Units, Write, Error, Refill, Wait, Keep;
    LevelInRange(r, e, c);
    WritesInPlace(f, c.now);
    WriteError(f, Spend(Level(r, View(e, c.drop), c.now), c.quantity));
  }

  /** In every run, a span of time admits at most the capacity plus what the rate adds in it;
      with six-decimal storage, plus half a millionth of a unit for each consuming call. */
  lemma {:induction false} RateBound(r: Rate, f: Format, h: seq<Call>, from: real, to: real)
    requires r.Valid() && Legal(Script(r, f), h) && Printable(f, h) && from <= to
    ensures AdmittedIn(Script(r, f), h, from, to) as real
            <= r.capacity as real + Units(r, to - from) + Errors(f, ConsumingIn(h, from, to))
  {
    hide Level, Units, Seconds, Errors;
    Linear(r, 0.0, to - from);
    ErrorsAdd(f, ConsumingIn(h, from, to));
    if h == [] {
    } else if from <= Last(h).now < to {
      Budget(r, f, h, from, to);
      AlwaysSound(r, f, h);
      LevelInRange(r, After(Script(r, f), h), Last(h).(drop := false));
      Linear(r, Last(h).now - from, to - from);
    } else {
      RateBound(r, f, Init(h), from, to);
    }
  }
}
