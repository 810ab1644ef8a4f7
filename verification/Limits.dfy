/** From the configuration through the wire to the script: what a zone's numbers mean on a key that
    has never been used. */
module Limits {
  import opened Foundation
  import opened Histories
  import opened Rates
  import opened Requests
  import Stored
  import Meter
  import F = FixedWindow
  import S = SlidingWindow
  import T = TokenBucket
  import G = Gcra

  /** The limit that is documented for each built-in algorithm. */
  function Documented(l: Location, z: Zone): nat {
    if z.algorithm.Gcra? then Burst(l, z) + 1 else z.requests + Burst(l, z)
  }

  predicate IsBuiltIn(z: Zone) {
    !z.algorithm.Custom? && 1 <= z.requests && 1 <= z.period
  }

  /** What each script takes its numbers for. */
  predicate AreArguments(algorithm: Algorithm, args: seq<nat>) {
    if algorithm.FixedWindow? || algorithm.SlidingWindow? then |args| == 3 && 1 <= args[1]
    else |args| == 4 && 1 <= args[0] && 1 <= args[1]
  }

  /** A run on one key of a built-in script that was sent some numbers. */
  ghost predicate Lawful(algorithm: Algorithm, args: seq<nat>, h: seq<Call>)
    requires !algorithm.Custom? && AreArguments(algorithm, args)
  {
    match algorithm
    case FixedWindow => F.Prompt(args[0], args[1], h)
    case SlidingWindow => Legal(S.Script(args[0], args[1]), h)
    case TokenBucket => Legal(T.Script(Configured(args[0], args[1], args[0] + args[2]), Stored.Exact), h)
    case Gcra => Legal(G.Script(Configured(args[0], args[1], args[2] + 1), Stored.Exact), h)
  }

  /** Its reply to the last call of such a run. */
  function Replies(algorithm: Algorithm, args: seq<nat>, h: seq<Call>): Reply
    requires !algorithm.Custom? && AreArguments(algorithm, args) && h != []
  {
    match algorithm
    case FixedWindow => Answer(F.Script(args[0], args[1]), h)
    case SlidingWindow => Answer(S.Script(args[0], args[1]), h)
    case TokenBucket => Answer(T.Script(Configured(args[0], args[1], args[0] + args[2]), Stored.Exact), h)
    case Gcra => Answer(G.Script(Configured(args[0], args[1], args[2] + 1), Stored.Exact), h)
  }

  /** The numbers that the server reads off the wire. */
  function Arguments(l: Location, z: Zone, key: seq<Bytes.byte>, fallback: bool): Option<seq<nat>> {
    var call := Last(Chain(l, z, key, fallback));
    if |call| < 4 then None else Scanned(call[4..])
  }

  lemma ArgumentsAreNumbers(l: Location, z: Zone, key: seq<Bytes.byte>, fallback: bool)
    ensures Arguments(l, z, key, fallback) == Some(Numbers(l, z))
    ensures IsBuiltIn(z) ==> AreArguments(z.algorithm, Numbers(l, z)) && Last(Numbers(l, z)) == l.quantity
  {
    hide Scanned, Chain;
    ArgumentsAreRead(l, z, key, fallback);
  }

  /** They make every algorithm advertise its documented limit, admit just what fits it on a fresh
      key, and count it down. */
  lemma FreshKeyAdmits(l: Location, z: Zone, key: seq<Bytes.byte>, fallback: bool, now: real)
    requires IsBuiltIn(z)
    ensures var args := Arguments(l, z, key, fallback);
            && args.Some? && AreArguments(z.algorithm, args.value) && Last(args.value) == l.quantity
            && var r := Replies(z.algorithm, args.value, [Call(now, l.quantity, false)]);
               && r.limit == Documented(l, z)
               && (r.status == 0 <==> l.quantity <= Documented(l, z))
               && (r.status == 0 ==> r.remaining == Documented(l, z) - l.quantity)
  {
    hide G.Step, S.Step, T.Step, Configured, Rate.Valid, Arguments;
    ArgumentsAreNumbers(l, z, key, fallback);
    var c := Call(now, l.quantity, false);
    assert Init([c]) == [];
    match z.algorithm {
      case FixedWindow =>
      case SlidingWindow => FreshWindows(z.requests + Burst(l, z), z.period, c);
      case TokenBucket => FreshBucket(Configured(z.requests, z.period, z.requests + Burst(l, z)), c);
      case Gcra => FreshTat(Configured(z.requests, z.period, Burst(l, z) + 1), c);
    }
  }

  /** When a call may come, t seconds after one at `now` that has used up the whole limit: for the fixed
      window, once a period has passed; for the sliding window, once its share of a period has passed
      since the end of the current one, the j-th; for the other two, once the rate of `requests` units
      per `period` has brought its units. */
  predicate InTime(l: Location, z: Zone, now: real, t: real, j: int) {
    match z.algorithm
    case FixedWindow => z.period as real <= t
    case SlidingWindow =>
      (l.quantity * z.period) as real <= Documented(l, z) as real * (now + t - ((j + 1) * z.period) as real)
    case TokenBucket => (l.quantity * z.period) as real <= z.requests as real * t
    case Gcra => (l.quantity * z.period) as real <= z.requests as real * t
    case Custom => true
  }

  /** The whole limit at `now`, and the location's quantity t seconds later. */
  function TwoCalls(l: Location, z: Zone, now: real, t: real, drop: bool): (h: seq<Call>)
    ensures h != []
  {
    [Call(now, Documented(l, z), false), Call(now + t, l.quantity, drop)]
  }

  /** And they make it last: after a call that has used up the whole limit, one that is made t seconds
      later is admitted if and only if it comes in time. */
  lemma PeriodIsKept(l: Location, z: Zone, key: seq<Bytes.byte>, fallback: bool, now: real, t: real, drop: bool, j: int)
    requires IsBuiltIn(z) && 1 <= l.quantity <= Documented(l, z) && 0.0 <= t
    requires (j * z.period) as real <= now < ((j + 1) * z.period) as real
    requires var args := Arguments(l, z, key, fallback);
             args.Some? && AreArguments(z.algorithm, args.value) ==>
               Lawful(z.algorithm, args.value, TwoCalls(l, z, now, t, drop))
    ensures var args := Arguments(l, z, key, fallback);
            && args.Some? && AreArguments(z.algorithm, args.value)
            && (Replies(z.algorithm, args.value, TwoCalls(l, z, now, t, drop)).status == 0
                <==> InTime(l, z, now, t, j))
  {
    hide Arguments, Numbers, AreArguments, Replies, Lawful, TwoCalls, InTime;
    ArgumentsAreNumbers(l, z, key, fallback);
    NumbersKeepPeriod(l, z, now, t, drop, j);
  }

  lemma NumbersKeepPeriod(l: Location, z: Zone, now: real, t: real, drop: bool, j: int)
    requires IsBuiltIn(z) && 1 <= l.quantity <= Documented(l, z) && 0.0 <= t
    requires (j * z.period) as real <= now < ((j + 1) * z.period) as real
    requires AreArguments(z.algorithm, Numbers(l, z))
    requires Lawful(z.algorithm, Numbers(l, z), TwoCalls(l, z, now, t, drop))
    ensures Replies(z.algorithm, Numbers(l, z), TwoCalls(l, z, now, t, drop)).status == 0 <==> InTime(l, z, now, t, j)
  {
    hide G.Step, S.Step, T.Step, F.Step, Legal, F.Prompt, Answer, Configured, Seconds, Rate.Valid;
    var a, b := Call(now, Documented(l, z), false), Call(now + t, l.quantity, drop);
    match z.algorithm {
      case FixedWindow => UsedWindow(z.requests + Burst(l, z), z.period, a, b);
      case SlidingWindow => UsedCounts(z.requests + Burst(l, z), z.period, a, b, j);
      case TokenBucket => UsedBucket(Configured(z.requests, z.period, z.requests + Burst(l, z)), a, b);
        WorthOf(z.requests, z.period, z.requests + Burst(l, z), l.quantity, t);
      case Gcra => UsedTat(Configured(z.requests, z.period, Burst(l, z) + 1), a, b);
        WorthOf(z.requests, z.period, Burst(l, z) + 1, l.quantity, t);
    }
  }

  lemma UsedWindow(limit: int, window: int, a: Call, b: Call)
    requires 1 <= limit && 1 <= window && a.quantity == limit && !a.drop && 1 <= b.quantity <= limit
    requires F.Prompt(limit, window, [a, b])
    ensures Answer(F.Script(limit, window), [a, b]).status == 0 <==> window as real <= b.now - a.now
  {
    hide F.Prompt;
    var h := [a, b];
    assert Init(h) == [a] && Init([a]) == [] && Last(h) == b;
    F.PromptInit(limit, window, h);
  }

  lemma UsedCounts(limit: int, window: int, a: Call, b: Call, j: int)
    requires 1 <= limit && 1 <= window && a.quantity == limit && !a.drop && 1 <= b.quantity <= limit
    requires Legal(S.Script(limit, window), [a, b]) && S.Start(window, j) <= a.now < S.Start(window, j + 1)
    ensures Answer(S.Script(limit, window), [a, b]).status == 0
            <==> (b.quantity * window) as real <= limit as real * (b.now - S.Start(window, j + 1))
  {
    hide S.Index, S.Left, S.Start, S.Share, S.Logged, S.Step;
    var s, h := S.Script(limit, window), [a, b];
    assert Init(h) == [a] && Init([a]) == [] && Last(h) == b && Last([a]) == a;
    S.OnlyWindow(window, a.now, j);
    S.OnlyWindow(window, a.now, j + 1);
    S.InWindow(window, a.now);
    FreshWindows(limit, window, a);
    assert After(s, []) == Gone && Answer(s, [a]).status == 0;
    S.LoggedStep(limit, window, [a], j);
    S.LoggedStep(limit, window, [a], j - 1);
    S.NothingLogged(limit, window, j);
    S.NothingLogged(limit, window, j - 1);
    S.AdmitsByEstimate(limit, window, h);
    S.EstimateLater(limit, window, [a], a.now, b.now - a.now);
    S.NoShare(window, S.Left(window, a.now) - (b.now - a.now));
    FadesInTime(limit, window, b.now - S.Start(window, j + 1), b.quantity);
  }

  /** A full count lets q units in just when its share of a window has passed. */
  lemma FadesInTime(limit: int, window: int, gone: real, q: int)
    requires 1 <= window && 1 <= q <= limit
    ensures 0.0 <= gone <= window as real ==>
              (S.Share(window, limit, window as real - gone) + q as real <= limit as real
               <==> (q * window) as real <= limit as real * gone)
    ensures gone < 0.0 ==> limit as real * gone < (q * window) as real
    ensures window as real <= gone ==> (q * window) as real <= limit as real * gone
  {
    hide S.Share;
    if 0.0 <= gone <= window as real {
      S.FadedBy(window, limit, gone, q);
    }
    if window as real <= gone {
      S.MulOrder(q, limit, window);
      MulLess(window as real, gone, limit as real);
    }
  }

  lemma UsedBucket(r: Rate, a: Call, b: Call)
    requires r.Valid() && a.quantity == r.capacity && !a.drop && 1 <= b.quantity <= r.capacity
    requires Legal(T.Script(r, Stored.Exact), [a, b])
    ensures Answer(T.Script(r, Stored.Exact), [a, b]).status == 0 <==> Seconds(r, b.quantity as real) <= b.now - a.now
  {
    hide Meter.AnswerAfter;
    T.RunRefinesMeter(r, Stored.Exact, [a, b]);
    LegalIsOrdered(T.Script(r, Stored.Exact), [a, b]);
    UsedMeter(r, a, b);
  }

  lemma UsedTat(r: Rate, a: Call, b: Call)
    requires r.Valid() && a.quantity == r.capacity && !a.drop && 1 <= b.quantity <= r.capacity
    requires Legal(G.Script(r, Stored.Exact), [a, b])
    ensures Answer(G.Script(r, Stored.Exact), [a, b]).status == 0 <==> Seconds(r, b.quantity as real) <= b.now - a.now
  {
    hide Meter.AnswerAfter;
    G.RunRefinesMeter(r, Stored.Exact, [a, b]);
    LegalIsOrdered(G.Script(r, Stored.Exact), [a, b]);
    UsedMeter(r, a, b);
  }

  lemma UsedMeter(r: Rate, a: Call, b: Call)
    requires r.Valid() && a.quantity == r.capacity && 1 <= b.quantity <= r.capacity && Ordered([a, b])
    ensures Meter.AnswerAfter(r, Meter.Perfect, [a, b]).status == 0
            <==> Seconds(r, b.quantity as real) <= b.now - a.now
  {
    hide Seconds, Units, Meter.Room;
    assert Init([a, b]) == [a] && Last([a]) == a && Last([a, b]) == b;
    assert Meter.Found(r, Meter.Perfect, [a]) == 0.0;
    assert Meter.Left(r, Meter.Perfect, [a]) == Horizon(r);
    Linear(r, b.quantity as real, r.capacity as real);
  }

  /** What q units are worth. */
  lemma WorthOf(requests: int, period: int, capacity: int, q: int, t: real)
    requires 1 <= requests && 1 <= period && 1 <= capacity
    ensures Seconds(Configured(requests, period, capacity), q as real) <= t
            <==> (q * period) as real <= requests as real * t
  {
    hide Configured;
    var e, n := Configured(requests, period, capacity).emission, requests as real;
    MulLess(q as real * e, t, n);
    assert q as real * e * n == q as real * (e * n);
  }

  lemma FreshBucket(r: Rate, c: Call)
    requires r.Valid() && !c.drop
    ensures var a := T.Step(r, Stored.Exact, Gone, c).1;
            && a.limit == r.capacity && (a.status == 0 <==> c.quantity <= r.capacity)
            && (a.status == 0 ==> a.remaining == r.capacity - c.quantity)
  {
    hide T.Keep, T.Refill, T.Wait, Ratio;
  }

  lemma FreshWindows(limit: int, window: int, c: Call)
    requires 1 <= limit && 1 <= window && !c.drop
    ensures var r := S.Step(limit, window, Gone, c).1;
            && r.limit == limit && (r.status == 0 <==> c.quantity <= limit)
            && (r.status == 0 ==> r.remaining == limit - c.quantity)
  {
    hide S.Index, S.Left;
    S.NoShare(window, S.Left(window, c.now));
  }

  lemma FreshTat(r: Rate, c: Call)
    requires r.Valid() && !c.drop
    ensures var a := G.Step(r, Stored.Exact, Gone, c).1;
            && a.limit == r.capacity && (a.status == 0 <==> c.quantity <= r.capacity)
            && (a.status == 0 ==> a.remaining == r.capacity - c.quantity)
  {
    hide Seconds, Units, G.AnswerAt;
    Linear(r, 0.0, r.capacity as real);
    G.StepRefinesMeter(r, c.now, c.now, c.quantity);
    Meter.InUnits(r, 0.0, c.quantity);
    Meter.InUnits(r, 0.0, 1);
    Linear(r, 0.0, 0.0);
  }
}
