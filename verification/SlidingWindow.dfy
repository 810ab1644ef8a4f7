/** The sliding-window counter: the counts of the current and the previous aligned window, the
    previous one weighted by how much of it the trailing window still covers. */
module SlidingWindow {
  import opened Foundation
  import opened Histories
  import opened Rates

  datatype Counts = Counts(c: int, w: int, p: int)

  /** Which aligned window an instant lies in. */
  function Index(window: int, now: real): int
    requires 1 <= window
  {
    Floor(Ratio(now, window as real))
  }

  function Start(window: int, k: int): real {
    (k * window) as real
  }

  /** Seconds until the current aligned window ends. */
  function Left(window: int, now: real): real
    requires 1 <= window
  {
    window as real - (now - Start(window, Index(window, now)))
  }

  /** The part of a count that still weighs with `left` seconds to go. */
  function Share(window: int, count: int, left: real): real
    requires 1 <= window
  {
    Weighted(count, Ratio(left, window as real))
  }

  function Weighted(count: int, weight: real): real {
    count as real * weight
  }

  /** The counts (current, previous) of window k, rolled over from what is stored. */
  function Rolled(view: Option<Counts>, k: int): (int, int) {
    if view.None? then (0, 0)
    else if view.value.w == k then (view.value.c, view.value.p)
    else if view.value.w == k - 1 then (0, view.value.c)
    else (0, 0)
  }

  function Room(limit: int, estimate: real): int {
    AtLeast(0, Floor(limit as real - estimate))
  }

  /** The wait a refusal names. */
  function Wait(limit: int, window: int, c: int, p: int, left: real, q: nat): int {
    AtLeast(1,
            if p > 0 && limit - q - c >= 0 then
              Ceil(left - Ratio(((limit - q - c) * window) as real, p as real))
            else AtLeast(0, Ceil(left)))
  }

  function AnswerAt(limit: int, window: int, c: int, p: int, left: real, q: nat): Reply
    requires 1 <= window
  {
    var est := Share(window, p, left) + c as real;
    var rest := AtLeast(0, Ceil(left));
    if q == 0 then
      Reply(if est >= limit as real then 1 else 0, limit, Room(limit, est), -1,
            if c > 0 || p > 0 then rest else 0)
    else if est + q as real > limit as real then
      Reply(1, limit, Room(limit, est), Wait(limit, window, c, p, left, q), rest)
    else
      Reply(0, limit, Room(limit, Share(window, p, left) + (c + q) as real), -1, rest)
  }

  function Step(limit: int, window: int, e: Entry<Counts>, call: Call): (Entry<Counts>, Reply)
    requires 1 <= window
  {
    var k := Index(window, call.now);
    var (c, p) := Rolled(View(e, call.drop), k);
    var answer := AnswerAt(limit, window, c, p, Left(window, call.now), call.quantity);
    (if call.quantity > 0 && answer.status == 0 then
       Held(Counts(c + call.quantity, k, p), Some(call.now + (window * 2) as real))
     else if call.drop then Gone else e,
     answer)
  }

  function Script(limit: int, window: int): Histories.Script<Counts>
    requires 1 <= window
  {
    (e, call) => Step(limit, window, e, call)
  }

  /** The first half of the Lua body: locate the window and roll the stored counts over. */
  method RollOver(key: Key<Counts>, window: int, now: real)
    returns (c: int, w: int, p: int, elapsed: real)
    requires 1 <= window
    modifies key
    ensures var view := View(old(key.entry), Expired(old(key.entry), now));
            && key.entry == (if Expired(old(key.entry), now) then Gone else old(key.entry))
            && w == Index(window, now) && (c, p) == Rolled(view, w)
            && window as real - elapsed == Left(window, now)
  {
    var curWin := Floor(Ratio(now, window as real));
    elapsed := now - (curWin * window) as real;
    var data := key.Get(now);
    if data.None? {
      c, w, p := 0, curWin, 0;
    } else {
      c, w, p := data.value.c, data.value.w, data.value.p;
    }
    if w == curWin - 1 {
      p := c;
      c := 0;
      w := curWin;
    } else if w != curWin {
      p := 0;
      c := 0;
      w := curWin;
    }
  }

  /** The Lua body, step by step on the key. */
  method SlidingWindowScript(key: Key<Counts>, limit: int, window: int, quantity: nat, now: real)
    returns (reply: Reply)
    requires 1 <= window
    modifies key
    ensures (key.entry, reply)
            == Step(limit, window, old(key.entry), Call(now, quantity, Expired(old(key.entry), now)))
  {
    hide Index, Left, Start, Ratio, Weighted;
    var c, w, p, elapsed := RollOver(key, window, now);
    ghost var left := Left(window, now);
    var weight := Ratio(window as real - elapsed, window as real);
    var est := Weighted(p, weight) + c as real;
    var remaining := AtLeast(0, Floor(limit as real - est));
    var winRemaining := AtLeast(0, Ceil(window as real - elapsed));
    if quantity == 0 {
      var status := 0;
      if est >= limit as real {
        status := 1;
      }
      var reset := 0;
      if c > 0 || p > 0 {
        reset := winRemaining;
      }
      reply := Reply(status, limit, remaining, -1, reset);
      assert reply == AnswerAt(limit, window, c, p, left, quantity);
      return;
    }
    if est + quantity as real > limit as real {
      var headroom := limit - quantity - c;
      var retryAfter := winRemaining;
      if p > 0 && headroom >= 0 {
        retryAfter := Ceil(window as real - elapsed - Ratio((headroom * window) as real, p as real));
      }
      if retryAfter < 1 {
        retryAfter := 1;
      }
      reply := Reply(1, limit, remaining, retryAfter, winRemaining);
      assert reply == AnswerAt(limit, window, c, p, left, quantity);
      return;
    }
    c := c + quantity;
    key.Put(Counts(c, w, p));
    key.Expire(now, window * 2);
    est := Weighted(p, weight) + c as real;
    remaining := AtLeast(0, Floor(limit as real - est));
    reply := Reply(0, limit, remaining, -1, winRemaining);
    assert reply == AnswerAt(limit, window, c - quantity, p, left, quantity);
  }

  /** An instant counted in windows lies in the window of its whole part. */
  lemma WholePart(window: int, x: real, k: int)
    requires 1 <= window && k as real <= x < k as real + 1.0
    ensures Start(window, k) <= Weighted(window, x) < Start(window, k) + window as real
    ensures Start(window, k + 1) == Start(window, k) + window as real
  {
    hide Start, Weighted;
    StartIs(window, k);
    Split(window, k as real, x - k as real);
    PartOf(window, x - k as real);
  }

  lemma Split(window: int, a: real, d: real)
    ensures Weighted(window, a + d) == Weighted(window, a) + Weighted(window, d)
  {
  }

  lemma PartOf(window: int, d: real)
    requires 1 <= window && 0.0 <= d < 1.0
    ensures 0.0 <= Weighted(window, d) < window as real
  {
  }

  lemma StartIs(window: int, k: int)
    ensures Start(window, k) == Weighted(window, k as real) && Start(window, k + 1) == Start(window, k) + window as real
  {
  }

  lemma InWindow(window: int, now: real)
    requires 1 <= window
    ensures var k := Index(window, now);
            && Start(window, k) <= now < Start(window, k + 1)
            && Left(window, now) == Start(window, k + 1) - now
            && 0.0 < Left(window, now) <= window as real
  {
    hide Start, Weighted;
    var x := Ratio(now, window as real);
    WindowsOf(now, window);
    WholePart(window, x, Index(window, now));
  }

  lemma WindowsOf(now: real, window: int)
    requires 1 <= window
    ensures Weighted(window, Ratio(now, window as real)) == now
  {
    RatioTimes(now, window as real);
  }

  /** The window of an instant is the only one whose span holds it. */
  lemma OnlyWindow(window: int, now: real, k: int)
    requires 1 <= window
    ensures Start(window, k) <= now <==> k <= Index(window, now)
    ensures Start(window, k + 1) == Start(window, k) + window as real
  {
    hide Index;
    var j := Index(window, now);
    InWindow(window, now);
    if k <= j {
      MulOrder(k, j, window);
    } else {
      MulOrder(j + 1, k, window);
    }
  }

  lemma MulOrder(a: int, b: int, w: int)
    requires a <= b && 1 <= w
    ensures a * w <= b * w
  {
  }

  /** The fraction of a window: between 0 and 1, growing, and complementary. */
  lemma Fraction(window: int, left: real, more: real)
    requires 1 <= window && 0.0 <= left <= more <= window as real
    ensures 0.0 <= Ratio(left, window as real) <= Ratio(more, window as real) <= 1.0
    ensures Ratio(window as real - left, window as real) == 1.0 - Ratio(left, window as real)
  {
    hide Ratio;
    var w := window as real;
    RatioOrder(0.0, left, w);
    RatioOrder(left, more, w);
    RatioOrder(more, w, w);
    Quotient(0.0, w, 0.0);
    Quotient(w, w, 1.0);
    RatioTimes(left, w);
    OneLess(Ratio(left, w), w);
    Quotient(w - left, w, 1.0 - Ratio(left, w));
  }

  lemma RatioOrder(x: real, y: real, w: real)
    requires 0.0 < w && x <= y
    ensures Ratio(x, w) <= Ratio(y, w)
  {
    hide Ratio;
    RatioTimes(x, w);
    RatioTimes(y, w);
    MulLess(Ratio(x, w), Ratio(y, w), w);
  }

  lemma OneLess(x: real, w: real)
    ensures (1.0 - x) * w == w - x * w
  {
  }

  lemma ShareBounds(window: int, count: int, left: real, more: real)
    requires 1 <= window && 0 <= count && 0.0 <= left <= more <= window as real
    ensures 0.0 <= Share(window, count, left) <= Share(window, count, more) <= count as real
    ensures Share(window, count, window as real - left) == count as real - Share(window, count, left)
  {
    hide Ratio, Weighted;
    var a, b := Ratio(left, window as real), Ratio(more, window as real);
    Fraction(window, left, more);
    WeighsMore(count, 0.0, a);
    WeighsMore(count, a, b);
    WeighsMore(count, b, 1.0);
    WeightsAddUp(count, a);
  }

  lemma WeighsMore(count: int, a: real, b: real)
    requires 0 <= count && a <= b
    ensures Weighted(count, a) <= Weighted(count, b)
  {
    Scale(count as real, a, b);
  }

  lemma WeightsAddUp(count: int, a: real)
    ensures Weighted(count, 0.0) == 0.0 && Weighted(count, 1.0) == count as real
    ensures Weighted(count, 1.0 - a) == count as real - Weighted(count, a)
  {
  }

  lemma Scale(x: real, a: real, b: real)
    requires 0.0 <= x && a <= b
    ensures x * a <= x * b
  {
  }

  lemma MoreCountsMore(window: int, count: int, larger: int, left: real)
    requires 1 <= window && count <= larger && 0.0 <= left
    ensures Share(window, count, left) <= Share(window, larger, left)
  {
    var w := window as real;
    assert Ratio(left, w) * w == left;
    MulLess(0.0, Ratio(left, w), w);
    Scale(Ratio(left, w), count as real, larger as real);
  }

  /** Units admitted in aligned window k over a whole history: the full log's answer. */
  function Logged(limit: int, window: int, h: seq<Call>, k: int): nat
    requires 1 <= window
  {
    AdmittedIn(Script(limit, window), h, Start(window, k), Start(window, k + 1))
  }

  /** A call counts in its own window and in no other. */
  lemma LoggedStep(limit: int, window: int, h: seq<Call>, k: int)
    requires 1 <= window && h != []
    ensures Logged(limit, window, h, k) == Logged(limit, window, Init(h), k)
            + if Index(window, Last(h).now) == k && Answer(Script(limit, window), h).status == 0
              then Last(h).quantity else 0
  {
    hide Index, Start, Step;
    OnlyWindow(window, Last(h).now, k);
    OnlyWindow(window, Last(h).now, k + 1);
  }

  lemma NoneYet(limit: int, window: int, h: seq<Call>, now: real, k: int)
    requires 1 <= window && Legal(Script(limit, window), h) && (h == [] || Last(h).now <= now)
    requires Index(window, now) < k
    ensures Logged(limit, window, h, k) == 0
  {
    hide Index, Start;
    if h != [] {
      OnlyWindow(window, now, k);
      NothingBefore(Script(limit, window), h, Start(window, k), Start(window, k + 1));
    }
  }

  lemma NothingLogged(limit: int, window: int, k: int)
    requires 1 <= window
    ensures Logged(limit, window, [], k) == 0
  {
  }

  /** After every history, at any later instant and whether or not the key has been reclaimed,
      the rolled-over counts are the full log's sums for the current and the previous window. */
  lemma {:induction false} CountsAreLogged(limit: int, window: int, h: seq<Call>, now: real, drop: bool)
    requires 1 <= window && Legal(Script(limit, window), h) && (h == [] || Last(h).now <= now)
    requires drop ==> Expired(After(Script(limit, window), h), now)
    ensures var k := Index(window, now);
            Rolled(View(After(Script(limit, window), h), drop), k)
            == (Logged(limit, window, h, k), Logged(limit, window, h, k - 1))
  {
    hide Index, Start, Logged, AnswerAt;
    var s, k := Script(limit, window), Index(window, now);
    if h == [] {
      NothingLogged(limit, window, k);
      NothingLogged(limit, window, k - 1);
    } else {
      var e0, c := After(s, Init(h)), Last(h);
      var j := Index(window, c.now);
      LoggedStep(limit, window, h, k);
      LoggedStep(limit, window, h, k - 1);
      OnlyWindow(window, now, j);
      InWindow(window, c.now);
      if c.quantity > 0 && Answer(s, h).status == 0 {
        CountsAreLogged(limit, window, Init(h), c.now, c.drop);
        OnlyWindow(window, now, j + 1);
        OnlyWindow(window, now, j + 2);
        if j < k {
          NoneYet(limit, window, Init(h), c.now, k);
        }
        if j < k - 1 {
          NoneYet(limit, window, Init(h), c.now, k - 1);
        }
      } else {
        CountsAreLogged(limit, window, Init(h), now, c.drop || drop);
      }
    }
  }

  /** The estimate of an instant, from the full log. */
  function Estimate(limit: int, window: int, h: seq<Call>, now: real): real
    requires 1 <= window
  {
    var k := Index(window, now);
    Share(window, Logged(limit, window, h, k - 1), Left(window, now)) + Logged(limit, window, h, k) as real
  }

  /** A call is admitted exactly when the estimate, with its own units, stays within the limit. */
  lemma AdmitsByEstimate(limit: int, window: int, h: seq<Call>)
    requires 1 <= window && h != [] && Legal(Script(limit, window), h) && Last(h).quantity > 0
    ensures Answer(Script(limit, window), h).status == 0
            <==> Estimate(limit, window, Init(h), Last(h).now) + Last(h).quantity as real <= limit as real
  {
    hide Index, Left, Share, Logged;
    CountsAreLogged(limit, window, Init(h), Last(h).now, Last(h).drop);
  }

  /** Remaining says, with every reply, what fits at that instant beside the estimate after the call. */
  lemma RemainingByEstimate(limit: int, window: int, h: seq<Call>, k: nat)
    requires 1 <= window && 1 <= limit && h != [] && Legal(Script(limit, window), h) && 1 <= k
    ensures k <= Answer(Script(limit, window), h).remaining
            <==> Estimate(limit, window, h, Last(h).now) + k as real <= limit as real
  {
    hide Index, Left, Start, Share, Logged;
    var now := Last(h).now;
    CountsAreLogged(limit, window, Init(h), now, Last(h).drop);
    LoggedStep(limit, window, h, Index(window, now));
    LoggedStep(limit, window, h, Index(window, now) - 1);
  }

  /** So after any call, at the same instant, just the quantities that it has left remaining are
      admitted. */
  lemma RemainingIsThere(limit: int, window: int, h: seq<Call>, c: Call)
    requires 1 <= window && 1 <= limit && h != [] && Legal(Script(limit, window), h + [c])
    requires 0 < c.quantity && c.now == Last(h).now
    ensures Answer(Script(limit, window), h + [c]).status == 0
            <==> c.quantity <= Answer(Script(limit, window), h).remaining
  {
    hide Step, Estimate;
    assert Init(h + [c]) == h && Last(h + [c]) == c;
    AdmitsByEstimate(limit, window, h + [c]);
    RemainingByEstimate(limit, window, h, c.quantity);
  }

  /** Reset is the whole second in which the current window ends, or 0 for a peek at a log that is
      empty as far as it counts. */
  lemma ResetIsWindowEnd(limit: int, window: int, h: seq<Call>)
    requires 1 <= window && h != [] && Legal(Script(limit, window), h)
    ensures var k, now, reset := Index(window, Last(h).now), Last(h).now, Answer(Script(limit, window), h).reset;
            if Last(h).quantity > 0 || Logged(limit, window, h, k) > 0 || Logged(limit, window, h, k - 1) > 0
            then now + reset as real - 1.0 < Start(window, k + 1) <= now + reset as real
            else reset == 0
  {
    hide Index, Start, Left, Share, Logged, Room, Wait;
    var now := Last(h).now;
    CountsAreLogged(limit, window, Init(h), now, Last(h).drop);
    LoggedStep(limit, window, h, Index(window, now));
    LoggedStep(limit, window, h, Index(window, now) - 1);
    InWindow(window, now);
  }

  /** The key outlives the last window in which its counts weigh, by less than one window. */
  lemma {:induction false} KeptWhileItCounts(limit: int, window: int, h: seq<Call>)
    requires 1 <= window && Legal(Script(limit, window), h)
    ensures var e := After(Script(limit, window), h);
            e.Held? ==> e.expireAt.Some?
                        && Start(window, e.value.w + 2) <= e.expireAt.value < Start(window, e.value.w + 3)
  {
    hide Index, Start, AnswerAt;
    if h != [] {
      KeptWhileItCounts(limit, window, Init(h));
      var j := Index(window, Last(h).now);
      InWindow(window, Last(h).now);
      OnlyWindow(window, Last(h).now, j + 1);
      OnlyWindow(window, Last(h).now, j + 2);
    }
  }

  /** At every instant of every run the weighted estimate is within the limit. */
  lemma {:induction false} EstimateWithinLimit(limit: int, window: int, h: seq<Call>, now: real)
    requires 1 <= window && 1 <= limit && Legal(Script(limit, window), h) && (h == [] || Last(h).now <= now)
    ensures 0.0 <= Estimate(limit, window, h, now) <= limit as real
  {
    hide Index, Left, Start, Share, Logged, Step;
    var k := Index(window, now);
    InWindow(window, now);
    ShareBounds(window, Logged(limit, window, h, k - 1), Left(window, now), Left(window, now));
    if h == [] {
      NothingLogged(limit, window, k);
      NothingLogged(limit, window, k - 1);
    } else {
      var c := Last(h);
      LoggedStep(limit, window, h, k);
      LoggedStep(limit, window, h, k - 1);
      if c.quantity > 0 && Answer(Script(limit, window), h).status == 0 {
        AdmitsByEstimate(limit, window, h);
        EstimateAfterAdmission(limit, window, h, now);
      } else {
        EstimateWithinLimit(limit, window, Init(h), now);
      }
    }
  }

  lemma EstimateAfterAdmission(limit: int, window: int, h: seq<Call>, now: real)
    requires 1 <= window && 1 <= limit && h != [] && Legal(Script(limit, window), h) && Last(h).now <= now
    requires Last(h).quantity > 0 && Answer(Script(limit, window), h).status == 0
    requires Estimate(limit, window, Init(h), Last(h).now) + Last(h).quantity as real <= limit as real
    ensures Estimate(limit, window, h, now) <= limit as real
  {
    hide Index, Left, Start, Share, Logged, Step;
    var c, k := Last(h), Index(window, now);
    var j := Index(window, c.now);
    InWindow(window, now);
    InWindow(window, c.now);
    OnlyWindow(window, now, j);
    LoggedStep(limit, window, h, k);
    LoggedStep(limit, window, h, k - 1);
    if k == j {
      ShareBounds(window, Logged(limit, window, h, k - 1), Left(window, now), Left(window, c.now));
    } else {
      ShareBounds(window, Logged(limit, window, h, k - 1), Left(window, now), Left(window, now));
      ShareBounds(window, Logged(limit, window, Init(h), j - 1), Left(window, c.now), Left(window, c.now));
      NoneYet(limit, window, Init(h), c.now, k);
      if j < k - 1 {
        NoneYet(limit, window, Init(h), c.now, k - 1);
      }
    }
  }

  /** Every aligned window admits at most the limit. */
  lemma {:induction false} WindowBound(limit: int, window: int, h: seq<Call>, k: int)
    requires 1 <= window && 1 <= limit && Legal(Script(limit, window), h)
    ensures Logged(limit, window, h, k) <= limit
  {
    hide Index, Left, Start, Share, Logged, Step;
    if h == [] {
      NothingLogged(limit, window, k);
    } else if Index(window, Last(h).now) == k {
      EstimateWithinLimit(limit, window, h, Last(h).now);
      InWindow(window, Last(h).now);
      ShareBounds(window, Logged(limit, window, h, k - 1), Left(window, Last(h).now), Left(window, Last(h).now));
    } else {
      LoggedStep(limit, window, h, k);
      WindowBound(limit, window, Init(h), k);
    }
  }

  /** The current and the previous window together admit at most the limit plus the part of the
      previous window that has slid out of sight. */
  lemma AdjacentBound(limit: int, window: int, h: seq<Call>, now: real)
    requires 1 <= window && 1 <= limit && Legal(Script(limit, window), h) && (h == [] || Last(h).now <= now)
    ensures var k := Index(window, now);
            var p := Logged(limit, window, h, k - 1);
            (p + Logged(limit, window, h, k)) as real
            <= limit as real + Share(window, p, now - Start(window, k))
  {
    hide Index, Left, Start, Share, Logged, Step;
    var k := Index(window, now);
    InWindow(window, now);
    OnlyWindow(window, now, k);
    EstimateWithinLimit(limit, window, h, now);
    ShareBounds(window, Logged(limit, window, h, k - 1), Left(window, now), Left(window, now));
    assert window as real - Left(window, now) == now - Start(window, k);
  }

  /** Any span of one window, aligned or not, admits at most the limit times one plus the
      fraction of its first aligned window that lies before the span. */
  lemma {:induction false} SpanBound(limit: int, window: int, h: seq<Call>, from: real)
    requires 1 <= window && 1 <= limit && Legal(Script(limit, window), h)
    ensures AdmittedIn(Script(limit, window), h, from, from + window as real) as real
            <= limit as real + Share(window, limit, from - Start(window, Index(window, from)))
    ensures AdmittedIn(Script(limit, window), h, from, from + window as real) <= 2 * limit
  {
    hide Index, Left, Start, Share, Step;
    var s, k, to := Script(limit, window), Index(window, from), from + window as real;
    InWindow(window, from);
    OnlyWindow(window, from, k);
    OnlyWindow(window, from, k + 1);
    var skipped, next := from - Start(window, k), Start(window, k + 1);
    ShareBounds(window, limit, skipped, window as real);
    if h != [] {
      var now := Last(h).now;
      if to <= now {
        SpanBound(limit, window, Init(h), from);
      } else {
        SpansAdd(s, h, Start(window, k), from, next);
        SpansAdd(s, h, from, next, to);
        SpansAdd(s, h, next, to, Start(window, k + 2));
        WindowBound(limit, window, h, k);
        OnlyWindow(window, now, k + 1);
        OnlyWindow(window, now, k + 2);
        if now < next {
          NothingBefore(s, h, next, to);
        } else {
          AdjacentBound(limit, window, h, now);
          MoreSkippedMore(limit, window, h, k, now - next, skipped);
        }
      }
    }
  }

  lemma MoreSkippedMore(limit: int, window: int, h: seq<Call>, k: int, less: real, more: real)
    requires 1 <= window && 1 <= limit && Legal(Script(limit, window), h)
    requires 0.0 <= less <= more <= window as real
    ensures Share(window, Logged(limit, window, h, k), less) <= Share(window, limit, more)
  {
    hide Share, Logged;
    WindowBound(limit, window, h, k);
    MoreCountsMore(window, Logged(limit, window, h, k), limit, less);
    ShareBounds(window, limit, less, more);
  }

  lemma {:induction false} SameAdmissions(limit: int, window: int, h: seq<Call>, g: seq<Call>, from: real, to: real)
    requires 1 <= window && SameCalls(h, g)
    requires Legal(Script(limit, window), h) && Legal(Script(limit, window), g)
    ensures AdmittedIn(Script(limit, window), h, from, to) == AdmittedIn(Script(limit, window), g, from, to)
    decreases |h|, 1
  {
    hide Step;
    if h != [] {
      SameAdmissions(limit, window, Init(h), Init(g), from, to);
      ExpiryIsInvisible(limit, window, h, g);
    }
  }

  /** When the server reclaims an expired key makes no difference to any reply of a run. */
  lemma {:induction false} ExpiryIsInvisible(limit: int, window: int, h: seq<Call>, g: seq<Call>)
    requires 1 <= window && h != [] && SameCalls(h, g)
    requires Legal(Script(limit, window), h) && Legal(Script(limit, window), g)
    ensures Answer(Script(limit, window), h) == Answer(Script(limit, window), g)
    decreases |h|, 0
  {
    hide Index, Left, Start, AnswerAt;
    var k := Index(window, Last(h).now);
    CountsAreLogged(limit, window, Init(h), Last(h).now, Last(h).drop);
    CountsAreLogged(limit, window, Init(g), Last(g).now, Last(g).drop);
    SameAdmissions(limit, window, Init(h), Init(g), Start(window, k), Start(window, k + 1));
    SameAdmissions(limit, window, Init(h), Init(g), Start(window, k - 1), Start(window, k));
  }

  /** How long a previous count must fade to weigh no more than `room`. */
  lemma ShareFades(window: int, p: int, left: real, room: int)
    requires 1 <= window && 1 <= p && 0.0 <= left
    ensures Share(window, p, left) <= room as real <==> left <= Ratio((room * window) as real, p as real)
  {
    var w, n := window as real, p as real;
    var x := Ratio((room * window) as real, n);
    assert Ratio(left, w) * w == left && x * n == room as real * w;
    MulLess(Share(window, p, left), room as real, w);
    assert Share(window, p, left) * w == left * n by {
      assert n * Ratio(left, w) * w == n * (Ratio(left, w) * w);
    }
    MulLess(left, x, n);
  }

  /** When a count has faded by q units. */
  lemma FadedBy(window: int, count: int, gone: real, q: int)
    requires 1 <= window && 0 <= count && 0.0 <= gone <= window as real
    ensures Share(window, count, window as real - gone) + q as real <= count as real
            <==> (q * window) as real <= count as real * gone
  {
    var w := window as real;
    ShareBounds(window, count, gone, gone);
    assert Ratio(gone, w) * w == gone;
    MulLess(q as real, Share(window, count, gone), w);
    assert Share(window, count, gone) * w == count as real * gone by {
      assert count as real * Ratio(gone, w) * w == count as real * (Ratio(gone, w) * w);
    }
  }

  lemma NoneAtEnd(window: int, count: int)
    requires 1 <= window
    ensures Share(window, count, 0.0) == 0.0
  {
    Quotient(0.0, window as real, 0.0);
  }

  /** A refused call leaves the log alone, so the same call later is judged by its estimate. */
  lemma RetryIsJudged(limit: int, window: int, h: seq<Call>, c: Call)
    requires 1 <= window && h != [] && Legal(Script(limit, window), h + [c])
    requires Answer(Script(limit, window), h).status == 1 && 0 < c.quantity
    ensures Legal(Script(limit, window), h) && Legal(Script(limit, window), Init(h))
    ensures Last(h).now <= c.now && (Init(h) != [] ==> Last(Init(h)).now <= Last(h).now)
    ensures Answer(Script(limit, window), h + [c]).status == 0
            <==> Estimate(limit, window, Init(h), c.now) + c.quantity as real <= limit as real
  {
    hide Index, Left, Share, Logged, Step, Estimate, After;
    assert Init(h + [c]) == h && Last(h + [c]) == c;
    AdmitsByEstimate(limit, window, h + [c]);
    LoggedStep(limit, window, h, Index(window, c.now));
    LoggedStep(limit, window, h, Index(window, c.now) - 1);
    EstimatesAgree(limit, window, h, c.now);
  }

  lemma EstimatesAgree(limit: int, window: int, h: seq<Call>, now: real)
    requires 1 <= window && h != []
    requires Logged(limit, window, h, Index(window, now)) == Logged(limit, window, Init(h), Index(window, now))
    requires Logged(limit, window, h, Index(window, now) - 1) == Logged(limit, window, Init(h), Index(window, now) - 1)
    ensures Estimate(limit, window, h, now) == Estimate(limit, window, Init(h), now)
  {
  }

  /** The estimate some seconds on, with nothing admitted in between. */
  lemma EstimateLater(limit: int, window: int, h: seq<Call>, now: real, dt: real)
    requires 1 <= window && Legal(Script(limit, window), h) && (h == [] || Last(h).now <= now) && 0.0 <= dt
    ensures var j, left := Index(window, now), Left(window, now);
            var c, p := Logged(limit, window, h, j), Logged(limit, window, h, j - 1);
            var later := Estimate(limit, window, h, now + dt);
            if dt < left then later == Share(window, p, left - dt) + c as real
            else 0.0 <= later <= c as real
                 && later == if dt < left + window as real then Share(window, c, left + window as real - dt) else 0.0
  {
    hide Index, Left, Start, Share, Logged;
    var t := now + dt;
    var j, i := Index(window, now), Index(window, t);
    InWindow(window, now);
    InWindow(window, t);
    OnlyWindow(window, t, j);
    OnlyWindow(window, t, j + 1);
    OnlyWindow(window, t, j + 2);
    if i > j {
      NoneYet(limit, window, h, now, i);
      ShareBounds(window, Logged(limit, window, h, i - 1), Left(window, t), Left(window, t));
      if i > j + 1 {
        NoneYet(limit, window, h, now, i - 1);
        NoShare(window, Left(window, t));
      }
    }
  }

  /** What a refusal says about the log before it. */
  lemma RefusalSays(limit: int, window: int, h: seq<Call>)
    requires 1 <= window && h != [] && Legal(Script(limit, window), h)
    requires Answer(Script(limit, window), h).status == 1 && 0 < Last(h).quantity
    ensures var now, q := Last(h).now, Last(h).quantity;
            var j, left := Index(window, now), Left(window, now);
            var cur, prev := Logged(limit, window, Init(h), j), Logged(limit, window, Init(h), j - 1);
            && Share(window, prev, left) + cur as real + q as real > limit as real
            && Answer(Script(limit, window), h).retryAfter == Wait(limit, window, cur, prev, left, q)
  {
    hide Index, Left, Share, Logged, Wait;
    CountsAreLogged(limit, window, Init(h), Last(h).now, Last(h).drop);
  }

  /** The branch of a refusal whose wait is computed from the fading previous count. */
  predicate Fading(limit: int, c: int, p: int, q: int) {
    p > 0 && limit - q - c >= 0
  }

  /** On the fading branch a retry k seconds after the refusal is admitted if and only if k has
      reached Retry-After, also when it lands in a later window. */
  lemma RetryAfterIsExact(limit: int, window: int, h: seq<Call>, c: Call, k: nat)
    requires 1 <= window && h != [] && 1 <= k && Legal(Script(limit, window), h + [c])
    requires 1 <= c.quantity == Last(h).quantity && c.now == Last(h).now + k as real
    requires Answer(Script(limit, window), h).status == 1
    requires var j := Index(window, Last(h).now);
             Fading(limit, Logged(limit, window, Init(h), j), Logged(limit, window, Init(h), j - 1), c.quantity)
    ensures Answer(Script(limit, window), h + [c]).status
            == if k >= Answer(Script(limit, window), h).retryAfter then 0 else 1
  {
    hide Index, Left, Share, Logged, Ratio, Step, Legal, Answer;
    var now, q := Last(h).now, c.quantity;
    var j, left := Index(window, now), Left(window, now);
    var cur, prev := Logged(limit, window, Init(h), j), Logged(limit, window, Init(h), j - 1);
    RetryIsJudged(limit, window, h, c);
    RefusalSays(limit, window, h);
    EstimateLater(limit, window, Init(h), now, k as real);
    InWindow(window, now);
    NoneAtEnd(window, prev);
    ShareFades(window, prev, 0.0, limit - q - cur);
    if k as real < left {
      ShareFades(window, prev, left - k as real, limit - q - cur);
    }
    StatusIsBinary(limit, window, h + [c]);
  }

  lemma StatusIsBinary(limit: int, window: int, h: seq<Call>)
    requires 1 <= window && h != []
    ensures Answer(Script(limit, window), h).status in {0, 1}
  {
  }

  /** On the other branch, where the current count alone leaves no room, no shorter wait is
      admitted, and waiting out Retry-After is admitted exactly when the current count, carried
      into the next window and faded by the fraction of a second waited too long, leaves room. */
  lemma RetryAfterWhenFull(limit: int, window: int, h: seq<Call>, c: Call, k: nat)
    requires 1 <= window && h != [] && 1 <= k && Legal(Script(limit, window), h + [c])
    requires 1 <= c.quantity == Last(h).quantity && c.now == Last(h).now + k as real
    requires Answer(Script(limit, window), h).status == 1
    requires k <= Answer(Script(limit, window), h).retryAfter
    requires var j := Index(window, Last(h).now);
             !Fading(limit, Logged(limit, window, Init(h), j), Logged(limit, window, Init(h), j - 1), c.quantity)
    ensures var left := Left(window, Last(h).now);
            var cur := Logged(limit, window, Init(h), Index(window, Last(h).now));
            && cur + c.quantity > limit
            && left <= Answer(Script(limit, window), h).retryAfter as real < left + 1.0
            && (Answer(Script(limit, window), h + [c]).status == 0 <==>
                  && k == Answer(Script(limit, window), h).retryAfter
                  && Share(window, cur, window as real - (k as real - left)) + c.quantity as real <= limit as real)
  {
    hide Index, Left, Share, Logged, Ratio, Step, Legal, Answer;
    var now, q := Last(h).now, c.quantity;
    var j, left := Index(window, now), Left(window, now);
    var cur, prev := Logged(limit, window, Init(h), j), Logged(limit, window, Init(h), j - 1);
    RetryIsJudged(limit, window, h, c);
    RefusalSays(limit, window, h);
    EstimateLater(limit, window, Init(h), now, k as real);
    InWindow(window, now);
    ShareBounds(window, prev, left, left);
    if prev == 0 {
      NoShare(window, left);
    }
    if k as real < left {
      ShareBounds(window, prev, left - k as real, left);
    }
  }

  lemma NoShare(window: int, left: real)
    requires 1 <= window
    ensures Share(window, 0, left) == 0.0
  {
  }

  /** So a refusal on a whole second, where no fraction is waited too long, is refused again. */
  lemma RetryAfterOnWholeSecond(limit: int, window: int, h: seq<Call>, c: Call)
    requires 1 <= window && h != [] && Legal(Script(limit, window), h + [c])
    requires Answer(Script(limit, window), h).status == 1 && 1 <= c.quantity == Last(h).quantity
    requires c.now == Last(h).now + Answer(Script(limit, window), h).retryAfter as real
    requires Answer(Script(limit, window), h).retryAfter as real == Left(window, Last(h).now)
    requires var j := Index(window, Last(h).now);
             !Fading(limit, Logged(limit, window, Init(h), j), Logged(limit, window, Init(h), j - 1), c.quantity)
    ensures Answer(Script(limit, window), h + [c]).status == 1
  {
    hide Index, Left, Share, Logged, Step;
    var k := Answer(Script(limit, window), h).retryAfter;
    InWindow(window, Last(h).now);
    RetryAfterWhenFull(limit, window, h, c, k);
    var cur := Logged(limit, window, Init(h), Index(window, Last(h).now));
    ShareBounds(window, cur, 0.0, window as real);
    NoneAtEnd(window, cur);
    StatusIsBinary(limit, window, h + [c]);
  }

  /** The smallest such run: one unit per ten seconds, refused at 5 s, told to wait 5 s, and
      refused again at 10 s, where the spent unit weighs in full. */
  lemma RetryAfterCanFail()
    ensures var s, e, c := Script(1, 10), Held(Counts(1, 0, 0), Some(20.0)), Call(5.0, 1, false);
            s(e, c).1 == Reply(1, 1, 0, 5, 5) && Retry(s, e, c, 5, false).status == 1
  {
    var e, c := Held(Counts(1, 0, 0), Some(20.0)), Call(5.0, 1, false);
    Quotient(5.0, 10.0, 0.5);
    Quotient(10.0, 10.0, 1.0);
    assert Index(10, 5.0) == 0 && Index(10, 10.0) == 1;
    assert Left(10, 5.0) == 5.0 && Left(10, 10.0) == 10.0;
    assert Step(1, 10, e, c) == (e, Reply(1, 1, 0, 5, 5));
  }

  /** A peek is pure, and its remaining is exact in every state. */
  lemma PeekIsPureAndExact(limit: int, window: int, e: Entry<Counts>, c: Call)
    requires 1 <= window && c.quantity == 0
    ensures PeekIsPure(Script(limit, window), e, c) && RemainingIsExact(Script(limit, window), e, c)
  {
    hide Index, Left, Share;
  }

  /** Its status is not: it only says whether the estimate is below the limit, and so it says allowed
      while no unit fits exactly when the estimate lies strictly within one unit of the limit. */
  lemma PeekStatus(limit: int, window: int, e: Entry<Counts>, c: Call)
    requires 1 <= window && c.quantity == 0
    ensures var s, k := Script(limit, window), Index(window, c.now);
            var (cur, prev) := Rolled(View(e, c.drop), k);
            var est := Share(window, prev, Left(window, c.now)) + cur as real;
            && (s(e, c).1.status == 0 <==> est < limit as real)
            && (s(e, c).1.status == 0 && s(e, c.(quantity := 1)).1.status == 1
                <==> limit as real - 1.0 < est < limit as real)
  {
    hide Index, Left, Share;
  }

  /** A run that gets there: one unit per ten seconds, taken at 5 s; at 15 s half of it still weighs,
      a peek says allowed, and a unit is refused. */
  lemma PeekCanMislead()
    ensures var s, taken := Script(1, 10), Call(5.0, 1, false);
            && Legal(s, [taken, Call(15.0, 0, false)]) && Legal(s, [taken, Call(15.0, 1, false)])
            && Answer(s, [taken, Call(15.0, 0, false)]).status == 0
            && Answer(s, [taken, Call(15.0, 1, false)]).status == 1
  {
    var s, a, b, c := Script(1, 10), Call(5.0, 1, false), Call(15.0, 0, false), Call(15.0, 1, false);
    Quotient(5.0, 10.0, 0.5);
    Quotient(15.0, 10.0, 1.5);
    assert Index(10, 5.0) == 0 && Index(10, 15.0) == 1;
    assert Left(10, 5.0) == 5.0 && Left(10, 15.0) == 5.0;
    assert Init([a, b]) == [a] && Init([a, c]) == [a] && Init([a]) == [];
    assert After(s, [a]) == Held(Counts(1, 0, 0), Some(25.0));
    LegalUndropped(s, [a, b]);
    LegalUndropped(s, [a, c]);
    PeekStatus(1, 10, After(s, [a]), b);
  }

  lemma RepliesMeetContract(limit: int, window: int, h: seq<Call>)
    requires 1 <= window && 1 <= limit && h != [] && Legal(Script(limit, window), h)
    ensures var a := Answer(Script(limit, window), h);
            && Contract(a) && a.limit == limit && a.remaining <= limit
            && (a.retryAfter == -1 <==> a.status == 0 || Last(h).quantity == 0)
  {
    hide Index, Left, Share, Logged;
    EstimateWithinLimit(limit, window, Init(h), Last(h).now);
    CountsAreLogged(limit, window, Init(h), Last(h).now, Last(h).drop);
  }

  /** No number of a reply exceeds the limit or the window. */
  lemma RepliesFit(limit: int, window: int, h: seq<Call>)
    requires 1 <= window && 1 <= limit && h != [] && Legal(Script(limit, window), h)
    ensures var a := Answer(Script(limit, window), h);
            Contract(a) && a.limit == limit && a.remaining <= limit && a.retryAfter <= window && a.reset <= window
  {
    hide Index, Left, Share, Contract;
    var now := Last(h).now;
    RepliesMeetContract(limit, window, h);
    InWindow(window, now);
    var (c, p) := Rolled(View(After(Script(limit, window), Init(h)), Last(h).drop), Index(window, now));
    WaitFits(limit, window, c, p, Left(window, now), Last(h).quantity);
  }

  lemma WaitFits(limit: int, window: int, c: int, p: int, left: real, q: nat)
    requires 1 <= window && 0.0 < left <= window as real
    ensures Wait(limit, window, c, p, left, q) <= window
  {
    if p > 0 && limit - q - c >= 0 {
      RatioOrder(0.0, ((limit - q - c) * window) as real, p as real);
      Quotient(0.0, p as real, 0.0);
    }
  }
}
