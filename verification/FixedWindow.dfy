/** The fixed-window counter: one integer key whose expiry marks the end of the window. */
module FixedWindow {
  import opened Foundation
  import opened Histories

  /** The counter a call sees; a missing key counts as 0. */
  function Current(e: Entry<int>, drop: bool): int {
    if View(e, drop).Some? then View(e, drop).value else 0
  }

  /** One call: the key it leaves behind and the reply. */
  function Step(limit: int, window: int, e: Entry<int>, c: Call): (Entry<int>, Reply) {
    var current := Current(e, c.drop);
    var ttl := Ttl(e, c);
    var kept := if c.drop then Gone else e;
    var remaining := AtLeast(0, limit - current);
    if c.quantity == 0 then
      (kept, Reply(if current >= limit then 1 else 0, limit, remaining, -1, AtLeast(0, ttl)))
    else if current + c.quantity > limit then
      var wait := if ttl < 0 then window else ttl;
      (kept, Reply(1, limit, remaining, AtLeast(1, wait), wait))
    else
      var opens := current == 0 || ttl < 0;
      (Held(current + c.quantity,
            if opens then Some(c.now + window as real) else Expiry(e, c.drop)),
       Reply(0, limit, AtLeast(0, limit - current - c.quantity), -1, if opens then window else ttl))
  }

  function Script(limit: int, window: int): Histories.Script<int> {
    (e, c) => Step(limit, window, e, c)
  }

  /** The Lua body, step by step on the key. */
  method FixedWindowScript(key: Key<int>, limit: int, window: int, quantity: nat, now: real)
    returns (reply: Reply)
    modifies key
    ensures (key.entry, reply)
            == Step(limit, window, old(key.entry), Call(now, quantity, Expired(old(key.entry), now)))
  {
    var data := key.Get(now);
    var current := if data.Some? then data.value else 0;
    if quantity == 0 {
      var ttl := key.GetTtl(now);
      if ttl < 0 {
        ttl := 0;
      }
      var remaining := limit - current;
      if remaining < 0 {
        remaining := 0;
      }
      var status := 0;
      if current >= limit {
        status := 1;
      }
      return Reply(status, limit, remaining, -1, ttl);
    }
    if current + quantity > limit {
      var ttl := key.GetTtl(now);
      if ttl < 0 {
        ttl := window;
      }
      var remaining := limit - current;
      if remaining < 0 {
        remaining := 0;
      }
      var retryAfter := ttl;
      if retryAfter < 1 {
        retryAfter := 1;
      }
      return Reply(1, limit, remaining, retryAfter, ttl);
    }
    var newval := current + quantity;
    key.Put(newval);
    var ttl := window;
    if newval == quantity {
      key.Expire(now, window);
    } else {
      ttl := key.GetTtl(now);
      if ttl < 0 {
        key.Expire(now, window);
        ttl := window;
      }
    }
    var remaining := limit - newval;
    if remaining < 0 {
      remaining := 0;
    }
    return Reply(0, limit, remaining, -1, ttl);
  }

  /** Redis reports a key as gone from its deadline on, whatever it has reclaimed physically. */
  ghost predicate Prompt(limit: int, window: int, h: seq<Call>) {
    && Legal(Script(limit, window), h)
    && forall i :: 0 <= i < |h| ==>
         (h[i].drop <==> Expired(After(Script(limit, window), h[..i]), h[i].now))
  }

  lemma PromptInit(limit: int, window: int, h: seq<Call>)
    requires h != [] && Prompt(limit, window, h)
    ensures Prompt(limit, window, Init(h))
    ensures Legal(Script(limit, window), h) && Legal(Script(limit, window), Init(h))
    ensures |h| >= 2 ==> Last(Init(h)).now <= Last(h).now
    ensures Last(h).drop <==> Expired(After(Script(limit, window), Init(h)), Last(h).now)
  {
    hide Step, After, Expired;
    forall i | 0 <= i < |Init(h)|
      ensures Init(h)[i].drop <==> Expired(After(Script(limit, window), Init(h)[..i]), Init(h)[i].now)
    {
      assert Init(h)[..i] == h[..i];
    }
  }

  /** A stored counter lies in 1..limit, always expires, and its window began with a past call. */
  ghost predicate Sound(limit: int, window: int, e: Entry<int>, now: real) {
    e.Held? ==>
      && 1 <= e.value <= limit
      && e.expireAt.Some? && e.expireAt.value <= now + window as real
  }

  lemma {:induction false} AlwaysSound(limit: int, window: int, h: seq<Call>)
    requires 1 <= window && Legal(Script(limit, window), h) && h != []
    ensures Sound(limit, window, After(Script(limit, window), h), Last(h).now)
  {
    if |h| > 1 {
      AlwaysSound(limit, window, Init(h));
    }
  }

  /** A call either adds to a live counter or opens a new window; otherwise the key stays. */
  lemma StepShape(limit: int, window: int, e: Entry<int>, c: Call, now: real)
    requires Sound(limit, window, e, now)
    ensures var (e1, a) := Step(limit, window, e, c);
            var live := e.Held? && !c.drop;
            if c.quantity > 0 && a.status == 0 then
              && e1.Held? && e1.value == (if live then e.value else 0) + c.quantity <= limit
              && e1.expireAt == if live then e.expireAt else Some(c.now + window as real)
            else e1 == if c.drop then Gone else e
  {
  }

  /** When the window that the key stands for opened; with no key, no window opened later than now. */
  function Opened(window: int, e: Entry<int>, now: real): real {
    if e.Held? && e.expireAt.Some? then e.expireAt.value - window as real else now
  }

  function Count(e: Entry<int>): int {
    if e.Held? then e.value else 0
  }

  /** The last call of h opens a window: it is admitted and finds no counter. */
  ghost predicate Opens(limit: int, window: int, h: seq<Call>) {
    && h != [] && Last(h).quantity > 0 && Answer(Script(limit, window), h).status == 0
    && View(After(Script(limit, window), Init(h)), Last(h).drop).None?
  }

  /** A generation opens with an admitted call, exactly one window before its deadline. */
  lemma {:induction false} OpenedByAdmission(limit: int, window: int, h: seq<Call>) returns (i: nat)
    requires 1 <= window && h != [] && Legal(Script(limit, window), h)
    requires After(Script(limit, window), h).Held?
    ensures i < |h| && Opens(limit, window, h[..i + 1])
    ensures h[i].now == Opened(window, After(Script(limit, window), h), Last(h).now)
  {
    var s := Script(limit, window);
    var e0, c := After(s, Init(h)), Last(h);
    AlwaysSound(limit, window, h);
    if e0.Held? && !c.drop {
      AlwaysSound(limit, window, Init(h));
      i := OpenedByAdmission(limit, window, Init(h));
      assert Init(h)[..i + 1] == h[..i + 1];
    } else {
      i := |h| - 1;
      assert h[..i + 1] == h;
    }
  }

  /** The counter is the sum of what its generation admitted: nothing is lost or counted twice. */
  lemma {:induction false} CounterIsGenerationSum(limit: int, window: int, h: seq<Call>)
    requires 1 <= window && h != [] && Prompt(limit, window, h)
    requires After(Script(limit, window), h).Held?
    ensures var e := After(Script(limit, window), h);
            e.value == AdmittedIn(Script(limit, window), h, Opened(window, e, Last(h).now), Last(h).now + 1.0)
  {
    hide Prompt, Legal;
    var s := Script(limit, window);
    var e0, e, c := After(s, Init(h)), After(s, h), Last(h);
    PromptInit(limit, window, h);
    AlwaysSound(limit, window, h);
    if Init(h) != [] {
      AlwaysSound(limit, window, Init(h));
    }
    StepShape(limit, window, e0, c, c.now);
    hide Step;
    var from := Opened(window, e, c.now);
    if e0.Held? && !c.drop {
      assert from == Opened(window, e0, Last(Init(h)).now);
      CounterIsGenerationSum(limit, window, Init(h));
      AllBefore(s, Init(h), from, Last(Init(h)).now + 1.0, c.now + 1.0);
    } else {
      if Init(h) != [] {
        NoneSince(limit, window, Init(h), c.now);
      }
      assert AdmittedIn(s, Init(h), c.now, c.now + 1.0) == 0;
    }
  }

  /** Raising an upper bound that is already past every call changes nothing. */
  lemma {:induction false} AllBefore(s: Histories.Script<int>, h: seq<Call>, from: real, to: real, to': real)
    requires Legal(s, h)
    requires h == [] || (Last(h).now < to && Last(h).now < to')
    ensures AdmittedIn(s, h, from, to) == AdmittedIn(s, h, from, to')
  {
    if h != [] {
      AllBefore(s, Init(h), from, to, to');
    }
  }

  /** Once the deadline has come, nothing was admitted from that instant on. */
  lemma {:induction false} NoneSince(limit: int, window: int, h: seq<Call>, t: real)
    requires 1 <= window && Prompt(limit, window, h) && h != [] && Last(h).now <= t
    requires After(Script(limit, window), h).Gone? || Expired(After(Script(limit, window), h), t)
    ensures AdmittedIn(Script(limit, window), h, t, t + 1.0) == 0
  {
    hide Prompt, Legal;
    var s := Script(limit, window);
    PromptInit(limit, window, h);
    AlwaysSound(limit, window, h);
    var e0, c := After(s, Init(h)), Last(h);
    if Init(h) != [] {
      AlwaysSound(limit, window, Init(h));
    }
    StepShape(limit, window, e0, c, c.now);
    hide Step;
    assert !(c.now == t && Answer(s, h).status == 0 && c.quantity > 0);
    if Init(h) != [] {
      assert e0.Gone? || Expired(e0, t);
      NoneSince(limit, window, Init(h), t);
    }
  }

  /** A generation lasts exactly one window from the call that opens it and admits no more than
      the limit; while it lasts, the counter says how much that is. */
  lemma {:induction false} GenerationBound(limit: int, window: int, h: seq<Call>, i: nat)
    requires 1 <= window && Prompt(limit, window, h) && i < |h| && Opens(limit, window, h[..i + 1])
    ensures var s, open, end := Script(limit, window), h[i].now, h[i].now + window as real;
            && AdmittedIn(s, h, open, end) <= limit
            && (Last(h).now < end ==> After(s, h) == Held(AdmittedIn(s, h, open, end), Some(end)))
    decreases |h|
  {
    hide Prompt, Legal;
    var s, open, end := Script(limit, window), h[i].now, h[i].now + window as real;
    var e0, c := After(s, Init(h)), Last(h);
    PromptInit(limit, window, h);
    AlwaysSound(limit, window, h);
    if Init(h) != [] {
      AlwaysSound(limit, window, Init(h));
    }
    StepShape(limit, window, e0, c, c.now);
    if i == |h| - 1 {
      assert h[..i + 1] == h;
      if Init(h) != [] {
        NoneSince(limit, window, Init(h), open);
        AllBefore(s, Init(h), open, open + 1.0, end);
      }
      assert AdmittedIn(s, Init(h), open, end) == 0;
    } else {
      assert Init(h)[..i + 1] == h[..i + 1] && Init(h)[i] == h[i];
      GenerationBound(limit, window, Init(h), i);
      OpenBefore(limit, window, h, i);
      hide Step;
    }
  }

  lemma {:induction false} OpenBefore(limit: int, window: int, h: seq<Call>, i: nat)
    requires Legal(Script(limit, window), h) && i < |h|
    ensures h[i].now <= Last(h).now
    decreases |h|
  {
    if i < |h| - 1 {
      OpenBefore(limit, window, Init(h), i);
    }
  }

  /** The call whose generation the last call of h falls into, or h's last one if there is none. */
  ghost predicate Governs(limit: int, window: int, h: seq<Call>, i: nat)
    requires h != []
  {
    if i < |h| - 1 then Opens(limit, window, h[..i + 1]) && Last(h).now < h[i].now + window as real
    else i == |h| - 1 && forall j :: 0 <= j < i && Opens(limit, window, h[..j + 1]) ==>
                           h[j].now + window as real <= Last(h).now
  }

  /** Every number of every answer, from the log: what the generation has admitted so far decides the
      status and the remaining, and its end the reset. */
  lemma AnswersByLog(limit: int, window: int, h: seq<Call>) returns (i: nat)
    requires 1 <= window && 1 <= limit && h != [] && Prompt(limit, window, h)
    ensures Governs(limit, window, h, i)
    ensures var s, c, a := Script(limit, window), Last(h), Answer(Script(limit, window), h);
            var live, end := i < |h| - 1, h[i].now + window as real;
            var used := if live then AdmittedIn(s, Init(h), h[i].now, end) else 0;
            && a.limit == limit
            && (a.status == 0 <==> used + (if c.quantity == 0 then 1 else c.quantity) <= limit)
            && a.remaining == limit - used - Taken(c, a)
            && (if live then -0.5 < a.reset as real - (end - c.now) <= 0.5
                else a.reset == if c.quantity == 0 then 0 else window)
  {
    hide Prompt, Legal, Opens;
    var s, c := Script(limit, window), Last(h);
    var e := After(s, Init(h));
    PromptInit(limit, window, h);
    i := |h| - 1;
    if Init(h) != [] {
      AlwaysSound(limit, window, Init(h));
      if View(e, c.drop).Some? {
        i := OpenedByAdmission(limit, window, Init(h));
        assert Init(h)[..i + 1] == h[..i + 1];
        GenerationBound(limit, window, Init(h), i);
      } else {
        forall j | 0 <= j < i && Opens(limit, window, h[..j + 1]) ensures h[j].now + window as real <= c.now {
          assert Init(h)[..j + 1] == h[..j + 1];
          GenerationBound(limit, window, Init(h), j);
        }
      }
    }
  }

  /** So after any call, at the same instant, just the quantities that it has left remaining are
      admitted. */
  lemma RemainingIsThere(limit: int, window: int, h: seq<Call>, c: Call)
    requires 1 <= window && 1 <= limit && h != [] && Prompt(limit, window, h + [c])
    requires 0 < c.quantity && c.now == Last(h).now
    ensures Answer(Script(limit, window), h + [c]).status == 0
            <==> c.quantity <= Answer(Script(limit, window), h).remaining
  {
    var s := Script(limit, window);
    assert Init(h + [c]) == h && Last(h + [c]) == c;
    PromptInit(limit, window, h + [c]);
    PromptInit(limit, window, h);
    hide Prompt, Legal;
    if Init(h) != [] {
      AlwaysSound(limit, window, Init(h));
    }
    AlwaysSound(limit, window, h);
  }

  /** Single units within one generation: the first `limit` of them are admitted and no others. */
  lemma {:induction false} OnesAdmitted(limit: int, window: int, h: seq<Call>)
    requires 1 <= window && 1 <= limit && Prompt(limit, window, h) && h != []
    requires forall i :: 0 <= i < |h| ==> h[i].quantity == 1
    requires Last(h).now < h[0].now + window as real
    ensures var s, end, n := Script(limit, window), h[0].now + window as real, if |h| <= limit then |h| else limit;
            After(s, h) == Held(n, Some(end)) && AdmittedIn(s, h, h[0].now, end) == n
    decreases |h|
  {
    hide Prompt, Legal;
    var s := Script(limit, window);
    PromptInit(limit, window, h);
    if Init(h) != [] {
      assert Init(h)[0] == h[0];
      OpenBefore(limit, window, h, 0);
      OnesAdmitted(limit, window, Init(h));
    } else {
      assert After(s, Init(h)) == Gone && AdmittedIn(s, Init(h), h[0].now, h[0].now + window as real) == 0;
    }
  }

  /** How many whole generations the calls since `from` can have used up. */
  lemma {:induction false} GenerationsUsed(limit: int, window: int, h: seq<Call>, from: real, to: real)
    returns (m: nat)
    requires 1 <= window && 1 <= limit && h != [] && Prompt(limit, window, h)
    requires from <= Last(h).now < to
    ensures var e := After(Script(limit, window), h);
            && AdmittedIn(Script(limit, window), h, from, to) <= Count(e) - 1 + m * limit
            && Opened(window, e, Last(h).now) >= from + ((m - 1) * window) as real
  {
    hide Prompt, Legal;
    var s := Script(limit, window);
    var e0, c := After(s, Init(h)), Last(h);
    PromptInit(limit, window, h);
    AlwaysSound(limit, window, h);
    if Init(h) != [] {
      AlwaysSound(limit, window, Init(h));
    }
    StepShape(limit, window, e0, c, c.now);
    hide Step;
    if Init(h) == [] || Last(Init(h)).now < from {
      NothingBefore(s, Init(h), from, to);
      m := if e0.Held? && !c.drop then 0 else 1;
    } else {
      m := GenerationsUsed(limit, window, Init(h), from, to);
      if e0.Held? && c.drop {
        assert (m + 1) * limit == m * limit + limit;
        assert m * window == (m - 1) * window + window;
        m := m + 1;
      }
    }
  }

  /** In every run, any k whole windows of time admit fewer than k+1 limits. */
  lemma {:induction false} WindowsBound(limit: int, window: int, h: seq<Call>, from: real, k: nat)
    requires 1 <= window && 1 <= limit && Prompt(limit, window, h)
    ensures AdmittedIn(Script(limit, window), h, from, from + (k * window) as real) <= (k + 1) * limit - 1
  {
    hide Prompt, Legal;
    var s, to := Script(limit, window), from + (k * window) as real;
    if h == [] {
      MulMonotone(0, k, limit);
      assert (k + 1) * limit == k * limit + limit;
    } else {
      PromptInit(limit, window, h);
      if from <= Last(h).now < to {
        var m := GenerationsUsed(limit, window, h, from, to);
        AlwaysSound(limit, window, h);
        assert (m - 1) * window < k * window;
        MulCancel(m - 1, k, window);
        MulMonotone(m, k, limit);
        assert (k + 1) * limit == k * limit + limit;
      } else {
        WindowsBound(limit, window, Init(h), from, k);
      }
    }
  }

  lemma MulCancel(a: int, b: int, w: int)
    requires 0 < w && a * w < b * w
    ensures a < b
  {
  }

  lemma MulMonotone(a: int, b: int, w: int)
    requires 0 <= w && a <= b
    ensures a * w <= b * w
  {
  }

  /** The bound is reached: limit-1 late units of one window and limit of the next one. */
  lemma WindowsBoundIsSharp(limit: int, window: int) returns (h: seq<Call>)
    requires 1 <= window && 1 <= limit
    ensures Prompt(limit, window, h)
    ensures AdmittedIn(Script(limit, window), h, 0.5, 0.5 + window as real) == 2 * limit - 1
  {
    var s, w := Script(limit, window), window as real;
    var a, b, c := Call(0.0, 1, false), Call(w - 0.25, limit - 1, false), Call(w, limit, true);
    h := [a, b, c];
    assert Init(h) == [a, b] && Init([a, b]) == [a] && Init([a]) == [];
    assert After(s, []) == Gone;
    assert After(s, [a]) == Held(1, Some(w));
    assert After(s, [a, b]) == Held(limit, Some(w)) by {
      if limit == 1 {
        assert After(s, [a, b]) == After(s, [a]);
      }
    }
    assert h[..0] == [] && h[..1] == [a] && h[..2] == [a, b];
    assert Legal(s, [a]) && Legal(s, [a, b]);
    assert AdmittedIn(s, [a], 0.5, 0.5 + w) == 0;
    assert AdmittedIn(s, [a, b], 0.5, 0.5 + w) == limit - 1;
    assert Answer(s, h).status == 0;
  }

  /** Two full limits pass within any span longer than the window, as documented. */
  lemma BoundaryBurst(limit: int, window: int, slack: real) returns (h: seq<Call>)
    requires 1 <= window && 1 <= limit && 0.0 < slack
    ensures Prompt(limit, window, h)
    ensures AdmittedIn(Script(limit, window), h, 0.0, window as real + slack) == 2 * limit
  {
    var s, w := Script(limit, window), window as real;
    var a, b := Call(0.0, limit, false), Call(w, limit, true);
    h := [a, b];
    assert Init(h) == [a] && Init([a]) == [];
    assert After(s, []) == Gone;
    assert After(s, [a]) == Held(limit, Some(w));
    assert h[..0] == [] && h[..1] == [a];
    assert Legal(s, [a]);
    assert AdmittedIn(s, [a], 0.0, w + slack) == limit;
    assert Answer(s, h).status == 0;
  }

  lemma RepliesMeetContract(limit: int, window: int, e: Entry<int>, c: Call)
    requires 1 <= window && 1 <= limit && Sound(limit, window, e, c.now)
    requires c.drop ==> Expired(e, c.now)
    ensures var r := Step(limit, window, e, c).1;
            && Contract(r) && r.remaining <= limit
            && (r.retryAfter == -1 <==> r.status == 0 || c.quantity == 0)
  {
  }

  /** No number of a reply exceeds the limit or the window. */
  lemma RepliesFit(limit: int, window: int, h: seq<Call>)
    requires 1 <= window && 1 <= limit && h != [] && Legal(Script(limit, window), h)
    ensures var r := Answer(Script(limit, window), h);
            Contract(r) && r.limit == limit && r.remaining <= limit && r.retryAfter <= window && r.reset <= window
  {
    var e, c := After(Script(limit, window), Init(h)), Last(h);
    if Init(h) != [] {
      AlwaysSound(limit, window, Init(h));
    }
    RepliesMeetContract(limit, window, e, c);
  }

  /** Reset is the time left in the window the reply speaks of, to the nearest second. */
  lemma ResetIsTimeLeft(limit: int, window: int, e: Entry<int>, c: Call)
    requires 1 <= window && Sound(limit, window, e, c.now)
    requires c.drop <==> Expired(e, c.now)
    ensures var (e1, r) := Step(limit, window, e, c);
            if e1.Held? then e1.expireAt.Some? && -0.5 <= r.reset as real - (e1.expireAt.value - c.now) <= 0.5
            else r.reset == if c.quantity == 0 then 0 else window
  {
  }

  /** Remaining is exact with every reply. */
  lemma EveryRemainingIsExact(limit: int, window: int, e: Entry<int>, c: Call)
    requires Sound(limit, window, e, c.now) && 1 <= limit
    ensures RemainingIsExact(Script(limit, window), e, c)
  {
  }

  lemma PeekIsPureAndExact(limit: int, window: int, e: Entry<int>, c: Call)
    requires c.quantity == 0
    ensures PeekIsPure(Script(limit, window), e, c) && RemainingIsExact(Script(limit, window), e, c)
    ensures Step(limit, window, e, c).1.status == 1 <==> Step(limit, window, e, c).1.remaining == 0
  {
  }

  /** TTL rounds the remaining time to the nearest second; this is when it rounds down. */
  predicate RoundsDown(left: real) {
    1.0 < left && 0.0 < left - Floor(left) as real < 0.5
  }

  lemma NearestSecond(left: real)
    requires 0.0 < left
    ensures var r := AtLeast(1, Floor(left + 0.5));
            (r as real >= left <==> !RoundsDown(left)) && (1 < r ==> (r - 1) as real < left)
  {
    var f := Floor(left);
    assert Floor(left + 0.5) == if left - f as real < 0.5 then f else f + 1;
  }

  /** A call that fits the limit is only refused while its window lasts; TTL gives the wait. */
  lemma RefusedWhileLive(limit: int, window: int, e: Entry<int>, c: Call)
    requires 1 <= window && Sound(limit, window, e, c.now)
    requires c.drop <==> Expired(e, c.now)
    requires 0 < c.quantity <= limit && Step(limit, window, e, c).1.status == 1
    ensures e.Held? && e.expireAt.Some? && !c.drop && e.expireAt.value > c.now
    ensures e.value + c.quantity > limit && Step(limit, window, e, c).0 == e
    ensures Step(limit, window, e, c).1.retryAfter == AtLeast(1, Floor(e.expireAt.value - c.now + 0.5))
  {
  }

  /** Waiting out Retry-After is long enough exactly unless the time left in the window was
      rounded down. */
  lemma RetryAfter(limit: int, window: int, e: Entry<int>, c: Call, drop: bool)
    requires 1 <= window && Sound(limit, window, e, c.now)
    requires c.drop <==> Expired(e, c.now)
    requires 0 < c.quantity <= limit && Step(limit, window, e, c).1.status == 1
    requires drop <==> Expired(e, c.now + Step(limit, window, e, c).1.retryAfter as real)
    ensures e.Held? && e.expireAt.Some?
    ensures Retry(Script(limit, window), e, c, Step(limit, window, e, c).1.retryAfter, drop).status == 0
            <==> !RoundsDown(e.expireAt.value - c.now)
  {
    RefusedWhileLive(limit, window, e, c);
    NearestSecond(e.expireAt.value - c.now);
  }

  /** Any shorter wait of whole seconds is refused. */
  lemma RetryAfterIsMinimal(limit: int, window: int, e: Entry<int>, c: Call, k: int)
    requires 1 <= window && Sound(limit, window, e, c.now)
    requires c.drop <==> Expired(e, c.now)
    requires 0 < c.quantity <= limit && Step(limit, window, e, c).1.status == 1
    requires 1 <= k < Step(limit, window, e, c).1.retryAfter
    ensures !Expired(e, c.now + k as real) && Retry(Script(limit, window), e, c, k, false).status == 1
  {
    RefusedWhileLive(limit, window, e, c);
    NearestSecond(e.expireAt.value - c.now);
  }

  /** A run in which a client that waits out Retry-After is still refused. */
  lemma RetryAfterCanBeEarly()
    ensures var s, e, c := Script(1, 10), Held(1, Some(10.0)), Call(7.75, 1, false);
            s(e, c).1 == Reply(1, 1, 0, 2, 2) && Retry(s, e, c, 2, false).status == 1
  {
    assert Floor(2.75) == 2;
  }

  /** More than the whole limit is never admitted in any run, so that no wait helps. */
  lemma TooMuchIsNeverAdmitted(limit: int, window: int, h: seq<Call>)
    requires 1 <= window && h != [] && Legal(Script(limit, window), h) && limit < Last(h).quantity
    ensures Answer(Script(limit, window), h).status == 1
  {
    if Init(h) != [] {
      AlwaysSound(limit, window, Init(h));
    }
  }
}
