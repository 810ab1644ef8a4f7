/** What storing with six decimals does to a meter: nothing at all for some rates, and little for any
    one call. */
module Rounding {
  import opened Foundation
  import opened Histories
  import opened Rates
  import opened Stored
  import opened Meter

  /** Room regained by draining. */
  lemma RoomAfterDrain(r: Rate, backlog: real, dt: real)
    requires r.Valid() && 0.0 <= dt
    ensures Room(r, Drain(backlog, dt)) == Min(r.capacity as real, Room(r, backlog) + Units(r, dt))
  {
    hide Units;
    Linear(r, backlog, dt);
    Linear(r, backlog - dt, 0.0);
  }

  // ---- when nothing is lost in storage ----

  /** The rate is a whole number of units per second. */
  predicate WholeRate(r: Rate) {
    r.perSecond == Floor(r.perSecond) as real
  }

  /** The rate is such that a memory never has to round: whole units per second, or whole
      microseconds per unit. */
  ghost predicate Lossless(r: Rate, m: Memory) {
    (m.RoundedUnits? ==> WholeRate(r)) && (m.RoundedInstant? ==> Microseconds(r.emission))
  }

  lemma WholeTimes(x: real, n: int)
    requires Microseconds(x)
    ensures Microseconds(x * n as real)
  {
    var i: int :| x == Millionths(i);
    assert x * n as real == Millionths(i * n);
  }

  lemma {:induction false} UnitsStayWhole(r: Rate, h: seq<Call>)
    requires r.Valid() && WholeRate(r) && h != [] && Printable(SixDecimals, h)
    requires Ordered(h)
    ensures Microseconds(Room(r, Found(r, Perfect, h))) && Microseconds(Room(r, Left(r, Perfect, h)))
  {
    hide Units, Seconds, Room, Fits;
    if |h| == 1 {
      assert Room(r, 0.0) == r.capacity as real by { RoomOfNothing(r); }
    } else {
      UnitsStayWhole(r, Init(h));
      var dt := Last(h).now - Last(Init(h)).now;
      MillionthsAdd(Last(h).now, Last(Init(h)).now);
      UnitsAreWhole(r, dt);
      RoomAfterDrain(r, Left(r, Perfect, Init(h)), dt);
      MillionthsAdd(Room(r, Left(r, Perfect, Init(h))), Units(r, dt));
    }
    WholeIsMillionths(r.capacity);
    WholeIsMillionths(Last(h).quantity);
    InUnits(r, Found(r, Perfect, h), Last(h).quantity);
    MillionthsAdd(Room(r, Found(r, Perfect, h)), Last(h).quantity as real);
  }

  lemma RoomOfNothing(r: Rate)
    ensures Room(r, 0.0) == r.capacity as real
  {
  }

  lemma UnitsAreWhole(r: Rate, dt: real)
    requires WholeRate(r) && Microseconds(dt)
    ensures Microseconds(Units(r, dt))
  {
    WholeTimes(dt, Floor(r.perSecond));
  }

  lemma {:induction false} InstantsStayWhole(r: Rate, h: seq<Call>)
    requires r.Valid() && Microseconds(r.emission) && h != [] && Printable(SixDecimals, h)
    ensures Microseconds(Last(h).now + Found(r, Perfect, h)) && Microseconds(Last(h).now + Left(r, Perfect, h))
  {
    hide Fits, Seconds, Microseconds;
    var now, q := Last(h).now, Last(h).quantity;
    if |h| > 1 {
      InstantsStayWhole(r, Init(h));
    }
    WholeTimes(r.emission, q);
    SecondsAreWhole(r, q);
    MillionthsAdd(now + Found(r, Perfect, h), Seconds(r, q as real));
  }

  lemma SecondsAreWhole(r: Rate, q: nat)
    ensures Seconds(r, q as real) == r.emission * q as real
  {
  }

  /** With such a rate the rounding memories are perfect: every run is found, left and answered as
      if nothing were ever rounded. */
  lemma {:induction false} LosslessRun(r: Rate, m: Memory, h: seq<Call>)
    requires r.Valid() && Lossless(r, m) && h != [] && (m.Perfect? || Printable(SixDecimals, h))
    requires Ordered(h)
    ensures Found(r, m, h) == Found(r, Perfect, h) && Left(r, m, h) == Left(r, Perfect, h)
    ensures AnswerAfter(r, m, h) == AnswerAfter(r, Perfect, h)
  {
    hide Room, Seconds, Fits, Meter.Answer;
    if |h| > 1 {
      LosslessRun(r, m, Init(h));
    }
    var left := Left(r, Perfect, h);
    if m.RoundedUnits? {
      UnitsStayWhole(r, h);
      WritesInPlace(SixDecimals, Room(r, left));
      InUnits(r, left, 0);
    } else if m.RoundedInstant? {
      InstantsStayWhole(r, h);
      WritesInPlace(SixDecimals, Last(h).now + left);
    }
  }

  // ---- how much can be lost ----

  /** Refused calls cost at most one rounding each: with no admission since call i of h, what is
      found is at most that much behind what call i left, drained. */
  lemma {:induction false} RefusalsLoseLittle(r: Rate, h: seq<Call>, i: nat)
    requires r.Valid() && i < |h| - 1
    requires Ordered(h)
    requires forall j :: i < j < |h| - 1 && h[j].quantity > 0 ==>
               !Fits(r, Found(r, RoundedUnits, h[..j + 1]), h[j].quantity)
    ensures Found(r, RoundedUnits, h)
            <= Drain(Left(r, RoundedUnits, h[..i + 1]), Last(h).now - h[i].now)
               + Seconds(r, Errors(SixDecimals, |h| - 2 - i))
    decreases |h|
  {
    hide Room, Seconds, Fits, Kept, Errors;
    var g := Init(h);
    Linear(r, 0.0, 0.0);
    InitKeeps(h, |h| - 2);
    if i == |h| - 2 {
      NoErrors();
    } else {
      forall j | i < j < |g| - 1 && g[j].quantity > 0
        ensures !Fits(r, Found(r, RoundedUnits, g[..j + 1]), g[j].quantity)
      {
        InitKeeps(h, j);
      }
      RefusalsLoseLittle(r, g, i);
      InitKeeps(h, i);
      InitKeeps(h, |h| - 2);
      KeptIsClose(r, g);
      ErrorsAdd(SixDecimals, |g| - 2 - i);
      SecondsAdd(r, Errors(SixDecimals, |g| - 2 - i), Error(SixDecimals));
      Linear(r, 0.0, Errors(SixDecimals, |g| - 2 - i));
      Linear(r, 0.0, Error(SixDecimals));
    }
  }

  lemma InitKeeps(h: seq<Call>, i: nat)
    requires i < |h| - 1
    ensures Init(h)[i] == h[i] && Init(h)[..i + 1] == h[..i + 1]
    ensures i == |h| - 2 ==> h[..i + 1] == Init(h) && Last(Init(h)) == h[i]
  {
    assert Init(h)[..i + 1] == h[..i + 1];
    assert i == |h| - 2 ==> h[..i + 1] == Init(h);
  }

  lemma NoErrors()
    ensures Errors(SixDecimals, 0) == 0.0
  {
  }

  lemma SecondsAdd(r: Rate, x: real, y: real)
    ensures Seconds(r, x + y) == Seconds(r, x) + Seconds(r, y)
  {
  }

  lemma KeptIsClose(r: Rate, h: seq<Call>)
    requires r.Valid() && h != []
    requires Last(h).quantity > 0 ==> !Fits(r, Found(r, RoundedUnits, h), Last(h).quantity)
    ensures Left(r, RoundedUnits, h) <= Found(r, RoundedUnits, h) + Seconds(r, Error(SixDecimals))
  {
    hide Room, Seconds, Fits, Write;
    var b := Found(r, RoundedUnits, h);
    WriteError(SixDecimals, Room(r, b));
    InUnits(r, b, 0);
    Linear(r, r.capacity as real - Write(SixDecimals, Room(r, b)),
           r.capacity as real - Room(r, b) + Error(SixDecimals));
    SecondsAdd(r, r.capacity as real - Room(r, b), Error(SixDecimals));
    Linear(r, 0.0, Error(SixDecimals));
  }
}
