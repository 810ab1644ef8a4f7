/** A rate: room for `capacity` units at once, `perSecond` units gained per second, and the
    `emission` seconds that one unit is worth. */
module Rates {

  datatype Rate = Rate(capacity: int, perSecond: real, emission: real) {
    ghost predicate Valid() {
      1 <= capacity && 0.0 < perSecond && 0.0 < emission && perSecond * emission == 1.0
    }
  }

  /** Lua's division. */
  function Ratio(x: real, y: real): real
    requires y != 0.0
  {
    x / y
  }

  /** Seconds that some units are worth. */
  function Seconds(r: Rate, units: real): real { units * r.emission }

  /** Units gained in some seconds. */
  function Units(r: Rate, seconds: real): real { seconds * r.perSecond }

  /** Seconds that the whole capacity is worth. */
  function Horizon(r: Rate): real { Seconds(r, r.capacity as real) }

  /** `requests` units per `period` seconds. */
  function Configured(requests: int, period: int, capacity: int): (r: Rate)
    requires 1 <= requests && 1 <= period && 1 <= capacity
    ensures r.Valid() && r.capacity == capacity
    ensures r.perSecond * period as real == requests as real && r.emission * requests as real == period as real
  {
    var q, p := requests as real, period as real;
    assert (q / p) * (p / q) == 1.0;
    Rate(capacity, Ratio(q, p), Ratio(p, q))
  }

  lemma BackAndForth(r: Rate, x: real)
    requires r.Valid()
    ensures Units(r, Seconds(r, x)) == x && Seconds(r, Units(r, x)) == x
  {
    assert x * r.emission * r.perSecond == x * (r.perSecond * r.emission);
    assert x * r.perSecond * r.emission == x * (r.perSecond * r.emission);
  }

  lemma Linear(r: Rate, x: real, y: real)
    requires r.Valid()
    ensures Seconds(r, x - y) == Seconds(r, x) - Seconds(r, y)
    ensures Units(r, x - y) == Units(r, x) - Units(r, y)
    ensures x <= y <==> Seconds(r, x) <= Seconds(r, y)
    ensures x <= y <==> Units(r, x) <= Units(r, y)
    ensures Seconds(r, 0.0) == 0.0 && Units(r, 0.0) == 0.0
  {
    MulLess(x, y, r.emission);
    MulLess(x, y, r.perSecond);
  }

  lemma MulLess(x: real, y: real, k: real)
    requires 0.0 < k
    ensures x <= y <==> x * k <= y * k
  {
  }

  lemma RatioTimes(x: real, d: real)
    requires 0.0 < d
    ensures Ratio(x, d) * d == x
  {
  }

  /** Dividing by a rate converts. */
  lemma Dividing(r: Rate, x: real)
    requires r.Valid()
    ensures Ratio(x, r.perSecond) == Seconds(r, x) && Ratio(x, r.emission) == Units(r, x)
  {
    BackAndForth(r, x);
    Quotient(x, r.perSecond, Seconds(r, x));
    Quotient(x, r.emission, Units(r, x));
  }

  lemma Quotient(x: real, d: real, y: real)
    requires 0.0 < d && y * d == x
    ensures Ratio(x, d) == y
  {
  }
}
