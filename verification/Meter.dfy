/** The reference both rate limiters are held to: a leaky meter. The backlog is the work, in
    seconds, that admitted units have queued; it drains one second per second, and a call fits
    when its units leave the backlog within the horizon. */
module Meter {
  import opened Foundation
  import opened Rates
  import opened Histories
  import opened Stored

  function Drain(backlog: real, dt: real): real {
    Max(0.0, backlog - dt)
  }

  /** Seconds by which q units would overshoot the horizon. */
  function Overshoot(r: Rate, backlog: real, q: nat): real {
    backlog + Seconds(r, q as real) - Horizon(r)
  }

  /** Units that would still fit. */
  function Room(r: Rate, backlog: real): real {
    r.capacity as real - Units(r, backlog)
  }

  function Fits(r: Rate, backlog: real, q: nat): bool
  {
    Overshoot(r, backlog, q) <= 0.0
  }

  function Next(r: Rate, backlog: real, q: nat): real
  {
    if Fits(r, backlog, q) then backlog + Seconds(r, q as real) else backlog
  }

  function Answer(r: Rate, backlog: real, q: nat): Reply
  {
    if q == 0 then
      Reply(if Fits(r, backlog, 1) then 0 else 1, r.capacity, Floor(Room(r, backlog)), -1, Ceil(backlog))
    else if Fits(r, backlog, q) then
      Reply(0, r.capacity, Floor(Room(r, Next(r, backlog, q))), -1, Ceil(Next(r, backlog, q)))
    else
      Reply(1, r.capacity, Floor(Room(r, backlog)), AtLeast(1, Ceil(Overshoot(r, backlog, q))), Ceil(backlog))
  }

  /** How the backlog is remembered from one call to the next: perfectly; as the units that still
      fit, rounded to six decimals by every consuming call; or as the instant at which it will have
      drained, rounded to six decimals by every admission. */
  datatype Memory = Perfect | RoundedUnits | RoundedInstant

  /** What is remembered of the backlog after q units were asked for. */
  function Kept(r: Rate, m: Memory, now: real, backlog: real, q: nat): real {
    var left := Next(r, backlog, q);
    if m.Perfect? || q == 0 then left
    else if m.RoundedUnits? then Seconds(r, r.capacity as real - Write(SixDecimals, Room(r, left)))
    else if Fits(r, backlog, q) then Write(SixDecimals, now + left) - now
    else left
  }

  /** The backlog that the last call of h finds. */
  function Found(r: Rate, m: Memory, h: seq<Call>): real
    requires h != []
    decreases |h|, 0
  {
    if |h| == 1 then 0.0 else Drain(Left(r, m, Init(h)), Last(h).now - Last(Init(h)).now)
  }

  /** The backlog that is remembered after the last call of h. */
  function Left(r: Rate, m: Memory, h: seq<Call>): real
    requires h != []
    decreases |h|, 1
  {
    Kept(r, m, Last(h).now, Found(r, m, h), Last(h).quantity)
  }

  /** What the meter answers to the last call of h. */
  function AnswerAfter(r: Rate, m: Memory, h: seq<Call>): Reply
    requires h != []
  {
    Answer(r, Found(r, m, h), Last(h).quantity)
  }

  lemma {:induction false} DropsAreInvisible(r: Rate, m: Memory, h: seq<Call>, g: seq<Call>)
    requires h != [] && SameCalls(h, g)
    ensures Found(r, m, h) == Found(r, m, g) && Left(r, m, h) == Left(r, m, g)
    ensures AnswerAfter(r, m, h) == AnswerAfter(r, m, g)
  {
    if |h| > 1 {
      DropsAreInvisible(r, m, Init(h), Init(g));
    }
  }

  /** In units: what fits, what is missing, and what is left. */
  lemma InUnits(r: Rate, backlog: real, q: nat)
    requires r.Valid()
    ensures Overshoot(r, backlog, q) == Seconds(r, q as real - Room(r, backlog))
    ensures Fits(r, backlog, q) <==> q as real <= Room(r, backlog)
    ensures Room(r, backlog + Seconds(r, q as real)) == Room(r, backlog) - q as real
    ensures backlog == Seconds(r, r.capacity as real - Room(r, backlog))
  {
    hide Seconds, Units;
    BackAndForth(r, backlog);
    BackAndForth(r, q as real);
    Linear(r, q as real, Room(r, backlog));
    Linear(r, r.capacity as real, Room(r, backlog));
    Linear(r, r.capacity as real, Units(r, backlog));
    Linear(r, q as real - Room(r, backlog), 0.0);
    Linear(r, backlog + Seconds(r, q as real), Seconds(r, q as real));
  }

  /** The backlog stays between empty and full. */
  lemma NextInRange(r: Rate, backlog: real, q: nat)
    requires r.Valid() && 0.0 <= backlog <= Horizon(r)
    ensures 0.0 <= backlog <= Next(r, backlog, q) <= Horizon(r)
  {
    hide Seconds;
    Linear(r, 0.0, q as real);
  }

  /** A refused call that fits an empty meter fits after exactly Retry-After seconds, and after
      no shorter wait of whole seconds. */
  lemma RetryAfter(r: Rate, backlog: real, q: nat, k: nat)
    requires r.Valid() && 0.0 <= backlog && 1 <= q <= r.capacity && !Fits(r, backlog, q) && 1 <= k
    ensures Answer(r, backlog, q).retryAfter >= 1
    ensures Fits(r, Drain(backlog, k as real), q) <==> k >= Answer(r, backlog, q).retryAfter
  {
    hide Seconds, Units;
    Linear(r, q as real, r.capacity as real);
  }

  /** After a refusal that an empty meter would not have given, the same call made again k seconds
      later is admitted if and only if what is remembered has drained far enough by then. */
  lemma RetryCondition(r: Rate, m: Memory, h: seq<Call>, c: Call, k: nat)
    requires r.Valid() && h != []
    requires 1 <= c.quantity == Last(h).quantity <= r.capacity && c.now == Last(h).now + k as real
    ensures AnswerAfter(r, m, h + [c]).status
            == if Overshoot(r, Left(r, m, h), c.quantity) <= k as real then 0 else 1
  {
    hide Left, Seconds, Units, Room;
    assert Init(h + [c]) == h && Last(h + [c]) == c;
    assert Found(r, m, h + [c]) == Drain(Left(r, m, h), k as real);
    Linear(r, c.quantity as real, r.capacity as real);
  }

  /** If the refusal was remembered without loss, that is when k has reached Retry-After. */
  lemma RetryInRun(r: Rate, m: Memory, h: seq<Call>, c: Call, k: nat)
    requires r.Valid() && h != [] && 0.0 <= Found(r, m, h) && 1 <= k
    requires 1 <= c.quantity == Last(h).quantity <= r.capacity && c.now == Last(h).now + k as real
    requires AnswerAfter(r, m, h).status == 1 && Left(r, m, h) == Found(r, m, h)
    ensures AnswerAfter(r, m, h + [c]).status == if k >= AnswerAfter(r, m, h).retryAfter then 0 else 1
  {
    hide Fits, Drain, Overshoot, Room, Seconds, Units, Kept;
    assert Init(h + [c]) == h && Last(h + [c]) == c;
    assert Found(r, m, h + [c]) == Drain(Found(r, m, h), k as real);
    RetryAfter(r, Found(r, m, h), c.quantity, k);
  }

  /** Units that a call for q of them takes. */
  function Taken(r: Rate, backlog: real, q: nat): nat {
    if Fits(r, backlog, q) then q else 0
  }

  /** Remaining says just which quantities would have fitted beyond what the call takes; a peek says
      with its status whether a unit would. */
  lemma RemainingIsExact(r: Rate, backlog: real, q: nat, k: nat)
    requires r.Valid() && 0.0 <= backlog
    ensures Fits(r, backlog, Taken(r, backlog, q) + k) <==> k <= Answer(r, backlog, q).remaining
    ensures q == 0 ==> (Answer(r, backlog, q).status == 0 <==> 1 <= Answer(r, backlog, q).remaining)
  {
    hide Fits, Overshoot, Room, Seconds;
    InUnits(r, backlog, q);
    InUnits(r, backlog, Taken(r, backlog, q) + k);
    InUnits(r, backlog, 1);
    Linear(r, 0.0, 0.0);
  }

  /** If nothing is lost when it is remembered, reset is the least number of whole seconds after which
      the whole capacity fits again. */
  lemma ResetInRun(r: Rate, m: Memory, h: seq<Call>, c: Call, k: nat)
    requires r.Valid() && h != [] && 0.0 <= Found(r, m, h)
    requires c.quantity == r.capacity && c.now == Last(h).now + k as real
    requires Left(r, m, h) == Next(r, Found(r, m, h), Last(h).quantity)
    ensures AnswerAfter(r, m, h + [c]).status == if k >= AnswerAfter(r, m, h).reset then 0 else 1
  {
    hide Seconds, Units, Kept, Room, Left;
    assert Init(h + [c]) == h && Last(h + [c]) == c;
    assert Found(r, m, h + [c]) == Drain(Left(r, m, h), k as real);
    Linear(r, 0.0, Last(h).quantity as real);
    Linear(r, 0.0, 0.0);
  }

  lemma AnswerMeetsContract(r: Rate, backlog: real, q: nat)
    requires r.Valid() && 0.0 <= backlog <= Horizon(r)
    ensures var a := Answer(r, backlog, q);
            && Contract(a) && a.remaining <= r.capacity
            && (a.retryAfter == -1 <==> a.status == 0 || q == 0)
  {
    hide Seconds, Units;
    NextInRange(r, backlog, q);
    RoomInRange(r, backlog);
    RoomInRange(r, Next(r, backlog, q));
  }

  /** No number of an answer exceeds a bound on the capacity, the horizon and what was asked for. */
  lemma AnswerFits(r: Rate, backlog: real, q: nat, bound: int)
    requires r.Valid() && 0.0 <= backlog <= Horizon(r)
    requires 1 <= bound && Horizon(r) <= bound as real && Seconds(r, q as real) <= bound as real
    ensures var a := Answer(r, backlog, q);
            a.limit == r.capacity && a.remaining <= r.capacity && a.retryAfter <= bound && a.reset <= bound
  {
    hide Seconds, Units;
    NextInRange(r, backlog, q);
    RoomInRange(r, backlog);
    RoomInRange(r, Next(r, backlog, q));
  }

  lemma RoomInRange(r: Rate, backlog: real)
    requires r.Valid() && 0.0 <= backlog <= Horizon(r)
    ensures 0.0 <= Room(r, backlog) <= r.capacity as real
  {
    hide Seconds, Units;
    BackAndForth(r, r.capacity as real);
    Linear(r, backlog, Horizon(r));
    Linear(r, 0.0, backlog);
  }
}
