/** Vocabulary shared by every layer: options, rounding of reals to whole numbers,
    the five-integer reply, and a Redis key with an expiry instant. */
module Foundation {

  datatype Option<+T> = None | Some(value: T)

  /** Lua's math.floor. */
  function Floor(x: real): (n: int)
    ensures n as real <= x < n as real + 1.0
  {
    x.Floor
  }

  lemma FloorIs(x: real, n: int)
    requires n as real <= x < n as real + 1.0
    ensures Floor(x) == n
  {
    assert n as real < Floor(x) as real + 1.0 && Floor(x) as real < n as real + 1.0;
  }

  /** Lua's math.ceil. */
  function Ceil(x: real): (n: int)
    ensures n as real - 1.0 < x <= n as real
  {
    -(-x).Floor
  }

  function Min(a: real, b: real): real { if a <= b then a else b }

  function Max(a: real, b: real): real { if a <= b then b else a }

  function AtLeast(low: int, n: int): int { if n < low then low else n }

  /** What every script returns: {status, limit, remaining, retry_after, reset}. */
  datatype Reply = Reply(status: int, limit: int, remaining: int, retryAfter: int, reset: int)

  /** The range promised for each of the five numbers. */
  predicate Contract(r: Reply) {
    && (r.status == 0 || r.status == 1)
    && 0 <= r.limit && 0 <= r.remaining && 0 <= r.reset
    && (r.retryAfter == -1 || 1 <= r.retryAfter)
  }

  /** A script call: the instant TIME reports, the units asked for (0 peeks), and whether the
      server has already reclaimed the expired key when the script looks at it. */
  datatype Call = Call(now: real, quantity: nat, drop: bool)

  /** One Redis key: absent, or a value with an optional expiry instant. */
  datatype Entry<V> = Gone | Held(value: V, expireAt: Option<real>)

  predicate Expired<V>(e: Entry<V>, now: real) {
    e.Held? && e.expireAt.Some? && e.expireAt.value <= now
  }

  /** What a script reads. A key may linger after its deadline but never vanishes before it. */
  function View<V>(e: Entry<V>, drop: bool): Option<V> {
    if e.Held? && !drop then Some(e.value) else None
  }

  function Expiry<V>(e: Entry<V>, drop: bool): Option<real> {
    if e.Held? && !drop then e.expireAt else None
  }

  /** The TTL command: the remaining time to the nearest second, -1 without an expiry, -2
      without a key. */
  function Ttl<V>(e: Entry<V>, c: Call): int {
    if View(e, c.drop).None? then -2
    else if e.expireAt.None? then -1
    else AtLeast(0, Floor(e.expireAt.value - c.now + 0.5))
  }

  /** A Redis key as scripts see it: the value and its deadline change in place. */
  class Key<V(==)> {
    var entry: Entry<V>

    constructor ()
      ensures entry == Gone
    {
      entry := Gone;
    }

    /** GET / HMGET. A key past its deadline is reclaimed on access. */
    method Get(now: real) returns (v: Option<V>)
      modifies this
      ensures v == View(old(entry), Expired(old(entry), now))
      ensures entry == if Expired(old(entry), now) then Gone else old(entry)
    {
      if Expired(entry, now) {
        entry := Gone;
      }
      v := if entry.Held? then Some(entry.value) else None;
    }

    /** INCRBY / HSET keep the deadline of an existing key. */
    method Put(v: V)
      modifies this
      ensures entry == Held(v, if old(entry).Held? then old(entry).expireAt else None)
    {
      entry := Held(v, if entry.Held? then entry.expireAt else None);
    }

    /** SET discards the deadline. */
    method Set(v: V)
      modifies this
      ensures entry == Held(v, None)
    {
      entry := Held(v, None);
    }

    method Expire(now: real, ttl: int)
      requires entry.Held?
      modifies this
      ensures entry == Held(old(entry).value, Some(now + ttl as real))
    {
      entry := entry.(expireAt := Some(now + ttl as real));
    }

    method GetTtl(now: real) returns (ttl: int)
      requires !Expired(entry, now)
      ensures ttl == Ttl(entry, Call(now, 0, false))
    {
      if entry.Gone? {
        ttl := -2;
      } else if entry.expireAt.None? {
        ttl := -1;
      } else {
        ttl := AtLeast(0, Floor(entry.expireAt.value - now + 0.5));
      }
    }
  }
}
