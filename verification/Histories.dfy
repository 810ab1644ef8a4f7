/** Whole runs of a script on one key: what is stored after a history of calls, what the calls
    answered, and how much they admitted in a span of time. */
module Histories {
  import opened Foundation

  type Script<!V> = (Entry<V>, Call) -> (Entry<V>, Reply)

  function Init<T>(h: seq<T>): seq<T>
    requires h != []
  {
    h[..|h| - 1]
  }

  function Last<T>(h: seq<T>): T
    requires h != []
  {
    h[|h| - 1]
  }

  /** The key after running the calls of h in order, starting without a key. */
  function After<V>(script: Script<V>, h: seq<Call>): Entry<V> {
    if h == [] then Gone else script(After(script, Init(h)), Last(h)).0
  }

  /** The reply to the last call of h. */
  function Answer<V>(script: Script<V>, h: seq<Call>): Reply
    requires h != []
  {
    script(After(script, Init(h)), Last(h)).1
  }

  /** A history the server can produce: the clock never runs backwards and a key is only
      reclaimed once its deadline has passed. */
  ghost predicate Legal<V>(script: Script<V>, h: seq<Call>) {
    h == [] || (
      && Legal(script, Init(h))
      && (Last(h).drop ==> Expired(After(script, Init(h)), Last(h).now))
      && (|h| >= 2 ==> Last(Init(h)).now <= Last(h).now))
  }

  /** The clock never runs backwards. */
  ghost predicate Ordered(h: seq<Call>) {
    |h| >= 2 ==> Ordered(Init(h)) && Last(Init(h)).now <= Last(h).now
  }

  lemma {:induction false} LegalIsOrdered<V>(script: Script<V>, h: seq<Call>)
    requires Legal(script, h)
    ensures Ordered(h)
  {
    if |h| >= 2 {
      LegalIsOrdered(script, Init(h));
    }
  }

  lemma {:induction false} LegalPrefix<V>(script: Script<V>, h: seq<Call>, i: nat)
    requires Legal(script, h) && i <= |h|
    ensures Legal(script, h[..i])
    decreases |h|
  {
    if i == |h| {
      assert h[..i] == h;
    } else {
      assert Init(h)[..i] == h[..i];
      LegalPrefix(script, Init(h), i);
    }
  }

  /** A run in which the server reclaims nothing is always possible. */
  lemma {:induction false} LegalUndropped<V>(script: Script<V>, h: seq<Call>)
    requires Ordered(h) && forall i :: 0 <= i < |h| ==> !h[i].drop
    ensures Legal(script, h)
  {
    if h != [] {
      LegalUndropped(script, Init(h));
    }
  }

  /** Units admitted by the calls of h made in [from, to). */
  function AdmittedIn<V>(script: Script<V>, h: seq<Call>, from: real, to: real): nat {
    if h == [] then 0
    else AdmittedIn(script, Init(h), from, to)
         + if from <= Last(h).now < to && Answer(script, h).status == 0 then Last(h).quantity else 0
  }

  /** Calls of h made in [from, to) that ask for at least one unit. */
  function ConsumingIn(h: seq<Call>, from: real, to: real): nat {
    if h == [] then 0
    else ConsumingIn(Init(h), from, to)
         + if from <= Last(h).now < to && Last(h).quantity > 0 then 1 else 0
  }

  /** Calls of h made in [from, to) that are granted at least one unit. */
  function AdmittingIn<V>(script: Script<V>, h: seq<Call>, from: real, to: real): nat {
    if h == [] then 0
    else AdmittingIn(script, Init(h), from, to)
         + if from <= Last(h).now < to && Last(h).quantity > 0 && Answer(script, h).status == 0 then 1 else 0
  }

  /** The same instants and quantities, whatever the server reclaimed in between. */
  ghost predicate SameCalls(h: seq<Call>, g: seq<Call>) {
    |h| == |g| && forall i :: 0 <= i < |h| ==> h[i].now == g[i].now && h[i].quantity == g[i].quantity
  }

  lemma {:induction false} NothingBefore<V>(script: Script<V>, h: seq<Call>, from: real, to: real)
    requires Legal(script, h) && (h == [] || Last(h).now < from)
    ensures AdmittedIn(script, h, from, to) == 0 && ConsumingIn(h, from, to) == 0
    ensures AdmittingIn(script, h, from, to) == 0
  {
    if h != [] {
      NothingBefore(script, Init(h), from, to);
    }
  }

  /** Adjacent spans add up, and a longer span admits no less. */
  lemma {:induction false} SpansAdd<V>(script: Script<V>, h: seq<Call>, from: real, mid: real, to: real)
    requires from <= mid <= to
    ensures AdmittedIn(script, h, from, to) == AdmittedIn(script, h, from, mid) + AdmittedIn(script, h, mid, to)
  {
    if h != [] {
      SpansAdd(script, Init(h), from, mid, to);
    }
  }

  /** The reply to the same call made again k seconds later, with nothing in between. */
  function Retry<V>(script: Script<V>, e: Entry<V>, c: Call, k: int, drop: bool): Reply {
    script(script(e, c).0, Call(c.now + k as real, c.quantity, drop)).1
  }

  /** A peek is pure: any later call d leaves the same key and gives the same reply as it would
      have without the peek c. */
  ghost predicate PeekIsPure<V>(script: Script<V>, e: Entry<V>, c: Call) {
    forall d: Call :: c.now <= d.now && (c.drop ==> d.drop) ==>
      script(script(e, c).0, d.(drop := d.drop && !c.drop)) == script(e, d)
  }

  /** What a call takes: its units if they are granted. */
  function Taken(c: Call, a: Reply): nat {
    if a.status == 0 then c.quantity else 0
  }

  /** A reply is exact: it reports r remaining when, beyond what the call takes, just the quantities
      1..r would have been admitted at that instant. */
  ghost predicate RemainingIsExact<V>(script: Script<V>, e: Entry<V>, c: Call) {
    var a := script(e, c).1;
    forall q: nat :: Taken(c, a) < q ==>
      (script(e, c.(quantity := q)).1.status == 0 <==> q - Taken(c, a) <= a.remaining)
  }
}
