/** One exchange with Redis as seen from the module: replies to the pipelined AUTH/SELECT
    prelude, the reply to EVALSHA, the NOSCRIPT fallback to EVAL, and the finalization rules.
    A session is driven by input and output events in any order and any division into reads. */
module Session {
  import opened Foundation
  import opened Bytes
  import opened Histories
  import opened ReplyParser

  const INTERNAL_ERROR := 500
  const BAD_GATEWAY := 502
  const UNAVAILABLE := 503
  const GATEWAY_TIMEOUT := 504

  const NOSCRIPT: seq<byte> := Text("NOSCRIPT")

  datatype Phase = Header | Body | Finalized

  /** `last` counts the used bytes of the read buffer, `unread` those not yet consumed. `evalLeft`
      counts the bytes of the EVAL frame not yet written. `headers` says whether the rate headers
      were emitted. */
  datatype Session = Session(phase: Phase, capacity: nat, last: nat, unread: seq<byte>, preludes: nat,
                             fallback: bool, evalLeft: nat, parser: Parser, headersOn: bool, headers: bool)

  /** What the sockets report. */
  datatype Io =
    | Data(bytes: seq<byte>) | WouldBlock | Eof | ReadError | ReadTimeout | ConnectFailed
    | Written(n: nat) | WriteBlocked | WriteError | WriteTimeout | Fault

  function Begin(preludes: nat, capacity: nat, headersOn: bool): Session {
    Session(Header, capacity, 0, [], preludes, false, 0, FRESH.(status := 0), headersOn, false)
  }

  /** Which rule ends a session. */
  datatype Ending = Complete | Mapped(status: int)

  function Finalize(s: Session, ending: Ending): Session {
    var status := s.parser.status;
    s.(phase := Finalized, last := 0, unread := [],
       headers := s.parser.parsed && (status == HTTP_TOO_MANY || (s.headersOn && status == HTTP_OK)),
       parser := if ending.Complete? then s.parser else s.parser.(status := ending.status))
  }

  /** The position of the first LF. */
  function LineEnd(u: seq<byte>): (end: Option<nat>)
    ensures end.Some? ==> end.value < |u|
  {
    if u == [] then None
    else if u[0] == LF then Some(0)
    else
      var rest := LineEnd(u[1..]);
      if rest.None? then None else Some(rest.value + 1)
  }

  lemma {:induction false} LineEndIsFirst(u: seq<byte>)
    ensures LineEnd(u).Some? ==> u[LineEnd(u).value] == LF
                                 && LF !in u[..LineEnd(u).value]
    ensures LineEnd(u).None? ==> LF !in u
  {
    if u != [] && u[0] != LF {
      LineEndIsFirst(u[1..]);
      if LineEnd(u).Some? {
        assert u[..LineEnd(u).value] == [u[0]] + u[1..][..LineEnd(u).value - 1];
      } else {
        assert u == [u[0]] + u[1..];
      }
    }
  }

  /** The result of consuming prelude replies: all read, waiting for the rest of a line, or an
      error reply. */
  datatype Prelude = Ready(rest: seq<byte>) | Partial(left: nat, rest: seq<byte>)
    | Rejected(left: nat, rest: seq<byte>)

  function Consume(m: nat, u: seq<byte>): Prelude {
    if m == 0 then Ready(u)
    else
      var end := LineEnd(u);
      if end.None? then Partial(m, u)
      else if u[0] == PLUS then Consume(m - 1, u[end.value + 1..])
      else Rejected(m, u)
  }

  predicate IsNoScript(u: seq<byte>) {
    |u| >= 9 && u[1..9] == NOSCRIPT
  }

  datatype HeaderRc = HeaderAgain | HeaderOk | HeaderError | HeaderInvalid

  /** The EVAL frame has been built: latch the fallback and start over with an empty buffer. */
  function Resent(s: Session, evalLength: nat): Session {
    s.(fallback := true, last := 0, unread := [], preludes := 0, evalLeft := evalLength,
       parser := s.parser.(place := Start, limit := 0, remaining := 0, reset := 0, retryAfter := -1))
  }

  function ProcessHeader(s: Session, evalLength: nat): (HeaderRc, Session) {
    match Consume(s.preludes, s.unread)
    case Rejected(m, u) => (HeaderError, s.(preludes := m, unread := u))
    case Partial(m, u) => (HeaderAgain, s.(preludes := m, unread := u))
    case Ready(u) =>
      var t := s.(preludes := 0, unread := u);
      if u == [] then (HeaderAgain, t)
      else if u[0] == STAR then
        (HeaderOk, t.(unread := u[1..], parser := t.parser.(status := HTTP_OK)))
      else if u[0] == MINUS then
        if LineEnd(u).None? then (HeaderAgain, t)
        else if !s.fallback && IsNoScript(u) then (HeaderAgain, Resent(t, evalLength))
        else (HeaderError, t)
      else (HeaderInvalid, t)
  }

  /** What the parser made of the bytes at hand decides how the body goes on. */
  function AfterFeed(s: Session, o: Outcome, last: nat): Session {
    match o
    case Failed(p) => Finalize(s.(parser := p.(place := s.parser.place)), Mapped(INTERNAL_ERROR))
    case Done(p, _) => Finalize(s.(parser := p), Complete)
    case Again(p) => s.(phase := Body, last := last, unread := [], parser := p)
  }

  function ProcessResponse(s: Session): Session {
    if s.unread == [] then s.(phase := Body, last := 0)
    else AfterFeed(s, Feed(s.parser, s.unread), s.last)
  }

  function OnData(s: Session, bytes: seq<byte>, evalLength: nat): Session {
    if s.phase.Header? then
      var (rc, t) := ProcessHeader(s.(last := s.last + |bytes|, unread := s.unread + bytes), evalLength);
      match rc
      case HeaderAgain => if t.last == t.capacity then Finalize(t, Mapped(INTERNAL_ERROR)) else t
      case HeaderOk => ProcessResponse(t)
      case _ => Finalize(t, Mapped(INTERNAL_ERROR))
    else AfterFeed(s, Feed(s.parser, bytes), 0)
  }

  /** A read returns at most the room left in the buffer, and without room nothing is read at all;
      a write takes at most what is pending, and only until the reply begins. Connecting can only
      fail while nothing has been sent. */
  predicate Enabled(s: Session, io: Io) {
    match io
    case Data(bytes) => 1 <= |bytes| && s.last + |bytes| <= s.capacity
    case WouldBlock => s.last < s.capacity
    case Eof => s.last < s.capacity
    case ReadError => s.last < s.capacity
    case ConnectFailed => s.phase.Header? && s.last == 0 && !s.fallback
    case Written(n) => s.phase.Header? && 1 <= n <= s.evalLeft
    case WriteBlocked => s.phase.Header? && 0 < s.evalLeft
    case WriteError => s.phase.Header? && 0 < s.evalLeft
    case WriteTimeout => s.phase.Header? && 0 < s.evalLeft
    case _ => true
  }

  function Step(s: Session, io: Io, evalLength: nat): Session
    requires s.phase.Finalized? || Enabled(s, io)
  {
    if s.phase.Finalized? then s
    else
      match io
      case Data(bytes) => OnData(s, bytes, evalLength)
      case WouldBlock => s
      case Eof => Finalize(s, Mapped(BAD_GATEWAY))
      case ReadError => Finalize(s, Mapped(BAD_GATEWAY))
      case ReadTimeout => Finalize(s, Mapped(GATEWAY_TIMEOUT))
      case ConnectFailed => Finalize(s, Mapped(UNAVAILABLE))
      case Written(n) => s.(evalLeft := s.evalLeft - n)
      case WriteBlocked => s
      case WriteError => Finalize(s, Mapped(BAD_GATEWAY))
      case WriteTimeout => Finalize(s, Mapped(GATEWAY_TIMEOUT))
      case Fault => Finalize(s, Mapped(INTERNAL_ERROR))
  }

  /** A run: every event can happen when it does. */
  ghost predicate Possible(s: Session, ios: seq<Io>, evalLength: nat)
    decreases |ios|
  {
    ios == [] ||
    ((s.phase.Finalized? || Enabled(s, ios[0])) && Possible(Step(s, ios[0], evalLength), ios[1..], evalLength))
  }

  function Run(s: Session, ios: seq<Io>, evalLength: nat): Session
    requires Possible(s, ios, evalLength)
    decreases |ios|
  {
    if ios == [] then s else Run(Step(s, ios[0], evalLength), ios[1..], evalLength)
  }

  function Payload(ios: seq<Io>): seq<byte> {
    if ios == [] then []
    else (if ios[0].Data? then ios[0].bytes else []) + Payload(ios[1..])
  }

  // ---- the whole-stream reference ----

  /** What a stream of bytes, read as a whole, decides. */
  datatype Decision = More | Decided(p: Parser) | Refused | NoScript

  function OfReply(o: Outcome): Decision {
    match o
    case Failed(_) => Refused
    case Again(_) => More
    case Done(p, _) => Decided(p)
  }

  function OfHeader(p: Parser, fallback: bool, u: seq<byte>): Decision {
    if u == [] then More
    else if u[0] == STAR then OfReply(Feed(p.(status := HTTP_OK), u[1..]))
    else if u[0] == MINUS then
      if LineEnd(u).None? then More
      else if !fallback && IsNoScript(u) then NoScript
      else Refused
    else Refused
  }

  function OfStream(m: nat, p: Parser, fallback: bool, u: seq<byte>): Decision {
    match Consume(m, u)
    case Rejected(_, _) => Refused
    case Partial(_, _) => More
    case Ready(rest) => OfHeader(p, fallback, rest)
  }

  /** What a live session will decide once the bytes x have come in. */
  function Decide(s: Session, x: seq<byte>): Decision {
    if s.phase.Header? then OfStream(s.preludes, s.parser, s.fallback, s.unread + x)
    else OfReply(Feed(s.parser, x))
  }

  lemma {:induction false} LineEndExtends(u: seq<byte>, x: seq<byte>)
    requires LineEnd(u).Some?
    ensures LineEnd(u + x) == LineEnd(u)
  {
    if u[0] != LF {
      assert (u + x)[1..] == u[1..] + x;
      LineEndExtends(u[1..], x);
    }
  }

  /** More bytes never change what has been consumed. */
  lemma {:induction false} ConsumeExtends(m: nat, u: seq<byte>, x: seq<byte>)
    ensures var c := Consume(m, u);
            Consume(m, u + x) == match c
              case Rejected(left, rest) => Rejected(left, rest + x)
              case Ready(rest) => Ready(rest + x)
              case Partial(left, rest) => Consume(left, rest + x)
  {
    if m > 0 && LineEnd(u).Some? {
      var i := LineEnd(u).value;
      LineEndIsFirst(u);
      LineEndExtends(u, x);
      if u[0] == PLUS {
        assert (u + x)[i + 1..] == u[i + 1..] + x;
        ConsumeExtends(m - 1, u[i + 1..], x);
      }
    }
  }

  lemma HeaderExtends(p: Parser, fallback: bool, u: seq<byte>, x: seq<byte>)
    requires OfHeader(p, fallback, u) != More
    ensures OfHeader(p, fallback, u + x) == OfHeader(p, fallback, u)
  {
    assert (u + x)[0] == u[0] && (u + x)[1..] == u[1..] + x;
    if u[0] == STAR {
      Resumable(p.(status := HTTP_OK), u[1..], x);
    } else if u[0] == MINUS {
      LineEndIsFirst(u);
      LineEndExtends(u, x);
      LongEnough(u, x);
    }
  }

  /** A complete line is matched against NOSCRIPT the same way whatever follows it. */
  lemma LongEnough(u: seq<byte>, x: seq<byte>)
    requires u != [] && u[0] == MINUS && LF in u
    ensures IsNoScript(u + x) == IsNoScript(u)
  {
    if |u| >= 9 {
      assert (u + x)[1..9] == u[1..9];
    } else if |u + x| >= 9 {
      var i :| 0 <= i < |u| && u[i] == LF;
      assert (u + x)[1..9][i - 1] == LF && LF !in NOSCRIPT;
    }
  }

  /** How a step from s to t that takes in n bytes relates to the decision d on the whole stream,
      when x is still to come: t keeps the decision, or has made it, or has fallen back to EVAL,
      or the header has filled the buffer. */
  predicate Keeps(s: Session, t: Session, n: nat, d: Decision, x: seq<byte>, evalLength: nat) {
    var full := s.phase.Header? && s.last + n == s.capacity;
    if t.phase.Finalized? then
      || (d.Decided? && t.parser == d.p)
      || (t.parser.status == INTERNAL_ERROR && (d.Decided? || d.NoScript? ==> full && x != []) && (d.More? ==> full))
    else if t.fallback != s.fallback then
      d == NoScript && t == Resent(s, evalLength)
    else Decide(t, x) == d
  }

  lemma FeedKeeps(s: Session, t: Session, n: nat, bytes: seq<byte>, x: seq<byte>, last: nat, evalLength: nat)
    requires !t.phase.Finalized? && t.fallback == s.fallback
    ensures Keeps(s, AfterFeed(t, Feed(t.parser, bytes), last), n, OfReply(Feed(t.parser, bytes + x)), x,
                  evalLength)
  {
    Resumable(t.parser, bytes, x);
  }

  /** The header step, once the prelude has been read. */
  lemma HeaderStep(s: Session, u: seq<byte>, bytes: seq<byte>, evalLength: nat)
    requires s.phase.Header? && Consume(s.preludes, s.unread + bytes) == Ready(u)
    ensures var r := s.(last := s.last + |bytes|, preludes := 0, unread := u);
            var again := if r.last == r.capacity then Finalize(r, Mapped(INTERNAL_ERROR)) else r;
            OnData(s, bytes, evalLength)
            == if u == [] then again
               else if u[0] == STAR then
                 ProcessResponse(r.(unread := u[1..], parser := r.parser.(status := HTTP_OK)))
               else if u[0] == MINUS && LineEnd(u).None? then again
               else if u[0] == MINUS && !s.fallback && IsNoScript(u) then
                 if s.capacity == 0 then Finalize(Resent(r, evalLength), Mapped(INTERNAL_ERROR))
                 else Resent(r, evalLength)
               else Finalize(r, Mapped(INTERNAL_ERROR))
  {
    hide Consume, IsNoScript, LineEnd, ProcessResponse, Finalize;
  }

  /** Behind the `*`. */
  lemma StarKeeps(s: Session, t: Session, u: seq<byte>, n: nat, x: seq<byte>, evalLength: nat)
    requires u != [] && u[0] == STAR && t.phase.Header? && t.fallback == s.fallback
    requires t.unread == u[1..] && t.parser == s.parser.(status := HTTP_OK)
    ensures Keeps(s, ProcessResponse(t), n, OfHeader(s.parser, s.fallback, u + x), x, evalLength)
  {
    hide Feed, AfterFeed, LineEnd, IsNoScript;
    assert (u + x)[0] == u[0] && (u + x)[1..] == u[1..] + x;
    assert u[1..] == [] ==> u[1..] + x == x;
    FeedKeeps(s, t, n, u[1..], x, t.last, evalLength);
  }

  lemma HeaderKeeps(s: Session, u: seq<byte>, bytes: seq<byte>, x: seq<byte>, evalLength: nat)
    requires s.phase.Header? && 1 <= |bytes| && s.last + |bytes| <= s.capacity
    requires Consume(s.preludes, s.unread + bytes) == Ready(u)
    ensures Keeps(s, OnData(s, bytes, evalLength), |bytes|, OfHeader(s.parser, s.fallback, u + x), x, evalLength)
  {
    hide Feed, Consume, IsNoScript, AfterFeed, LineEnd, OnData, ProcessResponse;
    HeaderStep(s, u, bytes, evalLength);
    assert x == [] ==> u + x == u;
    if u == [] {
      assert u + x == x && [] + x == x;
      ConsumeNothing(x);
    } else if u[0] == STAR {
      StarKeeps(s, s.(last := s.last + |bytes|, preludes := 0, unread := u[1..],
                      parser := s.parser.(status := HTTP_OK)), u, |bytes|, x, evalLength);
    } else if u[0] == MINUS {
      assert (u + x)[0] == u[0];
      LineEndIsFirst(u);
      ConsumeNothing(u + x);
      if LineEnd(u).Some? {
        LineEndExtends(u, x);
        LongEnough(u, x);
      }
    }
  }

  lemma ConsumeOne(m: nat, u: seq<byte>)
    requires m > 0
    ensures Consume(m, u) ==
            if LineEnd(u).None? then Partial(m, u)
            else if u[0] == PLUS then Consume(m - 1, u[LineEnd(u).value + 1..])
            else Rejected(m, u)
  {
  }

  lemma ConsumeNothing(u: seq<byte>)
    ensures Consume(0, u) == Ready(u)
  {
  }

  lemma ReadKeepsDecision(s: Session, bytes: seq<byte>, x: seq<byte>, evalLength: nat)
    requires !s.phase.Finalized? && Enabled(s, Data(bytes))
    ensures Keeps(s, OnData(s, bytes, evalLength), |bytes|, Decide(s, bytes + x), x, evalLength)
  {
    hide Feed, LineEnd, Resent, OfHeader;
    if s.phase.Body? {
      FeedKeeps(s, s, |bytes|, bytes, x, 0, evalLength);
    } else {
      var u := s.unread + bytes;
      assert s.unread + (bytes + x) == u + x;
      assert x == [] ==> u + x == u;
      ConsumeExtends(s.preludes, u, x);
      var c := Consume(s.preludes, u);
      hide Consume;
      if c.Ready? {
        HeaderKeeps(s, c.rest, bytes, x, evalLength);
      }
    }
  }

  // ---- runs ----

  /** Reads and writes that make progress or none: no fault, no close, no timeout. */
  predicate Quiet(ios: seq<Io>) {
    forall i :: 0 <= i < |ios| ==> ios[i].Data? || ios[i].WouldBlock? || ios[i].Written? || ios[i].WriteBlocked?
  }

  lemma {:induction false} StaysFinalized(s: Session, ios: seq<Io>, evalLength: nat)
    requires s.phase.Finalized? && Possible(s, ios, evalLength)
    ensures Run(s, ios, evalLength) == s
    decreases |ios|
  {
    if ios != [] {
      StaysFinalized(s, ios[1..], evalLength);
    }
  }

  /** A session that is still waiting has decided nothing. */
  predicate Waiting(s: Session) {
    !s.phase.Finalized? && Decide(s, []) == More
  }

  /** The buffer is no fuller than it was, and nothing is half decided. */
  predicate Orderly(s: Session, t: Session) {
    t.capacity == s.capacity && t.last <= s.last && (t.phase.Finalized? || Waiting(t))
  }

  lemma OrderlyIsTransitive(s: Session, t: Session, v: Session)
    requires t.capacity == s.capacity && t.last <= s.last && Orderly(t, v)
    ensures Orderly(s, v)
  {
  }

  /** A read never uses more of the buffer than it brings, and leaves nothing half decided. */
  lemma AfterRead(s: Session, bytes: seq<byte>, evalLength: nat)
    requires !s.phase.Finalized? && Enabled(s, Data(bytes))
    ensures var t := OnData(s, bytes, evalLength);
            && Orderly(s.(last := s.last + |bytes|), t) && s.last + |bytes| <= s.capacity
            && (s.phase.Body? ==> t.phase.Finalized? || (t.last == 0 && t.phase.Body?))
  {
    if s.phase.Header? {
      var r := s.(last := s.last + |bytes|, unread := s.unread + bytes);
      AfterHeader(s, r, bytes, evalLength);
      OrderlyIsTransitive(s.(last := s.last + |bytes|), r, OnData(s, bytes, evalLength));
    }
  }

  lemma AfterHeader(s: Session, r: Session, bytes: seq<byte>, evalLength: nat)
    requires s.phase.Header? && r == s.(last := s.last + |bytes|, unread := s.unread + bytes)
    ensures Orderly(r, OnData(s, bytes, evalLength))
  {
    hide ProcessHeader, ProcessResponse, Orderly, Finalize;
    HeaderWaits(r, evalLength);
    var h := ProcessHeader(r, evalLength).1;
    ResponseWaits(h);
    OrderlyIsTransitive(r, h, ProcessResponse(h));
    FinalizeIsOrderly(h, Mapped(INTERNAL_ERROR));
    OrderlyIsTransitive(r, h, Finalize(h, Mapped(INTERNAL_ERROR)));
  }

  lemma FinalizeIsOrderly(s: Session, ending: Ending)
    ensures Orderly(s, Finalize(s, ending))
  {
  }

  lemma ResponseWaits(s: Session)
    requires s.phase.Header?
    ensures Orderly(s, ProcessResponse(s))
  {
    FeedNothing();
    hide Feed, OfStream;
  }

  /** The header is left as it was, started over for EVAL, or behind its `*`; in the first two
      cases nothing is decided yet. */
  lemma HeaderWaits(s: Session, evalLength: nat)
    requires s.phase.Header?
    ensures var (rc, t) := ProcessHeader(s, evalLength);
            && t.phase.Header? && t.capacity == s.capacity && t.last <= s.last
            && (rc.HeaderAgain? ==> Orderly(s, t))
  {
    hide Feed, LineEnd, IsNoScript;
    var c := Consume(s.preludes, s.unread);
    StillPartial(s.preludes, s.unread);
    ConsumeNothing([]);
    if c.Ready? {
      ConsumeNothing(c.rest);
    }
    if !c.Rejected? {
      assert c.rest + [] == c.rest;
    }
  }

  lemma FeedNothing()
    ensures forall p :: Feed(p, []) == Again(p)
  {
  }

  lemma {:induction false} StillPartial(m: nat, u: seq<byte>)
    ensures var c := Consume(m, u);
            c.Partial? ==> Consume(c.left, c.rest) == c
  {
    if m > 0 && LineEnd(u).Some? && u[0] == PLUS {
      StillPartial(m - 1, u[LineEnd(u).value + 1..]);
    }
  }

  lemma {:induction false} RunAppends(s: Session, a: seq<Io>, b: seq<Io>, evalLength: nat)
    requires Possible(s, a + b, evalLength)
    ensures Possible(s, a, evalLength) && Possible(Run(s, a, evalLength), b, evalLength)
    ensures Run(s, a + b, evalLength) == Run(Run(s, a, evalLength), b, evalLength)
    decreases |a|
  {
    hide Step;
    if a == [] {
      assert a + b == b;
    } else {
      assert (a + b)[1..] == a[1..] + b;
      RunAppends(Step(s, a[0], evalLength), a[1..], b, evalLength);
    }
  }

  lemma {:induction false} RunJoins(s: Session, a: seq<Io>, b: seq<Io>, evalLength: nat)
    requires Possible(s, a, evalLength) && Possible(Run(s, a, evalLength), b, evalLength)
    ensures Possible(s, a + b, evalLength)
    ensures Run(s, a + b, evalLength) == Run(Run(s, a, evalLength), b, evalLength)
    decreases |a|
  {
    hide Step, Enabled;
    if a == [] {
      assert a + b == b;
    } else {
      assert (a + b)[1..] == a[1..] + b;
      RunJoins(Step(s, a[0], evalLength), a[1..], b, evalLength);
    }
  }

  /** Room enough for a stream of n bytes: once the body has begun every read empties the buffer. */
  predicate Roomy(s: Session, n: nat) {
    s.last + n <= s.capacity || (s.phase.Body? && s.last < s.capacity)
  }

  /** Chunk independence: with room enough, what a session makes of a stream is what the stream
      read as a whole decides, however it is divided into reads. */
  lemma {:induction false} RunDecides(s: Session, ios: seq<Io>, evalLength: nat)
    requires Waiting(s) && Possible(s, ios, evalLength) && Quiet(ios)
    requires Roomy(s, |Payload(ios)|)
    ensures var t, d := Run(s, ios, evalLength), Decide(s, Payload(ios));
            && (d.Decided? ==> t.phase.Finalized? && t.parser == d.p)
            && (d.Refused? ==> t.phase.Finalized? && t.parser.status == INTERNAL_ERROR)
            && (d.More? && Roomy(s, |Payload(ios)| + 1) ==> Waiting(t))
    decreases |ios|
  {
    hide Decide, OnData, Resent;
    if ios != [] {
      var io, rest := ios[0], ios[1..];
      var t := Step(s, io, evalLength);
      if io.Data? {
        ReadKeepsDecision(s, io.bytes, Payload(rest), evalLength);
        AfterRead(s, io.bytes, evalLength);
      } else {
        assert Payload(ios) == Payload(rest);
        WritesDoNotDecide(s, t, Payload(rest));
        WritesDoNotDecide(s, t, []);
      }
      if t.phase.Finalized? {
        StaysFinalized(t, rest, evalLength);
      } else if t.fallback == s.fallback {
        RunDecides(t, rest, evalLength);
      }
    }
  }

  lemma WritesDoNotDecide(s: Session, t: Session, x: seq<byte>)
    requires t == s.(evalLeft := t.evalLeft)
    ensures Decide(t, x) == Decide(s, x)
  {
  }
}
