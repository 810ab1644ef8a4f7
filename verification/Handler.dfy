/** The phase handler: whether a request is limited at all, when the one exchange with Redis is
    started, and what its outcome means for the request. */
module Handler {
  import opened Foundation
  import opened Bytes
  import opened Histories
  import opened ReplyParser
  import opened Session
  import opened Verdicts
  import opened Requests
  import Encoder
  import U = Upstream

  const MAX_KEY_LENGTH := 65535
  const UNDERSCORE: byte := 95
  const BAD_REQUEST := 400

  /** What the handler returns to the phase engine: let the request go on, wait, fail, or answer. */
  datatype Rc = Declined | Pending | Error | Http(status: int)

  /** What can go wrong while an exchange is being set up. */
  datatype Setup = Works | NoContext | BadKey | NoPrefix | NoPrelude | NoUpstream | BadTarget | EmptyTarget
    | UnknownTarget

  predicate Transport(status: int) {
    status == BAD_GATEWAY || status == UNAVAILABLE || status == GATEWAY_TIMEOUT
  }

  /** The decision on a request whose exchange is s. */
  function Reentry(l: Location, s: Session): Rc {
    var status := s.parser.status;
    if !s.phase.Finalized? then Pending
    else if status == HTTP_TOO_MANY then Http(l.statusCode)
    else if status == HTTP_OK then Declined
    else if status >= BAD_REQUEST then
      if l.onError.Allow? && Transport(status) then Declined else Http(status)
    else Http(INTERNAL_ERROR)
  }

  function FullKey(prefix: seq<byte>, key: seq<byte>): seq<byte> {
    if prefix == [] then key else prefix + [UNDERSCORE] + key
  }

  /** One prefix goes on after a `_` where the other ends. */
  predicate Overlap(p: seq<byte>, q: seq<byte>) {
    p + [UNDERSCORE] <= q + [UNDERSCORE] || q + [UNDERSCORE] <= p + [UNDERSCORE]
  }

  /** Prefixes keep keys apart: one prefix never makes two keys the same, and two prefixes do, for some
      keys, if and only if they overlap. Without a prefix any of these keys can be reached. */
  lemma PrefixesKeepApart(p: seq<byte>, q: seq<byte>)
    requires p != [] && q != []
    ensures forall a, b :: FullKey(p, a) == FullKey(p, b) ==> a == b
    ensures (exists a, b :: FullKey(p, a) == FullKey(q, b)) <==> Overlap(p, q)
    ensures forall a :: FullKey([], FullKey(p, a)) == FullKey(p, a)
  {
    var x, y := p + [UNDERSCORE], q + [UNDERSCORE];
    forall a, b | FullKey(p, a) == FullKey(p, b) ensures a == b {
      assert FullKey(p, a)[|x|..] == a && FullKey(p, b)[|x|..] == b;
    }
    forall a, b | FullKey(p, a) == FullKey(q, b) ensures Overlap(p, q) {
      assert FullKey(p, a)[..|x|] == x && FullKey(q, b)[..|y|] == y;
    }
    if x <= y {
      assert FullKey(p, y[|x|..]) == FullKey(q, []);
    } else if y <= x {
      assert FullKey(q, x[|y|..]) == FullKey(p, []);
    }
  }

  /** One visit of the handler: its return code, the one-shot marker afterwards, and whether an
      exchange begins. */
  datatype Visit = Visit(rc: Rc, decided: bool, begins: bool)

  function Enter(l: Location, decided: bool, exchange: Option<Session>, key: seq<byte>, setup: Setup): Visit {
    if l.zone.None? then Visit(Declined, decided, false)
    else if !l.target then Visit(Http(INTERNAL_ERROR), decided, false)
    else if exchange.Some? then Visit(Reentry(l, exchange.value), decided, false)
    else if decided then Visit(Declined, decided, false)
    else if setup.NoContext? || setup.BadKey? then Visit(Error, decided, false)
    else if key == [] then Visit(Declined, decided, false)
    else if (l.prefix != [] && setup.NoPrefix?) || |FullKey(l.prefix, key)| > MAX_KEY_LENGTH then
      Visit(Http(INTERNAL_ERROR), decided, false)
    else if setup.Works? || setup.NoPrefix? then Visit(Pending, true, true)
    else Visit(if setup.BadTarget? then Error else Http(INTERNAL_ERROR), true, false)
  }

  /** A main request and the marker it shares with its subrequests and redirects. */
  class MainRequest {
    var decided: bool

    constructor ()
      ensures !decided
    {
      decided := false;
    }
  }

  class Request {
    const main: MainRequest
    var hasContext: bool
    var upstream: U.Upstream?

    constructor (main: MainRequest)
      ensures Valid() && !hasContext && this.main == main
    {
      this.main := main;
      hasContext, upstream := false, null;
    }

    ghost predicate Valid()
      reads this, if upstream == null then {} else {upstream, upstream.buf, upstream.ctx, upstream.request}
    {
      hasContext ==> upstream != null && upstream.Valid()
    }

    ghost function Exchange(): Option<Session>
      reads this, if upstream == null then {} else {upstream, upstream.buf, upstream.ctx, upstream.request}
      requires Valid()
    {
      if hasContext then Some(upstream.Model()) else None
    }

    /** An internal redirect wipes the context; the marker on the main request stays. */
    method Redirect()
      requires Valid()
      modifies this`hasContext
      ensures Valid() && Exchange() == None
    {
      hasContext := false;
    }

    method Handle(l: Location, key: seq<byte>, setup: Setup) returns (rc: Rc, ghost begins: bool)
      requires Valid()
      modifies this, main
      ensures Valid() && Visit(rc, main.decided, begins) == Enter(l, old(main.decided), old(Exchange()), key, setup)
      ensures !begins ==> hasContext == old(hasContext) && upstream == old(upstream)
      ensures begins ==>
                && fresh(upstream) && Exchange() == Some(Begin(|Requests.Prelude(l)|, l.bufferSize, l.headersOn))
                && upstream.evalArgv == ScriptCall(l, l.zone.value, FullKey(l.prefix, key), true)
    {
      hide Encoder.Command, ScriptCall, U.Upstream.Valid, U.Upstream.Model;
      begins := false;
      if l.zone.None? {
        return Declined, false;
      }
      if !l.target {
        return Http(INTERNAL_ERROR), false;
      }
      if hasContext {
        rc := Decision(l);
        return;
      }
      if main.decided {
        return Declined, false;
      }
      if setup.NoContext? || setup.BadKey? {
        return Error, false;
      }
      if |key| == 0 {
        return Declined, false;
      }
      var full := key;
      if |l.prefix| > 0 {
        if setup.NoPrefix? {
          return Http(INTERNAL_ERROR), false;
        }
        full := l.prefix + [UNDERSCORE] + key;
      }
      if |full| > MAX_KEY_LENGTH {
        return Http(INTERNAL_ERROR), false;
      }
      rc, begins := Commit(l, full, setup);
    }

    /** Set the marker, then try to begin the exchange. */
    method Commit(l: Location, full: seq<byte>, setup: Setup) returns (rc: Rc, ghost begins: bool)
      requires Valid() && !hasContext && l.zone.Some? && !setup.NoContext? && !setup.BadKey?
      modifies this, main
      ensures Valid() && main.decided && (begins <==> setup.Works? || setup.NoPrefix?)
      ensures begins || rc == if setup.BadTarget? then Error else Http(INTERNAL_ERROR)
      ensures begins ==>
                && fresh(upstream) && Exchange() == Some(Begin(|Requests.Prelude(l)|, l.bufferSize, l.headersOn))
                && upstream.evalArgv == ScriptCall(l, l.zone.value, full, true) && rc == Pending
      ensures !begins ==> hasContext == old(hasContext) && upstream == old(upstream)
    {
      hide Encoder.Command, ScriptCall, U.Upstream.Valid, U.Upstream.Model;
      main.decided := true;
      if setup.NoPrelude? || setup.NoUpstream? {
        return Http(INTERNAL_ERROR), false;
      }
      if setup.BadTarget? {
        return Error, false;
      }
      if setup.EmptyTarget? || setup.UnknownTarget? {
        return Http(INTERNAL_ERROR), false;
      }
      var prelude, replies := BuildPrelude(l);
      upstream := new U.Upstream(l.bufferSize, replies, ScriptCall(l, l.zone.value, full, true), l.headersOn);
      hasContext := true;
      return Pending, true;
    }

    /** The status that the exchange has left. */
    method Decision(l: Location) returns (rc: Rc)
      requires Valid() && hasContext
      ensures rc == Reentry(l, upstream.Model())
    {
      hide Encoder.Command;
      if upstream.phase != Finalized {
        return Pending;
      }
      var status := upstream.ctx.status;
      if status == HTTP_TOO_MANY {
        return Http(l.statusCode);
      }
      if status == HTTP_OK {
        return Declined;
      }
      if status >= BAD_REQUEST {
        if l.onError == Allow && Transport(status) {
          return Declined;
        }
        return Http(status);
      }
      return Http(INTERNAL_ERROR);
    }
  }

  // ---- one exchange at most ----

  /** A visit of the handler for one main request, whatever the exchange has come to by then. */
  datatype Arrival = Arrival(l: Location, exchange: Option<Session>, key: seq<byte>, setup: Setup)

  function Exchanges(decided: bool, arrivals: seq<Arrival>): nat
    decreases |arrivals|
  {
    if arrivals == [] then 0
    else
      var a := arrivals[0];
      var v := Enter(a.l, decided, a.exchange, a.key, a.setup);
      (if v.begins then 1 else 0) + Exchanges(v.decided, arrivals[1..])
  }

  /** However often the phases are run again, by whatever location, and whether or not the context
      has been wiped in between, a main request begins at most one exchange. */
  lemma {:induction false} OneShot(decided: bool, arrivals: seq<Arrival>)
    ensures Exchanges(decided, arrivals) <= if decided then 0 else 1
    decreases |arrivals|
  {
    if arrivals != [] {
      var a := arrivals[0];
      OneShot(Enter(a.l, decided, a.exchange, a.key, a.setup).decided, arrivals[1..]);
    }
  }

  /** A visit that commits the request: the location limits, nothing has been started, and there is
      a key that Redis can be asked about. */
  predicate Commits(a: Arrival) {
    && a.l.zone.Some? && a.l.target && a.exchange.None? && !a.setup.NoContext? && !a.setup.BadKey?
    && 0 < |a.key| && |FullKey(a.l.prefix, a.key)| <= MAX_KEY_LENGTH
    && (a.setup.NoPrefix? ==> a.l.prefix == [])
  }

  /** The one exchange begins with the first visit that commits the request, unless setting it up
      fails, and then never; visits with an empty key leave the chance to later ones. */
  lemma {:induction false} FirstCommitDecides(arrivals: seq<Arrival>, i: nat)
    requires i <= |arrivals| && (forall j :: 0 <= j < i ==> !Commits(arrivals[j]))
    requires i < |arrivals| ==> Commits(arrivals[i])
    ensures Exchanges(false, arrivals)
            == if i < |arrivals| && (arrivals[i].setup.Works? || arrivals[i].setup.NoPrefix?) then 1 else 0
    decreases |arrivals|
  {
    if arrivals != [] {
      if i == 0 {
        OneShot(true, arrivals[1..]);
      } else {
        var a := arrivals[0];
        assert !Commits(a);
        FirstCommitDecides(arrivals[1..], i - 1);
      }
    }
  }

  // ---- every visit ----

  /** The marker after some visits. */
  function Marked(decided: bool, arrivals: seq<Arrival>): bool
    decreases |arrivals|
  {
    if arrivals == [] then decided
    else
      var a := arrivals[0];
      Marked(Enter(a.l, decided, a.exchange, a.key, a.setup).decided, arrivals[1..])
  }

  /** What the last of some visits does for a new main request. */
  function LastVisit(arrivals: seq<Arrival>): Visit
    requires arrivals != []
  {
    var a := Last(arrivals);
    Enter(a.l, Marked(false, Init(arrivals)), a.exchange, a.key, a.setup)
  }

  /** It is set just by a visit that commits the request. */
  lemma {:induction false} MarkedByCommit(decided: bool, arrivals: seq<Arrival>)
    ensures Marked(decided, arrivals) <==> decided || exists i :: 0 <= i < |arrivals| && Commits(arrivals[i])
    decreases |arrivals|
  {
    if arrivals != [] {
      var a := arrivals[0];
      assert forall i :: 0 < i < |arrivals| ==> arrivals[i] == arrivals[1..][i - 1];
      MarkedByCommit(Enter(a.l, decided, a.exchange, a.key, a.setup).decided, arrivals[1..]);
    }
  }

  /** A request that has been committed is decided for good: every later visit without an exchange in
      progress, as after an internal redirect, lets it go on, whatever its key and whatever would
      have failed, at every location that has somewhere to ask. */
  lemma DecidedForGood(arrivals: seq<Arrival>, i: nat)
    requires i < |arrivals| - 1 && Commits(arrivals[i])
    requires Last(arrivals).exchange.None? && (Last(arrivals).l.zone.Some? ==> Last(arrivals).l.target)
    ensures LastVisit(arrivals).rc == Declined && !LastVisit(arrivals).begins
  {
    assert Init(arrivals)[i] == arrivals[i];
    MarkedByCommit(false, Init(arrivals));
  }

  /** Before that, what a visit does that does not commit the request: it does not limit without a
      zone or a key, and fails if it has nobody to ask or cannot make up its key. */
  lemma NotCommitted(arrivals: seq<Arrival>)
    requires arrivals != [] && Last(arrivals).exchange.None?
    requires forall i :: 0 <= i < |arrivals| ==> !Commits(arrivals[i])
    ensures var a, v := Last(arrivals), LastVisit(arrivals);
            && !v.begins && !v.decided
            && (a.l.zone.None? ==> v.rc == Declined)
            && (a.l.zone.Some? && !a.l.target ==> v.rc == Http(500))
            && (a.l.zone.Some? && a.l.target ==>
                  if a.setup.NoContext? || a.setup.BadKey? then v.rc == Error
                  else v.rc == if a.key == [] then Declined else Http(500))
  {
    assert forall i :: 0 <= i < |Init(arrivals)| ==> Init(arrivals)[i] == arrivals[i];
    MarkedByCommit(false, Init(arrivals));
  }

  /** The visit that commits the request waits for its exchange, or fails if none can begin. */
  lemma FirstCommit(arrivals: seq<Arrival>)
    requires arrivals != [] && Commits(Last(arrivals))
    requires forall i :: 0 <= i < |arrivals| - 1 ==> !Commits(arrivals[i])
    ensures var a, v := Last(arrivals), LastVisit(arrivals);
            && v.decided && (v.begins <==> v.rc == Pending)
            && v.rc == match a.setup
                       case Works => Pending
                       case NoPrefix => Pending
                       case BadTarget => Error
                       case _ => Http(500)
  {
    assert forall i :: 0 <= i < |Init(arrivals)| ==> Init(arrivals)[i] == arrivals[i];
    MarkedByCommit(false, Init(arrivals));
  }

  /** A visit that finds the exchange of its request is answered by it and changes nothing. */
  lemma Reentered(arrivals: seq<Arrival>)
    requires arrivals != [] && Last(arrivals).exchange.Some?
    requires Last(arrivals).l.zone.Some? && Last(arrivals).l.target
    ensures var a, v := Last(arrivals), LastVisit(arrivals);
            !v.begins && v.rc == Reentry(a.l, a.exchange.value) && v.decided == Marked(false, Init(arrivals))
  {
  }

  // ---- fail closed ----

  predicate TransportFailure(io: Io) {
    io.Eof? || io.ReadError? || io.ReadTimeout? || io.ConnectFailed? || io.WriteError? || io.WriteTimeout?
  }

  /** The event that ends the session, if one does. */
  ghost function EndedBy(s: Session, ios: seq<Io>, evalLength: nat): Option<Io>
    requires Possible(s, ios, evalLength)
    decreases |ios|
  {
    if ios == [] || s.phase.Finalized? then None
    else
      var t := Step(s, ios[0], evalLength);
      if t.phase.Finalized? then Some(ios[0]) else EndedBy(t, ios[1..], evalLength)
  }

  /** It is a transport failure. */
  ghost predicate BrokeDown(s: Session, ios: seq<Io>, evalLength: nat)
    requires Possible(s, ios, evalLength)
  {
    EndedBy(s, ios, evalLength).Some? && TransportFailure(EndedBy(s, ios, evalLength).value)
  }

  /** What an event that ends a session leaves: a dropped connection is 502, one that cannot be made
      503, a timeout 504, a fault 500, and what was read is a verdict or 500. */
  predicate Left(io: Io, t: Session) {
    var status := t.parser.status;
    match io
    case Eof => status == 502
    case ReadError => status == 502
    case WriteError => status == 502
    case ConnectFailed => status == 503
    case ReadTimeout => status == 504
    case WriteTimeout => status == 504
    case Fault => status == 500 && !HasVerdict(t)
    case Data(_) => status == 500 || HasVerdict(t)
    case _ => false
  }

  predicate IsVerdict(status: int) {
    status == HTTP_OK || status == HTTP_TOO_MANY
  }

  /** No outcome yet: the status is unset or follows the parser, and nothing was emitted. */
  predicate Open(s: Session) {
    && !s.parser.parsed && !s.headers
    && (IsVerdict(s.parser.status) || (s.phase.Header? && s.parser.status == 0))
  }

  lemma {:induction false} FeedKeepsStatus(p: Parser, x: seq<byte>)
    requires IsVerdict(p.status)
    ensures IsVerdict(Feed(p, x).p.status)
    decreases |x|
  {
    if x != [] && Next(p, x[0]).Go? {
      FeedKeepsStatus(Next(p, x[0]).p, x[1..]);
    }
  }

  lemma AfterFeedIsOpen(s: Session, x: seq<byte>, last: nat)
    requires Open(s) && IsVerdict(s.parser.status)
    ensures var t := AfterFeed(s, Feed(s.parser, x), last);
            && (!t.phase.Finalized? ==> Open(t))
            && (t.phase.Finalized? ==> t.parser.status == INTERNAL_ERROR || HasVerdict(t))
            && (t.phase.Finalized? ==> Emitted(t))
  {
    FeedKeepsStatus(s.parser, x);
    ParsedOnlyAtEnd(s.parser, x);
    hide Feed;
  }

  /** The rate headers go out just with a verdict, and with a grant only if they are wanted. */
  predicate Emitted(t: Session) {
    t.headers <==> HasVerdict(t) && (t.parser.status == HTTP_TOO_MANY || t.headersOn)
  }

  lemma HeaderIsOpen(s: Session, evalLength: nat)
    requires Open(s) && s.phase.Header?
    ensures var (rc, t) := ProcessHeader(s, evalLength);
            Open(t) && t.phase.Header? && (rc.HeaderOk? ==> IsVerdict(t.parser.status))
  {
    hide Consume, LineEnd, IsNoScript;
  }

  lemma HeaderReadIsOpen(s: Session, bytes: seq<byte>, evalLength: nat)
    requires s.phase.Header? && Open(s)
    ensures var t := OnData(s, bytes, evalLength);
            && (!t.phase.Finalized? ==> Open(t))
            && (t.phase.Finalized? ==> Emitted(t) && (t.parser.status == INTERNAL_ERROR || HasVerdict(t)))
  {
    hide Feed, ProcessHeader;
    var r := s.(last := s.last + |bytes|, unread := s.unread + bytes);
    HeaderIsOpen(r, evalLength);
    var (rc, t) := ProcessHeader(r, evalLength);
    if rc.HeaderOk? {
      AfterFeedIsOpen(t, t.unread, t.last);
      hide AfterFeed;
    }
  }

  lemma StepIsOpen(s: Session, io: Io, evalLength: nat)
    requires !s.phase.Finalized? && Open(s) && Enabled(s, io)
    ensures var t := Step(s, io, evalLength);
            && (!t.phase.Finalized? ==> Open(t))
            && (t.phase.Finalized? ==> Emitted(t) && Left(io, t))
  {
    hide AfterFeed, ProcessHeader, ProcessResponse;
    if io.Data? {
      if s.phase.Header? {
        HeaderReadIsOpen(s, io.bytes, evalLength);
        hide OnData;
      } else {
        AfterFeedIsOpen(s, io.bytes, 0);
      }
    }
  }

  /** Every way a session can end, over all runs: by the kind of event that ends it. */
  lemma {:induction false} Endings(s: Session, ios: seq<Io>, evalLength: nat)
    requires !s.phase.Finalized? && Open(s) && Possible(s, ios, evalLength)
    ensures var t := Run(s, ios, evalLength);
            var end := EndedBy(s, ios, evalLength);
            && (t.phase.Finalized? <==> end.Some?)
            && (if end.Some? then Emitted(t) && Left(end.value, t) else Open(t))
    decreases |ios|
  {
    hide Step, Enabled, Open, Emitted, Left;
    if ios != [] {
      StepIsOpen(s, ios[0], evalLength);
      var t := Step(s, ios[0], evalLength);
      if t.phase.Finalized? {
        StaysFinalized(t, ios[1..], evalLength);
      } else {
        Endings(t, ios[1..], evalLength);
      }
    }
  }

  /** Fail closed, over all runs and all server streams: the request is let through if and only if
      Redis granted it, or transport failures are to be ignored and one ended the exchange; all
      that Redis can say otherwise, malformed or not, is answered by an error, and a failure that is
      not ignored by the status of its kind. */
  lemma FailClosed(l: Location, ios: seq<Io>, evalLength: nat)
    requires Possible(Begin(|Requests.Prelude(l)|, l.bufferSize, l.headersOn), ios, evalLength)
    ensures var s := Begin(|Requests.Prelude(l)|, l.bufferSize, l.headersOn);
            var t, rc := Run(s, ios, evalLength), Reentry(l, Run(s, ios, evalLength));
            && (rc == Pending <==> !t.phase.Finalized?)
            && (rc == Declined <==>
                  || (HasVerdict(t) && t.parser.status == HTTP_OK)
                  || (l.onError.Allow? && BrokeDown(s, ios, evalLength)))
            && (HasVerdict(t) && t.parser.status == HTTP_TOO_MANY ==> rc == Http(l.statusCode))
            && (t.phase.Finalized? && !HasVerdict(t) && !BrokeDown(s, ios, evalLength) ==> rc == Http(500))
            && var end := EndedBy(s, ios, evalLength);
               (end.Some? && l.onError.Deny? ==>
                  match end.value
                  case Eof => rc == Http(502)
                  case ReadError => rc == Http(502)
                  case WriteError => rc == Http(502)
                  case ConnectFailed => rc == Http(503)
                  case ReadTimeout => rc == Http(504)
                  case WriteTimeout => rc == Http(504)
                  case Fault => rc == Http(500)
                  case Data(_) => HasVerdict(t) || rc == Http(500)
                  case _ => false)
  {
    hide Run, Possible, EndedBy;
    Endings(Begin(|Requests.Prelude(l)|, l.bufferSize, l.headersOn), ios, evalLength);
  }

  /** A grant was read: from the bytes up to some event, or, had they said NOSCRIPT by then, from
      those that followed; and it was read to the end. */
  lemma GrantWasRead(l: Location, ios: seq<Io>, evalLength: nat) returns (i: nat, j: nat)
    requires Possible(Begin(|Requests.Prelude(l)|, l.bufferSize, l.headersOn), ios, evalLength)
    requires var s := Begin(|Requests.Prelude(l)|, l.bufferSize, l.headersOn);
             Reentry(l, Run(s, ios, evalLength)) == Declined && !BrokeDown(s, ios, evalLength)
    ensures var s := Begin(|Requests.Prelude(l)|, l.bufferSize, l.headersOn);
            var p := Run(s, ios, evalLength).parser;
            p.parsed && p.status == HTTP_OK && Origin(s, ios, i, j, p, evalLength)
  {
    hide Run, Possible, BrokeDown, EndedBy, Origin;
    FailClosed(l, ios, evalLength);
    i, j := VerdictOrigin(Begin(|Requests.Prelude(l)|, l.bufferSize, l.headersOn), ios, evalLength);
  }

  /** The rate headers are emitted exactly with a verdict, over all runs. */
  lemma HeadersTellTheTruth(l: Location, ios: seq<Io>, evalLength: nat)
    requires Possible(Begin(|Requests.Prelude(l)|, l.bufferSize, l.headersOn), ios, evalLength)
    ensures var t := Run(Begin(|Requests.Prelude(l)|, l.bufferSize, l.headersOn), ios, evalLength);
            t.headers <==> HasVerdict(t) && (t.parser.status == HTTP_TOO_MANY || t.headersOn)
  {
    hide Run, Possible, EndedBy;
    Endings(Begin(|Requests.Prelude(l)|, l.bufferSize, l.headersOn), ios, evalLength);
  }
}
