/** Any number of requests in any number of workers, sharing one Redis and one key: how handler,
    exchange, server and script fit together in every interleaving. */
module EndToEnd {
  import opened Foundation
  import opened Histories
  import opened Bytes
  import opened ReplyParser
  import opened Session
  import opened Verdicts
  import opened Requests
  import opened Handler
  import Encoder
  import FixedWindow
  import Gcra
  import G = ReplyGrammar
  import Rates
  import SlidingWindow
  import Stored
  import TokenBucket

  /** The server's side of an exchange: it owes answers to m prelude commands and a script call; it
      has said that the script is missing; it has run the script; or it has sent something else, and
      may or may not have a script call to run all the same. */
  datatype Peer = Owes(m: nat) | Missing | Replied(reply: Reply) | Astray(pending: bool)

  /** One exchange, with the bytes that the server has sent and the module not yet read. */
  datatype Link = Link(session: Session, peer: Peer, inbox: seq<byte>)

  /** A run of the script on behalf of a request. */
  datatype Ran = Ran(call: Call, reply: Reply)

  /** A main request. `frame` is the length of its EVAL frame, `evals` counts how often one has been
      built, and `ran` lists what the server has run for it. */
  datatype Client = Client(location: Location, decided: bool, context: bool, link: Option<Link>, frame: nat,
                           evals: nat, ran: seq<Ran>)

  /** `log` lists the calls that the server has run, `cached` says whether it knows the script. */
  datatype World = World(log: seq<Call>, cached: bool, clients: seq<Client>)

  // ---- the stream of one exchange ----

  /** Once something is decided, more bytes do not change it. */
  lemma DecisionStands(s: Session, a: seq<byte>, b: seq<byte>)
    requires !s.phase.Finalized? && Decide(s, a) != More
    ensures Decide(s, a + b) == Decide(s, a)
  {
    hide OfHeader, Feed, LineEnd, Consume;
    if s.phase.Header? {
      var u := s.unread + a;
      assert s.unread + (a + b) == u + b;
      ConsumeExtends(s.preludes, u, b);
      var c := Consume(s.preludes, u);
      if c.Ready? {
        HeaderExtends(s.parser, s.fallback, c.rest, b);
      }
    } else {
      Resumable(s.parser, a, b);
    }
  }

  /** What the server has sent and will send agrees with what its side of the exchange is. */
  ghost predicate InStep(k: Link) {
    var s, x := k.session, k.inbox;
    match k.peer
    case Owes(m) => forall f :: Decide(s, x + f) == OfStream(m, UNREAD, s.fallback, f)
    case Missing => !s.fallback && Decide(s, x) == NoScript && forall n: nat :: n < |x| ==> Decide(s, x[..n]) == More
    case Replied(r) => Decide(s, x) == OfStream(0, UNREAD, s.fallback, [STAR] + Wire(r))
    case Astray(_) => Decide(s, x) == Refused
  }

  /** A verdict comes from a run of the script and from nothing else. */
  ghost predicate Sound(k: Link) {
    && (k.session.phase.Header? ==> k.session.parser == UNREAD)
    && (k.peer.Owes? && k.session.fallback ==> k.peer.m == 0)
    && if k.session.phase.Finalized? then
         HasVerdict(k.session) ==>
           && k.peer.Replied?
           && OfStream(0, UNREAD, k.session.fallback, [STAR] + Wire(k.peer.reply)) == Decided(k.session.parser)
       else InStep(k)
  }

  lemma BeginIsSound(preludes: nat, capacity: nat, headersOn: bool)
    ensures Sound(Link(Begin(preludes, capacity, headersOn), Owes(preludes), []))
  {
    var s := Begin(preludes, capacity, headersOn);
    forall f: seq<byte> ensures Decide(s, [] + f) == OfStream(preludes, UNREAD, false, f) {
      assert [] + ([] + f) == f;
    }
  }

  /** A read that leaves the header unfinished leaves the parser as it was or starts it over. */
  lemma StillHeader(s: Session, io: Io, evalLength: nat)
    requires !s.phase.Finalized? && Enabled(s, io)
    requires Step(s, io, evalLength).phase.Header?
    ensures s.phase.Header?
    ensures s.parser == UNREAD ==> Step(s, io, evalLength).parser == UNREAD
  {
    hide Feed, Consume, LineEnd, IsNoScript;
  }

  /** A read takes from the inbox; it cannot bring what the server has not sent. */
  predicate Deliverable(k: Link, io: Io) {
    !k.session.phase.Finalized? && Enabled(k.session, io) && (io.Data? ==> io.bytes <= k.inbox)
  }

  /** An exchange after what its sockets report. When the EVAL has been built, the server owes one
      more answer. */
  function Reported(k: Link, io: Io, evalLength: nat): Link
    requires Deliverable(k, io)
  {
    var t := Step(k.session, io, evalLength);
    Link(t, if t.fallback && !k.session.fallback then Owes(0) else k.peer,
         if io.Data? then k.inbox[|io.bytes|..] else k.inbox)
  }

  lemma ReadKeepsOwing(k: Link, bytes: seq<byte>, x: seq<byte>, evalLength: nat)
    requires Sound(k) && k.peer.Owes? && Deliverable(k, Data(bytes)) && k.inbox == bytes + x
    ensures var t := OnData(k.session, bytes, evalLength);
            && (t.fallback && !t.phase.Finalized? ==> k.session.fallback)
            && if t.phase.Finalized? then !HasVerdict(t)
               else t.fallback == k.session.fallback
                    && forall f :: Decide(t, x + f) == OfStream(k.peer.m, UNREAD, t.fallback, f)
  {
    hide Decide, OnData, Resent;
    var s, t, m := k.session, OnData(k.session, bytes, evalLength), k.peer.m;
    NothingOwedYet(m, s.fallback);
    assert bytes + x == k.inbox + [] && bytes + (x + []) == k.inbox + [];
    ReadKeepsDecision(s, bytes, x + [], evalLength);
    if !t.phase.Finalized? {
      forall f ensures Decide(t, x + f) == OfStream(m, UNREAD, t.fallback, f) {
        assert bytes + (x + f) == k.inbox + f;
        ReadKeepsDecision(s, bytes, x + f, evalLength);
      }
    }
  }

  lemma NothingOwedYet(m: nat, fallback: bool)
    ensures OfStream(m, UNREAD, fallback, []) == More
  {
    ConsumeNothing([]);
  }

  lemma ReadKeepsMissing(k: Link, bytes: seq<byte>, x: seq<byte>, evalLength: nat)
    requires Sound(k) && k.peer.Missing? && Deliverable(k, Data(bytes)) && k.inbox == bytes + x
    ensures var s, t := k.session, OnData(k.session, bytes, evalLength);
            if t.phase.Finalized? then !HasVerdict(t)
            else if t.fallback then t == Resent(s, evalLength) && x == []
            else Decide(t, x) == NoScript && forall n: nat :: n < |x| ==> Decide(t, x[..n]) == More
  {
    hide Decide, OnData, Resent;
    var s, t := k.session, OnData(k.session, bytes, evalLength);
    ReadKeepsDecision(s, bytes, x, evalLength);
    if !t.phase.Finalized? {
      if t.fallback {
        ReadKeepsDecision(s, bytes, [], evalLength);
        assert bytes + [] == bytes == k.inbox[..|bytes|];
      } else {
        forall n: nat | n < |x| ensures Decide(t, x[..n]) == More {
          assert k.inbox[..|bytes| + n] == bytes + x[..n];
          ReadKeepsDecision(s, bytes, x[..n], evalLength);
        }
      }
    }
  }

  lemma ReadKeepsAnswer(k: Link, bytes: seq<byte>, x: seq<byte>, evalLength: nat)
    requires Sound(k) && (k.peer.Replied? || k.peer.Astray?) && Deliverable(k, Data(bytes)) && k.inbox == bytes + x
    ensures var s, t := k.session, OnData(k.session, bytes, evalLength);
            if t.phase.Finalized? then HasVerdict(t) ==> Decide(s, k.inbox) == Decided(t.parser)
            else t.fallback == s.fallback && Decide(t, x) == Decide(s, k.inbox)
  {
    hide Decide, OnData, Resent, Feed;
    ReadKeepsDecision(k.session, bytes, x, evalLength);
    if k.peer.Replied? {
      ReplyDecides(k.session.fallback, k.peer.reply);
    }
  }

  /** A run of the script that is heard decides the exchange: as the reply says, or, if the parser
      does not accept the reply, as a failure. */
  lemma ReplyDecides(fallback: bool, r: Reply)
    ensures OfStream(0, UNREAD, fallback, [STAR] + Wire(r))
            == if G.IsAccepted(r) then Decided(G.Taken(r)) else Refused
  {
    hide Feed, Wire;
    assert ([STAR] + Wire(r))[1..] == Wire(r);
    G.ExactlyTheseReplies(r);
  }

  /** Only an exchange in its header falls back, and that does not end it. */
  lemma FallsBackInHeader(s: Session, io: Io, evalLength: nat)
    requires !s.phase.Finalized? && Enabled(s, io)
    ensures var t := Step(s, io, evalLength);
            t.fallback && !s.fallback ==> s.phase.Header? && t.phase.Header?
  {
    hide Feed, Consume, LineEnd, IsNoScript;
  }

  /** Whatever the sockets report, an exchange stays sound, and it falls back to EVAL only when the
      server has not run the script. */
  lemma ReportIsSound(k: Link, io: Io, evalLength: nat)
    requires Sound(k) && Deliverable(k, io)
    ensures Sound(Reported(k, io, evalLength))
    ensures var t := Step(k.session, io, evalLength);
            t.fallback && !k.session.fallback ==> k.peer.Missing? && !t.phase.Finalized?
  {
    hide Decide, OnData, OfStream, Resent, Enabled;
    var t := Step(k.session, io, evalLength);
    FallsBackInHeader(k.session, io, evalLength);
    if t.phase.Header? {
      StillHeader(k.session, io, evalLength);
    }
    if io.Data? {
      var x := k.inbox[|io.bytes|..];
      assert k.inbox == io.bytes + x;
      FallbackLatches(k.session, io, evalLength);
      if k.peer.Owes? {
        ReadKeepsOwing(k, io.bytes, x, evalLength);
      } else if k.peer.Missing? {
        ReadKeepsMissing(k, io.bytes, x, evalLength);
        if t.fallback && !t.phase.Finalized? {
          ResentOwes(k.session, evalLength);
        }
      } else {
        ReadKeepsAnswer(k, io.bytes, x, evalLength);
      }
    } else if !t.phase.Finalized? {
      QuietKeeps(k, t);
    }
  }

  lemma ResentOwes(s: Session, evalLength: nat)
    requires s.phase.Header? && s.parser == UNREAD
    ensures var t := Resent(s, evalLength);
            t.parser == UNREAD && forall f :: Decide(t, [] + f) == OfStream(0, UNREAD, true, f)
  {
    hide OfStream;
    forall f: seq<byte> ensures Decide(Resent(s, evalLength), [] + f) == OfStream(0, UNREAD, true, f) {
      assert [] + ([] + f) == f;
    }
  }

  lemma QuietKeeps(k: Link, t: Session)
    requires InStep(k) && t == k.session.(evalLeft := t.evalLeft)
    ensures InStep(k.(session := t))
  {
    hide Decide, OfStream;
    var s := k.session;
    forall x ensures Decide(t, x) == Decide(s, x) {
      WritesDoNotDecide(s, t, x);
    }
  }

  // ---- what the server sends ----

  /** An error in place of an answer: to a prelude command anything but `+`, to the script call an
      error other than NOSCRIPT. */
  predicate IsErrorLine(m: nat, line: seq<byte>) {
    && 2 <= |line| && line[|line| - 1] == LF && LF !in line[..|line| - 1]
    && (if m > 0 then line[0] != PLUS else line[0] == MINUS && !IsNoScript(line))
  }

  lemma PreludeAnswered(k: Link, line: seq<byte>)
    requires Sound(k) && k.peer.Owes? && k.peer.m > 0 && IsOkLine(line)
    ensures Sound(k.(peer := Owes(k.peer.m - 1), inbox := k.inbox + line))
  {
    hide Decide, OfHeader;
    var s, m := k.session, k.peer.m;
    if !s.phase.Finalized? {
      forall f ensures Decide(s, (k.inbox + line) + f) == OfStream(m - 1, UNREAD, s.fallback, f) {
        assert (k.inbox + line) + f == k.inbox + (line + f);
        LineEndAt(line, f);
        assert (line + f)[|line|..] == f;
      }
    }
  }

  lemma ScriptAnswered(k: Link, r: Reply)
    requires Sound(k) && k.peer == Owes(0)
    ensures Sound(k.(peer := Replied(r), inbox := k.inbox + ([STAR] + Wire(r))))
  {
    hide Decide, OfStream, Wire;
  }

  lemma MissingAnswered(k: Link, line: seq<byte>)
    requires Sound(k) && k.peer == Owes(0) && !k.session.fallback && IsNoScriptLine(line)
    ensures Sound(k.(peer := Missing, inbox := k.inbox + line))
  {
    hide Decide, IsNoScriptLine, OfHeader;
    var s, x := k.session, k.inbox + line;
    if !s.phase.Finalized? {
      ConsumeNothing(line);
      LineDecides(line);
      NothingOwedYet(0, false);
      assert k.inbox + [] == k.inbox;
      forall n: nat | n < |x| ensures Decide(s, x[..n]) == More {
        if n <= |k.inbox| {
          assert x[..n] + k.inbox[n..] == k.inbox;
          if Decide(s, x[..n]) != More {
            DecisionStands(s, x[..n], k.inbox[n..]);
          }
        } else {
          var j := n - |k.inbox|;
          assert x[..n] == k.inbox + line[..j] && line[..j] + line[j..] == line;
          LineIsNeeded(UNREAD, line, line[..j], line[j..]);
          ConsumeNothing(line[..j]);
        }
      }
    }
  }

  lemma LineDecides(line: seq<byte>)
    requires IsNoScriptLine(line)
    ensures OfHeader(UNREAD, false, line) == NoScript
  {
    LineEndAt(line, []);
    assert line + [] == line;
  }

  lemma ErrorAnswered(k: Link, line: seq<byte>)
    requires Sound(k) && k.peer.Owes? && IsErrorLine(k.peer.m, line)
    ensures Sound(k.(peer := Astray(k.peer.m > 0), inbox := k.inbox + line))
  {
    hide Decide;
    LineEndAt(line, []);
    assert line + [] == line;
  }

  lemma StrayBytes(k: Link, pending: bool, bytes: seq<byte>)
    requires Sound(k) && k.peer.Astray?
    ensures Sound(k.(peer := Astray(pending), inbox := k.inbox + bytes))
  {
    hide Decide, OfStream;
    if !k.session.phase.Finalized? {
      DecisionStands(k.session, k.inbox, bytes);
    }
  }

  // ---- the world ----

  datatype Event =
    | Visited(i: nat, l: Location, key: seq<byte>, setup: Setup)
    | Redirected(i: nat)
    | Reports(i: nat, io: Io)
    | AnswersPrelude(i: nat, line: seq<byte>)
    | RunsScript(i: nat, call: Call)
    | SaysMissing(i: nat, line: seq<byte>)
    | SendsError(i: nat, line: seq<byte>)
    | SendsMore(i: nat, bytes: seq<byte>)
    | RunsUnheard(i: nat, call: Call)
    | ForgetsScripts

  /** When the server may run the script for a client: it has been asked to, and it knows how. */
  ghost predicate MayRun<V>(script: Script<V>, w: World, c: Client, call: Call)
    requires c.link.Some?
  {
    var s := c.link.value.session;
    && (if s.fallback then s.evalLeft == 0 else w.cached)
    && call.quantity == c.location.quantity && Legal(script, w.log + [call])
  }

  /** When an event of client c can happen. A request is redirected only once its exchange is over,
      and only its own location visits it with its context. */
  ghost predicate CanFor<V>(script: Script<V>, w: World, c: Client, e: Event)
    requires !e.ForgetsScripts?
  {
    if e.Visited? then c.context ==> c.link.Some? && e.l == c.location
    else if e.Redirected? then c.context ==> c.link.Some? && c.link.value.session.phase.Finalized?
    else
      c.link.Some? &&
      var k := c.link.value;
      match e
      case Reports(_, io) => Deliverable(k, io)
      case AnswersPrelude(_, line) => k.peer.Owes? && k.peer.m > 0 && IsOkLine(line)
      case RunsScript(_, call) => k.peer == Owes(0) && MayRun(script, w, c, call)
      case SaysMissing(_, line) => k.peer == Owes(0) && !k.session.fallback && !w.cached && IsNoScriptLine(line)
      case SendsError(_, line) => k.peer.Owes? && IsErrorLine(k.peer.m, line)
      case SendsMore(_, bytes) => k.peer.Astray?
      case RunsUnheard(_, call) => k.peer == Astray(true) && MayRun(script, w, c, call)
      case _ => true
  }

  ghost predicate Can<V>(script: Script<V>, w: World, e: Event) {
    e.ForgetsScripts? || (e.i < |w.clients| && CanFor(script, w, w.clients[e.i], e))
  }

  function NewReply<V>(script: Script<V>, w: World, call: Call): Reply {
    script(After(script, w.log), call).1
  }

  function VisitedBy(c: Client, l: Location, key: seq<byte>, setup: Setup): Client
    requires c.context ==> c.link.Some?
  {
    var v := Enter(l, c.decided, if c.context then Some(c.link.value.session) else None, key, setup);
    if v.begins then
      var n := |Requests.Prelude(l)|;
      c.(location := l, decided := v.decided, context := true,
         frame := |Encoder.Command(ScriptCall(l, l.zone.value, FullKey(l.prefix, key), true))|,
         link := Some(Link(Begin(n, l.bufferSize, l.headersOn), Owes(n), [])))
    else c.(decided := v.decided)
  }

  /** The client after an event of its own. */
  function Moved<V>(script: Script<V>, w: World, c: Client, e: Event): Client
    requires !e.ForgetsScripts? && CanFor(script, w, c, e)
  {
    match e
    case Visited(_, l, key, setup) => VisitedBy(c, l, key, setup)
    case Redirected(_) => c.(context := false)
    case Reports(_, io) =>
      var k := Reported(c.link.value, io, c.frame);
      c.(link := Some(k), evals := c.evals + if k.session.fallback && !c.link.value.session.fallback then 1 else 0)
    case AnswersPrelude(_, line) =>
      var k := c.link.value;
      c.(link := Some(k.(peer := Owes(k.peer.m - 1), inbox := k.inbox + line)))
    case RunsScript(_, call) =>
      var k, r := c.link.value, NewReply(script, w, call);
      c.(link := Some(k.(peer := Replied(r), inbox := k.inbox + ([STAR] + Wire(r)))), ran := c.ran + [Ran(call, r)])
    case SaysMissing(_, line) =>
      c.(link := Some(c.link.value.(peer := Missing, inbox := c.link.value.inbox + line)))
    case SendsError(_, line) =>
      var k := c.link.value;
      c.(link := Some(k.(peer := Astray(k.peer.m > 0), inbox := k.inbox + line)))
    case SendsMore(_, bytes) =>
      c.(link := Some(c.link.value.(inbox := c.link.value.inbox + bytes)))
    case RunsUnheard(_, call) =>
      c.(link := Some(c.link.value.(peer := Astray(false))), ran := c.ran + [Ran(call, NewReply(script, w, call))])
  }

  predicate IsRun(e: Event) {
    e.RunsScript? || e.RunsUnheard?
  }

  function Onward<V>(script: Script<V>, w: World, e: Event): World
    requires Can(script, w, e)
  {
    if e.ForgetsScripts? then w.(cached := false)
    else
      World(if IsRun(e) then w.log + [e.call] else w.log,
            w.cached || (e.RunsScript? && w.clients[e.i].link.value.session.fallback),
            w.clients[e.i := Moved(script, w, w.clients[e.i], e)])
  }

  /** What holds of every client: at most one exchange, at most one run of the script, and a verdict
      only from that run. */
  ghost predicate Fair(c: Client) {
    if c.link.None? then c.ran == [] && c.evals == 0 && !c.context
    else
      var k := c.link.value;
      && c.decided && Sound(k)
      && c.evals == (if k.session.fallback then 1 else 0)
      && match k.peer
         case Owes(_) => c.ran == []
         case Missing => c.ran == []
         case Replied(r) => |c.ran| == 1 && c.ran[0].reply == r
         case Astray(pending) => |c.ran| <= if pending then 0 else 1
  }

  ghost predicate AllFair<V>(script: Script<V>, w: World) {
    Legal(script, w.log) && forall i :: 0 <= i < |w.clients| ==> Fair(w.clients[i])
  }

  lemma VisitIsFair(c: Client, l: Location, key: seq<byte>, setup: Setup)
    requires Fair(c) && (c.context ==> c.link.Some?)
    ensures Fair(VisitedBy(c, l, key, setup))
  {
    hide Sound, Encoder.Command, ScriptCall;
    BeginIsSound(|Requests.Prelude(l)|, l.bufferSize, l.headersOn);
  }

  lemma MoveIsFair<V>(script: Script<V>, w: World, c: Client, e: Event)
    requires !e.ForgetsScripts? && Fair(c) && CanFor(script, w, c, e)
    ensures Fair(Moved(script, w, c, e))
  {
    hide Sound, Enabled, Wire, IsErrorLine, IsOkLine, IsNoScriptLine, Step, VisitedBy, Legal, After, MayRun;
    match e {
      case Visited(_, l, key, setup) => VisitIsFair(c, l, key, setup);
      case Redirected(_) =>
      case Reports(_, io) =>
        ReportIsSound(c.link.value, io, c.frame);
        FallbackLatches(c.link.value.session, io, c.frame);
      case AnswersPrelude(_, line) => PreludeAnswered(c.link.value, line);
      case RunsScript(_, call) => ScriptAnswered(c.link.value, NewReply(script, w, call));
      case SaysMissing(_, line) => MissingAnswered(c.link.value, line);
      case SendsError(_, line) => ErrorAnswered(c.link.value, line);
      case SendsMore(_, bytes) => StrayBytes(c.link.value, c.link.value.peer.pending, bytes);
      case RunsUnheard(_, call) =>
        StrayBytes(c.link.value, false, []);
        assert c.link.value.inbox + [] == c.link.value.inbox;
    }
  }

  /** A run of the world. */
  ghost predicate Unfolds<V>(script: Script<V>, w: World, events: seq<Event>)
    decreases |events|
  {
    events == [] || (Can(script, w, events[0]) && Unfolds(script, Onward(script, w, events[0]), events[1..]))
  }

  function Final<V>(script: Script<V>, w: World, events: seq<Event>): World
    requires Unfolds(script, w, events)
    decreases |events|
  {
    if events == [] then w else Final(script, Onward(script, w, events[0]), events[1..])
  }

  /** Requests that have not been looked at yet, and a key that does not exist. */
  ghost predicate Initial(w: World) {
    && w.log == []
    && forall i :: 0 <= i < |w.clients| ==>
         var c := w.clients[i];
         !c.decided && !c.context && c.link == None && c.evals == 0 && c.ran == []
  }

  lemma StepIsFair<V>(script: Script<V>, w: World, e: Event)
    requires AllFair(script, w) && Can(script, w, e)
    ensures AllFair(script, Onward(script, w, e))
  {
    hide Fair, Moved, Legal, CanFor;
    if !e.ForgetsScripts? {
      MoveIsFair(script, w, w.clients[e.i], e);
      if IsRun(e) {
        RunIsLegal(script, w, w.clients[e.i], e);
      }
    }
  }

  lemma RunIsLegal<V>(script: Script<V>, w: World, c: Client, e: Event)
    requires IsRun(e) && CanFor(script, w, c, e)
    ensures Legal(script, w.log + [e.call])
  {
    hide Legal;
  }

  lemma {:induction false} AlwaysFair<V>(script: Script<V>, w: World, events: seq<Event>)
    requires AllFair(script, w) && Unfolds(script, w, events)
    ensures AllFair(script, Final(script, w, events))
    decreases |events|
  {
    hide AllFair, Can, Onward;
    if events != [] {
      StepIsFair(script, w, events[0]);
      AlwaysFair(script, Onward(script, w, events[0]), events[1..]);
    }
  }

  /** The request has been let through by a verdict of the script. */
  predicate LetThrough(c: Client) {
    c.link.Some? && HasVerdict(c.link.value.session) && c.link.value.session.parser.status == HTTP_OK
  }

  /** The request has been refused by a verdict of the script. */
  predicate TurnedAway(c: Client) {
    c.link.Some? && HasVerdict(c.link.value.session) && c.link.value.session.parser.status == HTTP_TOO_MANY
  }

  /** With a verdict the script was run just once, and the verdict is what that run returned, status
      and numbers. */
  lemma VerdictIsTheRun(c: Client)
    requires Fair(c) && (LetThrough(c) || TurnedAway(c))
    ensures |c.ran| == 1 && c.ran[0].reply.status == (if LetThrough(c) then 0 else 1)
    ensures G.IsAccepted(c.ran[0].reply) && c.link.value.session.parser == G.Taken(c.ran[0].reply)
  {
    hide Feed, Wire, OfStream;
    ReplyDecides(c.link.value.session.fallback, c.ran[0].reply);
  }

  /** At most one execution: however often the phases run again, the context is wiped, the script is
      missing or connections fail, the server runs the script at most once for a main request, one
      EVAL at most is built for it, and a verdict means that it was run. */
  lemma AtMostOnce<V>(script: Script<V>, w: World, events: seq<Event>, i: nat)
    requires Initial(w) && Unfolds(script, w, events) && i < |w.clients|
    ensures var v := Final(script, w, events);
            && |v.clients| == |w.clients| && |v.clients[i].ran| <= 1 && v.clients[i].evals <= 1
            && (LetThrough(v.clients[i]) || TurnedAway(v.clients[i]) ==> |v.clients[i].ran| == 1)
  {
    hide Can, Onward, Unfolds, LetThrough, TurnedAway;
    AlwaysFair(script, w, events);
    SameClients(script, w, events);
    var c := Final(script, w, events).clients[i];
    assert Fair(c);
    if LetThrough(c) || TurnedAway(c) {
      VerdictIsTheRun(c);
    }
  }

  lemma {:induction false} SameClients<V>(script: Script<V>, w: World, events: seq<Event>)
    requires Unfolds(script, w, events)
    ensures |Final(script, w, events).clients| == |w.clients|
    decreases |events|
  {
    hide Moved, CanFor;
    if events != [] {
      SameClients(script, Onward(script, w, events[0]), events[1..]);
    }
  }

  // ---- conservation ----

  /** Units that runs made in [from, to) have granted. */
  function Units(ran: seq<Ran>, from: real, to: real): nat {
    if ran == [] then 0
    else Units(Init(ran), from, to)
         + if from <= Last(ran).call.now < to && Last(ran).reply.status == 0 then Last(ran).call.quantity else 0
  }

  /** Units granted to all requests together. */
  function Granted(clients: seq<Client>, from: real, to: real): nat {
    if clients == [] then 0 else Granted(Init(clients), from, to) + Units(Last(clients).ran, from, to)
  }

  /** Units granted to requests that have been let through. */
  function LetThroughUnits(clients: seq<Client>, from: real, to: real): nat {
    if clients == [] then 0
    else LetThroughUnits(Init(clients), from, to)
         + if LetThrough(Last(clients)) then Units(Last(clients).ran, from, to) else 0
  }

  lemma {:induction false} OneMoved(clients: seq<Client>, i: nat, c: Client, from: real, to: real)
    requires i < |clients|
    ensures Granted(clients[i := c], from, to) + Units(clients[i].ran, from, to)
            == Granted(clients, from, to) + Units(c.ran, from, to)
    decreases |clients|
  {
    hide Units;
    var after := clients[i := c];
    if i == |clients| - 1 {
      assert Init(after) == Init(clients);
    } else {
      assert Init(after) == Init(clients)[i := c];
      OneMoved(Init(clients), i, c, from, to);
    }
  }

  lemma StepConserves<V>(script: Script<V>, w: World, e: Event, from: real, to: real)
    requires Can(script, w, e)
    ensures var v := Onward(script, w, e);
            Granted(v.clients, from, to) + AdmittedIn(script, w.log, from, to)
            == Granted(w.clients, from, to) + AdmittedIn(script, v.log, from, to)
  {
    hide Moved, CanFor;
    if !e.ForgetsScripts? {
      var c := w.clients[e.i];
      var d := Moved(script, w, c, e);
      OneMoved(w.clients, e.i, d, from, to);
      OnlyRunsCharge(script, w, c, e);
      if IsRun(e) {
        assert Init(w.log + [e.call]) == w.log;
        assert Init(d.ran) == c.ran;
      }
    }
  }

  lemma OnlyRunsCharge<V>(script: Script<V>, w: World, c: Client, e: Event)
    requires !e.ForgetsScripts? && CanFor(script, w, c, e)
    ensures Moved(script, w, c, e).ran
            == if IsRun(e) then c.ran + [Ran(e.call, NewReply(script, w, e.call))] else c.ran
  {
    hide Reported, Wire, Enter;
  }

  /** Conservation: in every run, over every span of time, what the key has admitted is what the
      requests have been granted; no unit is lost or counted twice. */
  lemma {:induction false} Conservation<V>(script: Script<V>, w: World, events: seq<Event>, from: real, to: real)
    requires Unfolds(script, w, events) && Granted(w.clients, from, to) == AdmittedIn(script, w.log, from, to)
    ensures var v := Final(script, w, events);
            Granted(v.clients, from, to) == AdmittedIn(script, v.log, from, to)
    decreases |events|
  {
    hide Can, Onward;
    if events != [] {
      StepConserves(script, w, events[0], from, to);
      Conservation(script, Onward(script, w, events[0]), events[1..], from, to);
    }
  }

  lemma {:induction false} NothingGranted(clients: seq<Client>, from: real, to: real)
    requires forall i :: 0 <= i < |clients| ==> clients[i].ran == []
    ensures Granted(clients, from, to) == 0
  {
    if clients != [] {
      NothingGranted(Init(clients), from, to);
    }
  }

  lemma {:induction false} LetThroughWasGranted(clients: seq<Client>, from: real, to: real)
    ensures LetThroughUnits(clients, from, to) <= Granted(clients, from, to)
  {
    if clients != [] {
      LetThroughWasGranted(Init(clients), from, to);
    }
  }

  /** What all requests that a verdict lets through consume in a span of time is bounded by what the
      algorithm admits on the key in that span, for every script and every interleaving. */
  lemma LetThroughWithinAdmitted<V>(script: Script<V>, w: World, events: seq<Event>, from: real, to: real)
    requires Initial(w) && Unfolds(script, w, events)
    ensures var v := Final(script, w, events);
            && Legal(script, v.log)
            && LetThroughUnits(v.clients, from, to) <= AdmittedIn(script, v.log, from, to)
  {
    NothingGranted(w.clients, from, to);
    Conservation(script, w, events, from, to);
    AlwaysFair(script, w, events);
    LetThroughWasGranted(Final(script, w, events).clients, from, to);
  }

  /** Unless transport failures are to be ignored, what the handler makes of an exchange that is
      over is its verdict and nothing else. */
  lemma DecisionIsTheVerdict(c: Client, key: seq<byte>, setup: Setup)
    requires Fair(c) && c.context && c.link.value.session.phase.Finalized?
    requires c.location.zone.Some? && c.location.target && c.location.onError.Deny?
    ensures var rc := Enter(c.location, c.decided, Some(c.link.value.session), key, setup).rc;
            && (rc == Declined <==> LetThrough(c))
            && (TurnedAway(c) ==> rc == Http(c.location.statusCode))
            && rc != Pending
  {
  }

  // ---- the four algorithms, end to end ----

  /** In one generation of a fixed window the requests let through consume at most the limit, in
      every interleaving. */
  lemma FixedWindowEndToEnd(limit: int, window: int, w: World, events: seq<Event>, i: nat)
    requires 1 <= window && 1 <= limit
    requires Initial(w) && Unfolds(FixedWindow.Script(limit, window), w, events)
    requires var log := Final(FixedWindow.Script(limit, window), w, events).log;
             && FixedWindow.Prompt(limit, window, log)
             && i < |log| && FixedWindow.Opens(limit, window, log[..i + 1])
    ensures var v := Final(FixedWindow.Script(limit, window), w, events);
            LetThroughUnits(v.clients, v.log[i].now, v.log[i].now + window as real) <= limit
  {
    hide Unfolds, Final, LetThroughUnits, FixedWindow.Prompt, FixedWindow.Opens;
    var s := FixedWindow.Script(limit, window);
    var open := Final(s, w, events).log[i].now;
    LetThroughWithinAdmitted(s, w, events, open, open + window as real);
    FixedWindow.GenerationBound(limit, window, Final(s, w, events).log, i);
  }

  /** Any k windows of time see less than k+1 limits let through. */
  lemma FixedWindowsEndToEnd(limit: int, window: int, w: World, events: seq<Event>, from: real, k: nat)
    requires 1 <= window && 1 <= limit
    requires Initial(w) && Unfolds(FixedWindow.Script(limit, window), w, events)
    requires FixedWindow.Prompt(limit, window, Final(FixedWindow.Script(limit, window), w, events).log)
    ensures LetThroughUnits(Final(FixedWindow.Script(limit, window), w, events).clients,
                            from, from + (k * window) as real) <= (k + 1) * limit - 1
  {
    hide Unfolds, Final, LetThroughUnits, FixedWindow.Prompt;
    var s := FixedWindow.Script(limit, window);
    LetThroughWithinAdmitted(s, w, events, from, from + (k * window) as real);
    FixedWindow.WindowsBound(limit, window, Final(s, w, events).log, from, k);
  }

  lemma TokenBucketEndToEnd(r: Rates.Rate, f: Stored.Format, w: World, events: seq<Event>, from: real, to: real)
    requires r.Valid() && from <= to
    requires Initial(w) && Unfolds(TokenBucket.Script(r, f), w, events)
    requires Stored.Printable(f, Final(TokenBucket.Script(r, f), w, events).log)
    ensures var v := Final(TokenBucket.Script(r, f), w, events);
            LetThroughUnits(v.clients, from, to) as real
            <= r.capacity as real + Rates.Units(r, to - from) + Stored.Errors(f, ConsumingIn(v.log, from, to))
  {
    hide Unfolds, Final, LetThroughUnits, Rates.Units, Stored.Errors;
    LetThroughWithinAdmitted(TokenBucket.Script(r, f), w, events, from, to);
    TokenBucket.RateBound(r, f, Final(TokenBucket.Script(r, f), w, events).log, from, to);
  }

  lemma GcraEndToEnd(r: Rates.Rate, f: Stored.Format, w: World, events: seq<Event>, from: real, to: real)
    requires r.Valid() && from <= to
    requires Initial(w) && Unfolds(Gcra.Script(r, f), w, events)
    ensures var v := Final(Gcra.Script(r, f), w, events);
            LetThroughUnits(v.clients, from, to) as real
            <= r.capacity as real
               + Rates.Units(r, (to - from) + Stored.Errors(f, AdmittingIn(Gcra.Script(r, f), v.log, from, to)))
  {
    hide Unfolds, Final, LetThroughUnits, Rates.Units, Stored.Errors;
    LetThroughWithinAdmitted(Gcra.Script(r, f), w, events, from, to);
    Gcra.RateBound(r, f, Final(Gcra.Script(r, f), w, events).log, from, to);
  }

  lemma SlidingWindowEndToEnd(limit: int, window: int, w: World, events: seq<Event>, from: real)
    requires 1 <= window && 1 <= limit
    requires Initial(w) && Unfolds(SlidingWindow.Script(limit, window), w, events)
    ensures var v := Final(SlidingWindow.Script(limit, window), w, events);
            LetThroughUnits(v.clients, from, from + window as real) <= 2 * limit
  {
    hide Unfolds, Final, LetThroughUnits;
    var s := SlidingWindow.Script(limit, window);
    LetThroughWithinAdmitted(s, w, events, from, from + window as real);
    SlidingWindow.SpanBound(limit, window, Final(s, w, events).log, from);
  }

  /** A peek of GCRA that rounding has made negative is refused by the parser, so that the request
      fails although nothing was exceeded. */
  lemma RoundedPeekIsRefused(fallback: bool)
    ensures var s := Gcra.Script(Rates.Configured(3, 2, 1), Stored.SixDecimals);
            var h := [Call(100.0, 1, false), Call(100.0, 0, false)];
            && Legal(s, h) && Stored.Printable(Stored.SixDecimals, h)
            && OfStream(0, UNREAD, fallback, [STAR] + Wire(Answer(s, h))) == Refused
  {
    hide OfStream, Wire, Legal, Rates.Configured;
    var s := Gcra.Script(Rates.Configured(3, 2, 1), Stored.SixDecimals);
    Gcra.RoundingMakesPeekNegative();
    ReplyDecides(fallback, Answer(s, [Call(100.0, 1, false), Call(100.0, 0, false)]));
  }
}
