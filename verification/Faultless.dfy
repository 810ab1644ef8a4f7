/** When nothing goes wrong: every request gets its verdict, and as many are let through as may be. */
module Faultless {
  import opened Foundation
  import opened Histories
  import opened Bytes
  import opened ReplyParser
  import opened Session
  import opened Verdicts
  import opened Requests
  import opened Handler
  import opened EndToEnd
  import opened Rates
  import opened Stored
  import FixedWindow
  import Gcra
  import G = ReplyGrammar
  import SlidingWindow
  import TokenBucket

  /** No socket fails, no setup fails, and the server answers what it is asked. */
  predicate IsFaultless(e: Event) {
    match e
    case Visited(_, _, _, setup) => setup.Works?
    case Reports(_, io) => Quiet([io])
    case SendsError(_, _) => false
    case SendsMore(_, _) => false
    case RunsUnheard(_, _) => false
    case _ => true
  }

  /** The buffer holds what the server sends: the replies to the prelude with a byte to spare, the
      rest of an answer, or a NOSCRIPT line, to the last byte. */
  ghost predicate FitsBuffer<V>(script: Script<V>, w: World, e: Event)
    requires Can(script, w, e)
  {
    if e.Visited? then 1 <= e.l.bufferSize
    else if e.AnswersPrelude? || e.SaysMissing? || e.RunsScript? then
      var k := w.clients[e.i].link.value;
      var used := k.session.last + |k.inbox|;
      match e
      case AnswersPrelude(_, line) => used + |line| < k.session.capacity
      case SaysMissing(_, line) => used + |line| <= k.session.capacity
      case RunsScript(_, call) => used + 1 + |Wire(NewReply(script, w, call))| <= k.session.capacity
    else true
  }

  /** Calls that the clock can time, for no more than `most` units each. */
  ghost predicate Fine(f: Format, most: nat, h: seq<Call>) {
    Printable(f, h) && forall i :: 0 <= i < |h| ==> h[i].quantity <= most
  }

  /** A run of the world without faults. */
  ghost predicate Smoothly<V>(script: Script<V>, f: Format, most: nat, w: World, events: seq<Event>)
    requires Unfolds(script, w, events)
    decreases |events|
  {
    events == []
    || (IsFaultless(events[0]) && FitsBuffer(script, w, events[0])
        && (IsRun(events[0]) ==> Fine(f, most, [events[0].call]))
        && Smoothly(script, f, most, Onward(script, w, events[0]), events[1..]))
  }

  /** A script whose every reply to such calls the parser accepts. */
  ghost predicate Dependable<V>(script: Script<V>, f: Format, most: nat) {
    forall h :: h != [] && Legal(script, h) && Fine(f, most, h) ==> G.IsAccepted(Answer(script, h))
  }

  lemma FixedWindowIsDependable(limit: int, window: int, f: Format, most: nat)
    requires 1 <= limit <= MAX_INT && 1 <= window <= MAX_INT
    ensures Dependable(FixedWindow.Script(limit, window), f, most)
  {
    forall h | h != [] && Legal(FixedWindow.Script(limit, window), h)
      ensures G.IsAccepted(Answer(FixedWindow.Script(limit, window), h))
    {
      FixedWindow.RepliesFit(limit, window, h);
    }
  }

  lemma SlidingWindowIsDependable(limit: int, window: int, f: Format, most: nat)
    requires 1 <= limit <= MAX_INT && 1 <= window <= MAX_INT
    ensures Dependable(SlidingWindow.Script(limit, window), f, most)
  {
    forall h | h != [] && Legal(SlidingWindow.Script(limit, window), h)
      ensures G.IsAccepted(Answer(SlidingWindow.Script(limit, window), h))
    {
      SlidingWindow.RepliesFit(limit, window, h);
    }
  }

  /** What is asked for at once, and the whole bucket, must be worth no more seconds than fit. */
  lemma TokenBucketIsDependable(r: Rate, f: Format, most: nat)
    requires r.Valid() && r.capacity <= MAX_INT
    requires Horizon(r) <= MAX_INT as real && Seconds(r, most as real) <= MAX_INT as real
    ensures Dependable(TokenBucket.Script(r, f), f, most)
  {
    hide Seconds, TokenBucket.Step;
    forall h | h != [] && Legal(TokenBucket.Script(r, f), h) && Fine(f, most, h)
      ensures G.IsAccepted(Answer(TokenBucket.Script(r, f), h))
    {
      Linear(r, Last(h).quantity as real, most as real);
      TokenBucket.RepliesFit(r, f, h, MAX_INT);
      TokenBucket.RepliesMeetContract(r, f, h);
    }
  }

  /** The same, and the horizon must not be rounded up when it is written. */
  lemma GcraIsDependable(r: Rate, f: Format, most: nat)
    requires r.Valid() && r.capacity <= MAX_INT && Write(f, Horizon(r)) <= Horizon(r)
    requires Horizon(r) <= MAX_INT as real && Seconds(r, most as real) <= MAX_INT as real
    ensures Dependable(Gcra.Script(r, f), f, most)
  {
    hide Seconds, Write, Gcra.Step;
    forall h | h != [] && Legal(Gcra.Script(r, f), h) && Fine(f, most, h)
      ensures G.IsAccepted(Answer(Gcra.Script(r, f), h))
    {
      Linear(r, Last(h).quantity as real, most as real);
      Gcra.RepliesFit(r, f, h, MAX_INT);
      Gcra.AlwaysKept(r, f, h);
    }
  }

  /** Room for what has been sent, as long as it is not read. */
  predicate HasSpace(k: Link) {
    var used := k.session.last + |k.inbox|;
    if k.peer.Owes? then used < k.session.capacity
    else used <= k.session.capacity || (k.session.phase.Body? && k.session.last < k.session.capacity)
  }

  /** An exchange that nothing has gone wrong with: waiting, or over with a verdict. */
  ghost predicate Unharmed(k: Link) {
    && !k.peer.Astray? && (k.peer.Replied? ==> G.IsAccepted(k.peer.reply))
    && if k.session.phase.Finalized? then HasVerdict(k.session) else Waiting(k.session) && HasSpace(k)
  }

  ghost predicate Smooth(c: Client) {
    Fair(c) && if c.link.None? then !c.decided else Unharmed(c.link.value)
  }

  lemma UnharmedOwesNothing(k: Link)
    requires Sound(k) && Unharmed(k) && k.session.phase.Finalized?
    ensures k.peer.Replied?
  {
    hide OfStream, Wire;
  }

  lemma ReadIsUnharmed(k: Link, bytes: seq<byte>, evalLength: nat)
    requires Sound(k) && Unharmed(k) && Deliverable(k, Data(bytes))
    ensures Unharmed(Reported(k, Data(bytes), evalLength))
  {
    hide Decide, OnData, OfStream, Resent, InStep;
    var s, x := k.session, k.inbox[|bytes|..];
    var t := OnData(s, bytes, evalLength);
    assert k.inbox == bytes + x;
    ReadKeepsDecision(s, bytes, x, evalLength);
    AfterRead(s, bytes, evalLength);
    match k.peer {
      case Owes(m) =>
        ReadKeepsOwing(k, bytes, x, evalLength);
        OwingDecidesNothing(k);
      case Missing =>
        ReadKeepsMissing(k, bytes, x, evalLength);
        MissingDecides(k);
        if t.fallback && !t.phase.Finalized? {
          FallsBackInHeader(s, Data(bytes), evalLength);
          ResentStarts(s, evalLength);
        }
      case Replied(r) =>
        ReadKeepsAnswer(k, bytes, x, evalLength);
        RepliedDecides(k);
    }
  }

  lemma OwingDecidesNothing(k: Link)
    requires InStep(k) && k.peer.Owes?
    ensures Decide(k.session, k.inbox) == More
  {
    hide Decide, OfStream;
    NothingOwedYet(k.peer.m, k.session.fallback);
    assert k.inbox + [] == k.inbox;
  }

  lemma MissingDecides(k: Link)
    requires InStep(k) && k.peer.Missing?
    ensures Decide(k.session, k.inbox) == NoScript && !k.session.fallback
  {
  }

  lemma RepliedDecides(k: Link)
    requires InStep(k) && k.peer.Replied? && G.IsAccepted(k.peer.reply)
    ensures Decide(k.session, k.inbox) == Decided(G.Taken(k.peer.reply))
  {
    hide Decide, OfStream;
    ReplyDecides(k.session.fallback, k.peer.reply);
  }

  lemma ResentStarts(s: Session, evalLength: nat)
    requires s.phase.Header? && s.parser == UNREAD
    ensures Starts(Resent(s, evalLength), 0) && Waiting(Resent(s, evalLength))
  {
    StartWaits(Resent(s, evalLength), 0);
  }

  lemma ReportIsUnharmed(k: Link, io: Io, evalLength: nat)
    requires Sound(k) && Unharmed(k) && Deliverable(k, io) && Quiet([io])
    ensures Unharmed(Reported(k, io, evalLength))
  {
    hide Sound, OnData, Decide, Enabled;
    assert [io][0] == io;
    if io.Data? {
      ReadIsUnharmed(k, io.bytes, evalLength);
    } else {
      WritesDoNotDecide(k.session, Step(k.session, io, evalLength), []);
    }
  }

  lemma MoveIsSmooth<V>(script: Script<V>, f: Format, most: nat, w: World, e: Event)
    requires Dependable(script, f, most) && Fine(f, most, w.log) && (IsRun(e) ==> Fine(f, most, [e.call]))
    requires AllFair(script, w) && Can(script, w, e) && !e.ForgetsScripts?
    requires IsFaultless(e) && FitsBuffer(script, w, e) && Smooth(w.clients[e.i])
    ensures Smooth(Moved(script, w, w.clients[e.i], e))
  {
    hide Sound, Deliverable, Reported, IsErrorLine, IsOkLine, IsNoScriptLine, Waiting, Legal, After, MayRun, Wire,
      VisitedBy, Dependable, Fine;
    var c := w.clients[e.i];
    MoveIsFair(script, w, c, e);
    if c.link.Some? && c.link.value.session.phase.Finalized? {
      UnharmedOwesNothing(c.link.value);
    }
    match e {
      case Visited(_, l, key, setup) => VisitIsSmooth(c, l, key, setup);
      case Reports(_, io) => ReportIsUnharmed(c.link.value, io, c.frame);
      case RunsScript(_, call) => RunIsAccepted(script, f, most, w, c, call);
      case _ =>
    }
  }

  lemma VisitIsSmooth(c: Client, l: Location, key: seq<byte>, setup: Setup)
    requires Smooth(c) && (c.context ==> c.link.Some?) && setup.Works? && 1 <= l.bufferSize
    ensures Smooth(VisitedBy(c, l, key, setup))
  {
    hide Sound, ScriptCall;
    VisitIsFair(c, l, key, setup);
    StartWaits(Begin(|Requests.Prelude(l)|, l.bufferSize, l.headersOn), |Requests.Prelude(l)|);
    hide Waiting, Fair;
  }

  lemma RunIsAccepted<V>(script: Script<V>, f: Format, most: nat, w: World, c: Client, call: Call)
    requires Dependable(script, f, most) && c.link.Some? && MayRun(script, w, c, call)
    requires Fine(f, most, w.log) && Fine(f, most, [call])
    ensures G.IsAccepted(NewReply(script, w, call))
  {
    hide Legal, G.IsAccepted;
    var h := w.log + [call];
    assert Init(h) == w.log && Last(h) == call;
    FineLonger(f, most, w.log, call);
  }

  lemma FineLonger(f: Format, most: nat, h: seq<Call>, c: Call)
    requires Fine(f, most, h) && Fine(f, most, [c])
    ensures Fine(f, most, h + [c])
  {
    hide Microseconds;
    assert [c][0] == c;
  }

  ghost predicate AllSmooth<V>(script: Script<V>, f: Format, most: nat, w: World) {
    AllFair(script, w) && Fine(f, most, w.log) && forall i :: 0 <= i < |w.clients| ==> Smooth(w.clients[i])
  }

  lemma StepIsSmooth<V>(script: Script<V>, f: Format, most: nat, w: World, e: Event)
    requires Dependable(script, f, most) && AllSmooth(script, f, most, w) && Can(script, w, e)
    requires IsFaultless(e) && FitsBuffer(script, w, e) && (IsRun(e) ==> Fine(f, most, [e.call]))
    ensures AllSmooth(script, f, most, Onward(script, w, e))
  {
    hide Smooth, Moved, CanFor, AllFair, FitsBuffer, Dependable, Fine;
    StepIsFair(script, w, e);
    if !e.ForgetsScripts? {
      MoveIsSmooth(script, f, most, w, e);
    }
    if IsRun(e) {
      FineLonger(f, most, w.log, e.call);
    }
  }

  lemma {:induction false} AlwaysSmooth<V>(script: Script<V>, f: Format, most: nat, w: World, events: seq<Event>)
    requires Dependable(script, f, most) && AllSmooth(script, f, most, w)
    requires Unfolds(script, w, events) && Smoothly(script, f, most, w, events)
    ensures AllSmooth(script, f, most, Final(script, w, events))
    decreases |events|
  {
    hide AllSmooth, Can, Onward, FitsBuffer, Dependable, Fine;
    if events != [] {
      StepIsSmooth(script, f, most, w, events[0]);
      AlwaysSmooth(script, f, most, Onward(script, w, events[0]), events[1..]);
    }
  }

  // ---- rest ----

  /** An event that brings a request forward: a visit that begins its exchange, a read, a write, or
      something the server does for it. */
  ghost predicate IsProgress(w: World, e: Event) {
    match e
    case Visited(i, l, key, setup) =>
      i < |w.clients| && var c := w.clients[i];
      c.link.None? && Enter(l, c.decided, None, key, setup).begins
    case Reports(_, io) => io.Data? || io.Written?
    case AnswersPrelude(_, _) => true
    case RunsScript(_, _) => true
    case SaysMissing(_, _) => true
    case _ => false
  }

  /** Nothing more can be done for any request. */
  ghost predicate AtRest<V>(script: Script<V>, w: World) {
    forall e :: IsProgress(w, e) ==> !Can(script, w, e)
  }

  /** A location that limits, for the sake of a visit. */
  function SomeLocation(): Location {
    Location(Some(Zone(Requests.FixedWindow, 1, 1, 0, [], [])), true, None, 1, [], [], 0, false, Deny, 429, 1)
  }

  lemma UnseenMayBegin<V>(script: Script<V>, w: World, i: nat) returns (e: Event)
    requires i < |w.clients| && Smooth(w.clients[i]) && w.clients[i].link.None?
    ensures IsProgress(w, e) && Can(script, w, e)
  {
    hide Sound;
    e := Visited(i, SomeLocation(), [0], Works);
  }

  /** A waiting exchange that has been sent nothing it has not read, and is owed nothing, has been
      forgotten by nobody: there is none. */
  lemma NobodyWaitsForNothing(k: Link)
    requires Sound(k) && Unharmed(k) && !k.session.phase.Finalized? && k.inbox == []
    ensures k.peer.Owes?
  {
    hide OfStream;
    if k.peer.Missing? {
      MissingDecides(k);
    } else if k.peer.Replied? {
      RepliedDecides(k);
    }
  }

  /** While the server owes an answer the header is still to come. */
  lemma OwedInHeader(k: Link)
    requires Sound(k) && k.peer.Owes? && k.peer.m == 0 && !k.session.phase.Finalized? && k.inbox == []
    ensures k.session.phase.Header?
  {
    if k.session.phase.Body? {
      assert k.inbox + [STAR] == [STAR];
      assert Decide(k.session, [STAR]) == OfStream(0, UNREAD, k.session.fallback, [STAR]);
      StarFails(k.session.parser);
      StarBegins(k.session.fallback);
    }
  }

  lemma StarBegins(fallback: bool)
    ensures OfStream(0, UNREAD, fallback, [STAR]) == More
  {
    assert [STAR][1..] == [];
  }

  lemma StarFails(p: Parser)
    ensures Feed(p, [STAR]).Failed?
  {
  }

  lemma WaitingMayGoOn<V>(script: Script<V>, w: World, i: nat) returns (e: Event)
    requires i < |w.clients| && AllFair(script, w) && Smooth(w.clients[i]) && w.clients[i].link.Some?
    requires !w.clients[i].link.value.session.phase.Finalized?
    ensures IsProgress(w, e) && Can(script, w, e)
  {
    hide Sound, Waiting, Legal, After, IsNoScriptLine;
    var c := w.clients[i];
    var k := c.link.value;
    if k.inbox != [] {
      e := Reports(i, Data(k.inbox[..1]));
    } else {
      NobodyWaitsForNothing(k);
      if k.peer.m > 0 {
        e := AnswersPrelude(i, [PLUS, LF]);
        assert IsOkLine([PLUS, LF]);
      } else {
        OwedInHeader(k);
        if k.session.fallback && k.session.evalLeft > 0 {
          e := Reports(i, Written(1));
        } else if k.session.fallback || w.cached {
          e := RunsScript(i, NextCall(w, c));
          NextCallIsLegal(script, w, c);
        } else {
          e := SaysMissing(i, [MINUS] + NOSCRIPT + [LF]);
          ShortestNoScript();
        }
      }
    }
  }

  function NextCall(w: World, c: Client): Call {
    Call(if w.log == [] then 0.0 else Last(w.log).now, c.location.quantity, false)
  }

  lemma NextCallIsLegal<V>(script: Script<V>, w: World, c: Client)
    requires Legal(script, w.log)
    ensures Legal(script, w.log + [NextCall(w, c)])
  {
    assert Init(w.log + [NextCall(w, c)]) == w.log;
  }

  lemma ShortestNoScript()
    ensures IsNoScriptLine([MINUS] + NOSCRIPT + [LF])
  {
    var line := [MINUS] + NOSCRIPT + [LF];
    assert line[1..9] == NOSCRIPT && line[..9] == [MINUS] + NOSCRIPT;
  }

  /** Nobody is left waiting: when nothing more can be done, every request has its verdict. */
  lemma VerdictsAtRest<V>(script: Script<V>, f: Format, most: nat, w: World, i: nat)
    requires AllSmooth(script, f, most, w) && AtRest(script, w) && i < |w.clients|
    ensures LetThrough(w.clients[i]) || TurnedAway(w.clients[i])
  {
    hide Smooth, IsProgress, Can, AllFair, Fine;
    var c := w.clients[i];
    if c.link.None? {
      var e := UnseenMayBegin(script, w, i);
      assert false;
    } else if !c.link.value.session.phase.Finalized? {
      var e := WaitingMayGoOn(script, w, i);
      assert false;
    } else {
      SmoothEndIsVerdict(c);
    }
  }

  lemma SmoothEndIsVerdict(c: Client)
    requires Smooth(c) && c.link.Some? && c.link.value.session.phase.Finalized?
    ensures LetThrough(c) || TurnedAway(c)
  {
    hide Sound;
  }

  // ---- nothing is wasted either ----

  function Runs(clients: seq<Client>): nat {
    if clients == [] then 0 else Runs(Init(clients)) + |Last(clients).ran|
  }

  function HowManyLetThrough(clients: seq<Client>): nat {
    if clients == [] then 0 else HowManyLetThrough(Init(clients)) + if LetThrough(Last(clients)) then 1 else 0
  }

  lemma {:induction false} OneMovedRuns(clients: seq<Client>, i: nat, c: Client)
    requires i < |clients|
    ensures Runs(clients[i := c]) + |clients[i].ran| == Runs(clients) + |c.ran|
    decreases |clients|
  {
    var after := clients[i := c];
    if i == |clients| - 1 {
      assert Init(after) == Init(clients);
    } else {
      assert Init(after) == Init(clients)[i := c];
      OneMovedRuns(Init(clients), i, c);
    }
  }

  /** Every run of the script is some request's, and is in the log. */
  ghost predicate Accounted(w: World) {
    && Runs(w.clients) == |w.log|
    && forall i, j :: 0 <= i < |w.clients| && 0 <= j < |w.clients[i].ran| ==> w.clients[i].ran[j].call in w.log
  }

  lemma StepAccounts<V>(script: Script<V>, w: World, e: Event)
    requires Can(script, w, e) && Accounted(w)
    ensures Accounted(Onward(script, w, e))
  {
    hide Moved, CanFor, Runs;
    if !e.ForgetsScripts? {
      var c := w.clients[e.i];
      OneMovedRuns(w.clients, e.i, Moved(script, w, c, e));
      OnlyRunsCharge(script, w, c, e);
    }
  }

  lemma {:induction false} AlwaysAccounted<V>(script: Script<V>, w: World, events: seq<Event>)
    requires Unfolds(script, w, events) && Accounted(w)
    ensures Accounted(Final(script, w, events))
    decreases |events|
  {
    hide Can, Onward, Accounted;
    if events != [] {
      StepAccounts(script, w, events[0]);
      AlwaysAccounted(script, Onward(script, w, events[0]), events[1..]);
    }
  }

  lemma {:induction false} NoRuns(clients: seq<Client>)
    requires forall i :: 0 <= i < |clients| ==> clients[i].ran == []
    ensures Runs(clients) == 0
  {
    if clients != [] {
      NoRuns(Init(clients));
    }
  }

  /** If every request has a verdict on a single unit, those let through are those granted. */
  lemma {:induction false} VerdictsCount(clients: seq<Client>, log: seq<Call>, from: real, to: real)
    requires forall i :: 0 <= i < |clients| ==>
               Fair(clients[i]) && (LetThrough(clients[i]) || TurnedAway(clients[i]))
    requires forall i, j :: 0 <= i < |clients| && 0 <= j < |clients[i].ran| ==> clients[i].ran[j].call in log
    requires forall c :: c in log ==> c.quantity == 1 && from <= c.now < to
    ensures HowManyLetThrough(clients) == Granted(clients, from, to) && Runs(clients) == |clients|
  {
    hide Fair, LetThrough, TurnedAway;
    if clients != [] {
      var c := Last(clients);
      assert c == clients[|clients| - 1];
      VerdictIsTheRun(c);
      assert Init(c.ran) == [] && Last(c.ran) == c.ran[0] && c.ran[0].call in log;
      assert EndToEnd.Units(c.ran, from, to) == if LetThrough(c) then 1 else 0;
      forall i | 0 <= i < |Init(clients)|
        ensures Fair(Init(clients)[i]) && (LetThrough(Init(clients)[i]) || TurnedAway(Init(clients)[i]))
      {
        assert Init(clients)[i] == clients[i];
      }
      VerdictsCount(Init(clients), log, from, to);
    }
  }

  /** Without faults, once nothing more can be done, every request has been let through or turned
      away, whatever the dependable script and the interleaving. */
  lemma EveryoneIsJudged<V>(script: Script<V>, f: Format, most: nat, w: World, events: seq<Event>)
    requires Dependable(script, f, most) && Initial(w)
    requires Unfolds(script, w, events) && Smoothly(script, f, most, w, events)
    requires AtRest(script, Final(script, w, events))
    ensures var v := Final(script, w, events);
            && AllFair(script, v)
            && forall i :: 0 <= i < |v.clients| ==> LetThrough(v.clients[i]) || TurnedAway(v.clients[i])
  {
    hide Final, Smoothly, Dependable, AtRest, LetThrough, TurnedAway, Unfolds, Fine;
    InitialIsSmooth(script, f, most, w);
    AlwaysSmooth(script, f, most, w, events);
    var v := Final(script, w, events);
    forall i | 0 <= i < |v.clients| ensures LetThrough(v.clients[i]) || TurnedAway(v.clients[i]) {
      VerdictsAtRest(script, f, most, v, i);
    }
  }

  lemma InitialIsSmooth<V>(script: Script<V>, f: Format, most: nat, w: World)
    requires Initial(w)
    ensures AllSmooth(script, f, most, w)
  {
  }

  /** And of n requests for a single unit within one window exactly as many are let through as the
      limit allows: the first `limit`, or all. */
  lemma ExactlyTheLimit(limit: int, window: int, w: World, events: seq<Event>)
    requires 1 <= limit <= MAX_INT && 1 <= window <= MAX_INT
    requires var s := FixedWindow.Script(limit, window);
             && Initial(w) && Unfolds(s, w, events) && Smoothly(s, Exact, 1, w, events)
             && AtRest(s, Final(s, w, events))
    requires var v := Final(FixedWindow.Script(limit, window), w, events);
             && FixedWindow.Prompt(limit, window, v.log)
             && (forall i :: 0 <= i < |v.log| ==>
                   v.log[i].quantity == 1 && v.log[0].now <= v.log[i].now < v.log[0].now + window as real)
    ensures var n := |w.clients|;
            HowManyLetThrough(Final(FixedWindow.Script(limit, window), w, events).clients)
            == if n <= limit then n else limit
  {
    hide Unfolds, Final, Smoothly, AtRest, LetThrough, TurnedAway, Fair, Accounted, FixedWindow.Prompt, Dependable;
    var s := FixedWindow.Script(limit, window);
    var v := Final(s, w, events);
    FixedWindowIsDependable(limit, window, Exact, 1);
    EveryoneIsJudged(s, Exact, 1, w, events);
    InitialIsAccounted(w);
    AlwaysAccounted(s, w, events);
    SameClients(s, w, events);
    var from := if v.log == [] then 0.0 else v.log[0].now;
    NothingGranted(w.clients, from, from + window as real);
    Conservation(s, w, events, from, from + window as real);
    AllJudged(limit, window, v);
  }

  lemma InitialIsAccounted(w: World)
    requires Initial(w)
    ensures Accounted(w)
  {
    NoRuns(w.clients);
  }

  /** The same, for a world in which every unit is accounted for. */
  lemma AllJudged(limit: int, window: int, v: World)
    requires 1 <= window && 1 <= limit && FixedWindow.Prompt(limit, window, v.log) && Accounted(v)
    requires forall i :: 0 <= i < |v.clients| ==>
               Fair(v.clients[i]) && (LetThrough(v.clients[i]) || TurnedAway(v.clients[i]))
    requires forall i :: 0 <= i < |v.log| ==>
               v.log[i].quantity == 1 && v.log[0].now <= v.log[i].now < v.log[0].now + window as real
    requires var from := if v.log == [] then 0.0 else v.log[0].now;
             Granted(v.clients, from, from + window as real)
             == AdmittedIn(FixedWindow.Script(limit, window), v.log, from, from + window as real)
    ensures HowManyLetThrough(v.clients) == if |v.clients| <= limit then |v.clients| else limit
  {
    hide LetThrough, TurnedAway, Fair, FixedWindow.Prompt, FixedWindow.Step;
    var from := if v.log == [] then 0.0 else v.log[0].now;
    VerdictsCount(v.clients, v.log, from, from + window as real);
    if v.log != [] {
      FixedWindow.OnesAdmitted(limit, window, v.log);
    }
  }
}
