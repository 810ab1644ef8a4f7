/** How much read buffer a reply takes: exactly when no division into reads can strand it. */
module Capacity {
  import opened Foundation
  import opened Bytes
  import opened ReplyParser
  import opened Session
  import opened Verdicts

  /** The buffer holds the whole answer, or a read can only fill it just behind the `*`. */
  predicate HasRoom(lines: seq<seq<byte>>, r: Reply, capacity: nat) {
    |Answered(lines, r)| <= capacity || capacity == |Joined(lines)| + 1
  }

  /** No continuation, whatever the sockets report, reaches a verdict. */
  ghost predicate Stranded(s: Session, evalLength: nat) {
    forall more :: Possible(s, more, evalLength) ==> !HasVerdict(Run(s, more, evalLength))
  }

  /** With x still to come the buffer fills up just when the `*` has been read. */
  predicate Tight(s: Session, x: seq<byte>, w: seq<byte>) {
    && s.phase.Header? && s.last < s.capacity
    && Consume(s.preludes, s.unread + x) == Ready([STAR] + w)
    && s.last + |x| == s.capacity + |w|
  }

  /** With x still to come, and room for it, the session will end with p. */
  predicate Heading(s: Session, x: seq<byte>, w: seq<byte>, p: Parser) {
    && !s.phase.Finalized? && Decide(s, x) == Decided(p) && x != []
    && (s.last + |x| <= s.capacity || (s.phase.Body? && s.last < s.capacity) || Tight(s, x, w))
  }

  predicate Arrived(s: Session, p: Parser) {
    s.phase.Finalized? && s.parser == p
  }

  lemma TightStep(s: Session, bytes: seq<byte>, y: seq<byte>, w: seq<byte>, evalLength: nat)
    requires Tight(s, bytes + y, w) && Enabled(s, Data(bytes))
    ensures var t := OnData(s, bytes, evalLength);
            && t.fallback == s.fallback
            && (if |y| == |w| then t.phase.Body? && t.last == 0 && t.capacity == s.capacity else Tight(t, y, w))
  {
    hide Feed, LineEnd, IsNoScript, Finalize, AfterFeed, Consume;
    var u := s.unread + bytes;
    assert s.unread + (bytes + y) == u + y;
    ConsumeExtends(s.preludes, u, y);
    var c := Consume(s.preludes, u);
    if c.Ready? {
      assert c.rest + y == [STAR] + w;
      assert |c.rest| + |y| == 1 + |w|;
      if |y| == |w| {
        assert c.rest == (c.rest + y)[..1] == [STAR];
      } else {
        assert c.rest == [] && [] + y == y;
        ConsumeNothing(y);
      }
    } else {
      assert |y| > |w| by { PartialHasNoStar(s.preludes, u, y, w); }
    }
  }

  /** A prelude that is not complete leaves at least one LF and the answer proper to come. */
  lemma PartialHasNoStar(m: nat, u: seq<byte>, y: seq<byte>, w: seq<byte>)
    requires Consume(m, u).Partial? && Consume(m, u + y) == Ready([STAR] + w)
    ensures |y| > |w|
  {
    hide Consume, LineEnd;
    ConsumeExtends(m, u, y);
    StillPartial(m, u);
    var c := Consume(m, u);
    BrokenOff(c.left, c.rest);
    ConsumesPast(c.left, c.rest, y);
  }

  lemma BrokenOff(m: nat, u: seq<byte>)
    requires Consume(m, u) == Partial(m, u)
    ensures m > 0 && LF !in u
  {
    LineEndIsFirst(u);
    if m > 0 && LineEnd(u).Some? && u[0] == PLUS {
      ConsumeShrinks(m - 1, u[LineEnd(u).value + 1..]);
    }
  }

  lemma ConsumesPast(m: nat, u: seq<byte>, y: seq<byte>)
    requires m > 0 && LF !in u && Consume(m, u + y).Ready?
    ensures |Consume(m, u + y).rest| < |y|
  {
    var v := u + y;
    LineEndIsFirst(v);
    var end := LineEnd(v).value;
    assert forall k :: 0 <= k < |u| ==> v[k] == u[k] != LF;
    ConsumeShrinks(m - 1, v[end + 1..]);
  }

  lemma {:induction false} ConsumeShrinks(m: nat, u: seq<byte>)
    ensures |Consume(m, u).rest| <= |u| && (!Consume(m, u).Ready? ==> Consume(m, u).left <= m)
  {
    if m > 0 && LineEnd(u).Some? && u[0] == PLUS {
      ConsumeShrinks(m - 1, u[LineEnd(u).value + 1..]);
    }
  }

  /** Reads and writes keep a session heading for p, or take it there. */
  lemma HeadingStep(s: Session, io: Io, x: seq<byte>, y: seq<byte>, w: seq<byte>, p: Parser, evalLength: nat)
    requires Heading(s, x, w, p) && Enabled(s, io) && Quiet([io])
    requires x == (if io.Data? then io.bytes else []) + y
    ensures var t := Step(s, io, evalLength);
            Arrived(t, p) || Heading(t, y, w, p)
  {
    hide Decide, OnData, Consume;
    assert [io][0] == io;
    if io.Data? {
      ReadKeepsDecision(s, io.bytes, y, evalLength);
      AfterRead(s, io.bytes, evalLength);
      if Tight(s, x, w) {
        TightStep(s, io.bytes, y, w, evalLength);
      }
    } else {
      assert x == y;
      WritesDoNotDecide(s, Step(s, io, evalLength), x);
    }
  }

  lemma {:induction false} HeadingRuns(s: Session, ios: seq<Io>, x: seq<byte>, w: seq<byte>, p: Parser,
                                       evalLength: nat)
    requires Heading(s, Payload(ios) + x, w, p) && Possible(s, ios, evalLength) && Quiet(ios)
    ensures var t := Run(s, ios, evalLength);
            Arrived(t, p) || Heading(t, x, w, p)
    decreases |ios|
  {
    hide Step, Decide, Tight;
    if ios == [] {
      assert Payload(ios) + x == x;
    } else {
      var io, y := ios[0], Payload(ios[1..]) + x;
      var t := Step(s, io, evalLength);
      assert Payload(ios) + x == (if io.Data? then io.bytes else []) + y;
      HeadingStep(s, io, Payload(ios) + x, y, w, p, evalLength);
      if t.phase.Finalized? {
        StaysFinalized(t, ios[1..], evalLength);
      } else {
        HeadingRuns(t, ios[1..], x, w, p, evalLength);
      }
    }
  }

  /** One byte at a time. */
  function Bytewise(x: seq<byte>): seq<Io> {
    if x == [] then [] else [Data(x[..1])] + Bytewise(x[1..])
  }

  lemma {:induction false} BytewiseArrives(s: Session, x: seq<byte>, w: seq<byte>, p: Parser, evalLength: nat)
    requires Heading(s, x, w, p)
    ensures Possible(s, Bytewise(x), evalLength) && Arrived(Run(s, Bytewise(x), evalLength), p)
    decreases |x|
  {
    hide Decide, OnData, Consume;
    var io, y := Data(x[..1]), x[1..];
    var t := Step(s, io, evalLength);
    assert x == x[..1] + y;
    assert Bytewise(x)[1..] == Bytewise(y);
    HeadingStep(s, io, x, y, w, p, evalLength);
    if t.phase.Finalized? {
      AlwaysPossible(t, Bytewise(y), evalLength);
      StaysFinalized(t, Bytewise(y), evalLength);
    } else {
      BytewiseArrives(t, y, w, p, evalLength);
    }
  }

  lemma {:induction false} AlwaysPossible(s: Session, ios: seq<Io>, evalLength: nat)
    requires s.phase.Finalized?
    ensures Possible(s, ios, evalLength)
    decreases |ios|
  {
    if ios != [] {
      AlwaysPossible(s, ios[1..], evalLength);
    }
  }

  /** With room, no division into reads of any part of the answer strands the session: the rest
      of the answer still brings the verdict. */
  lemma NeverStranded(s: Session, lines: seq<seq<byte>>, r: Reply, ios: seq<Io>, x: seq<byte>, evalLength: nat)
    requires Starts(s, |lines|) && AreOkLines(lines) && Contract(r) && Fits(r)
    requires 1 <= s.capacity && HasRoom(lines, r, s.capacity)
    requires Possible(s, ios, evalLength) && Quiet(ios) && Payload(ios) + x == Answered(lines, r)
    ensures var t := Run(s, ios, evalLength);
            && Possible(t, Bytewise(x), evalLength)
            && Arrived(Run(t, Bytewise(x), evalLength), Read(r))
  {
    hide Decide, Consume, Wire;
    var w := Wire(r);
    AnsweredDecides(s, lines, r);
    assert Tight(s, Payload(ios) + x, w) || |Answered(lines, r)| <= s.capacity by {
      assert [] + Answered(lines, r) == Joined(lines) + ([STAR] + w);
      ConsumesLines(lines, [STAR] + w);
    }
    HeadingRuns(s, ios, x, w, Read(r), evalLength);
    var t := Run(s, ios, evalLength);
    if Arrived(t, Read(r)) {
      AlwaysPossible(t, Bytewise(x), evalLength);
      StaysFinalized(t, Bytewise(x), evalLength);
    } else {
      BytewiseArrives(t, x, w, Read(r), evalLength);
    }
  }

  /** Without room, the first read may bring just what fills the buffer; then the session is
      stranded, either refused as having too big a header or waiting for its timeout. */
  lemma FullBufferStrands(s: Session, lines: seq<seq<byte>>, r: Reply, evalLength: nat)
    requires Starts(s, |lines|) && AreOkLines(lines) && Contract(r) && Fits(r)
    requires 1 <= s.capacity && !HasRoom(lines, r, s.capacity)
    ensures var io := Data(Answered(lines, r)[..s.capacity]);
            Enabled(s, io) && Stranded(Step(s, io, evalLength), evalLength)
  {
    hide Wire, Consume, LineEnd, IsNoScript, Answered, Joined, AreOkLines;
    var u := Answered(lines, r)[..s.capacity];
    var c := Consume(|lines|, u);
    CutAnswer(lines, r, s.capacity);
    assert [] + u == u;
    if c.Ready? {
      HeaderStep(s, c.rest, u, evalLength);
    }
    LostForGood(Step(s, Data(u), evalLength), evalLength);
  }

  /** What a buffer without room is filled with: part of the prelude, or more than the `*` but
      less than the reply. */
  lemma CutAnswer(lines: seq<seq<byte>>, r: Reply, capacity: nat)
    requires AreOkLines(lines) && Contract(r) && Fits(r) && 1 <= capacity && !HasRoom(lines, r, capacity)
    ensures var c := Consume(|lines|, Answered(lines, r)[..capacity]);
            && !c.Rejected?
            && (c.Ready? && c.rest != [] ==>
                  |c.rest| > 1 && c.rest[0] == STAR && Feed(FRESH, c.rest[1..]).Again?)
  {
    hide Wire, Consume, Joined, Feed;
    var full := Answered(lines, r);
    var u, y := full[..capacity], full[capacity..];
    assert u + y == full == Joined(lines) + ([STAR] + Wire(r));
    ConsumesLines(lines, [STAR] + Wire(r));
    ConsumeExtends(|lines|, u, y);
    var c := Consume(|lines|, u);
    if c.Ready? && c.rest != [] {
      PrefixIsAgain(r, c.rest, y);
    }
  }

  lemma LostForGood(s: Session, evalLength: nat)
    requires (s.phase.Finalized? && s.parser.status == INTERNAL_ERROR) || IsFull(s)
    ensures Stranded(s, evalLength)
  {
    forall more | Possible(s, more, evalLength) ensures !HasVerdict(Run(s, more, evalLength)) {
      if s.phase.Finalized? {
        StaysFinalized(s, more, evalLength);
      } else {
        FullStays(s, more, evalLength);
      }
    }
  }

  lemma PrefixIsAgain(r: Reply, u: seq<byte>, y: seq<byte>)
    requires Contract(r) && Fits(r) && u != [] && y != [] && u + y == [STAR] + Wire(r)
    ensures u[0] == STAR && Feed(FRESH, u[1..]).Again?
  {
    hide Wire, Feed;
    assert u[0] == (u + y)[0];
    RoundTrip(r);
    assert Wire(r) == (u + y)[1..] == u[1..] + y;
    NoEarlyEnd(FRESH, Wire(r), |u| - 1);
  }

  /** The reply has begun but the buffer has no room for more of it. */
  predicate IsFull(s: Session) {
    s.phase.Body? && s.last == s.capacity
  }

  /** All that can still happen is a timeout or a fault. */
  lemma FullStays(s: Session, ios: seq<Io>, evalLength: nat)
    requires IsFull(s) && Possible(s, ios, evalLength)
    ensures !HasVerdict(Run(s, ios, evalLength))
  {
    if ios != [] {
      StaysFinalized(Step(s, ios[0], evalLength), ios[1..], evalLength);
    }
  }

  /** A division into reads can strand a conforming answer if and only if the buffer lacks room. */
  lemma StrandedWithoutRoom(s: Session, lines: seq<seq<byte>>, r: Reply, evalLength: nat)
    requires Starts(s, |lines|) && 1 <= s.capacity && AreOkLines(lines) && Contract(r) && Fits(r)
    ensures (exists ios, x ::
               && Payload(ios) + x == Answered(lines, r) && Quiet(ios) && Possible(s, ios, evalLength)
               && Stranded(Run(s, ios, evalLength), evalLength))
            <==> !HasRoom(lines, r, s.capacity)
  {
    hide Answered, Stranded, Wire, Step, Enabled;
    if HasRoom(lines, r, s.capacity) {
      forall ios, x | Payload(ios) + x == Answered(lines, r) && Quiet(ios) && Possible(s, ios, evalLength)
        ensures !Stranded(Run(s, ios, evalLength), evalLength)
      {
        NeverStranded(s, lines, r, ios, x, evalLength);
        ArrivalIsVerdict(Run(s, ios, evalLength), Bytewise(x), r, evalLength);
      }
    } else {
      FullBufferStrands(s, lines, r, evalLength);
      var u, x := Answered(lines, r)[..s.capacity], Answered(lines, r)[s.capacity..];
      OneEvent(s, Data(u), evalLength);
      assert Payload([Data(u)]) + x == u + x == Answered(lines, r);
      assert Quiet([Data(u)]);
    }
  }

  lemma OneEvent(s: Session, io: Io, evalLength: nat)
    requires Enabled(s, io) && io.Data?
    ensures Possible(s, [io], evalLength) && Run(s, [io], evalLength) == Step(s, io, evalLength)
    ensures Payload([io]) == io.bytes
  {
    assert [io][1..] == [];
    assert Possible(Step(s, io, evalLength), [], evalLength);
  }

  lemma ArrivalIsVerdict(t: Session, more: seq<Io>, r: Reply, evalLength: nat)
    requires Contract(r) && Possible(t, more, evalLength) && Arrived(Run(t, more, evalLength), Read(r))
    ensures !Stranded(t, evalLength)
  {
  }

  // ---- behind a NOSCRIPT reply ----

  /** The events a and b have brought the prelude replies and the NOSCRIPT line, and then the answer
      to the EVAL, up to x that is still to come. */
  ghost predicate Brought(lines: seq<seq<byte>>, line: seq<byte>, r: Reply, a: seq<Io>, b: seq<Io>, x: seq<byte>) {
    && Quiet(a) && Quiet(b)
    && (if b == [] && Payload(a) != Joined(lines) + line then Payload(a) + x == Joined(lines) + line
        else Payload(a) == Joined(lines) + line && Payload(b) + x == Answered([], r))
  }

  /** Both parts fit the buffer, each on its own: the fallback empties it. */
  predicate HasRoomForBoth(lines: seq<seq<byte>>, line: seq<byte>, r: Reply, capacity: nat) {
    |Joined(lines) + line| <= capacity && |Answered([], r)| <= capacity
  }

  lemma {:induction false} BytewiseFalls(s: Session, x: seq<byte>, evalLength: nat)
    requires Falling(s, x)
    ensures Possible(s, Bytewise(x), evalLength) && Fallen(Run(s, Bytewise(x), evalLength), s.capacity)
    decreases |x|
  {
    hide Falling, OnData;
    FallingHasRoom(s, x);
    var io, y := Data(x[..1]), x[1..];
    assert x == x[..1] + y && Bytewise(x)[1..] == Bytewise(y) && [io][0] == io;
    FallingStep(s, io, x, y, evalLength);
    if y != [] {
      BytewiseFalls(Step(s, io, evalLength), y, evalLength);
    }
  }

  lemma FallingHasRoom(s: Session, x: seq<byte>)
    requires Falling(s, x)
    ensures x != [] && Enabled(s, Data(x[..1])) && !s.phase.Finalized?
  {
  }

  lemma FallbackNeverStranded(s: Session, lines: seq<seq<byte>>, line: seq<byte>, r: Reply, a: seq<Io>, b: seq<Io>,
                              x: seq<byte>, evalLength: nat)
    requires Starts(s, |lines|) && !s.fallback
    requires AreOkLines(lines) && IsNoScriptLine(line) && Contract(r) && Fits(r)
    requires HasRoomForBoth(lines, line, r, s.capacity)
    requires Possible(s, a + b, evalLength) && Brought(lines, line, r, a, b, x)
    ensures !Stranded(Run(s, a + b, evalLength), evalLength)
  {
    hide Falling, Answered, Joined, Stranded, IsNoScriptLine, Wire, Read;
    NoScriptFalls(s, lines, line);
    RunAppends(s, a, b, evalLength);
    var t, answer := Run(s, a, evalLength), Answered([], r);
    if b == [] && Payload(a) != Joined(lines) + line {
      assert a + b == a && (x == [] ==> Payload(a) + x == Payload(a));
      FallingRuns(s, a, x, evalLength);
      BytewiseFalls(t, x, evalLength);
      var u := Run(t, Bytewise(x), evalLength);
      AnswersEval(u, r, [], answer, evalLength);
      ThenArrives(t, Bytewise(x), Bytewise(answer), r, evalLength);
    } else {
      assert Payload(a) + [] == Payload(a);
      FallingRuns(s, a, [], evalLength);
      AnswersEval(t, r, b, x, evalLength);
      ArrivalIsVerdict(Run(t, b, evalLength), Bytewise(x), r, evalLength);
    }
  }

  lemma AnswersEval(t: Session, r: Reply, b: seq<Io>, x: seq<byte>, evalLength: nat)
    requires Fallen(t, t.capacity) && Contract(r) && Fits(r) && |Answered([], r)| <= t.capacity
    requires Possible(t, b, evalLength) && Quiet(b) && Payload(b) + x == Answered([], r)
    ensures var u := Run(t, b, evalLength);
            Possible(u, Bytewise(x), evalLength) && Arrived(Run(u, Bytewise(x), evalLength), Read(r))
  {
    hide Wire;
    NeverStranded(t, [], r, b, x, evalLength);
  }

  lemma ThenArrives(t: Session, a: seq<Io>, b: seq<Io>, r: Reply, evalLength: nat)
    requires Contract(r) && Possible(t, a, evalLength) && Possible(Run(t, a, evalLength), [], evalLength)
    requires var u := Run(Run(t, a, evalLength), [], evalLength);
             Possible(u, b, evalLength) && Arrived(Run(u, b, evalLength), Read(r))
    ensures !Stranded(t, evalLength)
  {
    hide Step, Enabled;
    RunJoins(t, a, b, evalLength);
    ArrivalIsVerdict(t, a + b, r, evalLength);
  }

  /** Without room for the prelude and the error line, a read that fills the buffer is refused. */
  lemma FullHeaderStrands(s: Session, lines: seq<seq<byte>>, line: seq<byte>, evalLength: nat)
    requires Starts(s, |lines|) && !s.fallback && 1 <= s.capacity && AreOkLines(lines) && IsNoScriptLine(line)
    requires s.capacity < |Joined(lines) + line|
    ensures var io := Data((Joined(lines) + line)[..s.capacity]);
            Enabled(s, io) && Stranded(Step(s, io, evalLength), evalLength)
  {
    hide Consume, LineEnd, IsNoScript, Joined, AreOkLines, IsNoScriptLine;
    var u := (Joined(lines) + line)[..s.capacity];
    CutNoScript(lines, line, s.capacity);
    assert [] + u == u;
    var c := Consume(|lines|, u);
    if c.Ready? {
      HeaderStep(s, c.rest, u, evalLength);
    }
    LostForGood(Step(s, Data(u), evalLength), evalLength);
  }

  /** A division into reads can strand an exchange that falls back if and only if the buffer lacks
      room for the one part or the other. */
  lemma FallbackStrandedWithoutRoom(s: Session, lines: seq<seq<byte>>, line: seq<byte>, r: Reply, evalLength: nat)
    requires Starts(s, |lines|) && !s.fallback && 1 <= s.capacity
    requires AreOkLines(lines) && IsNoScriptLine(line) && Contract(r) && Fits(r)
    ensures (exists a, b, x ::
               && Brought(lines, line, r, a, b, x) && Possible(s, a + b, evalLength)
               && Stranded(Run(s, a + b, evalLength), evalLength))
            <==> !HasRoomForBoth(lines, line, r, s.capacity)
  {
    hide Answered, Joined, Stranded, Brought, Wire, Step, Enabled, IsNoScriptLine;
    if HasRoomForBoth(lines, line, r, s.capacity) {
      forall a, b, x | Brought(lines, line, r, a, b, x) && Possible(s, a + b, evalLength)
        ensures !Stranded(Run(s, a + b, evalLength), evalLength)
      {
        FallbackNeverStranded(s, lines, line, r, a, b, x, evalLength);
      }
    } else {
      var a, b, x := StrandingCourse(s, lines, line, r, evalLength);
    }
  }

  lemma StrandingCourse(s: Session, lines: seq<seq<byte>>, line: seq<byte>, r: Reply, evalLength: nat)
    returns (a: seq<Io>, b: seq<Io>, x: seq<byte>)
    requires Starts(s, |lines|) && !s.fallback && 1 <= s.capacity
    requires AreOkLines(lines) && IsNoScriptLine(line) && Contract(r) && Fits(r)
    requires !HasRoomForBoth(lines, line, r, s.capacity)
    ensures Brought(lines, line, r, a, b, x) && Possible(s, a + b, evalLength)
    ensures Stranded(Run(s, a + b, evalLength), evalLength)
  {
    hide Answered, Joined, Stranded, Wire, Step, Enabled, Falling, IsNoScript;
    var first, answer := Joined(lines) + line, Answered([], r);
    if s.capacity < |first| {
      FullHeaderStrands(s, lines, line, evalLength);
      var u := first[..s.capacity];
      a, b, x := [Data(u)], [], first[s.capacity..];
      OneEvent(s, Data(u), evalLength);
      assert a + b == a && u + x == first && u != first;
    } else {
      a := [Data(first)];
      assert s.last + |first| <= s.capacity;
      ReadIsEnabled(s, first);
      OneEvent(s, Data(first), evalLength);
      NoScriptFalls(s, lines, line);
      assert Payload(a) + [] == first;
      FallingRuns(s, a, [], evalLength);
      var t := Run(s, a, evalLength);
      OnlyTheWhole(r, s.capacity);
      FullBufferStrands(t, [], r, evalLength);
      var u := answer[..t.capacity];
      b, x := [Data(u)], answer[t.capacity..];
      OneEvent(t, Data(u), evalLength);
      assert u + x == answer;
      RunJoins(s, a, b, evalLength);
    }
  }

  lemma ReadIsEnabled(s: Session, bytes: seq<byte>)
    requires 1 <= |bytes| && s.last + |bytes| <= s.capacity
    ensures Enabled(s, Data(bytes))
  {
  }

  /** A buffer that has held an error line does not end just behind a `*`. */
  lemma OnlyTheWhole(r: Reply, capacity: nat)
    requires 2 <= capacity
    ensures HasRoom([], r, capacity) <==> |Answered([], r)| <= capacity
  {
  }
}
