/** What holds of every run of a session: where a verdict can come from, what a conforming
    server's stream leads to, and how much buffer that takes. */
module Verdicts {
  import opened Foundation
  import opened Bytes
  import opened ReplyParser
  import opened Session

  /** A verdict has been reached: the status is one the parser sets. */
  predicate HasVerdict(s: Session) {
    s.phase.Finalized? && (s.parser.status == HTTP_OK || s.parser.status == HTTP_TOO_MANY)
  }

  lemma PayloadStep(s: Session, io: Io, ios: seq<Io>, j: nat, evalLength: nat)
    requires j <= |ios| && !s.phase.Finalized? && Enabled(s, io)
    requires !Step(s, io, evalLength).phase.Finalized? && Step(s, io, evalLength).fallback == s.fallback
    ensures Decide(s, Payload(([io] + ios)[..j + 1])) == Decide(Step(s, io, evalLength), Payload(ios[..j]))
  {
    hide Decide, OnData, Resent;
    var t, x := Step(s, io, evalLength), Payload(ios[..j]);
    assert ([io] + ios)[..j + 1][1..] == ios[..j];
    if io.Data? {
      ReadKeepsDecision(s, io.bytes, x, evalLength);
    } else {
      assert Payload(([io] + ios)[..j + 1]) == x;
      WritesDoNotDecide(s, t, x);
    }
  }

  /** A session that was s ends with p, and p is what the stream as a whole decides: the bytes up to
      event j, or, if those up to event i have said NOSCRIPT, the bytes from there to event j. */
  ghost predicate Origin(s: Session, ios: seq<Io>, i: nat, j: nat, p: Parser, evalLength: nat) {
    && i <= j <= |ios|
    && if i == 0 then Decide(s, Payload(ios[..j])) == Decided(p)
       else
         && !s.fallback && Decide(s, Payload(ios[..i])) == NoScript
         && Decide(Resent(s, evalLength), Payload(ios[i..j])) == Decided(p)
  }

  /** In every run, whatever the server sends and however the sockets fail, a verdict is what the
      stream as a whole decides: either the bytes received so far, or, after they have said
      NOSCRIPT, the bytes received since the EVAL was sent. */
  lemma {:induction false} VerdictOrigin(s: Session, ios: seq<Io>, evalLength: nat) returns (i: nat, j: nat)
    requires !s.phase.Finalized? && Possible(s, ios, evalLength) && HasVerdict(Run(s, ios, evalLength))
    ensures Origin(s, ios, i, j, Run(s, ios, evalLength).parser, evalLength)
    ensures Run(s, ios, evalLength).parser.parsed
    decreases |ios|
  {
    hide Decide, Step, Enabled, Origin;
    var t := Step(s, ios[0], evalLength);
    if t.phase.Finalized? {
      StaysFinalized(t, ios[1..], evalLength);
      OriginNow(s, ios, evalLength);
      i, j := 0, 1;
    } else {
      i, j := VerdictOrigin(t, ios[1..], evalLength);
      i, j := OriginLater(s, ios, i, j, Run(t, ios[1..], evalLength).parser, evalLength);
    }
  }

  lemma OriginNow(s: Session, ios: seq<Io>, evalLength: nat)
    requires ios != [] && !s.phase.Finalized? && Enabled(s, ios[0]) && HasVerdict(Step(s, ios[0], evalLength))
    ensures Origin(s, ios, 0, 1, Step(s, ios[0], evalLength).parser, evalLength)
    ensures Step(s, ios[0], evalLength).parser.parsed
  {
    hide Decide, OnData;
    PayloadOfOne(ios);
    if ios[0].Data? {
      ReadKeepsDecision(s, ios[0].bytes, [], evalLength);
      DecidedIsParsed(s, ios[0].bytes);
    }
  }

  lemma OriginLater(s: Session, ios: seq<Io>, i: nat, j: nat, p: Parser, evalLength: nat) returns (i': nat, j': nat)
    requires ios != [] && !s.phase.Finalized? && Enabled(s, ios[0])
    requires var t := Step(s, ios[0], evalLength);
             !t.phase.Finalized? && Origin(t, ios[1..], i, j, p, evalLength)
    ensures Origin(s, ios, i', j', p, evalLength)
  {
    hide Decide, OnData, Resent, Enabled;
    var io, rest := ios[0], ios[1..];
    var t := Step(s, io, evalLength);
    PayloadOfOne(ios);
    j' := j + 1;
    if t.fallback != s.fallback {
      assert t.fallback by { FallbackLatches(s, io, evalLength); }
      ReadKeepsDecision(s, io.bytes, [], evalLength);
      SliceBehind(ios, 0, j);
      i' := 1;
    } else if i == 0 {
      PayloadStep(s, io, rest, j, evalLength);
      i' := 0;
    } else {
      PayloadStep(s, io, rest, i, evalLength);
      SliceBehind(ios, i, j);
      StartsOverAlike(s, io, Payload(rest[..i]), Payload(rest[i..j]), evalLength);
      i' := i + 1;
    }
  }

  lemma PayloadOfOne(ios: seq<Io>)
    requires ios != []
    ensures ios == [ios[0]] + ios[1..]
    ensures ios[0].Data? ==> Payload(ios[..1]) == ios[0].bytes && ios[0].bytes + [] == ios[0].bytes
  {
    assert ios[..1] == [ios[0]] && [ios[0]][1..] == [];
  }

  lemma SliceBehind(ios: seq<Io>, i: nat, j: nat)
    requires ios != [] && i <= j < |ios|
    ensures ios[i + 1..j + 1] == ios[1..][i..j] && ios[1..][0..j] == ios[1..][..j]
  {
  }

  lemma DecidedIsParsed(s: Session, x: seq<byte>)
    ensures Decide(s, x).Decided? ==> Decide(s, x).p.parsed
  {
    hide Consume, LineEnd, IsNoScript;
  }

  /** The fallback is taken at most once and never undone. */
  lemma FallbackLatches(s: Session, io: Io, evalLength: nat)
    requires s.phase.Finalized? || Enabled(s, io)
    ensures s.fallback ==> Step(s, io, evalLength).fallback
  {
    hide Feed, Consume, LineEnd, IsNoScript;
  }

  /** What EVAL starts from does not depend on how the NOSCRIPT line was read. */
  lemma StartsOverAlike(s: Session, io: Io, x: seq<byte>, y: seq<byte>, evalLength: nat)
    requires !s.phase.Finalized? && Enabled(s, io)
    requires var t := Step(s, io, evalLength);
             !t.phase.Finalized? && t.fallback == s.fallback && Decide(t, x) == NoScript
    ensures Decide(Resent(Step(s, io, evalLength), evalLength), y) == Decide(Resent(s, evalLength), y)
  {
    hide Feed, Consume, LineEnd, IsNoScript, OfStream;
  }

  // ---- conforming servers ----

  /** A simple-string reply to AUTH or SELECT: `+`, anything but LF, and LF. */
  predicate IsOkLine(line: seq<byte>) {
    2 <= |line| && line[0] == PLUS && line[|line| - 1] == LF && LF !in line[..|line| - 1]
  }

  predicate AreOkLines(lines: seq<seq<byte>>) {
    forall i :: 0 <= i < |lines| ==> IsOkLine(lines[i])
  }

  /** The error line by which Redis says that it does not know the script. */
  predicate IsNoScriptLine(line: seq<byte>) {
    10 <= |line| && line[0] == MINUS && IsNoScript(line) && line[|line| - 1] == LF && LF !in line[..|line| - 1]
  }

  function Joined(lines: seq<seq<byte>>): seq<byte> {
    if lines == [] then [] else lines[0] + Joined(lines[1..])
  }

  /** What a conforming server sends in answer to the prelude and one script call. */
  function Answered(lines: seq<seq<byte>>, r: Reply): seq<byte> {
    Joined(lines) + [STAR] + Wire(r)
  }

  lemma {:induction false} LineEndAt(line: seq<byte>, rest: seq<byte>)
    requires line != [] && line[|line| - 1] == LF && LF !in line[..|line| - 1]
    ensures LineEnd(line + rest) == Some(|line| - 1)
  {
    if |line| > 1 {
      assert line[0] != LF by { assert line[..|line| - 1][0] == line[0]; }
      assert line[1..][..|line| - 2] == line[..|line| - 1][1..];
      assert (line + rest)[1..] == line[1..] + rest;
      LineEndAt(line[1..], rest);
    }
  }

  lemma {:induction false} ConsumesSome(m: nat, lines: seq<seq<byte>>, rest: seq<byte>)
    requires AreOkLines(lines) && |lines| <= m
    ensures Consume(m, Joined(lines) + rest) == Consume(m - |lines|, rest)
  {
    hide LineEnd, Consume;
    if lines == [] {
      assert Joined(lines) + rest == rest;
    } else {
      var tail := Joined(lines[1..]) + rest;
      assert Joined(lines) + rest == lines[0] + tail;
      LineEndAt(lines[0], tail);
      assert (lines[0] + tail)[|lines[0]|..] == tail;
      ConsumeOne(m, lines[0] + tail);
      ConsumesSome(m - 1, lines[1..], rest);
    }
  }

  lemma ConsumesLines(lines: seq<seq<byte>>, rest: seq<byte>)
    requires AreOkLines(lines)
    ensures Consume(|lines|, Joined(lines) + rest) == Ready(rest)
  {
    ConsumesSome(|lines|, lines, rest);
  }

  // ---- a fresh exchange ----

  /** The parser before a header has been read. */
  const UNREAD := FRESH.(status := 0)

  /** Nothing has been read yet, and m prelude replies are due. */
  predicate Starts(s: Session, m: nat) {
    s.phase.Header? && s.last == 0 && s.unread == [] && s.preludes == m && s.parser == UNREAD
  }

  lemma StartWaits(s: Session, m: nat)
    requires Starts(s, m)
    ensures Waiting(s)
  {
  }

  /** The verdict is the reply behind the last prelude line, with its five numbers. */
  lemma AnsweredDecides(s: Session, lines: seq<seq<byte>>, r: Reply)
    requires Starts(s, |lines|) && AreOkLines(lines) && Contract(r) && Fits(r)
    ensures Decide(s, Answered(lines, r)) == Decided(Read(r))
  {
    hide Feed, Wire, Consume;
    var rest := [STAR] + Wire(r);
    assert Answered(lines, r) == Joined(lines) + rest;
    assert [] + Answered(lines, r) == Answered(lines, r);
    ConsumesLines(lines, rest);
    assert rest[1..] == Wire(r);
    RoundTrip(r);
  }

  lemma NoScriptDecides(s: Session, lines: seq<seq<byte>>, line: seq<byte>)
    requires Starts(s, |lines|) && !s.fallback && AreOkLines(lines) && IsNoScriptLine(line)
    ensures Decide(s, Joined(lines) + line) == NoScript
  {
    hide Consume;
    assert [] + (Joined(lines) + line) == Joined(lines) + line;
    ConsumesLines(lines, line);
    LineEndAt(line, []);
    assert line + [] == line;
  }

  /** Whatever the division into reads, a conforming reply gives its own verdict and counters,
      provided the buffer can hold what the server sends. */
  lemma ReplyIsDelivered(s: Session, lines: seq<seq<byte>>, r: Reply, ios: seq<Io>, evalLength: nat)
    requires Starts(s, |lines|) && AreOkLines(lines) && Contract(r) && Fits(r)
    requires Possible(s, ios, evalLength) && Quiet(ios)
    requires Payload(ios) == Answered(lines, r) && |Answered(lines, r)| <= s.capacity
    ensures var t := Run(s, ios, evalLength);
            HasVerdict(t) && t.parser == Read(r)
  {
    hide Decide, Wire, Answered;
    AnsweredDecides(s, lines, r);
    StartWaits(s, |lines|);
    RunDecides(s, ios, evalLength);
  }

  /** What is no answer, with `due` prelude replies to come: to AUTH or SELECT a line that is not `+`; to
      the script call anything but an array or an error; and an error, unless it is the first NOSCRIPT. */
  predicate IsNoAnswer(due: nat, fallback: bool, u: seq<byte>) {
    && u != []
    && if due > 0 then u[0] != PLUS && LF in u
       else u[0] != STAR && (u[0] == MINUS ==> LF in u && (fallback || !IsNoScript(u)))
  }

  /** Whatever the division into reads, it fails the exchange with 500, so that it is never let through
      as an outage, if the buffer holds it. */
  lemma NoAnswerFails(s: Session, m: nat, lines: seq<seq<byte>>, u: seq<byte>, ios: seq<Io>, evalLength: nat)
    requires Starts(s, m) && |lines| <= m && AreOkLines(lines) && IsNoAnswer(m - |lines|, s.fallback, u)
    requires Possible(s, ios, evalLength) && Quiet(ios)
    requires Payload(ios) == Joined(lines) + u && |Payload(ios)| <= s.capacity
    ensures var t := Run(s, ios, evalLength);
            t.phase.Finalized? && t.parser.status == 500
  {
    hide Consume, Feed, IsNoScript, Run, Possible, Payload, LineEnd;
    ConsumesSome(m, lines, u);
    LineEndIsFirst(u);
    if |lines| < m {
      ConsumeOne(m - |lines|, u);
    } else {
      ConsumeNothing(u);
    }
    assert [] + (Joined(lines) + u) == Joined(lines) + u;
    StartWaits(s, m);
    RunDecides(s, ios, evalLength);
  }

  // ---- the fallback ----

  /** With x still to come, which ends with the NOSCRIPT line and fits the buffer, the session is
      about to fall back. */
  ghost predicate Falling(s: Session, x: seq<byte>) {
    && s.phase.Header? && !s.fallback && s.parser == UNREAD && s.last + |x| <= s.capacity
    && x != [] && Decide(s, x) == NoScript && forall k: nat :: k < |x| ==> Decide(s, x[..k]) == More
  }

  /** It has fallen back, and waits for the reply to the EVAL. */
  predicate Fallen(s: Session, capacity: nat) {
    Starts(s, 0) && s.fallback && s.capacity == capacity
  }

  /** Only a header can still turn into a NOSCRIPT. */
  lemma StaysHeader(s: Session, bytes: seq<byte>, x: seq<byte>, evalLength: nat)
    requires s.phase.Header? && Enabled(s, Data(bytes))
    requires var t := OnData(s, bytes, evalLength);
             !t.phase.Finalized? && t.fallback == s.fallback && Decide(t, x) == NoScript
    ensures var t := OnData(s, bytes, evalLength);
            && t.phase.Header? && t.parser == s.parser && t.capacity == s.capacity && t.last == s.last + |bytes|
  {
    hide Feed, Consume, LineEnd, IsNoScript, OfStream;
  }

  lemma FallingReads(s: Session, bytes: seq<byte>, y: seq<byte>, evalLength: nat)
    requires Falling(s, bytes + y) && Enabled(s, Data(bytes))
    ensures var t := OnData(s, bytes, evalLength);
            if y == [] then Fallen(t, s.capacity) else Falling(t, y)
  {
    hide Decide, OnData;
    var t, x := OnData(s, bytes, evalLength), bytes + y;
    ReadKeepsDecision(s, bytes, y, evalLength);
    ReadKeepsDecision(s, bytes, [], evalLength);
    assert x[..|bytes|] == bytes + [] == bytes;
    if !t.fallback {
      StaysHeader(s, bytes, y, evalLength);
      forall k: nat | k < |y| ensures Decide(t, y[..k]) == More {
        assert x[..|bytes| + k] == bytes + y[..k];
        ReadKeepsDecision(s, bytes, y[..k], evalLength);
      }
    }
    if y == [] {
      assert bytes + [] == x;
      AfterRead(s, bytes, evalLength);
    }
  }

  lemma FallingStep(s: Session, io: Io, x: seq<byte>, y: seq<byte>, evalLength: nat)
    requires Falling(s, x) && Enabled(s, io) && Quiet([io]) && x == (if io.Data? then io.bytes else []) + y
    ensures var t := Step(s, io, evalLength);
            if y == [] then Fallen(t, s.capacity) else Falling(t, y) && t.capacity == s.capacity
  {
    hide Decide, OnData;
    assert [io][0] == io;
    if io.Data? {
      FallingReads(s, io.bytes, y, evalLength);
      AfterRead(s, io.bytes, evalLength);
    } else {
      assert x == y;
      forall k: nat | k <= |x| ensures Decide(Step(s, io, evalLength), x[..k]) == Decide(s, x[..k]) {
        WritesDoNotDecide(s, Step(s, io, evalLength), x[..k]);
      }
      assert x[..|x|] == x;
    }
  }

  /** However the stream is divided into reads, the session falls back with its last byte. */
  lemma {:induction false} FallingRuns(s: Session, ios: seq<Io>, x: seq<byte>, evalLength: nat)
    requires Possible(s, ios, evalLength) && Quiet(ios)
    requires Falling(s, Payload(ios) + x) || (Fallen(s, s.capacity) && Payload(ios) + x == [])
    ensures var t := Run(s, ios, evalLength);
            if x == [] then Fallen(t, s.capacity) else Falling(t, x) && t.capacity == s.capacity
    decreases |ios|
  {
    hide Falling, OnData;
    if ios == [] {
      assert Payload(ios) + x == x;
      NothingFalls(s);
    } else {
      var io, y := ios[0], Payload(ios[1..]) + x;
      assert Payload(ios) + x == (if io.Data? then io.bytes else []) + y;
      if Falling(s, Payload(ios) + x) {
        FallingIsLive(s, Payload(ios) + x);
        FallingStep(s, io, Payload(ios) + x, y, evalLength);
      }
      FallingRuns(Step(s, io, evalLength), ios[1..], x, evalLength);
    }
  }

  lemma NothingFalls(s: Session)
    ensures !Falling(s, [])
  {
  }

  lemma FallingIsLive(s: Session, x: seq<byte>)
    requires Falling(s, x)
    ensures !s.phase.Finalized?
  {
  }

  /** A fresh session is falling when the stream ends with its first NOSCRIPT line. */
  lemma NoScriptFalls(s: Session, lines: seq<seq<byte>>, line: seq<byte>)
    requires Starts(s, |lines|) && !s.fallback && AreOkLines(lines) && IsNoScriptLine(line)
    requires |Joined(lines) + line| <= s.capacity
    ensures Falling(s, Joined(lines) + line)
  {
    hide Decide, Joined, AreOkLines;
    var x := Joined(lines) + line;
    NoScriptDecides(s, lines, line);
    forall k: nat | k < |x| ensures Decide(s, x[..k]) == More {
      NoScriptNotEarlier(s, lines, line, k);
    }
  }

  /** The same as ReplyIsDelivered, behind a NOSCRIPT reply: the verdict is the reply to the EVAL. */
  lemma FallbackIsDelivered(s: Session, lines: seq<seq<byte>>, line: seq<byte>, r: Reply, a: seq<Io>, b: seq<Io>,
                            evalLength: nat)
    requires Starts(s, |lines|) && !s.fallback
    requires AreOkLines(lines) && IsNoScriptLine(line) && Contract(r) && Fits(r)
    requires Possible(s, a + b, evalLength) && Quiet(a) && Quiet(b)
    requires Payload(a) == Joined(lines) + line && |Payload(a)| <= s.capacity
    requires Payload(b) == Answered([], r) && |Payload(b)| <= s.capacity
    ensures var t := Run(s, a + b, evalLength);
            HasVerdict(t) && t.parser == Read(r) && t.fallback
  {
    hide Decide, Wire, Answered, Joined, Falling;
    NoScriptFalls(s, lines, line);
    assert Payload(a) + [] == Payload(a);
    RunAppends(s, a, b, evalLength);
    FallingRuns(s, a, [], evalLength);
    ReplyIsDelivered(Run(s, a, evalLength), [], r, b, evalLength);
    FallbackStays(Run(s, a, evalLength), b, evalLength);
  }

  lemma {:induction false} FallbackStays(s: Session, ios: seq<Io>, evalLength: nat)
    requires s.fallback && Possible(s, ios, evalLength)
    ensures Run(s, ios, evalLength).fallback
    decreases |ios|
  {
    hide Step;
    if ios != [] {
      FallbackLatches(s, ios[0], evalLength);
      FallbackStays(Step(s, ios[0], evalLength), ios[1..], evalLength);
    }
  }

  lemma NotInPrefix(line: seq<byte>, u: seq<byte>, x: seq<byte>)
    requires line != [] && LF !in line[..|line| - 1] && u + x == line && x != []
    ensures LF !in u
  {
    assert line[..|line| - 1] == u + x[..|x| - 1];
  }

  /** Nothing is decided before the LF of the line. */
  lemma LineIsNeeded(p: Parser, line: seq<byte>, u: seq<byte>, x: seq<byte>)
    requires IsNoScriptLine(line) && u + x == line && x != []
    ensures OfHeader(p, false, u) == More && LineEnd(u).None? && (u != [] ==> u[0] == MINUS)
  {
    LineEndIsFirst(u);
    NotInPrefix(line, u, x);
    if u != [] {
      assert u[0] == line[0];
    }
  }

  /** What has been read of a prelude and a NOSCRIPT line that are not complete. */
  lemma CutNoScript(lines: seq<seq<byte>>, line: seq<byte>, k: nat)
    requires AreOkLines(lines) && IsNoScriptLine(line) && k < |Joined(lines) + line|
    ensures var c := Consume(|lines|, (Joined(lines) + line)[..k]);
            c.Partial? || (c.Ready? && LineEnd(c.rest).None? && (c.rest != [] ==> c.rest[0] == MINUS))
  {
    hide Joined, Consume, OfHeader, IsNoScriptLine, AreOkLines, LineEnd;
    var full := Joined(lines) + line;
    var u, x := full[..k], full[k..];
    assert u + x == full;
    ConsumesLines(lines, line);
    ConsumeExtends(|lines|, u, x);
    var c := Consume(|lines|, u);
    if c.Ready? {
      LineIsNeeded(UNREAD, line, c.rest, x);
    }
  }

  lemma NoScriptNotEarlier(s: Session, lines: seq<seq<byte>>, line: seq<byte>, k: nat)
    requires Starts(s, |lines|) && !s.fallback
    requires AreOkLines(lines) && IsNoScriptLine(line) && k < |Joined(lines) + line|
    ensures Decide(s, (Joined(lines) + line)[..k]) == More
  {
    hide Joined, Consume, IsNoScriptLine, AreOkLines, LineEnd;
    var u := (Joined(lines) + line)[..k];
    assert [] + u == u;
    CutNoScript(lines, line, k);
  }
}
