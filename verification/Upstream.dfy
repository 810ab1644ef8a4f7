/** The upstream side of a request as it works on its buffer and fields: the read handlers, the
    header, the filter loop, the EVAL resend and finalization. Every handler is shown to do what
    the session says, event by event. */
module Upstream {
  import opened Foundation
  import opened Bytes
  import opened ReplyParser
  import opened Session
  import Encoder
  import S = Session

  /** After the first n of the events ios, a session that was s0 is cur. */
  ghost predicate Trace(s0: Session, ios: seq<Io>, n: nat, cur: Session, evalLength: nat) {
    && n <= |ios|
    && Possible(s0, ios[..n], evalLength) && Run(s0, ios[..n], evalLength) == cur
    && Possible(cur, ios[n..], evalLength)
  }

  lemma TraceBegins(s0: Session, ios: seq<Io>, evalLength: nat)
    requires Possible(s0, ios, evalLength)
    ensures Trace(s0, ios, 0, s0, evalLength)
  {
    assert ios[..0] == [] && ios[0..] == ios;
  }

  lemma TraceStep(s0: Session, ios: seq<Io>, n: nat, cur: Session, evalLength: nat)
    requires Trace(s0, ios, n, cur, evalLength) && n < |ios|
    ensures cur.phase.Finalized? || Enabled(cur, ios[n])
    ensures Trace(s0, ios, n + 1, Step(cur, ios[n], evalLength), evalLength)
  {
    hide Step, Enabled;
    var io := ios[n];
    assert ios[n..] == [io] + ios[n + 1..] && ios[..n + 1] == ios[..n] + [io];
    assert ([io] + ios[n + 1..])[1..] == ios[n + 1..] && [io][1..] == [];
    RunJoins(s0, ios[..n], [io], evalLength);
  }

  /** What an attempt to write can report. */
  predicate IsWrite(io: Io) {
    io.Written? || io.WriteBlocked? || io.WriteError?
  }

  /** What a write attempt of the EVAL came to. */
  datatype Sending = Sent | Dropped | Unarmed

  /** What the header step came to. */
  datatype HeaderResult = Goes(rc: HeaderRc) | SendFailed(sending: Sending)

  /** Once a reply has been parsed to its end the saved place is never looked at again. */
  function AtRest(p: Parser): Parser {
    if p.parsed then p.(place := AlmostDone) else p
  }

  /** A scan that finds the first LF finds the end of the line. */
  lemma {:induction false} FoundLineEnd(u: seq<byte>, i: nat)
    requires i <= |u| && LF !in u[..i] && (i < |u| ==> u[i] == LF)
    ensures LineEnd(u) == if i < |u| then Some(i) else None
  {
    if u != [] && i > 0 {
      assert u[..i][0] == u[0] && u[1..][..i - 1] == u[..i][1..];
      FoundLineEnd(u[1..], i - 1);
    }
  }

  /** The upstream state of one request. `request` is the EVAL frame once it has been built, `sent`
      the position in it, and `wire` what the socket has taken of it. */
  class Upstream {
    const buf: array<byte>
    const ctx: Context
    const evalArgv: seq<seq<byte>>
    const headersOn: bool
    var pos: nat
    var last: nat
    var phase: Phase
    var length: int
    var preludes: nat
    var fallback: bool
    var request: array<byte>
    var sent: nat
    ghost var wire: seq<byte>
    var headers: bool

    constructor (capacity: nat, preludeReplies: nat, evalArgv: seq<seq<byte>>, headersOn: bool)
      ensures Valid() && Model() == Begin(preludeReplies, capacity, headersOn) && this.evalArgv == evalArgv
      ensures fresh(buf) && fresh(ctx)
    {
      hide Encoder.Command;
      buf := new byte[capacity];
      ctx := new Context();
      this.evalArgv, this.headersOn := evalArgv, headersOn;
      pos, last, phase, length := 0, 0, Header, 0;
      preludes, fallback := preludeReplies, false;
      request, sent, wire := new byte[0], 0, [];
      headers := false;
    }

    ghost predicate Valid()
      reads this, buf, ctx, request
    {
      && pos <= last <= buf.Length
      && buf != request
      && sent <= request.Length && wire == request[..sent]
      && (fallback ==> request[..] == Encoder.Command(evalArgv))
      && (!fallback ==> request.Length == 0)
      && (phase.Header? ==> !ctx.replyParsed)
      && (phase.Body? ==> (length == 0 <==> ctx.replyParsed))
    }

    ghost function EvalLength(): nat {
      |Encoder.Command(evalArgv)|
    }

    ghost function Unread(): seq<byte>
      reads this`pos, this`last, buf
      requires pos <= last <= buf.Length
    {
      buf[pos..last]
    }

    ghost function Model(): Session
      reads this, buf, ctx, request
      requires Valid()
    {
      Session(phase, buf.Length, if phase.Finalized? then 0 else last,
              if phase.Header? then Unread() else [], preludes, fallback, request.Length - sent,
              AtRest(ctx.Model()), headersOn, headers)
    }

    /** Emit the headers if there is a verdict, and only then map an error to its status. */
    method FinalizeUpstream(ending: Ending)
      requires Valid()
      modifies this`phase, this`headers, ctx
      ensures Valid() && phase.Finalized? && Model() == Finalize(old(Model()), ending)
    {
      hide Encoder.Command;
      headers := ctx.replyParsed && (ctx.status == HTTP_TOO_MANY || (headersOn && ctx.status == HTTP_OK));
      phase := Finalized;
      if ending.Mapped? {
        ctx.status := ending.status;
      }
    }

    /** The socket delivers bytes behind those already there. */
    method Receive(bytes: seq<byte>)
      requires Valid() && last + |bytes| <= buf.Length
      modifies buf
      ensures Valid() && buf[..last + |bytes|] == old(buf[..last]) + bytes
    {
      var end := Encoder.Put(buf, last, bytes);
    }

    /** The socket takes k more bytes of the EVAL frame. */
    method Take(k: nat)
      requires Valid() && sent + k <= request.Length
      modifies this`sent, this`wire
      ensures Valid() && Model() == old(Model()).(evalLeft := old(Model()).evalLeft - k)
    {
      hide Encoder.Command;
      wire := wire + request[sent..sent + k];
      sent := sent + k;
    }

    /** Look for an LF from a position with none before it. */
    method FindLf(from: nat) returns (p: nat)
      requires Valid() && pos <= from <= last && LF !in buf[pos..from]
      ensures pos <= p <= last && LineEnd(Unread()) == if p < last then Some(p - pos) else None
    {
      hide Encoder.Command;
      p := from;
      while p < last && buf[p] != LF
        invariant from <= p <= last
        invariant LF !in buf[pos..p]
      {
        p := p + 1;
      }
      assert Unread()[..p - pos] == buf[pos..p];
      FoundLineEnd(Unread(), p - pos);
    }

    /** Consume one AUTH or SELECT reply at the head of the buffer. */
    method ConsumePreludeReply() returns (rc: HeaderRc)
      requires Valid() && phase.Header?
      modifies this`pos
      ensures Valid()
      ensures var u := old(Unread());
              if LineEnd(u).None? then rc == HeaderAgain && Unread() == u
              else if u[0] == PLUS then rc == HeaderOk && Unread() == u[LineEnd(u).value + 1..]
              else rc == HeaderError && Unread() == u
    {
      hide Encoder.Command;
      var p := FindLf(pos);
      if p == last {
        return HeaderAgain;
      }
      if buf[pos] == PLUS {
        pos := p + 1;
        return HeaderOk;
      }
      return HeaderError;
    }

    /** Write as much of the EVAL frame as the socket takes. */
    method SendEval(ghost s0: Session, ios: seq<Io>, n: nat) returns (rc: Sending, m: nat)
      requires Valid() && !phase.Finalized? && n <= |ios| && Trace(s0, ios, n, Model(), EvalLength())
      modifies this`sent, this`wire
      ensures Valid() && n <= m <= |ios|
      ensures Model() == old(Model()).(evalLeft := Model().evalLeft)
      ensures rc.Sent? ==> Trace(s0, ios, m, Model(), EvalLength())
      ensures !rc.Sent? ==> n < m && Trace(s0, ios, m - 1, Model(), EvalLength())
      ensures rc.Dropped? ==> ios[m - 1].WriteError?
      ensures rc.Unarmed? ==> ios[m - 1].Fault?
      ensures rc.Sent? && n < |ios| && IsWrite(ios[n]) ==> n < m
    {
      hide Trace, Valid, EvalLength, OnData, Finalize, AtRest, Unread, Encoder.Command;
      m := n;
      if n < |ios| {
        TraceStep(s0, ios, n, Model(), EvalLength());
      }
      while sent < request.Length && m < |ios|
        invariant Valid() && n <= m <= |ios|
        invariant Model() == old(Model()).(evalLeft := Model().evalLeft)
        invariant Trace(s0, ios, m, Model(), EvalLength())
        invariant n < |ios| && IsWrite(ios[n]) ==> n < m || sent < request.Length
      {
        TraceStep(s0, ios, m, Model(), EvalLength());
        match ios[m] {
          case Written(k) =>
            Take(k);
            m := m + 1;
          case WriteBlocked => return Sent, m + 1;
          case WriteError => return Dropped, m + 1;
          case Fault => return Unarmed, m + 1;
          case _ => return Sent, m;
        }
      }
      rc := Sent;
    }

    /** The write handler installed for the rest of the EVAL. */
    method SendEvalHandler(ghost s0: Session, ios: seq<Io>, n: nat) returns (m: nat)
      requires Valid() && !phase.Finalized? && n < |ios| && Trace(s0, ios, n, Model(), EvalLength())
      requires IsWrite(ios[n]) || ios[n].WriteTimeout?
      modifies this, ctx
      ensures Valid() && unchanged(`request) && n < m <= |ios| && Trace(s0, ios, m, Model(), EvalLength())
      ensures phase.Finalized? || phase == old(phase)
    {
      hide Trace, Valid, EvalLength, OnData, Finalize, AtRest;
      if ios[n].WriteTimeout? {
        TraceStep(s0, ios, n, Model(), EvalLength());
        FinalizeUpstream(Mapped(GATEWAY_TIMEOUT));
        return n + 1;
      }
      var rc;
      rc, m := SendEval(s0, ios, n);
      if !rc.Sent? {
        TraceStep(s0, ios, m - 1, Model(), EvalLength());
        FinalizeUpstream(Mapped(if rc.Dropped? then BAD_GATEWAY else INTERNAL_ERROR));
      }
    }

    /** Consume the prelude replies still outstanding. */
    method ConsumePrelude() returns (rc: HeaderRc)
      requires Valid() && phase.Header?
      modifies this`pos, this`preludes
      ensures Valid() && Model() == old(Model()).(preludes := preludes, unread := Unread())
      ensures match Consume(old(preludes), old(Unread()))
              case Ready(u) => rc == HeaderOk && preludes == 0 && Unread() == u
              case Partial(m, u) => rc == HeaderAgain && preludes == m && Unread() == u
              case Rejected(m, u) => rc == HeaderError && preludes == m && Unread() == u
    {
      hide Encoder.Command, LineEnd, Unread, Consume;
      while preludes > 0
        invariant Valid() && phase.Header?
        invariant Consume(old(preludes), old(Unread())) == Consume(preludes, Unread())
      {
        ConsumeOne(preludes, Unread());
        rc := ConsumePreludeReply();
        if rc != HeaderOk {
          return;
        }
        preludes := preludes - 1;
      }
      ConsumeNothing(Unread());
      rc := HeaderOk;
    }

    /** Forget the NOSCRIPT reply and the prelude, and reset the parser. */
    method StartOver()
      requires Valid() && phase.Header?
      modifies this`pos, this`last, this`preludes, ctx
      ensures Valid() && Model() == Resent(old(Model()), old(Model()).evalLeft).(fallback := fallback)
    {
      hide Encoder.Command;
      pos, last := 0, 0;
      ctx.state, ctx.limit, ctx.remaining, ctx.reset, ctx.retryAfter := Start, 0, 0, 0, -1;
      preludes := 0;
    }

    /** Latch the fallback and build the EVAL. */
    method BuildEval()
      requires Valid() && phase.Header? && !fallback
      modifies this`fallback, this`request, this`sent, this`wire
      ensures Valid() && fresh(request)
      ensures Model() == old(Model()).(fallback := true, evalLeft := EvalLength())
    {
      hide Encoder.Command;
      var ok, frame := Encoder.BuildCommand(evalArgv);
      fallback := true;
      request, sent, wire := frame, 0, [];
    }

    method PrepareEval()
      requires Valid() && phase.Header? && !fallback
      modifies this, ctx
      ensures Valid() && phase.Header? && fresh(request)
      ensures Model() == Resent(old(Model()), EvalLength())
    {
      hide Valid, Encoder.Command, Unread, EvalLength;
      BuildEval();
      StartOver();
    }

    method ResendEval(ghost s0: Session, ios: seq<Io>, n: nat) returns (rc: Sending, m: nat)
      requires Valid() && phase.Header? && !fallback && n <= |ios|
      requires Trace(s0, ios, n, Resent(Model(), EvalLength()), EvalLength())
      modifies this, ctx
      ensures Valid() && fresh(request) && n <= m <= |ios|
      ensures Model() == Resent(old(Model()), EvalLength()).(evalLeft := Model().evalLeft)
      ensures rc.Sent? ==> Trace(s0, ios, m, Model(), EvalLength())
      ensures !rc.Sent? ==> n < m && Trace(s0, ios, m - 1, Model(), EvalLength())
      ensures rc.Dropped? ==> ios[m - 1].WriteError?
      ensures rc.Unarmed? ==> ios[m - 1].Fault?
    {
      hide Trace, EvalLength, Valid, Model, Resent;
      PrepareEval();
      rc, m := SendEval(s0, ios, n);
    }

    /** Step over the `*`; the status is that of a grant until a digit says otherwise. */
    method TakeStar()
      requires Valid() && phase.Header? && pos < last
      modifies this`pos, ctx
      ensures Valid()
      ensures var s := old(Model());
              Model() == s.(unread := s.unread[1..], parser := s.parser.(status := HTTP_OK))
    {
      hide Encoder.Command;
      ctx.status := HTTP_OK;
      pos := pos + 1;
    }

    method SaysNoScript() returns (b: bool)
      requires Valid() && phase.Header?
      ensures b == IsNoScript(Unread())
    {
      hide Encoder.Command;
      if last - pos >= 9 {
        var line, head := buf[pos + 1..pos + 9], Unread()[1..9];
        assert forall k :: 0 <= k < 8 ==> line[k] == head[k];
        assert line == head;
      }
      b := last - pos >= 9 && buf[pos + 1..pos + 9] == NOSCRIPT;
    }

    /** The first byte of the reply says what it is; `missing` tells of a script to be sent anew. */
    method ReadReplyType() returns (rc: HeaderRc, missing: bool)
      requires Valid() && phase.Header? && preludes == 0
      modifies this`pos, ctx
      ensures Valid()
      ensures missing ==> !fallback && Model() == old(Model())
                          && S.ProcessHeader(Model(), EvalLength()) == (HeaderAgain, Resent(Model(), EvalLength()))
      ensures !missing ==> S.ProcessHeader(old(Model()), EvalLength()) == (rc, Model())
    {
      hide EvalLength, Encoder.Command, LineEnd, Resent, S.ProcessHeader;
      HeaderCases(Model(), EvalLength());
      if pos == last {
        return HeaderAgain, false;
      }
      var chr := buf[pos];
      assert chr == Unread()[0];
      if chr == STAR {
        TakeStar();
        return HeaderOk, false;
      }
      if chr != MINUS {
        return HeaderInvalid, false;
      }
      var p := FindLf(pos + 1);
      if p == last {
        return HeaderAgain, false;
      }
      missing := SaysNoScript();
      missing := missing && !fallback;
      rc := HeaderError;
    }

    /** What the header step has done to a session that was s: it agrees with the specification,
        and if it has fallen back it has also started to send the EVAL. */
    ghost predicate HeaderDone(s: Session, s0: Session, ios: seq<Io>, n: nat, result: HeaderResult, m: nat)
      reads this, buf, ctx, request
      requires Valid()
    {
      var (rc, t) := S.ProcessHeader(s, EvalLength());
      if t.fallback == s.fallback then m == n && result == Goes(rc) && Model() == t
      else
        && n <= m <= |ios| && Model() == t.(evalLeft := Model().evalLeft)
        && match result
           case Goes(rc2) => rc2 == HeaderAgain && Trace(s0, ios, m, Model(), EvalLength())
           case SendFailed(sending) =>
             && n < m && Trace(s0, ios, m - 1, Model(), EvalLength())
             && ((sending.Dropped? && ios[m - 1].WriteError?) || (sending.Unarmed? && ios[m - 1].Fault?))
    }

    method ProcessHeader(ghost s0: Session, ios: seq<Io>, n: nat) returns (result: HeaderResult, m: nat)
      requires Valid() && phase.Header? && n <= |ios|
      requires var t := S.ProcessHeader(Model(), EvalLength()).1;
               t.fallback != fallback ==> Trace(s0, ios, n, t, EvalLength())
      modifies this, ctx
      ensures Valid() && (request == old(request) || fresh(request)) && n <= m <= |ios|
      ensures HeaderDone(old(Model()), s0, ios, n, result, m)
    {
      hide Trace, EvalLength, Valid, LineEnd, IsNoScript, Unread, Consume, S.ProcessHeader;
      var rc := ConsumePrelude();
      PreludeFirst(old(Model()), Model(), EvalLength());
      if rc != HeaderOk {
        return Goes(rc), n;
      }
      var missing;
      rc, missing := ReadReplyType();
      if !missing {
        return Goes(rc), n;
      }
      var sending;
      sending, m := ResendEval(s0, ios, n);
      result := if sending.Sent? then Goes(HeaderAgain) else SendFailed(sending);
    }

    /** The input filter: parse the k bytes just behind those already parsed. */
    method Filter(k: nat) returns (o: Outcome)
      requires Valid() && phase.Body? && length != 0 && last + k <= buf.Length
      modifies this`pos, this`last, this`length, ctx
      ensures Valid() && last == old(last) + k && (length == 0 <==> o.Done?)
      ensures o == Feed(old(Model()).parser, buf[old(last)..last])
      ensures Model() == old(Model()).(last := last,
                                       parser := if o.Failed? then o.p.(place := old(Model()).parser.place) else o.p)
    {
      hide Encoder.Command, Feed;
      ParsedOnlyAtEnd(ctx.Model(), buf[last..last + k]);
      pos := last;
      last := last + k;
      o := ctx.ProcessReply(buf, pos, last);
      match o {
        case Again(_) => pos := last;
        case Done(_, used) => pos, length := pos + used, 0;
        case Failed(_) =>
      }
    }

    method ReceiveBody(bytes: seq<byte>) returns (o: Outcome)
      requires Valid() && phase.Body? && length != 0 && last + |bytes| <= buf.Length
      modifies this`pos, this`last, this`length, ctx, buf
      ensures Valid() && (length == 0 <==> o.Done?)
      ensures AfterFeed(old(Model()), Feed(old(Model()).parser, bytes), 0)
              == if o.Failed? then Finalize(Model(), Mapped(INTERNAL_ERROR))
                 else Owed(Model(), true, length == 0, false)
    {
      hide Encoder.Command, Feed;
      Receive(bytes);
      assert buf[last..last + |bytes|] == bytes by {
        assert bytes == buf[..last + |bytes|][last..];
      }
      o := Filter(|bytes|);
    }

    /** Read and parse until the reply ends, the connection fails, or nothing more is at hand. A
        read starts at the front of the buffer again, except for the first one. */
    method ProcessRedisResponse(ghost s0: Session, ios: seq<Io>, n: nat) returns (m: nat)
      requires Valid() && phase.Body? && length != 0 && n <= |ios| && Trace(s0, ios, n, Model(), EvalLength())
      modifies this`pos, this`last, this`length, this`phase, this`headers, ctx, buf
      ensures Valid() && n <= m <= |ios| && Trace(s0, ios, m, Model(), EvalLength())
      ensures n < |ios| && !ios[n].ReadTimeout? ==> n < m
      ensures phase.Body? ==> length != 0
    {
      hide Trace, EvalLength, Valid, Step, Enabled, Finalize, AfterFeed;
      m := n;
      var doWrite, eof, error := length == 0, false, false;
      ghost var cur := Model();
      while true
        invariant Valid() && phase.Body? && n <= m <= |ios|
        invariant Trace(s0, ios, m, cur, EvalLength())
        invariant cur == Owed(Model(), doWrite, length == 0, eof || error)
        invariant if doWrite then n < m else m == n && length != 0 && !eof && !error
        decreases |ios| - m
      {
        if doWrite {
          Settle(eof, error);
          if phase.Finalized? {
            return;
          }
        }
        if m == |ios| {
          break;
        }
        TraceStep(s0, ios, m, cur, EvalLength());
        BodyEvents(cur, ios[m], EvalLength());
        if last == buf.Length || ios[m].Fault? || ios[m].ReadTimeout? {
          break;
        }
        cur := Step(cur, ios[m], EvalLength());
        m := m + 1;
        match ios[m - 1] {
          case Data(bytes) =>
            var o := ReceiveBody(bytes);
            if o.Failed? {
              FinalizeUpstream(Mapped(INTERNAL_ERROR));
              return;
            }
          case Eof => eof := true;
          case ReadError => error := true;
          case _ => break;
        }
        doWrite := true;
      }
      if m < |ios| && ios[m].Fault? {
        TraceStep(s0, ios, m, Model(), EvalLength());
        BodyEvents(Model(), ios[m], EvalLength());
        FinalizeUpstream(Mapped(INTERNAL_ERROR));
        m := m + 1;
      }
    }

    /** After a read: end the exchange if the reply is complete or the connection gone, otherwise
        go back to the front of the buffer. */
    method Settle(eof: bool, error: bool)
      requires Valid() && phase.Body?
      modifies this`pos, this`last, this`phase, this`headers, ctx
      ensures Valid() && Model() == Owed(old(Model()), true, length == 0, eof || error)
      ensures phase.Finalized? || (phase.Body? && length != 0 && !eof && !error)
    {
      hide Valid;
      if length == 0 {
        FinalizeUpstream(Complete);
      } else if eof || error {
        FinalizeUpstream(Mapped(BAD_GATEWAY));
      } else {
        Rewind();
      }
    }

    /** The next read goes to the front of the buffer. */
    method Rewind()
      requires Valid() && phase.Body?
      modifies this`pos, this`last
      ensures Valid() && last == 0 && Model() == old(Model()).(last := 0)
    {
      hide Encoder.Command;
      pos, last := 0, 0;
    }

    method ReadBodyHandler(ghost s0: Session, ios: seq<Io>, n: nat) returns (m: nat)
      requires Valid() && phase.Body? && length != 0 && n <= |ios| && Trace(s0, ios, n, Model(), EvalLength())
      modifies this`pos, this`last, this`length, this`phase, this`headers, ctx, buf
      ensures Valid() && n <= m <= |ios| && Trace(s0, ios, m, Model(), EvalLength())
      ensures n < |ios| ==> n < m
      ensures phase.Body? ==> length != 0
    {
      hide Trace, EvalLength, Valid;
      if n < |ios| && ios[n].ReadTimeout? {
        TraceStep(s0, ios, n, Model(), EvalLength());
        FinalizeUpstream(Mapped(GATEWAY_TIMEOUT));
        return n + 1;
      }
      m := ProcessRedisResponse(s0, ios, n);
    }

    /** The reply has begun: parse what came with the header, then go on reading. */
    method ProcessResponse(ghost s0: Session, ios: seq<Io>, n: nat) returns (m: nat)
      requires Valid() && phase.Header? && n <= |ios|
      requires Trace(s0, ios, n, S.ProcessResponse(Model()), EvalLength())
      modifies this`pos, this`last, this`length, this`phase, this`headers, ctx, buf
      ensures phase.Body? ==> length != 0
      ensures Valid() && n <= m <= |ios| && Trace(s0, ios, m, Model(), EvalLength())
    {
      hide Trace, EvalLength, Valid, Feed;
      var k := BeginBody();
      if k > 0 {
        var o := Filter(k);
        if o.Failed? {
          FinalizeUpstream(Mapped(INTERNAL_ERROR));
          return n;
        }
        if length == 0 {
          FinalizeUpstream(Complete);
          return n;
        }
      } else {
        Rewind();
      }
      m := ReadBodyHandler(s0, ios, n);
    }

    /** Install the body handler; the bytes behind the `*` go through the filter from their own
        place in the buffer. */
    method BeginBody() returns (k: nat)
      requires Valid() && phase.Header?
      modifies this`last, this`length, this`phase
      ensures Valid() && phase.Body? && length != 0 && k == |old(Unread())| && last + k <= buf.Length
      ensures buf[last..last + k] == old(Unread())
      ensures Model() == old(Model()).(phase := Body, last := last, unread := [])
      ensures last + k == old(last)
    {
      hide Encoder.Command;
      k := last - pos;
      length, phase := -1, Body;
      last := pos;
    }

    /** Read until the header is complete, then go on with the reply; every failure has its status. */
    method ReadHeaderHandler(ghost s0: Session, ios: seq<Io>, n: nat) returns (m: nat)
      requires Valid() && phase.Header? && n < |ios| && Trace(s0, ios, n, Model(), EvalLength())
      requires !IsWrite(ios[n]) && !ios[n].WriteTimeout?
      modifies this, ctx, buf
      ensures Valid() && (request == old(request) || fresh(request)) && n < m <= |ios|
      ensures Trace(s0, ios, m, Model(), EvalLength())
      ensures phase.Body? ==> length != 0
    {
      hide Trace, EvalLength, Valid, OnData, Finalize;
      TraceStep(s0, ios, n, Model(), EvalLength());
      if ios[n].ReadTimeout? {
        FinalizeUpstream(Mapped(GATEWAY_TIMEOUT));
        return n + 1;
      }
      if ios[n].ConnectFailed? {
        FinalizeUpstream(Mapped(UNAVAILABLE));
        return n + 1;
      }
      m := n;
      while m < |ios|
        invariant Valid() && phase.Header? && n <= m <= |ios|
        invariant request == old(request) || fresh(request)
        invariant Trace(s0, ios, m, Model(), EvalLength())
        decreases |ios| - m
      {
        TraceStep(s0, ios, m, Model(), EvalLength());
        match ios[m] {
          case WouldBlock => return m + 1;
          case Eof =>
            FinalizeUpstream(Mapped(BAD_GATEWAY));
            return m + 1;
          case ReadError =>
            FinalizeUpstream(Mapped(BAD_GATEWAY));
            return m + 1;
          case Fault =>
            FinalizeUpstream(Mapped(INTERNAL_ERROR));
            return m + 1;
          case Data(bytes) =>
            var more;
            more, m := ReadHeader(s0, ios, m + 1, bytes);
            if !more {
              return;
            }
          case _ => return;
        }
      }
    }

    /** One read of header bytes, whose effect is the event just before position n. */
    method ReadHeader(ghost s0: Session, ios: seq<Io>, n: nat, bytes: seq<byte>) returns (more: bool, m: nat)
      requires Valid() && phase.Header? && n <= |ios| && Enabled(Model(), Data(bytes))
      requires Trace(s0, ios, n, OnData(Model(), bytes, EvalLength()), EvalLength())
      modifies this, ctx, buf
      ensures Valid() && (request == old(request) || fresh(request)) && n <= m <= |ios|
      ensures Trace(s0, ios, m, Model(), EvalLength())
      ensures if more then phase.Header? else phase.Body? ==> length != 0
    {
      hide Trace, EvalLength, Valid, OnData, Finalize, Model, S.ProcessResponse, Enabled;
      var result;
      result, m := TakeHeader(s0, ios, n, bytes);
      more := false;
      match result {
        case SendFailed(sending) =>
          TraceStep(s0, ios, m - 1, Model(), EvalLength());
          FinalizeUpstream(Mapped(if sending.Dropped? then BAD_GATEWAY else INTERNAL_ERROR));
        case Goes(rc) =>
          match rc {
            case HeaderAgain =>
              more := last != buf.Length;
              if !more {
                FinalizeUpstream(Mapped(INTERNAL_ERROR));
              }
            case HeaderOk => m := ProcessResponse(s0, ios, n);
            case _ => FinalizeUpstream(Mapped(INTERNAL_ERROR));
          }
      }
    }

    /** Receive header bytes and run the header step on what there is. */
    method TakeHeader(ghost s0: Session, ios: seq<Io>, n: nat, bytes: seq<byte>)
      returns (result: HeaderResult, m: nat)
      requires Valid() && phase.Header? && n <= |ios| && Enabled(Model(), Data(bytes))
      requires Trace(s0, ios, n, OnData(Model(), bytes, EvalLength()), EvalLength())
      modifies this, ctx, buf
      ensures Valid() && phase.Header? && (request == old(request) || fresh(request)) && n <= m <= |ios|
      ensures match result
              case SendFailed(sending) =>
                && n < m && Trace(s0, ios, m - 1, Model(), EvalLength())
                && Step(Model(), ios[m - 1], EvalLength())
                   == Finalize(Model(), Mapped(if sending.Dropped? then BAD_GATEWAY else INTERNAL_ERROR))
              case Goes(rc) =>
                match rc
                case HeaderAgain =>
                  if last != buf.Length then Trace(s0, ios, m, Model(), EvalLength())
                  else m == n && OnData(old(Model()), bytes, EvalLength()) == Finalize(Model(), Mapped(INTERNAL_ERROR))
                case HeaderOk => m == n && OnData(old(Model()), bytes, EvalLength()) == S.ProcessResponse(Model())
                case _ =>
                  m == n && OnData(old(Model()), bytes, EvalLength()) == Finalize(Model(), Mapped(INTERNAL_ERROR))
    {
      hide Trace, EvalLength, Valid, OnData, Finalize, S.ProcessResponse, S.ProcessHeader, Resent, Encoder.Command,
        Unread, AtRest;
      ReceiveHeader(bytes);
      HeaderFirst(old(Model()), Model(), bytes, EvalLength());
      result, m := ProcessHeader(s0, ios, n);
    }

    method ReceiveHeader(bytes: seq<byte>)
      requires Valid() && phase.Header? && last + |bytes| <= buf.Length
      modifies this`last, buf
      ensures Valid()
      ensures var s := old(Model());
              Model() == s.(last := s.last + |bytes|, unread := s.unread + bytes)
    {
      hide Encoder.Command;
      Receive(bytes);
      last := last + |bytes|;
      assert buf[pos..last] == buf[..last][pos..] == old(buf[..last])[pos..] + bytes;
    }

    /** The handlers, driven by whatever the sockets report. */
    method Serve(ios: seq<Io>)
      requires Valid() && !phase.Finalized? && (phase.Body? ==> length != 0)
      requires Possible(Model(), ios, EvalLength())
      modifies this, ctx, buf
      ensures Valid() && Model() == Run(old(Model()), ios, EvalLength())
    {
      hide EvalLength, Valid, Step, Enabled;
      ghost var s0 := Model();
      var n := 0;
      TraceBegins(s0, ios, EvalLength());
      while n < |ios| && !phase.Finalized?
        invariant Valid() && n <= |ios| && Trace(s0, ios, n, Model(), EvalLength())
        invariant request == old(request) || fresh(request)
        invariant phase.Body? ==> length != 0
        decreases |ios| - n
      {
        if phase.Body? {
          n := ReadBodyHandler(s0, ios, n);
        } else if IsWrite(ios[n]) || ios[n].WriteTimeout? {
          n := SendEvalHandler(s0, ios, n);
        } else {
          n := ReadHeaderHandler(s0, ios, n);
        }
      }
      TraceEnds(s0, ios, n, Model(), EvalLength());
    }
  }

  /** What the top of the read loop has still to do after a read: end the session, or go on with
      an empty buffer. */
  function Owed(s: Session, doWrite: bool, done: bool, closed: bool): Session {
    if !doWrite then s
    else if done then Finalize(s, Complete)
    else if closed then Finalize(s, Mapped(BAD_GATEWAY))
    else s.(last := 0)
  }

  /** What can happen once the reply has begun, and what becomes of it. */
  lemma BodyEvents(s: Session, io: Io, evalLength: nat)
    requires s.phase.Body? && Enabled(s, io)
    ensures match io
            case Data(bytes) =>
              s.last + |bytes| <= s.capacity && Step(s, io, evalLength) == AfterFeed(s, Feed(s.parser, bytes), 0)
            case WouldBlock => Step(s, io, evalLength) == s
            case Eof => Step(s, io, evalLength) == Finalize(s, Mapped(BAD_GATEWAY))
            case ReadError => Step(s, io, evalLength) == Finalize(s, Mapped(BAD_GATEWAY))
            case Fault => Step(s, io, evalLength) == Finalize(s, Mapped(INTERNAL_ERROR))
            case _ => io.ReadTimeout?
    ensures !io.ReadTimeout? && !io.Fault? ==> s.last < s.capacity
  {
    hide Finalize, AfterFeed, Feed;
  }

  lemma HeaderCases(s: Session, evalLength: nat)
    requires s.preludes == 0
    ensures S.ProcessHeader(s, evalLength)
            == if s.unread == [] then (HeaderAgain, s)
               else if s.unread[0] == STAR then
                 (HeaderOk, s.(unread := s.unread[1..], parser := s.parser.(status := HTTP_OK)))
               else if s.unread[0] != MINUS then (HeaderInvalid, s)
               else if LineEnd(s.unread).None? then (HeaderAgain, s)
               else if !s.fallback && IsNoScript(s.unread) then (HeaderAgain, Resent(s, evalLength))
               else (HeaderError, s)
    ensures Resent(s, evalLength).fallback
  {
    ConsumeNothing(s.unread);
    assert s.(preludes := 0, unread := s.unread) == s;
    hide Consume, LineEnd, IsNoScript;
  }

  /** The header step is over if the prelude is not complete; otherwise it does the same again once
      the prelude has been consumed. */
  lemma PreludeFirst(s: Session, t: Session, evalLength: nat)
    requires t == s.(preludes := t.preludes, unread := t.unread)
    ensures match Consume(s.preludes, s.unread)
            case Ready(u) =>
              t.unread == u && t.preludes == 0 ==> S.ProcessHeader(t, evalLength) == S.ProcessHeader(s, evalLength)
            case Partial(m, u) =>
              t.unread == u && t.preludes == m ==> S.ProcessHeader(s, evalLength) == (HeaderAgain, t)
            case Rejected(m, u) =>
              t.unread == u && t.preludes == m ==> S.ProcessHeader(s, evalLength) == (HeaderError, t)
  {
    ConsumeNothing(t.unread);
    hide Consume, LineEnd, IsNoScript;
  }

  /** The header step comes first in what a read of header bytes does; if it falls back to EVAL it
      is all of it. */
  lemma HeaderFirst(s: Session, r: Session, bytes: seq<byte>, evalLength: nat)
    requires s.phase.Header? && r == s.(last := s.last + |bytes|, unread := s.unread + bytes)
    requires Enabled(s, Data(bytes))
    ensures var (rc, t) := S.ProcessHeader(r, evalLength);
            && t.phase.Header?
            && (t.fallback != r.fallback ==> rc == HeaderAgain && t.last < t.capacity)
            && OnData(s, bytes, evalLength)
               == match rc
                  case HeaderAgain => if t.last == t.capacity then Finalize(t, Mapped(INTERNAL_ERROR)) else t
                  case HeaderOk => S.ProcessResponse(t)
                  case _ => Finalize(t, Mapped(INTERNAL_ERROR))
  {
    hide Consume, LineEnd, IsNoScript, Finalize, S.ProcessResponse;
  }

  lemma TraceEnds(s0: Session, ios: seq<Io>, n: nat, cur: Session, evalLength: nat)
    requires Trace(s0, ios, n, cur, evalLength) && (n == |ios| || cur.phase.Finalized?)
    requires Possible(s0, ios, evalLength)
    ensures cur == Run(s0, ios, evalLength)
  {
    hide Step, Enabled;
    assert ios == ios[..n] + ios[n..];
    RunAppends(s0, ios[..n], ios[n..], evalLength);
    if n < |ios| {
      StaysFinalized(cur, ios[n..], evalLength);
    }
  }
}
