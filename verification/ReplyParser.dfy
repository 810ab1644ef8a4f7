/** The resumable parser of the five-integer reply (RESP2, sections "Arrays" and "Integers");
    the leading `*` has been consumed before it starts. */
module ReplyParser {
  import opened Foundation
  import opened Bytes

  const MAX_INT := 0x7FFF_FFFF_FFFF_FFFF
  const HTTP_OK := 200
  const HTTP_TOO_MANY := 429

  datatype Place =
    | Start | Crlf1 | Arg1 | Crlf2 | Arg2 | Lf1 | Arg3 | Lf2 | Arg4 | Allowed | Lf3 | Arg5 | AlmostDone

  /** What survives between two reads: the state, the numbers read so far, the status they imply
      and whether the reply has been read to its end. */
  datatype Parser = Parser(place: Place, status: int, limit: nat, remaining: nat, retryAfter: int,
                           reset: nat, parsed: bool)

  /** As set up before a reply is read; the status is set when `*` is seen. */
  const FRESH := Parser(Start, HTTP_OK, 0, 0, -1, 0, false)

  /** One more decimal digit, unless the number would exceed MAX_INT. */
  function AccumDigit(v: nat, b: byte): Option<nat>
    requires IsDigit(b)
  {
    var d := b - ZERO;
    if v > (MAX_INT - d) / 10 then None else Some(v * 10 + d)
  }

  /** The effect of one byte. */
  datatype Move = Stop(p: Parser) | Go(p: Parser) | Finish(p: Parser)

  /** The places at which a number is read. */
  predicate IsNumber(place: Place) {
    place == Arg2 || place == Arg3 || place == Arg4 || place == Arg5
  }

  /** The number being read: what it has come to so far. */
  function Field(p: Parser): int
    requires IsNumber(p.place)
  {
    match p.place
    case Arg2 => p.limit
    case Arg3 => p.remaining
    case Arg4 => p.retryAfter
    case Arg5 => p.reset
  }

  function WithField(p: Parser, v: nat): Parser
    requires IsNumber(p.place)
  {
    match p.place
    case Arg2 => p.(limit := v)
    case Arg3 => p.(remaining := v)
    case Arg4 => p.(retryAfter := v)
    case Arg5 => p.(reset := v)
  }

  /** Where a CR leads from a number. */
  function EndOf(place: Place): Place
    requires IsNumber(place)
  {
    match place
    case Arg2 => Lf1
    case Arg3 => Lf2
    case Arg4 => Lf3
    case Arg5 => AlmostDone
  }

  /** A byte of a number: a colon is skipped, CR ends the number, a digit counts. */
  function NumberByte(p: Parser, b: byte): Move
    requires IsNumber(p.place)
  {
    if b == COLON then Go(p)
    else if b == CR then Go(p.(place := EndOf(p.place)))
    else if !IsDigit(b) then Stop(p)
    else
      var v := AccumDigit(AtLeast(0, Field(p)), b);
      if v.None? then Stop(p) else Go(WithField(p, v.value))
  }

  function Next(p: Parser, b: byte): Move {
    match p.place
    case Start => if b == FIVE then Go(p.(place := Crlf1)) else Stop(p)
    case Crlf1 => if b == CR then Go(p) else if b == LF then Go(p.(place := Arg1)) else Stop(p)
    case Arg1 =>
      if b == COLON then Go(p)
      else if b == ZERO then Go(p.(status := HTTP_OK, place := Crlf2))
      else if b == ONE then Go(p.(status := HTTP_TOO_MANY, place := Crlf2))
      else Stop(p)
    case Crlf2 => if b == CR then Go(p) else if b == LF then Go(p.(place := Arg2)) else Stop(p)
    case Arg2 => NumberByte(p, b)
    case Lf1 => if b == LF then Go(p.(place := Arg3)) else Stop(p)
    case Arg3 => NumberByte(p, b)
    case Lf2 => if b == LF then Go(p.(place := Arg4)) else Stop(p)
    case Arg4 =>
      if b == MINUS then Go(p.(place := Allowed))
      else NumberByte(p, b)
    case Allowed =>
      if b == ONE then Go(p.(retryAfter := -1))
      else if b == CR then Go(p.(place := Lf3)) else Stop(p)
    case Lf3 => if b == LF then Go(p.(place := Arg5)) else Stop(p)
    case Arg5 => NumberByte(p, b)
    case AlmostDone => if b == LF then Finish(p.(parsed := true)) else Stop(p)
  }

  /** The outcome of a read: a contract error, more to come, or done after some of the bytes. */
  datatype Outcome = Failed(p: Parser) | Again(p: Parser) | Done(p: Parser, used: nat)

  function Later(o: Outcome, n: nat): Outcome {
    if o.Done? then Done(o.p, o.used + n) else o
  }

  function Feed(p: Parser, s: seq<byte>): (o: Outcome)
    ensures o.Done? ==> 1 <= o.used <= |s| && o.p.parsed && o.p.place == AlmostDone
    decreases |s|
  {
    if s == [] then Again(p)
    else
      match Next(p, s[0])
      case Stop(q) => Failed(q)
      case Finish(q) => Done(q, 1)
      case Go(q) => Later(Feed(q, s[1..]), 1)
  }

  /** The context fields of a request that the parser works on. */
  class Context {
    var state: Place
    var status: int
    var limit: nat
    var remaining: nat
    var retryAfter: int
    var reset: nat
    var replyParsed: bool

    constructor ()
      ensures Model() == FRESH.(status := 0)
    {
      state, status := Start, 0;
      limit, remaining, retryAfter, reset := 0, 0, -1, 0;
      replyParsed := false;
    }

    function Model(): Parser
      reads this
    {
      Parser(state, status, limit, remaining, retryAfter, reset, replyParsed)
    }

    /** The byte loop over buf[from..to]. The place is saved only when more is to come. */
    method ProcessReply(buf: array<byte>, from: nat, to: nat) returns (o: Outcome)
      requires from <= to <= buf.Length
      modifies this
      ensures o == Feed(old(Model()), buf[from..to])
      ensures Model() == if o.Again? then o.p else o.p.(place := old(state))
    {
      hide Next;
      var place, p := state, from;
      while p < to
        invariant from <= p <= to
        invariant state == old(state)
        invariant Feed(old(Model()), buf[from..to])
                  == Later(Feed(Model().(place := place), buf[p..to]), p - from)
      {
        var ch := buf[p];
        assert buf[p..to][0] == ch && buf[p..to][1..] == buf[p + 1..to];
        var move := Byte(place, ch);
        if move.Stop? {
          return Failed(move.p);
        }
        if move.Finish? {
          replyParsed := true;
          return Done(move.p, p + 1 - from);
        }
        place := move.p.place;
        p := p + 1;
      }
      state := place;
      return Again(Model());
    }

    /** The switch: what one byte does to the fields, and where it leads. */
    method Byte(place: Place, ch: byte) returns (move: Move)
      modifies this
      ensures move == Next(old(Model()).(place := place), ch)
      ensures Model() == if move.Finish? then old(Model()) else move.p.(place := old(state))
      ensures move.Finish? ==> move.p == old(Model()).(place := place, parsed := true)
    {
      var here := place;
      match place {
        case Start =>
          if ch != FIVE { return Stop(Model().(place := here)); }
          here := Crlf1;
        case Crlf1 =>
          if ch == LF { here := Arg1; } else if ch != CR { return Stop(Model().(place := here)); }
        case Arg1 =>
          if ch == ZERO {
            status, here := HTTP_OK, Crlf2;
          } else if ch == ONE {
            status, here := HTTP_TOO_MANY, Crlf2;
          } else if ch != COLON {
            return Stop(Model().(place := here));
          }
        case Crlf2 =>
          if ch == LF { here := Arg2; } else if ch != CR { return Stop(Model().(place := here)); }
        case Arg2 =>
          if ch == CR {
            here := Lf1;
          } else if ch != COLON {
            if !IsDigit(ch) || AccumDigit(limit, ch).None? { return Stop(Model().(place := here)); }
            limit := AccumDigit(limit, ch).value;
          }
        case Lf1 =>
          if ch != LF { return Stop(Model().(place := here)); }
          here := Arg3;
        case Arg3 =>
          if ch == CR {
            here := Lf2;
          } else if ch != COLON {
            if !IsDigit(ch) || AccumDigit(remaining, ch).None? { return Stop(Model().(place := here)); }
            remaining := AccumDigit(remaining, ch).value;
          }
        case Lf2 =>
          if ch != LF { return Stop(Model().(place := here)); }
          here := Arg4;
        case Arg4 =>
          if ch == MINUS {
            here := Allowed;
          } else if ch == CR {
            here := Lf3;
          } else if ch != COLON {
            if !IsDigit(ch) || AccumDigit(AtLeast(0, retryAfter), ch).None? {
              return Stop(Model().(place := here));
            }
            retryAfter := AccumDigit(AtLeast(0, retryAfter), ch).value;
          }
        case Allowed =>
          if ch == ONE {
            retryAfter := -1;
          } else if ch == CR {
            here := Lf3;
          } else {
            return Stop(Model().(place := here));
          }
        case Lf3 =>
          if ch != LF { return Stop(Model().(place := here)); }
          here := Arg5;
        case Arg5 =>
          if ch == CR {
            here := AlmostDone;
          } else if ch != COLON {
            if !IsDigit(ch) || AccumDigit(reset, ch).None? { return Stop(Model().(place := here)); }
            reset := AccumDigit(reset, ch).value;
          }
        case AlmostDone =>
          if ch != LF { return Stop(Model().(place := here)); }
          return Finish(Model().(place := here, parsed := true));
      }
      return Go(Model().(place := here));
    }
  }

  /** Splitting the bytes anywhere, with only the parser kept in between, changes nothing. */
  lemma {:induction false} Resumable(p: Parser, a: seq<byte>, b: seq<byte>)
    ensures Feed(p, a + b) == if Feed(p, a).Again? then Later(Feed(Feed(p, a).p, b), |a|) else Feed(p, a)
    decreases |a|
  {
    hide Next;
    if a == [] {
      assert a + b == b;
    } else {
      assert (a + b)[1..] == a[1..] + b;
      var move := Next(p, a[0]);
      if move.Go? {
        Resumable(move.p, a[1..], b);
      }
    }
  }

  /** The parsed flag is only ever set by a reply read to its end. */
  lemma {:induction false} ParsedOnlyAtEnd(p: Parser, s: seq<byte>)
    ensures !Feed(p, s).Done? ==> Feed(p, s).p.parsed == p.parsed
    decreases |s|
  {
    if s != [] {
      var move := Next(p, s[0]);
      if move.Go? {
        ParsedOnlyAtEnd(move.p, s[1..]);
      }
    }
  }

  /** No proper prefix of what completes a reply completes it. */
  lemma NoEarlyEnd(p: Parser, s: seq<byte>, k: nat)
    requires Feed(p, s).Done? && Feed(p, s).used == |s| && k < |s|
    ensures Feed(p, s[..k]).Again?
  {
    assert s[..k] + s[k..] == s;
    Resumable(p, s[..k], s[k..]);
  }

  /** Accumulating digits of any number: the exact value, or an error if and only if it exceeds
      MAX_INT. */
  function Accum(v: nat, ds: seq<byte>): Option<nat>
    requires AllDigits(ds)
    decreases |ds|
  {
    if ds == [] then Some(v)
    else if AccumDigit(v, ds[0]).None? then None
    else Accum(AccumDigit(v, ds[0]).value, ds[1..])
  }

  lemma {:induction false} AccumIsExact(v: nat, ds: seq<byte>)
    requires AllDigits(ds) && v <= MAX_INT
    ensures Accum(v, ds) == if Value(v, ds) <= MAX_INT then Some(Value(v, ds)) else None
    decreases |ds|
  {
    if ds != [] {
      var n := v * 10 + (ds[0] - ZERO);
      if n <= MAX_INT {
        AccumIsExact(n, ds[1..]);
      } else {
        ValueGrows(n, ds[1..]);
      }
    }
  }

  function Behind(place: Place): Place
    requires IsNumber(place)
  {
    match place
    case Arg2 => Arg3
    case Arg3 => Arg4
    case Arg4 => Arg5
    case Arg5 => AlmostDone
  }

  lemma NextDigit(p: Parser, b: byte)
    requires IsNumber(p.place) && IsDigit(b)
    ensures var v := AccumDigit(AtLeast(0, Field(p)), b);
            Next(p, b) == if v.None? then Stop(p) else Go(WithField(p, v.value))
  {
  }

  /** A run of digits of any length reads as its decimal value, in every number field and for the
      signed retry_after that starts at -1, and fails if and only if the value exceeds MAX_INT. */
  lemma {:induction false} NumbersAreExact(p: Parser, ds: seq<byte>)
    requires IsNumber(p.place) && AllDigits(ds) && ds != [] && Field(p) <= MAX_INT
    ensures var n := Value(AtLeast(0, Field(p)), ds);
            if n <= MAX_INT then Feed(p, ds) == Again(WithField(p, n)) else Feed(p, ds).Failed?
    decreases |ds|
  {
    hide Next;
    var n := AtLeast(0, Field(p)) * 10 + (ds[0] - ZERO);
    NextDigit(p, ds[0]);
    if n > MAX_INT {
      ValueGrows(n, ds[1..]);
    } else if |ds| == 1 {
      assert ds[1..] == [];
    } else {
      NumbersAreExact(WithField(p, n), ds[1..]);
    }
  }

  /** An integer as Redis prints it. */
  function Integer(n: int): seq<byte> {
    [COLON] + (if n < 0 then [MINUS] + Digits(-n) else Digits(n)) + CRLF
  }

  /** A reply on the wire, behind its `*`. */
  function Wire(r: Reply): seq<byte> {
    [FIVE] + CRLF + Integer(r.status) + Integer(r.limit) + Integer(r.remaining)
    + Integer(r.retryAfter) + Integer(r.reset)
  }

  /** A reply as the protocol writes it. */
  lemma OnTheWire()
    ensures [STAR] + Wire(Reply(1, 10, 0, -1, 7))
            == Text("*5\r\n") + Text(":1\r\n") + Text(":10\r\n") + Text(":0\r\n") + Text(":-1\r\n") + Text(":7\r\n")
  {
    hide Integer, Text;
    ShortLines();
    LongerLines();
  }

  lemma ShortLines()
    ensures Integer(1) == Text(":1\r\n") && Integer(0) == Text(":0\r\n") && Integer(7) == Text(":7\r\n")
    ensures [STAR] + ([FIVE] + CRLF) == Text("*5\r\n")
  {
  }

  lemma LongerLines()
    ensures Integer(10) == Text(":10\r\n") && Integer(-1) == Text(":-1\r\n")
  {
    assert Digits(10) == Digits(1) + [ZERO];
  }

  /** The five numbers fit the parser's integers. */
  predicate Fits(r: Reply) {
    r.limit <= MAX_INT && r.remaining <= MAX_INT && r.retryAfter <= MAX_INT && r.reset <= MAX_INT
  }

  function Verdict(r: Reply): int {
    if r.status == 0 then HTTP_OK else HTTP_TOO_MANY
  }

  lemma FeedSteps(p: Parser, s: seq<byte>, q: Parser, t: seq<byte>)
    requires Feed(p, s) == Again(q)
    ensures Feed(p, s + t) == Later(Feed(q, t), |s|)
  {
    Resumable(p, s, t);
  }

  lemma ReadsInteger(p: Parser, n: nat)
    requires IsNumber(p.place) && n <= MAX_INT && (Field(p) == 0 || Field(p) == -1)
    ensures p.place != Arg5 ==> Feed(p, Integer(n)) == Again(WithField(p, n).(place := Behind(p.place)))
    ensures p.place == Arg5 ==>
              Feed(p, Integer(n)) == Done(WithField(p, n).(place := AlmostDone, parsed := true), |Integer(n)|)
  {
    var q := WithField(p, n);
    ValueOfDigits(n);
    NumbersAreExact(p, Digits(n));
    assert Feed(p, [COLON]) == Again(p) by {
      assert [COLON][1..] == [];
    }
    FeedSteps(p, [COLON], p, Digits(n));
    ReadsEnd(q);
    Resumable(p, [COLON] + Digits(n), CRLF);
  }

  lemma ReadsEnd(q: Parser)
    requires IsNumber(q.place)
    ensures q.place != Arg5 ==> Feed(q, CRLF) == Again(q.(place := Behind(q.place)))
    ensures q.place == Arg5 ==> Feed(q, CRLF) == Done(q.(place := AlmostDone, parsed := true), 2)
  {
    assert CRLF[1..] == [LF] && [LF][1..] == [];
    var m := Next(q, CR).p;
    assert Next(q, CR) == Go(m);
    assert Feed(m, [LF]) == if q.place == Arg5 then Done(Next(m, LF).p, 1) else Again(Next(m, LF).p);
  }

  lemma ReadsAllowed(p: Parser)
    requires p.place == Arg4 && p.retryAfter == -1
    ensures Feed(p, Integer(-1)) == Again(p.(place := Arg5))
  {
    hide Feed, Digits, Integer;
    var q, s := p.(place := Allowed), [COLON, MINUS, ONE, CR, LF];
    MinusOne();
    assert Feed(q, [ONE, CR, LF]) == Again(p.(place := Arg5)) by {
      assert [ONE, CR, LF][1..] == [CR, LF] && [CR, LF][1..] == [LF];
      FeedOne(q.(place := Lf3), [LF], p.(place := Arg5));
      FeedOne(q, [CR, LF], q.(place := Lf3));
      FeedOne(q, [ONE, CR, LF], q);
    }
    assert s[1..] == [MINUS, ONE, CR, LF] && [MINUS, ONE, CR, LF][1..] == [ONE, CR, LF];
    FeedOne(p, s[1..], q);
    FeedOne(p, s, p);
  }

  lemma MinusOne()
    ensures Integer(-1) == [COLON, MINUS, ONE, CR, LF]
  {
    assert Digits(1) == [ONE];
  }

  lemma FeedOne(p: Parser, s: seq<byte>, q: Parser)
    requires s != [] && Next(p, s[0]) == Go(q)
    ensures Feed(p, s) == if |s| == 1 then Again(q) else Later(Feed(q, s[1..]), 1)
  {
    hide Next;
  }

  lemma ReadsHead(p: Parser, status: int)
    requires p.place == Start && status in {0, 1}
    ensures Feed(p, [FIVE] + CRLF + Integer(status))
            == Again(p.(place := Arg2, status := if status == 0 then HTTP_OK else HTTP_TOO_MANY))
  {
    var q := p.(place := Arg1);
    assert Feed(p, [FIVE, CR, LF]) == Again(q) by {
      assert [FIVE, CR, LF][1..] == [CR, LF] && [CR, LF][1..] == [LF] && [LF][1..] == [];
      assert Feed(p.(place := Crlf1), [LF]) == Again(q);
      assert Feed(p.(place := Crlf1), [CR, LF]) == Again(q);
    }
    ReadsStatus(q, status);
    FeedSteps(p, [FIVE, CR, LF], q, Integer(status));
    assert [FIVE] + CRLF == [FIVE, CR, LF];
  }

  lemma ReadsStatus(p: Parser, status: int)
    requires p.place == Arg1 && status in {0, 1}
    ensures Feed(p, Integer(status))
            == Again(p.(place := Arg2, status := if status == 0 then HTTP_OK else HTTP_TOO_MANY))
  {
    var d: byte := ZERO + status;
    var q := p.(place := Crlf2, status := if status == 0 then HTTP_OK else HTTP_TOO_MANY);
    assert Integer(status) == [COLON, d, CR, LF];
    assert [COLON, d, CR, LF][1..] == [d, CR, LF] && [d, CR, LF][1..] == [CR, LF];
    assert [CR, LF][1..] == [LF] && [LF][1..] == [];
    assert Feed(q, [LF]) == Again(q.(place := Arg2));
    assert Feed(q, [CR, LF]) == Again(q.(place := Arg2));
    assert Feed(p, [d, CR, LF]) == Again(q.(place := Arg2));
  }

  /** What a reply that meets its contract leaves in the parser. */
  function Read(r: Reply): Parser
    requires Contract(r)
  {
    Parser(AlmostDone, Verdict(r), r.limit, r.remaining, r.retryAfter, r.reset, true)
  }

  /** Printed and parsed again, a reply gives back its five numbers, and is consumed whole. */
  lemma RoundTrip(r: Reply)
    requires Contract(r) && Fits(r)
    ensures Feed(FRESH, Wire(r)) == Done(Read(r), |Wire(r)|)
  {
    hide Next, Feed, Integer, WithField;
    var s1 := [FIVE] + CRLF + Integer(r.status);
    var s2 := s1 + Integer(r.limit);
    var s3 := s2 + Integer(r.remaining);
    var s4 := s3 + Integer(r.retryAfter);
    var p1 := FRESH.(place := Arg2, status := Verdict(r));
    var p2 := p1.(limit := r.limit, place := Arg3);
    var p3 := p2.(remaining := r.remaining, place := Arg4);
    var p4 := p3.(retryAfter := r.retryAfter, place := Arg5);
    ReadsHead(FRESH, r.status);
    ReadsField(p1, r.limit);
    FeedSteps(FRESH, s1, p1, Integer(r.limit));
    ReadsField(p2, r.remaining);
    FeedSteps(FRESH, s2, p2, Integer(r.remaining));
    if r.retryAfter == -1 {
      ReadsAllowed(p3);
    } else {
      ReadsField(p3, r.retryAfter);
    }
    FeedSteps(FRESH, s3, p3, Integer(r.retryAfter));
    ReadsField(p4, r.reset);
    FeedSteps(FRESH, s4, p4, Integer(r.reset));
  }

  lemma ReadsField(p: Parser, n: nat)
    requires IsNumber(p.place) && n <= MAX_INT && (Field(p) == 0 || Field(p) == -1)
    ensures p.place == Arg2 ==> Feed(p, Integer(n)) == Again(p.(limit := n, place := Arg3))
    ensures p.place == Arg3 ==> Feed(p, Integer(n)) == Again(p.(remaining := n, place := Arg4))
    ensures p.place == Arg4 ==> Feed(p, Integer(n)) == Again(p.(retryAfter := n, place := Arg5))
    ensures p.place == Arg5 ==>
              Feed(p, Integer(n)) == Done(p.(reset := n, place := AlmostDone, parsed := true), |Integer(n)|)
  {
    hide Feed, Integer;
    ReadsInteger(p, n);
  }

  lemma ReadsFive()
    ensures Feed(FRESH, [FIVE, CR, LF]) == Again(FRESH.(place := Arg1))
  {
    assert [FIVE, CR, LF][1..] == [CR, LF] && [CR, LF][1..] == [LF] && [LF][1..] == [];
    var p := FRESH.(place := Crlf1);
    assert Feed(p, [LF]) == Again(FRESH.(place := Arg1));
    assert Feed(p, [CR, LF]) == Again(FRESH.(place := Arg1));
  }

  lemma OtherStatusFails(p: Parser, n: int, rest: seq<byte>)
    requires p.place == Arg1 && n != 0 && n != 1
    ensures Feed(p, Integer(n) + rest).Failed?
  {
    var s := Integer(n) + rest;
    var b, s2 := s[1..][0], s[1..][1..];
    assert s[0] == COLON && Next(p, s[0]) == Go(p);
    assert n >= 0 ==> b == Digits(n)[0];
    assert n >= 10 ==> s2[0] == Digits(n)[1] && IsDigit(s2[0]);
    if Next(p, b).Go? {
      assert Feed(Next(p, b).p, s2).Failed?;
    }
  }

  lemma NegativeFails(p: Parser, n: int, rest: seq<byte>)
    requires IsNumber(p.place) && p.place != Arg4 && n < 0
    ensures Feed(p, Integer(n) + rest).Failed?
  {
    var s := Integer(n) + rest;
    assert s[0] == COLON && s[1..][0] == MINUS;
  }
}
