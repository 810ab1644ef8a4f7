/** Exactly which replies the parser reads to the end: more than RESP2 allows. */
module ReplyGrammar {
  import opened Foundation
  import opened Bytes
  import opened ReplyParser

  /** A reply text, part by part. The number parts mix digits and colons; `ones` counts the ones
      behind a minus sign, if there is one. */
  datatype Text = Text(crs1: nat, colons: nat, limited: bool, crs2: nat, limit: seq<byte>, remaining: seq<byte>,
                       retry: seq<byte>, ones: Option<nat>, reset: seq<byte>)

  function Repeat(b: byte, n: nat): seq<byte> {
    if n == 0 then [] else [b] + Repeat(b, n - 1)
  }

  /** The digits of a number part. */
  function Bare(s: seq<byte>): seq<byte> {
    if s == [] then [] else (if s[0] == COLON then [] else [s[0]]) + Bare(s[1..])
  }

  predicate IsNumberText(s: seq<byte>) {
    AllDigits(Bare(s)) && Value(0, Bare(s)) <= MAX_INT
  }

  predicate IsText(t: Text) {
    IsNumberText(t.limit) && IsNumberText(t.remaining) && IsNumberText(t.retry) && IsNumberText(t.reset)
  }

  function Sign(ones: Option<nat>): seq<byte> {
    if ones.None? then [] else [MINUS] + Repeat(ONE, ones.value)
  }

  function ResetText(t: Text): seq<byte> { t.reset + CRLF }

  function RetryText(t: Text): seq<byte> { t.retry + Sign(t.ones) + CRLF + ResetText(t) }

  function RemainingText(t: Text): seq<byte> { t.remaining + CRLF + RetryText(t) }

  function LimitText(t: Text): seq<byte> { t.limit + CRLF + RemainingText(t) }

  function StatusText(t: Text): seq<byte> {
    Repeat(COLON, t.colons) + [if t.limited then ONE else ZERO] + Repeat(CR, t.crs2) + [LF] + LimitText(t)
  }

  function Print(t: Text): seq<byte> {
    [FIVE] + Repeat(CR, t.crs1) + [LF] + StatusText(t)
  }

  /** A number that starts from v; one without digits stays v. */
  function Number(v: int, s: seq<byte>): int
    requires AllDigits(Bare(s))
  {
    if Bare(s) == [] then v else Value(AtLeast(0, v), Bare(s))
  }

  /** What the parser makes of a text. A single one behind a minus sign is enough for -1. */
  function Meaning(t: Text): Parser
    requires IsText(t)
  {
    var retry := Number(-1, t.retry);
    Parser(AlmostDone, if t.limited then HTTP_TOO_MANY else HTTP_OK, Number(0, t.limit), Number(0, t.remaining),
           if t.ones.Some? && t.ones.value > 0 then -1 else retry, Number(0, t.reset), true)
  }

  /** The parser reads just s, all of it, and ends as q. */
  predicate Completes(p: Parser, s: seq<byte>, q: Parser) {
    Feed(p, s) == Done(q, |s|)
  }

  /** One byte of a text that completes, in both directions. */
  lemma OneByte(p: Parser, b: byte, s: seq<byte>, q: Parser)
    requires p.place != AlmostDone
    ensures Completes(p, [b] + s, q) <==> Next(p, b).Go? && Completes(Next(p, b).p, s, q)
  {
    assert ([b] + s)[1..] == s;
  }

  // ---- every text is read ----

  lemma {:induction false} RepeatPart(p: Parser, b: byte, n: nat, rest: seq<byte>, q: Parser)
    requires Next(p, b) == Go(p) && p.place != AlmostDone
    ensures Completes(p, Repeat(b, n) + rest, q) <==> Completes(p, rest, q)
  {
    hide Completes, Next;
    if n == 0 {
      assert Repeat(b, n) + rest == rest;
    } else {
      assert Repeat(b, n) + rest == [b] + (Repeat(b, n - 1) + rest);
      OneByte(p, b, Repeat(b, n - 1) + rest, q);
      RepeatPart(p, b, n - 1, rest, q);
    }
  }

  /** A parser behind a number part. */
  function WithNumber(p: Parser, d: seq<byte>): Parser
    requires IsNumber(p.place) && AllDigits(Bare(d))
  {
    if Bare(d) == [] then p else WithField(p, Number(Field(p), d))
  }

  /** The number part may go on from what has been read of it. */
  predicate Continues(p: Parser, d: seq<byte>) {
    IsNumber(p.place) && Field(p) <= MAX_INT && AllDigits(Bare(d)) && Number(Field(p), d) <= MAX_INT
  }

  lemma ContinueOne(p: Parser, b: byte, d: seq<byte>)
    requires IsNumber(p.place) && (b == COLON || IsDigit(b)) && Field(p) <= MAX_INT
    ensures Bare([b] + d) == (if b == COLON then [] else [b]) + Bare(d)
    ensures Continues(p, [b] + d) <==> Next(p, b).Go? && Continues(Next(p, b).p, d)
    ensures Continues(p, [b] + d) ==> WithNumber(p, [b] + d) == WithNumber(Next(p, b).p, d)
  {
    hide Next, Value, AllDigits, Continues, WithNumber;
    assert ([b] + d)[1..] == d && [] + Bare(d) == Bare(d);
    if b == COLON {
      ColonIsSkipped(p);
      SameBare(p, [b] + d, d);
    } else {
      ContinueDigit(p, b, d);
    }
  }

  lemma SameBare(p: Parser, d: seq<byte>, e: seq<byte>)
    requires IsNumber(p.place) && Bare(d) == Bare(e)
    ensures Continues(p, d) <==> Continues(p, e)
    ensures Continues(p, d) ==> WithNumber(p, d) == WithNumber(p, e)
  {
    hide Next, Value, AllDigits;
  }

  lemma ContinueDigit(p: Parser, b: byte, d: seq<byte>)
    requires IsNumber(p.place) && IsDigit(b) && Field(p) <= MAX_INT && Bare([b] + d) == [b] + Bare(d)
    ensures Continues(p, [b] + d) <==> Next(p, b).Go? && Continues(Next(p, b).p, d)
    ensures Continues(p, [b] + d) ==> WithNumber(p, [b] + d) == WithNumber(Next(p, b).p, d)
  {
    hide Next, Value, AllDigits;
    NextDigit(p, b);
    DigitFirst(AtLeast(0, Field(p)), b, Bare(d));
  }

  lemma ColonIsSkipped(p: Parser)
    requires IsNumber(p.place)
    ensures Next(p, COLON) == Go(p)
  {
  }

  lemma DigitFirst(v: nat, b: byte, ds: seq<byte>)
    requires IsDigit(b)
    ensures AllDigits([b] + ds) <==> AllDigits(ds)
    ensures AllDigits(ds) ==> Value(v, [b] + ds) == Value(v * 10 + (b - ZERO), ds) >= v * 10 + (b - ZERO)
    ensures ds == [] ==> Value(v * 10 + (b - ZERO), ds) == v * 10 + (b - ZERO)
  {
    assert ([b] + ds)[1..] == ds;
    assert forall i :: 0 <= i < |ds| ==> ([b] + ds)[i + 1] == ds[i];
    if AllDigits(ds) {
      ValueGrows(v * 10 + (b - ZERO), ds);
    }
  }

  lemma {:induction false} NumberPart(p: Parser, d: seq<byte>, rest: seq<byte>, q: Parser)
    requires Continues(p, d)
    ensures Completes(p, d + rest, q) <==> Completes(WithNumber(p, d), rest, q)
    decreases |d|
  {
    hide Completes, Next, WithField;
    if d == [] {
      assert d + rest == rest;
    } else {
      var b, d2 := d[0], d[1..];
      assert d == [b] + d2 && d + rest == [b] + (d2 + rest);
      BareIsDigits(d);
      hide Continues, WithNumber;
      ContinueOne(p, b, d2);
      OneByte(p, b, d2 + rest, q);
      NumberPart(Next(p, b).p, d2, rest, q);
    }
  }

  lemma BareIsDigits(d: seq<byte>)
    requires d != [] && AllDigits(Bare(d))
    ensures d[0] == COLON || IsDigit(d[0])
  {
    if d[0] != COLON {
      assert Bare(d)[0] == d[0];
    }
  }

  lemma OnesPart(p: Parser, ones: Option<nat>, rest: seq<byte>, q: Parser)
    requires p.place == Arg4
    ensures var r := if ones.Some? && ones.value > 0 then p.(retryAfter := -1) else p;
            Completes(p, Sign(ones) + (CRLF + rest), q) <==> Completes(r.(place := Arg5), rest, q)
  {
    hide Completes;
    var tail := CRLF + rest;
    if ones.Some? {
      var n, p1 := ones.value, p.(place := Allowed);
      var r := if n > 0 then p1.(retryAfter := -1) else p1;
      assert Sign(ones) + tail == [MINUS] + (Repeat(ONE, n) + tail);
      OneByte(p, MINUS, Repeat(ONE, n) + tail, q);
      if n > 0 {
        assert Repeat(ONE, n) + tail == [ONE] + (Repeat(ONE, n - 1) + tail);
        OneByte(p1, ONE, Repeat(ONE, n - 1) + tail, q);
        RepeatPart(r, ONE, n - 1, tail, q);
      } else {
        assert Repeat(ONE, n) + tail == tail;
      }
      LineBreak(r, rest, q);
    } else {
      assert Sign(ones) + tail == tail;
      LineBreak(p, rest, q);
    }
  }

  /** Where a CR leads from a number or from behind a sign. */
  function AtCr(place: Place): Place
    requires IsNumber(place) || place == Allowed
  {
    if place == Allowed then Arg5 else Behind(place)
  }

  lemma LineBreak(p: Parser, rest: seq<byte>, q: Parser)
    requires IsNumber(p.place) || p.place == Allowed
    ensures p.place != Arg5 ==> (Completes(p, CRLF + rest, q) <==> Completes(p.(place := AtCr(p.place)), rest, q))
    ensures p.place == Arg5 ==>
              (Completes(p, CRLF + rest, q) <==> rest == [] && q == p.(place := AlmostDone, parsed := true))
  {
    assert CRLF + rest == [CR] + ([LF] + rest);
    OneByte(p, CR, [LF] + rest, q);
    var m := Next(p, CR).p;
    if p.place == Arg5 {
      assert Feed(m, [LF] + rest) == Done(m.(parsed := true), 1);
    } else {
      OneByte(m, LF, rest, q);
    }
  }

  lemma HeadPart(crs: nat, rest: seq<byte>, q: Parser)
    ensures Completes(FRESH, [FIVE] + Repeat(CR, crs) + [LF] + rest, q) <==> Completes(FRESH.(place := Arg1), rest, q)
  {
    hide Completes;
    var tail := [LF] + rest;
    assert [FIVE] + Repeat(CR, crs) + [LF] + rest == [FIVE] + (Repeat(CR, crs) + tail);
    OneByte(FRESH, FIVE, Repeat(CR, crs) + tail, q);
    RepeatPart(FRESH.(place := Crlf1), CR, crs, tail, q);
    OneByte(FRESH.(place := Crlf1), LF, rest, q);
  }

  lemma StatusPart(colons: nat, limited: bool, crs: nat, rest: seq<byte>, q: Parser)
    ensures var s := Repeat(COLON, colons) + [if limited then ONE else ZERO] + Repeat(CR, crs) + [LF] + rest;
            Completes(FRESH.(place := Arg1), s, q) <==> Completes(Told(limited), rest, q)
  {
    hide Completes;
    var p, b, tail := FRESH.(place := Arg1), if limited then ONE else ZERO, [LF] + rest;
    var s := Repeat(COLON, colons) + [b] + Repeat(CR, crs) + [LF] + rest;
    assert s == Repeat(COLON, colons) + ([b] + (Repeat(CR, crs) + tail));
    RepeatPart(p, COLON, colons, [b] + (Repeat(CR, crs) + tail), q);
    OneByte(p, b, Repeat(CR, crs) + tail, q);
    var p2 := Told(limited).(place := Crlf2);
    RepeatPart(p2, CR, crs, tail, q);
    OneByte(p2, LF, rest, q);
  }

  function Told(limited: bool): Parser {
    FRESH.(place := Arg2, status := if limited then HTTP_TOO_MANY else HTTP_OK)
  }

  lemma NumberLine(p: Parser, d: seq<byte>, rest: seq<byte>, q: Parser)
    requires Continues(p, d) && p.place != Arg5
    ensures Completes(p, d + CRLF + rest, q) <==> Completes(WithNumber(p, d).(place := Behind(p.place)), rest, q)
  {
    hide Completes;
    assert d + CRLF + rest == d + (CRLF + rest);
    NumberPart(p, d, CRLF + rest, q);
    LineBreak(WithNumber(p, d), rest, q);
  }

  lemma RetryLine(p: Parser, d: seq<byte>, ones: Option<nat>, rest: seq<byte>, q: Parser)
    requires Continues(p, d) && p.place == Arg4
    ensures var v := WithNumber(p, d);
            var r := if ones.Some? && ones.value > 0 then v.(retryAfter := -1) else v;
            Completes(p, d + Sign(ones) + CRLF + rest, q) <==> Completes(r.(place := Arg5), rest, q)
  {
    hide Completes, Value, Next, Sign;
    assert d + Sign(ones) + CRLF + rest == d + (Sign(ones) + (CRLF + rest));
    NumberPart(p, d, Sign(ones) + (CRLF + rest), q);
    OnesPart(WithNumber(p, d), ones, rest, q);
  }

  lemma ResetLine(p: Parser, d: seq<byte>, q: Parser)
    requires Continues(p, d) && p.place == Arg5
    ensures Completes(p, d + CRLF, q) <==> q == WithNumber(p, d).(place := AlmostDone, parsed := true)
  {
    hide Completes;
    assert CRLF + [] == CRLF;
    NumberPart(p, d, CRLF, q);
    LineBreak(WithNumber(p, d), [], q);
  }

  /** Every text is read to its end, with its meaning. */
  lemma TextIsRead(t: Text)
    requires IsText(t)
    ensures Feed(FRESH, Print(t)) == Done(Meaning(t), |Print(t)|)
  {
    hide Repeat, Sign, Bare, Feed;
    var q, p2 := Meaning(t), Told(t.limited);
    var p3 := WithNumber(p2, t.limit).(place := Arg3);
    var p4 := WithNumber(p3, t.remaining).(place := Arg4);
    var v := WithNumber(p4, t.retry);
    var p5 := (if t.ones.Some? && t.ones.value > 0 then v.(retryAfter := -1) else v).(place := Arg5);
    HeadPart(t.crs1, StatusText(t), q);
    StatusPart(t.colons, t.limited, t.crs2, LimitText(t), q);
    NumberLine(p2, t.limit, RemainingText(t), q);
    NumberLine(p3, t.remaining, RetryText(t), q);
    RetryLine(p4, t.retry, t.ones, ResetText(t), q);
    ResetLine(p5, t.reset, q);
  }

  // ---- and nothing else is ----

  lemma FirstByte(p: Parser, s: seq<byte>, q: Parser)
    requires Completes(p, s, q)
    ensures s != [] && s == [s[0]] + s[1..]
    ensures p.place != AlmostDone ==> Next(p, s[0]).Go? && Completes(Next(p, s[0]).p, s[1..], q)
  {
    if s != [] && p.place != AlmostDone {
      OneByte(p, s[0], s[1..], q);
      assert s == [s[0]] + s[1..];
    }
  }

  lemma {:induction false} TakeRepeat(p: Parser, b: byte, s: seq<byte>, q: Parser) returns (n: nat, rest: seq<byte>)
    requires Next(p, b) == Go(p) && p.place != AlmostDone && Completes(p, s, q)
    ensures s == Repeat(b, n) + rest && Completes(p, rest, q) && rest != [] && rest[0] != b
    decreases |s|
  {
    hide Completes, Next;
    FirstByte(p, s, q);
    if s[0] == b {
      n, rest := TakeRepeat(p, b, s[1..], q);
      n := n + 1;
    } else {
      n, rest := 0, s;
    }
  }

  /** The byte that ends a number part. */
  predicate EndsNumber(place: Place, b: byte) {
    b == CR || (place == Arg4 && b == MINUS)
  }

  lemma {:induction false} TakeNumber(p: Parser, s: seq<byte>, q: Parser) returns (d: seq<byte>, rest: seq<byte>)
    requires IsNumber(p.place) && Field(p) <= MAX_INT && Completes(p, s, q)
    ensures s == d + rest && Continues(p, d) && Completes(WithNumber(p, d), rest, q)
    ensures rest != [] && EndsNumber(p.place, rest[0])
    decreases |s|
  {
    hide Completes, WithNumber;
    FirstByte(p, s, q);
    var b := s[0];
    if EndsNumber(p.place, b) {
      d, rest := [], s;
      NumberPart(p, d, rest, q);
      assert d + rest == s;
    } else {
      var p2 := Next(p, b).p;
      var d2;
      d2, rest := TakeNumber(p2, s[1..], q);
      d := [b] + d2;
      ContinueOne(p, b, d2);
    }
  }

  lemma TakeBreak(p: Parser, s: seq<byte>, q: Parser) returns (rest: seq<byte>)
    requires (IsNumber(p.place) || p.place == Allowed) && Completes(p, s, q) && s[..1] == [CR]
    ensures s == CRLF + rest
  {
    FirstByte(p, s, q);
    FirstByte(Next(p, CR).p, s[1..], q);
    rest := s[2..];
  }

  lemma TakeNumberLine(p: Parser, s: seq<byte>, q: Parser) returns (d: seq<byte>, rest: seq<byte>)
    requires IsNumber(p.place) && p.place != Arg4 && Field(p) <= MAX_INT && Completes(p, s, q)
    ensures s == d + CRLF + rest && Continues(p, d)
    ensures p.place != Arg5 ==> Completes(WithNumber(p, d).(place := Behind(p.place)), rest, q)
    ensures p.place == Arg5 ==> rest == []
  {
    hide Completes;
    d, rest := TakeNumber(p, s, q);
    var line := rest;
    rest := TakeBreak(WithNumber(p, d), line, q);
    assert s == d + CRLF + rest;
    LineBreak(WithNumber(p, d), rest, q);
  }

  lemma TakeRetryLine(p: Parser, s: seq<byte>, q: Parser)
    returns (d: seq<byte>, ones: Option<nat>, rest: seq<byte>)
    requires p.place == Arg4 && p.retryAfter <= MAX_INT && Completes(p, s, q)
    ensures s == d + Sign(ones) + CRLF + rest && Continues(p, d)
    ensures var v := WithNumber(p, d);
            var r := if ones.Some? && ones.value > 0 then v.(retryAfter := -1) else v;
            Completes(r.(place := Arg5), rest, q)
  {
    hide Completes, Value;
    d, rest := TakeNumber(p, s, q);
    var v := WithNumber(p, d);
    var line := rest;
    if line[0] == CR {
      ones := None;
      rest := TakeBreak(v, line, q);
    } else {
      FirstByte(v, line, q);
      var n, tail := TakeOnes(v.(place := Allowed), line[1..], q);
      ones, rest := Some(n), tail;
      assert line == Sign(ones) + CRLF + rest;
    }
    assert s == d + Sign(ones) + CRLF + rest;
    RetryLine(p, d, ones, rest, q);
  }

  lemma {:induction false} TakeOnes(p: Parser, s: seq<byte>, q: Parser) returns (n: nat, rest: seq<byte>)
    requires p.place == Allowed && Completes(p, s, q)
    ensures s == Repeat(ONE, n) + CRLF + rest
    decreases |s|
  {
    FirstByte(p, s, q);
    hide Completes;
    if s[0] == ONE {
      n, rest := TakeOnes(p.(retryAfter := -1), s[1..], q);
      n := n + 1;
    } else {
      n := 0;
      rest := TakeBreak(p, s, q);
    }
  }

  lemma TakeHead(s: seq<byte>, q: Parser) returns (crs: nat, rest: seq<byte>)
    requires Completes(FRESH, s, q)
    ensures s == [FIVE] + Repeat(CR, crs) + [LF] + rest && Completes(FRESH.(place := Arg1), rest, q)
  {
    hide Completes;
    FirstByte(FRESH, s, q);
    var p := FRESH.(place := Crlf1);
    var tail;
    crs, tail := TakeRepeat(p, CR, s[1..], q);
    FirstByte(p, tail, q);
    rest := tail[1..];
  }

  lemma TakeStatus(s: seq<byte>, q: Parser)
    returns (colons: nat, limited: bool, crs: nat, rest: seq<byte>)
    requires Completes(FRESH.(place := Arg1), s, q)
    ensures s == Repeat(COLON, colons) + [if limited then ONE else ZERO] + Repeat(CR, crs) + [LF] + rest
    ensures Completes(Told(limited), rest, q)
  {
    hide Completes;
    var p := FRESH.(place := Arg1);
    var tail, last;
    colons, tail := TakeRepeat(p, COLON, s, q);
    FirstByte(p, tail, q);
    limited := tail[0] == ONE;
    var p2 := Told(limited).(place := Crlf2);
    crs, last := TakeRepeat(p2, CR, tail[1..], q);
    FirstByte(p2, last, q);
    rest := last[1..];
  }

  lemma TextOf(s: seq<byte>, q: Parser) returns (t: Text)
    requires Completes(FRESH, s, q)
    ensures IsText(t) && Print(t) == s
  {
    hide Completes, Repeat, Sign;
    var crs1, s1 := TakeHead(s, q);
    var colons, limited, crs2, s2 := TakeStatus(s1, q);
    var p2 := Told(limited);
    var limit, s3 := TakeNumberLine(p2, s2, q);
    var p3 := WithNumber(p2, limit).(place := Arg3);
    var remaining, s4 := TakeNumberLine(p3, s3, q);
    var p4 := WithNumber(p3, remaining).(place := Arg4);
    var retry, ones, s5 := TakeRetryLine(p4, s4, q);
    var v := WithNumber(p4, retry);
    var p5 := (if ones.Some? && ones.value > 0 then v.(retryAfter := -1) else v).(place := Arg5);
    var reset, nothing := TakeNumberLine(p5, s5, q);
    t := Text(crs1, colons, limited, crs2, limit, remaining, retry, ones, reset);
    assert s5 == ResetText(t);
    assert s4 == RetryText(t);
    assert s3 == RemainingText(t);
    assert s2 == LimitText(t);
    assert s1 == StatusText(t);
  }

  /** The parser reads s as a whole reply if and only if s is the print of a text, and then its
      fields are the meaning of that text. */
  lemma ExactlyTheTexts(s: seq<byte>, q: Parser)
    ensures Feed(FRESH, s) == Done(q, |s|) <==> exists t :: IsText(t) && Print(t) == s && Meaning(t) == q
  {
    hide Feed, Print, Meaning, IsText;
    if Completes(FRESH, s, q) {
      var t := TextOf(s, q);
      TextIsRead(t);
    }
    forall t | IsText(t) && Print(t) == s ensures Feed(FRESH, s) == Done(Meaning(t), |s|) {
      TextIsRead(t);
    }
  }

  /** A reply without a single digit behind its status grants the request, although it is not how
      any list of five integers is printed. */
  lemma NotOnlyResp()
    ensures var s := [FIVE, LF, ZERO, LF, CR, LF, CR, LF, CR, LF, CR, LF];
            && Feed(FRESH, s) == Done(Parser(AlmostDone, HTTP_OK, 0, 0, -1, 0, true), |s|)
            && forall r :: Wire(r) != s
  {
    var t := Text(0, 0, false, 0, [], [], [], None, []);
    var s := [FIVE, LF, ZERO, LF, CR, LF, CR, LF, CR, LF, CR, LF];
    assert Print(t) == s;
    TextIsRead(t);
    forall r ensures Wire(r) != s {
      assert Wire(r)[1] == CR;
    }
  }

  // ---- the integer replies among them ----

  predicate InRange(n: int) {
    0 <= n <= MAX_INT
  }

  predicate AllOnes(ds: seq<byte>) {
    forall i :: 0 <= i < |ds| ==> ds[i] == ONE
  }

  /** Minus a number written with ones only: -1, but -11 and -111 as well. */
  predicate ReadsAsMinusOne(n: int) {
    n < 0 && AllOnes(Digits(-n))
  }

  predicate IsAccepted(r: Reply) {
    && (r.status == 0 || r.status == 1) && InRange(r.limit) && InRange(r.remaining) && InRange(r.reset)
    && (InRange(r.retryAfter) || ReadsAsMinusOne(r.retryAfter))
  }

  /** What the parser takes an accepted reply for. */
  function Taken(r: Reply): Parser
    requires IsAccepted(r)
  {
    Parser(AlmostDone, Verdict(r), r.limit, r.remaining, if r.retryAfter < 0 then -1 else r.retryAfter, r.reset, true)
  }

  /** Any integer in a field other than retry_after. */
  lemma AnyInteger(p: Parser, n: int, rest: seq<byte>)
    requires IsNumber(p.place) && p.place != Arg4 && Field(p) == 0
    ensures InRange(n) && p.place != Arg5 ==>
              Feed(p, Integer(n) + rest) == Later(Feed(WithField(p, n).(place := Behind(p.place)), rest), |Integer(n)|)
    ensures InRange(n) && p.place == Arg5 ==>
              Feed(p, Integer(n) + rest) == Done(WithField(p, n).(place := AlmostDone, parsed := true), |Integer(n)|)
    ensures !InRange(n) ==> Feed(p, Integer(n) + rest).Failed?
  {
    hide Feed, Next, Digits;
    if InRange(n) {
      ReadsInteger(p, n);
      Resumable(p, Integer(n), rest);
    } else if n < 0 {
      NegativeFails(p, n, rest);
    } else {
      TooLarge(p, n, rest);
    }
  }

  lemma TooLarge(p: Parser, n: nat, rest: seq<byte>)
    requires IsNumber(p.place) && n > MAX_INT && (Field(p) == 0 || Field(p) == -1)
    ensures Feed(p, Integer(n) + rest).Failed?
  {
    hide Next;
    var s := Integer(n) + rest;
    ValueOfDigits(n);
    NumbersAreExact(p, Digits(n));
    ColonIsSkipped(p);
    assert s[0] == COLON && s[1..] == Digits(n) + (CRLF + rest);
    Resumable(p, Digits(n), CRLF + rest);
  }

  lemma AnyRetryAfter(p: Parser, n: int, rest: seq<byte>)
    requires p.place == Arg4 && p.retryAfter == -1
    ensures InRange(n) ==>
              Feed(p, Integer(n) + rest) == Later(Feed(p.(retryAfter := n, place := Arg5), rest), |Integer(n)|)
    ensures ReadsAsMinusOne(n) ==>
              Feed(p, Integer(n) + rest) == Later(Feed(p.(place := Arg5), rest), |Integer(n)|)
    ensures !InRange(n) && !ReadsAsMinusOne(n) ==> Feed(p, Integer(n) + rest).Failed?
  {
    hide Feed, Next, Digits;
    if InRange(n) {
      ReadsInteger(p, n);
      Resumable(p, Integer(n), rest);
    } else if n > 0 {
      TooLarge(p, n, rest);
    } else {
      MinusRead(p, -n, rest);
    }
  }

  lemma MinusRead(p: Parser, n: int, rest: seq<byte>)
    requires p.place == Arg4 && p.retryAfter == -1 && n > 0
    ensures var o := Feed(p, Integer(-n) + rest);
            if AllOnes(Digits(n)) then o == Later(Feed(p.(place := Arg5), rest), |Integer(-n)|) else o.Failed?
  {
    hide Feed, Digits;
    var q, s, tail := p.(place := Allowed), Integer(-n) + rest, CRLF + rest;
    assert s == [COLON, MINUS] + (Digits(n) + tail);
    OnesRead(q, Digits(n));
    assert Feed(p, [COLON, MINUS]) == Again(q) by { TwoBytes(p, COLON, MINUS); }
    FeedSteps(p, [COLON, MINUS], q, Digits(n) + tail);
    Resumable(q, Digits(n), tail);
    if AllOnes(Digits(n)) {
      assert Feed(q, CRLF) == Again(p.(place := Arg5)) by { TwoBytes(q, CR, LF); }
      FeedSteps(q, CRLF, p.(place := Arg5), rest);
    }
  }

  lemma TwoBytes(p: Parser, a: byte, b: byte)
    requires Next(p, a).Go? && Next(Next(p, a).p, b).Go?
    ensures Feed(p, [a, b]) == Again(Next(Next(p, a).p, b).p)
  {
    assert [a, b][1..] == [b] && [b][1..] == [];
    assert Feed(Next(p, a).p, [b]) == Again(Next(Next(p, a).p, b).p);
  }

  lemma {:induction false} OnesRead(q: Parser, ds: seq<byte>)
    requires q.place == Allowed && q.retryAfter == -1 && AllDigits(ds)
    ensures if AllOnes(ds) then Feed(q, ds) == Again(q) else Feed(q, ds).Failed?
    decreases |ds|
  {
    if ds != [] {
      OnesRead(q, ds[1..]);
      assert ds == [ds[0]] + ds[1..];
    }
  }

  /** Of all the lists of five integers a script may return, the parser accepts just those that meet
      the contract's ranges, where retry_after may be 0 and any negative number written with ones
      passes for -1; and it reads the numbers themselves. */
  lemma ExactlyTheseReplies(r: Reply)
    ensures var o := Feed(FRESH, Wire(r));
            if IsAccepted(r) then o == Done(Taken(r), |Wire(r)|) else o.Failed?
  {
    hide Feed, Integer, Digits, ReadsAsMinusOne;
    var tail := Integer(r.retryAfter) + Integer(r.reset);
    var rest := Integer(r.limit) + (Integer(r.remaining) + tail);
    StatusFirst(r, rest);
    var p1 := FRESH.(place := Arg2, status := Verdict(r));
    AnyInteger(p1, r.limit, Integer(r.remaining) + tail);
    if (r.status == 0 || r.status == 1) && InRange(r.limit) {
      var p2 := p1.(limit := r.limit, place := Arg3);
      AnyInteger(p2, r.remaining, tail);
      if InRange(r.remaining) {
        LastTwo(p2.(remaining := r.remaining, place := Arg4), r);
      }
    }
  }

  lemma StatusFirst(r: Reply, rest: seq<byte>)
    requires rest == Integer(r.limit) + (Integer(r.remaining) + (Integer(r.retryAfter) + Integer(r.reset)))
    ensures var head := [FIVE] + CRLF + Integer(r.status);
            && |Wire(r)| == |head| + |rest|
            && if r.status == 0 || r.status == 1 then
                 Feed(FRESH, Wire(r)) == Later(Feed(FRESH.(place := Arg2, status := Verdict(r)), rest), |head|)
               else Feed(FRESH, Wire(r)).Failed?
  {
    hide Feed, Integer;
    var head := [FIVE] + CRLF + Integer(r.status);
    assert Wire(r) == head + rest;
    if r.status == 0 || r.status == 1 {
      ReadsHead(FRESH, r.status);
      FeedSteps(FRESH, head, FRESH.(place := Arg2, status := Verdict(r)), rest);
    } else {
      ReadsFive();
      assert Wire(r) == [FIVE, CR, LF] + (Integer(r.status) + rest);
      FeedSteps(FRESH, [FIVE, CR, LF], FRESH.(place := Arg1), Integer(r.status) + rest);
      OtherStatusFails(FRESH.(place := Arg1), r.status, rest);
    }
  }

  lemma LastTwo(p: Parser, r: Reply)
    requires p.place == Arg4 && p.retryAfter == -1 && p.reset == 0
    ensures var o := Feed(p, Integer(r.retryAfter) + Integer(r.reset));
            if InRange(r.reset) && (InRange(r.retryAfter) || ReadsAsMinusOne(r.retryAfter)) then
              o == Done(p.(place := AlmostDone, retryAfter := if r.retryAfter < 0 then -1 else r.retryAfter,
                           reset := r.reset, parsed := true), |Integer(r.retryAfter)| + |Integer(r.reset)|)
            else o.Failed?
  {
    hide Feed, Integer, Digits;
    AnyRetryAfter(p, r.retryAfter, Integer(r.reset));
    var q := p.(retryAfter := if r.retryAfter < 0 then -1 else r.retryAfter, place := Arg5);
    assert Integer(r.reset) + [] == Integer(r.reset);
    if InRange(r.retryAfter) || ReadsAsMinusOne(r.retryAfter) {
      AnyInteger(q, r.reset, []);
    }
  }

  /** A script that returns -11 breaks its contract, and is taken to have said -1. */
  lemma MinusElevenPasses()
    ensures var r := Reply(0, 1, 1, -11, 1);
            !Contract(r) && Feed(FRESH, Wire(r)) == Done(Read(r.(retryAfter := -1)), |Wire(r)|)
  {
    var r := Reply(0, 1, 1, -11, 1);
    assert Digits(11) == [ONE, ONE];
    ExactlyTheseReplies(r);
    hide Feed, Wire;
  }
}
