/** The command encoder (RESP2, sections "Arrays" and "Bulk strings"), and an independent reader of
    what it writes. */
module Encoder {
  import opened Foundation
  import opened Bytes
  import opened Histories

  function Bulk(arg: seq<byte>): seq<byte> {
    [DOLLAR] + Digits(|arg|) + CRLF + arg + CRLF
  }

  function Bulks(argv: seq<seq<byte>>): seq<byte> {
    if argv == [] then [] else Bulks(Init(argv)) + Bulk(Last(argv))
  }

  /** A command on the wire: an array of bulk strings. */
  function Command(argv: seq<seq<byte>>): seq<byte> {
    [STAR] + Digits(|argv|) + CRLF + Bulks(argv)
  }

  /** The number of decimal digits of i. */
  method GetNumSize(i: nat) returns (n: nat)
    ensures n == |Digits(i)|
  {
    var rest := i / 10;
    n := 1;
    while rest > 0
      invariant n + (if rest > 0 then |Digits(rest)| else 0) == |Digits(i)|
    {
      rest := rest / 10;
      n := n + 1;
    }
  }

  /** Copy bytes to buf at p and return the position behind them. */
  method Put(buf: array<byte>, p: nat, bytes: seq<byte>) returns (end: nat)
    requires p + |bytes| <= buf.Length
    modifies buf
    ensures end == p + |bytes| && buf[..end] == old(buf[..p]) + bytes
  {
    end := p;
    while end < p + |bytes|
      invariant p <= end <= p + |bytes|
      invariant buf[..p] == old(buf[..p])
      invariant buf[p..end] == bytes[..end - p]
    {
      buf[end] := bytes[end - p];
      end := end + 1;
      assert buf[p..end] == bytes[..end - p];
    }
    assert buf[..end] == buf[..p] + buf[p..end];
    assert bytes[..end - p] == bytes;
  }

  /** The frame length, added up before anything is written. */
  method FrameLength(argv: seq<seq<byte>>) returns (len: nat)
    ensures len == |Command(argv)|
  {
    var size := GetNumSize(|argv|);
    len := 1 + size + 2;
    for i := 0 to |argv|
      invariant len == 1 + |Digits(|argv|)| + 2 + |Bulks(argv[..i])|
    {
      BulksOfPrefix(argv, i);
      size := GetNumSize(|argv[i]|);
      len := len + 1 + size + 2 + |argv[i]| + 2;
    }
    assert argv[..|argv|] == argv;
  }

  method PutBulk(buf: array<byte>, p: nat, arg: seq<byte>) returns (end: nat)
    requires p + |Bulk(arg)| <= buf.Length
    modifies buf
    ensures end == p + |Bulk(arg)| && buf[..end] == old(buf[..p]) + Bulk(arg)
  {
    end := Put(buf, p, [DOLLAR]);
    end := Put(buf, end, Digits(|arg|));
    end := Put(buf, end, CRLF);
    end := Put(buf, end, arg);
    end := Put(buf, end, CRLF);
  }

  /** The frame is written behind a moving position into a buffer of the precomputed length; the
      final comparison of the two never fails. */
  method BuildCommand(argv: seq<seq<byte>>) returns (ok: bool, buf: array<byte>)
    ensures fresh(buf) && ok && buf[..] == Command(argv)
  {
    hide Bulk, Bulks, Command, Digits;
    var len := FrameLength(argv);
    CommandIs(argv);
    buf := new byte[len];
    var p := Put(buf, 0, [STAR]);
    p := Put(buf, p, Digits(|argv|));
    p := Put(buf, p, CRLF);
    ghost var head := [STAR] + Digits(|argv|) + CRLF;
    for i := 0 to |argv|
      invariant p == |head| + |Bulks(argv[..i])| <= buf.Length
      invariant buf[..p] == head + Bulks(argv[..i])
      invariant fresh(buf)
    {
      BulksOfPrefix(argv, i);
      PrefixesFit(argv, i + 1);
      p := PutBulk(buf, p, argv[i]);
    }
    assert argv[..|argv|] == argv;
    ok := p == len;
  }

  lemma CommandIs(argv: seq<seq<byte>>)
    ensures Command(argv) == [STAR] + Digits(|argv|) + CRLF + Bulks(argv)
    ensures Bulks(argv[..0]) == []
  {
  }

  lemma BulksOfPrefix(argv: seq<seq<byte>>, i: nat)
    requires i < |argv|
    ensures Bulks(argv[..i + 1]) == Bulks(argv[..i]) + Bulk(argv[i])
  {
    assert Init(argv[..i + 1]) == argv[..i];
  }

  lemma {:induction false} PrefixesFit(argv: seq<seq<byte>>, i: nat)
    requires i <= |argv|
    ensures |Bulks(argv[..i])| <= |Bulks(argv)|
    decreases |argv| - i
  {
    if i == |argv| {
      assert argv[..i] == argv;
    } else {
      BulksOfPrefix(argv, i);
      PrefixesFit(argv, i + 1);
    }
  }

  /** Read digits up to CR LF, continuing from v. */
  function ReadNumber(v: nat, s: seq<byte>): Option<(nat, seq<byte>)>
    decreases |s|
  {
    if s == [] then None
    else if IsDigit(s[0]) then ReadNumber(v * 10 + (s[0] - ZERO), s[1..])
    else if |s| >= 2 && s[..2] == CRLF then Some((v, s[2..]))
    else None
  }

  /** Read one bulk string: its length, that many bytes whatever they are, and CR LF. */
  function ReadBulk(s: seq<byte>): Option<(seq<byte>, seq<byte>)> {
    if |s| < 2 || s[0] != DOLLAR || !IsDigit(s[1]) then None
    else
      var length := ReadNumber(0, s[1..]);
      if length.None? then None
      else
        var (n, rest) := length.value;
        if |rest| < n + 2 || rest[n..n + 2] != CRLF then None else Some((rest[..n], rest[n + 2..]))
  }

  function ReadBulks(n: nat, s: seq<byte>): Option<(seq<seq<byte>>, seq<byte>)> {
    if n == 0 then Some(([], s))
    else
      var first := ReadBulk(s);
      if first.None? then None
      else
        var more := ReadBulks(n - 1, first.value.1);
        if more.None? then None else Some(([first.value.0] + more.value.0, more.value.1))
  }

  /** Read one command off the front of a stream. */
  function ReadCommand(s: seq<byte>): Option<(seq<seq<byte>>, seq<byte>)> {
    if |s| < 2 || s[0] != STAR || !IsDigit(s[1]) then None
    else
      var count := ReadNumber(0, s[1..]);
      if count.None? then None else ReadBulks(count.value.0, count.value.1)
  }

  function Stream(commands: seq<seq<seq<byte>>>): seq<byte> {
    if commands == [] then [] else Command(commands[0]) + Stream(commands[1..])
  }

  /** Read exactly n commands; nothing may be left over. */
  function ReadStream(n: nat, s: seq<byte>): Option<seq<seq<seq<byte>>>> {
    if n == 0 then if s == [] then Some([]) else None
    else
      var first := ReadCommand(s);
      if first.None? then None
      else
        var more := ReadStream(n - 1, first.value.1);
        if more.None? then None else Some([first.value.0] + more.value)
  }

  lemma {:induction false} ReadsDigits(v: nat, ds: seq<byte>, rest: seq<byte>)
    requires AllDigits(ds)
    ensures ReadNumber(v, ds + CRLF + rest) == Some((Value(v, ds), rest))
    decreases |ds|
  {
    var s := ds + CRLF + rest;
    if ds == [] {
      assert s[..2] == CRLF && s[2..] == rest;
    } else {
      assert s[1..] == ds[1..] + CRLF + rest;
      ReadsDigits(v * 10 + (ds[0] - ZERO), ds[1..], rest);
    }
  }

  lemma ReadsNumber(n: nat, rest: seq<byte>)
    ensures ReadNumber(0, Digits(n) + CRLF + rest) == Some((n, rest))
  {
    ReadsDigits(0, Digits(n), rest);
    ValueOfDigits(n);
  }

  /** Any bytes survive, CR, LF, `$` and `*` included: the length says where they end. */
  lemma ReadsBulk(arg: seq<byte>, rest: seq<byte>)
    ensures ReadBulk(Bulk(arg) + rest) == Some((arg, rest))
  {
    var s, tail := Bulk(arg) + rest, arg + CRLF + rest;
    assert s[1..] == Digits(|arg|) + CRLF + tail;
    assert s[1] == Digits(|arg|)[0];
    ReadsNumber(|arg|, tail);
    assert tail[|arg|..|arg| + 2] == CRLF && tail[..|arg|] == arg && tail[|arg| + 2..] == rest;
  }

  lemma {:induction false} BulksFromFront(argv: seq<seq<byte>>)
    requires argv != []
    ensures Bulks(argv) == Bulk(argv[0]) + Bulks(argv[1..])
  {
    hide Bulk;
    if |argv| == 1 {
      assert Init(argv) == [] && argv[1..] == [];
    } else {
      BulksFromFront(Init(argv));
      assert Init(argv)[1..] == Init(argv[1..]) && Last(argv) == Last(argv[1..]);
    }
  }

  lemma {:induction false} ReadsBulks(argv: seq<seq<byte>>, rest: seq<byte>)
    ensures ReadBulks(|argv|, Bulks(argv) + rest) == Some((argv, rest))
  {
    hide Bulk, ReadBulk;
    if argv == [] {
      assert Bulks(argv) + rest == rest;
    } else {
      BulksFromFront(argv);
      assert Bulks(argv) + rest == Bulk(argv[0]) + (Bulks(argv[1..]) + rest);
      ReadsBulk(argv[0], Bulks(argv[1..]) + rest);
      ReadsBulks(argv[1..], rest);
      assert [argv[0]] + argv[1..] == argv;
    }
  }

  lemma ReadsCommand(argv: seq<seq<byte>>, rest: seq<byte>)
    ensures ReadCommand(Command(argv) + rest) == Some((argv, rest))
  {
    var s, tail := Command(argv) + rest, Bulks(argv) + rest;
    assert s[1..] == Digits(|argv|) + CRLF + tail;
    assert s[1] == Digits(|argv|)[0];
    ReadsNumber(|argv|, tail);
    ReadsBulks(argv, rest);
  }

  /** A pipelined chain of commands is read back as exactly those commands. */
  lemma {:induction false} RoundTrip(commands: seq<seq<seq<byte>>>)
    ensures ReadStream(|commands|, Stream(commands)) == Some(commands)
  {
    if commands != [] {
      ReadsCommand(commands[0], Stream(commands[1..]));
      RoundTrip(commands[1..]);
      assert [commands[0]] + commands[1..] == commands;
    }
  }

  /** No two chains share a byte stream, even chains of different length. */
  lemma {:induction false} Unambiguous(a: seq<seq<seq<byte>>>, b: seq<seq<seq<byte>>>)
    requires Stream(a) == Stream(b)
    ensures a == b
  {
    if a != [] && b != [] {
      ReadsCommand(a[0], Stream(a[1..]));
      ReadsCommand(b[0], Stream(b[1..]));
      Unambiguous(a[1..], b[1..]);
    }
  }

  /** A bulk string and a command of two of them, as the protocol writes them. */
  lemma OnTheWire(k: seq<byte>)
    requires |k| == 3
    ensures Bulk(k) == Text("$3\r\n") + k + Text("\r\n")
    ensures Command([k, k]) == Text("*2\r\n") + (Bulk(k) + Bulk(k))
  {
    Marks();
    assert Bulk(k) == ([DOLLAR] + Digits(3) + CRLF) + k + CRLF;
    hide Bulk, Text;
    assert Init([k, k]) == [k] && Init([k]) == [];
    assert Bulks([k]) == [] + Bulk(k) && Bulks([k, k]) == Bulks([k]) + Bulk(k);
  }

  lemma Marks()
    ensures [DOLLAR] + Digits(3) + CRLF == Text("$3\r\n") && [STAR] + Digits(2) + CRLF == Text("*2\r\n")
    ensures CRLF == Text("\r\n")
  {
  }
}
