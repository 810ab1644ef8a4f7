/** What a request sends: the AUTH/SELECT prelude and the script call, with the numbers of the zone
    and the location as decimal arguments. */
module Requests {
  import opened Foundation
  import opened Bytes
  import opened Encoder
  import opened Histories

  const AUTH: seq<byte> := [65, 85, 84, 72]
  const SELECT: seq<byte> := [83, 69, 76, 69, 67, 84]
  const EVAL: seq<byte> := [69, 86, 65, 76]
  const EVALSHA: seq<byte> := [69, 86, 65, 76, 83, 72, 65]

  datatype Algorithm = FixedWindow | SlidingWindow | TokenBucket | Gcra | Custom

  datatype Zone = Zone(algorithm: Algorithm, requests: nat, period: nat, burst: nat, sha: seq<byte>, body: seq<byte>)

  datatype OnError = Deny | Allow

  /** What a location configures. `target` says whether it has a Redis to talk to. */
  datatype Location = Location(zone: Option<Zone>, target: bool, burst: Option<nat>, quantity: nat, prefix: seq<byte>,
                               password: seq<byte>, database: nat, headersOn: bool, onError: OnError,
                               statusCode: int, bufferSize: nat)

  /** A location's own burst overrides that of its zone. */
  function Burst(l: Location, z: Zone): nat {
    if l.burst.None? then z.burst else l.burst.value
  }

  /** The numbers that follow the key. */
  function Numbers(l: Location, z: Zone): seq<nat> {
    if z.algorithm.FixedWindow? || z.algorithm.SlidingWindow? then [z.requests + Burst(l, z), z.period, l.quantity]
    else [z.requests, z.period, Burst(l, z), l.quantity]
  }

  function Printed(numbers: seq<nat>): seq<seq<byte>> {
    if numbers == [] then [] else [Digits(numbers[0])] + Printed(numbers[1..])
  }

  /** EVALSHA names the script, EVAL carries it; either way there is one key. */
  function ScriptCall(l: Location, z: Zone, key: seq<byte>, fallback: bool): seq<seq<byte>> {
    (if fallback then [EVAL, z.body] else [EVALSHA, z.sha]) + [Digits(1), key] + Printed(Numbers(l, z))
  }

  function Prelude(l: Location): seq<seq<seq<byte>>> {
    (if l.password != [] then [[AUTH, l.password]] else [])
    + (if l.database > 0 then [[SELECT, Digits(l.database)]] else [])
  }

  /** What goes out in one piece: the prelude is not repeated for the EVAL. */
  function Chain(l: Location, z: Zone, key: seq<byte>, fallback: bool): seq<seq<seq<byte>>> {
    (if fallback then [] else Prelude(l)) + [ScriptCall(l, z, key, fallback)]
  }

  /** A chain of buffers holds these commands, each in a buffer of its own. */
  ghost predicate Holds(bufs: seq<array<byte>>, commands: seq<seq<seq<byte>>>)
    reads bufs
  {
    |bufs| == |commands| && forall i :: 0 <= i < |bufs| ==> bufs[i][..] == Command(commands[i])
  }

  method AppendCommand(bufs: seq<array<byte>>, ghost commands: seq<seq<seq<byte>>>, argv: seq<seq<byte>>)
    returns (longer: seq<array<byte>>)
    requires Holds(bufs, commands)
    ensures Holds(longer, commands + [argv]) && bufs <= longer && |longer| == |bufs| + 1
    ensures fresh(longer[|bufs|])
  {
    hide Command;
    var ok, buf := BuildCommand(argv);
    longer := bufs + [buf];
  }

  method BuildPrelude(l: Location) returns (bufs: seq<array<byte>>, replies: nat)
    ensures Holds(bufs, Prelude(l)) && replies == |Prelude(l)| <= 2
    ensures fresh(set i | 0 <= i < |bufs| :: bufs[i])
  {
    hide Command, Digits;
    bufs, replies := [], 0;
    ghost var commands: seq<seq<seq<byte>>> := [];
    if l.password != [] {
      bufs := AppendCommand(bufs, commands, [AUTH, l.password]);
      commands := commands + [[AUTH, l.password]];
      replies := replies + 1;
    }
    if l.database > 0 {
      bufs := AppendCommand(bufs, commands, [SELECT, Digits(l.database)]);
      commands := commands + [[SELECT, Digits(l.database)]];
      replies := replies + 1;
    }
    assert commands == Prelude(l);
  }

  /** Print the numbers into the arguments, one by one. */
  method SetArguments(numbers: seq<nat>) returns (args: seq<seq<byte>>)
    ensures args == Printed(numbers)
  {
    args := [];
    for i := 0 to |numbers|
      invariant args + Printed(numbers[i..]) == Printed(numbers)
    {
      assert numbers[i..][1..] == numbers[i + 1..];
      args := args + [Digits(numbers[i])];
    }
    assert args + Printed([]) == args;
  }

  method CreateRequest(l: Location, z: Zone, key: seq<byte>, fallback: bool, prelude: seq<array<byte>>)
    returns (bufs: seq<array<byte>>)
    requires Holds(prelude, Prelude(l))
    ensures Holds(bufs, Chain(l, z, key, fallback))
  {
    hide Command, Printed, Prelude;
    var burst := if l.burst.None? then z.burst else l.burst.value;
    var argv := if fallback then [EVAL, z.body] else [EVALSHA, z.sha];
    var numbers;
    if z.algorithm.FixedWindow? || z.algorithm.SlidingWindow? {
      numbers := [z.requests + burst, z.period, l.quantity];
    } else {
      numbers := [z.requests, z.period, burst, l.quantity];
    }
    var args := SetArguments(numbers);
    argv := argv + [Digits(1), key] + args;
    bufs := AppendCommand(if fallback then [] else prelude, if fallback then [] else Prelude(l), argv);
  }

  // ---- what the server makes of it ----

  function Scanned(args: seq<seq<byte>>): Option<seq<nat>> {
    if args == [] then Some([])
    else if !AllDigits(args[0]) then None
    else
      var more := Scanned(args[1..]);
      if more.None? then None else Some([Value(0, args[0])] + more.value)
  }

  lemma {:induction false} ScansPrinted(numbers: seq<nat>)
    ensures Scanned(Printed(numbers)) == Some(numbers)
  {
    if numbers != [] {
      ValueOfDigits(numbers[0]);
      ScansPrinted(numbers[1..]);
      assert Printed(numbers)[1..] == Printed(numbers[1..]);
      assert [numbers[0]] + numbers[1..] == numbers;
    }
  }

  /** The bytes of a request decode to its commands: behind AUTH if there is a password and then SELECT
      if there is a database, but not for the EVAL, the call of the configured script on the one key. */
  lemma ServerReads(l: Location, z: Zone, key: seq<byte>, fallback: bool)
    ensures var chain := Chain(l, z, key, fallback);
            var auth := if !fallback && l.password != [] then 1 else 0;
            var select := if !fallback && l.database > 0 then 1 else 0;
            && ReadStream(|chain|, Stream(chain)) == Some(chain) && |chain| == auth + select + 1
            && (auth == 1 ==> chain[0] == [AUTH, l.password])
            && (select == 1 ==> |chain[auth]| == 2 && chain[auth][0] == SELECT
                                && AllDigits(chain[auth][1]) && Value(0, chain[auth][1]) == l.database)
            && var call := chain[|chain| - 1];
               && |call| >= 7 && call[0] == (if fallback then EVAL else EVALSHA)
               && call[1] == (if fallback then z.body else z.sha) && call[3] == key
               && AllDigits(call[2]) && Value(0, call[2]) == 1
  {
    hide Command, Digits, ReadStream, Stream;
    RoundTrip(Chain(l, z, key, fallback));
    ValueOfDigits(l.database);
    ValueOfDigits(1);
    PrintedLength(Numbers(l, z));
  }

  /** The numbers behind the key: the windows get limit, period and quantity, the other scripts
      requests, period, burst and quantity; a burst of the location takes the place of the zone's. */
  lemma ArgumentsAreRead(l: Location, z: Zone, key: seq<byte>, fallback: bool)
    ensures var call := Last(Chain(l, z, key, fallback));
            var burst := match l.burst case Some(own) => own case None => z.burst;
            && |call| >= 7
            && Scanned(call[4..])
               == Some(match z.algorithm
                       case FixedWindow => [z.requests + burst, z.period, l.quantity]
                       case SlidingWindow => [z.requests + burst, z.period, l.quantity]
                       case TokenBucket => [z.requests, z.period, burst, l.quantity]
                       case Gcra => [z.requests, z.period, burst, l.quantity]
                       case Custom => [z.requests, z.period, burst, l.quantity])
  {
    hide Digits, Scanned;
    var call := ScriptCall(l, z, key, fallback);
    PrintedLength(Numbers(l, z));
    assert call[4..] == Printed(Numbers(l, z));
    ScansPrinted(Numbers(l, z));
  }

  /** The command words are ASCII. */
  lemma Words()
    ensures AUTH == Text("AUTH") && SELECT == Text("SELECT") && EVAL == Text("EVAL") && EVALSHA == Text("EVALSHA")
  {
  }

  lemma PrintedLength(numbers: seq<nat>)
    ensures |Printed(numbers)| == |numbers|
  {
  }

  /** Two requests send the same bytes only if they agree on everything: on the identity and the
      database the connection is switched to as much as on the script, the key and its numbers. */
  lemma SameBytesSameRequest(l: Location, z: Zone, key: seq<byte>, l2: Location, z2: Zone, key2: seq<byte>)
    requires Stream(Chain(l, z, key, false)) == Stream(Chain(l2, z2, key2, false))
    ensures l.password == l2.password && l.database == l2.database
    ensures z.sha == z2.sha && key == key2 && Numbers(l, z) == Numbers(l2, z2)
  {
    hide Command, Digits, Numbers;
    var a, b := Chain(l, z, key, false), Chain(l2, z2, key2, false);
    Unambiguous(a, b);
    var c, d := ScriptCall(l, z, key, false), ScriptCall(l2, z2, key2, false);
    assert a[|a| - 1] == c && b[|b| - 1] == d;
    assert c[1] == z.sha && d[1] == z2.sha && c[3] == key && d[3] == key2;
    assert c[4..] == Printed(Numbers(l, z)) && d[4..] == Printed(Numbers(l2, z2));
    ScansPrinted(Numbers(l, z));
    ScansPrinted(Numbers(l2, z2));
    assert a[..|a| - 1] == Prelude(l) && b[..|b| - 1] == Prelude(l2);
    SamePrelude(l, l2);
  }

  lemma SamePrelude(l: Location, l2: Location)
    requires Prelude(l) == Prelude(l2)
    ensures l.password == l2.password && l.database == l2.database
  {
    hide Digits;
    assert AUTH[0] != SELECT[0];
    ValueOfDigits(l.database);
    ValueOfDigits(l2.database);
    var p := Prelude(l);
    if l.password != [] {
      assert p[0] == [AUTH, l.password] && p[0][0] == AUTH && p[0][1] == l.password;
    }
    if l2.password != [] {
      assert p[0] == [AUTH, l2.password] && p[0][0] == AUTH && p[0][1] == l2.password;
    }
    if l.database > 0 {
      assert p[|p| - 1] == [SELECT, Digits(l.database)] && p[|p| - 1][1] == Digits(l.database);
      assert p[|p| - 1][0] == SELECT;
    }
    if l2.database > 0 {
      assert p[|p| - 1] == [SELECT, Digits(l2.database)] && p[|p| - 1][1] == Digits(l2.database);
      assert p[|p| - 1][0] == SELECT;
    }
  }
}
