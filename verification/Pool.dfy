/** A pooled connection remembers who last authenticated on it and which database was last selected:
    when does a request run where its location says? */
module Pool {
  import opened Foundation
  import opened Bytes
  import opened Encoder
  import opened Histories
  import opened Requests

  /** What Redis keeps for a connection: the password it was authenticated with, none for the default
      identity, and the selected database. */
  datatype Connection = Connection(identity: seq<byte>, database: nat)

  const NEW := Connection([], 0)

  /** The effect of one command that the server accepts. */
  function Served(c: Connection, argv: seq<seq<byte>>): Connection {
    if |argv| == 2 && argv[0] == AUTH then c.(identity := argv[1])
    else if |argv| == 2 && argv[0] == SELECT && AllDigits(argv[1]) then c.(database := Value(0, argv[1]))
    else c
  }

  function ServedAll(c: Connection, commands: seq<seq<seq<byte>>>): Connection {
    if commands == [] then c else Served(ServedAll(c, Init(commands)), Last(commands))
  }

  /** The effect of the bytes of a chain of n commands. */
  function Fed(c: Connection, n: nat, bytes: seq<byte>): Connection {
    var commands := ReadStream(n, bytes);
    if commands.None? then c else ServedAll(c, commands.value)
  }

  /** An exchange that a connection has been used for. */
  datatype Use = Use(l: Location, z: Zone, key: seq<byte>)

  function SentBy(u: Use): seq<seq<seq<byte>>> {
    Chain(u.l, u.z, u.key, false)
  }

  /** The connection after the exchanges of uses, in order. */
  function After(uses: seq<Use>): Connection {
    if uses == [] then NEW else Fed(After(Init(uses)), |SentBy(Last(uses))|, Stream(SentBy(Last(uses))))
  }

  /** One exchange sets just what its location names; the script call behind the prelude runs there. */
  lemma OneUse(c: Connection, u: Use)
    ensures Fed(c, |SentBy(u)|, Stream(SentBy(u)))
            == Connection(if u.l.password != [] then u.l.password else c.identity,
                          if u.l.database > 0 then u.l.database else c.database)
  {
    hide Command, Digits, ReadStream, Stream, Printed, Numbers;
    var chain, call, prelude := SentBy(u), ScriptCall(u.l, u.z, u.key, false), Requests.Prelude(u.l);
    RoundTrip(chain);
    assert chain == prelude + [call] && Init(chain) == prelude && Last(chain) == call;
    assert AUTH[0] != SELECT[0];
    ValueOfDigits(u.l.database);
    assert ServedAll(c, chain) == Served(ServedAll(c, prelude), call) == ServedAll(c, prelude);
    ServedFew(c, [AUTH, u.l.password], [SELECT, Digits(u.l.database)]);
  }

  lemma ServedFew(c: Connection, a: seq<seq<byte>>, b: seq<seq<byte>>)
    ensures ServedAll(c, []) == c && ServedAll(c, [a]) == Served(c, a) && ServedAll(c, [b]) == Served(c, b)
    ensures ServedAll(c, [a] + [b]) == Served(Served(c, a), b)
  {
    assert Init([a]) == [] && Init([b]) == [] && Init([a] + [b]) == [a];
    hide Served;
  }

  /** A request runs on its location's database if and only if the location names one or no earlier
      use of the connection has, and as its identity if and only if it has a password or no earlier
      use had. */
  lemma {:induction false} RunsWhereConfigured(uses: seq<Use>)
    requires uses != []
    ensures After(uses).database == Last(uses).l.database
            <==> Last(uses).l.database > 0 || forall i :: 0 <= i < |uses| ==> uses[i].l.database == 0
    ensures After(uses).identity == Last(uses).l.password
            <==> Last(uses).l.password != [] || forall i :: 0 <= i < |uses| ==> uses[i].l.password == []
  {
    hide SentBy, Fed;
    OneUse(After(Init(uses)), Last(uses));
    Defaults(Init(uses));
    assert forall i :: 0 <= i < |Init(uses)| ==> Init(uses)[i] == uses[i];
    assert Last(uses) == uses[|uses| - 1];
  }

  /** A connection is in its first state as long as nothing has been named on it. */
  lemma {:induction false} Defaults(uses: seq<Use>)
    ensures After(uses).database == 0 <==> forall i :: 0 <= i < |uses| ==> uses[i].l.database == 0
    ensures After(uses).identity == [] <==> forall i :: 0 <= i < |uses| ==> uses[i].l.password == []
  {
    hide SentBy, Fed;
    if uses != [] {
      OneUse(After(Init(uses)), Last(uses));
      Defaults(Init(uses));
      assert forall i :: 0 <= i < |Init(uses)| ==> Init(uses)[i] == uses[i];
      assert Last(uses) == uses[|uses| - 1];
    }
  }

  /** A location that names its database and has a password is isolated whatever came before. */
  lemma NamedIsIsolated(uses: seq<Use>)
    requires uses != [] && Last(uses).l.database > 0 && Last(uses).l.password != []
    ensures After(uses) == Connection(Last(uses).l.password, Last(uses).l.database)
  {
    RunsWhereConfigured(uses);
  }

  /** One that names neither runs where the use before it ran, so on that one's database and as its
      identity if it named them. */
  lemma DefaultLeaks(uses: seq<Use>, before: Use)
    requires |uses| > 1 && Last(uses).l.database == 0 && Last(uses).l.password == []
    requires before == Last(Init(uses))
    ensures After(uses) == After(Init(uses))
    ensures before.l.database > 0 ==> After(uses).database == before.l.database
    ensures before.l.password != [] ==> After(uses).identity == before.l.password
  {
    hide SentBy, Fed;
    OneUse(After(Init(uses)), Last(uses));
    RunsWhereConfigured(Init(uses));
  }
}
