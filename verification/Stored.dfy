/** How the scripts print a number they store: with printf's six decimals, or, as the
    idealisation, without loss. */
module Stored {
  import opened Foundation

  datatype Format = Exact | SixDecimals

  const MICRO := 0.000001

  /** A whole number of millionths: what six decimals can express. */
  function Millionths(n: int): real {
    n as real * MICRO
  }

  function Nearest(x: real): int {
    Floor(x * 1000000.0 + 0.5)
  }

  function Write(f: Format, x: real): real {
    if f.Exact? then x else Millionths(Nearest(x))
  }

  /** The largest error of one write. */
  function Error(f: Format): real {
    if f.Exact? then 0.0 else 0.0000005
  }

  /** The largest error of n writes. */
  function Errors(f: Format, n: nat): real {
    Error(f) * n as real
  }

  lemma ErrorsAdd(f: Format, n: nat)
    ensures Errors(f, n + 1) == Errors(f, n) + Error(f) && 0.0 <= Errors(f, n) && 0.0 <= Error(f)
  {
  }

  /** A whole number of millionths; as an instant, one at the resolution of TIME. */
  ghost predicate Microseconds(t: real) {
    exists n: int :: t == Millionths(n)
  }

  /** Clock readings have that resolution; only the six-decimal format needs it. */
  ghost predicate Printable(f: Format, h: seq<Call>) {
    f.Exact? || forall i :: 0 <= i < |h| ==> Microseconds(h[i].now)
  }

  lemma MillionthsAdd(x: real, y: real)
    requires Microseconds(x) && Microseconds(y)
    ensures Microseconds(x + y) && Microseconds(x - y)
  {
    var n: int :| x == Millionths(n);
    var m: int :| y == Millionths(m);
    assert x + y == Millionths(n + m) && x - y == Millionths(n - m);
  }

  lemma WholeIsMillionths(n: int)
    ensures Microseconds(n as real)
  {
    assert n as real == Millionths(n * 1000000);
  }

  /** What is a whole number of millionths is stored without loss. */
  lemma WritesInPlace(f: Format, x: real)
    requires f.Exact? || Microseconds(x)
    ensures Write(f, x) == x
  {
    if f.SixDecimals? {
      var n: int :| x == Millionths(n);
      WriteKeepsMillionths(f, n);
    }
  }

  lemma WriteError(f: Format, x: real)
    ensures -Error(f) <= Write(f, x) - x <= Error(f)
  {
    var n := Nearest(x);
  }

  lemma WriteIsMonotone(f: Format, x: real, y: real)
    requires x <= y
    ensures Write(f, x) <= Write(f, y)
  {
    var n, m := Nearest(x), Nearest(y);
    assert n as real < m as real + 1.0;
    assert n <= m;
  }

  lemma WriteKeepsMillionths(f: Format, n: int)
    ensures Write(f, Millionths(n)) == Millionths(n)
  {
    assert Millionths(n) * 1000000.0 == n as real;
    var m := Nearest(Millionths(n));
    assert m as real <= n as real + 0.5 < m as real + 1.0;
    assert m == n;
  }

  lemma WriteKeepsWhole(f: Format, n: int)
    ensures Write(f, n as real) == n as real
  {
    assert n as real == Millionths(n * 1000000);
    WriteKeepsMillionths(f, n * 1000000);
  }
}
