/** Bytes and decimal numbers as the Redis serialization protocol writes them. */
module Bytes {

  type byte = b: int | 0 <= b < 256

  const LF: byte := 10
  const CR: byte := 13
  const DOLLAR: byte := 36
  const STAR: byte := 42
  const PLUS: byte := 43
  const MINUS: byte := 45
  const ZERO: byte := 48
  const ONE: byte := 49
  const FIVE: byte := 53
  const NINE: byte := 57
  const COLON: byte := 58

  const CRLF: seq<byte> := [CR, LF]

  /** The bytes of a text in ASCII. */
  function Text(s: string): (t: seq<byte>)
    requires forall i :: 0 <= i < |s| ==> s[i] as int < 128
    ensures |t| == |s| && forall i :: 0 <= i < |s| ==> t[i] == s[i] as int
  {
    seq(|s|, i requires 0 <= i < |s| => s[i] as int)
  }

  predicate IsDigit(b: byte) {
    ZERO <= b <= NINE
  }

  predicate AllDigits(ds: seq<byte>) {
    forall i :: 0 <= i < |ds| ==> IsDigit(ds[i])
  }

  /** The decimal digits of a number, most significant first. */
  function Digits(n: nat): (ds: seq<byte>)
    ensures AllDigits(ds) && 1 <= |ds|
  {
    if n < 10 then [ZERO + n] else Digits(n / 10) + [ZERO + n % 10]
  }

  /** The number read by continuing from v with more digits. */
  function Value(v: nat, ds: seq<byte>): nat
    requires AllDigits(ds)
    decreases |ds|
  {
    if ds == [] then v else Value(v * 10 + (ds[0] - ZERO), ds[1..])
  }

  lemma {:induction false} ValueAppend(v: nat, ds: seq<byte>, es: seq<byte>)
    requires AllDigits(ds) && AllDigits(es)
    ensures AllDigits(ds + es) && Value(v, ds + es) == Value(Value(v, ds), es)
    decreases |ds|
  {
    if ds == [] {
      assert ds + es == es;
    } else {
      assert (ds + es)[1..] == ds[1..] + es;
      ValueAppend(v * 10 + (ds[0] - ZERO), ds[1..], es);
    }
  }

  /** Printing a number and reading it gives it back. */
  lemma {:induction false} ValueOfDigits(n: nat)
    ensures Value(0, Digits(n)) == n
  {
    if n < 10 {
      assert Digits(n)[1..] == [];
    } else {
      var last := [ZERO + n % 10];
      ValueOfDigits(n / 10);
      ValueAppend(0, Digits(n / 10), last);
      assert last[1..] == [];
    }
  }

  /** More digits never make a number smaller. */
  lemma {:induction false} ValueGrows(v: nat, ds: seq<byte>)
    requires AllDigits(ds)
    ensures v <= Value(v, ds)
    decreases |ds|
  {
    if ds != [] {
      ValueGrows(v * 10 + (ds[0] - ZERO), ds[1..]);
    }
  }
}
