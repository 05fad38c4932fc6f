/** The parts of the node that are library code: hashing, signature checking, time parsing and
    the decimal printing of integers. The first three are constants whose value is left
    unspecified, so every theorem holds for whatever function the library provides. */
module Primitives {
  datatype Option<+T> = None | Some(value: T)

  /** Numbers of distinct 64-bit values: balances, amounts and nonces live below it. */
  const U64 := 0x1_0000_0000_0000_0000

  /** Largest value of a signed 64-bit integer. */
  const INT64_MAX := 0x7fff_ffff_ffff_ffff

  /** SHA-256 printed in hexadecimal: 64 characters, nothing else is known about it. */
  type HashFunction = f: string -> string | forall s :: |f(s)| == 64
    witness (s => seq(64, i => '0'))

  const SHA256: HashFunction

  /** The ECDSA check of (message, signature, public key). */
  const ECDSA: (string, string, string) -> bool

  /** Seconds since the epoch of an ISO 8601 text, or None when it does not parse. */
  const ISO_PARSER: string -> Option<int>

  function Sha256(s: string): (h: string)
    ensures |h| == 64
  {
    SHA256(s)
  }

  /** The reading of the node's clock that one operation works with. */
  datatype Clock = Clock(iso: string, epoch: int)

  function Min(a: int, b: int): int { if a < b then a else b }

  function Max(a: int, b: int): int { if a < b then b else a }

  function Zeros(n: nat): (s: string)
    ensures |s| == n
  {
    seq(n, i => '0')
  }

  /** x and y are different strings with the same hash. */
  predicate Collision(x: string, y: string) {
    x != y && Sha256(x) == Sha256(y)
  }

  lemma CutAt(x: string, y: string, u: string, v: string)
    requires |x| == |u| && x + y == u + v
    ensures x == u && y == v
  {
    assert x == (x + y)[..|x|] && y == (x + y)[|x|..];
    assert u == (u + v)[..|u|] && v == (u + v)[|u|..];
  }

  // ----- decimal printing -----

  predicate IsDigit(c: char) { '0' <= c <= '9' }

  function Digit(n: nat): (c: char)
    requires n < 10
    ensures IsDigit(c)
    ensures c as int == '0' as int + n
  {
    '0' + n as char
  }

  /** An unsigned integer as an output stream prints it. */
  function Decimal(n: nat): (s: string)
    ensures |s| > 0
    ensures forall i | 0 <= i < |s| :: IsDigit(s[i])
  {
    if n < 10 then [Digit(n)] else Decimal(n / 10) + [Digit(n % 10)]
  }

  lemma {:induction false} DecimalInjective(m: nat, n: nat)
    requires Decimal(m) == Decimal(n)
    ensures m == n
  {
    var s, t := Decimal(m), Decimal(n);
    assert s[|s| - 1] == Digit(m % 10) && t[|t| - 1] == Digit(n % 10);
    assert m >= 10 <==> |s| >= 2;
    assert n >= 10 <==> |t| >= 2;
    if m >= 10 {
      assert s[..|s| - 1] == Decimal(m / 10) && t[..|t| - 1] == Decimal(n / 10);
      DecimalInjective(m / 10, n / 10);
    }
  }
}
