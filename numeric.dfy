/** Go's fixed-width unsigned integers, bytes, and decimal rendering. */
module Numeric {

  type byte = x: int | 0 <= x < 256

  const TWO_32: nat := 0x1_0000_0000
  const TWO_64: nat := 0x1_0000_0000_0000_0000
  const MAX_INT64: int := 0x7fff_ffff_ffff_ffff
  const MIN_INT64: int := -0x8000_0000_0000_0000

  /** Go's conversion `uint32(x)`: two's-complement truncation to 32 bits. */
  function U32(x: int): (r: nat)
    ensures r < TWO_32
    ensures 0 <= x < TWO_32 ==> r == x
  {
    x % TWO_32
  }

  /**
   * Go's conversion `uint64(x)`, also the result of `+=` on a uint64: x brought into [0, 2^64)
   * by whole multiples of 2^64 (U64IsMod shows this is x modulo 2^64).
   */
  function U64(x: int): (r: nat)
    ensures r < TWO_64
    ensures 0 <= x < TWO_64 ==> r == x
    decreases if x < 0 then 1 else 0, if x < 0 then -x else x
  {
    if x < 0 then U64(x + TWO_64) else if x < TWO_64 then x else U64(x - TWO_64)
  }

  /** The decimal digits of n, as `%d` prints a non-negative integer. */
  function Decimal(n: nat): (s: string)
    ensures |s| >= 1
    ensures forall i :: 0 <= i < |s| ==> '0' <= s[i] <= '9'
  {
    if n < 10 then [DigitChar(n)] else Decimal(n / 10) + [DigitChar(n % 10)]
  }

  function DigitChar(d: nat): (c: char)
    requires d < 10
    ensures '0' <= c <= '9'
  {
    (48 + d) as char
  }

  /** The value of a string of decimal digits. */
  function DigitsValue(s: string): nat
    requires forall i :: 0 <= i < |s| ==> '0' <= s[i] <= '9'
  {
    if s == [] then 0 else DigitsValue(s[..|s| - 1]) * 10 + (s[|s| - 1] as int - 48)
  }

  /** Reading back what `%d` printed gives the number. */
  lemma {:induction false} DecimalRoundTrip(n: nat)
    ensures DigitsValue(Decimal(n)) == n
  {
    if n >= 10 {
      DecimalRoundTrip(n / 10);
      var s := Decimal(n);
      assert s[..|s| - 1] == Decimal(n / 10);
    }
  }

  /** The wrap-around is two's-complement truncation to 64 bits. */
  lemma {:induction false} U64IsMod(x: int)
    ensures U64(x) == x % TWO_64
    decreases if x < 0 then 1 else 0, if x < 0 then -x else x
  {
    if x < 0 {
      U64IsMod(x + TWO_64);
      ModShift(x + TWO_64, 1);
    } else if x >= TWO_64 {
      U64IsMod(x - TWO_64);
      ModShift(x, 1);
    }
  }

  /** Wrapping after every addition is wrapping once at the end. */
  lemma U64Add(a: int, b: int)
    ensures U64(U64(a) + b) == U64(a + b)
  {
    U64IsMod(a);
    U64IsMod(U64(a) + b);
    U64IsMod(a + b);
    var q := a / TWO_64;
    assert a == TWO_64 * q + a % TWO_64;
    assert U64(a) + b == (a + b) - TWO_64 * q;
    ModShift(a + b, q);
  }

  lemma ModShift(x: int, q: int)
    ensures (x - TWO_64 * q) % TWO_64 == x % TWO_64
  {
    var y := x - TWO_64 * q;
    assert x == TWO_64 * (x / TWO_64) + x % TWO_64;
    assert y == TWO_64 * (y / TWO_64) + y % TWO_64;
    assert TWO_64 * (x / TWO_64 - q - y / TWO_64) == y % TWO_64 - x % TWO_64;
    var d: int := x / TWO_64 - q - y / TWO_64;
    assert -(TWO_64 as int) < TWO_64 * d < TWO_64;
  }
}
