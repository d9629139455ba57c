/** The logger writes the six date/time fields as binary-coded decimal:
    one decimal digit per nibble. h2d turns such a byte back into its value. */
module Bcd {
  import opened Bytes

  /** int(x/16)*10 + x%16 */
  function H2d(x: byte): (r: nat)
  {
    (x / 16) * 10 + x % 16
  }

  /** Both nibbles are decimal digits. */
  predicate IsBcd(x: byte)
  {
    x / 16 <= 9 && x % 16 <= 9
  }

  /** The byte the logger writes for a two-digit decimal value. */
  function ToBcd(n: nat): (x: byte)
    requires n < 100
    ensures IsBcd(x)
  {
    (n / 10) * 16 + n % 10
  }

  /** h2d(16*a + b) == 10*a + b for decimal digits a and b. */
  lemma H2dOfDigits(a: nat, b: nat)
    requires a <= 9 && b <= 9
    ensures 16 * a + b < 256
    ensures H2d(16 * a + b) == 10 * a + b
  {
    var x := 16 * a + b;
    assert x / 16 == a && x % 16 == b by {
      assert x == 16 * a + b && 0 <= b < 16;
    }
  }

  /** Decoding undoes encoding for every two-digit value ... */
  lemma H2dToBcd(n: nat)
    requires n < 100
    ensures H2d(ToBcd(n)) == n
  {
    H2dOfDigits(n / 10, n % 10);
  }

  /** ... and encoding undoes decoding for every BCD byte. */
  lemma ToBcdH2d(x: byte)
    requires IsBcd(x)
    ensures H2d(x) < 100 && ToBcd(H2d(x)) == x
  {
    var a, b := x / 16, x % 16;
    assert x == 16 * a + b;
    H2dOfDigits(a, b);
    var n := 10 * a + b;
    assert n / 10 == a && n % 10 == b;
  }
}
