/** Types, character classes and arithmetic that several modules share. */
module Basics {

  datatype Option<+T> = None | Some(value: T)

  type Byte = b: int | 0 <= b < 256

  /** `isalnum` in the C locale. */
  predicate IsAlnum(c: char) {
    '0' <= c <= '9' || 'A' <= c <= 'Z' || 'a' <= c <= 'z'
  }

  predicate IsHex(c: char) {
    '0' <= c <= '9' || 'a' <= c <= 'f' || 'A' <= c <= 'F'
  }

  function HexValue(c: char): (n: nat)
    requires IsHex(c)
    ensures n < 16
  {
    if c <= '9' then c as int - '0' as int
    else if c <= 'F' then c as int - 'A' as int + 10
    else c as int - 'a' as int + 10
  }

  /** The digit that `%x` prints. */
  function HexDigit(n: nat): (c: char)
    requires n < 16
    ensures IsHex(c) && HexValue(c) == n && IsAlnum(c)
  {
    if n < 10 then ('0' as int + n) as char else ('a' as int + n - 10) as char
  }

  function One(b: bool): nat {
    if b then 1 else 0
  }

  /** The bit of `m` with weight `bit`, read off a sum in which it stands apart. */
  lemma BitIs(m: nat, bit: nat, x: nat, above: nat, below: nat)
    requires below < bit && x < 2 && m == bit * (2 * above + x) + below
    ensures m / bit % 2 == x
  {
    QuotientIs(m, bit, 2 * above + x, below);
  }

  lemma QuotientIs(n: nat, d: nat, q: nat, r: nat)
    requires r < d && n == d * q + r
    ensures n / d == q
  {
    var x := n / d;
    assert d * (x - q) == r - n % d && d * (q - x) == n % d - r;
    AtLeast(d, x - q);
    AtLeast(d, q - x);
  }

  lemma AtLeast(d: nat, k: int)
    ensures k >= 1 ==> d * k >= d
  {
  }
}
