/** Java's `Integer.toString` and `Integer.parseInt` on code units, with the 32-bit range made explicit. */
module Decimals {
  import opened CodeUnits
  import opened DataTree

  const MAX_INT: int := 0x7FFF_FFFF
  const MIN_INT: int := -0x8000_0000

  /** Two's-complement wrap-around of a 32-bit sum. */
  function Wrap(n: int): (r: int)
    ensures MIN_INT <= r <= MAX_INT
    ensures MIN_INT <= n <= MAX_INT ==> r == n
  {
    (n - MIN_INT) % 0x1_0000_0000 + MIN_INT
  }

  predicate IsDigit(c: CodeUnit) {
    ZERO <= c <= ZERO + 9
  }

  predicate AllDigits(t: Text) {
    forall i :: 0 <= i < |t| ==> IsDigit(t[i])
  }

  function Digits(n: nat): (t: Text)
    ensures t != [] && AllDigits(t)
  {
    if n < 10 then [ZERO + n] else Digits(n / 10) + [ZERO + n % 10]
  }

  function ToString(n: int): Text {
    if n < 0 then [MINUS] + Digits(-n) else Digits(n)
  }

  function ValueOfDigits(t: Text): nat
    requires AllDigits(t)
  {
    if t == [] then 0 else 10 * ValueOfDigits(t[..|t| - 1]) + (t[|t| - 1] - ZERO)
  }

  /** `Integer.parseInt`: an optional sign, at least one digit, nothing else, within range. */
  function ParseInt(t: Text): Option<int> {
    var signed := t != [] && (t[0] == MINUS || t[0] == PLUS);
    var digits := if signed then t[1..] else t;
    if digits == [] || !AllDigits(digits) then None
    else
      var magnitude: int := ValueOfDigits(digits);
      var n := if signed && t[0] == MINUS then -magnitude else magnitude;
      if MIN_INT <= n <= MAX_INT then Some(n) else None
  }

  lemma {:induction false} ValueOfDigitsOf(n: nat)
    ensures ValueOfDigits(Digits(n)) == n
  {
    var t := Digits(n);
    if n >= 10 {
      ValueOfDigitsOf(n / 10);
      assert t[..|t| - 1] == Digits(n / 10);
    } else {
      assert t[..0] == [];
    }
  }

  /** Printing an int and parsing it again is the identity, so distinct ints print differently. */
  lemma ParsePrinted(n: int)
    requires MIN_INT <= n <= MAX_INT
    ensures ParseInt(ToString(n)) == Some(n)
  {
    if n < 0 {
      ValueOfDigitsOf(-n);
      assert ToString(n)[1..] == Digits(-n);
    } else {
      ValueOfDigitsOf(n);
    }
  }
}
