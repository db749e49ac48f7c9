/** Uniqueness of quotient and remainder. */
module Arithmetic {
  lemma QuotientIs(n: int, divisor: int, quotient: int, remainder: int)
    requires divisor > 0 && 0 <= remainder < divisor && n == divisor * quotient + remainder
    ensures n / divisor == quotient && n % divisor == remainder
  {
    var difference := n / divisor - quotient;
    assert divisor * difference == remainder - n % divisor;
    MultipleOutOfReach(divisor, difference);
  }

  lemma MultipleOutOfReach(divisor: int, multiple: int)
    requires divisor > 0
    ensures multiple > 0 ==> divisor * multiple >= divisor
    ensures multiple < 0 ==> divisor * multiple <= -divisor
  {
  }
}
