/** Facts about division. */
module Arithmetic {

  function Quotient(n: int, d: int): (q: int)
    requires d > 0
    ensures n >= 0 ==> q >= 0
  {
    n / d
  }

  lemma DivideTwice(u: nat, p: nat)
    requires p > 0
    ensures u / 256 / p == u / (256 * p)
  {
    var q, r := u / (256 * p), u % (256 * p);
    assert u == 256 * p * q + r;
    assert u / 256 == p * q + r / 256;
    assert 0 <= r / 256 < p;
    DivideUnique(u / 256, p, q, r / 256);
  }

  lemma DivideUnique(n: int, p: int, q: int, r: int)
    requires p > 0 && n == p * q + r && 0 <= r < p
    ensures n / p == q && n % p == r
  {
    var d := n / p - q;
    assert p * d == r - n % p;
    Multiple(p, d);
  }

  lemma Multiple(p: int, d: int)
    requires p > 0
    ensures d >= 1 ==> p * d >= p
    ensures d <= -1 ==> p * d <= -p
  {
  }

  lemma ProductSign(q: int, p: int)
    requires p > 0
    ensures q * p > 0 <==> q > 0
  {
    Multiple(p, q);
  }

  lemma MoreOfLarger(q: nat, d: nat, a: nat, b: nat)
    requires q > d && a >= b && a > 0
    ensures q * a > d * b
  {
    Multiple(a, q - d);
    assert q * a == (q - d) * a + d * a;
    assert d * a == d * b + d * (a - b);
  }
}
