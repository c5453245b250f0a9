/** Facts about division, remainders and powers of two that the models share. */
module Arith {

  lemma MulAtLeast(w: int, k: int)
    requires w > 0 && k > 0
    ensures w * k >= w
  {}

  lemma MulNext(a: int, b: int)
    ensures a * (b + 1) == a * b + a
  {}

  lemma QuotientUnique(w: int, a: int, r: int, b: int, s: int)
    requires w > 0 && w * a + r == w * b + s && 0 <= r < w && 0 <= s < w
    ensures a == b && r == s
  {
    assert w * (a - b) == s - r;
    if a > b { MulAtLeast(w, a - b); }
    if a < b { MulAtLeast(w, b - a); }
  }

  lemma UniqueRemainder(x: int, q: int, r: int, w: int)
    requires w > 0 && x == w * q + r && 0 <= r < w
    ensures x % w == r && x / w == q
  {
    assert x == w * (x / w) + x % w;
    QuotientUnique(w, x / w, x % w, q, r);
  }

  lemma ModSmall(x: int, w: int)
    requires 0 <= x < w
    ensures x % w == x
  {
    UniqueRemainder(x, 0, x, w);
  }

  /** Adding a multiple of the modulus does not change the remainder. */
  lemma ModShift(a: int, k: int, w: int)
    requires w > 0
    ensures (a + w * k) % w == a % w
  {
    assert a == w * (a / w) + a % w;
    assert w * (k + a / w) == w * k + w * (a / w);
    UniqueRemainder(a + w * k, k + a / w, a % w, w);
  }

  /** Two numbers less than w apart with the same remainder are equal. */
  lemma ModInjective(a: int, b: int, w: int)
    requires w > 0 && a % w == b % w && -w < a - b < w
    ensures a == b
  {
    assert a == w * (a / w) + a % w;
    assert b == w * (b / w) + b % w;
    assert w * (a / w - b / w) == a - b;
    if a / w > b / w { MulAtLeast(w, a / w - b / w); }
    if a / w < b / w { MulAtLeast(w, b / w - a / w); }
  }

  /** Reducing an operand first does not change a remainder. */
  lemma ModOfSum(a: int, b: int, w: int)
    requires w > 0
    ensures (a % w + b) % w == (a + b) % w
  {
    assert a == w * (a / w) + a % w;
    ModShift(a % w + b, a / w, w);
  }

  /** The difference of two remainders recovers a difference below the modulus. */
  lemma ModDifference(p: int, g: int, w: int)
    requires w > 0 && 0 <= p - g < w
    ensures (p % w - g % w) % w == p - g
  {
    var a, b := p / w, g / w;
    assert p == w * a + p % w && g == w * b + g % w;
    assert p % w - g % w == w * (b - a) + (p - g);
    UniqueRemainder(p % w - g % w, b - a, p - g, w);
  }

  /** How quotient and remainder grow. */
  lemma NextQuotient(p: int, w: int)
    requires w > 0
    ensures p % w + 1 < w ==> (p + 1) / w == p / w && (p + 1) % w == p % w + 1
    ensures p % w + 1 == w ==> (p + 1) / w == p / w + 1 && (p + 1) % w == 0
  {
    var q, m := p / w, p % w;
    assert p == w * q + m;
    if m + 1 < w {
      UniqueRemainder(p + 1, q, m + 1, w);
    } else {
      assert w * (q + 1) == w * q + w;
      UniqueRemainder(p + 1, q + 1, 0, w);
    }
  }
}
