/** The few facts about products and quotients the models need. */
module Arithmetic {

  lemma MulLe(a: int, b: int, c: int)
    requires a <= b && 0 <= c
    ensures a * c <= b * c
  {
    assert (b - a) * c >= 0;
  }

  lemma MulSucc(a: int, c: int)
    ensures (a + 1) * c == a * c + c
  {
  }

  lemma DivMod(w: int, b: int)
    requires b > 0
    ensures w == (w / b) * b + w % b
    ensures 0 <= w % b < b
  {
  }

  /** A quotient and a remainder are determined by what they make. */
  lemma QuotientUnique(q: int, r: int, q': int, r': int, b: int)
    requires 0 <= r < b && 0 <= r' < b && q * b + r == q' * b + r'
    ensures q == q' && r == r'
  {
    if q < q' {
      MulLe(q + 1, q', b);
      MulSucc(q, b);
    } else if q' < q {
      MulLe(q' + 1, q, b);
      MulSucc(q', b);
    }
  }

  lemma DivModOf(q: int, r: int, b: int)
    requires 0 <= r < b
    ensures (q * b + r) / b == q && (q * b + r) % b == r
  {
    var w := q * b + r;
    DivMod(w, b);
    QuotientUnique(w / b, w % b, q, r, b);
  }

  lemma DivMono(a: int, c: int, b: int)
    requires a <= c && b > 0
    ensures a / b <= c / b
  {
    DivMod(a, b);
    DivMod(c, b);
    if c / b < a / b {
      MulLe(c / b + 1, a / b, b);
      MulSucc(c / b, b);
    }
  }

  lemma DivNonNegative(a: int, b: int)
    requires 0 <= a && 0 < b
    ensures 0 <= a / b <= a
  {
    DivMod(a, b);
    if a / b < 0 {
      MulLe(a / b, -1, b);
    } else {
      MulLe(1, b, a / b);
    }
  }
}
