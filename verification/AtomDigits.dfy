/**
  Sixteen bits tell apart base-nine numerals of up to twelve digits 0 and 1. The
  powers of nine modulo 2^16, with the sign that makes them small, are the weights
  below; with factors -1, 0 and 1 they give a multiple of 2^16 only if all factors
  are 0.
 */
module AtomDigits {

  /** The difference of two digits at one place. */
  type Trit = d: int | d == -1 || d == 0 || d == 1

  /** The weights, heaviest first. */
  function Weighed(a: int, b: int, c: int, e: int, f: int, g: int,
                   h: int, i: int, j: int, k: int, p: int, q: int): int {
    28343 * a + 10431 * b + 7153 * c + 7057 * e + 6561 * f + 6487 * g + 2023 * h
    + 1159 * i + 729 * j + 81 * k + 9 * p + q
  }

  /** The heaviest weight is not balanced by the others; first with the next one against it. */
  lemma Lead28343Minus(c: Trit, e: Trit, f: Trit, g: Trit, h: Trit, i: Trit, j: Trit, k: Trit, p: Trit, q: Trit)
    ensures 17912 + 7153 * c + 7057 * e + 6561 * f + 6487 * g + 2023 * h + 1159 * i
            + 729 * j + 81 * k + 9 * p + q != 0
  {}

  lemma Lead28343(b: Trit, c: Trit, e: Trit, f: Trit, g: Trit, h: Trit, i: Trit, j: Trit, k: Trit, p: Trit,
                  q: Trit)
    ensures Weighed(1, b, c, e, f, g, h, i, j, k, p, q) != 0
  {
    if b == -1 { Lead28343Minus(c, e, f, g, h, i, j, k, p, q); }
  }

  lemma With28343(a: Trit, b: Trit, c: Trit, e: Trit, f: Trit, g: Trit, h: Trit, i: Trit, j: Trit, k: Trit,
                  p: Trit, q: Trit)
    requires a != 0
    ensures Weighed(a, b, c, e, f, g, h, i, j, k, p, q) != 0
  {
    hide Weighed;
    if a == 1 {
      Lead28343(b, c, e, f, g, h, i, j, k, p, q);
    } else {
      Lead28343(-b, -c, -e, -f, -g, -h, -i, -j, -k, -p, -q);
      Negated(a, b, c, e, f, g, h, i, j, k, p, q);
    }
  }

  /** Nor is the next one, and so on. */
  lemma Lead10431Minus(e: Trit, f: Trit, g: Trit, h: Trit, i: Trit, j: Trit, k: Trit, p: Trit, q: Trit)
    ensures 3278 + 7057 * e + 6561 * f + 6487 * g + 2023 * h + 1159 * i + 729 * j
            + 81 * k + 9 * p + q != 0
  {}

  lemma Lead10431(c: Trit, e: Trit, f: Trit, g: Trit, h: Trit, i: Trit, j: Trit, k: Trit, p: Trit, q: Trit)
    ensures Weighed(0, 1, c, e, f, g, h, i, j, k, p, q) != 0
  {
    if c == -1 { Lead10431Minus(e, f, g, h, i, j, k, p, q); }
  }

  lemma With10431(b: Trit, c: Trit, e: Trit, f: Trit, g: Trit, h: Trit, i: Trit, j: Trit, k: Trit, p: Trit,
                  q: Trit)
    requires b != 0
    ensures Weighed(0, b, c, e, f, g, h, i, j, k, p, q) != 0
  {
    hide Weighed;
    if b == 1 {
      Lead10431(c, e, f, g, h, i, j, k, p, q);
    } else {
      Lead10431(-c, -e, -f, -g, -h, -i, -j, -k, -p, -q);
      Negated(0, b, c, e, f, g, h, i, j, k, p, q);
    }
  }

  lemma Lead7153(e: Trit, f: Trit, g: Trit, h: Trit, i: Trit, j: Trit, k: Trit, p: Trit, q: Trit)
    ensures Weighed(0, 0, 1, e, f, g, h, i, j, k, p, q) != 0
  {}

  lemma With7153(c: Trit, e: Trit, f: Trit, g: Trit, h: Trit, i: Trit, j: Trit, k: Trit, p: Trit, q: Trit)
    requires c != 0
    ensures Weighed(0, 0, c, e, f, g, h, i, j, k, p, q) != 0
  {
    hide Weighed;
    if c == 1 {
      Lead7153(e, f, g, h, i, j, k, p, q);
    } else {
      Lead7153(-e, -f, -g, -h, -i, -j, -k, -p, -q);
      Negated(0, 0, c, e, f, g, h, i, j, k, p, q);
    }
  }

  lemma Lead7057(f: Trit, g: Trit, h: Trit, i: Trit, j: Trit, k: Trit, p: Trit, q: Trit)
    ensures Weighed(0, 0, 0, 1, f, g, h, i, j, k, p, q) != 0
  {}

  lemma With7057(e: Trit, f: Trit, g: Trit, h: Trit, i: Trit, j: Trit, k: Trit, p: Trit, q: Trit)
    requires e != 0
    ensures Weighed(0, 0, 0, e, f, g, h, i, j, k, p, q) != 0
  {
    hide Weighed;
    if e == 1 {
      Lead7057(f, g, h, i, j, k, p, q);
    } else {
      Lead7057(-f, -g, -h, -i, -j, -k, -p, -q);
      Negated(0, 0, 0, e, f, g, h, i, j, k, p, q);
    }
  }

  lemma Lead6561(g: Trit, h: Trit, i: Trit, j: Trit, k: Trit, p: Trit, q: Trit)
    ensures Weighed(0, 0, 0, 0, 1, g, h, i, j, k, p, q) != 0
  {}

  lemma With6561(f: Trit, g: Trit, h: Trit, i: Trit, j: Trit, k: Trit, p: Trit, q: Trit)
    requires f != 0
    ensures Weighed(0, 0, 0, 0, f, g, h, i, j, k, p, q) != 0
  {
    hide Weighed;
    if f == 1 {
      Lead6561(g, h, i, j, k, p, q);
    } else {
      Lead6561(-g, -h, -i, -j, -k, -p, -q);
      Negated(0, 0, 0, 0, f, g, h, i, j, k, p, q);
    }
  }

  lemma Lead6487(h: Trit, i: Trit, j: Trit, k: Trit, p: Trit, q: Trit)
    ensures Weighed(0, 0, 0, 0, 0, 1, h, i, j, k, p, q) != 0
  {}

  lemma With6487(g: Trit, h: Trit, i: Trit, j: Trit, k: Trit, p: Trit, q: Trit)
    requires g != 0
    ensures Weighed(0, 0, 0, 0, 0, g, h, i, j, k, p, q) != 0
  {
    hide Weighed;
    if g == 1 {
      Lead6487(h, i, j, k, p, q);
    } else {
      Lead6487(-h, -i, -j, -k, -p, -q);
      Negated(0, 0, 0, 0, 0, g, h, i, j, k, p, q);
    }
  }

  predicate Small(d: int) { -1 <= d <= 1 }

  /** From here on each weight exceeds all lighter ones together. */
  lemma LightWeights(h: int, i: int, j: int, k: int, p: int, q: int)
    requires Small(h) && Small(i) && Small(j) && Small(k) && Small(p) && Small(q)
    requires Weighed(0, 0, 0, 0, 0, 0, h, i, j, k, p, q) == 0
    ensures h == i == j == k == p == q == 0
  {
    assert -1979 <= 2023 * h <= 1979;
    assert h == 0;
    assert -820 <= 1159 * i <= 820;
    assert i == 0;
    assert -91 <= 729 * j <= 91;
    assert j == 0;
    assert -10 <= 81 * k <= 10;
    assert k == 0;
    assert -1 <= 9 * p <= 1;
  }

  /** All weights together barely exceed 2^16, and no choice of factors meets it. */
  lemma NeverAllTheWay(a: Trit, b: Trit, c: Trit, e: Trit, f: Trit, g: Trit, h: Trit, i: Trit, j: Trit,
                       k: Trit, p: Trit, q: Trit)
    ensures Weighed(a, b, c, e, f, g, h, i, j, k, p, q) != 0x1_0000
  {}

  lemma Negated(a: int, b: int, c: int, e: int, f: int, g: int, h: int, i: int, j: int, k: int, p: int, q: int)
    ensures Weighed(-a, -b, -c, -e, -f, -g, -h, -i, -j, -k, -p, -q)
         == -Weighed(a, b, c, e, f, g, h, i, j, k, p, q)
  {}

  /** So the sum vanishes only with all factors. */
  lemma OnlyTrivially(a: Trit, b: Trit, c: Trit, e: Trit, f: Trit, g: Trit, h: Trit, i: Trit, j: Trit,
                      k: Trit, p: Trit, q: Trit)
    requires Weighed(a, b, c, e, f, g, h, i, j, k, p, q) == 0
    ensures a == b == c == e == f == g == h == i == j == k == p == q == 0
  {
    hide Weighed;
    if a != 0 {
      With28343(a, b, c, e, f, g, h, i, j, k, p, q);
    } else if b != 0 {
      With10431(b, c, e, f, g, h, i, j, k, p, q);
    } else if c != 0 {
      With7153(c, e, f, g, h, i, j, k, p, q);
    } else if e != 0 {
      With7057(e, f, g, h, i, j, k, p, q);
    } else if f != 0 {
      With6561(f, g, h, i, j, k, p, q);
    } else if g != 0 {
      With6487(g, h, i, j, k, p, q);
    } else {
      LightWeights(h, i, j, k, p, q);
    }
  }

  lemma SmallMultiple(a: Trit, b: Trit, c: Trit, e: Trit, f: Trit, g: Trit,
                      h: Trit, i: Trit, j: Trit, k: Trit, p: Trit, q: Trit, m: int)
    requires -1 <= m <= 1 && Weighed(a, b, c, e, f, g, h, i, j, k, p, q) == 0x1_0000 * m
    ensures a == b == c == e == f == g == h == i == j == k == p == q == 0
  {
    hide Weighed;
    NeverAllTheWay(a, b, c, e, f, g, h, i, j, k, p, q);
    NeverAllTheWay(-a, -b, -c, -e, -f, -g, -h, -i, -j, -k, -p, -q);
    Negated(a, b, c, e, f, g, h, i, j, k, p, q);
    OnlyTrivially(a, b, c, e, f, g, h, i, j, k, p, q);
  }

  /** Twelve digits in base nine, the last one first, make k times 2^16. */
  predicate Congruent(d0: int, d1: int, d2: int, d3: int, d4: int, d5: int,
                      d6: int, d7: int, d8: int, d9: int, d10: int, d11: int, k: int)
  {
    d0 + 9 * d1 + 81 * d2 + 729 * d3
      + 6561 * (d4 + 9 * d5 + 81 * d6 + 729 * d7)
      + 43046721 * (d8 + 9 * d9 + 81 * d10 + 729 * d11) == 0x1_0000 * k
  }

  /** The powers of nine differ from the weights by multiples of 2^16. */
  lemma Reduced(d0: int, d1: int, d2: int, d3: int, d4: int, d5: int,
                d6: int, d7: int, d8: int, d9: int, d10: int, d11: int, k: int) returns (m: int)
    requires Congruent(d0, d1, d2, d3, d4, d5, d6, d7, d8, d9, d10, d11, k)
    requires Small(d0) && Small(d1) && Small(d2) && Small(d3) && Small(d4) && Small(d5)
    requires Small(d6) && Small(d7) && Small(d8) && Small(d9) && Small(d10) && Small(d11)
    ensures Weighed(-d9, -d8, d6, d10, d4, -d5, -d11, -d7, d3, d2, d1, d0) == 0x1_0000 * m
    ensures -1 <= m <= 1
  {
    m := k - (d5 + 8 * d6 + 73 * d7 + 657 * d8 + 5912 * d9 + 53204 * d10 + 478837 * d11);
  }

  /** Twelve digit differences, the last digit first: a multiple of 2^16 only if all are 0. */
  lemma TwelveDigits(d0: Trit, d1: Trit, d2: Trit, d3: Trit, d4: Trit, d5: Trit,
                     d6: Trit, d7: Trit, d8: Trit, d9: Trit, d10: Trit, d11: Trit, k: int)
    requires Congruent(d0, d1, d2, d3, d4, d5, d6, d7, d8, d9, d10, d11, k)
    ensures d0 == d1 == d2 == d3 == d4 == d5 == d6 == d7 == d8 == d9 == d10 == d11 == 0
  {
    hide Weighed, Congruent;
    var m := Reduced(d0, d1, d2, d3, d4, d5, d6, d7, d8, d9, d10, d11, k);
    SmallMultiple(-d9, -d8, d6, d10, d4, -d5, -d11, -d7, d3, d2, d1, d0, m);
  }
}
