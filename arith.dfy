/** Powers of two and the few facts about floor division and remainder
    that the Hilbert codec relies on. For a positive divisor Dafny's `/`
    and `%` are floor division and a non-negative remainder, exactly like
    Python's `//` and `%`. */
module Arith {

  /** 2^k, the `2 ** k` of the codec. */
  function Pow2(k: nat): (r: nat)
    ensures r >= 1
  {
    if k == 0 then 1 else 2 * Pow2(k - 1)
  }

  /** 4^k, the number of cells of a curve of order k. */
  function Pow4(k: nat): (r: nat)
    ensures r >= 1
  {
    if k == 0 then 1 else 4 * Pow4(k - 1)
  }

  /** Doubling a side quadruples the square. */
  lemma SquareDouble(s: int)
    ensures (2 * s) * (2 * s) == 4 * (s * s)
  {
  }

  /** 4^k is the number of cells of the 2^k x 2^k grid. */
  lemma {:induction false} Pow4IsSquare(k: nat)
    ensures Pow4(k) == Pow2(k) * Pow2(k)
  {
    if k > 0 {
      Pow4IsSquare(k - 1);
      SquareDouble(Pow2(k - 1));
    }
  }

  /** `2 ** (2 * k)`, the way generate_hilbert_points counts cells. */
  lemma {:induction false} Pow2Double(k: nat)
    ensures Pow2(2 * k) == Pow4(k)
  {
    if k > 0 {
      Pow2Double(k - 1);
      assert Pow2(2 * k) == 4 * Pow2(2 * (k - 1));
    }
  }

  /** 2^j < 2^k for j < k. */
  lemma {:induction false} Pow2Increasing(j: nat, k: nat)
    requires j < k
    ensures Pow2(j) < Pow2(k)
  {
    if j < k - 1 {
      Pow2Increasing(j, k - 1);
    }
  }

  /** Uniqueness of floor division: the quotient and remainder are fixed
      by any decomposition x == q * s + r with 0 <= r < s. */
  lemma DivModUnique(x: int, s: int, q: int, r: int)
    requires s > 0 && 0 <= r < s && x == q * s + r
    ensures x / s == q && x % s == r
  {
    var q', r' := x / s, x % s;
    assert x == q' * s + r';
    assert (q - q') * s == r' - r;
    if q > q' {
      assert (q - q') * s >= s by { MulAtLeast(q - q', s); }
    } else if q < q' {
      assert (q' - q) * s >= s by { MulAtLeast(q' - q, s); }
    }
  }

  lemma MulAtLeast(a: int, s: int)
    requires a >= 1 && s > 0
    ensures a * s >= s
  {
  }

  /** A remainder modulo 2s is the remainder modulo s plus s times bit
      `s` of the original value, and that bit is its quotient by s. */
  lemma ModDouble(x: int, s: int)
    requires s > 0
    ensures x % (2 * s) == x % s + (if (x / s) % 2 == 0 then 0 else s)
    ensures (x % (2 * s)) / s == (x / s) % 2
  {
    var r := x % (2 * s);
    var big := x / (2 * s);
    assert x == big * (2 * s) + r;
    DivModUnique(r, s, if r < s then 0 else 1, if r < s then r else r - s);
    var b := r / s;
    assert x == (2 * big + b) * s + r % s;
    DivModUnique(x, s, 2 * big + b, r % s);
    DivModUnique(x / s, 2, big, b);
  }

  /** p times a base-4 digit lies in [0, 3p]. */
  lemma MulDigitBound(p: int, d: int)
    requires p > 0 && 0 <= d < 4
    ensures 0 <= p * d <= 3 * p
  {
    if d == 0 {
      assert p * d == 0;
    } else if d == 1 {
      assert p * d == p;
    } else if d == 2 {
      assert p * d == p + p;
    } else {
      assert p * d == p + p + p;
    }
  }

  /** Multiplying out a value whose quotient by p is written hi * 4 + d. */
  lemma ExpandDigit(i: int, p: int, hi: int, d: int, r: int)
    requires i == (hi * 4 + d) * p + r
    ensures i == hi * (p * 4) + (p * d + r)
  {
  }

  /** Splitting off one base-4 digit: with P == 4^j, the remainder modulo
      4P is the remainder modulo P plus P times digit j, and the quotient
      by 4P is the quotient by P divided by 4. */
  lemma DigitSplit(i: int, p: int)
    requires p > 0
    ensures i % (p * 4) == i % p + p * ((i / p) % 4)
    ensures i / (p * 4) == (i / p) / 4
  {
    var q, r := i / p, i % p;
    var hi, d := q / 4, q % 4;
    assert q == hi * 4 + d;
    assert i == q * p + r;
    ExpandDigit(i, p, hi, d, r);
    MulDigitBound(p, d);
    DivModUnique(i, p * 4, hi, p * d + r);
  }

  /** Halving 2^k, with floor division: 2^(k-1), or 0 when k == 0. */
  lemma HalvePow2(k: nat)
    ensures Pow2(k) / 2 == if k == 0 then 0 else Pow2(k - 1)
  {
    if k > 0 {
      DivModUnique(Pow2(k), 2, Pow2(k - 1), 0);
    }
  }
}
