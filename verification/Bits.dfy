/** Binary digits of natural numbers: the shifts and counting instructions
    (`count_ones`, `trailing_ones`, `trailing_zeros`, `leading_zeros`) that the
    mountain-range position arithmetic is built on. */
module Bits {

  /** `n << k` without a word boundary. */
  function Shl(n: nat, k: nat): (r: nat)
    ensures r >= n
    ensures r == 0 <==> n == 0
  {
    if k == 0 then n else 2 * Shl(n, k - 1)
  }

  /** `n >> k` */
  function Shr(n: nat, k: nat): (r: nat)
    ensures r <= n
  {
    if k == 0 then n else Shr(n / 2, k - 1)
  }

  /** `count_ones` */
  function Popcount(n: nat): (r: nat)
    ensures r <= n
    ensures r == 0 <==> n == 0
  {
    if n == 0 then 0 else n % 2 + Popcount(n / 2)
  }

  /** `trailing_ones` */
  function TrailingOnes(n: nat): nat {
    if n % 2 == 1 then 1 + TrailingOnes(n / 2) else 0
  }

  /** `trailing_zeros` of a non-zero number */
  function TrailingZeros(n: nat): nat
    requires n > 0
  {
    if n % 2 == 0 then 1 + TrailingZeros(n / 2) else 0
  }

  /** Number of significant digits: the word width minus `leading_zeros`. */
  function BitLength(n: nat): nat {
    if n == 0 then 0 else 1 + BitLength(n / 2)
  }

  lemma {:induction false} BitLengthBound(n: nat)
    ensures n < Shl(1, BitLength(n))
  {
    if n > 0 {
      BitLengthBound(n / 2);
    }
  }

  lemma {:induction false} ShlAdd(a: nat, b: nat, k: nat)
    ensures Shl(a + b, k) == Shl(a, k) + Shl(b, k)
  {
    if k > 0 {
      ShlAdd(a, b, k - 1);
    }
  }

  lemma {:induction false} ShlDouble(n: nat, k: nat)
    ensures Shl(2 * n, k) == Shl(n, k + 1)
  {
    ShlAdd(n, n, k);
  }

  /** The span of a node splits at its children's boundary. */
  lemma ChildSpans(i: nat, h: nat)
    ensures Shl(2 * i, h) == Shl(i, h + 1)
    ensures Shl(2 * i, h) < Shl(2 * i + 1, h) < Shl(2 * i + 2, h)
    ensures Shl(2 * i + 2, h) == Shl(i + 1, h + 1)
  {
    ShlDouble(i, h);
    ShlDouble(i + 1, h);
    ShlAdd(2 * i, 1, h);
    ShlAdd(2 * i + 1, 1, h);
  }

  lemma ShlMonotone(a: nat, b: nat, k: nat)
    requires a <= b
    ensures Shl(a, k) <= Shl(b, k)
  {
    ShlAdd(a, b - a, k);
  }

  lemma {:induction false} ShrStep(n: nat, k: nat)
    ensures Shr(n, k + 1) == Shr(n, k) / 2
  {
    if k > 0 {
      ShrStep(n / 2, k - 1);
    }
  }

  /** Splitting off the low `k` digits. */
  lemma {:induction false} ShrBounds(n: nat, k: nat)
    ensures Shl(Shr(n, k), k) <= n < Shl(Shr(n, k) + 1, k)
  {
    if k > 0 {
      ShrBounds(n / 2, k - 1);
    }
  }

  lemma ShrUnique(n: nat, k: nat, q: nat)
    requires Shl(q, k) <= n < Shl(q + 1, k)
    ensures Shr(n, k) == q
  {
    ShrBounds(n, k);
    var s := Shr(n, k);
    if s < q {
      ShlMonotone(s + 1, q, k);
    } else if q < s {
      ShlMonotone(q + 1, s, k);
    }
  }

  /** Dividing by the word that holds a single one at digit `k` is a shift. */
  lemma {:induction false} ShrIsDivision(n: nat, k: nat)
    ensures n / Shl(1, k) == Shr(n, k)
  {
    if k > 0 {
      ShrIsDivision(n / 2, k - 1);
      HalfThenDivide(n, Shl(1, k - 1));
    }
  }

  lemma HalfThenDivide(n: nat, d: nat)
    requires d > 0
    ensures (n / 2) / d == n / (2 * d)
  {
    var q, r := (n / 2) / d, (n / 2) % d;
    assert n / 2 == d * q + r;
    assert n == (2 * d) * q + (2 * r + n % 2);
    QuotientUnique(n, 2 * d, q, 2 * r + n % 2);
  }

  lemma QuotientUnique(n: nat, d: nat, q: nat, r: nat)
    requires r < d && n == d * q + r
    ensures n / d == q
  {
    var q' := n / d;
    assert d * q' <= n < d * q' + d;
    if q' < q {
      ProductGap(d, q', q);
    } else if q < q' {
      ProductGap(d, q, q');
    }
  }

  lemma {:induction false} ProductGap(d: nat, a: nat, b: nat)
    requires a < b
    ensures d * a + d <= d * b
  {
    assert d * b == d * (b - 1) + d;
    if a < b - 1 {
      ProductGap(d, a, b - 1);
    }
  }

  lemma {:induction false} ShlIsProduct(n: nat, k: nat)
    ensures Shl(n, k) == n * Shl(1, k)
  {
    if k > 0 {
      ShlIsProduct(n, k - 1);
      assert n * (2 * Shl(1, k - 1)) == 2 * (n * Shl(1, k - 1));
    }
  }

  lemma {:induction false} ShlShl(n: nat, a: nat, b: nat)
    ensures Shl(Shl(n, a), b) == Shl(n, a + b)
  {
    if b > 0 {
      ShlShl(n, a, b - 1);
    }
  }

  lemma Pow2Square(k: nat)
    ensures Shl(1, 2 * k) == Shl(1, k) * Shl(1, k)
  {
    hide Shl;
    ShlShl(1, k, k);
    assert k + k == 2 * k;
    ShlIsProduct(Shl(1, k), k);
  }

  /** Adding one turns the trailing ones into zeros and sets one digit. */
  lemma {:induction false} PopcountIncrement(n: nat)
    ensures Popcount(n + 1) + TrailingOnes(n) == Popcount(n) + 1
  {
    if n % 2 == 1 {
      PopcountIncrement(n / 2);
      assert (n + 1) / 2 == n / 2 + 1;
    }
  }

  lemma TrailingOnesParity(n: nat)
    ensures TrailingOnes(n) > 0 <==> n % 2 == 1
  {
  }

  lemma {:induction false} TrailingZerosOfSuccessor(n: nat)
    ensures TrailingZeros(n + 1) == TrailingOnes(n)
  {
    if n % 2 == 1 {
      TrailingZerosOfSuccessor(n / 2);
      assert (n + 1) / 2 == n / 2 + 1;
    }
  }

  /** Appending a binary digit. */
  lemma PopcountDouble(n: nat)
    ensures Popcount(2 * n) == Popcount(n)
    ensures Popcount(2 * n + 1) == Popcount(n) + 1
  {
    assert (2 * n) / 2 == n;
    assert (2 * n + 1) / 2 == n;
  }

  lemma TrailingOnesDouble(n: nat)
    ensures TrailingOnes(2 * n + 1) == TrailingOnes(n) + 1
  {
    assert (2 * n + 1) / 2 == n;
  }

  lemma {:induction false} PopcountShl(n: nat, k: nat)
    ensures Popcount(Shl(n, k)) == Popcount(n)
  {
    if k > 0 {
      PopcountShl(n, k - 1);
      PopcountDouble(Shl(n, k - 1));
    }
  }

  /** The number just below a multiple of `2^h` ends in `h` ones. */
  lemma {:induction false} PopcountBelowMultiple(i: nat, h: nat)
    ensures Popcount(Shl(i + 1, h) - 1) == Popcount(i) + h
  {
    if h > 0 {
      var below := Shl(i + 1, h - 1) - 1;
      assert Shl(i + 1, h) - 1 == 2 * below + 1;
      hide Popcount, Shl;
      PopcountBelowMultiple(i, h - 1);
      PopcountDouble(below);
    }
  }

  lemma {:induction false} OnesBelowMultiple(i: nat, h: nat)
    ensures TrailingOnes(Shl(i + 1, h) - 1) == h + TrailingOnes(i)
  {
    if h > 0 {
      var below := Shl(i + 1, h - 1) - 1;
      assert Shl(i + 1, h) - 1 == 2 * below + 1;
      hide TrailingOnes, Shl;
      OnesBelowMultiple(i, h - 1);
      TrailingOnesDouble(below);
    }
  }

  /** A number ending in at least `h` ones is just below a multiple of `2^h`. */
  lemma {:induction false} MultipleAboveOnes(n: nat, h: nat)
    requires h <= TrailingOnes(n)
    ensures n == Shl(Shr(n, h) + 1, h) - 1
    ensures TrailingOnes(Shr(n, h)) == TrailingOnes(n) - h
  {
    if h > 0 {
      MultipleAboveOnes(n / 2, h - 1);
    }
  }
}
