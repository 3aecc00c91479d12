/** The three functions of the Math library that the checkpoint searches call. */
module MathLib {
  import opened Arithmetic
  import opened Words

  // ---- average ----

  /** Bitwise "and" of two non-negative integers. */
  function BitAnd(a: nat, b: nat): nat {
    if a == 0 || b == 0 then 0
    else 2 * BitAnd(a / 2, b / 2) + (if a % 2 == 1 && b % 2 == 1 then 1 else 0)
  }

  /** Bitwise "exclusive or" of two non-negative integers. */
  function BitXor(a: nat, b: nat): nat
    decreases a + b
  {
    if a == 0 && b == 0 then 0
    else 2 * BitXor(a / 2, b / 2) + (if a % 2 != b % 2 then 1 else 0)
  }

  /** The binary digit of `n` at position `i`. */
  function Bit(n: nat, i: nat): bool {
    if i == 0 then n % 2 == 1 else Bit(n / 2, i - 1)
  }

  lemma {:induction false} BitsOfZero(i: nat)
    ensures !Bit(0, i)
  {
    if i > 0 {
      BitsOfZero(i - 1);
    }
  }

  /** Both functions work digit by digit. */
  lemma {:induction false} Bitwise(a: nat, b: nat, i: nat)
    ensures Bit(BitAnd(a, b), i) <==> Bit(a, i) && Bit(b, i)
    ensures Bit(BitXor(a, b), i) <==> Bit(a, i) != Bit(b, i)
  {
    BitsOfZero(i);
    if i > 0 {
      Bitwise(a / 2, b / 2, i - 1);
    }
  }

  /** The half-adder identity: carries count twice, the other bits once. */
  lemma {:induction false} AddIsCarryAndSum(a: nat, b: nat)
    ensures a + b == 2 * BitAnd(a, b) + BitXor(a, b)
    decreases a + b
  {
    if a != 0 || b != 0 {
      AddIsCarryAndSum(a / 2, b / 2);
    }
  }

  /** The mean rounded down, computed without the intermediate sum, which may not fit a word. */
  method Average(a: Uint256, b: Uint256) returns (r: Uint256)
    ensures r == (a + b) / 2
  {
    AddIsCarryAndSum(a, b);
    r := BitAnd(a, b) + BitXor(a, b) / 2;
  }

  // ---- log2 ----

  /** The binary logarithm rounded down, by repeated halving. */
  function FloorLog2(n: nat): nat
    requires n > 0
  {
    if n == 1 then 0 else 1 + FloorLog2(n / 2)
  }

  lemma {:induction false} FloorLog2Brackets(n: nat)
    requires n > 0
    ensures Pow2(FloorLog2(n)) <= n < Pow2(FloorLog2(n) + 1)
  {
    if n > 1 {
      FloorLog2Brackets(n / 2);
    }
  }

  lemma {:induction false} FloorLog2Unique(n: nat, k: nat)
    requires n > 0 && Pow2(k) <= n < Pow2(k + 1)
    ensures k == FloorLog2(n)
  {
    FloorLog2Brackets(n);
    if k < FloorLog2(n) {
      Pow2Monotonic(k + 1, FloorLog2(n));
    } else if k > FloorLog2(n) {
      Pow2Monotonic(FloorLog2(n) + 1, k);
    }
  }

  lemma {:induction false} FloorLog2Monotonic(m: nat, n: nat)
    requires 0 < m <= n
    ensures FloorLog2(m) <= FloorLog2(n)
  {
    if m > 1 {
      FloorLog2Monotonic(m / 2, n / 2);
    }
  }

  /** Shifting out `k` low bits takes `k` off the logarithm, as long as a bit is left. */
  lemma ShiftedLog2(v: nat, k: nat, high: nat)
    requires high > 0 && high * Pow2(k) <= v < (high + 1) * Pow2(k)
    ensures FloorLog2(v) == k + FloorLog2(high)
  {
    var log := FloorLog2(high);
    FloorLog2Brackets(high);
    Pow2Add(log, k);
    Pow2Add(log + 1, k);
    MulLe(Pow2(log), high, Pow2(k));
    MulLe(high + 1, Pow2(log + 1), Pow2(k));
    FloorLog2Unique(v, log + k);
  }

  /** `v` is what is left of a value whose logarithm is `log` after its `shift` low bits were shifted out. */
  ghost predicate Left(log: nat, v: nat, shift: nat) {
    v > 0 && FloorLog2(v) + shift == log
  }

  /** One halving of the search interval: when a bit at or above `k` is set, shift right by `k`. */
  method HalveInterval(v: nat, shift: nat, k: nat, power: nat, ghost log: nat) returns (v': nat, shift': nat)
    requires power == Pow2(k) && v < power * power
    requires v > 0 ==> Left(log, v, shift)
    ensures v' < power
    ensures if v == 0 then v' == 0 && shift' == shift else Left(log, v', shift')
  {
    v', shift' := v, shift;
    var high := Div(v, power);
    if high > 0 {
      ShiftedLog2(v, k, high);
      MultipleBelow(v, power, high, power);
      v', shift' := high, shift + k;
    }
  }

  /** Binary search for the most significant bit; zero for zero. */
  method Log2(value: Uint256) returns (result: nat)
    ensures value == 0 ==> result == 0
    ensures value > 0 ==> result == FloorLog2(value)
  {
    ghost var log: nat := if value == 0 then 0 else FloorLog2(value);
    PowersOfTwo();
    var v: nat := value;
    v, result := HalveInterval(v, 0, 128, TWO_128, log);
    v, result := HalveInterval(v, result, 64, 0x1_0000_0000_0000_0000, log);
    v, result := HalveInterval(v, result, 32, 0x1_0000_0000, log);
    v, result := HalveInterval(v, result, 16, 0x1_0000, log);
    v, result := HalveInterval(v, result, 8, 0x100, log);
    v, result := HalveInterval(v, result, 4, 0x10, log);
    v, result := HalveInterval(v, result, 2, 4, log);
    v, result := HalveInterval(v, result, 1, 2, log);
  }

  // ---- sqrt ----

  // The steps take the size of a word as a parameter, so that no proof about products has to deal with
  // the numeral 2^256.

  /** How many of the odd numbers from `odd` on can be taken from `a` in turn. */
  function OddsIn(a: nat, odd: nat): nat
    requires odd > 0
  {
    if a < odd then 0 else 1 + OddsIn(a - odd, odd + 2)
  }

  /** The square root rounded down, as a number of odd numbers: a square is a sum of odd numbers. */
  function FloorSqrt(a: nat): nat {
    OddsIn(a, 1)
  }

  ghost predicate IsFloorSqrt(s: nat, a: nat) {
    s * s <= a < (s + 1) * (s + 1)
  }

  lemma {:induction false} OddsSumToSquares(a: nat, k: nat)
    ensures IsFloorSqrt(k + OddsIn(a, 2 * k + 1), a + k * k)
    decreases a
  {
    Binomial(k, 1);
    if a >= 2 * k + 1 {
      OddsSumToSquares(a - (2 * k + 1), k + 1);
    }
  }

  lemma FloorSqrtIsRoot(a: nat)
    ensures IsFloorSqrt(FloorSqrt(a), a)
  {
    OddsSumToSquares(a, 0);
  }

  lemma FloorSqrtUnique(s: nat, a: nat)
    requires IsFloorSqrt(s, a)
    ensures s == FloorSqrt(a)
  {
    var t := FloorSqrt(a);
    FloorSqrtIsRoot(a);
    if s < t {
      SquareLe(s + 1, t);
    } else if t < s {
      SquareLe(t + 1, s);
    }
  }

  lemma FloorSqrtPositive(a: nat)
    requires a > 0
    ensures 0 < FloorSqrt(a) <= a
  {
    var s := FloorSqrt(a);
    FloorSqrtIsRoot(a);
    if s > 0 {
      MulLe(1, s, s);
    }
  }

  lemma FloorSqrtBelow(a: nat, bound: nat)
    requires a < bound * bound
    ensures FloorSqrt(a) < bound
  {
    var s := FloorSqrt(a);
    FloorSqrtIsRoot(a);
    if s >= bound {
      SquareLe(bound, s);
    }
  }

  /** `x` overshoots the root `s` by at most a fraction 1/m of it, plus 2. */
  ghost predicate Close(s: nat, x: nat, m: nat) {
    s <= x && m * (x - s) <= s + 2 * m
  }

  // The error analysis. `x = s + d` is a guess, `q` its cofactor, `s + e` their mean rounded down.

  lemma MeanNotBelow(a: nat, s: nat, x: nat, q: nat)
    requires s * s <= a < x * (q + 1)
    ensures x + q + 1 > 2 * s
  {
    if x + q + 1 <= 2 * s {
      MeanAboveProduct(x, q + 1);
      SquareLe(x + (q + 1), 2 * s);
      Binomial(s, s);
    }
  }

  lemma ErrorBound(a: nat, s: nat, d: int, q: nat, e: int, r: nat)
    requires (s + d) * q <= a == s * s + r
    requires 2 * (s + e) <= s + d + q
    requires s + d >= 0
    ensures 2 * ((s + d) * e) <= d * d + r
  {
    var x := s + d;
    // x * 2(s + e) <= x * x + x * q
    MulLe(2 * (s + e), x + q, x);
    Distribute(x, s, e);
    Distribute(x, x, q);
    assert (2 * (s + e)) * x == 2 * (x * (s + e));
    assert (x + q) * x == x * (x + q);
    Binomial(s, d);
    Distribute(s, s, d);
    assert x * s == s * (s + d);
  }

  lemma FirstError(s: nat, p: nat, u: nat, e: int, r: nat)
    requires s == p + u && u < p && r <= 2 * s
    requires 2 * (p * e) <= u * u + r
    ensures 4 * e <= s + 8
  {
    MulLe(u, p, u);
    MulLe(u, p, p);
    Distribute(p, u, p);
    assert p * (p + u) == p * p + p * u by { Distribute(p, p, u); }
    assert 8 * e * p == 4 * (2 * (p * e));
    assert (2 * s + 16) * p == 2 * (p * (p + u)) + 16 * p;
    Cancel(8 * e, 2 * s + 16, p);
  }

  lemma SmallRootError(s: nat, d: nat, e: nat)
    requires s > 0 && d <= 2
    requires 2 * ((s + d) * e) <= d * d + 2 * s
    ensures e <= 2
  {
    SquareLe(d, 2);
  }

  lemma SquaredError(s: nat, d: nat, m: nat)
    requires m * d <= s + 2 * m
    ensures (d * d) * (m * m) <= s * s + 4 * (s * m) + 4 * (m * m)
  {
    SquareLe(m * d, s + 2 * m);
    assert (m * d) * (m * d) == (d * d) * (m * m);
    Binomial(s, 2 * m);
  }

  lemma ScaledSlack(s: nat, m: nat)
    requires s >= 4 && m >= 4
    ensures 4 * (s * m) + 4 * (m * m) <= 2 * (s * (m * m))
  {
    MulLe(4, m, s);
    MulLe(4, s, m);
    MulLe(2 * s + 2 * m, s * m, m);
    Distribute(m, 2 * s, 2 * m);
  }

  lemma ScaledError(s: nat, e: nat, mm: nat, dd: nat)
    requires 2 * (s * e) <= dd + 2 * s
    ensures (2 * mm * e) * s <= dd * mm + 2 * (s * mm)
  {
    MulLe(2 * (s * e), dd + 2 * s, mm);
    Distribute(mm, dd, 2 * s);
  }

  lemma CancelRoot(s: nat, t: nat, mm: nat, dd: nat, slack: nat)
    requires s > 0 && t * s <= dd + 2 * (s * mm)
    requires dd <= s * s + slack && slack <= 2 * (s * mm)
    ensures t <= s + 4 * mm
  {
    Distribute(s, s, 4 * mm);
    Cancel(t, s + 4 * mm, s);
  }

  lemma LargeRootError(s: nat, d: nat, e: nat, m: nat)
    requires s >= 4 && m >= 4
    requires m * d <= s + 2 * m
    requires 2 * ((s + d) * e) <= d * d + 2 * s
    ensures 2 * (m * m) * e <= s + 4 * (m * m)
  {
    var mm := m * m;
    assert 2 * (s * e) <= d * d + 2 * s by { MulLe(s, s + d, e); }
    ScaledError(s, e, mm, d * d);
    SquaredError(s, d, m);
    ScaledSlack(s, m);
    CancelRoot(s, 2 * mm * e, mm, (d * d) * mm, 4 * (s * m) + 4 * mm);
  }

  lemma LastError(s: nat, d: nat, e: nat, r: nat)
    requires s > 0 && r <= 2 * s && d * d <= s + 2 * d
    requires 2 * ((s + d) * e) <= d * d + r
    ensures e == 0 || (e == 1 && r >= s)
  {
    MulLe(if e >= 2 then 2 else e, e, s + d);
  }

  /** `y` is the mean, rounded down, of the guess `x` and its cofactor `q`. */
  ghost predicate IsRefined(a: nat, x: nat, q: nat, y: nat) {
    x * q <= a < x * (q + 1) && 2 * y <= x + q <= 2 * y + 1
  }

  /** No Newton step from above falls below the root, and the error is at most quadratic in the old one. */
  lemma RefineError(a: nat, s: nat, x: nat, q: nat, y: nat) returns (d: int, e: nat, r: nat)
    requires IsFloorSqrt(s, a) && IsRefined(a, x, q, y)
    ensures x == s + d && y == s + e && a == s * s + r && r <= 2 * s
    ensures 2 * ((s + d) * e) <= d * d + r
  {
    MeanNotBelow(a, s, x, q);
    d, e, r := x - s, y - s, a - s * s;
    ErrorBound(a, s, d, q, e, r);
    Binomial(s, 1);
  }

  /** The first step starts from the power of two just below the root. */
  lemma FirstRefine(a: nat, s: nat, p: nat, q: nat, y: nat)
    requires IsFloorSqrt(s, a) && 0 < p <= s < 2 * p && IsRefined(a, p, q, y)
    ensures Close(s, y, 4)
  {
    var d, e, r := RefineError(a, s, p, q, y);
    assert d * d == (-d) * (-d);
    FirstError(s, p, -d, e, r);
  }

  lemma NextError(s: nat, d: nat, e: nat, m: nat)
    requires s > 0 && m >= 4 && m * d <= s + 2 * m
    requires 2 * ((s + d) * e) <= d * d + 2 * s
    ensures 2 * (m * m) * e <= s + 4 * (m * m)
  {
    if s < 4 {
      MultipleBelow(s + 2 * m, m, d, 3);
      SmallRootError(s, d, e);
      MulLe(e, 2, 2 * (m * m));
    } else {
      LargeRootError(s, d, e, m);
    }
  }

  /** Every later step doubles the number of correct bits. */
  lemma NextRefine(a: nat, s: nat, x: nat, q: nat, y: nat, m: nat)
    requires IsFloorSqrt(s, a) && s > 0 && m >= 4 && Close(s, x, m) && IsRefined(a, x, q, y)
    ensures Close(s, y, 2 * (m * m))
  {
    var d, e, r := RefineError(a, s, x, q, y);
    NextError(s, d, e, m);
  }

  /** Once the squared error is about the size of the root, one more step and a minimum finish. */
  lemma LastRefine(a: nat, s: nat, x: nat, q: nat, y: nat, z: nat)
    requires IsFloorSqrt(s, a) && 0 < s <= x && IsRefined(a, x, q, y)
    requires (x - s) * (x - s) <= s + 2 * (x - s)
    requires y * z <= a < y * (z + 1)
    ensures y > 0 && (if y < z then y else z) == s
  {
    var d, e, r := RefineError(a, s, x, q, y);
    LastError(s, d, e, r);
    SmallerIsRoot(s, e, r, z);
  }

  lemma SmallerIsRoot(s: nat, e: nat, r: nat, z: nat)
    requires s > 0 && r <= 2 * s && (e == 0 || (e == 1 && r >= s))
    requires (s + e) * z <= s * s + r < (s + e) * (z + 1)
    ensures s <= z && (e == 1 ==> z == s)
  {
    Distribute(s, s, 1);
    Binomial(s, 1);
    if e == 0 {
      MultipleBelow(s * s, s, s, z + 1);
    } else {
      MultipleUnique(s * s + r, s + 1, s, z);
    }
  }

  lemma GuessCofactor(a: nat, s: nat, p: nat, q: nat)
    requires IsFloorSqrt(s, a) && 0 < p <= s < 2 * p && p * q <= a
    ensures q < 4 * p
  {
    SquareLe(s + 1, 2 * p);
    assert (2 * p) * (2 * p) == p * (4 * p);
    MultipleBelow(a, p, q, 4 * p);
  }

  lemma CloseCofactor(a: nat, s: nat, x: nat, q: nat)
    requires IsFloorSqrt(s, a) && 0 < s <= x && x * q <= a
    ensures q < s + 3
  {
    MulLe(s, x, s + 3);
    Distribute(s, s, 3);
    Binomial(s, 1);
    MultipleBelow(a, x, q, s + 3);
  }

  lemma CloseWeaken(s: nat, x: nat, m: nat)
    requires m >= 4 && Close(s, x, m)
    ensures 4 * (x - s) <= s + 8
  {
    var d := x - s;
    if 4 * d > s + 8 {
      Distribute(d, 4, m - 4);
      MulLe(2, d, m - 4);
    }
  }

  /** Six steps reach 95 correct bits, more than half of the 128 the root can have. */
  lemma CloseEnough(s: nat, x: nat, m: nat)
    requires s <= m * (m - 2) && m >= 4 && Close(s, x, m)
    ensures (x - s) * (x - s) <= s + 2 * (x - s)
  {
    var d := x - s;
    if d > 2 {
      Distribute(m, d, -2);
      if d > m {
        MulLe(m + 1 - 2, d - 2, m);
      }
      MulLe(d, m, d - 2);
      Distribute(d, d, -2);
    } else {
      MulLe(d, 2, d);
    }
  }

  /** The power of two the iteration starts from lies between half the root and the root. */
  lemma FirstGuess(a: nat, log: nat)
    requires a > 0 && log == FloorLog2(a)
    ensures Pow2(log / 2) <= FloorSqrt(a) < 2 * Pow2(log / 2)
  {
    FloorLog2Brackets(a);
    var h := log / 2;
    Pow2Add(h, h);
    Pow2Monotonic(h + h, log);
    Pow2Monotonic(log + 1, h + h + 2);
    assert Pow2(h + h + 2) == 2 * Pow2(h + h + 1);
    FloorSqrtIsRoot(a);
    GuessBrackets(a, FloorSqrt(a), Pow2(h));
  }

  lemma GuessBrackets(a: nat, s: nat, p: nat)
    requires IsFloorSqrt(s, a) && p * p <= a < 4 * (p * p)
    ensures p <= s < 2 * p
  {
    if s < p {
      SquareLe(s + 1, p);
    }
    if s >= 2 * p {
      SquareLe(2 * p, s);
    }
  }

  /** One Newton step in unchecked arithmetic modulo `word`; `q` is the cofactor of the guess. */
  method Refine(a: nat, x: nat, word: nat) returns (y: nat, ghost q: nat)
    requires x > 0 && word > 0
    ensures x * q <= a < x * (q + 1)
    ensures x + q < word ==> IsRefined(a, x, q, y)
  {
    var cofactor := Div(a, x);
    q := cofactor;
    y := Mod(x + cofactor, word) / 2;
  }

  /** The step from the power-of-two guess. */
  method FirstStep(a: nat, ghost s: nat, p: nat, word: nat) returns (y: nat)
    requires IsFloorSqrt(s, a) && 0 < p <= s < 2 * p && 8 * s < word
    ensures Close(s, y, 4)
  {
    ghost var q;
    y, q := Refine(a, p, word);
    GuessCofactor(a, s, p, q);
    FirstRefine(a, s, p, q, y);
  }

  /** A later step doubles the number of correct bits, and one more. */
  method NextStep(a: nat, ghost s: nat, x: nat, word: nat, ghost m: nat) returns (y: nat)
    requires IsFloorSqrt(s, a) && s > 0 && m >= 4 && Close(s, x, m) && 8 * s < word
    ensures Close(s, y, 2 * (m * m))
  {
    ghost var q;
    y, q := Refine(a, x, word);
    SumBounded(a, s, x, q, m);
    NextRefine(a, s, x, q, y, m);
  }

  /** The sum of a close guess and its cofactor is a small multiple of the root, far from overflowing. */
  lemma SumBounded(a: nat, s: nat, x: nat, q: nat, m: nat)
    requires IsFloorSqrt(s, a) && s > 0 && m >= 4 && Close(s, x, m) && x * q <= a
    ensures x + q <= 3 * s + 5
  {
    CloseCofactor(a, s, x, q);
    CloseWeaken(s, x, m);
  }

  lemma PositiveRefined(a: nat, s: nat, x: nat, q: nat, y: nat)
    requires IsFloorSqrt(s, a) && s > 0 && IsRefined(a, x, q, y)
    ensures y > 0
  {
    var d, e, r := RefineError(a, s, x, q, y);
  }

  /** The seventh step and the choice of the smaller of the guess and its cofactor. */
  method LastStep(a: nat, ghost s: nat, x: nat, word: nat, ghost m: nat) returns (root: nat)
    requires IsFloorSqrt(s, a) && s > 0 && m >= 4 && Close(s, x, m) && s <= m * (m - 2) && 8 * s < word
    ensures root == s
  {
    var y;
    ghost var q;
    y, q := Refine(a, x, word);
    SumBounded(a, s, x, q, m);
    CloseEnough(s, x, m);
    PositiveRefined(a, s, x, q, y);
    var z := Div(a, y);
    LastRefine(a, s, x, q, y, z);
    root := if y < z then y else z;
  }

  /** Seven Newton steps and a final minimum, from a power of two just below the root. */
  method SevenSteps(a: nat, guess: nat, word: nat) returns (root: nat)
    requires 0 < guess <= FloorSqrt(a) < 2 * guess
    requires FloorSqrt(a) < TWO_128 && 8 * FloorSqrt(a) < word
    ensures root == FloorSqrt(a)
  {
    ghost var s := FloorSqrt(a);
    FloorSqrtIsRoot(a);
    var result := FirstStep(a, s, guess, word);
    result := NextStep(a, s, result, word, 0x4);
    result := NextStep(a, s, result, word, 0x20);
    result := NextStep(a, s, result, word, 0x800);
    result := NextStep(a, s, result, word, 0x80_0000);
    result := NextStep(a, s, result, word, 0x8000_0000_0000);
    root := LastStep(a, s, result, word, 0x8000_0000_0000_0000_0000_0000);
  }

  /** The integer square root of a word. */
  method Sqrt(a: Uint256) returns (root: Uint256)
    ensures root == FloorSqrt(a)
  {
    if a == 0 {
      return 0;
    }
    FloorSqrtBelow(a, TWO_128);
    var log := Log2(a);
    FirstGuess(a, log);
    root := SevenSteps(a, Pow2(log / 2), TWO_256);
  }
}
