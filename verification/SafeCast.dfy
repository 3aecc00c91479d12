/** Checked conversions between integer widths, for every width and not only the emitted ones. */
module SafeCast {
  import opened Arithmetic
  import opened Words

  /** Words and signed words, by their widths. */
  type UintWord = x: int | 0 <= x < Pow2(256)
  type IntWord = x: int | -Pow2(255) <= x < Pow2(255)

  /** The conversion `uintN(value)`: the low `n` bits. */
  function LowBits(value: int, n: nat): nat {
    value % Pow2(n)
  }

  /** The conversion `intN(value)`: the low `n` bits read in two's complement. */
  function SignedBits(value: int, n: nat): int
    requires n > 0
  {
    var bits := LowBits(value, n);
    if bits >= Pow2(n - 1) then bits - Pow2(n) else bits
  }

  /** The unsigned downcast to a type of `limit` values: compare with its maximum, then truncate. */
  function DownCast(limit: nat, value: nat): (r: Outcome<nat>)
    requires limit > 0
    ensures r == if value < limit then Ok(value) else Reverted
  {
    RemainderUnique(value, limit, 0, value);
    if value <= limit - 1 then Ok(value % limit) else Reverted
  }

  /** `toUintN`. */
  function ToUintDown(n: nat, value: nat): (r: Outcome<nat>)
    ensures r == if value < Pow2(n) then Ok(value) else Reverted
  {
    DownCast(Pow2(n), value)
  }

  /** `toIntN`: truncate first, then require that nothing was lost. */
  function ToIntDown(n: nat, value: IntWord): (r: Outcome<int>)
    requires n > 0
    ensures r == if -Pow2(n - 1) <= value < Pow2(n - 1) then Ok(value) else Reverted
  {
    SignedTruncation(value, n);
    var downcasted := SignedBits(value, n);
    if downcasted == value then Ok(downcasted) else Reverted
  }

  /** `toUint256`: the argument must not be negative. */
  function ToUint256(value: IntWord): Outcome<nat> {
    if value >= 0 then Ok(LowBits(value, 256)) else Reverted
  }

  /** `toIntWord`: the argument must not exceed the largest signed word. */
  function ToInt256(value: UintWord): Outcome<int> {
    if value <= LowBits(Pow2(255) - 1, 256) then Ok(SignedBits(value, 256)) else Reverted
  }

  /** Chaining two calls: the second runs only when the first did not revert. */
  function Then<S, T>(first: Outcome<S>, second: S -> Outcome<T>): Outcome<T> {
    match first
    case Reverted => Reverted
    case Ok(value) => second(value)
  }

  lemma RemainderUnique(value: int, m: nat, q: int, r: int)
    requires m > 0
    ensures 0 <= r < m && value == m * q + r ==> value % m == r
  {
    var q', r' := value / m, value % m;
    assert value == m * q' + r';
    if 0 <= r < m && value == m * q + r {
      Distribute(m, q, 1);
      Distribute(m, q', 1);
      MultipleUnique(value, m, q, q');
    }
  }

  /**
   * Truncation to `n` bits is harmless exactly on the signed range of `n` bits, so comparing the
   * result with the argument is a range check.
   */
  lemma SignedTruncation(value: int, n: nat)
    requires n > 0
    ensures -Pow2(n - 1) <= SignedBits(value, n) < Pow2(n - 1)
    ensures SignedBits(value, n) == value <==> -Pow2(n - 1) <= value < Pow2(n - 1)
  {
    assert Pow2(n) == 2 * Pow2(n - 1);
    RemainderUnique(value, Pow2(n), 0, value);
    RemainderUnique(value, Pow2(n), -1, value + Pow2(n));
  }

  /** Truncation to `n` bits drops a multiple of two to the `n`. */
  lemma TruncationDropsMultiple(value: int, n: nat) returns (k: int)
    requires n > 0
    ensures value == k * Pow2(n) + SignedBits(value, n)
  {
    var m, q := Pow2(n), value / Pow2(n);
    assert value == m * q + value % m;
    k := if value % m >= Pow2(n - 1) then q + 1 else q;
    Distribute(m, q, 1);
  }

  /** Nested unsigned casts succeed exactly when the narrower one does, with the same value. */
  lemma NestedUnsignedCasts(m: nat, n: nat, value: nat)
    ensures Then(ToUintDown(m, value), (x: nat) => ToUintDown(n, x))
         == ToUintDown(if m <= n then m else n, value)
  {
    Pow2Monotonic(if m <= n then m else n, if m <= n then n else m);
  }

  /** Nested signed casts succeed exactly when the narrower one does, with the same value. */
  lemma NestedSignedCasts(m: nat, n: nat, value: IntWord)
    requires m > 0 && n > 0
    ensures Then(ToIntDown(m, value),
                 (x: int) => if -Pow2(255) <= x < Pow2(255) then ToIntDown(n, x) else Reverted)
         == ToIntDown(if m <= n then m else n, value)
  {
    Pow2Monotonic((if m <= n then m else n) - 1, (if m <= n then n else m) - 1);
  }

  /** The two sign conversions return their argument wherever they succeed, and so are inverse there. */
  lemma SignConversionsInverse(u: UintWord, i: IntWord)
    ensures ToInt256(u) == Ok(i) <==> ToUint256(i) == Ok(u)
    ensures ToInt256(u) == if u < Pow2(255) then Ok(u) else Reverted
    ensures ToUint256(i) == if 0 <= i then Ok(i) else Reverted
  {
    assert Pow2(256) == 2 * Pow2(255);
    RemainderUnique(i, Pow2(256), 0, i);
    RemainderUnique(Pow2(255) - 1, Pow2(256), 0, Pow2(255) - 1);
    SignedTruncation(u, 256);
  }
}
