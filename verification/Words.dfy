/** Machine words: the integer widths of the EVM, and calls that may revert. */
module Words {
  import opened Arithmetic

  /** The outcome of a Solidity call: it reverts, or it returns a value. */
  datatype Outcome<+T> = Reverted | Ok(value: T)

  function Pow2(n: nat): (r: int)
    ensures r > 0
  {
    if n == 0 then 1 else 2 * Pow2(n - 1)
  }

  lemma {:induction false} Pow2Add(m: nat, n: nat)
    ensures Pow2(m + n) == Pow2(m) * Pow2(n)
  {
    if m > 0 {
      Pow2Add(m - 1, n);
      assert Pow2(m) * Pow2(n) == 2 * (Pow2(m - 1) * Pow2(n));
    }
  }

  lemma {:induction false} Pow2Monotonic(m: nat, n: nat)
    requires m <= n
    ensures Pow2(m) <= Pow2(n)
  {
    if m < n {
      Pow2Monotonic(m, n - 1);
    }
  }

  const TWO_32: int := 0x1_0000_0000
  const TWO_128: int := 0x1_0000000000000000_0000000000000000
  const TWO_160: int := 0x1_0000000000000000_0000000000000000_00000000
  const TWO_224: int := 0x1_0000000000000000_0000000000000000_0000000000000000_00000000
  const TWO_256: int := 0x1_0000000000000000_0000000000000000_0000000000000000_0000000000000000

  lemma Doubled(n: nat, v: nat, m: nat)
    requires Pow2(n) == v && m == n + n
    ensures Pow2(m) == v * v
  {
    Pow2Add(n, n);
  }

  lemma PowersOfTwo()
    ensures Pow2(1) == 2 && Pow2(2) == 4 && Pow2(4) == 0x10 && Pow2(8) == 0x100
    ensures Pow2(16) == 0x1_0000 && Pow2(32) == 0x1_0000_0000 && Pow2(64) == 0x1_0000_0000_0000_0000
    ensures Pow2(128) == TWO_128 && Pow2(256) == TWO_256
  {
    assert Pow2(4) == 0x10;
    Doubled(4, 0x10, 8);
    Doubled(8, 0x100, 16);
    Doubled(16, 0x1_0000, 32);
    Doubled(32, 0x1_0000_0000, 64);
    Doubled(64, 0x1_0000_0000_0000_0000, 128);
    Doubled(128, TWO_128, 256);
  }

  lemma Widened(m: nat, n: nat, v: nat, w: nat, k: nat)
    requires Pow2(m) == v && Pow2(n) == w && k == m + n
    ensures Pow2(k) == v * w
  {
    Pow2Add(m, n);
  }

  lemma WidthsOfPacked()
    ensures Pow2(32) == TWO_32 && Pow2(160) == TWO_160 && Pow2(224) == TWO_224
  {
    PowersOfTwo();
    Widened(32, 128, TWO_32, TWO_128, 160);
    Widened(64, 160, 0x1_0000_0000_0000_0000, TWO_160, 224);
  }

  type Uint256 = x: int | 0 <= x < TWO_256
}
