/*
 * Build constants of src/mozvm_config.h and the LOG2 macro shared by
 * src/mozvm_config.h and src/core/karray.h.
 */
module Config {
  /** MOZ_JMPTABLE_SIZE: entries of a First instruction's jump table. */
  const JmpTableSize: nat := 256
  /** VM_SMALL_ARRAY_LIMIT: children a Node keeps inline. */
  const SmallArrayLimit: nat := 2
  /** MOZ_MEMO_DEFAULT_WINDOW_SIZE */
  const MemoDefaultWindow: nat := 32
  /** MOZ_AST_MACHINE_DEFAULT_LOG_SIZE */
  const AstDefaultLogSize: nat := 128

  /** uint8_t */
  type Byte = x: int | 0 <= x < 256

  /** Number of binary digits of n (0 has none). */
  function BitLength(n: nat): nat
  {
    if n == 0 then 0 else 1 + BitLength(n / 2)
  }

  function Pow2(k: nat): (r: nat)
    ensures r >= 1
  {
    if k == 0 then 1 else 2 * Pow2(k - 1)
  }

  /**
   * LOG2(N) = 64 - __builtin_clzl(N - 1): the bit length of N - 1.
   * For N = 1 the builtin is given 0, whose result C leaves undefined;
   * it is taken as 64 (what lzcnt returns), which makes LOG2(1) = 0.
   * N is an unsigned int, so for N = 0 the subtraction wraps to
   * UINT_MAX, 32 bits wide, and LOG2(0) = 32.
   */
  function Log2(n: nat): (r: nat)
    ensures r == 0 <==> n == 1
    ensures n == 0 ==> r == 32
  {
    if n == 0 then
      Pow2Is16And32Bit();
      assert Pow2(32) == 2 * Pow2(31);
      BitLengthOf(0xFFFF_FFFF, 32);
      BitLength(0xFFFF_FFFF)
    else
      BitLength(n - 1)
  }

  /** A number from 2^(k-1) up to but not including 2^k has k binary digits. */
  lemma {:induction false} BitLengthOf(n: nat, k: nat)
    requires k >= 1 && Pow2(k - 1) <= n < Pow2(k)
    ensures BitLength(n) == k
  {
    if k > 1 {
      BitLengthOf(n / 2, k - 1);
    }
  }

  lemma {:induction false} Pow2Add(a: nat, b: nat)
    decreases a
    ensures Pow2(a + b) == Pow2(a) * Pow2(b)
  {
    if a > 0 {
      Pow2Add(a - 1, b);
    }
  }

  /** 2^64, the range of an unsigned 64-bit word. */
  lemma Pow2Is64Bit()
    ensures Pow2(64) == 0x1_0000_0000_0000_0000
  {
    Pow2Is16And32Bit();
    Pow2Add(32, 32);
  }

  /** 2^16 and 2^32, the ranges of uint16_t and uint32_t. */
  lemma Pow2Is16And32Bit()
    ensures Pow2(16) == 0x1_0000 && Pow2(32) == 0x1_0000_0000
  {
    assert Pow2(8) == 256;
    Pow2Add(8, 8);
    Pow2Add(16, 16);
  }

  /** 2^BitLength(n) is the least power of two above n. */
  lemma {:induction false} Pow2BitLength(n: nat)
    ensures n < Pow2(BitLength(n))
    ensures n > 0 ==> Pow2(BitLength(n)) <= 2 * n
  {
    if n > 0 {
      Pow2BitLength(n / 2);
    }
  }

  /** 1 << LOG2(n) is the least power of two that is at least n. */
  lemma RoundUpPow2(n: nat)
    requires n >= 1
    ensures n <= Pow2(Log2(n)) < 2 * n
  {
    Pow2BitLength(n - 1);
  }
}
