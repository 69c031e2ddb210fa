/** 64-bit machine words as numbers, their bits, and the stock sum types. */
module Words {
  datatype Option<+T> = None | Some(value: T)

  const TWO_64: int := 0x1_0000_0000_0000_0000

  type Word = w: int | 0 <= w < TWO_64

  /** What 64-bit unsigned arithmetic leaves of a result. */
  function Wrap(n: int): Word { n % TWO_64 }

  type RegNumber = r: int | 0 <= r < 32

  // ---- bitwise operations, bit by bit from the lowest ----

  function Pow2(n: nat): (p: int)
    ensures p > 0
  {
    if n == 0 then 1 else 2 * Pow2(n - 1)
  }

  lemma {:induction false} Pow2Sum(a: nat, b: nat)
    ensures Pow2(a + b) == Pow2(a) * Pow2(b)
  {
    if a > 0 { Pow2Sum(a - 1, b); }
  }

  lemma Pow2Of64()
    ensures Pow2(64) == TWO_64
  {
    assert Pow2(8) == 0x100;
    Pow2Sum(8, 8);
    Pow2Sum(16, 16);
    Pow2Sum(32, 32);
  }

  /** Bit k of a number. */
  predicate BitAt(n: nat, k: nat) {
    if k == 0 then n % 2 == 1 else BitAt(n / 2, k - 1)
  }

  function OrBits(a: nat, b: nat, width: nat): (r: nat)
    ensures r < Pow2(width)
  {
    if width == 0 then 0
    else (if a % 2 == 1 || b % 2 == 1 then 1 else 0) + 2 * OrBits(a / 2, b / 2, width - 1)
  }

  function AndNotBits(a: nat, b: nat, width: nat): (r: nat)
    ensures r < Pow2(width)
  {
    if width == 0 then 0
    else (if a % 2 == 1 && b % 2 == 0 then 1 else 0) + 2 * AndNotBits(a / 2, b / 2, width - 1)
  }

  function Or(a: Word, b: Word): Word {
    Pow2Of64();
    OrBits(a, b, 64)
  }

  function AndNot(a: Word, b: Word): Word {
    Pow2Of64();
    AndNotBits(a, b, 64)
  }

  lemma {:induction false} OrBitAt(a: nat, b: nat, width: nat, k: nat)
    requires k < width
    ensures BitAt(OrBits(a, b, width), k) <==> BitAt(a, k) || BitAt(b, k)
  {
    if k > 0 { OrBitAt(a / 2, b / 2, width - 1, k - 1); }
  }

  lemma {:induction false} AndNotBitAt(a: nat, b: nat, width: nat, k: nat)
    requires k < width
    ensures BitAt(AndNotBits(a, b, width), k) <==> BitAt(a, k) && !BitAt(b, k)
  {
    if k > 0 { AndNotBitAt(a / 2, b / 2, width - 1, k - 1); }
  }
}
