/**
  Unsigned 64-bit words: wrap-around arithmetic, the C operators `&` and `~`
  bit by bit, and the alignment arithmetic built from them.
 */
module Words {

  const TWO64: int := 0x1_0000_0000_0000_0000
  const MAX_UINT64: int := 0xFFFF_FFFF_FFFF_FFFF
  const PAGE_SHIFT_SIZE: int := 4096

  type u64 = x: int | 0 <= x < 0x1_0000_0000_0000_0000
  type u32 = x: int | 0 <= x < 0x1_0000_0000
  type byte = x: int | 0 <= x < 256

  /** The value a 64-bit register keeps of an arithmetic result. */
  function Wrap(x: int): (r: u64)
    ensures 0 <= x < TWO64 ==> r == x
    ensures TWO64 <= x < 2 * TWO64 ==> r == x - TWO64
  {
    x % TWO64
  }

  /** `x << 12` on 64 bits. */
  function Shl12(x: u64): u64 {
    Wrap(x * PAGE_SHIFT_SIZE)
  }

  /** A word read as a signed number. */
  function Signed(x: u64): int {
    if x < 0x8000_0000_0000_0000 then x else x - TWO64
  }

  function Pow2(k: nat): (r: nat)
    ensures r >= 1
  {
    if k == 0 then 1 else 2 * Pow2(k - 1)
  }

  /** Power-of-two alignments that fit a 64-bit word. */
  ghost predicate IsPow2(p: int) {
    exists k: nat :: k < 64 && p == Pow2(k)
  }

  /** C's `&` on unsigned words. */
  function And(x: nat, y: nat): (r: nat)
    ensures r <= x && r <= y
  {
    if x == 0 || y == 0 then 0
    else (if x % 2 == 1 && y % 2 == 1 then 1 else 0) + 2 * And(x / 2, y / 2)
  }

  /** C's `~` on a 64-bit word. */
  function Not(x: u64): u64 {
    MAX_UINT64 - x
  }

  /** The largest multiple of `p` that is not above `a`. */
  function Floor(a: nat, p: nat): nat
    requires p > 0
  {
    FloorBounds(a, p);
    a - a % p
  }

  /** `address & ~(alignment - 1)`. */
  function MaskDown(address: u64, alignment: u64): u64
    requires alignment > 0
  {
    And(address, Not(alignment - 1))
  }

  // ---------------------------------------------------------------- bit masks

  lemma SmallPow2Values()
    ensures Pow2(8) == 256 && Pow2(0) == 1 && Pow2(1) == 2 && Pow2(2) == 4 && Pow2(3) == 8
  {
    assert Pow2(2) == 4;
    assert Pow2(4) == 16;
    assert Pow2(6) == 64;
  }

  lemma Pow2Values()
    ensures Pow2(64) == TWO64
    ensures Pow2(8) == 256 && Pow2(0) == 1 && Pow2(1) == 2 && Pow2(2) == 4 && Pow2(3) == 8
  {
    SmallPow2Values();
    hide Pow2;
    Pow2Add(8, 8);
    Pow2Add(16, 16);
    Pow2Add(32, 32);
  }

  lemma {:induction false} Pow2Add(i: nat, j: nat)
    ensures Pow2(i + j) == Pow2(i) * Pow2(j)
  {
    if i == 0 {
    } else {
      Pow2Add(i - 1, j);
      assert Pow2(i + j) == 2 * Pow2(i - 1 + j);
      assert 2 * (Pow2(i - 1) * Pow2(j)) == Pow2(i) * Pow2(j);
    }
  }

  lemma IsPow2Positive(p: int)
    requires IsPow2(p)
    ensures p > 0
  {
  }

  lemma {:induction false} Pow2Monotone(i: nat, j: nat)
    requires i <= j
    ensures Pow2(i) <= Pow2(j)
  {
    if i == j {
    } else {
      Pow2Monotone(i, j - 1);
    }
  }

  /** Halving commutes with the remainder modulo a doubled divisor. */
  lemma HalfMod(x: nat, m: nat)
    requires m > 0
    ensures x % (2 * m) == 2 * ((x / 2) % m) + x % 2
  {
    var q, r := (x / 2) / m, (x / 2) % m;
    assert x / 2 == m * q + r;
    assert x == 2 * (m * q + r) + x % 2;
    assert x == (2 * m) * q + (2 * r + x % 2);
    DivisionUnique(x, 2 * m, q, 2 * r + x % 2);
  }

  /** A product with a nonzero factor is at least as large as the other one. */
  lemma ProductSize(m: int, d: int)
    requires m > 0
    ensures d >= 1 ==> m * d >= m
    ensures d <= -1 ==> m * d <= -m
    ensures d <= 0 ==> m * d <= 0
    ensures d >= 0 ==> m * d >= 0
  {
  }

  lemma DivisionUnique(x: int, m: int, q: int, r: int)
    requires m > 0 && 0 <= r < m && x == m * q + r
    ensures x / m == q && x % m == r
  {
    var d := x / m - q;
    assert x == m * (x / m) + x % m;
    assert m * d == r - x % m;
    ProductSize(m, d);
  }

  /** An odd mask keeps the last bit and masks the others. */
  lemma AndOdd(x: nat, mask: nat)
    ensures And(x, 2 * mask + 1) == x % 2 + 2 * And(x / 2, mask)
  {
    assert (2 * mask + 1) % 2 == 1 && (2 * mask + 1) / 2 == mask;
  }

  /** Keeping low bits, one bit at a time. */
  lemma KeepStep(x: nat, m: nat, low: nat)
    requires m > 0 && low == (x / 2) % m
    ensures x % 2 + 2 * low == x % (2 * m)
  {
    HalfMod(x, m);
  }

  /** Masking with the low `k` ones is the remainder modulo 2^k. */
  lemma {:induction false} AndLowMask(x: nat, k: nat)
    ensures And(x, Pow2(k) - 1) == x % Pow2(k)
  {
    hide And;
    if k == 0 {
      AndZero(x);
    } else {
      var m := Pow2(k - 1);
      AndLowMask(x / 2, k - 1);
      AndOdd(x, m - 1);
      KeepStep(x, m, And(x / 2, m - 1));
    }
  }

  lemma AndEven(x: nat, mask: nat)
    ensures And(x, 2 * mask) == 2 * And(x / 2, mask)
  {
    assert (2 * mask) % 2 == 0 && (2 * mask) / 2 == mask;
  }

  /** Clearing low bits, one bit at a time. */
  lemma ClearStep(x: nat, m: nat, half: nat)
    requires m > 0 && half == x / 2 - (x / 2) % m
    ensures 2 * half == x - x % (2 * m)
  {
    HalfMod(x, m);
  }

  /** Masking an n-bit word with its high `n - k` ones clears the low `k` bits. */
  lemma {:induction false} AndHighMask(x: nat, n: nat, k: nat, mask: nat)
    requires k <= n && x < Pow2(n) && mask == Pow2(n) - Pow2(k)
    ensures And(x, mask) == x - x % Pow2(k)
  {
    hide And;
    if k == 0 {
      AndLowMask(x, n);
      SmallMod(x, Pow2(n));
    } else {
      var m, half := Pow2(k - 1), Pow2(n - 1) - Pow2(k - 1);
      Pow2Monotone(k - 1, n - 1);
      AndHighMask(x / 2, n - 1, k - 1, half);
      AndEven(x, half);
      ClearStep(x, m, And(x / 2, half));
      assert mask == 2 * half && Pow2(k) == 2 * m;
    }
  }

  lemma {:induction false} AndZero(x: nat)
    ensures And(x, 0) == 0
  {
  }

  /** Testing a single bit. */
  lemma {:induction false} AndSingleBit(x: nat, k: nat)
    ensures And(x, Pow2(k)) == 0 <==> (x / Pow2(k)) % 2 == 0
  {
    if k == 0 {
      AndZero(x / 2);
      assert Pow2(0) == 1;
    } else {
      AndEven(x, Pow2(k - 1));
      AndSingleBit(x / 2, k - 1);
      HalfDiv(x, Pow2(k - 1));
    }
  }

  lemma HalfDiv(x: nat, m: nat)
    requires m > 0
    ensures x / (2 * m) == (x / 2) / m
  {
    var q, r := (x / 2) / m, (x / 2) % m;
    assert x / 2 == m * q + r;
    assert x == (2 * m) * q + (2 * r + x % 2);
    DivisionUnique(x, 2 * m, q, 2 * r + x % 2);
  }

  lemma SmallMod(x: int, m: int)
    requires 0 <= x < m
    ensures x % m == x
  {
    DivisionUnique(x, m, 0, x);
  }

  /** The mask idiom of the source, `Address & ~(Alignment - 1)`, rounds down. */
  lemma MaskDownIsFloor(address: u64, alignment: u64)
    requires IsPow2(alignment)
    ensures alignment > 0 && MaskDown(address, alignment) == Floor(address, alignment)
  {
    var k: nat :| k < 64 && alignment == Pow2(k);
    Pow2Values();
    AndHighMask(address, 64, k, Not(alignment - 1));
  }

  /** The test `Address & (Width - 1)` is the remainder. */
  lemma MaskIsRemainder(address: u64, width: u64)
    requires IsPow2(width)
    ensures width > 0 && And(address, width - 1) == address % width
  {
    var k: nat :| k < 64 && width == Pow2(k);
    AndLowMask(address, k);
  }

  // ------------------------------------------------------- multiples of a page

  lemma FloorBounds(a: nat, p: nat)
    requires p > 0
    ensures 0 <= a - a % p <= a < a - a % p + p
    ensures (a - a % p) % p == 0
  {
    var q := a / p;
    assert a == p * q + a % p;
    ProductSize(p, q);
    DivisionUnique(a - a % p, p, q, 0);
  }

  /** Distinct multiples of `p` are at least `p` apart. */
  lemma MultipleGap(a: int, b: int, p: int)
    requires p > 0 && a % p == 0 && b % p == 0 && a < b
    ensures a + p <= b
  {
    var d := b / p - a / p;
    assert a == p * (a / p) && b == p * (b / p);
    assert b - a == p * d;
    ProductSize(p, d);
  }

  lemma MultipleStep(a: int, p: int)
    requires p > 0 && a % p == 0
    ensures (a + p) % p == 0 && (a - p) % p == 0
  {
    assert a == p * (a / p);
    DivisionUnique(a + p, p, a / p + 1, 0);
    DivisionUnique(a - p, p, a / p - 1, 0);
  }

  lemma FloorUnique(a: nat, p: nat, m: nat)
    requires p > 0 && m % p == 0 && m <= a < m + p
    ensures Floor(a, p) == m
  {
    assert m == p * (m / p);
    DivisionUnique(a, p, m / p, a - m);
  }

  /** A multiple of a multiple is a multiple. */
  lemma MultipleTrans(a: int, m: int, p: int)
    requires p > 0 && m > 0 && a % m == 0 && m % p == 0
    ensures a % p == 0
  {
    assert a == m * (a / m) && m == p * (m / p);
    assert a == p * ((m / p) * (a / m));
    DivisionUnique(a, p, (m / p) * (a / m), 0);
  }

  /** Smaller powers of two divide larger ones. */
  lemma Pow2Divides(p: int, m: int)
    requires IsPow2(p) && IsPow2(m) && p <= m
    ensures p > 0 && m % p == 0
  {
    var i: nat :| i < 64 && p == Pow2(i);
    var j: nat :| j < 64 && m == Pow2(j);
    if j < i {
      Pow2Monotone(j + 1, i);
    } else {
      Pow2Add(i, j - i);
      DivisionUnique(m, p, Pow2(j - i), 0);
    }
  }
}
