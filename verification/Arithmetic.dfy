/** Machine arithmetic the allocator relies on: rounding to pages, the page mask of
    `vgc_free`, and the C conversions between `size_t` and `int`. */
module Arithmetic {

  const SIZE_T := 0x1_0000_0000_0000_0000
  const UINT := 0x1_0000_0000

  function Pow2(k: nat): (r: nat)
    ensures r > 0
  {
    if k == 0 then 1 else 2 * Pow2(k - 1)
  }

  // ----- rounding -----

  function RoundUp(n: nat, p: nat): nat
    requires p > 0
  {
    if n % p == 0 then n else (n / p + 1) * p
  }

  lemma DivMod(n: int, p: int)
    requires p > 0
    ensures n == (n / p) * p + n % p && 0 <= n % p < p
  {
  }

  lemma ScaleSign(d: int, p: int)
    requires p > 0
    ensures d >= 1 ==> d * p >= p
    ensures d <= -1 ==> d * p <= -p
  {
  }

  /** A number is pinned down by its quotient and remainder. */
  lemma ModUnique(q: int, r: int, p: int)
    requires 0 <= r < p
    ensures (q * p + r) % p == r && (q * p + r) / p == q
  {
    var n := q * p + r;
    DivMod(n, p);
    var d := n / p - q;
    assert d * p == r - n % p by {
      assert d * p == (n / p) * p - q * p;
    }
    ScaleSign(d, p);
  }

  lemma AlignedSum(a: int, b: int, p: int)
    requires p > 0 && a % p == 0
    ensures (a + b) % p == b % p
  {
    DivMod(a, p);
    DivMod(b, p);
    assert a + b == (a / p + b / p) * p + b % p;
    ModUnique(a / p + b / p, b % p, p);
  }

  lemma AlignedDifference(a: int, b: int, p: int)
    requires p > 0 && a % p == 0 && b % p == 0
    ensures (a - b) % p == 0
  {
    AlignedSum(b, a - b, p);
  }

  /** Distinct multiples of p are at least p apart. */
  lemma AlignedGap(a: int, b: int, p: int)
    requires p > 0 && a % p == 0 && b % p == 0
    ensures b < a ==> b + p <= a
  {
    AlignedDifference(a, b, p);
    DivMod(a - b, p);
    ScaleSign((a - b) / p, p);
  }

  lemma AlignedTwice(p: int)
    requires p > 0
    ensures p % p == 0 && (2 * p) % p == 0
  {
    ModUnique(1, 0, p);
    ModUnique(2, 0, p);
  }

  /** Rounding up yields the least multiple of the page size that is not smaller. */
  lemma RoundUpLeast(n: nat, p: nat)
    requires p > 0
    ensures RoundUp(n, p) % p == 0
    ensures n <= RoundUp(n, p) < n + p
    ensures n % p != 0 ==> RoundUp(n, p) == n + (p - n % p)
    ensures forall m: int :: m % p == 0 && n <= m ==> RoundUp(n, p) <= m
  {
    DivMod(n, p);
    if n % p != 0 {
      ModUnique(n / p + 1, 0, p);
      assert (n / p + 1) * p == (n / p) * p + p;
    }
    forall m: int | m % p == 0 && n <= m
      ensures RoundUp(n, p) <= m
    {
      AlignedGap(RoundUp(n, p), m, p);
    }
  }

  // ----- the page mask -----

  /** Bitwise and of two `width`-bit words. */
  function BitAnd(width: nat, a: nat, b: nat): nat {
    if width == 0 then 0
    else (if a % 2 == 1 && b % 2 == 1 then 1 else 0) + 2 * BitAnd(width - 1, a / 2, b / 2)
  }

  /** Bitwise complement of a `width`-bit word. */
  function BitNot(width: nat, a: nat): nat {
    if width == 0 then 0 else 1 - a % 2 + 2 * BitNot(width - 1, a / 2)
  }

  lemma {:induction false} AndWithOnes(width: nat, a: nat)
    requires a < Pow2(width)
    ensures BitAnd(width, a, BitNot(width, 0)) == a
  {
    if width > 0 {
      AndWithOnes(width - 1, a / 2);
      assert BitNot(width, 0) / 2 == BitNot(width - 1, 0);
    }
  }

  lemma NotOdd(width: nat, m: nat)
    requires width > 0
    ensures BitNot(width, 2 * m + 1) == 2 * BitNot(width - 1, m)
  {
    assert (2 * m + 1) % 2 == 1 && (2 * m + 1) / 2 == m;
  }

  lemma AndEven(width: nat, a: nat, b: nat)
    requires width > 0
    ensures BitAnd(width, a, 2 * b) == 2 * BitAnd(width - 1, a / 2, b)
  {
    assert (2 * b) % 2 == 0 && (2 * b) / 2 == b;
  }

  /** `ptr & ~(pageSize - 1)` is `ptr` rounded down to a page, for every power-of-two page. */
  lemma {:induction false} MaskRoundsDown(width: nat, k: nat, a: nat)
    requires k <= width && a < Pow2(width)
    ensures BitAnd(width, a, BitNot(width, Pow2(k) - 1)) == a - a % Pow2(k)
  {
    hide BitAnd, BitNot;
    if k == 0 {
      AndWithOnes(width, a);
    } else {
      var q := Pow2(k - 1);
      var rest := BitNot(width - 1, q - 1);
      NotOdd(width, q - 1);
      AndEven(width, a, rest);
      MaskRoundsDown(width - 1, k - 1, a / 2);
      HalvedRemainder(a, q);
    }
  }

  lemma HalvedRemainder(a: nat, q: nat)
    requires q > 0
    ensures a % (2 * q) == 2 * ((a / 2) % q) + a % 2
  {
    var h := a / 2;
    DivMod(h, q);
    var r := 2 * (h % q) + a % 2;
    assert a == (h / q) * (2 * q) + r by {
      assert (h / q) * (2 * q) == 2 * ((h / q) * q);
    }
    ModUnique(h / q, r, 2 * q);
  }

  /** A pointer less than one page past a page boundary masks back to that boundary. */
  lemma MaskRecovers(width: nat, k: nat, boundary: nat, offset: nat)
    requires k <= width && boundary + offset < Pow2(width)
    requires boundary % Pow2(k) == 0 && offset <= Pow2(k)
    ensures BitAnd(width, boundary + offset, BitNot(width, Pow2(k) - 1))
         == if offset < Pow2(k) then boundary else boundary + Pow2(k)
  {
    var p := Pow2(k);
    MaskRoundsDown(width, k, boundary + offset);
    AlignedSum(boundary, offset, p);
    if offset < p {
      ModUnique(0, offset, p);
    } else {
      AlignedTwice(p);
    }
  }

  // ----- C conversions -----

  /** `int x = n` for a `size_t` n on a two's complement machine. */
  function ToInt(n: nat): int {
    var low := n % UINT;
    if low < UINT / 2 then low else low - UINT
  }

  /** The value an `int` takes when the other operand is a `size_t`. */
  function ToSize(x: int): nat {
    x % SIZE_T
  }

  lemma {:induction false} Pow2Monotone(j: nat, k: nat)
    requires j <= k
    ensures Pow2(k) % Pow2(j) == 0
  {
    if j == k {
      AlignedTwice(Pow2(j));
    } else {
      Pow2Monotone(j, k - 1);
      AlignedSum(Pow2(k - 1), Pow2(k - 1), Pow2(j));
    }
  }

  lemma Pow2Widths()
    ensures Pow2(32) == UINT && Pow2(64) == SIZE_T && Pow2(3) == 8
  {
    assert Pow2(8) == 256;
    assert Pow2(16) == 0x1_0000;
    assert Pow2(24) == 0x100_0000;
    assert Pow2(32) == UINT;
    assert Pow2(40) == UINT * 0x100;
    assert Pow2(48) == UINT * 0x1_0000;
    assert Pow2(56) == UINT * 0x100_0000;
    assert Pow2(64) == SIZE_T;
  }

  lemma MultipleAligned(q: int, m: int, p: int)
    requires p > 0 && m % p == 0
    ensures (q * m) % p == 0
  {
    DivMod(m, p);
    assert q * m == (q * (m / p)) * p by {
      assert m == (m / p) * p;
    }
    ModUnique(q * (m / p), 0, p);
  }

  lemma TruncatedIs(n: nat)
    ensures ToSize(ToInt(n)) == if n % UINT < UINT / 2 then n % UINT else SIZE_T - UINT + n % UINT
  {
  }

  /** Storing a length in an `int` loses nothing that the shift computation looks at. */
  lemma TruncationKeepsPageRemainder(n: nat, k: nat)
    requires k <= 32
    ensures ToSize(ToInt(n)) % Pow2(k) == n % Pow2(k)
  {
    var p := Pow2(k);
    Pow2Widths();
    Pow2Monotone(k, 32);
    Pow2Monotone(k, 64);
    TruncatedIs(n);
    hide Pow2, ToSize, ToInt;
    var low := n % UINT;
    DivMod(n, UINT);
    MultipleAligned(n / UINT, UINT, p);
    AlignedSum((n / UINT) * UINT, low, p);
    if low >= UINT / 2 {
      AlignedDifference(SIZE_T, UINT, p);
      AlignedSum(SIZE_T - UINT, low, p);
    }
  }

  lemma MinusAligned(k: int, n: int, m: int)
    requires m > 0 && k % m == 0
    ensures (k - n) % m == 0 <==> n % m == 0
  {
    if n % m == 0 { AlignedDifference(k, n, m); }
    if (k - n) % m == 0 { AlignedDifference(k, k - n, m); }
  }

  /** Stepping back from a page boundary by n % p lands on a multiple of m iff n is one. */
  lemma ShiftAlignment(q: int, n: int, p: int, m: int)
    requires p > 0 && m > 0 && p % m == 0
    ensures (q * p - n % p) % m == 0 <==> n % m == 0
  {
    DivMod(n, p);
    MultipleAligned(q + n / p, p, m);
    var k := (q + n / p) * p;
    assert k == q * p + (n / p) * p;
    MinusAligned(k, n, m);
  }
}
