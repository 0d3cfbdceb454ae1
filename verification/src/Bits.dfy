/** Bit operations on machine words, written on natural numbers, and the alignment arithmetic built from them. */
module Bits {
  const WORD_BITS: nat := 64
  const PAGE_SIZE: nat := 4096

  function Pow2(k: nat): (r: nat)
    ensures r > 0
  {
    if k == 0 then 1 else 2 * Pow2(k - 1)
  }

  function And(a: nat, b: nat): nat {
    if a == 0 || b == 0 then 0 else 2 * And(a / 2, b / 2) + if a % 2 == 1 && b % 2 == 1 then 1 else 0
  }

  /** The complement of `a` in a word of `w` bits. */
  function Not(w: nat, a: nat): nat
    requires a < Pow2(w)
  {
    Pow2(w) - 1 - a
  }

  predicate IsPow2(n: nat) {
    n > 0 && And(n, n - 1) == 0
  }

  const USIZE_LIMIT: nat := Pow2(WORD_BITS)

  function AlignDown(addr: nat, align: nat): nat
    requires addr < USIZE_LIMIT && align < USIZE_LIMIT && IsPow2(align)
  {
    And(addr, Not(WORD_BITS, align - 1))
  }

  function AlignUp(addr: nat, align: nat): nat
    requires align < USIZE_LIMIT && IsPow2(align) && addr + align - 1 < USIZE_LIMIT
  {
    AlignDown(addr + (align - 1), align)
  }

  lemma Pow2Mono(a: nat, b: nat)
    requires a <= b
    ensures Pow2(a) <= Pow2(b)
    decreases b
  {
    if a < b { Pow2Mono(a, b - 1); }
  }

  lemma {:induction false} AndAll(w: nat, a: nat)
    requires a < Pow2(w)
    ensures And(a, Pow2(w) - 1) == a
  {
    if a != 0 {
      AndAll(w - 1, a / 2);
      assert (Pow2(w) - 1) / 2 == Pow2(w - 1) - 1;
    }
  }

  lemma ModDouble(x: nat, b: nat, m: nat)
    requires m > 0 && b < 2
    ensures (2 * x + b) % (2 * m) == 2 * (x % m) + b
  {
    var q, r := x / m, x % m;
    assert 2 * x + b == (2 * m) * q + (2 * r + b);
    ModUnique(2 * x + b, 2 * m, q, 2 * r + b);
  }

  lemma {:induction false} MulAtLeast(m: int, d: int)
    requires m > 0 && d > 0
    ensures m * d >= m
    decreases d
  {
    if d > 1 {
      MulAtLeast(m, d - 1);
      assert m * d == m * (d - 1) + m;
    }
  }

  lemma {:induction false} ModUnique(x: int, m: int, q: int, r: int)
    requires m > 0 && 0 <= r < m && x == m * q + r
    ensures x % m == r && x / m == q
  {
    var q', r' := x / m, x % m;
    var p := m * (q - q');
    assert p == m * q - m * q' == r' - r;
    if q > q' {
      MulAtLeast(m, q - q');
    } else if q < q' {
      assert m * (q' - q) == -p;
      MulAtLeast(m, q' - q);
    }
  }

  lemma SumMod(a: nat, b: nat, m: nat)
    requires m > 0 && a % m == 0 && b % m == 0
    ensures (a + b) % m == 0
  {
    var i, j := a / m, b / m;
    assert a == m * i && b == m * j && m * (i + j) == m * i + m * j;
    ModUnique(a + b, m, i + j, 0);
  }

  lemma DiffMod(a: nat, b: nat, m: nat)
    requires m > 0 && b <= a && a % m == 0 && b % m == 0
    ensures (a - b) % m == 0
  {
    var i, j := a / m, b / m;
    assert a == m * i && b == m * j && m * (i - j) == m * i - m * j;
    ModUnique(a - b, m, i - j, 0);
  }

  lemma ModShift(x: nat, m: nat)
    requires m > 0
    ensures (x + m) % m == x % m
  {
    var q, r := x / m, x % m;
    assert x == m * q + r && m * (q + 1) == m * q + m;
    ModUnique(x + m, m, q + 1, r);
  }

  lemma AndEven(a: nat, b: nat)
    requires b % 2 == 0
    ensures And(a, b) == 2 * And(a / 2, b / 2)
  {
  }

  lemma AndDouble(a: nat, half: nat, b: nat)
    requires b == 2 * half
    ensures And(a, b) == 2 * And(a / 2, half)
  {
    AndEven(a, b);
  }

  /** The low `k` bits. */
  function Low(a: nat, k: nat): nat {
    if k == 0 then 0 else 2 * Low(a / 2, k - 1) + a % 2
  }

  lemma {:induction false} LowIsMod(a: nat, k: nat)
    ensures Low(a, k) == a % Pow2(k)
  {
    if k == 0 {
      ModUnique(a, 1, a, 0);
    } else {
      LowIsMod(a / 2, k - 1);
      DoubleMod(a, a / 2, a % 2, Pow2(k - 1));
    }
  }

  lemma DoubleMod(a: nat, h: nat, b: nat, m: nat)
    requires a == 2 * h + b && b < 2 && m > 0
    ensures a % (2 * m) == 2 * (h % m) + b
  {
    ModDouble(h, b, m);
  }

  lemma {:induction false} ClearLow(w: nat, k: nat, a: nat)
    requires k <= w && a < Pow2(w)
    ensures Pow2(k) <= Pow2(w)
    ensures And(a, Pow2(w) - Pow2(k)) == a - Low(a, k)
  {
    if k == 0 {
      AndAll(w, a);
    } else {
      ClearLow(w - 1, k - 1, a / 2);
      AndDouble(a, Pow2(w - 1) - Pow2(k - 1), Pow2(w) - Pow2(k));
    }
  }

  /** Clearing the low `k` bits rounds down to a multiple of 2^k. */
  lemma AndHigh(w: nat, k: nat, a: nat)
    requires k <= w && a < Pow2(w)
    ensures Pow2(k) <= Pow2(w)
    ensures And(a, Pow2(w) - Pow2(k)) == a - a % Pow2(k)
  {
    ClearLow(w, k, a);
    LowIsMod(a, k);
  }

  lemma IsPow2Even(n: nat)
    requires n > 0 && n % 2 == 0
    ensures IsPow2(n) <==> IsPow2(n / 2)
  {
    assert (n - 1) / 2 == n / 2 - 1;
    assert And(n, n - 1) == 2 * And(n / 2, n / 2 - 1);
  }

  lemma IsPow2Odd(n: nat)
    requires n > 1 && n % 2 == 1
    ensures !IsPow2(n)
  {
    assert (n - 1) / 2 == n / 2;
    AndSelf(n / 2);
    assert And(n, n - 1) == 2 * (n / 2);
  }

  lemma Pow2Even(k: nat)
    requires k > 0
    ensures Pow2(k) % 2 == 0 && Pow2(k) / 2 == Pow2(k - 1)
  {
  }

  /** The test of the code accepts exactly the powers of two. */
  lemma {:induction false} IsPow2Iff(n: nat)
    requires n > 0
    ensures IsPow2(n) <==> exists k: nat :: n == Pow2(k)
  {
    if n == 1 {
      assert n == Pow2(0);
    } else if n % 2 == 0 {
      IsPow2Iff(n / 2);
      IsPow2Even(n);
      if IsPow2(n / 2) {
        var k: nat :| n / 2 == Pow2(k);
        assert n == Pow2(k + 1);
      }
      if k: nat :| n == Pow2(k) {
        if k > 0 { Pow2Even(k); }
        assert n / 2 == Pow2(k - 1);
      }
    } else {
      IsPow2Odd(n);
      forall k: nat
        ensures n != Pow2(k)
      {
        if k > 0 { Pow2Even(k); }
      }
    }
  }

  lemma {:induction false} AndSelf(a: nat)
    ensures And(a, a) == a
  {
    if a != 0 { AndSelf(a / 2); }
  }

  lemma AlignDownExact(addr: nat, align: nat)
    requires addr < USIZE_LIMIT && align < USIZE_LIMIT && IsPow2(align)
    ensures AlignDown(addr, align) == addr - addr % align
  {
    AndNot(WORD_BITS, addr, align);
  }

  lemma AndNot(w: nat, addr: nat, align: nat)
    requires addr < Pow2(w) && align < Pow2(w) && IsPow2(align)
    ensures And(addr, Not(w, align - 1)) == addr - addr % align
  {
    IsPow2Iff(align);
    var k: nat :| align == Pow2(k);
    if k > w { Pow2Mono(w, k); }
    AndHigh(w, k, addr);
    assert Not(w, align - 1) == Pow2(w) - Pow2(k);
  }

  /** `AlignUp` gives the least multiple of `align` that is not below `addr`. */
  lemma AlignUpLeast(addr: nat, align: nat)
    requires align < USIZE_LIMIT && IsPow2(align) && addr + align - 1 < USIZE_LIMIT
    ensures var r := AlignUp(addr, align);
      addr <= r < addr + align && r % align == 0 && (addr % align == 0 ==> r == addr)
  {
    AlignDownExact(addr + (align - 1), align);
    RoundUp(addr, align);
  }

  lemma {:induction false} RoundUp(addr: nat, align: nat)
    requires align > 0
    ensures var x := addr + (align - 1); var r := x - x % align;
      addr <= r < addr + align && r % align == 0 && (addr % align == 0 ==> r == addr)
  {
    var x := addr + (align - 1);
    var q := x / align;
    ModUnique(x - x % align, align, q, 0);
    if addr % align == 0 {
      var p := addr / align;
      assert x == align * p + (align - 1);
      ModUnique(x, align, p, align - 1);
    }
  }

  lemma AlignUp8(addr: nat)
    requires addr + 7 < USIZE_LIMIT
    ensures 8 < USIZE_LIMIT && IsPow2(8)
    ensures var r := AlignUp(addr, 8);
      addr <= r < addr + 8 && r % 8 == 0 && (addr % 8 == 0 ==> r == addr)
  {
    Pow2Of64();
    AlignUpLeast(addr, 8);
  }

  lemma Pow2Of64()
    ensures IsPow2(8) && 16 < Pow2(63) && USIZE_LIMIT == 2 * Pow2(63)
  {
    assert And(8, 7) == 0;
    assert Pow2(64) == 2 * Pow2(63);
  }

  /** A word address is aligned already. */
  function AlignWords(addr: nat): (r: nat)
    requires addr + 7 < USIZE_LIMIT
    ensures addr <= r < addr + 8 && r % 8 == 0
    ensures addr % 8 == 0 ==> r == addr
  {
    AlignUp8(addr);
    AlignUp(addr, 8)
  }

  lemma PageSizeIsPow2()
    ensures IsPow2(PAGE_SIZE) && PAGE_SIZE < USIZE_LIMIT
  {
    PageBelow(WORD_BITS);
    PowerIsPow2(12);
  }

  lemma PowerIsPow2(k: nat)
    ensures IsPow2(Pow2(k))
  {
    IsPow2Iff(Pow2(k));
  }

  lemma {:induction false} PageBelow(w: nat)
    requires w > 12
    ensures Pow2(w) > PAGE_SIZE == Pow2(12)
  {
    if w > 13 { PageBelow(w - 1); } else { assert Pow2(12) == PAGE_SIZE; }
  }

  /** The first whole page from `start` on. */
  function PageAlignUp(start: nat): (r: nat)
    requires start + PAGE_SIZE - 1 < USIZE_LIMIT
    ensures start <= r < start + PAGE_SIZE && r % PAGE_SIZE == 0
  {
    PageSizeIsPow2();
    AlignUpLeast(start, PAGE_SIZE);
    AlignUp(start, PAGE_SIZE)
  }

  /** The whole pages in `size` bytes, in bytes. */
  function PageAlignDown(size: nat): (r: nat)
    requires size < USIZE_LIMIT
    ensures r <= size < r + PAGE_SIZE && r % PAGE_SIZE == 0
  {
    PageSizeIsPow2();
    AlignDownExact(size, PAGE_SIZE);
    RoundDown(size);
    AlignDown(size, PAGE_SIZE)
  }

  lemma RoundDown(size: nat)
    ensures (size - size % PAGE_SIZE) % PAGE_SIZE == 0
  {
    ModUnique(size - size % PAGE_SIZE, PAGE_SIZE, size / PAGE_SIZE, 0);
  }

  /** Rounding up to a multiple of four, as `(x + 3) & !3`. */
  function Align4(x: nat): (r: nat)
    requires x + 3 < USIZE_LIMIT
    ensures x <= r < x + 4 && r % 4 == 0
  {
    Pow2Of64();
    assert And(4, 3) == 0;
    AlignUpLeast(x, 4);
    AlignUp(x, 4)
  }

  // Single bits of a word

  function Bit(a: nat, i: nat): bool {
    if i == 0 then a % 2 == 1 else Bit(a / 2, i - 1)
  }

  function Or(a: nat, b: nat): nat {
    if a == 0 && b == 0 then 0 else 2 * Or(a / 2, b / 2) + if a % 2 == 1 || b % 2 == 1 then 1 else 0
  }

  function Xor(a: nat, b: nat): nat {
    if a == 0 && b == 0 then 0 else 2 * Xor(a / 2, b / 2) + if a % 2 != b % 2 then 1 else 0
  }

  lemma {:induction false} ZeroBit(i: nat)
    ensures !Bit(0, i)
  {
    if i > 0 { ZeroBit(i - 1); }
  }

  /** The operations work bit by bit and stay inside a word of `w` bits. */
  lemma {:induction false} OrBit(w: nat, a: nat, b: nat, i: nat)
    requires a < Pow2(w) && b < Pow2(w)
    ensures Or(a, b) < Pow2(w) && (Bit(Or(a, b), i) <==> Bit(a, i) || Bit(b, i))
  {
    if a == 0 && b == 0 {
      ZeroBit(i);
    } else {
      OrBit(w - 1, a / 2, b / 2, if i == 0 then 0 else i - 1);
    }
  }

  lemma {:induction false} XorBit(w: nat, a: nat, b: nat, i: nat)
    requires a < Pow2(w) && b < Pow2(w)
    ensures Xor(a, b) < Pow2(w) && (Bit(Xor(a, b), i) <==> Bit(a, i) != Bit(b, i))
  {
    if a == 0 && b == 0 {
      ZeroBit(i);
    } else {
      XorBit(w - 1, a / 2, b / 2, if i == 0 then 0 else i - 1);
    }
  }

  lemma {:induction false} AndBit(w: nat, a: nat, b: nat, i: nat)
    requires a < Pow2(w) && b < Pow2(w)
    ensures And(a, b) < Pow2(w) && (Bit(And(a, b), i) <==> Bit(a, i) && Bit(b, i))
  {
    if a == 0 || b == 0 {
      ZeroBit(i);
    } else {
      AndBit(w - 1, a / 2, b / 2, if i == 0 then 0 else i - 1);
    }
  }

  lemma {:induction false} NotBit(w: nat, a: nat, i: nat)
    requires a < Pow2(w) && i < w
    ensures Not(w, a) < Pow2(w) && (Bit(Not(w, a), i) <==> !Bit(a, i))
  {
    var half := a / 2;
    assert Not(w, a) == 2 * Not(w - 1, half) + (1 - a % 2);
    if i > 0 {
      NotBit(w - 1, half, i - 1);
    }
  }

  lemma {:induction false} MaskBit(i: nat, j: nat)
    ensures Bit(Pow2(i), j) <==> i == j
  {
    if i == 0 {
      if j > 0 { ZeroBit(j - 1); }
    } else if j > 0 {
      MaskBit(i - 1, j - 1);
    }
  }

  /** Testing against a mask reads the bit. */
  lemma {:induction false} TestBit(a: nat, i: nat)
    ensures And(a, Pow2(i)) != 0 <==> Bit(a, i)
  {
    if a == 0 {
      ZeroBit(i);
    } else if i > 0 {
      TestBit(a / 2, i - 1);
    } else {
      assert And(a / 2, 0) == 0;
    }
  }

  lemma {:induction false} KeepLow(a: nat, k: nat)
    ensures And(a, Pow2(k) - 1) == Low(a, k)
  {
    if k > 0 {
      KeepLow(a / 2, k - 1);
      AndOdd(a, Pow2(k) - 1);
    }
  }

  lemma AndOdd(a: nat, b: nat)
    requires b % 2 == 1
    ensures And(a, b) == 2 * And(a / 2, b / 2) + a % 2
  {
  }

  /** Masking with low ones keeps a remainder. */
  lemma AndLow(a: nat, k: nat)
    ensures And(a, Pow2(k) - 1) == a % Pow2(k)
  {
    KeepLow(a, k);
    LowIsMod(a, k);
  }

  lemma {:induction false} OrDisjoint(a: nat, b: nat, k: nat)
    requires a < Pow2(k)
    ensures Or(a, b * Pow2(k)) == a + b * Pow2(k)
  {
    if k == 0 {
      OrZero(b);
    } else {
      assert b * Pow2(k) == 2 * (b * Pow2(k - 1)) by {
        assert Pow2(k) == 2 * Pow2(k - 1);
      }
      OrDisjoint(a / 2, b, k - 1);
    }
  }

  lemma {:induction false} OrZero(b: nat)
    ensures Or(0, b) == b
  {
    if b != 0 { OrZero(b / 2); }
  }
}
