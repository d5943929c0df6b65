/**
 * The bit operations of the C sources on numbers of any width, and the arithmetic they amount to where the sources
 * use them.
 */
module Masks {
  import opened Bytes

  function Pow2(n: nat): (w: nat)
    ensures w > 0
  {
    if n == 0 then 1 else 2 * Pow2(n - 1)
  }

  /** `x | y`, bit by bit from the lowest. */
  function BitOr(x: nat, y: nat): nat {
    if x == 0 then y else 2 * BitOr(x / 2, y / 2) + (if x % 2 == 1 || y % 2 == 1 then 1 else 0)
  }

  /** `x & y` */
  function BitAnd(x: nat, y: nat): nat {
    if x == 0 then 0 else 2 * BitAnd(x / 2, y / 2) + (if x % 2 == 1 && y % 2 == 1 then 1 else 0)
  }

  /** `x << n`, where no bit is lost. */
  function ShiftLeft(x: nat, n: nat): nat { x * Pow2(n) }

  /** `x >> n` */
  function ShiftRight(x: nat, n: nat): nat {
    if n == 0 then x else ShiftRight(x / 2, n - 1)
  }

  // ---------------------------------------------------------------- numbers without common bits

  lemma ShiftOne(x: nat, n: nat)
    requires n > 0
    ensures ShiftLeft(x, n) == 2 * ShiftLeft(x, n - 1)
  {
  }

  /** Numbers without common bits: | is +. */
  lemma {:induction false} OrIsPlus(low: nat, high: nat, n: nat)
    requires low < Pow2(n)
    ensures BitOr(low, ShiftLeft(high, n)) == low + ShiftLeft(high, n)
  {
    if low > 0 {
      ShiftOne(high, n);
      OrIsPlus(low / 2, high, n - 1);
    }
  }

  lemma {:induction false} OrZero(x: nat)
    ensures BitOr(x, 0) == x
  {
    if x > 0 { OrZero(x / 2); }
  }

  lemma {:induction false} OrSymmetric(x: nat, y: nat)
    ensures BitOr(x, y) == BitOr(y, x)
  {
    if x == 0 {
      OrZero(y);
    } else if y == 0 {
      OrZero(x);
    } else {
      OrSymmetric(x / 2, y / 2);
    }
  }

  /** A bit that is set already is not added again. */
  lemma {:induction false} OrAgain(low: nat, n: nat)
    requires low < Pow2(n)
    ensures BitOr(Pow2(n) + low, Pow2(n)) == Pow2(n) + low
  {
    if n == 0 {
      assert BitOr(1, 1) == 1;
    } else {
      assert (Pow2(n) + low) / 2 == Pow2(n - 1) + low / 2;
      OrAgain(low / 2, n - 1);
    }
  }

  // ---------------------------------------------------------------- masks

  lemma MultipleBound(d: int, m: nat)
    ensures d >= 1 ==> d * m >= m
    ensures d <= -1 ==> d * m + m <= 0
  {
    if d >= 1 {
      assert (d - 1) * m >= 0;
    } else if d <= -1 {
      assert (-1 - d) * m >= 0;
    }
  }

  lemma DivModIs(x: nat, m: nat, q: nat, r: nat)
    requires x == q * m + r && r < m
    ensures x / m == q && x % m == r
  {
    var d := x / m - q;
    assert d * m == r - x % m by {
      assert x == x / m * m + x % m;
      assert d * m == x / m * m - q * m;
    }
    MultipleBound(d, m);
  }

  lemma Halve(x: nat, m: nat)
    requires m > 0
    ensures x / (2 * m) == x / 2 / m
    ensures x % (2 * m) == 2 * (x / 2 % m) + x % 2
  {
    var q, r := x / 2 / m, x / 2 % m;
    assert x / 2 == q * m + r;
    assert q * (2 * m) == 2 * (q * m);
    DivModIs(x, 2 * m, q, 2 * r + x % 2);
  }

  /** Shifting to the right divides. */
  lemma {:induction false} ShiftIsDiv(x: nat, n: nat)
    ensures ShiftRight(x, n) == x / Pow2(n)
  {
    if n > 0 {
      ShiftIsDiv(x / 2, n - 1);
      Halve(x, Pow2(n - 1));
    }
  }

  lemma {:induction false} AndZero(x: nat)
    ensures BitAnd(x, 0) == 0
  {
    if x > 0 { AndZero(x / 2); }
  }

  lemma AndOdd(x: nat, m: nat)
    ensures BitAnd(x, 2 * m + 1) == 2 * BitAnd(x / 2, m) + x % 2
  {
    assert (2 * m + 1) / 2 == m;
  }

  /** A mask of the `n` lowest bits leaves the remainder. */
  lemma {:induction false} AndIsMod(x: nat, n: nat)
    ensures BitAnd(x, Pow2(n) - 1) == x % Pow2(n)
  {
    if n == 0 {
      AndZero(x);
    } else {
      AndOdd(x, Pow2(n - 1) - 1);
      AndIsMod(x / 2, n - 1);
      Halve(x, Pow2(n - 1));
    }
  }

  lemma AndEven(x: nat, m: nat)
    ensures BitAnd(x, 2 * m) == 2 * BitAnd(x / 2, m)
  {
    assert 2 * m / 2 == m;
  }

  /** Masking higher bits is masking the shifted number. */
  lemma {:induction false} AndShifted(x: nat, m: nat, n: nat)
    ensures BitAnd(x, ShiftLeft(m, n)) == ShiftLeft(BitAnd(ShiftRight(x, n), m), n)
  {
    if n > 0 {
      ShiftOne(m, n);
      AndEven(x, ShiftLeft(m, n - 1));
      AndShifted(x / 2, m, n - 1);
      ShiftOne(BitAnd(ShiftRight(x, n), m), n);
    }
  }

  lemma {:induction false} ShiftBack(x: nat, n: nat)
    ensures ShiftRight(ShiftLeft(x, n), n) == x
  {
    if n > 0 {
      ShiftOne(x, n);
      ShiftBack(x, n - 1);
    }
  }

  /** The field of `k` bits that starts at bit `n`. */
  lemma MaskedShift(x: nat, n: nat, k: nat)
    ensures ShiftRight(BitAnd(x, ShiftLeft(Pow2(k) - 1, n)), n) == x / Pow2(n) % Pow2(k)
  {
    AndShifted(x, Pow2(k) - 1, n);
    ShiftBack(BitAnd(ShiftRight(x, n), Pow2(k) - 1), n);
    AndIsMod(ShiftRight(x, n), k);
    ShiftIsDiv(x, n);
  }

  /** The bits of a mask above all bits of `x` do nothing. */
  lemma {:induction false} AndIgnores(x: nat, m: nat, high: nat, n: nat)
    requires x < Pow2(n) && m < Pow2(n)
    ensures BitAnd(x, m + ShiftLeft(high, n)) == BitAnd(x, m)
  {
    if x > 0 {
      ShiftOne(high, n);
      AndIgnores(x / 2, m / 2, high, n - 1);
    }
  }

  /** Testing a single bit. */
  lemma AndBit(x: nat, n: nat)
    ensures BitAnd(x, Pow2(n)) != 0 <==> ShiftRight(x, n) % 2 == 1
  {
    assert ShiftLeft(1, n) == Pow2(n);
    AndShifted(x, 1, n);
    assert Pow2(1) == 2;
    AndIsMod(ShiftRight(x, n), 1);
  }

  // ---------------------------------------------------------------- as the sources use them

  lemma {:induction false} Pow256IsPow2(k: nat)
    ensures Pow256(k) == Pow2(8 * k)
  {
    if k > 0 {
      Pow256IsPow2(k - 1);
      var n := 8 * k;
      assert Pow2(n) == 2 * Pow2(n - 1) && Pow2(n - 1) == 2 * Pow2(n - 2) && Pow2(n - 2) == 2 * Pow2(n - 3)
          && Pow2(n - 3) == 2 * Pow2(n - 4);
      assert Pow2(n - 4) == 2 * Pow2(n - 5) && Pow2(n - 5) == 2 * Pow2(n - 6) && Pow2(n - 6) == 2 * Pow2(n - 7)
          && Pow2(n - 7) == 2 * Pow2(n - 8);
    }
  }

  lemma SmallPowers()
    ensures Pow2(3) == 8 && Pow2(5) == 0x20 && Pow2(7) == 0x80 && Pow2(8) == 0x100
    ensures Pow2(15) == 0x8000 && Pow2(16) == 0x1_0000
  {
    assert Pow2(3) == 8;
    assert Pow2(5) == 0x20;
    assert Pow2(7) == 0x80;
    assert Pow2(8) == 0x100;
    assert Pow2(11) == 0x800;
    assert Pow2(15) == 0x8000;
  }

  /** `value |= (uint64_t)b << (8 * k)` */
  method OrByte(value: U64, b: Byte, k: nat) returns (r: U64)
    requires k < 8 && value < Pow256(k)
    ensures r == value + b * Pow256(k)
  {
    Pow256IsPow2(k);
    OrIsPlus(value, b, 8 * k);
    PartialNumberBound(value, b, k);
    Pow256AtMost8(k + 1);
    r := BitOr(value, ShiftLeft(b, 8 * k));
  }

  /** `(hi & 0x1f) << 8 | lo` */
  method OrSize(lo: Byte, hi: Byte) returns (size: U16)
    ensures size == hi % 0x20 * 0x100 + lo
  {
    SmallPowers();
    AndIsMod(hi, 5);
    OrIsPlus(lo, BitAnd(hi, 0x1f), 8);
    OrSymmetric(lo, ShiftLeft(BitAnd(hi, 0x1f), 8));
    size := BitOr(ShiftLeft(BitAnd(hi, 0x1f), 8), lo);
  }

  /** `(hi & 0xe0) >> 5` */
  method HighBits(hi: Byte) returns (n: nat)
    ensures n == hi / 0x20
  {
    SmallPowers();
    MaskedShift(hi, 5, 3);
    assert ShiftLeft(7, 5) == 0xe0;
    n := ShiftRight(BitAnd(hi, 0xe0), 5);
  }

  /** `addr | lo`, where the low byte of `addr` is 0. */
  method OrLow(addr: U16, lo: Byte) returns (r: U16)
    requires addr % 0x100 == 0
    ensures r == addr + lo
  {
    SmallPowers();
    OrIsPlus(lo, addr / 0x100, 8);
    OrSymmetric(lo, addr);
    r := BitOr(addr, lo);
  }

  /** `flags & mask`, for a mask with the single bit `n`. */
  method TestBit(flags: Byte, n: nat) returns (on: bool)
    requires n < 8
    ensures on <==> flags / Pow2(n) % 2 == 1
  {
    AndBit(flags, n);
    ShiftIsDiv(flags, n);
    on := BitAnd(flags, Pow2(n)) != 0;
  }

  /** `addr & ~0x8000`: the complement is that of a 32-bit int. */
  method ClearWriteBit(addr: U16) returns (r: U16)
    ensures r == addr % 0x8000
  {
    SmallPowers();
    AndIgnores(addr, 0x7fff, 0xffff, 16);
    AndIsMod(addr, 15);
    r := BitAnd(addr, 0xffff_7fff);
  }

  /** `0x80 | hi` */
  method SetWriteBit(hi: Byte) returns (r: Byte)
    ensures r == if hi < 0x80 then hi + 0x80 else hi
  {
    SmallPowers();
    OrSymmetric(0x80, hi);
    if hi < 0x80 {
      OrIsPlus(hi, 1, 7);
    } else {
      OrAgain(hi - 0x80, 7);
    }
    r := BitOr(0x80, hi);
  }

  /** On bytes, these are the operations of Dafny's bit vectors. */
  lemma ByteMasks(b: bv8)
    ensures (b & 0x1f) as int == b as int % 0x20
    ensures ((b & 0xe0) >> 5) as int == b as int / 0x20
    ensures (b | 0x80) as int == if b as int < 0x80 then b as int + 0x80 else b as int
  {
  }
}
