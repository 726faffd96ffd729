/** The bitwise operators of ECMAScript: operands are taken to 32 bits, results are signed 32-bit
    integers except that `>>>` gives an unsigned one.  Bits are written out over the integers. */
module JsNumbers {
  import opened Powers

  const TWO31 := 0x8000_0000
  const TWO32 := 0x1_0000_0000

  function ToUint32(n: int): (u: nat)
    ensures u < TWO32
  {
    n % TWO32
  }

  function ToInt32(n: int): (i: int)
    ensures -TWO31 <= i < TWO31 && ToUint32(i) == ToUint32(n)
  {
    var u := n % TWO32;
    if u < TWO31 then u else u - TWO32
  }

  function BitOr(a: nat, b: nat): nat
    decreases a + b
  {
    if a == 0 && b == 0 then 0
    else 2 * BitOr(a / 2, b / 2) + (if a % 2 == 1 || b % 2 == 1 then 1 else 0)
  }

  function BitAnd(a: nat, b: nat): nat
    decreases a + b
  {
    if a == 0 && b == 0 then 0
    else 2 * BitAnd(a / 2, b / 2) + (if a % 2 == 1 && b % 2 == 1 then 1 else 0)
  }

  /** `n` without its last `k` bits. */
  function Drop(n: nat, k: nat): nat {
    if k == 0 then n else Drop(n / 2, k - 1)
  }

  function Shl(a: int, k: nat): int {
    ToInt32(a * Pow2(k))
  }

  function UShr(a: int, k: nat): int {
    Drop(ToUint32(a), k)
  }

  function Or(a: int, b: int): int {
    ToInt32(BitOr(ToUint32(a), ToUint32(b)))
  }

  function And(a: int, b: int): int {
    ToInt32(BitAnd(ToUint32(a), ToUint32(b)))
  }

  lemma {:induction false} OrZero(a: nat)
    ensures BitOr(a, 0) == a
  {
    if a == 0 {
    } else {
      OrZero(a / 2);
    }
  }

  /** Bits that do not overlap: OR is addition. */
  lemma {:induction false} OrDisjoint(x: nat, y: nat, k: nat)
    requires y < Pow2(k)
    ensures BitOr(x * Pow2(k), y) == x * Pow2(k) + y
  {
    if k == 0 {
      OrZero(x);
    } else {
      var p := Pow2(k - 1);
      var a := x * Pow2(k);
      assert a == 2 * (x * p);
      OrDisjoint(x, y / 2, k - 1);
    }
  }

  /** The last `k` bits of `n`. */
  function Keep(n: nat, k: nat): nat {
    if k == 0 then 0 else 2 * Keep(n / 2, k - 1) + n % 2
  }

  /** A mask of ones keeps the last bits. */
  lemma {:induction false} AndMask(a: nat, k: nat)
    ensures BitAnd(a, Pow2(k) - 1) == Keep(a, k)
  {
    if k == 0 {
      AndZero(a);
    } else {
      AndMask(a / 2, k - 1);
      AndOdd(a, Pow2(k - 1) - 1);
    }
  }

  lemma {:induction false} KeepIsRemainder(n: nat, k: nat)
    ensures Keep(n, k) == n % Pow2(k)
  {
    if k == 0 {
    } else {
      KeepIsRemainder(n / 2, k - 1);
      HalfRemainder(n, Pow2(k - 1));
    }
  }

  lemma AndOdd(a: nat, h: nat)
    ensures BitAnd(a, 2 * h + 1) == 2 * BitAnd(a / 2, h) + a % 2
  {
  }

  lemma {:induction false} AndZero(a: nat)
    ensures BitAnd(a, 0) == 0
  {
    if a == 0 {
    } else {
      AndZero(a / 2);
    }
  }

  lemma HalfRemainder(a: nat, p: nat)
    requires p > 0
    ensures a % (2 * p) == 2 * (a / 2 % p) + a % 2
  {
    var q, s := a / 2 / p, a / 2 % p;
    assert a / 2 == p * q + s;
    var rest := 2 * s + a % 2;
    assert a == 2 * p * q + rest && 0 <= rest < 2 * p;
    Remainder(a, 2 * p, q, rest);
  }

  lemma Remainder(a: int, d: int, q: int, r: int)
    requires d > 0 && 0 <= r < d && a == d * q + r
    ensures a / d == q && a % d == r
  {
    SameQuotient(d, a / d, a % d, q, r);
  }

  lemma SameQuotient(d: int, q: int, r: int, q': int, r': int)
    requires 0 <= r < d && 0 <= r' < d && d * q + r == d * q' + r'
    ensures q == q' && r == r'
  {
    if q < q' {
      AtLeast(d, q' - q);
    } else if q' < q {
      AtLeast(d, q - q');
    }
  }

  lemma AtLeast(d: int, x: int)
    requires d > 0 && x > 0
    ensures d * x >= d
  {
  }

  lemma {:induction false} DropDrop(n: nat, j: nat, k: nat)
    ensures Drop(Drop(n, j), k) == Drop(n, j + k)
  {
    if j == 0 {
    } else {
      DropDrop(n / 2, j - 1, k);
    }
  }

  lemma {:induction false} DropScaled(n: nat, k: nat)
    ensures Drop(n * Pow2(k), k) == n
  {
    if k == 0 {
    } else {
      assert n * Pow2(k) == 2 * (n * Pow2(k - 1));
      DropScaled(n, k - 1);
    }
  }

  lemma DropFew(n: nat)
    ensures Drop(n, 1) == n / 2 && Drop(n, 2) == n / 4 && Drop(n, 3) == n / 8 && Drop(n, 4) == n / 16
    ensures Drop(n, 5) == n / 32 && Drop(n, 8) == n / 256
  {
    assert Drop(n, 1) == Drop(n / 2, 0) == n / 2;
    DropDrop(n, 1, 1);
    DropDrop(n, 2, 1);
    DropDrop(n, 3, 1);
    DropDrop(n, 4, 1);
    DropDrop(n, 4, 4);
    assert Drop(n / 16, 4) == n / 16 / 16 by {
      DropDrop(n / 16, 1, 1);
      DropDrop(n / 16, 2, 1);
      DropDrop(n / 16, 3, 1);
    }
  }

  lemma {:induction false} KeepKeep(n: nat, m: nat, k: nat)
    requires k <= m
    ensures Keep(Keep(n, m), k) == Keep(n, k)
  {
    if k == 0 {
    } else {
      KeepKeep(n / 2, m - 1, k - 1);
      assert Keep(n, m) / 2 == Keep(n / 2, m - 1) && Keep(n, m) % 2 == n % 2;
    }
  }

  /** Within the last `m` bits it does not matter that the others are gone. */
  lemma {:induction false} KeepOfDrop(n: nat, m: nat, b: nat, k: nat)
    requires b + k <= m
    ensures Keep(Drop(Keep(n, m), b), k) == Keep(Drop(n, b), k)
  {
    if b == 0 {
      KeepKeep(n, m, k);
    } else {
      assert Keep(n, m) / 2 == Keep(n / 2, m - 1);
      KeepOfDrop(n / 2, m - 1, b - 1, k);
    }
  }

  const TWO27 := 0x800_0000

  lemma Times32(x: int, d: nat)
    requires d < 32
    ensures (32 * x + d) % TWO32 == 32 * (x % TWO27) + d
  {
  }

  lemma Low27(x: int)
    ensures x % TWO27 == x % TWO32 % TWO27
  {
  }

  lemma {:induction false} DropShrinks(n: nat, k: nat)
    ensures Drop(n, k) <= n
  {
    if k == 0 {
    } else {
      DropShrinks(n / 2, k - 1);
    }
  }

  // ---------- the widths that occur ----------

  lemma Keep32(n: nat)
    ensures Keep(n, 32) == n % TWO32
  {
    Pow2At32();
    KeepIsRemainder(n, 32);
  }

  lemma Keep8(n: nat)
    ensures Keep(n, 8) == n % 256
  {
    Pow2At8();
    KeepIsRemainder(n, 8);
  }

  /** A number that fits is not changed by the 32-bit conversions. */
  lemma InRange(n: nat)
    requires n < TWO31
    ensures ToInt32(n) == n && ToUint32(n) == n
  {
  }

  lemma OrSmall(a: nat, b: nat)
    requires a < TWO31 && b < TWO31 && BitOr(a, b) < TWO31
    ensures Or(a, b) == BitOr(a, b)
  {
    InRange(a);
    InRange(b);
    InRange(BitOr(a, b));
  }

  lemma AndSmall(a: nat, b: nat)
    requires a < TWO31 && b < TWO31 && BitAnd(a, b) < TWO31
    ensures And(a, b) == BitAnd(a, b)
  {
    InRange(a);
    InRange(b);
    InRange(BitAnd(a, b));
  }

  lemma InUnsignedRange(n: nat)
    requires n < TWO32
    ensures ToUint32(n) == n
  {
  }

  /** `x & 0xff` is the last byte. */
  lemma AndByte(x: nat, mask: nat)
    requires x < TWO32 && mask == 0xff
    ensures And(x, mask) == x % 256
  {
    MaskByte(x, mask);
    InUnsignedRange(x);
    InUnsignedRange(mask);
    InRange(BitAnd(x, mask));
  }

  lemma MaskByte(x: nat, mask: nat)
    requires mask == 255
    ensures BitAnd(x, mask) == x % 256
  {
    Pow2At8();
    AndMask(x, 8);
    Keep8(x);
  }

  /** `(value << 5) | d`. */
  lemma ShiftIn5(value: int, d: nat)
    requires d < 32
    ensures ToUint32(Or(Shl(value, 5), d)) == (32 * value + d) % TWO32
  {
    var m := value % TWO27;
    Shl5(value);
    InUnsignedRange(d);
    Or5(m, d);
    OrBits(Shl(value, 5), d, 32 * m, d);
    Times32(value, d);
  }

  lemma Shl5(value: int)
    ensures ToUint32(Shl(value, 5)) == 32 * (value % TWO27)
  {
  }

  lemma OrBits(a: int, b: int, x: nat, y: nat)
    requires ToUint32(a) == x && ToUint32(b) == y && BitOr(x, y) < TWO32
    ensures ToUint32(Or(a, b)) == BitOr(x, y)
  {
  }

  lemma Or5(m: nat, d: nat)
    requires d < 32
    ensures BitOr(32 * m, d) == 32 * m + d
  {
    Pow2At5();
    OrDisjoint(m, d, 5);
    assert m * Pow2(5) == 32 * m;
  }

  lemma {:induction false} KeepShrinks(n: nat, k: nat)
    ensures Keep(n, k) <= n
  {
    if k == 0 {
    } else {
      KeepShrinks(n / 2, k - 1);
    }
  }

  /** `x & mask` for a mask of `k` ones; `p` is 2^k. */
  lemma AndOnes(x: nat, mask: nat, k: nat, p: nat)
    requires x < TWO31 && p == Pow2(k) && mask == p - 1 && mask < TWO31
    ensures And(x, mask) == x % p
  {
    AndMask(x, k);
    KeepIsRemainder(x, k);
    KeepShrinks(x, k);
    AndSmall(x, mask);
  }

  /** `x << k` where nothing is shifted out. */
  lemma ShlAt(x: nat, k: nat, p: nat)
    requires p == Pow2(k) && x * p < TWO31
    ensures Shl(x, k) == x * p
  {
  }

  /** `a | lo` where the bits of `lo` are below those of `a`, a multiple of 2^k. */
  lemma OrAt(a: nat, lo: nat, hi: nat, k: nat, p: nat)
    requires p == Pow2(k) && a == hi * p && lo < p && a + lo < TWO31
    ensures Or(a, lo) == a + lo
  {
    OrDisjoint(hi, lo, k);
    OrSmall(a, lo);
  }

  /** The same without 32-bit conversions. */
  lemma BitOrAt(a: nat, lo: nat, hi: nat, k: nat, p: nat)
    requires p == Pow2(k) && a == hi * p && lo < p
    ensures BitOr(a, lo) == a + lo
  {
    OrDisjoint(hi, lo, k);
  }
}
