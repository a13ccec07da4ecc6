/** Thirty-two-bit words as mathematical integers.

Guest registers are integers in [0, 2^32). Additions wrap explicitly through
Wrap; a host multiply-accumulate reads the same word through Signed. Bit
operations are defined by halving, so their laws are ordinary inductions.
 */
module Words {
  const WORD: int := 0x1_0000_0000
  const HALF: int := 0x8000_0000
  const PAGE: int := 4096

  /** The modulus of a 64-bit host register. */
  const HOST: int := 0x1_0000_0000_0000_0000

  type Word = x: int | 0 <= x < 0x1_0000_0000
  type Reg = r: nat | r < 16

  function Min(a: int, b: int): int {
    if a <= b then a else b
  }

  function Max(a: int, b: int): int {
    if a >= b then a else b
  }

  /** Truncation to 32 bits. */
  function Wrap(x: int): Word {
    x % WORD
  }

  /** The two's-complement reading of a word. */
  function Signed(w: Word): int {
    if w < HALF then w else w - WORD
  }

  function Pow2(n: nat): (p: nat)
    ensures p >= 1
  {
    if n == 0 then 1 else 2 * Pow2(n - 1)
  }

  function BitAnd(a: nat, b: nat): nat {
    if a == 0 || b == 0 then 0
    else 2 * BitAnd(a / 2, b / 2) + (if a % 2 == 1 && b % 2 == 1 then 1 else 0)
  }

  /** Every bit of v is also set in mask: mask is a possible-bits bound for v. */
  predicate Within(v: nat, mask: nat) {
    v == 0 || (v % 2 <= mask % 2 && Within(v / 2, mask / 2))
  }

  lemma {:induction false} WithinBounds(v: nat, mask: nat)
    requires Within(v, mask)
    ensures v <= mask
  {
    if v != 0 {
      WithinBounds(v / 2, mask / 2);
    }
  }

  lemma {:induction false} AndWithin(a: nat, b: nat)
    ensures Within(BitAnd(a, b), b)
  {
    hide Within, BitAnd;
    AndHalves(a, b);
    if a != 0 && b != 0 {
      AndWithin(a / 2, b / 2);
      WithinDoubled(BitAnd(a, b), b);
    } else {
      NoneWithin(b);
    }
  }

  lemma AndHalves(a: nat, b: nat)
    ensures if a == 0 || b == 0 then BitAnd(a, b) == 0
            else BitAnd(a, b) / 2 == BitAnd(a / 2, b / 2) && BitAnd(a, b) % 2 <= b % 2
  {
  }

  lemma NoneWithin(mask: nat)
    ensures Within(0, mask)
  {
  }

  lemma {:induction false} WithinReflexive(v: nat)
    ensures Within(v, v)
  {
    if v != 0 {
      WithinReflexive(v / 2);
    }
  }

  /** Concatenating bounded pieces bounds the concatenation. */
  lemma {:induction false} WithinJoin(high: nat, low: nat, maskHigh: nat, maskLow: nat, k: nat)
    requires low < Pow2(k) && maskLow < Pow2(k)
    requires Within(high, maskHigh) && Within(low, maskLow)
    ensures Within(high * Pow2(k) + low, maskHigh * Pow2(k) + maskLow)
  {
    if k == 0 {
      assert Pow2(0) == 1;
    } else {
      var p := Pow2(k - 1);
      assert Pow2(k) == 2 * p;
      WithinJoin(high, low / 2, maskHigh, maskLow / 2, k - 1);
      HalveJoin(high, low, p);
      HalveJoin(maskHigh, maskLow, p);
    }
  }

  lemma HalveJoin(high: nat, low: nat, p: nat)
    ensures (high * (2 * p) + low) / 2 == high * p + low / 2
    ensures (high * (2 * p) + low) % 2 == low % 2
  {
    assert high * (2 * p) == 2 * (high * p);
  }

  /** Splitting a bounded concatenation bounds both pieces. */
  lemma {:induction false} WithinSplit(high: nat, low: nat, maskHigh: nat, maskLow: nat, k: nat)
    requires low < Pow2(k) && maskLow < Pow2(k)
    requires Within(high * Pow2(k) + low, maskHigh * Pow2(k) + maskLow)
    ensures Within(high, maskHigh) && Within(low, maskLow)
  {
    if k == 0 {
      assert Pow2(0) == 1;
    } else {
      var p := Pow2(k - 1);
      assert Pow2(k) == 2 * p;
      hide Pow2, Within;
      WithinHalved(high, low, maskHigh, maskLow, p);
      WithinSplit(high, low / 2, maskHigh, maskLow / 2, k - 1);
      WithinDoubled(low, maskLow);
    }
  }

  function Join(high: nat, low: nat, p: nat): nat {
    high * p + low
  }

  lemma WithinHalved(high: nat, low: nat, maskHigh: nat, maskLow: nat, p: nat)
    requires Within(Join(high, low, 2 * p), Join(maskHigh, maskLow, 2 * p))
    ensures Within(Join(high, low / 2, p), Join(maskHigh, maskLow / 2, p)) && low % 2 <= maskLow % 2
  {
    hide Within, Join;
    HalvedJoin(high, low, p);
    HalvedJoin(maskHigh, maskLow, p);
    WithinHalves(Join(high, low, 2 * p), Join(maskHigh, maskLow, 2 * p));
  }

  lemma HalvedJoin(high: nat, low: nat, p: nat)
    ensures Join(high, low, 2 * p) / 2 == Join(high, low / 2, p) && Join(high, low, 2 * p) % 2 == low % 2
  {
    HalveJoin(high, low, p);
  }

  lemma WithinDoubled(v: nat, mask: nat)
    requires v % 2 <= mask % 2 && Within(v / 2, mask / 2)
    ensures Within(v, mask)
  {
  }

  lemma WithinHalves(v: nat, mask: nat)
    requires Within(v, mask)
    ensures v % 2 <= mask % 2 && Within(v / 2, mask / 2)
  {
  }

  lemma DivModUnique(v: int, d: int, q: int, r: int)
    requires d > 0 && 0 <= r < d && v == q * d + r
    ensures v / d == q && v % d == r
  {
    var q', r' := v / d, v % d;
    assert v == q' * d + r';
    assert (q' - q) * d == r - r';
    if q' > q {
      Scale(q' - q, 1, d);
    } else if q' < q {
      Scale(-1, q' - q, d);
    }
  }

  lemma Scale(a: int, b: int, d: int)
    requires a >= b && d >= 0
    ensures a * d >= b * d
  {
  }

  /** Multiples of g are closed under addition, subtraction and scaling. */
  lemma MultiplesAdd(x: int, y: int, g: int)
    requires g > 0 && x % g == 0 && y % g == 0
    ensures (x + y) % g == 0 && (x - y) % g == 0
  {
    var a, b := x / g, y / g;
    assert x == a * g && y == b * g;
    Distribute(a, b, g);
    Distribute(a, -b, g);
    DivModUnique(x + y, g, a + b, 0);
    DivModUnique(x - y, g, a - b, 0);
  }

  lemma MultipleScaled(s: int, k: int, g: int)
    requires g > 0 && k % g == 0
    ensures s * k % g == 0
  {
    assert k == k / g * g;
    assert s * k == s * (k / g) * g;
    DivModUnique(s * k, g, s * (k / g), 0);
  }

  /** What a value leaves over a multiple is what the multiple misses. */
  lemma ResidueMissing(x: int, g: int)
    requires g > 0
    ensures (x - x % g) % g == 0
  {
    var q := x / g;
    assert x - x % g == q * g;
    DivModUnique(x - x % g, g, q, 0);
  }

  /** A positive multiple is at least one. */
  lemma PositiveMultiple(x: int, g: int)
    requires g > 0 && x > 0 && x % g == 0
    ensures x >= g
  {
    var q := x / g;
    assert x == q * g;
    if q < 1 {
      Scale(0, q, g);
    } else {
      Scale(q, 1, g);
    }
  }

  lemma {:induction false} Pow2Add(a: nat, b: nat)
    ensures Pow2(a + b) == Pow2(a) * Pow2(b)
  {
    if a != 0 {
      Pow2Add(a - 1, b);
      assert Pow2(a + b) == 2 * Pow2(a - 1 + b);
    }
  }

  lemma Pow2Word()
    ensures Pow2(32) == WORD && Pow2(31) == HALF && Pow2(16) == 0x1_0000 && Pow2(12) == PAGE
  {
    assert Pow2(8) == 256;
    Pow2Add(8, 8);
    Pow2Add(16, 16);
    Pow2Add(16, 15);
    assert Pow2(16) == 0x1_0000;
    assert Pow2(15) == 0x8000 by { assert 2 * Pow2(15) == Pow2(16); }
    Pow2Add(8, 4);
  }

  /** Congruence modulo 2^32: both sides denote the same guest word. */
  ghost predicate Same(a: int, b: int) {
    exists k: int :: a == b + k * WORD
  }

  lemma WrapSame(a: int, b: int)
    ensures Wrap(a) == Wrap(b) <==> Same(a, b)
  {
    assert a == a / WORD * WORD + Wrap(a);
    assert b == b / WORD * WORD + Wrap(b);
    if Wrap(a) == Wrap(b) {
      assert a == b + (a / WORD - b / WORD) * WORD;
    }
    if Same(a, b) {
      var k :| a == b + k * WORD;
      DivModUnique(a, WORD, b / WORD + k, Wrap(b));
    }
  }

  type Int32 = x: int | -0x8000_0000 <= x < 0x8000_0000

  /** Reinterpret the low 32 bits as a signed value. */
  function ToSigned(x: int): Int32 {
    Signed(Wrap(x))
  }

  /** Scaling congruent values keeps them congruent. */
  lemma WrapScale(a: int, b: int, e: int, c: int)
    requires Wrap(a) == Wrap(b)
    ensures Wrap(c + a * e) == Wrap(c + b * e)
  {
    WrapSame(a, b);
    var k :| a == b + k * WORD;
    assert a * e == b * e + (k * e) * WORD;
    assert Same(c + a * e, c + b * e);
    WrapSame(c + a * e, c + b * e);
  }

  /** Truncating sums of constants and coefficients loses nothing modulo 2^32. */
  lemma ScaledSum(base: int, c1: int, c2: int, k1: int, k2: int, e: int)
    ensures Wrap(base + ToSigned(c1 + c2) + ToSigned(k1 + k2) * e) == Wrap(base + (c1 + k1 * e) + (c2 + k2 * e))
  {
    var k := ToSigned(k1 + k2);
    WrapScale(k, k1 + k2, e, base + ToSigned(c1 + c2));
    Distribute(k1, k2, e);
    SignedShift(base + (k1 * e + k2 * e), c1 + c2);
  }

  lemma Distribute(a: int, b: int, e: int)
    ensures (a + b) * e == a * e + b * e
  {
  }

  lemma Regroup(q: int, p: int, h: int)
    ensures q * p * h == q * (p * h)
  {
  }

  lemma SignedShift(x: int, c: int)
    ensures Wrap(x + ToSigned(c)) == Wrap(x + c)
  {
  }

  function Towards(add: bool, x: int): int {
    if add then x else -x
  }

  /** A word-sized displacement from a page-local address stays in the page
      exactly when the unwrapped sum does. */
  lemma PageLocal(base: Word, offset: int)
    requires 0 <= base % PAGE + offset < PAGE
    ensures Wrap(base + offset) == base + offset
    ensures (base + offset) / PAGE == base / PAGE
    ensures (base + offset) % PAGE == base % PAGE + offset
  {
  }
}
