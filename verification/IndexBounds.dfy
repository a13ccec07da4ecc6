/** Possible-bits bounds survive every index shift of an address. */
module IndexBounds {
  import opened Words
  import opened Isa
  import opened IntegerSemantics

  /** High and low parts around bit k of a word. */
  lemma Split(v: Word, k: nat)
    requires k <= 32
    ensures v == v / Pow2(k) * Pow2(k) + v % Pow2(k) && 0 <= v % Pow2(k) < Pow2(k)
    ensures 0 <= v / Pow2(k) < Pow2(32 - k)
    ensures Pow2(k) * Pow2(32 - k) == WORD
  {
    hide Pow2;
    Pow2Add(k, 32 - k);
    Pow2Word();
    SplitBy(v, Pow2(k), Pow2(32 - k));
  }

  lemma SplitBy(v: Word, p: nat, h: nat)
    requires p >= 1 && p * h == WORD
    ensures v == v / p * p + v % p && 0 <= v / p < h
  {
    var q := v / p;
    assert v == q * p + v % p;
    if q >= h {
      Scale(q, h, p);
    }
    if q < 0 {
      Scale(-1, q, p);
    }
  }

  lemma RotateParts(v: Word, k: nat)
    requires k < 32
    ensures RotateRight(v, k) == v % Pow2(k) * Pow2(32 - k) + v / Pow2(k)
  {
    hide Pow2;
    Split(v, k);
    RotatedSum(v, v / Pow2(k), v % Pow2(k), Pow2(k), Pow2(32 - k));
  }

  lemma RotatedSum(v: int, q: int, r: int, p: int, h: int)
    requires v == q * p + r && 0 <= r < p && 0 <= q < h && p * h == WORD
    ensures Wrap(q + v * h) == r * h + q
  {
    Distribute(q * p, r, h);
    Regroup(q, p, h);
    Scale(p - 1, r, h);
    Scale(r, 0, h);
    Distribute(p - 1, 1, h);
    DivModUnique(q + v * h, WORD, q, r * h + q);
  }

  lemma ArithmeticParts(v: Word, k: nat)
    requires k < 32
    ensures ArithmeticRight(v, k) == (if TopBit(v) then Pow2(k) - 1 else 0) * Pow2(32 - k) + v / Pow2(k)
  {
    hide Pow2;
    Split(v, k);
    if TopBit(v) {
      FilledSum(v, v / Pow2(k), v % Pow2(k), Pow2(k), Pow2(32 - k));
    } else {
      assert Wrap(v / Pow2(k)) == v / Pow2(k);
    }
  }

  lemma FilledSum(v: Word, q: int, r: int, p: int, h: int)
    requires v == q * p + r && 0 <= r < p && 0 <= q < h && p * h == WORD && h > 0
    ensures Wrap((v - WORD) / p) == (p - 1) * h + q
  {
    Distribute(q - h, h, p);
    Regroup(1, h, p);
    assert h * p == p * h;
    DivModUnique(v - WORD, p, q - h, r);
    Distribute(p - 1, 1, h);
    Scale(p, 1, h);
    DivModUnique(q - h, WORD, -1, q - h + WORD);
  }

  lemma TopWithin(v: Word, mask: Word)
    requires Within(v, mask)
    ensures TopBit(v) ==> TopBit(mask)
  {
    WithinBounds(v, mask);
  }

  /** A shifted value has no bit its shifted bound lacks. */
  lemma ShiftWithin(v: Word, mask: Word, kind: ShiftKind, amount: nat)
    requires Within(v, mask)
    requires kind == Lsl ==> amount < 32 && mask * Pow2(amount) < WORD
    requires kind == Ror ==> amount != 0
    ensures Within(Shift(v, kind, amount, false, false).value, Shift(mask, kind, amount, false, false).value)
  {
    hide Pow2, ShiftLeft, ShiftRight, ArithmeticRight, RotateRight, BitSet;
    match kind
    case Lsl =>
      LslWithin(v, mask, amount);
    case Lsr =>
      if 0 < amount < 32 {
        LsrWithin(v, mask, amount);
      }
    case Asr =>
      TopWithin(v, mask);
      if 0 < amount < 32 {
        AsrWithin(v, mask, amount);
      } else {
        WithinReflexive(WORD - 1);
      }
    case Ror =>
      RorWithin(v, mask, amount % 32);
  }

  lemma LslWithin(v: Word, mask: Word, k: nat)
    requires Within(v, mask) && mask * Pow2(k) < WORD
    ensures Within(ShiftLeft(v, k), ShiftLeft(mask, k))
  {
    hide Within, Pow2;
    WithinBounds(v, mask);
    WithinJoin(v, 0, mask, 0, k);
    Scale(mask, v, Pow2(k));
    Unwrapped(v * Pow2(k));
    Unwrapped(mask * Pow2(k));
  }

  lemma Unwrapped(x: int)
    requires 0 <= x < WORD
    ensures Wrap(x) == x && x + 0 == x
  {
  }

  lemma LsrWithin(v: Word, mask: Word, k: nat)
    requires Within(v, mask) && k < 32
    ensures Within(ShiftRight(v, k), ShiftRight(mask, k))
  {
    Split(v, k);
    Split(mask, k);
    WithinSplit(v / Pow2(k), v % Pow2(k), mask / Pow2(k), mask % Pow2(k), k);
  }

  lemma AsrWithin(v: Word, mask: Word, k: nat)
    requires Within(v, mask) && k < 32
    ensures Within(ArithmeticRight(v, k), ArithmeticRight(mask, k))
  {
    var fill, maskFill := if TopBit(v) then Pow2(k) - 1 else 0, if TopBit(mask) then Pow2(k) - 1 else 0;
    hide Pow2, Within, ArithmeticRight, TopBit;
    FillWithin(v, mask, k);
    ArithmeticParts(v, k);
    ArithmeticParts(mask, k);
    Split(v, k);
    Split(mask, k);
    WithinSplit(v / Pow2(k), v % Pow2(k), mask / Pow2(k), mask % Pow2(k), k);
    WithinJoin(fill, v / Pow2(k), maskFill, mask / Pow2(k), 32 - k);
  }

  lemma FillWithin(v: Word, mask: Word, k: nat)
    requires Within(v, mask)
    ensures Within(if TopBit(v) then Pow2(k) - 1 else 0, if TopBit(mask) then Pow2(k) - 1 else 0)
  {
    hide Pow2, TopBit;
    TopWithin(v, mask);
    WithinReflexive(Pow2(k) - 1);
  }

  lemma RorWithin(v: Word, mask: Word, k: nat)
    requires Within(v, mask) && k < 32
    ensures Within(RotateRight(v, k), RotateRight(mask, k))
  {
    RotateParts(v, k);
    RotateParts(mask, k);
    Split(v, k);
    Split(mask, k);
    WithinSplit(v / Pow2(k), v % Pow2(k), mask / Pow2(k), mask % Pow2(k), k);
    WithinJoin(v % Pow2(k), v / Pow2(k), mask % Pow2(k), mask / Pow2(k), 32 - k);
  }

  /** A value bounded by a multiple of a power of two is itself a multiple. */
  lemma {:induction false} WithinMultiple(v: nat, mask: nat, k: nat)
    requires Within(v, mask) && mask % Pow2(k) == 0
    ensures v % Pow2(k) == 0
  {
    if k != 0 && v != 0 {
      var p := Pow2(k - 1);
      assert Pow2(k) == 2 * p;
      HalveMultiple(mask, p);
      WithinMultiple(v / 2, mask / 2, k - 1);
      hide Pow2, Within;
      DoubleMultiple(v, p);
    }
  }

  lemma HalveMultiple(x: nat, p: nat)
    requires p >= 1 && x % (2 * p) == 0
    ensures x % 2 == 0 && x / 2 % p == 0
  {
    var q := x / (2 * p);
    assert x == q * (2 * p);
    assert q * (2 * p) == 2 * (q * p);
    DivModUnique(x, 2, q * p, 0);
    DivModUnique(q * p, p, q, 0);
  }

  lemma DoubleMultiple(x: nat, p: nat)
    requires p >= 1 && x % 2 == 0 && x / 2 % p == 0
    ensures x % (2 * p) == 0
  {
    var q := x / 2 / p;
    assert x == 2 * (x / 2) && x / 2 == q * p;
    assert 2 * (q * p) == q * (2 * p);
    DivModUnique(x, 2 * p, q, 0);
  }
}
