/** Bits of natural numbers: big-endian bit strings, bit windows, and masks. */
module Bits {
  import opened Basics

  /** The `length` bits of `x` from bit `shift` upwards, as a number. */
  function Window(x: nat, shift: nat, length: nat): (w: nat)
    ensures w < Pow2(length)
  {
    (x / Pow2(shift)) % Pow2(length)
  }

  predicate Bit(x: nat, i: nat) {
    (x / Pow2(i)) % 2 == 1
  }

  const WIDTH: nat := 256

  /** 256 bits, most significant first. */
  function ToBitsBe(x: nat): (bits: seq<bool>)
    ensures |bits| == WIDTH
  {
    seq(WIDTH, (j: int) requires 0 <= j < WIDTH => Bit(x, WIDTH - 1 - j))
  }

  lemma ModSplit(q: nat, d: nat)
    requires d > 0
    ensures q % (2 * d) == (if (q / d) % 2 == 1 then d else 0) + q % d
  {
    var a, r := q / d, q % d;
    var b := a % 2;
    calc {
      q;
      a * d + r;
      (2 * (a / 2) + b) * d + r;
      (a / 2) * (2 * d) + (b * d + r);
    }
    assert b == 0 || b == 1;
    DivModUnique(q, 2 * d, a / 2, b * d + r);
  }

  lemma BitOfQuotient(x: nat, shift: nat, i: nat)
    ensures Bit(x, shift + i) <==> (x / Pow2(shift) / Pow2(i)) % 2 == 1
  {
    DropBits(x, shift, i);
  }

  /** A window is its top bit and the window below it. */
  lemma WindowTop(x: nat, shift: nat, length: nat)
    requires length > 0
    ensures Window(x, shift, length)
         == (if Bit(x, shift + length - 1) then Pow2(length - 1) else 0) + Window(x, shift, length - 1)
  {
    BitOfQuotient(x, shift, length - 1);
    ModSplit(x / Pow2(shift), Pow2(length - 1));
  }

  /** Slices of bit strings are equal exactly when the windows are. */
  lemma {:induction false} SliceIsWindow(x: nat, y: nat, a: nat, b: nat, length: nat)
    requires a + length <= WIDTH && b + length <= WIDTH
    ensures ToBitsBe(x)[a..a + length] == ToBitsBe(y)[b..b + length]
       <==> Window(x, WIDTH - a - length, length) == Window(y, WIDTH - b - length, length)
    decreases length
  {
    var s, s' := WIDTH - a - length, WIDTH - b - length;
    if length == 0 {
    } else {
      SliceIsWindow(x, y, a + 1, b + 1, length - 1);
      WindowTop(x, s, length);
      WindowTop(y, s', length);
      var u, v := ToBitsBe(x), ToBitsBe(y);
      assert u[a..a + length] == [u[a]] + u[a + 1..a + length];
      assert v[b..b + length] == [v[b]] + v[b + 1..b + length];
      assert u[a] == Bit(x, s + length - 1) && v[b] == Bit(y, s' + length - 1);
    }
  }

  // ----- Masks -----

  function BitOr(a: nat, b: nat): nat
    decreases a + b
  {
    if a == 0 && b == 0 then 0
    else 2 * BitOr(a / 2, b / 2) + if a % 2 == 1 || b % 2 == 1 then 1 else 0
  }

  /** `a & !mask`. */
  function BitClear(a: nat, mask: nat): nat
    decreases a
  {
    if a == 0 then 0
    else 2 * BitClear(a / 2, mask / 2) + if a % 2 == 1 && mask % 2 == 0 then 1 else 0
  }

  function OrBit(p: nat, q: nat): nat {
    if p == 1 || q == 1 then 1 else 0
  }

  lemma BitOrStep(x: nat, p: nat, y: nat, q: nat)
    requires p <= 1 && q <= 1
    ensures BitOr(2 * x + p, 2 * y + q) == 2 * BitOr(x, y) + OrBit(p, q)
  {
    assert (2 * x + p) / 2 == x && (2 * x + p) % 2 == p;
    assert (2 * y + q) / 2 == y && (2 * y + q) % 2 == q;
  }

  lemma BitClearStep(x: nat, p: nat, y: nat, q: nat)
    requires p <= 1 && q <= 1
    ensures BitClear(2 * x + p, 2 * y + q) == 2 * BitClear(x, y) + if p == 1 && q == 0 then 1 else 0
  {
    assert (2 * x + p) / 2 == x && (2 * x + p) % 2 == p;
    assert (2 * y + q) / 2 == y && (2 * y + q) % 2 == q;
  }

  /** `a * 2^s + c` with its last bit split off. */
  lemma LastBit(a: nat, c: nat, s: nat) returns (x: nat)
    requires s > 0 && c < Pow2(s)
    ensures x == a * Pow2(s - 1) + c / 2 && c / 2 < Pow2(s - 1)
    ensures a * Pow2(s) + c == 2 * x + c % 2
  {
    x := a * Pow2(s - 1) + c / 2;
    var d := Pow2(s - 1);
    assert a * (2 * d) == 2 * (a * d);
  }

  /** The bits above and below position `s` are combined separately. */
  lemma {:induction false} BitOrSplit(a: nat, c: nat, b: nat, e: nat, s: nat)
    requires c < Pow2(s) && e < Pow2(s)
    ensures BitOr(a * Pow2(s) + c, b * Pow2(s) + e) == BitOr(a, b) * Pow2(s) + BitOr(c, e)
    decreases s
  {
    if s > 0 {
      var x := LastBit(a, c, s);
      var y := LastBit(b, e, s);
      BitOrStep(x, c % 2, y, e % 2);
      BitOrSplit(a, c / 2, b, e / 2, s - 1);
      BitOrStep(c / 2, c % 2, e / 2, e % 2);
      Doubled(BitOr(a, b), s);
    }
  }

  lemma {:induction false} BitClearSplit(a: nat, c: nat, b: nat, e: nat, s: nat)
    requires c < Pow2(s) && e < Pow2(s)
    ensures BitClear(a * Pow2(s) + c, b * Pow2(s) + e) == BitClear(a, b) * Pow2(s) + BitClear(c, e)
    decreases s
  {
    if s > 0 {
      var x := LastBit(a, c, s);
      var y := LastBit(b, e, s);
      BitClearStep(x, c % 2, y, e % 2);
      BitClearSplit(a, c / 2, b, e / 2, s - 1);
      BitClearStep(c / 2, c % 2, e / 2, e % 2);
      Doubled(BitClear(a, b), s);
    }
  }

  lemma Doubled(x: nat, s: nat)
    requires s > 0
    ensures x * Pow2(s) == 2 * (x * Pow2(s - 1))
  {
    var d := Pow2(s - 1);
    assert x * (2 * d) == 2 * (x * d);
  }

  lemma {:induction false} BitOrZero(a: nat)
    ensures BitOr(a, 0) == a && BitOr(0, a) == a && BitClear(a, 0) == a && BitClear(0, a) == 0
  {
    if a > 0 {
      BitOrZero(a / 2);
    }
  }

  lemma {:induction false} BitClearAll(w: nat, length: nat)
    requires w < Pow2(length)
    ensures BitClear(w, Pow2(length) - 1) == 0
    decreases length
  {
    if length > 0 {
      BitClearAll(w / 2, length - 1);
      BitClearStep(w / 2, w % 2, Pow2(length - 1) - 1, 1);
    }
  }

  function ShiftLeft(x: nat, s: nat): nat {
    x * Pow2(s)
  }

  /** Clears the window of `length` bits from bit `shift` on and fills in `v`. */
  function ReplaceBits(x: nat, shift: nat, v: nat, length: nat): nat {
    BitOr(BitClear(x, ShiftLeft(Pow2(length) - 1, shift)), ShiftLeft(v, shift))
  }

  /** The number with bits `hi`, then the `length` bits of `v`, then the `shift` bits of `lo`. */
  function Compose(hi: nat, v: nat, lo: nat, shift: nat, length: nat): nat {
    (hi * Pow2(length) + v) * Pow2(shift) + lo
  }

  /** Clearing a window and filling in `v` replaces the window by `v`. */
  lemma ReplaceWindow(hi: nat, w: nat, lo: nat, v: nat, shift: nat, length: nat)
    requires w < Pow2(length) && v < Pow2(length) && lo < Pow2(shift)
    ensures ReplaceBits(Compose(hi, w, lo, shift, length), shift, v, length) == Compose(hi, v, lo, shift, length)
  {
    ClearWindow(hi, w, lo, shift, length);
    FillWindow(hi, lo, v, shift, length);
  }

  lemma Decompose(x: nat, shift: nat, length: nat) returns (hi: nat, w: nat, lo: nat)
    ensures w < Pow2(length) && lo < Pow2(shift) && x == Compose(hi, w, lo, shift, length)
  {
    var q: nat;
    q, lo := DivMod(x, Pow2(shift));
    hi, w := DivMod(q, Pow2(length));
  }

  lemma DivMod(x: nat, d: nat) returns (q: nat, r: nat)
    requires d > 0
    ensures r < d && x == q * d + r
  {
    q, r := x / d, x % d;
  }

  lemma ComposeParts(hi: nat, v: nat, lo: nat, shift: nat, length: nat)
    requires v < Pow2(length) && lo < Pow2(shift)
    ensures var x := Compose(hi, v, lo, shift, length);
            x / Pow2(shift + length) == hi && Window(x, shift, length) == v && x % Pow2(shift) == lo
  {
    var x := Compose(hi, v, lo, shift, length);
    DivModUnique(x, Pow2(shift), hi * Pow2(length) + v, lo);
    DivModUnique(hi * Pow2(length) + v, Pow2(length), hi, v);
    DropBits(x, shift, length);
  }

  lemma ClearWindow(hi: nat, w: nat, lo: nat, shift: nat, length: nat)
    requires w < Pow2(length) && lo < Pow2(shift)
    ensures BitClear(Compose(hi, w, lo, shift, length), ShiftLeft(Pow2(length) - 1, shift))
         == ShiftLeft(ShiftLeft(hi, length), shift) + lo
  {
    ClearHigh(hi, w, length);
    ClearLow(ShiftLeft(hi, length) + w, lo, Pow2(length) - 1, shift);
  }

  lemma ClearHigh(hi: nat, w: nat, length: nat)
    requires w < Pow2(length)
    ensures BitClear(ShiftLeft(hi, length) + w, Pow2(length) - 1) == ShiftLeft(hi, length)
  {
    BitClearParts(hi, w, 0, Pow2(length) - 1, length, ShiftLeft(hi, length) + w, Pow2(length) - 1);
    BitClearAll(w, length);
    BitOrZero(hi);
  }

  lemma {:induction false} BitClearParts(a: nat, c: nat, b: nat, e: nat, s: nat, x: nat, y: nat)
    requires c < Pow2(s) && e < Pow2(s) && x == ShiftLeft(a, s) + c && y == ShiftLeft(b, s) + e
    ensures BitClear(x, y) == ShiftLeft(BitClear(a, b), s) + BitClear(c, e)
  {
    BitClearSplit(a, c, b, e, s);
  }

  lemma {:induction false} BitOrParts(a: nat, c: nat, b: nat, e: nat, s: nat, x: nat, y: nat)
    requires c < Pow2(s) && e < Pow2(s) && x == ShiftLeft(a, s) + c && y == ShiftLeft(b, s) + e
    ensures BitOr(x, y) == ShiftLeft(BitOr(a, b), s) + BitOr(c, e)
  {
    BitOrSplit(a, c, b, e, s);
  }

  lemma ClearLow(a: nat, lo: nat, mask: nat, shift: nat)
    requires lo < Pow2(shift)
    ensures BitClear(ShiftLeft(a, shift) + lo, ShiftLeft(mask, shift)) == ShiftLeft(BitClear(a, mask), shift) + lo
  {
    BitClearSplit(a, lo, mask, 0, shift);
    BitOrZero(lo);
  }

  lemma FillWindow(hi: nat, lo: nat, v: nat, shift: nat, length: nat)
    requires v < Pow2(length) && lo < Pow2(shift)
    ensures BitOr(ShiftLeft(ShiftLeft(hi, length), shift) + lo, ShiftLeft(v, shift))
            == Compose(hi, v, lo, shift, length)
  {
    FillHigh(hi, v, length);
    FillLow(hi * Pow2(length), lo, v, shift);
  }

  lemma FillHigh(hi: nat, v: nat, length: nat)
    requires v < Pow2(length)
    ensures BitOr(ShiftLeft(hi, length), v) == ShiftLeft(hi, length) + v
  {
    BitOrParts(hi, 0, 0, v, length, ShiftLeft(hi, length), v);
    BitOrZero(v);
    BitOrZero(hi);
  }

  lemma FillLow(a: nat, lo: nat, v: nat, shift: nat)
    requires lo < Pow2(shift)
    ensures BitOr(a * Pow2(shift) + lo, v * Pow2(shift)) == BitOr(a, v) * Pow2(shift) + lo
  {
    BitOrSplit(a, lo, v, 0, shift);
    BitOrZero(lo);
  }
}
