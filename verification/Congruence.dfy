/** Congruence modulo a positive number, and the truncating remainder. */
module Congruence {
  import opened Basics

  function Times(k: int, p: int): int {
    k * p
  }

  ghost predicate Cong(a: int, b: int, p: int) {
    exists k :: a == b + Times(k, p)
  }

  lemma Multiple(a: int, b: int, k: int, p: int)
    requires a == b + k * p
    ensures Cong(a, b, p)
  {
    assert a == b + Times(k, p);
  }

  lemma CongRefl(a: int, p: int)
    ensures Cong(a, a, p)
  {
    Multiple(a, a, 0, p);
  }

  lemma CongSym(a: int, b: int, p: int)
    requires Cong(a, b, p)
    ensures Cong(b, a, p)
  {
    var k :| a == b + Times(k, p);
    Multiple(b, a, -k, p);
  }

  lemma CongTrans(a: int, b: int, c: int, p: int)
    requires Cong(a, b, p) && Cong(b, c, p)
    ensures Cong(a, c, p)
  {
    var k :| a == b + Times(k, p);
    var l :| b == c + Times(l, p);
    Multiple(a, c, k + l, p);
  }

  lemma CongAdd(a: int, a': int, b: int, b': int, p: int)
    requires Cong(a, a', p) && Cong(b, b', p)
    ensures Cong(a + b, a' + b', p)
  {
    var k :| a == a' + Times(k, p);
    var l :| b == b' + Times(l, p);
    Multiple(a + b, a' + b', k + l, p);
  }

  lemma CongSub(a: int, a': int, b: int, b': int, p: int)
    requires Cong(a, a', p) && Cong(b, b', p)
    ensures Cong(a - b, a' - b', p)
  {
    var k :| a == a' + Times(k, p);
    var l :| b == b' + Times(l, p);
    Multiple(a - b, a' - b', k - l, p);
  }

  lemma CongMul(a: int, a': int, b: int, b': int, p: int)
    requires Cong(a, a', p) && Cong(b, b', p)
    ensures Cong(a * b, a' * b', p)
  {
    var k :| a == a' + Times(k, p);
    var l :| b == b' + Times(l, p);
    ProductMultiple(a', b', k, l, p);
    Multiple(a * b, a' * b', k * b' + l * a' + k * l * p, p);
  }

  lemma ProductMultiple(a: int, b: int, k: int, l: int, p: int)
    ensures (a + k * p) * (b + l * p) == a * b + (k * b + l * a + k * l * p) * p
  {
    calc {
      (a + k * p) * (b + l * p);
      a * (b + l * p) + (k * p) * (b + l * p);
      a * b + a * (l * p) + (k * p) * b + (k * p) * (l * p);
      a * b + (l * a) * p + (k * b) * p + (k * l * p) * p;
    }
  }

  /** Rust's remainder, which has the sign of the dividend. */
  function Rem(a: int, p: int): int
    requires p > 0
  {
    if a >= 0 then a % p else -((-a) % p)
  }

  lemma RemCong(a: int, p: int)
    requires p > 0
    ensures Cong(Rem(a, p), a, p)
    ensures a >= 0 ==> 0 <= Rem(a, p) < p
    ensures -p < Rem(a, p) < p
  {
    if a >= 0 {
      Multiple(a % p, a, -(a / p), p);
    } else {
      Multiple(-((-a) % p), a, (-a) / p, p);
    }
  }

  lemma CongReduced(a: int, b: int, p: int)
    requires p > 0 && 0 <= a < p && Cong(a, b, p)
    ensures a == b % p
  {
    var k :| a == b + Times(k, p);
    DivModUnique(b, p, -k, a);
  }

  /** `b` to the power `n`. */
  function Pow(b: int, n: nat): int {
    if n == 0 then 1 else b * Pow(b, n - 1)
  }

  lemma {:induction false} PowAdd(b: int, m: nat, n: nat)
    ensures Pow(b, m + n) == Pow(b, m) * Pow(b, n)
  {
    if m > 0 {
      PowAdd(b, m - 1, n);
      assert b * (Pow(b, m - 1) * Pow(b, n)) == (b * Pow(b, m - 1)) * Pow(b, n);
    }
  }
}
