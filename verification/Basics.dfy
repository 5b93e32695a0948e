/** Result types for fallible operations, and powers of two. */
module Basics {

  datatype Option<+T> = None | Some(value: T)

  /** Rust's `Result` with the error's content dropped. */
  datatype Result<+T> = Ok(value: T) | Err {
    predicate IsFailure() {
      Err?
    }

    function PropagateFailure<U>(): (r: Result<U>)
      requires Err?
    {
      Err
    }

    function Extract(): T
      requires Ok?
    {
      value
    }
  }

  /** Rust's `HashMap::get(..).cloned()`. */
  function Get<K, V>(m: map<K, V>, k: K): Option<V> {
    if k in m then Some(m[k]) else None
  }

  /** An address in the memory of the Cairo VM. */
  datatype Relocatable = Relocatable(segment: nat, offset: nat)

  function AsList<T>(o: Option<T>): seq<T> {
    match o
    case Some(x) => [x]
    case None => []
  }

  /** The size of Rust's `usize` and `u64`: 2^64. */
  const USIZE: nat := 0x1_0000_0000_0000_0000

  function RemoveAt<T>(q: seq<T>, k: nat): seq<T>
    requires k < |q|
  {
    q[..k] + q[k + 1..]
  }

  function FlatMap<A, B>(f: A -> seq<B>, s: seq<A>): seq<B> {
    if s == [] then [] else FlatMap(f, s[..|s| - 1]) + f(s[|s| - 1])
  }

  lemma FlatMapAppend<A, B>(f: A -> seq<B>, s: seq<A>, x: A)
    ensures FlatMap(f, s + [x]) == FlatMap(f, s) + f(x)
  {
    assert (s + [x])[..|s|] == s;
  }

  lemma {:induction false} FlatMapConcat<A, B>(f: A -> seq<B>, s: seq<A>, t: seq<A>)
    ensures FlatMap(f, s + t) == FlatMap(f, s) + FlatMap(f, t)
    decreases |t|
  {
    if t == [] {
      assert s + t == s;
    } else {
      var n := |t| - 1;
      FlatMapConcat(f, s, t[..n]);
      FlatMapAppend(f, s + t[..n], t[n]);
      assert s + t == s + t[..n] + [t[n]];
    }
  }

  function Pow2(n: nat): (r: nat)
    ensures r > 0
  {
    if n == 0 then 1 else 2 * Pow2(n - 1)
  }

  lemma {:induction false} Pow2Add(a: nat, b: nat)
    ensures Pow2(a + b) == Pow2(a) * Pow2(b)
  {
    if a > 0 {
      Pow2Add(a - 1, b);
    }
  }

  lemma UsizeIsPow2()
    ensures Pow2(64) == USIZE
  {
    assert Pow2(4) == 16;
    Pow2Add(4, 4);
    Pow2Add(8, 8);
    Pow2Add(16, 16);
    Pow2Add(32, 32);
  }

  lemma Pow2One(n: nat)
    ensures Pow2(n) == 1 <==> n == 0
  {
    if n > 0 {
      assert Pow2(n) == 2 * Pow2(n - 1);
    }
  }

  lemma {:induction false} Pow2Grows(a: nat, b: nat)
    requires a < b
    ensures Pow2(a) < Pow2(b)
    decreases b
  {
    if a < b - 1 {
      Pow2Grows(a, b - 1);
    }
  }

  /** Quotient and remainder are unique. */
  lemma DivModUnique(a: int, d: int, q: int, r: int)
    requires d > 0 && a == q * d + r && 0 <= r < d
    ensures a / d == q && a % d == r
  {
    var q', r' := a / d, a % d;
    assert (q - q') * d == r' - r;
    if q > q' {
      MulMono(1, q - q', d);
    } else if q < q' {
      MulMono(1, q' - q, d);
    }
  }

  lemma MulMono(a: int, b: int, d: int)
    requires a <= b && d >= 0
    ensures a * d <= b * d
  {
  }

  function Quotient(a: nat, d: nat): (q: nat)
    requires d > 0
    ensures q == a / d
  {
    a / d
  }

  lemma ZeroQuotient(a: nat, d: nat)
    requires d > 0
    ensures a / d == 0 <==> a < d
  {
    if a < d {
      DivModUnique(a, d, 0, a);
    }
  }

  /** Dropping `a` and then `b` low bits drops `a + b` of them. */
  lemma DivDiv(x: nat, a: nat, b: nat)
    requires a > 0 && b > 0
    ensures a * b > 0
    ensures x / a / b == x / (a * b)
  {
    var q, r := x / a, x % a;
    var q', r' := q / b, q % b;
    MulMono(1, b, a);
    calc {
      x;
      q * a + r;
      (q' * b + r') * a + r;
      q' * (a * b) + (r' * a + r);
    }
    MulMono(r', b - 1, a);
    assert (b - 1) * a == a * b - a;
    DivModUnique(x, a * b, q', r' * a + r);
  }

  lemma DivDivProduct(x: nat, a: nat, b: nat, c: nat)
    requires a > 0 && b > 0 && c == a * b
    ensures c > 0 && x / a / b == x / c
  {
    DivDiv(x, a, b);
  }

  lemma DropBits(x: nat, a: nat, b: nat)
    ensures x / Pow2(a) / Pow2(b) == x / Pow2(a + b)
  {
    Pow2Add(a, b);
    DivDivProduct(x, Pow2(a), Pow2(b), Pow2(a + b));
  }
}
