/** The fast Fourier transform that puts a polynomial into evaluation form. */
module FourierTransform {
  import opened Basics
  import opened Congruence
  import opened BitReversal

  /** Rust's `iter().step_by(2)`. */
  function EveryOther(s: seq<int>): (r: seq<int>)
    ensures |r| == (|s| + 1) / 2
  {
    seq((|s| + 1) / 2, i requires 0 <= i < (|s| + 1) / 2 => s[2 * i])
  }

  function Plus(e: int, o: int, g: int, p: int): int
    requires p > 0
  {
    Rem(e + Rem(g * o, p), p)
  }

  function Minus(e: int, o: int, g: int, p: int): int
    requires p > 0
  {
    Rem(e - Rem(g * o, p) + p, p)
  }

  function Butterfly(e: seq<int>, o: seq<int>, group: seq<int>, p: int): (r: seq<int>)
    requires p > 0 && |e| == |o| <= |group|
    ensures |r| == 2 * |e|
  {
    seq(|e|, i requires 0 <= i < |e| => Plus(e[i], o[i], group[i], p))
    + seq(|e|, i requires 0 <= i < |e| => Minus(e[i], o[i], group[i], p))
  }

  /** The transform of 2^k coefficients. */
  function Transform(coeffs: seq<int>, group: seq<int>, p: int, k: nat): (r: seq<int>)
    requires p > 0 && |coeffs| == |group| == Pow2(k)
    ensures |r| == |coeffs|
    decreases k
  {
    if k == 0 then coeffs
    else
      var half := EveryOther(group);
      Butterfly(Transform(EveryOther(coeffs), half, p, k - 1), Transform(EveryOther(coeffs[1..]), half, p, k - 1),
                group, p)
  }

  method InnerFft(coeffs: seq<int>, group: seq<int>, p: int, ghost k: nat) returns (r: seq<int>)
    requires p > 0 && |coeffs| == |group| == Pow2(k)
    ensures r == Transform(coeffs, group, p, k)
    decreases k
  {
    Pow2One(k);
    if |coeffs| == 1 {
      return coeffs;
    }
    var e := InnerFft(EveryOther(coeffs), EveryOther(group), p, k - 1);
    var o := InnerFft(EveryOther(coeffs[1..]), EveryOther(group), p, k - 1);
    r := MergeHalves(e, o, group, p);
  }

  method MergeHalves(e: seq<int>, o: seq<int>, group: seq<int>, p: int) returns (r: seq<int>)
    requires p > 0 && |e| == |o| <= |group|
    ensures r == Butterfly(e, o, group, p)
  {
    var products := seq(|o|, i requires 0 <= i < |o| => Rem(group[i] * o[i], p));
    r := [];
    for i := 0 to |e|
      invariant |r| == i && forall j :: 0 <= j < i ==> r[j] == Plus(e[j], o[j], group[j], p)
    {
      r := r + [Rem(e[i] + products[i], p)];
    }
    ghost var sums := r;
    ghost var diffs := [];
    for i := 0 to |e|
      invariant |diffs| == i && r == sums + diffs
      invariant forall j :: 0 <= j < i ==> diffs[j] == Minus(e[j], o[j], group[j], p)
    {
      r := r + [Rem(e[i] - products[i] + p, p)];
      diffs := diffs + [Minus(e[i], o[i], group[i], p)];
    }
  }

  // ----- Evaluating a polynomial -----

  /** The value at `x` of the polynomial with the given coefficients, lowest first. */
  function Eval(c: seq<int>, x: int): int {
    if c == [] then 0 else c[0] + x * Eval(c[1..], x)
  }

  function Tail(c: seq<int>): seq<int> {
    if c == [] then [] else c[1..]
  }

  lemma EveryOtherCons(c: seq<int>)
    requires c != []
    ensures EveryOther(c) == [c[0]] + EveryOther(Tail(c[1..]))
  {
  }

  /** A polynomial is made of its even and its odd part. */
  lemma {:induction false} EvalHalves(c: seq<int>, x: int)
    ensures Eval(c, x) == Eval(EveryOther(c), x * x) + x * Eval(EveryOther(Tail(c)), x * x)
  {
    if c != [] {
      var y := x * x;
      EvalHalves(c[1..], x);
      EveryOtherCons(c);
      var a, b := Eval(EveryOther(c[1..]), y), Eval(EveryOther(Tail(c[1..])), y);
      assert EveryOther(c)[1..] == EveryOther(Tail(c[1..]));
      assert x * (a + x * b) == x * a + y * b;
    }
  }

  lemma {:induction false} EvalCong(c: seq<int>, x: int, y: int, p: int)
    requires Cong(x, y, p)
    ensures Cong(Eval(c, x), Eval(c, y), p)
  {
    if c == [] {
      CongRefl(0, p);
    } else {
      EvalCong(c[1..], x, y, p);
      CongMul(x, y, Eval(c[1..], x), Eval(c[1..], y), p);
      CongRefl(c[0], p);
      CongAdd(c[0], c[0], x * Eval(c[1..], x), y * Eval(c[1..], y), p);
    }
  }

  // ----- The transform evaluates -----

  ghost predicate SquareAt(group: seq<int>, p: int, i: nat) {
    2 * i < |group| && Cong(group[2 * i], group[i] * group[i], p)
  }

  ghost predicate NegatedAt(group: seq<int>, p: int, i: nat) {
    i + |group| / 2 < |group| && Cong(group[i + |group| / 2], -group[i], p)
  }

  /** Doubling an index squares the element, and the second half negates the first. */
  ghost predicate Subgroup(group: seq<int>, p: int) {
    && (forall i :: 0 <= i < |group| / 2 ==> SquareAt(group, p, i))
    && (forall i :: 0 <= i < |group| / 2 ==> NegatedAt(group, p, i))
  }

  lemma SubgroupHalf(group: seq<int>, p: int, m: nat)
    requires |group| == 2 * m && (m == 1 || m % 2 == 0) && Subgroup(group, p)
    ensures Subgroup(EveryOther(group), p)
  {
    var half := EveryOther(group);
    forall i | 0 <= i < m / 2
      ensures SquareAt(half, p, i) && NegatedAt(half, p, i)
    {
      assert SquareAt(group, p, 2 * i) && NegatedAt(group, p, 2 * i);
      assert half[i + m / 2] == group[2 * i + m];
    }
  }

  /** The two outputs of a butterfly, for inputs that are the halves' values at `x`². */
  lemma ButterflyEvaluates(c: seq<int>, e: int, o: int, g: int, y: int, p: int)
    requires p > 0 && c != [] && Cong(y, g * g, p)
    requires Cong(e, Eval(EveryOther(c), y), p) && Cong(o, Eval(EveryOther(c[1..]), y), p)
    ensures Cong(Plus(e, o, g, p), Eval(c, g), p) && Cong(Minus(e, o, g, p), Eval(c, -g), p)
  {
    var E, O := Eval(EveryOther(c), g * g), Eval(EveryOther(c[1..]), g * g);
    EvalMoved(EveryOther(c), e, y, g * g, p);
    EvalMoved(EveryOther(c[1..]), o, y, g * g, p);
    EvalBoth(c, g);
    ButterflyCong(e, o, g, E, O, p);
  }

  lemma EvalMoved(c: seq<int>, e: int, y: int, x: int, p: int)
    requires Cong(e, Eval(c, y), p) && Cong(y, x, p)
    ensures Cong(e, Eval(c, x), p)
  {
    EvalCong(c, y, x, p);
    CongTrans(e, Eval(c, y), Eval(c, x), p);
  }

  /** The values at `g` and at `-g` from those of the two parts at the square. */
  lemma EvalBoth(c: seq<int>, g: int)
    requires c != []
    ensures Eval(c, g) == Eval(EveryOther(c), g * g) + g * Eval(EveryOther(c[1..]), g * g)
    ensures Eval(c, -g) == Eval(EveryOther(c), g * g) - g * Eval(EveryOther(c[1..]), g * g)
  {
    EvalHalves(c, g);
    EvalHalves(c, -g);
    var O := Eval(EveryOther(c[1..]), g * g);
    assert (-g) * (-g) == g * g;
    assert (-g) * O == -(g * O);
  }

  lemma ButterflyCong(e: int, o: int, g: int, E: int, O: int, p: int)
    requires p > 0 && Cong(e, E, p) && Cong(o, O, p)
    ensures Cong(Plus(e, o, g, p), E + g * O, p) && Cong(Minus(e, o, g, p), E - g * O, p)
  {
    var r := Rem(g * o, p);
    CongRefl(g, p);
    CongMul(g, g, o, O, p);
    RemCong(g * o, p);
    CongTrans(r, g * o, g * O, p);
    CongAdd(e, E, r, g * O, p);
    RemCong(e + r, p);
    CongTrans(Plus(e, o, g, p), e + r, E + g * O, p);
    CongSub(e, E, r, g * O, p);
    Multiple(e - r + p, e - r, 1, p);
    CongTrans(e - r + p, e - r, E - g * O, p);
    RemCong(e - r + p, p);
    CongTrans(Minus(e, o, g, p), e - r + p, E - g * O, p);
  }

  ghost predicate Evaluates(values: seq<int>, coeffs: seq<int>, points: seq<int>, p: int) {
    |values| == |points| && forall i :: 0 <= i < |values| ==> EvaluatesAt(values, coeffs, points, p, i)
  }

  ghost predicate EvaluatesAt(values: seq<int>, coeffs: seq<int>, points: seq<int>, p: int, i: nat) {
    i < |values| == |points| && Cong(values[i], Eval(coeffs, points[i]), p)
  }

  /** Merging the values of both halves on the squares gives the values on the group. */
  lemma ButterflyEvaluatesAt(c: seq<int>, e: seq<int>, o: seq<int>, group: seq<int>, p: int, m: nat, i: nat)
    requires p > 0 && i < m == |e| == |o| && |group| == 2 * m && c != [] && Subgroup(group, p)
    requires EvaluatesAt(e, EveryOther(c), EveryOther(group), p, i)
    requires EvaluatesAt(o, EveryOther(c[1..]), EveryOther(group), p, i)
    ensures EvaluatesAt(Butterfly(e, o, group, p), c, group, p, i)
    ensures EvaluatesAt(Butterfly(e, o, group, p), c, group, p, i + m)
  {
    assert SquareAt(group, p, i) && NegatedAt(group, p, i);
    ButterflyEvaluates(c, e[i], o[i], group[i], group[2 * i], p);
    CongSym(group[i + m], -group[i], p);
    EvalCong(c, -group[i], group[i + m], p);
    CongTrans(Minus(e[i], o[i], group[i], p), Eval(c, -group[i]), Eval(c, group[i + m]), p);
  }

  /** Over a subgroup the transform gives the polynomial's value at every group element. */
  lemma {:induction false} TransformEvaluates(coeffs: seq<int>, group: seq<int>, p: int, k: nat)
    requires p > 0 && |coeffs| == |group| == Pow2(k) && Subgroup(group, p)
    ensures Evaluates(Transform(coeffs, group, p, k), coeffs, group, p)
    decreases k
  {
    if k == 0 {
      assert Eval(coeffs[1..], group[0]) == 0;
      CongRefl(coeffs[0], p);
    } else {
      var half, m := EveryOther(group), Pow2(k - 1);
      SubgroupHalf(group, p, m);
      TransformEvaluates(EveryOther(coeffs), half, p, k - 1);
      TransformEvaluates(EveryOther(coeffs[1..]), half, p, k - 1);
      var e, o := Transform(EveryOther(coeffs), half, p, k - 1), Transform(EveryOther(coeffs[1..]), half, p, k - 1);
      ButterflyAllEvaluate(coeffs, e, o, group, p, m);
    }
  }

  lemma ButterflyAllEvaluate(c: seq<int>, e: seq<int>, o: seq<int>, group: seq<int>, p: int, m: nat)
    requires p > 0 && m == |e| == |o| && |group| == 2 * m && c != [] && Subgroup(group, p)
    requires Evaluates(e, EveryOther(c), EveryOther(group), p) && Evaluates(o, EveryOther(c[1..]), EveryOther(group), p)
    ensures Evaluates(Butterfly(e, o, group, p), c, group, p)
  {
    forall i | 0 <= i < 2 * m
      ensures EvaluatesAt(Butterfly(e, o, group, p), c, group, p, i)
    {
      ButterflyEvaluatesAt(c, e, o, group, p, m, if i < m then i else i - m);
    }
  }

  // ----- Powers of a generator -----

  /** The first `n` powers of `g`, reduced step by step. */
  function PowersOf(g: int, p: int, n: nat): (group: seq<int>)
    requires p > 0 && n > 0
    ensures |group| == n && group[0] == 1
  {
    if n == 1 then [1] else var group := PowersOf(g, p, n - 1); group + [Rem(group[n - 2] * g, p)]
  }

  lemma {:induction false} PowersCong(g: int, p: int, n: nat, i: nat)
    requires p > 0 && i < n
    ensures Cong(PowersOf(g, p, n)[i], Pow(g, i), p)
    ensures g >= 0 ==> PowersOf(g, p, n)[i] >= 0
    decreases n
  {
    if i < n - 1 {
      PowersCong(g, p, n - 1, i);
    } else if n == 1 {
      CongRefl(1, p);
    } else {
      var last := PowersOf(g, p, n - 1)[n - 2];
      PowersCong(g, p, n - 1, n - 2);
      CongRefl(g, p);
      CongMul(last, Pow(g, n - 2), g, g, p);
      assert Pow(g, n - 1) == Pow(g, n - 2) * g;
      if g >= 0 {
        MulMono(0, last, g);
      }
      RemCong(last * g, p);
      CongTrans(Rem(last * g, p), last * g, Pow(g, n - 1), p);
    }
  }

  /** g^(n/2) = -1 for n = 2^k. */
  ghost predicate HalfPowerNegates(g: int, p: int, k: nat) {
    k > 0 ==> Cong(Pow(g, Pow2(k - 1)), -1, p)
  }

  lemma PowersSquare(g: int, p: int, n: nat, i: nat)
    requires p > 0 && 2 * i < n
    ensures SquareAt(PowersOf(g, p, n), p, i)
  {
    var group := PowersOf(g, p, n);
    PowersCong(g, p, n, i);
    PowersCong(g, p, n, 2 * i);
    CongMul(group[i], Pow(g, i), group[i], Pow(g, i), p);
    PowAdd(g, i, i);
    CongSym(group[i] * group[i], Pow(g, 2 * i), p);
    CongTrans(group[2 * i], Pow(g, 2 * i), group[i] * group[i], p);
  }

  lemma PowersNegate(g: int, p: int, m: nat, i: nat)
    requires p > 0 && i < m && Cong(Pow(g, m), -1, p)
    ensures NegatedAt(PowersOf(g, p, 2 * m), p, i)
  {
    var group := PowersOf(g, p, 2 * m);
    PowersCong(g, p, 2 * m, i);
    PowersCong(g, p, 2 * m, i + m);
    PowAdd(g, i, m);
    CongSym(group[i], Pow(g, i), p);
    CongMul(Pow(g, i), group[i], Pow(g, m), -1, p);
    assert group[i] * -1 == -group[i];
    CongTrans(group[i + m], Pow(g, i + m), -group[i], p);
  }

  lemma PowersSubgroup(g: int, p: int, k: nat)
    requires p > 0 && HalfPowerNegates(g, p, k)
    ensures Subgroup(PowersOf(g, p, Pow2(k)), p)
  {
    if k > 0 {
      var m := Pow2(k - 1);
      forall i | 0 <= i < m
        ensures SquareAt(PowersOf(g, p, 2 * m), p, i) && NegatedAt(PowersOf(g, p, 2 * m), p, i)
      {
        PowersSquare(g, p, 2 * m, i);
        PowersNegate(g, p, m, i);
      }
    }
  }

  // ----- The transform over the powers of a generator -----

  /** The transform before any reordering. */
  function Spectrum(coeffs: seq<int>, g: int, p: int, k: nat): (r: seq<int>)
    requires p > 0 && |coeffs| == Pow2(k)
    ensures |r| == Pow2(k)
  {
    Transform(coeffs, PowersOf(g, p, Pow2(k)), p, k)
  }

  /** Output `i` is the polynomial's value at g^i, for all `i`. */
  ghost predicate Right(coeffs: seq<int>, g: int, p: int, k: nat)
    requires p > 0 && |coeffs| == Pow2(k)
  {
    forall i :: 0 <= i < Pow2(k) ==> Cong(Spectrum(coeffs, g, p, k)[i], Eval(coeffs, Pow(g, i)), p)
  }

  lemma SpectrumEvaluates(coeffs: seq<int>, g: int, p: int, k: nat)
    requires p > 0 && |coeffs| == Pow2(k) && HalfPowerNegates(g, p, k)
    ensures Right(coeffs, g, p, k)
  {
    var values, group := Spectrum(coeffs, g, p, k), PowersOf(g, p, Pow2(k));
    PowersSubgroup(g, p, k);
    TransformEvaluates(coeffs, group, p, k);
    forall i | 0 <= i < Pow2(k)
      ensures Cong(values[i], Eval(coeffs, Pow(g, i)), p)
    {
      assert EvaluatesAt(values, coeffs, group, p, i);
      PowersCong(g, p, Pow2(k), i);
      EvalCong(coeffs, group[i], Pow(g, i), p);
      CongTrans(values[i], Eval(coeffs, group[i]), Eval(coeffs, Pow(g, i)), p);
    }
  }

  /** Whatever the group, the first output is the sum of the coefficients. */
  lemma {:induction false} FirstOutput(coeffs: seq<int>, group: seq<int>, p: int, k: nat)
    requires p > 0 && |coeffs| == |group| == Pow2(k) && group[0] == 1
    ensures Cong(Transform(coeffs, group, p, k)[0], Eval(coeffs, 1), p)
    ensures k > 0 ==> Cong(Transform(coeffs, group, p, k)[Pow2(k - 1)], Eval(coeffs, -1), p)
    decreases k
  {
    if k == 0 {
      assert Eval(coeffs[1..], 1) == 0;
      CongRefl(coeffs[0], p);
    } else {
      var half := EveryOther(group);
      var e, o := Transform(EveryOther(coeffs), half, p, k - 1), Transform(EveryOther(coeffs[1..]), half, p, k - 1);
      FirstOutput(EveryOther(coeffs), half, p, k - 1);
      FirstOutput(EveryOther(coeffs[1..]), half, p, k - 1);
      FirstButterfly(coeffs, e, o, group, p);
    }
  }

  lemma FirstButterfly(c: seq<int>, e: seq<int>, o: seq<int>, group: seq<int>, p: int)
    requires p > 0 && 0 < |e| == |o| <= |group| && group[0] == 1 && c != []
    requires Cong(e[0], Eval(EveryOther(c), 1), p) && Cong(o[0], Eval(EveryOther(c[1..]), 1), p)
    ensures Cong(Butterfly(e, o, group, p)[0], Eval(c, 1), p)
    ensures Cong(Butterfly(e, o, group, p)[|e|], Eval(c, -1), p)
  {
    CongRefl(1, p);
    ButterflyEvaluates(c, e[0], o[0], 1, 1, p);
  }

  lemma {:induction false} EvalZeros(c: seq<int>, x: int)
    requires forall i :: 0 <= i < |c| ==> c[i] == 0
    ensures Eval(c, x) == 0
  {
    if c != [] {
      EvalZeros(c[1..], x);
    }
  }

  /** The polynomial X, padded to `n` coefficients. */
  function X(n: nat): (c: seq<int>)
    requires n >= 2
    ensures |c| == n
  {
    [0, 1] + seq(n - 2, _ => 0)
  }

  /** The polynomial X shows that the condition on the generator is needed. */
  lemma SpectrumOfX(g: int, p: int, k: nat)
    requires p > 0 && k > 0 && Right(X(Pow2(k)), g, p, k)
    ensures HalfPowerNegates(g, p, k)
  {
    var m := Pow2(k - 1);
    var c := X(Pow2(k));
    FirstOutput(c, PowersOf(g, p, Pow2(k)), p, k);
    var v := Spectrum(c, g, p, k)[m];
    EvalX(Pow2(k), Pow(g, m));
    EvalX(Pow2(k), -1);
    CongSym(v, Pow(g, m), p);
    CongTrans(Pow(g, m), v, -1, p);
  }

  lemma EvalX(n: nat, x: int)
    requires n >= 2
    ensures Eval(X(n), x) == x
  {
    var zeros := seq(n - 2, _ => 0);
    assert X(n)[1..] == [1] + zeros && X(n)[1..][1..] == zeros;
    EvalZeros(zeros, x);
    assert Eval(X(n)[1..], x) == 1 + x * 0;
    assert Eval(X(n), x) == 0 + x * 1;
  }

  /** The transform evaluates every polynomial exactly when g^(n/2) = -1. */
  lemma SpectrumExact(g: int, p: int, k: nat)
    requires p > 0
    ensures (forall c: seq<int> :: |c| == Pow2(k) ==> Right(c, g, p, k)) <==> HalfPowerNegates(g, p, k)
  {
    if HalfPowerNegates(g, p, k) {
      forall c: seq<int> | |c| == Pow2(k)
        ensures Right(c, g, p, k)
      {
        SpectrumEvaluates(c, g, p, k);
      }
    }
    if k > 0 && forall c: seq<int> :: |c| == Pow2(k) ==> Right(c, g, p, k) {
      SpectrumOfX(g, p, k);
    }
  }

  // ----- The order of the generator -----

  ghost predicate ZeroProduct(a: int, b: int, p: int) {
    Cong(a * b, 0, p)
  }

  ghost predicate NoZeroDivisors(p: int) {
    forall a, b :: ZeroProduct(a, b, p) ==> Cong(a, 0, p) || Cong(b, 0, p)
  }

  /** The order of `g` is 2^k. */
  ghost predicate HasOrder(g: int, p: int, k: nat) {
    Cong(Pow(g, Pow2(k)), 1, p) && (k > 0 ==> !Cong(Pow(g, Pow2(k - 1)), 1, p))
  }

  /** In a field of odd characteristic, g^(n/2) = -1 says that `g` has order n = 2^k. */
  lemma OrderIsLength(g: int, p: int, k: nat)
    requires p > 2 && k > 0 && NoZeroDivisors(p)
    ensures HalfPowerNegates(g, p, k) <==> HasOrder(g, p, k)
  {
    var y := Pow(g, Pow2(k - 1));
    PowAdd(g, Pow2(k - 1), Pow2(k - 1));
    assert Pow(g, Pow2(k)) == y * y;
    if Cong(y, -1, p) {
      MinusOneIsRoot(y, p);
    } else if Cong(y * y, 1, p) {
      RootsOfOne(y, p);
    }
  }

  lemma MinusOneIsRoot(y: int, p: int)
    requires p > 2 && Cong(y, -1, p)
    ensures Cong(y * y, 1, p) && !Cong(y, 1, p)
  {
    CongMul(y, -1, y, -1, p);
    if Cong(y, 1, p) {
      CongSym(y, 1, p);
      CongTrans(1, y, -1, p);
      TwoIsNotZero(p);
    }
  }

  lemma RootsOfOne(y: int, p: int)
    requires NoZeroDivisors(p) && Cong(y * y, 1, p)
    ensures Cong(y, 1, p) || Cong(y, -1, p)
  {
    CongRefl(1, p);
    CongSub(y * y, 1, 1, 1, p);
    assert (y - 1) * (y + 1) == y * y - 1;
    assert ZeroProduct(y - 1, y + 1, p);
    if Cong(y - 1, 0, p) {
      CongAdd(y - 1, 0, 1, 1, p);
    } else {
      CongSub(y + 1, 0, 1, 1, p);
    }
  }

  lemma TwoIsNotZero(p: int)
    requires p > 2
    ensures !Cong(1, -1, p)
  {
    if Cong(1, -1, p) {
      var k :| 1 == -1 + Times(k, p);
      if k >= 1 {
        MulMono(1, k, p);
      } else {
        MulMono(k, 0, p);
      }
    }
  }

  // ----- Reduced results -----

  predicate NonNegative(s: seq<int>) {
    forall i :: 0 <= i < |s| ==> s[i] >= 0
  }

  predicate Reduced(s: seq<int>, p: int) {
    forall i :: 0 <= i < |s| ==> 0 <= s[i] < p
  }

  lemma PlusMinusReduced(e: int, o: int, g: int, p: int)
    requires p > 0 && e >= 0 && o >= 0 && g >= 0
    ensures 0 <= Plus(e, o, g, p) < p && 0 <= Minus(e, o, g, p) < p
  {
    MulMono(0, g, o);
    RemCong(g * o, p);
    RemCong(e + Rem(g * o, p), p);
    RemCong(e - Rem(g * o, p) + p, p);
  }

  lemma EveryOtherNonNegative(s: seq<int>)
    requires NonNegative(s)
    ensures NonNegative(EveryOther(s))
  {
  }

  lemma ReducedNonNegative(s: seq<int>, p: int)
    requires Reduced(s, p)
    ensures NonNegative(s)
  {
  }

  lemma {:induction false} TransformReduced(coeffs: seq<int>, group: seq<int>, p: int, k: nat)
    requires p > 0 && |coeffs| == |group| == Pow2(k) && NonNegative(coeffs) && NonNegative(group)
    ensures NonNegative(Transform(coeffs, group, p, k))
    ensures k > 0 ==> Reduced(Transform(coeffs, group, p, k), p)
    decreases k
  {
    if k > 0 {
      var half := EveryOther(group);
      EveryOtherNonNegative(group);
      EveryOtherNonNegative(coeffs);
      EveryOtherNonNegative(coeffs[1..]);
      TransformReduced(EveryOther(coeffs), half, p, k - 1);
      TransformReduced(EveryOther(coeffs[1..]), half, p, k - 1);
      var e, o := Transform(EveryOther(coeffs), half, p, k - 1), Transform(EveryOther(coeffs[1..]), half, p, k - 1);
      ButterflyReduced(e, o, group, p);
      ReducedNonNegative(Butterfly(e, o, group, p), p);
    }
  }

  lemma ButterflyReduced(e: seq<int>, o: seq<int>, group: seq<int>, p: int)
    requires p > 0 && |e| == |o| <= |group| && NonNegative(e) && NonNegative(o) && NonNegative(group)
    ensures Reduced(Butterfly(e, o, group, p), p)
  {
    forall i | 0 <= i < |e|
      ensures 0 <= Plus(e[i], o[i], group[i], p) < p && 0 <= Minus(e[i], o[i], group[i], p) < p
    {
      PlusMinusReduced(e[i], o[i], group[i], p);
    }
  }

  /** For n >= 2 and non-negative input the outputs are the values modulo `p` themselves. */
  lemma SpectrumIsValue(coeffs: seq<int>, g: int, p: int, k: nat)
    requires p > 0 && k > 0 && |coeffs| == Pow2(k) && HalfPowerNegates(g, p, k) && NonNegative(coeffs) && g >= 0
    ensures forall i :: 0 <= i < Pow2(k) ==> Spectrum(coeffs, g, p, k)[i] == Eval(coeffs, Pow(g, i)) % p
  {
    var group := PowersOf(g, p, Pow2(k));
    forall i | 0 <= i < Pow2(k)
      ensures group[i] >= 0
    {
      PowersCong(g, p, Pow2(k), i);
    }
    TransformReduced(coeffs, group, p, k);
    SpectrumEvaluates(coeffs, g, p, k);
    forall i | 0 <= i < Pow2(k)
      ensures Spectrum(coeffs, g, p, k)[i] == Eval(coeffs, Pow(g, i)) % p
    {
      CongReduced(Spectrum(coeffs, g, p, k)[i], Eval(coeffs, Pow(g, i)), p);
    }
  }

  // ----- The whole transform -----

  function TrailingZeros(n: nat): nat
    requires n > 0
  {
    if n % 2 == 1 then 0 else 1 + TrailingZeros(n / 2)
  }

  predicate IsPowerOfTwo(n: nat) {
    n > 0 && n == Pow2(TrailingZeros(n))
  }

  lemma {:induction false} TrailingZerosOfPow2(k: nat)
    ensures TrailingZeros(Pow2(k)) == k
  {
    if k > 0 {
      TrailingZerosOfPow2(k - 1);
    }
  }

  function Reordered(values: seq<int>, k: nat): (r: seq<int>)
    requires |values| == Pow2(k)
    ensures |r| == |values|
  {
    seq(|values|, i requires 0 <= i < |values| => values[Reversed(i, k)])
  }

  /** The transform of a list of coefficients; `Err` stands for the failed assertion on its length. */
  method Fft(coeffs: seq<int>, g: int, p: int, bitReversed: bool) returns (r: Result<seq<int>>)
    requires p > 0
    ensures coeffs == [] ==> r == Ok([])
    ensures coeffs != [] ==> (r.Ok? <==> exists k :: |coeffs| == Pow2(k))
    ensures forall k :: |coeffs| == Pow2(k) ==>
      var values := Spectrum(coeffs, g, p, k); r == Ok(if bitReversed then Reordered(values, k) else values)
  {
    if coeffs == [] {
      return Ok([]);
    }
    var n := |coeffs|;
    forall k | n == Pow2(k)
      ensures k == TrailingZeros(n)
    {
      TrailingZerosOfPow2(k);
    }
    if !IsPowerOfTwo(n) {
      return Err;
    }
    var group := [1];
    for i := 0 to n - 1
      invariant group == PowersOf(g, p, i + 1)
    {
      group := group + [Rem(group[|group| - 1] * g, p)];
    }
    var width := TrailingZeros(n);
    var values := InnerFft(coeffs, group, p, width);
    if bitReversed {
      values := Reorder(values, width);
    }
    r := Ok(values);
  }

  method Reorder(values: seq<int>, width: nat) returns (r: seq<int>)
    requires |values| == Pow2(width)
    ensures r == Reordered(values, width)
  {
    r := [];
    for i := 0 to |values|
      invariant |r| == i && forall j :: 0 <= j < i ==> r[j] == Reordered(values, width)[j]
    {
      assert ReverseBits(i, width) == Some(Reversed(i, width));
      r := r + [values[ReverseBits(i, width).value]];
    }
  }
}
