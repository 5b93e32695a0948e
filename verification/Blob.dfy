/** The blob of a polynomial: its values at the powers of a root of unity, as bytes. */
module Blob {
  import opened Basics
  import opened BitReversal
  import opened Congruence
  import opened FourierTransform

  const FIELD_ELEMENTS_PER_BLOB: nat := 4096
  const BYTES_PER_FIELD_ELEMENT: nat := 32
  const BLOB_SUBGROUP_GENERATOR: int := 39033254847818212395286706435128746857159659164139250548781411570340225835782
  const BLS_PRIME: int := 52435875175126190479447740508185965837690552500527637822603658699938581184513

  // ----- The generator -----

  lemma Squared(g: int, p: int, k: nat, x: int, y: int, q: int) returns (k': nat)
    requires Cong(Pow(g, Pow2(k)), x, p) && x * x == y + q * p
    ensures k' == k + 1 && Cong(Pow(g, Pow2(k')), y, p)
  {
    k' := k + 1;
    var z := Pow(g, Pow2(k));
    PowAdd(g, Pow2(k), Pow2(k));
    CongMul(z, x, z, x, p);
    Multiple(x * x, y, q, p);
    CongTrans(z * z, x * x, y, p);
  }

  /** Squaring the generator eleven times gives -1: it has order 4096. */
  lemma GeneratorNegates(g: int, p: int) returns (k: nat)
    requires g == BLOB_SUBGROUP_GENERATOR && p == BLS_PRIME
    ensures k == 11 && Cong(Pow(g, Pow2(k)), -1, p)
  {
    k := 0;
    assert Pow2(k) == 1;
    assert Pow(g, 1) == g * Pow(g, 0);
    CongRefl(g, p);
    k := Squared(g, p, k,
      39033254847818212395286706435128746857159659164139250548781411570340225835782,
      49307615728544765012166121802278658070711169839041683575071795236746050763237,
      29056346993850996498408613211046595192243508027277179240039304581442059905599);
    k := Squared(g, p, k,
      49307615728544765012166121802278658070711169839041683575071795236746050763237,
      22781213702924172180523978385542388841346373992886390990881355510284839737428,
      46365984370699199490387537932779246691790987783203796165207256631841590439557);
    k := Squared(g, p, k,
      22781213702924172180523978385542388841346373992886390990881355510284839737428,
      4214636447306890335450803789410475782380792963881561516561680164772024173390,
      9897492814699666225703588144736490092861041638969691344979563153664421763138);
    k := Squared(g, p, k,
      4214636447306890335450803789410475782380792963881561516561680164772024173390,
      36007022166693598376559747923784822035233416720563672082740011604939309541707,
      338759681680566094384661421608725582014079238341167629848615681613431472761);
    k := Squared(g, p, k,
      36007022166693598376559747923784822035233416720563672082740011604939309541707,
      47309214877430199588914062438791732591241783999377560080318349803002842391998,
      24725546030893419283650058338437031747284857013340151260074394014359783700027);
    k := Squared(g, p, k,
      47309214877430199588914062438791732591241783999377560080318349803002842391998,
      31519469946562159605140591558550197856588417350474800936898404023113662197331,
      42683788624559304820678447170489061067855387984546907739320709598449179462321);
    k := Squared(g, p, k,
      31519469946562159605140591558550197856588417350474800936898404023113662197331,
      36581797046584068049060372878520385032448812009597153775348195406694427778894,
      18946512905414557504371570029177993596326186137134313470805608426261485096859);
    k := Squared(g, p, k,
      36581797046584068049060372878520385032448812009597153775348195406694427778894,
      14788168760825820622209131888203028446852016562542525606630160374691593895118,
      25521227035651289821428581224593977611479455108593087890288738081119609700086);
    k := Squared(g, p, k,
      14788168760825820622209131888203028446852016562542525606630160374691593895118,
      23674694431658770659612952115660802947967373701506253797663184111817857449850,
      4170616673570918327606325064043322261829970076819436991364757318224184538698);
    k := Squared(g, p, k,
      23674694431658770659612952115660802947967373701506253797663184111817857449850,
      3465144826073652318776269530687742778270252468765361963008,
      10689077936822400752933022887068862718368496949774884062459812111304843150884);
    k := Squared(g, p, k,
      3465144826073652318776269530687742778270252468765361963008,
      -1,
      228988810152649578064853576960394133505);
  }

  // ----- Bytes -----

  type byte = b: nat | b < 256

  /** Big-endian digits, at least one. */
  function ToBytesBe(x: nat): (s: seq<byte>) {
    if x < 256 then [x] else ToBytesBe(x / 256) + [x % 256]
  }

  function FromBytesBe(s: seq<byte>): nat {
    if s == [] then 0 else 256 * FromBytesBe(s[..|s| - 1]) + s[|s| - 1]
  }

  function Zeros(n: nat): seq<byte> {
    seq(n, _ => 0)
  }

  function Magnitude(x: int): nat {
    if x >= 0 then x else -x
  }

  /** The number's magnitude on at least `length` bytes. */
  function ToBytes(x: int, length: nat): seq<byte> {
    var bytes := ToBytesBe(Magnitude(x));
    if |bytes| < length then Zeros(length - |bytes|) + bytes else bytes
  }

  lemma {:induction false} BytesRoundTrip(x: nat, n: nat)
    requires n > 0 && x < Pow2(8 * n)
    ensures FromBytesBe(ToBytesBe(x)) == x && |ToBytesBe(x)| <= n
  {
    if x < 256 {
      assert FromBytesBe([]) == 0;
      assert [x][..0] == [];
    } else {
      assert Pow2(8) == 256;
      assert n > 1;
      Pow2Add(8, 8 * (n - 1));
      BytesRoundTrip(x / 256, n - 1);
      assert ToBytesBe(x)[..|ToBytesBe(x)| - 1] == ToBytesBe(x / 256);
    }
  }

  lemma {:induction false} LeadingZeros(n: nat, s: seq<byte>)
    ensures FromBytesBe(Zeros(n) + s) == FromBytesBe(s)
    decreases n + |s|
  {
    var t := Zeros(n) + s;
    if s != [] {
      LeadingZeros(n, s[..|s| - 1]);
      assert t[..|t| - 1] == Zeros(n) + s[..|s| - 1];
    } else if n > 0 {
      LeadingZeros(n - 1, []);
      assert t[..|t| - 1] == Zeros(n - 1) + [];
    }
  }

  /** A number of at most `n` bytes is written on exactly `n` bytes and read back. */
  lemma FieldElementRoundTrip(x: nat, n: nat)
    requires n > 0 && x < Pow2(8 * n)
    ensures |ToBytes(x, n)| == n && FromBytesBe(ToBytes(x, n)) == x
  {
    BytesRoundTrip(x, n);
    LeadingZeros(n - |ToBytesBe(x)|, ToBytesBe(x));
  }

  function ElementBytes(x: int): seq<byte> {
    ToBytes(x, BYTES_PER_FIELD_ELEMENT)
  }

  /** The `i`-th field element of a blob. */
  function Chunk(bytes: seq<byte>, i: nat): seq<byte>
    requires (i + 1) * BYTES_PER_FIELD_ELEMENT <= |bytes|
  {
    bytes[i * BYTES_PER_FIELD_ELEMENT..(i + 1) * BYTES_PER_FIELD_ELEMENT]
  }

  lemma {:induction false} ChunksOf(f: int -> seq<byte>, values: seq<int>)
    requires forall i :: 0 <= i < |values| ==> |f(values[i])| == BYTES_PER_FIELD_ELEMENT
    ensures |FlatMap(f, values)| == |values| * BYTES_PER_FIELD_ELEMENT
    ensures forall i :: 0 <= i < |values| ==> Chunk(FlatMap(f, values), i) == f(values[i])
  {
    if values != [] {
      var n := |values| - 1;
      ChunksOf(f, values[..n]);
      var bytes := FlatMap(f, values[..n]);
      forall i | 0 <= i < |values|
        ensures Chunk(bytes + f(values[n]), i) == f(values[i])
      {
        if i < n {
          assert Chunk(bytes, i) == f(values[..n][i]);
        }
      }
    }
  }

  /** Numbers below `p` fit in `n` bytes. */
  ghost predicate Fits(p: int, n: nat) {
    0 < p <= Pow2(8 * n)
  }

  lemma PrimeFits(p: int, n: nat)
    requires p == BLS_PRIME && n == BYTES_PER_FIELD_ELEMENT
    ensures Fits(p, n)
  {
    Pow2Of128();
    Pow2Add(128, 128);
  }

  lemma Pow2Of128()
    ensures Pow2(128) == 0x1_0000_0000_0000_0000_0000_0000_0000_0000
  {
    UsizeIsPow2();
    Pow2Add(64, 64);
  }

  // ----- Polynomials -----

  /** Rust's `resize` with zeros. */
  function PadTo(c: seq<int>, n: nat): (r: seq<int>)
    requires |c| <= n
    ensures |r| == n
  {
    c + seq(n - |c|, _ => 0)
  }

  lemma {:induction false} EvalPadding(c: seq<int>, zeros: seq<int>, x: int)
    requires forall i :: 0 <= i < |zeros| ==> zeros[i] == 0
    ensures Eval(c + zeros, x) == Eval(c, x)
  {
    if c == [] {
      EvalZeros(zeros, x);
      assert c + zeros == zeros;
    } else {
      EvalPadding(c[1..], zeros, x);
      assert (c + zeros)[1..] == c[1..] + zeros;
    }
  }

  method SerializeBlob(blob: seq<int>) returns (bytes: seq<byte>)
    requires |blob| == FIELD_ELEMENTS_PER_BLOB
    ensures bytes == FlatMap(ElementBytes, blob)
  {
    bytes := [];
    for i := 0 to |blob|
      invariant bytes == FlatMap(ElementBytes, blob[..i])
    {
      assert blob[..i + 1] == blob[..i] + [blob[i]];
      FlatMapAppend(ElementBytes, blob[..i], blob[i]);
      bytes := bytes + ToBytes(blob[i], BYTES_PER_FIELD_ELEMENT);
    }
    assert blob[..|blob|] == blob;
  }

  /** The field elements of a blob are the polynomial's values at the powers of `g`, whose
      exponents are the bit-reversed positions. */
  ghost predicate Encodes(bytes: seq<byte>, c: seq<int>, g: int, p: int, k: nat) {
    && p > 0 && |bytes| == Pow2(k) * BYTES_PER_FIELD_ELEMENT
    && forall i :: 0 <= i < Pow2(k) ==> FromBytesBe(Chunk(bytes, i)) == Eval(c, Pow(g, Reversed(i, k))) % p
  }

  lemma ValuesEncode(values: seq<int>, c: seq<int>, g: int, p: int, k: nat)
    requires Fits(p, BYTES_PER_FIELD_ELEMENT) && |values| == Pow2(k)
    requires forall i :: 0 <= i < Pow2(k) ==> values[i] == Eval(c, Pow(g, Reversed(i, k))) % p
    ensures Encodes(FlatMap(ElementBytes, values), c, g, p, k)
  {
    forall i | 0 <= i < |values|
      ensures |ElementBytes(values[i])| == BYTES_PER_FIELD_ELEMENT && FromBytesBe(ElementBytes(values[i])) == values[i]
    {
      assert 0 <= values[i] < p;
      FieldElementRoundTrip(values[i], BYTES_PER_FIELD_ELEMENT);
    }
    ChunksOf(ElementBytes, values);
  }

  /** What the constants must satisfy for a blob of 2^k field elements. */
  ghost predicate Suitable(g: int, p: int, k: nat) {
    g >= 0 && k > 0 && Fits(p, BYTES_PER_FIELD_ELEMENT) && HalfPowerNegates(g, p, k)
  }

  lemma ConstantsSuitable(g: int, p: int) returns (k: nat)
    requires g == BLOB_SUBGROUP_GENERATOR && p == BLS_PRIME
    ensures k == 12 && Pow2(k) == FIELD_ELEMENTS_PER_BLOB && Suitable(g, p, k)
  {
    var n := BYTES_PER_FIELD_ELEMENT;
    PrimeFits(p, n);
    k := GeneratorNegates(g, p);
    k := k + 1;
    assert Pow2(12) == 4096;
  }

  lemma BlobValues(c: seq<int>, padded: seq<int>, g: int, p: int, k: nat)
    requires Suitable(g, p, k) && |c| <= Pow2(k) && padded == PadTo(c, Pow2(k)) && NonNegative(c)
    ensures Encodes(FlatMap(ElementBytes, Reordered(Spectrum(padded, g, p, k), k)), c, g, p, k)
  {
    SpectrumIsValue(padded, g, p, k);
    var values := Reordered(Spectrum(padded, g, p, k), k);
    forall i | 0 <= i < Pow2(k)
      ensures values[i] == Eval(c, Pow(g, Reversed(i, k))) % p
    {
      EvalPadding(c, padded[|c|..], Pow(g, Reversed(i, k)));
      assert padded == c + padded[|c|..];
    }
    ValuesEncode(values, c, g, p, k);
  }

  /** The blob of up to 4096 coefficients; more are refused. */
  method PolynomialCoefficientsToBlob(coefficients: seq<int>) returns (r: Result<seq<byte>>)
    ensures r.Err? <==> |coefficients| > FIELD_ELEMENTS_PER_BLOB
    ensures r.Ok? && NonNegative(coefficients) ==>
      Encodes(r.value, coefficients, BLOB_SUBGROUP_GENERATOR, BLS_PRIME, 12)
  {
    if |coefficients| > FIELD_ELEMENTS_PER_BLOB {
      return Err;
    }
    var g, p := BLOB_SUBGROUP_GENERATOR, BLS_PRIME;
    ghost var k := ConstantsSuitable(g, p);
    var bytes := EvaluationForm(coefficients, g, p, k);
    r := Ok(bytes);
  }

  method EvaluationForm(coefficients: seq<int>, g: int, p: int, ghost k: nat) returns (bytes: seq<byte>)
    requires |coefficients| <= FIELD_ELEMENTS_PER_BLOB == Pow2(k) && Suitable(g, p, k)
    ensures NonNegative(coefficients) ==> Encodes(bytes, coefficients, g, p, k)
  {
    var padded := PadTo(coefficients, FIELD_ELEMENTS_PER_BLOB);
    var values := Fft(padded, g, p, true);
    bytes := SerializeBlob(values.value);
    if NonNegative(coefficients) {
      BlobValues(coefficients, padded, g, p, k);
    }
  }
}
