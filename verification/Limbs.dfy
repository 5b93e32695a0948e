/** Splitting field elements into limbs of 86 bits. */
module Limbs {
  import opened Basics
  import opened Patricia

  /** 2^86. */
  const BASE: nat := 0x4000000000000000000000

  /** 2^127. */
  const TOP_LIMIT: nat := 0x80000000000000000000000000000000

  /** 2^128. */
  const LOW_LIMIT: nat := 0x100000000000000000000000000000000

  function Value(limbs: seq<int>): int {
    if limbs == [] then 0 else limbs[0] + BASE * Value(limbs[1..])
  }

  /** Three limbs, of which the highest takes what is left. */
  method Split(num: nat) returns (r: Result<seq<int>>)
    requires num < FELT_PRIME
    ensures r.Ok? && |r.value| == 3 && 0 <= r.value[0] < BASE && 0 <= r.value[1] < BASE && 0 <= r.value[2] < TOP_LIMIT
    ensures Value(r.value) == num
  {
    var limbs: seq<int> := [];
    var rest: int := num;
    for i := 0 to 2
      invariant |limbs| == i && forall k :: 0 <= k < i ==> 0 <= limbs[k] < BASE
      invariant 0 <= rest && (i == 0 ==> rest == num) && (i == 1 ==> rest * BASE <= num)
      invariant i == 2 ==> rest * BASE * BASE <= num
      invariant Value(limbs + [rest]) == num
    {
      var residue := rest % BASE;
      CarryOver(limbs, rest);
      rest := rest / BASE;
      limbs := limbs + [residue];
    }
    if (if rest >= 0 then rest else -rest) >= TOP_LIMIT {
      return Err;
    }
    r := Ok(limbs + [rest]);
  }

  /** Dividing the highest limb by the base and keeping the residue preserves the value. */
  lemma {:induction false} CarryOver(limbs: seq<int>, rest: int)
    ensures Value(limbs + [rest]) == Value(limbs + [rest % BASE] + [rest / BASE])
    decreases |limbs|
  {
    if limbs == [] {
      assert (limbs + [rest])[1..] == [];
      assert (limbs + [rest % BASE] + [rest / BASE])[1..] == [rest / BASE];
      assert [rest / BASE][1..] == [];
      assert Value([rest / BASE]) == rest / BASE;
    } else {
      CarryOver(limbs[1..], rest);
      assert (limbs + [rest])[1..] == limbs[1..] + [rest];
      assert (limbs + [rest % BASE] + [rest / BASE])[1..] == limbs[1..] + [rest % BASE] + [rest / BASE];
    }
  }

  /** The low 128 bits from the two lower limbs, computed in the field. */
  function ComputeIdsLow(d0: nat, d1: nat): nat {
    ((d0 + d1 * BASE) % FELT_PRIME) % LOW_LIMIT
  }

  /** For unreduced limbs the field does not wrap, and the highest limb does not matter. */
  lemma LowOfValue(d0: nat, d1: nat, d2: nat)
    requires d0 < 3 * BASE && d1 < 3 * BASE
    ensures ComputeIdsLow(d0, d1) == Value([d0, d1, d2]) % LOW_LIMIT
  {
    assert [d0, d1, d2][1..] == [d1, d2] && [d1, d2][1..] == [d2] && [d2][1..] == [];
    assert Value([d2]) == d2;
    assert Value([d1, d2]) == d1 + BASE * d2;
    var low, k := d0 + d1 * BASE, 0x100000000000 * d2;
    assert Value([d0, d1, d2]) == low + k * LOW_LIMIT;
    DivModUnique(low + k * LOW_LIMIT, LOW_LIMIT, k + low / LOW_LIMIT, low % LOW_LIMIT);
  }

  /** Splitting and taking the low part gives the low 128 bits. */
  method SplitLow(num: nat) returns (low: nat)
    requires num < FELT_PRIME
    ensures low == num % LOW_LIMIT
  {
    var limbs := Split(num);
    low := ComputeIdsLow(limbs.value[0], limbs.value[1]);
    LowOfValue(limbs.value[0], limbs.value[1], limbs.value[2]);
    assert limbs.value == [limbs.value[0], limbs.value[1], limbs.value[2]];
  }
}
