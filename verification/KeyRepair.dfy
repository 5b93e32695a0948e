/** Turning a key whose proof ends at an edge leading elsewhere into one that follows the edge. */
module KeyRepair {
  import opened Basics
  import opened Bits
  import opened Patricia
  import opened TrieProofs

  /** Clears the bits of the key at the edge and fills in its path. */
  function GetKeyFollowingEdge(key: nat, height: nat, path: nat, length: nat): nat {
    ToFelt(ReplaceBits(key, height, path, length))
  }

  /** The two keys differ at most in the window of `length` bits from bit `shift` on. */
  predicate SameOutside(key: nat, key': nat, shift: nat, length: nat) {
    key / Pow2(shift + length) == key' / Pow2(shift + length) && key % Pow2(shift) == key' % Pow2(shift)
  }

  /** The bits above a window decide whether a key is in range. */
  lemma TopBits(key: nat, key': nat, m: nat, h: nat)
    requires m <= h && key / Pow2(m) == key' / Pow2(m) && key < Pow2(h)
    ensures key' < Pow2(h)
  {
    DropBits(key, m, h - m);
    DropBits(key', m, h - m);
    DivModUnique(key, Pow2(h), 0, key);
    assert key' / Pow2(h) == 0;
  }

  lemma ReplacedBits(key: nat, shift: nat, path: nat, length: nat)
    requires path < Pow2(length)
    ensures var key' := ReplaceBits(key, shift, path, length);
            SameOutside(key, key', shift, length) && Window(key', shift, length) == path
  {
    var hi, w, lo := Decompose(key, shift, length);
    ReplaceWindow(hi, w, lo, path, shift, length);
    ComposeParts(hi, w, lo, shift, length);
    ComposeParts(hi, path, lo, shift, length);
  }

  lemma SmallIsFelt(x: nat, bound: nat)
    requires x < bound <= FELT_PRIME
    ensures ToFelt(x) == x
  {
    DivModUnique(x, FELT_PRIME, 0, x);
  }

  /** The modified key agrees with the key outside the edge's window, where it has the path. */
  lemma ModifiedKey(key: nat, shift: nat, path: nat, length: nat, h: nat)
    requires path < Pow2(length) && shift + length <= h && key < Pow2(h) && Pow2(h) <= FELT_PRIME
    ensures var key' := GetKeyFollowingEdge(key, shift, path, length);
            key' < Pow2(h) && SameOutside(key, key', shift, length) && Window(key', shift, length) == path
  {
    ReplacedBits(key, shift, path, length);
    TopBits(key, ReplaceBits(key, shift, path, length), shift + length, h);
    SmallIsFelt(ReplaceBits(key, shift, path, length), Pow2(h));
  }

  /** Bits from position `m` on depend only on what lies above `m`. */
  lemma UpperBits(key: nat, key': nat, m: nat, i: nat, length: nat)
    requires m <= i && key / Pow2(m) == key' / Pow2(m)
    ensures Window(key, i, length) == Window(key', i, length)
    ensures Bit(key, i) == Bit(key', i)
  {
    DropBits(key, m, i - m);
    DropBits(key', m, i - m);
  }

  /** The proof ends with an edge at which the key leaves the tree's path. */
  predicate LeavesAtLastNode(H: HashFunction, key: nat, h: nat, parent: Hash, proof: seq<Fact>) {
    && proof != [] && proof[|proof| - 1].Edge?
    && VerifyBelow(H, key, h, parent, proof).NonExistence?
    && VerifyBelow(H, key, h, parent, proof[..|proof| - 1]) == Accepted
  }

  /** A key that agrees above the last edge and follows it is accepted with the same proof. */
  lemma {:induction false} FollowingKeyAccepted(H: HashFunction, key: nat, key': nat, h: nat, parent: Hash,
                                                proof: seq<Fact>)
    requires LeavesAtLastNode(H, key, h, parent, proof)
    ensures var e := proof[|proof| - 1];
            var s := VerifyBelow(H, key, h, parent, proof).height;
            && e.path < Pow2(e.length) && 0 < e.length && s + e.length <= h
            && (SameOutside(key, key', s, e.length) && Window(key', s, e.length) == e.path ==>
                VerifyBelow(H, key', h, parent, proof) == Accepted)
    decreases |proof|
  {
    var a, rest := proof[0], proof[1..];
    var e := proof[|proof| - 1];
    var s := VerifyBelow(H, key, h, parent, proof).height;
    if |proof| == 1 {
      assert e == a && rest == [];
      assert Pow2(0) == 1;
    } else {
      assert proof[..|proof| - 1][1..] == rest[..|rest| - 1];
      assert rest[|rest| - 1] == e;
      match a
      case Binary(left, right) =>
        FollowingKeyAccepted(H, key, key', h - 1, if Bit(key, h - 1) then right else left, rest);
        if SameOutside(key, key', s, e.length) {
          UpperBits(key, key', s + e.length, h - 1, 1);
        }
      case Edge(child, path, length) =>
        FollowingKeyAccepted(H, key, key', h - length, child, rest);
        if SameOutside(key, key', s, e.length) {
          UpperBits(key, key', s + e.length, h - length, length);
        }
    }
  }

  /** Repairing a key: if a proof shows absence at its last node, the modified key is a key
      below 2^251, differs only in the edge's bits, and is accepted with the same proof. */
  lemma RepairedKeyAccepted(H: HashFunction, key: nat, h: nat, root: Hash, proof: seq<Fact>)
    requires h == TREE_HEIGHT && key < Pow2(h) && LeavesAtLastNode(H, key, h, root, proof)
    ensures var e := proof[|proof| - 1];
            var v := Verify(H, ToBitsBe(key), START, root, proof);
            && v.NonExistence? && v.height < TREE_HEIGHT
            && var key' := GetKeyFollowingEdge(key, v.height, e.path, e.length);
               && key' < Pow2(h) && SameOutside(key, key', v.height, e.length)
               && Window(key', v.height, e.length) == e.path
               && Verify(H, ToBitsBe(key'), START, root, proof) == Accepted
  {
    var e := proof[|proof| - 1];
    var s := VerifyBelow(H, key, h, root, proof).height;
    VerifyOnNumbers(H, key, h, root, proof);
    FollowingKeyAccepted(H, key, key, h, root, proof);
    var key' := GetKeyFollowingEdge(key, s, e.path, e.length);
    TreeKeysAreFelts(h);
    ModifiedKey(key, s, e.path, e.length, h);
    FollowingKeyAccepted(H, key, key', h, root, proof);
    VerifyOnNumbers(H, key', h, root, proof);
  }

  // ----- Checking all storage proofs of a contract -----

  datatype ProofError = NonExistenceProof(key: nat, height: nat, proof: seq<Fact>) | InvalidProof

  function VerdictOf(H: HashFunction, root: Hash, key: nat, proof: seq<Fact>): Verdict {
    Verify(H, ToBitsBe(key), START, root, proof)
  }

  function Verdicts(H: HashFunction, root: Hash, keys: seq<nat>, proofs: seq<seq<Fact>>): (vs: seq<Verdict>)
    requires |keys| <= |proofs|
    ensures |vs| == |keys|
  {
    seq(|keys|, i requires 0 <= i < |keys| => VerdictOf(H, root, keys[i], proofs[i]))
  }

  function ErrorOf(v: Verdict, key: nat, proof: seq<Fact>): seq<ProofError> {
    match v
    case NonExistence(height) => [NonExistenceProof(key, height, proof)]
    case InvalidChildNodeHash => [InvalidProof]
    case _ => []
  }

  /** The errors that the first `n` verdicts report, in order. */
  function Errors(vs: seq<Verdict>, keys: seq<nat>, proofs: seq<seq<Fact>>, n: nat): seq<ProofError>
    requires n <= |vs| && n <= |keys| && n <= |proofs|
  {
    if n == 0 then []
    else Errors(vs, keys, proofs, n - 1) + ErrorOf(vs[n - 1], keys[n - 1], proofs[n - 1])
  }

  /** The errors of a contract's proofs; `Err` stands for a panic. */
  method VerifyContract(H: HashFunction, root: Hash, keys: seq<nat>, proofs: seq<seq<Fact>>)
    returns (r: Result<seq<ProofError>>)
    ensures r.Ok? ==> |keys| <= |proofs|
    ensures |keys| <= |proofs| ==>
      var vs := Verdicts(H, root, keys, proofs);
      r == if Panic in vs then Err else Ok(Errors(vs, keys, proofs, |keys|))
  {
    ghost var vs := if |keys| <= |proofs| then Verdicts(H, root, keys, proofs) else [];
    var errors := [];
    for i := 0 to |keys|
      invariant i <= |proofs|
      invariant |keys| <= |proofs| ==> Panic !in vs[..i] && errors == Errors(vs, keys, proofs, i)
    {
      if i >= |proofs| {
        return Err;
      }
      var v := VerifyProof(H, keys[i], root, proofs[i]);
      match v
      case Panic => return Err;
      case InvalidChildNodeHash => errors := errors + [InvalidProof];
      case NonExistence(height) => errors := errors + [NonExistenceProof(keys[i], height, proofs[i])];
      case Accepted =>
    }
    r := Ok(errors);
  }

  /** The key to fetch in addition because of an error, if any. */
  function RepairOf(e: ProofError): seq<nat> {
    match e
    case InvalidProof => []
    case NonExistenceProof(key, height, proof) =>
      if proof != [] && proof[|proof| - 1].Edge? && height < TREE_HEIGHT then
        [GetKeyFollowingEdge(key, height, proof[|proof| - 1].path, proof[|proof| - 1].length)]
      else []
  }

  /** The keys to fetch in addition because of the errors; `Err` stands for a panic. */
  method AdditionalKeys(errors: seq<ProofError>) returns (r: Result<seq<nat>>)
    ensures r == if InvalidProof in errors then Err else Ok(FlatMap(RepairOf, errors))
  {
    var additional := [];
    for n := 0 to |errors|
      invariant InvalidProof !in errors[..n]
      invariant additional == FlatMap(RepairOf, errors[..n])
    {
      assert errors[..n + 1] == errors[..n] + [errors[n]];
      FlatMapAppend(RepairOf, errors[..n], errors[n]);
      match errors[n]
      case InvalidProof => return Err;
      case NonExistenceProof(key, height, proof) =>
        if proof != [] && proof[|proof| - 1].Edge? && height < TREE_HEIGHT {
          var e := proof[|proof| - 1];
          var modified := GetKeyFollowingEdge(key, height, e.path, e.length);
          additional := additional + [modified];
        }
    }
    assert errors[..|errors|] == errors;
    r := Ok(additional);
  }

  /** Checks the proofs of all keys; `Err` stands for a panic. */
  method VerifyStorageProof(H: HashFunction, root: Hash, keys: seq<nat>, proofs: seq<seq<Fact>>)
    returns (r: Result<seq<nat>>)
    ensures r.Ok? ==> |keys| <= |proofs|
    ensures |keys| <= |proofs| ==>
      var vs := Verdicts(H, root, keys, proofs);
      r == if Panic in vs || InvalidChildNodeHash in vs then Err
           else Ok(FlatMap(RepairOf, Errors(vs, keys, proofs, |keys|)))
  {
    var checked := VerifyContract(H, root, keys, proofs);
    if checked.Err? {
      return Err;
    }
    InvalidReported(Verdicts(H, root, keys, proofs), keys, proofs, |keys|);
    r := AdditionalKeys(checked.value);
  }

  lemma {:induction false} InvalidReported(vs: seq<Verdict>, keys: seq<nat>, proofs: seq<seq<Fact>>, n: nat)
    requires n <= |vs| && n <= |keys| && n <= |proofs|
    ensures InvalidProof in Errors(vs, keys, proofs, n) <==> InvalidChildNodeHash in vs[..n]
  {
    if n > 0 {
      InvalidReported(vs, keys, proofs, n - 1);
      assert vs[..n] == vs[..n - 1] + [vs[n - 1]];
    }
  }

  /** If the verdict is non-existence, it is reached at the proof's last node. */
  predicate EndsWhereItFails(H: HashFunction, h: nat, root: Hash, key: nat, proof: seq<Fact>) {
    VerifyBelow(H, key, h, root, proof).NonExistence? ==> LeavesAtLastNode(H, key, h, root, proof)
  }

  predicate EndWhereTheyFail(H: HashFunction, h: nat, root: Hash, keys: seq<nat>, proofs: seq<seq<Fact>>)
    requires |keys| <= |proofs|
  {
    forall i :: 0 <= i < |keys| ==> EndsWhereItFails(H, h, root, keys[i], proofs[i])
  }

  /** The positions of the keys that the proofs show absent, among the first `n`. */
  function Absent(vs: seq<Verdict>, n: nat): seq<nat>
    requires n <= |vs|
  {
    if n == 0 then [] else Absent(vs, n - 1) + if vs[n - 1].NonExistence? then [n - 1] else []
  }

  /** `key'` replaces `key`: it is a key of the tree, differs only in the bits of the proof's
      last edge, which it follows, and is accepted with the proof. */
  predicate Repaired(H: HashFunction, h: nat, root: Hash, key: nat, proof: seq<Fact>, key': nat) {
    && proof != [] && proof[|proof| - 1].Edge?
    && var v := VerdictOf(H, root, key, proof);
       var e := proof[|proof| - 1];
       && v.NonExistence? && key' < Pow2(h)
       && SameOutside(key, key', v.height, e.length) && Window(key', v.height, e.length) == e.path
       && VerdictOf(H, root, key', proof) == Accepted
  }

  /** What each key is to be replaced by. */
  type Repair = (nat, nat) -> bool

  predicate AllRepaired(repaired: Repair, absent: seq<nat>, additional: seq<nat>) {
    |additional| == |absent| && forall j :: 0 <= j < |absent| ==> repaired(absent[j], additional[j])
  }

  lemma AllRepairedAppend(repaired: Repair, absent: seq<nat>, additional: seq<nat>, i: nat, r: seq<nat>)
    requires AllRepaired(repaired, absent, additional) && |r| == 1 && repaired(i, r[0])
    ensures AllRepaired(repaired, absent + [i], additional + r)
  {
  }

  lemma OneKeyRepaired(H: HashFunction, h: nat, root: Hash, key: nat, proof: seq<Fact>, v: Verdict) returns (key': nat)
    requires h == TREE_HEIGHT && key < Pow2(h) && v == VerdictOf(H, root, key, proof) && v.NonExistence?
    requires EndsWhereItFails(H, h, root, key, proof)
    ensures RepairOf(NonExistenceProof(key, v.height, proof)) == [key'] && Repaired(H, h, root, key, proof, key')
  {
    VerifyOnNumbers(H, key, h, root, proof);
    RepairedKeyAccepted(H, key, h, root, proof);
    key' := GetKeyFollowingEdge(key, v.height, proof[|proof| - 1].path, proof[|proof| - 1].length);
  }

  lemma {:induction false} RepairsInOrder(
      vs: seq<Verdict>, keys: seq<nat>, proofs: seq<seq<Fact>>, repair: ProofError -> seq<nat>, repaired: Repair,
      n: nat)
    requires n <= |vs| && n <= |keys| && n <= |proofs|
    requires forall i :: 0 <= i < n && vs[i].NonExistence? ==>
      var r := repair(NonExistenceProof(keys[i], vs[i].height, proofs[i])); |r| == 1 && repaired(i, r[0])
    requires repair(InvalidProof) == []
    ensures AllRepaired(repaired, Absent(vs, n), FlatMap(repair, Errors(vs, keys, proofs, n)))
  {
    if n > 0 {
      RepairsInOrder(vs, keys, proofs, repair, repaired, n - 1);
      NextRepair(vs[n - 1], keys[n - 1], proofs[n - 1], repair, repaired, n - 1, Absent(vs, n - 1),
                 Errors(vs, keys, proofs, n - 1));
    }
  }

  lemma NextRepair(v: Verdict, key: nat, proof: seq<Fact>, repair: ProofError -> seq<nat>, repaired: Repair, i: nat,
                   absent: seq<nat>, errors: seq<ProofError>)
    requires AllRepaired(repaired, absent, FlatMap(repair, errors)) && repair(InvalidProof) == []
    requires v.NonExistence? ==>
      var r := repair(NonExistenceProof(key, v.height, proof)); |r| == 1 && repaired(i, r[0])
    ensures AllRepaired(repaired, absent + if v.NonExistence? then [i] else [],
                        FlatMap(repair, errors + ErrorOf(v, key, proof)))
  {
    match v
    case NonExistence(height) =>
      var e := NonExistenceProof(key, height, proof);
      FlatMapAppend(repair, errors, e);
      AllRepairedAppend(repaired, absent, FlatMap(repair, errors), i, repair(e));
    case InvalidChildNodeHash =>
      FlatMapAppend(repair, errors, InvalidProof);
    case _ =>
      assert errors + ErrorOf(v, key, proof) == errors;
  }

  /** The additional keys are, one for one and in order, the repairs of the keys shown absent. */
  lemma AdditionalKeysRepair(H: HashFunction, h: nat, root: Hash, keys: seq<nat>, proofs: seq<seq<Fact>>)
    requires h == TREE_HEIGHT && |keys| <= |proofs| && (forall i :: 0 <= i < |keys| ==> keys[i] < Pow2(h))
    requires EndWhereTheyFail(H, h, root, keys, proofs)
    ensures var vs := Verdicts(H, root, keys, proofs);
            var absent, additional := Absent(vs, |keys|), FlatMap(RepairOf, Errors(vs, keys, proofs, |keys|));
            && |additional| == |absent|
            && forall j :: 0 <= j < |absent| ==>
                 absent[j] < |keys| && Repaired(H, h, root, keys[absent[j]], proofs[absent[j]], additional[j])
  {
    var vs := Verdicts(H, root, keys, proofs);
    var repaired := (i: nat, k: nat) => i < |keys| && Repaired(H, h, root, keys[i], proofs[i], k);
    forall i | 0 <= i < |keys| && vs[i].NonExistence?
      ensures var r := RepairOf(NonExistenceProof(keys[i], vs[i].height, proofs[i])); |r| == 1 && repaired(i, r[0])
    {
      var _ := OneKeyRepaired(H, h, root, keys[i], proofs[i], vs[i]);
    }
    RepairsInOrder(vs, keys, proofs, RepairOf, repaired, |keys|);
  }

  // ----- Proofs taken from a tree -----

  lemma {:induction false} AbsenceEndsAtEdge(t: Tree, h: nat, key: nat)
    requires TrueEnd(t, h, key).NonExistence?
    ensures var path := TruePath(t, h, key); path != [] && path[|path| - 1].Edge?
    decreases h
  {
    var n := NodeAt(t, h, key);
    if n.length == 0 {
      AbsenceEndsAtEdge(t, h - 1, key);
    } else if FollowsEdge(n, h, key) {
      AbsenceEndsAtEdge(t, h - n.length, key);
    }
  }

  lemma PartEndsWhereItFails(t: Tree, open: Hash -> Fact, h: nat, key: nat, proof: seq<Fact>, root: Hash)
    requires SoundAt(t, open, h, key) && Separated(t, open, proof) && proof <= TruePath(t, h, key)
    requires root == NodeHash(t.hash, NodeAt(t, h, key)) && VerifyBelow(t.hash, key, h, root, proof).NonExistence?
    ensures LeavesAtLastNode(t.hash, key, h, root, proof)
  {
    VerifyAgainstTree(t, open, h, key, proof);
    AbsenceEndsAtEdge(t, h, key);
    var front := proof[..|proof| - 1];
    forall a | a in front
      ensures a in proof
    {
    }
    assert Separated(t, open, front);
    VerifyAgainstTree(t, open, h, key, front);
  }

  /** The proof is part of the key's path in the tree. */
  ghost predicate PartOfPath(t: Tree, open: Hash -> Fact, h: nat, key: nat, proof: seq<Fact>) {
    && Built(t) && CollisionFree(t, h, open) && key < Pow2(h)
    && Separated(t, open, proof) && proof <= TruePath(t, h, key)
  }

  lemma TreeProofEnds(t: Tree, open: Hash -> Fact, h: nat, key: nat, proof: seq<Fact>, root: Hash)
    requires PartOfPath(t, open, h, key, proof)
    requires root == NodeHash(t.hash, t.node(h, 0))
    ensures EndsWhereItFails(t.hash, h, root, key, proof)
  {
    DivModUnique(key, Pow2(h), 0, key);
    assert IndexAt(key, h) == 0;
    if VerifyBelow(t.hash, key, h, root, proof).NonExistence? {
      PartEndsWhereItFails(t, open, h, key, proof, root);
    }
  }

  /** Proofs taken from a tree show absence only at their last node, so all of them can be repaired. */
  lemma TreeProofsRepairable(t: Tree, open: Hash -> Fact, h: nat, keys: seq<nat>, proofs: seq<seq<Fact>>, root: Hash)
    requires root == NodeHash(t.hash, t.node(h, 0)) && |keys| <= |proofs|
    requires forall i :: 0 <= i < |keys| ==> PartOfPath(t, open, h, keys[i], proofs[i])
    ensures EndWhereTheyFail(t.hash, h, root, keys, proofs)
  {
    forall i | 0 <= i < |keys|
      ensures EndsWhereItFails(t.hash, h, root, keys[i], proofs[i])
    {
      TreeProofEnds(t, open, h, keys[i], proofs[i], root);
    }
  }

  lemma TreeKeysAreFelts(h: nat)
    requires h == TREE_HEIGHT
    ensures Pow2(h) <= FELT_PRIME
  {
    Pow2Of192();
    Pow2Of59();
    Pow2Add(192, 59);
  }

  lemma Pow2Of59()
    ensures Pow2(59) == 0x800000000000000
  {
    assert Pow2(3) == 8 && Pow2(8) == 256;
    Pow2Add(8, 8);
    Pow2Add(16, 16);
    Pow2Add(32, 16);
    Pow2Add(48, 8);
    Pow2Add(56, 3);
  }

  lemma Pow2Of192()
    ensures Pow2(192) == 0x1000000000000000000000000000000000000000000000000
  {
    UsizeIsPow2();
    Pow2Add(64, 64);
    Pow2Add(128, 64);
  }
}
