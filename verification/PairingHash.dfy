/** A hash without collisions: with it, every tree can be stored, so that nothing that is proved
    of stored trees without colliding facts is proved of nothing. */
module PairingHash {
  import opened Basics
  import opened Patricia

  function Pair(a: nat, b: nat): (r: nat)
    ensures r > 0
    decreases a
  {
    if a == 0 then 2 * b + 1 else 2 * Pair(a - 1, b)
  }

  lemma {:induction false} PairInjective(a: nat, b: nat, c: nat, d: nat)
    requires Pair(a, b) == Pair(c, d)
    ensures a == c && b == d
    decreases a
  {
    if a > 0 && c > 0 {
      PairInjective(a - 1, b, c - 1, d);
    }
  }

  function HashPairs(fact: Fact): Hash {
    match fact
    case Binary(left, right) => 2 * Pair(left, right)
    case Edge(bottom, path, length) => 2 * Pair(bottom, Pair(path, length)) + 1
  }

  lemma HashInjective(x: Fact, y: Fact)
    requires HashPairs(x) == HashPairs(y)
    ensures x == y
  {
    match (x, y)
    case (Binary(a, b), Binary(c, d)) => PairInjective(a, b, c, d);
    case (Edge(a, b, c), Edge(d, e, f)) =>
      PairInjective(a, Pair(b, c), d, Pair(e, f));
      PairInjective(b, c, e, f);
    case _ =>
  }

  ghost function Unhash(h: Hash): Fact {
    if fact :| HashPairs(fact) == h then fact else Binary(0, 0)
  }

  /** No fact collides with another. */
  lemma HashOpens(fact: Fact)
    ensures Opens(HashPairs, Unhash, fact)
  {
    HashInjective(Unhash(HashPairs(fact)), fact);
  }

  lemma {:induction false} NoTreeCollides(t: Tree, h: nat, i: nat)
    requires t.hash == HashPairs
    ensures AllFacts(t, h, i, OpenedBy(HashPairs, Unhash)) && EdgeFact(t.node(h, i), OpenedBy(HashPairs, Unhash))
    decreases h
  {
    forall fact: Fact
      ensures OpenedBy(HashPairs, Unhash)(fact)
    {
      HashOpens(fact);
    }
    if h > 0 {
      NoTreeCollides(t, h - 1, 2 * i);
      NoTreeCollides(t, h - 1, 2 * i + 1);
    }
  }

  /** Every fact is stored under its hash. */
  ghost predicate Honest(store: Store) {
    forall k | k in store :: HashPairs(store[k]) == k
  }

  ghost predicate Extends(store: Store, store': Store) {
    forall fact | Holds(HashPairs, store, fact) :: Holds(HashPairs, store', fact)
  }

  lemma AddFact(store: Store, fact: Fact) returns (store': Store)
    requires Honest(store)
    ensures Honest(store') && Extends(store, store') && Holds(HashPairs, store', fact)
  {
    store' := store[HashPairs(fact) := fact];
    forall a | Holds(HashPairs, store, a)
      ensures Holds(HashPairs, store', a)
    {
      if HashPairs(a) == HashPairs(fact) {
        HashInjective(a, fact);
      }
    }
  }

  lemma AddEdge(store: Store, n: Node) returns (store': Store)
    requires Honest(store)
    ensures Honest(store') && Extends(store, store') && EdgeFact(n, HeldBy(HashPairs, store'))
  {
    store' := store;
    if n.length > 0 {
      store' := AddFact(store, Edge(n.bottom, n.path, n.length));
    }
  }

  lemma FactsStay(t: Tree, h: nat, i: nat, store: Store, store': Store)
    requires AllFacts(t, h, i, HeldBy(HashPairs, store)) && Extends(store, store')
    ensures AllFacts(t, h, i, HeldBy(HashPairs, store'))
  {
    FactsImply(t, h, i, HeldBy(HashPairs, store), HeldBy(HashPairs, store), HeldBy(HashPairs, store'));
  }

  /** A storage can be extended by the facts below any node. */
  lemma {:induction false} StoreBelow(t: Tree, h: nat, i: nat, store: Store) returns (store': Store)
    requires t.hash == HashPairs && Honest(store)
    ensures Honest(store') && Extends(store, store') && AllFacts(t, h, i, HeldBy(HashPairs, store'))
    decreases h
  {
    store' := store;
    if h > 0 {
      var left := StoreBelow(t, h - 1, 2 * i, store);
      var right := StoreBelow(t, h - 1, 2 * i + 1, left);
      var l, r := Lower(t, h, i), Upper(t, h, i);
      var lower := AddEdge(right, l);
      var upper := AddEdge(lower, r);
      store' := AddFact(upper, Binary(NodeHash(HashPairs, l), NodeHash(HashPairs, r)));
      FactsStay(t, h - 1, 2 * i, left, store');
      FactsStay(t, h - 1, 2 * i + 1, right, store');
    }
  }

  /** Any two trees can be stored together. */
  lemma StoreTrees(t: Tree, t': Tree, height: nat) returns (store: Store)
    requires t.hash == HashPairs == t'.hash
    ensures TreeFacts(t, height, HeldBy(HashPairs, store)) && TreeFacts(t', height, HeldBy(HashPairs, store))
  {
    var first := StoreBelow(t, height, 0, map[]);
    var second := StoreBelow(t', height, 0, first);
    var third := AddEdge(second, t.node(height, 0));
    store := AddEdge(third, t'.node(height, 0));
    FactsStay(t, height, 0, first, store);
    FactsStay(t', height, 0, second, store);
  }
}
