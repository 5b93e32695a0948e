/** The tree of modified leaves: its layered construction, decoding of one node,
    and the descent along an edge. */
module UpdateTrees {
  import opened Basics
  import Bits

  /** `Option<TreeUpdate<LF>>`, with the option folded into the datatype. */
  datatype UpdateTree<+LF> =
    | NoUpdate
    | Leaf(fact: LF)
    | Tuple(left: UpdateTree<LF>, right: UpdateTree<LF>)

  type Modification<+LF> = (nat, LF)

  predicate InRange<LF>(height: nat, modifications: seq<Modification<LF>>) {
    forall k | 0 <= k < |modifications| :: modifications[k].0 < Pow2(height)
  }

  /** Collecting pairs into a dictionary keeps the last value of each key. */
  function Collect<LF>(modifications: seq<Modification<LF>>): (m: map<nat, LF>) {
    if modifications == [] then map[]
    else
      var (index, fact) := modifications[|modifications| - 1];
      Collect(modifications[..|modifications| - 1])[index := fact]
  }

  /** `k` is the position of the last modification of `index`. */
  predicate LastWrite<LF>(modifications: seq<Modification<LF>>, index: nat, k: nat) {
    && k < |modifications| && modifications[k].0 == index
    && forall j | k < j < |modifications| :: modifications[j].0 != index
  }

  lemma {:induction false} CollectIsLastWrite<LF>(modifications: seq<Modification<LF>>, index: nat)
    ensures index in Collect(modifications) <==> exists k: nat :: LastWrite(modifications, index, k)
    ensures forall k: nat | LastWrite(modifications, index, k) ::
              index in Collect(modifications) && Collect(modifications)[index] == modifications[k].1
  {
    if modifications != [] {
      var n := |modifications| - 1;
      var init := modifications[..n];
      CollectIsLastWrite(init, index);
      if modifications[n].0 == index {
        assert LastWrite(modifications, index, n);
        assert forall k: nat | LastWrite(modifications, index, k) :: k == n;
      } else {
        assert forall k: nat :: LastWrite(modifications, index, k) ==> LastWrite(init, index, k);
        forall k: nat | LastWrite(init, index, k)
          ensures LastWrite(modifications, index, k)
        {
          assert forall j | k < j < n :: init[j] == modifications[j];
        }
      }
    }
  }

  lemma {:induction false} CollectKeys<LF>(modifications: seq<Modification<LF>>)
    ensures forall k | 0 <= k < |modifications| :: modifications[k].0 in Collect(modifications)
    ensures forall i | i in Collect(modifications) ::
              exists k :: 0 <= k < |modifications| && modifications[k].0 == i
  {
    if modifications != [] {
      var n := |modifications| - 1;
      CollectKeys(modifications[..n]);
      forall i | i in Collect(modifications)
        ensures exists k :: 0 <= k < |modifications| && modifications[k].0 == i
      {
        if i == modifications[n].0 {
        } else {
          var k :| 0 <= k < n && modifications[..n][k].0 == i;
          assert modifications[k].0 == i;
        }
      }
    }
  }

  // ----- The specification: a tree is determined by the leaves under it -----

  /** Modifications under the node of height `h` whose index in its layer is `i`. */
  ghost predicate Under<LF>(m: map<nat, LF>, h: nat, i: nat) {
    exists j :: j in m && j / Pow2(h) == i
  }

  /** The tree of the modifications under node `i` of the layer at height `h`. */
  function TreeOf<LF>(m: map<nat, LF>, h: nat, i: nat): (t: UpdateTree<LF>)
    decreases h
  {
    if h == 0 then
      if i in m then Leaf(m[i]) else NoUpdate
    else
      var l, r := TreeOf(m, h - 1, 2 * i), TreeOf(m, h - 1, 2 * i + 1);
      if l == NoUpdate && r == NoUpdate then NoUpdate else Tuple(l, r)
  }

  lemma ParentIndex(j: nat, h: nat)
    requires h > 0
    ensures j / Pow2(h) == (j / Pow2(h - 1)) / 2
  {
    DivDiv(j, Pow2(h - 1), 2);
  }

  lemma {:induction false} TreeOfEmpty<LF>(m: map<nat, LF>, h: nat, i: nat)
    ensures TreeOf(m, h, i) != NoUpdate <==> Under(m, h, i)
    decreases h
  {
    if h == 0 {
      assert forall j: nat :: j / Pow2(0) == j;
    } else {
      TreeOfEmpty(m, h - 1, 2 * i);
      TreeOfEmpty(m, h - 1, 2 * i + 1);
      if Under(m, h - 1, 2 * i) || Under(m, h - 1, 2 * i + 1) {
        var j :| j in m && (j / Pow2(h - 1) == 2 * i || j / Pow2(h - 1) == 2 * i + 1);
        ParentIndex(j, h);
        assert Under(m, h, i);
      }
      if Under(m, h, i) {
        var j :| j in m && j / Pow2(h) == i;
        ParentIndex(j, h);
      }
    }
  }

  /** Leaves at height 0 only, and no pair of two empty children. */
  predicate Wellformed<LF>(t: UpdateTree<LF>, h: nat) {
    match t
    case NoUpdate => true
    case Leaf(_) => h == 0
    case Tuple(l, r) =>
      h > 0 && (l.NoUpdate? ==> !r.NoUpdate?) && Wellformed(l, h - 1) && Wellformed(r, h - 1)
  }

  /** Follows the bits of `index`, most significant first. */
  function Lookup<LF>(t: UpdateTree<LF>, h: nat, index: nat): (r: Option<LF>)
    requires index < Pow2(h)
    decreases h
  {
    if t.Leaf? then Some(t.fact)
    else if t.NoUpdate? || h == 0 then None
    else if index < Pow2(h - 1) then Lookup(t.left, h - 1, index)
    else Lookup(t.right, h - 1, index - Pow2(h - 1))
  }

  lemma {:induction false} TreeOfWellformed<LF>(m: map<nat, LF>, h: nat, i: nat)
    ensures Wellformed(TreeOf(m, h, i), h)
    decreases h
  {
    if h > 0 {
      TreeOfWellformed(m, h - 1, 2 * i);
      TreeOfWellformed(m, h - 1, 2 * i + 1);
    }
  }

  lemma HalfIndex(h: nat, i: nat, index: nat)
    requires h > 0
    ensures i * Pow2(h) + index == 2 * i * Pow2(h - 1) + index
    ensures i * Pow2(h) + index == (2 * i + 1) * Pow2(h - 1) + (index - Pow2(h - 1))
  {
    var half := Pow2(h - 1);
    assert i * (2 * half) == 2 * i * half;
  }

  /** Looking an index up finds exactly its modification. */
  lemma {:induction false} LookupTreeOf<LF>(m: map<nat, LF>, h: nat, i: nat, index: nat)
    requires index < Pow2(h)
    ensures Lookup(TreeOf(m, h, i), h, index) == Get(m, i * Pow2(h) + index)
    decreases h
  {
    if TreeOf(m, h, i).NoUpdate? {
      TreeOfEmpty(m, h, i);
      DivModUnique(i * Pow2(h) + index, Pow2(h), i, index);
    } else if h > 0 {
      HalfIndex(h, i, index);
      if index < Pow2(h - 1) {
        LookupTreeOf(m, h - 1, 2 * i, index);
      } else {
        LookupTreeOf(m, h - 1, 2 * i + 1, index - Pow2(h - 1));
      }
    }
  }

  lemma {:induction false} LookupSplit<LF>(l: UpdateTree<LF>, r: UpdateTree<LF>, h: nat, index: nat)
    requires index < Pow2(h)
    ensures Lookup(Tuple(l, r), h + 1, index) == Lookup(l, h, index)
    ensures Lookup(Tuple(l, r), h + 1, index + Pow2(h)) == Lookup(r, h, index)
  {
  }

  lemma {:induction false} NonEmptyHasLookup<LF>(t: UpdateTree<LF>, h: nat) returns (index: nat)
    requires Wellformed(t, h) && !t.NoUpdate?
    ensures index < Pow2(h) && Lookup(t, h, index).Some?
    decreases h
  {
    if t.Leaf? {
      index := 0;
    } else if t.left.NoUpdate? {
      index := NonEmptyHasLookup(t.right, h - 1);
      LookupSplit(t.left, t.right, h - 1, index);
      index := index + Pow2(h - 1);
    } else {
      index := NonEmptyHasLookup(t.left, h - 1);
    }
  }

  /** Well-formed trees with the same lookups are the same tree. */
  lemma {:induction false} LookupDetermines<LF>(t: UpdateTree<LF>, t': UpdateTree<LF>, h: nat)
    requires Wellformed(t, h) && Wellformed(t', h)
    requires forall index: nat | index < Pow2(h) :: Lookup(t, h, index) == Lookup(t', h, index)
    ensures t == t'
    decreases h
  {
    if t.NoUpdate? || t'.NoUpdate? {
      if t != t' {
        var index := NonEmptyHasLookup(if t.NoUpdate? then t' else t, h);
      }
    } else if h == 0 {
      assert Lookup(t, h, 0) == Lookup(t', h, 0);
    } else {
      var g := h - 1;
      forall index: nat | index < Pow2(g)
        ensures Lookup(t.left, g, index) == Lookup(t'.left, g, index)
      {
        assert Lookup(t, h, index) == Lookup(t', h, index);
      }
      forall index: nat | index < Pow2(g)
        ensures Lookup(t.right, g, index) == Lookup(t'.right, g, index)
      {
        LookupSplit(t.left, t.right, g, index);
        LookupSplit(t'.left, t'.right, g, index);
        assert Lookup(t, h, index + Pow2(g)) == Lookup(t', h, index + Pow2(g));
      }
      LookupDetermines(t.left, t'.left, h - 1);
      LookupDetermines(t.right, t'.right, h - 1);
    }
  }

  // ----- The layered construction -----

  /** The layer at height `h` holds the non-empty trees of that height, by index. */
  ghost predicate IsLayer<LF>(layer: map<nat, UpdateTree<LF>>, m: map<nat, LF>, h: nat) {
    && (forall i: nat | i in layer :: layer[i] == TreeOf(m, h, i) && !layer[i].NoUpdate?)
    && (forall i: nat | i !in layer :: TreeOf(m, h, i) == NoUpdate)
  }

  function Child<LF>(layer: map<nat, UpdateTree<LF>>, i: nat): UpdateTree<LF> {
    if i in layer then layer[i] else NoUpdate
  }

  lemma LayerStep<LF>(layer: map<nat, UpdateTree<LF>>, newLayer: map<nat, UpdateTree<LF>>, m: map<nat, LF>, h: nat)
    requires IsLayer(layer, m, h)
    requires newLayer.Keys == set key | key in layer :: key / 2
    requires forall i: nat | i in newLayer ::
               newLayer[i] == Tuple(Child(layer, 2 * i), Child(layer, 2 * i + 1))
    ensures IsLayer(newLayer, m, h + 1)
  {
    forall i: nat
      ensures Child(layer, i) == TreeOf(m, h, i)
    {
    }
    forall i: nat | i in newLayer
      ensures newLayer[i] == TreeOf(m, h + 1, i) && !newLayer[i].NoUpdate?
    {
      var key :| key in layer && key / 2 == i;
      assert key == 2 * i || key == 2 * i + 1;
    }
    forall i: nat | i !in newLayer
      ensures TreeOf(m, h + 1, i) == NoUpdate
    {
      assert (2 * i) / 2 == i && (2 * i + 1) / 2 == i;
    }
  }

  method NextLayer<LF>(layer: map<nat, UpdateTree<LF>>, ghost m: map<nat, LF>, ghost h: nat)
    returns (newLayer: map<nat, UpdateTree<LF>>)
    requires IsLayer(layer, m, h)
    ensures IsLayer(newLayer, m, h + 1)
  {
    var parents := set key | key in layer :: key / 2;
    newLayer := map[];
    var todo := parents;
    while todo != {}
      invariant todo <= parents
      invariant newLayer.Keys == parents - todo
      invariant forall i | i in newLayer ::
                  newLayer[i] == Tuple(Child(layer, 2 * i), Child(layer, 2 * i + 1))
      decreases |todo|
    {
      var i :| i in todo;
      newLayer := newLayer[i := Tuple(Child(layer, 2 * i), Child(layer, 2 * i + 1))];
      todo := todo - {i};
    }
    LayerStep(layer, newLayer, m, h);
  }

  /** Fails where the source's assertion or `unwrap` would panic, which is exactly
      when some index lies outside the tree. */
  method BuildUpdateTree<LF>(height: nat, modifications: seq<Modification<LF>>)
    returns (r: Result<UpdateTree<LF>>)
    ensures r.Ok? <==> InRange(height, modifications)
    ensures r.Ok? ==> r.value == TreeOf(Collect(modifications), height, 0)
  {
    ghost var m := Collect(modifications);
    CollectKeys(modifications);
    if modifications == [] {
      TreeOfEmpty(m, height, 0);
      return Ok(NoUpdate);
    }
    var layer: map<nat, UpdateTree<LF>> := map[];
    for k := 0 to |modifications|
      invariant layer.Keys == Collect(modifications[..k]).Keys
      invariant forall i | i in layer :: layer[i] == Leaf(Collect(modifications[..k])[i])
    {
      layer := layer[modifications[k].0 := Leaf(modifications[k].1)];
      assert modifications[..k + 1][..k] == modifications[..k];
    }
    assert modifications[..|modifications|] == modifications;
    for h := 0 to height
      invariant IsLayer(layer, m, h)
    {
      layer := NextLayer(layer, m, h);
    }
    forall i: nat
      ensures i in layer <==> Under(m, height, i)
    {
      TreeOfEmpty(m, height, i);
    }
    LayerInRange(modifications, height, layer.Keys);
    if |layer| != 1 || 0 !in layer {
      return Err;
    }
    r := Ok(layer[0]);
  }

  lemma LayerInRange<LF>(modifications: seq<Modification<LF>>, height: nat, keys: set<nat>)
    requires modifications != []
    requires forall i: nat :: i in keys <==> Under(Collect(modifications), height, i)
    ensures InRange(height, modifications) <==> |keys| == 1 && 0 in keys
  {
    CollectKeys(modifications);
    if InRange(height, modifications) {
      FirstUnder(modifications, height, 0);
      forall i | i in keys
        ensures i == 0
      {
        OnlyFirst(modifications, height, i);
      }
      assert keys == {0};
    } else if |keys| == 1 && 0 in keys {
      OnlyKey(keys);
      AllInFirst(modifications, height);
    }
  }

  lemma FirstUnder<LF>(modifications: seq<Modification<LF>>, height: nat, k: nat)
    requires k < |modifications| && modifications[k].0 in Collect(modifications) && modifications[k].0 < Pow2(height)
    ensures Under(Collect(modifications), height, 0)
  {
    ZeroQuotient(modifications[k].0, Pow2(height));
  }

  lemma OnlyFirst<LF>(modifications: seq<Modification<LF>>, height: nat, i: nat)
    requires InRange(height, modifications) && Under(Collect(modifications), height, i)
    ensures i == 0
  {
    CollectKeys(modifications);
    var j :| j in Collect(modifications) && j / Pow2(height) == i;
    ZeroQuotient(j, Pow2(height));
  }

  lemma OnlyKey(keys: set<nat>)
    requires |keys| == 1 && 0 in keys
    ensures keys == {0}
  {
    assert |keys - {0}| == 0;
  }

  lemma AllInFirst<LF>(modifications: seq<Modification<LF>>, height: nat)
    requires forall i: nat | Under(Collect(modifications), height, i) :: i == 0
    ensures InRange(height, modifications)
  {
    CollectKeys(modifications);
    forall k | 0 <= k < |modifications|
      ensures modifications[k].0 < Pow2(height)
    {
      var _ := UnderOwn(Collect(modifications), height, modifications[k].0);
    }
  }

  lemma UnderOwn<LF>(m: map<nat, LF>, height: nat, j: nat) returns (i: nat)
    requires j in m
    ensures Under(m, height, i) && (i == 0 ==> j < Pow2(height))
  {
    var d := Pow2(height);
    i := Quotient(j, d);
    ZeroQuotient(j, d);
  }

  // ----- Decoding one node -----

  datatype DecodeNodeCase = Left | Right | Both

  datatype DecodedNode<+LF> =
    | Decoded(left: UpdateTree<LF>, right: UpdateTree<LF>, updated: DecodeNodeCase)
    | IsEmpty
    | IsLeaf

  function DecodeNode<LF>(node: UpdateTree<LF>): (r: DecodedNode<LF>)
    requires !node.NoUpdate?
  {
    match node
    case Leaf(_) => IsLeaf
    case Tuple(NoUpdate, NoUpdate) => IsEmpty
    case Tuple(NoUpdate, right) => Decoded(NoUpdate, right, Right)
    case Tuple(left, NoUpdate) => Decoded(left, NoUpdate, Left)
    case Tuple(left, right) => Decoded(left, right, Both)
  }

  /** Decoding an inner node of a built tree never fails, yields the trees of its
      two halves, and names the halves that hold modifications. */
  lemma DecodeTreeOf<LF>(m: map<nat, LF>, h: nat, i: nat)
    requires h > 0 && Under(m, h, i)
    ensures !TreeOf(m, h, i).NoUpdate?
    ensures var d := DecodeNode(TreeOf(m, h, i));
            && d.Decoded?
            && d.left == TreeOf(m, h - 1, 2 * i)
            && d.right == TreeOf(m, h - 1, 2 * i + 1)
            && (d.updated != Right <==> Under(m, h - 1, 2 * i))
            && (d.updated != Left <==> Under(m, h - 1, 2 * i + 1))
  {
    TreeOfEmpty(m, h, i);
    TreeOfEmpty(m, h - 1, 2 * i);
    TreeOfEmpty(m, h - 1, 2 * i + 1);
  }

  // ----- Descending along an edge -----

  /** One step per bit of `word`, from bit `length - 1` down to bit 0. */
  function Descend<LF>(node: UpdateTree<LF>, length: nat, word: nat): (r: Result<UpdateTree<LF>>)
    decreases length
  {
    if length == 0 then Ok(node)
    else if !node.Tuple? then Err
    else Descend(if Bits.Bit(word, length - 1) then node.right else node.left, length - 1, word)
  }

  method EnterScopeDescendEdge<LF>(node: UpdateTree<LF>, length: nat, word: nat)
    returns (r: Result<UpdateTree<LF>>)
    ensures r == Descend(node, length, word)
  {
    var newNode := node;
    for i := length downto 0
      invariant Descend(newNode, i, word) == Descend(node, length, word)
    {
      if !newNode.Tuple? {
        return Err;
      }
      newNode := if Bits.Bit(word, i) then newNode.right else newNode.left;
    }
    r := Ok(newNode);
  }

  lemma ChildIndex(i: nat, b: nat, d: nat, w: nat)
    ensures (2 * i + b) * d + w == i * (2 * d) + (b * d + w)
  {
  }

  /** The layer index of the node `length` levels below node `i`, on the path of `word`. */
  function Target(i: nat, length: nat, word: nat): nat {
    i * Pow2(length) + word % Pow2(length)
  }

  lemma TargetStep(i: nat, length: nat, word: nat)
    requires length > 0
    ensures Target(i, length, word) == Target(2 * i + if Bits.Bit(word, length - 1) then 1 else 0, length - 1, word)
  {
    var d := Pow2(length - 1);
    Bits.ModSplit(word, d);
    ChildIndex(i, if Bits.Bit(word, length - 1) then 1 else 0, d, word % d);
  }

  lemma TargetParent(i: nat, word: nat)
    ensures Target(i, 1, word) / 2 == i
  {
    assert Pow2(1) == 2;
  }

  /** A descent through a built tree succeeds exactly when the node above its end
      holds a modification, and ends at the tree of the modifications under the
      bits walked. */
  lemma {:induction false} DescendTreeOf<LF>(m: map<nat, LF>, h: nat, i: nat, length: nat, word: nat)
    ensures var r := Descend(TreeOf(m, h, i), length, word);
            && (r.Ok? <==> length == 0 || (length <= h && Under(m, h - length + 1, Target(i, length, word) / 2)))
            && (r.Ok? && length <= h ==> r.value == TreeOf(m, h - length, Target(i, length, word)))
    decreases length
  {
    if length == 0 {
      assert Pow2(0) == 1;
    } else if h > 0 {
      TargetStep(i, length, word);
      DescendTreeOf(m, h - 1, 2 * i + if Bits.Bit(word, length - 1) then 1 else 0, length - 1, word);
      TreeOfEmpty(m, h, i);
      if length == 1 {
        TargetParent(i, word);
      } else if length <= h {
        UnderAncestor(m, h, i, length, word);
      }
    }
  }

  lemma UnderAncestor<LF>(m: map<nat, LF>, h: nat, i: nat, length: nat, word: nat)
    requires 0 < length <= h
    ensures Under(m, h - length + 1, Target(i, length, word) / 2) ==> Under(m, h, i)
  {
    if Under(m, h - length + 1, Target(i, length, word) / 2) {
      var j :| j in m && j / Pow2(h - length + 1) == Target(i, length, word) / 2;
      AncestorIndex(j, h, i, length, word);
    }
  }

  lemma AncestorIndex(j: nat, h: nat, i: nat, length: nat, word: nat)
    requires 0 < length <= h
    requires j / Pow2(h - length + 1) == Target(i, length, word) / 2
    ensures j / Pow2(h) == i
  {
    var k := Target(i, length, word);
    Pow2Add(h - length + 1, length - 1);
    DivDiv(j, Pow2(h - length + 1), Pow2(length - 1));
    DivDiv(k, 2, Pow2(length - 1));
    DivModUnique(k, Pow2(length), i, word % Pow2(length));
  }
}
