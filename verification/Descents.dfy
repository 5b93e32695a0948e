/** Descents: the stretches of a tree update along which all trees have a single path. */
module Descents {
  import opened Basics
  import opened UpdateTrees
  import opened Patricia

  datatype DescentStart = DescentStart(height: nat, path: nat)

  datatype DescentPath = DescentPath(length: nat, path: nat)

  type DescentMap = map<DescentStart, DescentPath>

  // ----- What is to be found -----

  /** Which nodes, by height and layer index, have something below them. */
  type Occupancy = (nat, nat) -> bool

  ghost predicate SplitsAt(occ: Occupancy, h: nat, i: nat) {
    h > 0 ==> (occ(h, i) <==> occ(h - 1, 2 * i) || occ(h - 1, 2 * i + 1))
  }

  /** A node is occupied exactly when one of its children is. */
  ghost predicate Layered(occ: Occupancy) {
    forall h: nat, i: nat :: SplitsAt(occ, h, i)
  }

  ghost predicate Branching(occ: Occupancy, h: nat, i: nat) {
    h > 0 && occ(h - 1, 2 * i) && occ(h - 1, 2 * i + 1)
  }

  /** The end of the single path down from a node. */
  ghost function Bottom(occ: Occupancy, h: nat, i: nat): (b: DescentStart)
    ensures b.height <= h
    decreases h
  {
    if h == 0 || Branching(occ, h, i) then DescentStart(h, i)
    else if !occ(h - 1, 2 * i) then Bottom(occ, h - 1, 2 * i + 1)
    else Bottom(occ, h - 1, 2 * i)
  }

  /** The entry for a descent from node `i` of height `h` to `b`. */
  function Entry(h: nat, i: nat, b: DescentStart): DescentMap {
    if h - b.height > 1 then
      map[DescentStart(h, i) := DescentPath(h - b.height, b.path % Pow2(h - b.height))]
    else map[]
  }

  ghost function Here(occ: Occupancy, h: nat, i: nat): DescentMap {
    Entry(h, i, Bottom(occ, h, i))
  }

  /** The descents from a node down, as far as `upd` is occupied. */
  ghost function DescentsOf(occ: Occupancy, upd: Occupancy, h: nat, i: nat): DescentMap
    decreases h, 1
  {
    if h == 0 || !upd(h, i) then map[] else FromBottom(occ, upd, h, i, Bottom(occ, h, i))
  }

  ghost function FromBottom(occ: Occupancy, upd: Occupancy, h: nat, i: nat, b: DescentStart): DescentMap
    requires b.height <= h
    decreases b.height, 0
  {
    if b.height == 0 then Entry(h, i, b)
    else
      Entry(h, i, b) + DescentsOf(occ, upd, b.height - 1, 2 * b.path)
      + DescentsOf(occ, upd, b.height - 1, 2 * b.path + 1)
  }

  /** Node `b` of height `a` lies below node `i` of height `h`, or is that node. */
  ghost predicate Inside(h: nat, i: nat, a: nat, b: nat) {
    a <= h && b / Pow2(h - a) == i
  }

  lemma InsideChild(h: nat, i: nat, a: nat, b: nat)
    requires a < h
    ensures Inside(h, i, a, b) <==> Inside(h - 1, 2 * i, a, b) || Inside(h - 1, 2 * i + 1, a, b)
    ensures !(Inside(h - 1, 2 * i, a, b) && Inside(h - 1, 2 * i + 1, a, b))
  {
    DivDiv(b, Pow2(h - 1 - a), 2);
  }

  lemma InsideSelf(h: nat, i: nat, b: nat)
    ensures Inside(h, i, h, b) <==> b == i
  {
    assert Pow2(0) == 1;
  }

  /** An occupied node makes every node above it occupied. */
  lemma {:induction false} OccupiedAbove(occ: Occupancy, h: nat, i: nat, a: nat, b: nat)
    requires Layered(occ) && Inside(h, i, a, b) && occ(a, b)
    ensures occ(h, i)
    decreases h
  {
    if a == h {
      InsideSelf(h, i, b);
    } else {
      InsideChild(h, i, a, b);
      assert SplitsAt(occ, h, i);
      OccupiedAbove(occ, h - 1, if Inside(h - 1, 2 * i, a, b) then 2 * i else 2 * i + 1, a, b);
    }
  }

  /** The bottom is the lowest node above everything occupied below the start: it is branching
      or a leaf, and all that is occupied at its height or below lies inside it. */
  lemma {:induction false} BottomCovers(occ: Occupancy, h: nat, i: nat)
    requires Layered(occ)
    ensures var b := Bottom(occ, h, i);
            && Inside(h, i, b.height, b.path) && (b.height == 0 || Branching(occ, b.height, b.path))
            && (occ(h, i) ==> occ(b.height, b.path))
    decreases h
  {
    InsideSelf(h, i, i);
    if h > 0 && !Branching(occ, h, i) {
      assert SplitsAt(occ, h, i);
      var c := if !occ(h - 1, 2 * i) then 2 * i + 1 else 2 * i;
      BottomCovers(occ, h - 1, c);
      var b := Bottom(occ, h, i);
      InsideChild(h, i, b.height, b.path);
    }
  }

  lemma {:induction false} OccupiedInBottom(occ: Occupancy, h: nat, i: nat, a: nat, b: nat)
    requires Layered(occ) && Inside(h, i, a, b) && occ(a, b)
    ensures var bottom := Bottom(occ, h, i);
            if a < bottom.height then Inside(bottom.height, bottom.path, a, b)
            else Bottom(occ, a, b) == bottom && (a < h ==> !Branching(occ, a + 1, b / 2))
    decreases h
  {
    if a == h || h == 0 || Branching(occ, h, i) {
      InsideSelf(h, i, b);
    } else {
      InsideChild(h, i, a, b);
      assert SplitsAt(occ, h, i);
      var c := if Inside(h - 1, 2 * i, a, b) then 2 * i else 2 * i + 1;
      OccupiedAbove(occ, h - 1, c, a, b);
      OccupiedInBottom(occ, h - 1, c, a, b);
      if a == h - 1 {
        InsideSelf(h - 1, c, b);
      }
    }
  }

  lemma InsideTrans(h: nat, i: nat, h': nat, i': nat, a: nat, b: nat)
    requires Inside(h, i, h', i') && Inside(h', i', a, b)
    ensures Inside(h, i, a, b)
  {
    DropBits(b, h' - a, h - h');
  }

  ghost predicate Sub(upd: Occupancy, occ: Occupancy) {
    forall h: nat, i: nat :: upd(h, i) ==> occ(h, i)
  }

  /** The descents to be found from node `(h, i)` down are those that start there or below a
      branching node, at a node with updates, and are longer than one. */
  ghost predicate IsDescent(occ: Occupancy, upd: Occupancy, h: nat, i: nat, a: nat, b: nat) {
    && Inside(h, i, a, b) && a > 0 && upd(a, b) && (a == h || Branching(occ, a + 1, b / 2))
    && a - Bottom(occ, a, b).height > 1
  }

  ghost function DescentAt(occ: Occupancy, a: nat, b: nat): DescentPath
    requires a >= Bottom(occ, a, b).height
  {
    var bottom := Bottom(occ, a, b);
    DescentPath(a - bottom.height, bottom.path % Pow2(a - bottom.height))
  }

  /** A descent below the first one starts below one of the children of its bottom. */
  lemma DescentBelowBottom(occ: Occupancy, upd: Occupancy, h: nat, i: nat, a: nat, b: nat)
    requires Layered(occ) && Layered(upd) && Sub(upd, occ) && h > 0 && a < h
    ensures var bottom := Bottom(occ, h, i);
            IsDescent(occ, upd, h, i, a, b) <==>
            && bottom.height > 0
            && (IsDescent(occ, upd, bottom.height - 1, 2 * bottom.path, a, b)
                || IsDescent(occ, upd, bottom.height - 1, 2 * bottom.path + 1, a, b))
  {
    var bottom := Bottom(occ, h, i);
    BottomCovers(occ, h, i);
    if a < bottom.height {
      InsideChild(bottom.height, bottom.path, a, b);
      if a == bottom.height - 1 {
        InsideSelf(a, 2 * bottom.path, b);
        InsideSelf(a, 2 * bottom.path + 1, b);
      }
      if Inside(bottom.height, bottom.path, a, b) {
        InsideTrans(h, i, bottom.height, bottom.path, a, b);
      }
    }
    if Inside(h, i, a, b) && upd(a, b) {
      OccupiedInBottom(occ, h, i, a, b);
    }
  }

  ghost predicate MapsTo(m: DescentMap, k: DescentStart, present: bool, v: DescentPath) {
    (k in m <==> present) && (k in m ==> m[k] == v)
  }

  lemma Merged(x: DescentMap, y: DescentMap, z: DescentMap, k: DescentStart, p: bool, q: bool, r: bool, v: DescentPath)
    requires MapsTo(x, k, p, v) && MapsTo(y, k, q, v) && MapsTo(z, k, r, v)
    ensures MapsTo(x + y + z, k, p || q || r, v)
  {
  }

  lemma HereExact(occ: Occupancy, upd: Occupancy, h: nat, i: nat, a: nat, b: nat)
    requires h > 0 && upd(h, i)
    ensures MapsTo(Here(occ, h, i), DescentStart(a, b), a == h && IsDescent(occ, upd, h, i, a, b), DescentAt(occ, a, b))
  {
    InsideSelf(h, i, b);
  }

  /** A descent is the one from the top or one below a child of its bottom. */
  lemma DescentCases(occ: Occupancy, upd: Occupancy, h: nat, i: nat, a: nat, b: nat, x: nat, y: nat)
    requires Layered(occ) && Layered(upd) && Sub(upd, occ) && h > 0 && Bottom(occ, h, i) == DescentStart(x, y)
    ensures IsDescent(occ, upd, h, i, a, b) <==>
      || (a == h && IsDescent(occ, upd, h, i, a, b))
      || (x > 0 && IsDescent(occ, upd, x - 1, 2 * y, a, b)) || (x > 0 && IsDescent(occ, upd, x - 1, 2 * y + 1, a, b))
  {
    if a < h {
      DescentBelowBottom(occ, upd, h, i, a, b);
    }
  }

  /** The map contains exactly the descents to be found, each with its length and path. */
  lemma {:induction false} DescentsExact(occ: Occupancy, upd: Occupancy, h: nat, i: nat, a: nat, b: nat)
    requires Layered(occ) && Layered(upd) && Sub(upd, occ)
    ensures MapsTo(DescentsOf(occ, upd, h, i), DescentStart(a, b), IsDescent(occ, upd, h, i, a, b),
                   DescentAt(occ, a, b))
    decreases h
  {
    if h == 0 || !upd(h, i) {
      if IsDescent(occ, upd, h, i, a, b) {
        OccupiedAbove(upd, h, i, a, b);
      }
    } else {
      var DescentStart(x, y) := Bottom(occ, h, i);
      HereExact(occ, upd, h, i, a, b);
      DescentCases(occ, upd, h, i, a, b, x, y);
      if x > 0 {
        DescentsExact(occ, upd, x - 1, 2 * y, a, b);
        DescentsExact(occ, upd, x - 1, 2 * y + 1, a, b);
        MergedDescents(occ, upd, h, i, a, b, x, y);
      }
    }
  }

  lemma MergedDescents(occ: Occupancy, upd: Occupancy, h: nat, i: nat, a: nat, b: nat, x: nat, y: nat)
    requires h > 0 && upd(h, i) && Bottom(occ, h, i) == DescentStart(x, y) && x > 0
    requires MapsTo(DescentsOf(occ, upd, x - 1, 2 * y), DescentStart(a, b),
                    IsDescent(occ, upd, x - 1, 2 * y, a, b), DescentAt(occ, a, b))
    requires MapsTo(DescentsOf(occ, upd, x - 1, 2 * y + 1), DescentStart(a, b),
                    IsDescent(occ, upd, x - 1, 2 * y + 1, a, b), DescentAt(occ, a, b))
    ensures MapsTo(DescentsOf(occ, upd, h, i), DescentStart(a, b),
                   (a == h && IsDescent(occ, upd, h, i, a, b)) || IsDescent(occ, upd, x - 1, 2 * y, a, b)
                   || IsDescent(occ, upd, x - 1, 2 * y + 1, a, b), DescentAt(occ, a, b))
  {
    HereExact(occ, upd, h, i, a, b);
    Merged(Here(occ, h, i), DescentsOf(occ, upd, x - 1, 2 * y), DescentsOf(occ, upd, x - 1, 2 * y + 1),
           DescentStart(a, b), a == h && IsDescent(occ, upd, h, i, a, b), IsDescent(occ, upd, x - 1, 2 * y, a, b),
           IsDescent(occ, upd, x - 1, 2 * y + 1, a, b), DescentAt(occ, a, b));
  }

  // ----- Occupancy by leaves -----

  /** The nodes above the leaves that satisfy `live`. */
  ghost function Above(live: nat -> bool): Occupancy {
    (h: nat, i: nat) => LivesBelow(live, h, i)
  }

  ghost predicate LivesBelow(live: nat -> bool, h: nat, i: nat) {
    exists j: nat :: Below(h, i, j) && live(j)
  }

  lemma AboveLayered(live: nat -> bool)
    ensures Layered(Above(live))
  {
    var occ := Above(live);
    forall h: nat, i: nat
      ensures SplitsAt(occ, h, i)
    {
      if h > 0 {
        AboveSplits(live, h, i);
      }
    }
  }

  lemma AboveSplits(live: nat -> bool, h: nat, i: nat)
    requires h > 0
    ensures LivesBelow(live, h, i) <==> LivesBelow(live, h - 1, 2 * i) || LivesBelow(live, h - 1, 2 * i + 1)
  {
    if LivesBelow(live, h, i) {
      var j: nat :| Below(h, i, j) && live(j);
      BelowChild(h, i, j);
    }
    LivesAbove(live, h, i, 2 * i);
    LivesAbove(live, h, i, 2 * i + 1);
  }

  lemma LivesAbove(live: nat -> bool, h: nat, i: nat, c: nat)
    requires h > 0 && (c == 2 * i || c == 2 * i + 1)
    ensures LivesBelow(live, h - 1, c) ==> LivesBelow(live, h, i)
  {
    if LivesBelow(live, h - 1, c) {
      var j: nat :| Below(h - 1, c, j) && live(j);
      BelowChild(h, i, j);
    }
  }

  /** A descent ends at the lowest node above all live leaves below its start: they all lie below
      its end, and that is a leaf or has live leaves on both sides. */
  lemma BottomCoversLeaves(live: nat -> bool, h: nat, i: nat, j: nat)
    requires Below(h, i, j) && live(j)
    ensures var b := Bottom(Above(live), h, i);
            Below(b.height, b.path, j) && (b.height == 0 || Branching(Above(live), b.height, b.path))
  {
    var occ := Above(live);
    AboveLayered(live);
    assert Pow2(0) == 1;
    assert Below(0, j, j);
    BottomCovers(occ, h, i);
    OccupiedInBottom(occ, h, i, 0, j);
  }

  /** A leaf with an update, or one that is not empty in the previous or the new tree. */
  ghost function Live<LF>(m: map<nat, LF>, t: Tree, t': Tree): nat -> bool {
    (j: nat) => j in m || t.leaf(j) != EMPTY || t'.leaf(j) != EMPTY
  }

  ghost function Updated<LF>(m: map<nat, LF>): nat -> bool {
    (j: nat) => j in m
  }

  lemma UpdatedIsUnder<LF>(m: map<nat, LF>, h: nat, i: nat)
    ensures Above(Updated(m))(h, i) <==> Under(m, h, i)
  {
    if Above(Updated(m))(h, i) {
      var j: nat :| Below(h, i, j) && Updated(m)(j);
      assert j in m && j / Pow2(h) == i;
    }
    if Under(m, h, i) {
      var j :| j in m && j / Pow2(h) == i;
      assert Below(h, i, j) && Updated(m)(j);
    }
  }

  lemma LiveNodes<LF>(m: map<nat, LF>, t: Tree, t': Tree, open: Hash -> Fact, h: nat, i: nat)
    requires Built(t) && AllFacts(t, h, i, OpenedBy(t.hash, open))
    requires Built(t') && AllFacts(t', h, i, OpenedBy(t'.hash, open))
    ensures Above(Live(m, t, t'))(h, i) <==> Under(m, h, i) || t.node(h, i) != EMPTY_NODE || t'.node(h, i) != EMPTY_NODE
  {
    var live := Live(m, t, t');
    NodeEmpty(t, open, h, i);
    NodeEmpty(t', open, h, i);
    if Above(live)(h, i) {
      var j: nat :| Below(h, i, j) && live(j);
      assert j in m ==> j / Pow2(h) == i;
    }
    if Under(m, h, i) {
      var j :| j in m && j / Pow2(h) == i;
      assert Below(h, i, j) && live(j);
    }
    if t.node(h, i) != EMPTY_NODE {
      var j: nat :| Below(h, i, j) && t.leaf(j) != EMPTY;
      assert live(j);
    }
    if t'.node(h, i) != EMPTY_NODE {
      var j: nat :| Below(h, i, j) && t'.leaf(j) != EMPTY;
      assert live(j);
    }
  }

  // ----- Trees read from a preimage dictionary -----

  /** The node with a given hash; an edge if the dictionary has one under the hash. */
  function Canonic(preimage: Store, hash: Hash): Node {
    if hash in preimage && preimage[hash].Edge? then
      var fact := preimage[hash];
      Node(fact.bottom, fact.path, fact.length)
    else Node(hash, 0, 0)
  }

  /** The children of a node; of an edge stored under the hash of a node taken for a binary one,
      the first two of its three felts are taken for hashes. */
  function ChildrenOf(preimage: Store, n: Node): Result<(Node, Node)> {
    if n.length == 0 then
      if n.bottom == EMPTY then Ok((Canonic(preimage, EMPTY), Canonic(preimage, EMPTY)))
      else if n.bottom !in preimage then Err
      else
        match preimage[n.bottom]
        case Binary(left, right) => Ok((Canonic(preimage, left), Canonic(preimage, right)))
        case Edge(_, path, length) => Ok((Canonic(preimage, length), Canonic(preimage, path)))
    else if n.path < Pow2(n.length - 1) then Ok((Node(n.bottom, n.path, n.length - 1), EMPTY_NODE))
    else Ok((EMPTY_NODE, Node(n.bottom, n.path - Pow2(n.length - 1), n.length - 1)))
  }

  function Present(n: Node): Option<Node> {
    if n == EMPTY_NODE then None else Some(n)
  }

  /** The children of a node that may be missing. */
  function OpenNode(preimage: Store, o: Option<Node>): Result<(Option<Node>, Option<Node>)> {
    match o
    case None => Ok((None, None))
    case Some(n) =>
      match ChildrenOf(preimage, n)
      case Err => Err
      case Ok((l, r)) => Ok((Present(l), Present(r)))
  }

  ghost function AsNode(o: Option<Node>): Node {
    match o
    case None => EMPTY_NODE
    case Some(n) => n
  }

  /** A node as far as it matters: what it is if there are updates below, else whether it is empty. */
  ghost predicate Shown<LF>(t: Tree, m: map<nat, LF>, h: nat, i: nat, o: Option<Node>) {
    if h > 0 && Under(m, h, i) then AsNode(o) == t.node(h, i)
    else AsNode(o) == EMPTY_NODE <==> t.node(h, i) == EMPTY_NODE
  }

  ghost predicate EdgeKnown<LF>(p: FactPredicate, t: Tree, m: map<nat, LF>, h: nat, i: nat) {
    h > 0 && Under(m, h, i) ==> EdgeFact(t.node(h, i), p)
  }

  /** `p` holds of the facts on the paths to the updates. */
  ghost predicate Known<LF>(p: FactPredicate, t: Tree, m: map<nat, LF>, h: nat, i: nat)
    decreases h
  {
    h > 0 && Under(m, h, i) ==>
      && (Lower(t, h, i) != EMPTY_NODE && Upper(t, h, i) != EMPTY_NODE ==>
          && p(Binary(NodeHash(t.hash, Lower(t, h, i)), NodeHash(t.hash, Upper(t, h, i))))
          && EdgeKnown(p, t, m, h - 1, 2 * i) && EdgeKnown(p, t, m, h - 1, 2 * i + 1))
      && Known(p, t, m, h - 1, 2 * i) && Known(p, t, m, h - 1, 2 * i + 1)
  }

  ghost predicate Sound(t: Tree, open: Hash -> Fact, h: nat, i: nat) {
    Built(t) && AllFacts(t, h, i, OpenedBy(t.hash, open))
  }

  /** A child of a binary node is recognised by its hash. */
  lemma CanonicShown<LF>(preimage: Store, t: Tree, open: Hash -> Fact, m: map<nat, LF>, h: nat, i: nat)
    requires Sane(preimage) && Sound(t, open, h, i) && EdgeFact(t.node(h, i), OpenedBy(t.hash, open))
    requires t.node(h, i) != EMPTY_NODE && EdgeKnown(HeldBy(t.hash, preimage), t, m, h, i)
             && Known(HeldBy(t.hash, preimage), t, m, h, i)
    ensures Shown(t, m, h, i, Present(Canonic(preimage, NodeHash(t.hash, t.node(h, i)))))
  {
    var n := t.node(h, i);
    NodeProper(t, open, h, i);
    assert NodeHash(t.hash, n) != EMPTY;
    if h > 0 && Under(m, h, i) && n.length == 0 {
      Halves(t, open, h, i);
      assert Lower(t, h, i) != EMPTY_NODE && Upper(t, h, i) != EMPTY_NODE;
    }
  }

  lemma ChildrenShown<LF>(preimage: Store, t: Tree, open: Hash -> Fact, m: map<nat, LF>, h: nat, i: nat,
                          o: Option<Node>)
    requires h > 0 && Under(m, h, i) && Sane(preimage) && Sound(t, open, h, i)
    requires Shown(t, m, h, i, o) && Known(HeldBy(t.hash, preimage), t, m, h, i)
    ensures OpenNode(preimage, o).Ok?
    ensures var (l, r) := OpenNode(preimage, o).value; Shown(t, m, h - 1, 2 * i, l) && Shown(t, m, h - 1, 2 * i + 1, r)
  {
    var n, l, r := t.node(h, i), Lower(t, h, i), Upper(t, h, i);
    Halves(t, open, h, i);
    if n == EMPTY_NODE {
    } else if l != EMPTY_NODE && r != EMPTY_NODE {
      CanonicShown(preimage, t, open, m, h - 1, 2 * i);
      CanonicShown(preimage, t, open, m, h - 1, 2 * i + 1);
      assert n.length == 0 && n.bottom != EMPTY;
      assert ChildrenOf(preimage, n)
          == Ok((Canonic(preimage, NodeHash(t.hash, l)), Canonic(preimage, NodeHash(t.hash, r))));
    } else {
      EdgeChildren(preimage, n, l, r, t.hash, h);
    }
  }

  lemma EdgeChildren(preimage: Store, n: Node, l: Node, r: Node, H: HashFunction, h: nat)
    requires n == Join(H, l, r) && n != EMPTY_NODE && (l == EMPTY_NODE || r == EMPTY_NODE)
    requires h > 0 && Proper(l, h - 1) && Proper(r, h - 1)
    ensures ChildrenOf(preimage, n) == Ok((l, r))
  {
  }

  // ----- The search -----

  /** The three trees at one node, as they are held in a search. */
  datatype Position<LF> = Position(
    height: nat, path: nat, update: UpdateTree<LF>, previous: Option<Node>, next: Option<Node>)

  /** The dictionary has what the search needs of a tree. */
  ghost predicate Readable<LF>(preimage: Store, t: Tree, open: Hash -> Fact, m: map<nat, LF>, h: nat, i: nat,
                               o: Option<Node>) {
    Sane(preimage) && Sound(t, open, h, i) && Known(HeldBy(t.hash, preimage), t, m, h, i) && Shown(t, m, h, i, o)
  }

  ghost predicate Ready<LF>(preimage: Store, t: Tree, t': Tree, open: Hash -> Fact, m: map<nat, LF>, p: Position<LF>) {
    && p.update == TreeOf(m, p.height, p.path)
    && Readable(preimage, t, open, m, p.height, p.path, p.previous)
    && Readable(preimage, t', open, m, p.height, p.path, p.next)
  }

  predicate AllEmpty<LF>(p: Position<LF>) {
    p.update == NoUpdate && p.previous == None && p.next == None
  }

  lemma SoundChildren(t: Tree, open: Hash -> Fact, h: nat, i: nat)
    requires Sound(t, open, h, i) && h > 0
    ensures Sound(t, open, h - 1, 2 * i) && Sound(t, open, h - 1, 2 * i + 1)
  {
  }

  lemma ReadableChildren<LF>(preimage: Store, t: Tree, open: Hash -> Fact, m: map<nat, LF>, h: nat, i: nat,
                             o: Option<Node>)
    returns (l: Option<Node>, r: Option<Node>)
    requires h > 0 && Under(m, h, i) && Readable(preimage, t, open, m, h, i, o)
    ensures OpenNode(preimage, o) == Ok((l, r))
    ensures Readable(preimage, t, open, m, h - 1, 2 * i, l) && Readable(preimage, t, open, m, h - 1, 2 * i + 1, r)
    ensures (l.Some? ==> l.value != EMPTY_NODE) && (r.Some? ==> r.value != EMPTY_NODE)
  {
    ChildrenShown(preimage, t, open, m, h, i, o);
    SoundChildren(t, open, h, i);
    var children := OpenNode(preimage, o).value;
    l, r := children.0, children.1;
  }

  /** The positions of the two children. */
  function ChildPositions<LF>(preimage: Store, p: Position<LF>): Result<(Position<LF>, Position<LF>)> {
    if p.height == 0 || !p.update.Tuple? then Err
    else
      match OpenNode(preimage, p.previous)
      case Err => Err
      case Ok((pl, pr)) =>
        match OpenNode(preimage, p.next)
        case Err => Err
        case Ok((nl, nr)) =>
          Ok((Position(p.height - 1, 2 * p.path, p.update.left, pl, nl),
              Position(p.height - 1, 2 * p.path + 1, p.update.right, pr, nr)))
  }

  ghost function OccOf<LF>(m: map<nat, LF>, t: Tree, t': Tree): Occupancy {
    Above(Live(m, t, t'))
  }

  /** Opening a position with updates below gives its children, which are empty in all trees
      exactly when nothing lives below them. */
  lemma PositionChildren<LF>(preimage: Store, t: Tree, t': Tree, open: Hash -> Fact, m: map<nat, LF>, p: Position<LF>)
    returns (l: Position<LF>, r: Position<LF>)
    requires Ready(preimage, t, t', open, m, p) && p.height > 0 && Under(m, p.height, p.path)
    ensures ChildPositions(preimage, p) == Ok((l, r))
    ensures l.height == r.height == p.height - 1 && l.path == 2 * p.path && r.path == 2 * p.path + 1
    ensures Ready(preimage, t, t', open, m, l) && Ready(preimage, t, t', open, m, r)
    ensures AllEmpty(l) <==> !OccOf(m, t, t')(l.height, l.path)
    ensures AllEmpty(r) <==> !OccOf(m, t, t')(r.height, r.path)
  {
    var h, i := p.height, p.path;
    var previousLeft, previousRight := ReadableChildren(preimage, t, open, m, h, i, p.previous);
    var nextLeft, nextRight := ReadableChildren(preimage, t', open, m, h, i, p.next);
    TupleChildren(m, h, i);
    l := Position(h - 1, 2 * i, TreeOf(m, h - 1, 2 * i), previousLeft, nextLeft);
    r := Position(h - 1, 2 * i + 1, TreeOf(m, h - 1, 2 * i + 1), previousRight, nextRight);
    ChildPositionsAre(preimage, p, l, r);
    EmptyPosition(preimage, t, t', open, m, l);
    EmptyPosition(preimage, t, t', open, m, r);
  }

  lemma ChildPositionsAre<LF>(preimage: Store, p: Position<LF>, l: Position<LF>, r: Position<LF>)
    requires p.height > 0 && p.update == Tuple(l.update, r.update)
    requires OpenNode(preimage, p.previous) == Ok((l.previous, r.previous))
             && OpenNode(preimage, p.next) == Ok((l.next, r.next))
    requires l.height == r.height == p.height - 1 && l.path == 2 * p.path && r.path == 2 * p.path + 1
    ensures ChildPositions(preimage, p) == Ok((l, r))
  {
  }

  lemma TupleChildren<LF>(m: map<nat, LF>, h: nat, i: nat)
    requires h > 0 && Under(m, h, i)
    ensures TreeOf(m, h, i) == Tuple(TreeOf(m, h - 1, 2 * i), TreeOf(m, h - 1, 2 * i + 1))
  {
    TreeOfEmpty(m, h, i);
  }

  lemma EmptyPosition<LF>(preimage: Store, t: Tree, t': Tree, open: Hash -> Fact, m: map<nat, LF>, p: Position<LF>)
    requires Ready(preimage, t, t', open, m, p)
    requires (p.previous.Some? ==> p.previous.value != EMPTY_NODE) && (p.next.Some? ==> p.next.value != EMPTY_NODE)
    ensures AllEmpty(p) <==> !OccOf(m, t, t')(p.height, p.path)
  {
    LiveNodes(m, t, t', open, p.height, p.path);
    TreeOfEmpty(m, p.height, p.path);
  }

  lemma UnderChild<LF>(m: map<nat, LF>, h: nat, i: nat)
    requires h > 0
    ensures Under(m, h, i) <==> Under(m, h - 1, 2 * i) || Under(m, h - 1, 2 * i + 1)
  {
    UpdatedIsUnder(m, h, i);
    UpdatedIsUnder(m, h - 1, 2 * i);
    UpdatedIsUnder(m, h - 1, 2 * i + 1);
    AboveSplits(Updated(m), h, i);
  }

  /** Where a descent ends, with the positions of the children of its last inner node. */
  datatype Landing<LF> = Landing(height: nat, path: nat, left: Position<LF>, right: Position<LF>)

  ghost predicate Searching<LF>(preimage: Store, t: Tree, t': Tree, open: Hash -> Fact, m: map<nat, LF>,
                                start: Position<LF>, p: Position<LF>) {
    && Ready(preimage, t, t', open, m, p) && Under(m, p.height, p.path)
    && Bottom(OccOf(m, t, t'), p.height, p.path) == Bottom(OccOf(m, t, t'), start.height, start.path)
  }

  ghost predicate Landed<LF>(preimage: Store, t: Tree, t': Tree, open: Hash -> Fact, m: map<nat, LF>,
                             start: Position<LF>, x: Landing<LF>) {
    && Bottom(OccOf(m, t, t'), start.height, start.path) == DescentStart(x.height, x.path)
    && (x.height > 0 ==>
        && Ready(preimage, t, t', open, m, x.left) && Ready(preimage, t, t', open, m, x.right)
        && x.left.height == x.right.height == x.height - 1
        && x.left.path == 2 * x.path && x.right.path == 2 * x.path + 1)
  }

  /** One level of the search: it ends here, or goes on in the only child that is not empty. */
  lemma SearchStep<LF>(preimage: Store, t: Tree, t': Tree, open: Hash -> Fact, m: map<nat, LF>, start: Position<LF>,
                       p: Position<LF>)
    returns (l: Position<LF>, r: Position<LF>)
    requires Searching(preimage, t, t', open, m, start, p) && p.height > 0
    ensures ChildPositions(preimage, p) == Ok((l, r))
    ensures if AllEmpty(l) then
              Searching(preimage, t, t', open, m, start, r) && r.height == p.height - 1 && r.path == 2 * p.path + 1
            else if AllEmpty(r) then
              Searching(preimage, t, t', open, m, start, l) && l.height == p.height - 1 && l.path == 2 * p.path
            else Landed(preimage, t, t', open, m, start, Landing(p.height, p.path, l, r))
  {
    l, r := PositionChildren(preimage, t, t', open, m, p);
    BottomStep(OccOf(m, t, t'), p.height, p.path);
    UnderChild(m, p.height, p.path);
    TreeOfEmpty(m, l.height, l.path);
    TreeOfEmpty(m, r.height, r.path);
  }

  lemma BottomStep(occ: Occupancy, h: nat, i: nat)
    requires h > 0
    ensures Bottom(occ, h, i) ==
      if !occ(h - 1, 2 * i) then Bottom(occ, h - 1, 2 * i + 1)
      else if !occ(h - 1, 2 * i + 1) then Bottom(occ, h - 1, 2 * i)
      else DescentStart(h, i)
  {
  }

  method FindBottom<LF>(preimage: Store, start: Position<LF>,
                        ghost t: Tree, ghost t': Tree, ghost open: Hash -> Fact, ghost m: map<nat, LF>)
    returns (r: Result<Landing<LF>>)
    requires start.height > 0
    ensures r.Ok? ==>
              && r.value.height <= start.height
              && r.value.left.height < start.height && r.value.right.height < start.height
    ensures Searching(preimage, t, t', open, m, start, start) ==>
      r.Ok? && Landed(preimage, t, t', open, m, start, r.value)
  {
    ghost var ready := Searching(preimage, t, t', open, m, start, start);
    var p := start;
    while true
      invariant 0 < p.height <= start.height
      invariant ready ==> Searching(preimage, t, t', open, m, start, p)
      decreases p.height
    {
      if ready {
        var _, _ := SearchStep(preimage, t, t', open, m, start, p);
      }
      var children :- ChildPositions(preimage, p);
      var (left, right) := children;
      if AllEmpty(left) {
        if right.height == 0 {
          return Ok(Landing(0, 2 * p.path + 1, left, right));
        }
        p := right;
      } else if AllEmpty(right) {
        if left.height == 0 {
          return Ok(Landing(0, 2 * p.path, left, right));
        }
        p := left;
      } else {
        return Ok(Landing(p.height, p.path, left, right));
      }
    }
  }

  /** The descents of the update from a position down. */
  ghost function Found<LF>(m: map<nat, LF>, t: Tree, t': Tree, h: nat, i: nat): DescentMap {
    DescentsOf(OccOf(m, t, t'), Above(Updated(m)), h, i)
  }

  lemma NothingFound<LF>(preimage: Store, t: Tree, t': Tree, open: Hash -> Fact, m: map<nat, LF>, p: Position<LF>)
    requires Ready(preimage, t, t', open, m, p)
    ensures p.update == NoUpdate || p.height == 0 ==> Found(m, t, t', p.height, p.path) == map[]
    ensures p.update != NoUpdate ==> Searching(preimage, t, t', open, m, p, p) && Above(Updated(m))(p.height, p.path)
  {
    TreeOfEmpty(m, p.height, p.path);
    UpdatedIsUnder(m, p.height, p.path);
  }

  method GetDescents<LF(==)>(preimage: Store, p: Position<LF>,
                         ghost t: Tree, ghost t': Tree, ghost open: Hash -> Fact, ghost m: map<nat, LF>)
    returns (r: Result<DescentMap>)
    ensures Ready(preimage, t, t', open, m, p) ==> r == Ok(Found(m, t, t', p.height, p.path))
    decreases p.height, 0
  {
    ghost var ready, found := Ready(preimage, t, t', open, m, p), Found(m, t, t', p.height, p.path);
    if ready {
      NothingFound(preimage, t, t', open, m, p);
    }
    if p.update.NoUpdate? || p.height == 0 {
      return Ok(map[]);
    }
    var x :- FindBottom(preimage, p, t, t', open, m);
    if ready {
      AssembledAt(preimage, t, t', open, m, p, x);
    }
    var descents := Entry(p.height, p.path, DescentStart(x.height, x.path));
    if x.height > 0 {
      descents :- AddChildren(preimage, descents, x, t, t', open, m);
    }
    assert ready ==> descents == found;
    r := Ok(descents);
  }

  lemma Assembled(occ: Occupancy, upd: Occupancy, h: nat, i: nat, b: DescentStart, x: nat, left: nat, right: nat)
    requires h > 0 && upd(h, i) && Bottom(occ, h, i) == b
    requires b.height > 0 ==> x == b.height - 1 && left == 2 * b.path && right == 2 * b.path + 1
    ensures DescentsOf(occ, upd, h, i) ==
      if b.height == 0 then Entry(h, i, b)
      else Entry(h, i, b) + DescentsOf(occ, upd, x, left) + DescentsOf(occ, upd, x, right)
  {
    assert DescentsOf(occ, upd, h, i) == FromBottom(occ, upd, h, i, b);
  }

  lemma AssembledAt<LF>(preimage: Store, t: Tree, t': Tree, open: Hash -> Fact, m: map<nat, LF>, p: Position<LF>,
                        x: Landing<LF>)
    requires p.height > 0 && Above(Updated(m))(p.height, p.path) && Landed(preimage, t, t', open, m, p, x)
    ensures var here := Entry(p.height, p.path, DescentStart(x.height, x.path));
            Found(m, t, t', p.height, p.path) ==
            if x.height == 0 then here
            else
              here + Found(m, t, t', x.left.height, x.left.path) + Found(m, t, t', x.right.height, x.right.path)
  {
    Assembled(OccOf(m, t, t'), Above(Updated(m)), p.height, p.path, DescentStart(x.height, x.path),
              x.left.height, x.left.path, x.right.path);
  }

  method AddChildren<LF(==)>(preimage: Store, here: DescentMap, x: Landing<LF>,
                             ghost t: Tree, ghost t': Tree, ghost open: Hash -> Fact, ghost m: map<nat, LF>)
    returns (r: Result<DescentMap>)
    ensures Ready(preimage, t, t', open, m, x.left) && Ready(preimage, t, t', open, m, x.right) ==>
      r == Ok(here + Found(m, t, t', x.left.height, x.left.path) + Found(m, t, t', x.right.height, x.right.path))
    decreases if x.left.height > x.right.height then x.left.height else x.right.height, 1
  {
    var left :- GetDescents(preimage, x.left, t, t', open, m);
    var right :- GetDescents(preimage, x.right, t, t', open, m);
    r := Ok(here + left + right);
  }

  /** The root of a tree is recognised by its hash. */
  ghost predicate RootKnown<LF>(preimage: Store, t: Tree, open: Hash -> Fact, m: map<nat, LF>, height: nat,
                                root: Hash) {
    && Sane(preimage) && Built(t) && CollisionFree(t, height, open) && root == NodeHash(t.hash, t.node(height, 0))
    && EdgeKnown(HeldBy(t.hash, preimage), t, m, height, 0) && Known(HeldBy(t.hash, preimage), t, m, height, 0)
  }

  lemma RootReadable<LF>(preimage: Store, t: Tree, open: Hash -> Fact, m: map<nat, LF>, height: nat, root: Hash)
    requires RootKnown(preimage, t, open, m, height, root)
    ensures Readable(preimage, t, open, m, height, 0, Some(Canonic(preimage, root)))
  {
    if t.node(height, 0) != EMPTY_NODE {
      CanonicShown(preimage, t, open, m, height, 0);
    }
  }

  method PatriciaGuessDescents<LF(==)>(
      height: nat, update: UpdateTree<LF>, preimage: Store, previousRoot: Hash, newRoot: Hash,
      ghost t: Tree, ghost t': Tree, ghost open: Hash -> Fact, ghost m: map<nat, LF>)
    returns (r: Result<DescentMap>)
    ensures update == TreeOf(m, height, 0) && RootKnown(preimage, t, open, m, height, previousRoot)
            && RootKnown(preimage, t', open, m, height, newRoot) ==>
      r == Ok(Found(m, t, t', height, 0))
  {
    if RootKnown(preimage, t, open, m, height, previousRoot) && RootKnown(preimage, t', open, m, height, newRoot) {
      RootReadable(preimage, t, open, m, height, previousRoot);
      RootReadable(preimage, t', open, m, height, newRoot);
    }
    r := GetDescents(preimage, Position(height, 0, update, Some(Canonic(preimage, previousRoot)),
                                        Some(Canonic(preimage, newRoot))), t, t', open, m);
  }

  /** All that is found are the descents of the update: from the root, or from a child of a
      branching node, at a node with updates, to the lowest node above all live leaves. */
  lemma FoundExact<LF>(m: map<nat, LF>, t: Tree, t': Tree, height: nat, a: nat, b: nat)
    ensures var occ, upd := OccOf(m, t, t'), Above(Updated(m));
            MapsTo(Found(m, t, t', height, 0), DescentStart(a, b), IsDescent(occ, upd, height, 0, a, b),
                   DescentAt(occ, a, b))
  {
    var live, updated := Live(m, t, t'), Updated(m);
    AboveLayered(live);
    AboveLayered(updated);
    forall h: nat, i: nat | Above(updated)(h, i)
      ensures Above(live)(h, i)
    {
      var j: nat :| Below(h, i, j) && updated(j);
      assert live(j);
    }
    DescentsExact(Above(live), Above(updated), height, 0, a, b);
  }
}
