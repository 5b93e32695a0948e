/** Splitting a bytecode into nested segments according to the program counters visited. */
module Segments {
  import opened Basics
  import Patricia

  datatype NestedIntList = Leaf(length: nat) | Node(items: seq<NestedIntList>)

  datatype Structure = BytecodeLeaf(data: seq<nat>) | SegmentedNode(segments: seq<Segment>)

  datatype Segment = Segment(length: nat, isUsed: bool, inner: Structure)

  function Total(l: NestedIntList): nat {
    match l
    case Leaf(length) => length
    case Node(items) => TotalAll(items)
  }

  function TotalAll(items: seq<NestedIntList>): nat {
    if items == [] then 0 else TotalAll(items[..|items| - 1]) + Total(items[|items| - 1])
  }

  lemma {:induction false} TotalPrefix(items: seq<NestedIntList>, n: nat)
    requires n < |items|
    ensures TotalAll(items[..n + 1]) == TotalAll(items[..n]) + Total(items[n])
    ensures TotalAll(items[..n + 1]) <= TotalAll(items)
  {
    assert items[..n + 1][..n] == items[..n];
    if n + 1 < |items| {
      var front := items[..|items| - 1];
      TotalPrefix(front, n);
      assert front[..n + 1] == items[..n + 1];
    } else {
      assert items[..n + 1] == items;
    }
  }

  // ----- What is to be built -----

  /** Some visited PC lies in the segment. */
  ghost predicate Used(visited: set<nat>, offset: nat, length: nat) {
    exists pc :: pc in visited && offset <= pc < offset + length
  }

  ghost function Build(code: seq<nat>, l: NestedIntList, offset: nat, visited: set<nat>): Structure
    requires offset + Total(l) <= |code|
  {
    match l
    case Leaf(length) => BytecodeLeaf(code[offset..offset + length])
    case Node(items) => SegmentedNode(BuildAll(code, items, offset, visited))
  }

  ghost function BuildAll(code: seq<nat>, items: seq<NestedIntList>, offset: nat, visited: set<nat>): (r: seq<Segment>)
    requires offset + TotalAll(items) <= |code|
    ensures |r| == |items|
  {
    if items == [] then []
    else
      var n := |items| - 1;
      var start := offset + TotalAll(items[..n]);
      BuildAll(code, items[..n], offset, visited)
      + [Segment(Total(items[n]), Used(visited, start, Total(items[n])), Build(code, items[n], start, visited))]
  }

  /** Every segment, at any depth, that contains a visited PC has its first PC visited. */
  ghost predicate Valid(l: NestedIntList, offset: nat, visited: set<nat>) {
    match l
    case Leaf(_) => true
    case Node(items) => ValidAll(items, offset, visited)
  }

  ghost predicate ValidAll(items: seq<NestedIntList>, offset: nat, visited: set<nat>) {
    items != [] ==>
      var n := |items| - 1;
      var start := offset + TotalAll(items[..n]);
      && ValidAll(items[..n], offset, visited)
      && Valid(items[n], start, visited)
      && (Used(visited, start, Total(items[n])) ==> start in visited)
  }

  lemma {:induction false} ValidPrefix(items: seq<NestedIntList>, offset: nat, visited: set<nat>, n: nat)
    requires n <= |items| && ValidAll(items, offset, visited)
    ensures ValidAll(items[..n], offset, visited)
  {
    if n < |items| {
      ValidPrefix(items[..|items| - 1], offset, visited, n);
      assert items[..|items| - 1][..n] == items[..n];
    } else {
      assert items[..n] == items;
    }
  }

  // ----- The stack of visited PCs -----

  predicate Descending(s: seq<nat>) {
    forall i, j :: 0 <= i < j < |s| ==> s[i] >= s[j]
  }

  /** The stack holds the visited PCs from `offset` on, the smallest on top. */
  ghost predicate Remaining(s: seq<nat>, visited: set<nat>, offset: nat) {
    Descending(s) && forall x :: x in s <==> x in visited && offset <= x
  }

  function Top(s: seq<nat>): Option<nat> {
    if s == [] then None else Some(s[|s| - 1])
  }

  lemma TopIsLeast(s: seq<nat>)
    requires Descending(s) && s != []
    ensures s[|s| - 1] in s && forall x :: x in s ==> s[|s| - 1] <= x
  {
  }

  /** The top of the stack changes exactly when a PC of the segment was visited. */
  lemma TopTellsUse(s: seq<nat>, s': seq<nat>, visited: set<nat>, offset: nat, length: nat)
    requires Remaining(s, visited, offset) && Remaining(s', visited, offset + length)
    ensures Top(s) != Top(s') <==> Used(visited, offset, length)
    ensures Used(visited, offset, length) ==> s != [] && (Top(s) == Some(offset) <==> offset in visited)
  {
    if s != [] {
      TopIsLeast(s);
    }
    if s' != [] {
      TopIsLeast(s');
    }
    if Used(visited, offset, length) {
      var pc :| pc in visited && offset <= pc < offset + length;
      assert pc in s;
    } else {
      forall x
        ensures x in s <==> x in s'
      {
      }
    }
  }

  class VisitedPcs {
    var stack: seq<nat>

    constructor (pcs: seq<nat>)
      ensures stack == pcs
    {
      stack := pcs;
    }

    /** Pops the visited PCs in a leaf segment; `false` stands for a PC that is no `usize`. */
    method PopSegment(offset: nat, end: nat, ghost visited: set<nat>) returns (ok: bool)
      requires offset <= end && Remaining(stack, visited, offset)
      modifies this
      ensures ok ==> Remaining(stack, visited, end)
      ensures (forall pc | pc in visited :: pc < USIZE) ==> ok
    {
      while stack != []
        invariant Descending(stack)
        invariant forall x :: x in stack ==> x in visited && offset <= x
        invariant forall x :: x in visited && end <= x ==> x in stack
      {
        var top := stack[|stack| - 1];
        if top >= USIZE {
          assert top in stack;
          return false;
        }
        if !(offset <= top < end) {
          TopIsLeast(stack);
          break;
        }
        assert stack == stack[..|stack| - 1] + [top];
        stack := stack[..|stack| - 1];
      }
      ok := true;
    }
  }

  ghost predicate Fits(code: seq<nat>, l: NestedIntList, offset: nat, visited: set<nat>) {
    offset + Total(l) <= |code| && Valid(l, offset, visited)
  }

  ghost predicate FitAll(code: seq<nat>, items: seq<NestedIntList>, offset: nat, visited: set<nat>) {
    offset + TotalAll(items) <= |code| && ValidAll(items, offset, visited)
  }

  ghost predicate SegmentFits(code: seq<nat>, item: NestedIntList, start: nat, visited: set<nat>) {
    Fits(code, item, start, visited) && (Used(visited, start, Total(item)) ==> start in visited)
  }

  /** What the next item adds. */
  lemma FitPrefix(code: seq<nat>, items: seq<NestedIntList>, offset: nat, visited: set<nat>, n: nat)
    requires n < |items| && FitAll(code, items[..n], offset, visited)
    ensures var start := offset + TotalAll(items[..n]);
            && TotalAll(items[..n + 1]) == TotalAll(items[..n]) + Total(items[n])
            && (FitAll(code, items[..n + 1], offset, visited) <==> SegmentFits(code, items[n], start, visited))
            && (FitAll(code, items[..n + 1], offset, visited) ==>
                BuildAll(code, items[..n + 1], offset, visited) == BuildAll(code, items[..n], offset, visited)
                + [Segment(Total(items[n]), Used(visited, start, Total(items[n])),
                           Build(code, items[n], start, visited))])
    ensures FitAll(code, items, offset, visited) ==> FitAll(code, items[..n + 1], offset, visited)
  {
    TotalPrefix(items, n);
    assert items[..n + 1][..n] == items[..n];
    if ValidAll(items, offset, visited) {
      ValidPrefix(items, offset, visited, n + 1);
    }
  }

  ghost predicate AllSmall(visited: set<nat>) {
    forall pc :: pc in visited ==> pc < USIZE
  }

  method CreateInner(code: seq<nat>, l: NestedIntList, pcs: VisitedPcs, offset: nat, ghost visited: set<nat>)
    returns (r: Result<(Structure, nat)>)
    requires offset <= |code| && Remaining(pcs.stack, visited, offset)
    modifies pcs
    ensures r.Ok? ==>
      && Fits(code, l, offset, visited) && Remaining(pcs.stack, visited, offset + Total(l))
      && r.value == (Build(code, l, offset, visited), Total(l))
    ensures Fits(code, l, offset, visited) && AllSmall(visited) ==> r.Ok?
    decreases l, 1
  {
    match l
    case Leaf(length) =>
      var end := offset + length;
      var ok := pcs.PopSegment(offset, end, visited);
      if !ok || end > |code| {
        return Err;
      }
      r := Ok((BytecodeLeaf(code[offset..end]), length));
    case Node(items) =>
      var node :- CreateSegments(code, items, pcs, offset, visited);
      var (segments, total) := node;
      r := Ok((SegmentedNode(segments), total));
  }

  method CreateSegments(code: seq<nat>, items: seq<NestedIntList>, pcs: VisitedPcs, offset: nat,
                        ghost visited: set<nat>)
    returns (r: Result<(seq<Segment>, nat)>)
    requires offset <= |code| && Remaining(pcs.stack, visited, offset)
    modifies pcs
    ensures r.Ok? ==>
      && FitAll(code, items, offset, visited) && Remaining(pcs.stack, visited, offset + TotalAll(items))
      && r.value == (BuildAll(code, items, offset, visited), TotalAll(items))
    ensures FitAll(code, items, offset, visited) && AllSmall(visited) ==> r.Ok?
    decreases items, 0
  {
    var segments := [];
    var total := 0;
    for n := 0 to |items|
      invariant total == TotalAll(items[..n])
      invariant FitAll(code, items[..n], offset, visited)
      invariant Remaining(pcs.stack, visited, offset + total)
      invariant segments == BuildAll(code, items[..n], offset, visited)
    {
      FitPrefix(code, items, offset, visited, n);
      var segment :- CreateSegment(code, items[n], pcs, offset + total, visited);
      segments := segments + [segment];
      total := total + segment.length;
    }
    assert items[..|items|] == items;
    r := Ok((segments, total));
  }

  /** One segment; its first PC must be visited if any of its PCs is. */
  method CreateSegment(code: seq<nat>, item: NestedIntList, pcs: VisitedPcs, start: nat, ghost visited: set<nat>)
    returns (r: Result<Segment>)
    requires start <= |code| && Remaining(pcs.stack, visited, start)
    modifies pcs
    ensures r.Ok? ==>
      && SegmentFits(code, item, start, visited) && Remaining(pcs.stack, visited, start + Total(item))
      && r.value == Segment(Total(item), Used(visited, start, Total(item)), Build(code, item, start, visited))
    ensures SegmentFits(code, item, start, visited) && AllSmall(visited) ==> r.Ok?
    decreases item, 2
  {
    var before := pcs.stack;
    var inner :- CreateInner(code, item, pcs, start, visited);
    var (current, length) := inner;
    TopTellsUse(before, pcs.stack, visited, start, length);
    var isUsed := Top(pcs.stack) != Top(before);
    if isUsed && Top(before) != Some(start) {
      return Err;
    }
    r := Ok(Segment(length, isUsed, current));
  }

  // ----- The whole structure -----

  function AsSet(s: seq<nat>): (r: set<nat>)
    ensures forall x :: x in s <==> x in r
  {
    set x | x in s
  }

  /** The PCs below `n`, greatest first. */
  function AllPcs(n: nat): (s: seq<nat>)
    ensures |s| == n && (forall i :: 0 <= i < n ==> s[i] == n - 1 - i) && forall x: nat :: x in s <==> x < n
  {
    if n == 0 then [] else [n - 1] + AllPcs(n - 1)
  }

  /** Nothing given means that all PCs were visited. */
  function VisitedOf(code: seq<nat>, visited: Option<seq<nat>>): seq<nat> {
    match visited
    case Some(pcs) => pcs
    case None => AllPcs(|code|)
  }

  /** The structure exists exactly when the lengths add up, all PCs are in range and every
      segment that contains a visited PC has its first PC visited. */
  method CreateBytecodeSegmentStructure(code: seq<nat>, lengths: NestedIntList, visited: Option<seq<nat>>)
    returns (r: Result<Structure>)
    requires |code| <= USIZE && (visited.Some? ==> Descending(visited.value))
    ensures var pcs := VisitedOf(code, visited);
            && (r.Ok? <==>
                && Total(lengths) == |code| && (forall pc :: pc in pcs ==> pc < |code|)
                && Valid(lengths, 0, AsSet(pcs)))
            && (r.Ok? ==> r.value == Build(code, lengths, 0, AsSet(pcs)))
  {
    var given := VisitedOf(code, visited);
    var pcs := new VisitedPcs(given);
    var inner :- CreateInner(code, lengths, pcs, 0, AsSet(given));
    var (structure, total) := inner;
    if total != |code| {
      return Err;
    }
    if pcs.stack != [] {
      assert pcs.stack[|pcs.stack| - 1] in pcs.stack;
      return Err;
    }
    r := Ok(structure);
  }

  /** Without a list of visited PCs the lengths alone decide. */
  lemma {:induction false} AllVisitedValid(l: NestedIntList, offset: nat, visited: set<nat>, n: nat)
    requires offset + Total(l) <= n && forall x :: x in visited <==> x < n
    ensures Valid(l, offset, visited)
    decreases l
  {
    match l
    case Leaf(_) =>
    case Node(items) => AllVisitedValidAll(items, offset, visited, n);
  }

  lemma {:induction false} AllVisitedValidAll(items: seq<NestedIntList>, offset: nat, visited: set<nat>, n: nat)
    requires offset + TotalAll(items) <= n && forall x :: x in visited <==> x < n
    ensures ValidAll(items, offset, visited)
    decreases items
  {
    if items != [] {
      var last := |items| - 1;
      AllVisitedValidAll(items[..last], offset, visited, n);
      AllVisitedValid(items[last], offset + TotalAll(items[..last]), visited, n);
    }
  }

  // ----- The bytecode in the structure -----

  /** The data of the leaves, one after the other. */
  function Flatten(s: Structure): seq<nat>
    decreases s, 1
  {
    match s
    case BytecodeLeaf(data) => data
    case SegmentedNode(segments) => FlattenFirst(s, |segments|)
  }

  function FlattenFirst(s: Structure, n: nat): seq<nat>
    requires s.SegmentedNode? && n <= |s.segments|
    decreases s, 0, n
  {
    if n == 0 then [] else FlattenFirst(s, n - 1) + Flatten(s.segments[n - 1].inner)
  }

  lemma {:induction false} SegmentAt(code: seq<nat>, items: seq<NestedIntList>, offset: nat, visited: set<nat>, i: nat)
    requires offset + TotalAll(items) <= |code| && i < |items|
    ensures var start := offset + TotalAll(items[..i]);
            && start + Total(items[i]) <= |code|
            && BuildAll(code, items, offset, visited)[i]
               == Segment(Total(items[i]), Used(visited, start, Total(items[i])), Build(code, items[i], start, visited))
  {
    TotalPrefix(items, i);
    var n := |items| - 1;
    if i < n {
      SegmentAt(code, items[..n], offset, visited, i);
      assert items[..n][..i] == items[..i];
    }
  }

  /** The leaves are the bytecode. */
  lemma {:induction false} LeavesConcatenate(code: seq<nat>, l: NestedIntList, offset: nat, visited: set<nat>)
    requires offset + Total(l) <= |code|
    ensures Flatten(Build(code, l, offset, visited)) == code[offset..offset + Total(l)]
    decreases l, 1
  {
    match l
    case Leaf(_) =>
    case Node(items) =>
      LeavesConcatenateFirst(code, l, offset, visited, |items|);
      assert items[..|items|] == items;
  }

  lemma {:induction false} LeavesConcatenateFirst(
      code: seq<nat>, l: NestedIntList, offset: nat, visited: set<nat>, n: nat)
    requires l.Node? && offset + Total(l) <= |code| && n <= |l.items|
    ensures offset + TotalAll(l.items[..n]) <= |code|
    ensures FlattenFirst(Build(code, l, offset, visited), n) == code[offset..offset + TotalAll(l.items[..n])]
    decreases l, 0, n
  {
    if n > 0 {
      TotalPrefix(l.items, n - 1);
      LeavesConcatenateFirst(code, l, offset, visited, n - 1);
      SegmentAt(code, l.items, offset, visited, n - 1);
      LeavesConcatenate(code, l.items[n - 1], offset + TotalAll(l.items[..n - 1]), visited);
    }
  }

  /** Each recorded length, at any depth, is the length of the leaves below. */
  predicate LengthsRight(s: Structure) {
    match s
    case BytecodeLeaf(_) => true
    case SegmentedNode(segments) =>
      forall i :: 0 <= i < |segments| ==>
        segments[i].length == |Flatten(segments[i].inner)| && LengthsRight(segments[i].inner)
  }

  lemma {:induction false} BuildLengthsRight(code: seq<nat>, l: NestedIntList, offset: nat, visited: set<nat>)
    requires offset + Total(l) <= |code|
    ensures LengthsRight(Build(code, l, offset, visited))
    decreases l
  {
    match l
    case Leaf(_) =>
    case Node(items) =>
      var segments := BuildAll(code, items, offset, visited);
      forall i | 0 <= i < |segments|
        ensures segments[i].length == |Flatten(segments[i].inner)| && LengthsRight(segments[i].inner)
      {
        SegmentAt(code, items, offset, visited, i);
        LeavesConcatenate(code, items[i], offset + TotalAll(items[..i]), visited);
        BuildLengthsRight(code, items[i], offset + TotalAll(items[..i]), visited);
      }
  }

  // ----- Leaving out unused segments -----

  function FeltsOf(data: seq<nat>): (r: seq<int>)
    ensures |r| == |data|
  {
    seq(|data|, i requires 0 <= i < |data| => Patricia.ToFelt(data[i]))
  }

  /** An unused segment is marked by -1 and then -2. */
  function Placeholder(length: nat): (r: seq<int>)
    requires length > 0
    ensures |r| == length
  {
    [Patricia.ToFelt(-1)] + seq(length - 1, _ => Patricia.ToFelt(-2))
  }

  /** An unused segment must not be empty, since `length - 1` is computed in `u64`. */
  predicate Skippable(s: Structure) {
    match s
    case BytecodeLeaf(_) => true
    case SegmentedNode(segments) =>
      forall i :: 0 <= i < |segments| ==>
        if segments[i].isUsed then Skippable(segments[i].inner) else segments[i].length > 0
  }

  function Skipped(s: Structure): seq<int>
    requires Skippable(s)
    decreases s, 1
  {
    match s
    case BytecodeLeaf(data) => FeltsOf(data)
    case SegmentedNode(segments) => SkippedFirst(s, |segments|)
  }

  function SkippedFirst(s: Structure, n: nat): seq<int>
    requires Skippable(s) && s.SegmentedNode? && n <= |s.segments|
    decreases s, 0, n
  {
    if n == 0 then [] else SkippedFirst(s, n - 1) + SkippedAt(s, n - 1)
  }

  function SkippedAt(s: Structure, i: nat): seq<int>
    requires Skippable(s) && s.SegmentedNode? && i < |s.segments|
    decreases s, 0, 0
  {
    var segment := s.segments[i];
    if segment.isUsed then Skipped(segment.inner) else Placeholder(segment.length)
  }

  method AddBytecodeWithSkippedSegments(s: Structure, given: seq<int>) returns (r: Result<seq<int>>)
    ensures r.Ok? <==> Skippable(s)
    ensures r.Ok? ==> r.value == given + Skipped(s)
    decreases s
  {
    match s
    case BytecodeLeaf(leaf) => r := Ok(given + FeltsOf(leaf));
    case SegmentedNode(segments) =>
      var data := given;
      for n := 0 to |segments|
        invariant forall i :: 0 <= i < n ==>
          if segments[i].isUsed then Skippable(segments[i].inner) else segments[i].length > 0
        invariant Skippable(s) ==> data == given + SkippedFirst(s, n)
      {
        var segment := segments[n];
        if segment.isUsed {
          data :- AddBytecodeWithSkippedSegments(segment.inner, data);
        } else {
          if segment.length == 0 {
            return Err;
          }
          var before := data;
          data := data + [Patricia.ToFelt(-1)];
          for i := 0 to segment.length - 1
            invariant data == before + [Patricia.ToFelt(-1)] + seq(i, _ => Patricia.ToFelt(-2))
          {
            data := data + [Patricia.ToFelt(-2)];
          }
        }
      }
      r := Ok(data);
  }

  /** The word loaded at position `i`. */
  ghost function WordAt(code: seq<nat>, l: NestedIntList, offset: nat, visited: set<nat>, i: nat): int
    requires offset <= i < offset + Total(l) <= |code|
  {
    match l
    case Leaf(_) => Patricia.ToFelt(code[i])
    case Node(items) => WordIn(code, items, offset, visited, i)
  }

  ghost function WordIn(code: seq<nat>, items: seq<NestedIntList>, offset: nat, visited: set<nat>, i: nat): int
    requires offset <= i < offset + TotalAll(items) <= |code|
  {
    var n := |items| - 1;
    var start := offset + TotalAll(items[..n]);
    if i < start then WordIn(code, items[..n], offset, visited, i)
    else if Used(visited, start, Total(items[n])) then WordAt(code, items[n], start, visited, i)
    else Patricia.ToFelt(if i == start then -1 else -2)
  }

  /** Every visited PC finds its instruction. */
  lemma {:induction false} VisitedLoaded(code: seq<nat>, l: NestedIntList, offset: nat, visited: set<nat>, pc: nat)
    requires offset <= pc < offset + Total(l) <= |code| && pc in visited
    ensures WordAt(code, l, offset, visited, pc) == Patricia.ToFelt(code[pc])
    decreases l
  {
    match l
    case Leaf(_) =>
    case Node(items) => VisitedLoadedIn(code, items, offset, visited, pc);
  }

  lemma {:induction false} VisitedLoadedIn(
      code: seq<nat>, items: seq<NestedIntList>, offset: nat, visited: set<nat>, pc: nat)
    requires offset <= pc < offset + TotalAll(items) <= |code| && pc in visited
    ensures WordIn(code, items, offset, visited, pc) == Patricia.ToFelt(code[pc])
    decreases items
  {
    var n := |items| - 1;
    var start := offset + TotalAll(items[..n]);
    if pc < start {
      VisitedLoadedIn(code, items[..n], offset, visited, pc);
    } else {
      VisitedLoaded(code, items[n], start, visited, pc);
    }
  }

  /** The loaded bytecode is as long as the bytecode, and has the right word at each position. */
  ghost predicate Loads(words: seq<int>, code: seq<nat>, l: NestedIntList, offset: nat, visited: set<nat>)
    requires offset + Total(l) <= |code|
  {
    |words| == Total(l) && forall j :: 0 <= j < |words| ==> LoadsAt(words, code, l, offset, visited, j)
  }

  ghost predicate LoadsAt(words: seq<int>, code: seq<nat>, l: NestedIntList, offset: nat, visited: set<nat>, j: nat)
    requires j < |words| == Total(l) && offset + Total(l) <= |code|
  {
    words[j] == WordAt(code, l, offset, visited, offset + j)
  }

  lemma {:induction false} SkippedLoads(code: seq<nat>, l: NestedIntList, offset: nat, visited: set<nat>)
    requires offset + Total(l) <= |code| && Skippable(Build(code, l, offset, visited))
    ensures Loads(Skipped(Build(code, l, offset, visited)), code, l, offset, visited)
    decreases l, 1
  {
    match l
    case Leaf(_) =>
    case Node(items) =>
      SkippedLoadsFirst(code, l, offset, visited, |items|);
      assert items[..|items|] == items;
  }

  lemma {:induction false} SkippedLoadsFirst(code: seq<nat>, l: NestedIntList, offset: nat, visited: set<nat>, n: nat)
    requires l.Node? && offset + Total(l) <= |code| && n <= |l.items| && Skippable(Build(code, l, offset, visited))
    ensures offset + TotalAll(l.items[..n]) <= |code|
    ensures Loads(SkippedFirst(Build(code, l, offset, visited), n), code, Node(l.items[..n]), offset, visited)
    decreases l, 0, n
  {
    if n > 0 {
      var items := l.items;
      var front, last := items[..n - 1], items[n - 1];
      TotalPrefix(items, n - 1);
      SkippedLoadsFirst(code, l, offset, visited, n - 1);
      SegmentLoads(code, l, offset, visited, n - 1);
      var s := Build(code, l, offset, visited);
      LoadsAppend(SkippedFirst(s, n - 1), SkippedAt(s, n - 1), code, front, last, offset, offset + TotalAll(front),
                  visited);
      assert items[..n] == front + [last];
    }
  }

  lemma {:induction false} SegmentLoads(code: seq<nat>, l: NestedIntList, offset: nat, visited: set<nat>, i: nat)
    requires l.Node? && offset + Total(l) <= |code| && i < |l.items| && Skippable(Build(code, l, offset, visited))
    ensures var start := offset + TotalAll(l.items[..i]);
            && start + Total(l.items[i]) <= |code|
            && MoreLoads(SkippedAt(Build(code, l, offset, visited), i), code, l.items[i], start, visited)
    decreases l, 0, 0
  {
    SegmentAt(code, l.items, offset, visited, i);
    var start := offset + TotalAll(l.items[..i]);
    var segment := Build(code, l, offset, visited).segments[i];
    if segment.isUsed {
      SkippedLoads(code, l.items[i], start, visited);
    }
  }

  ghost predicate MoreLoads(more: seq<int>, code: seq<nat>, last: NestedIntList, start: nat, visited: set<nat>)
    requires start + Total(last) <= |code|
  {
    if Used(visited, start, Total(last)) then Loads(more, code, last, start, visited)
    else Total(last) > 0 && more == Placeholder(Total(last))
  }

  lemma TotalAppend(front: seq<NestedIntList>, last: NestedIntList)
    ensures TotalAll(front + [last]) == TotalAll(front) + Total(last)
  {
    assert (front + [last])[..|front|] == front;
  }

  lemma WordAppend(
      code: seq<nat>, front: seq<NestedIntList>, last: NestedIntList, offset: nat, start: nat, visited: set<nat>,
      i: nat)
    requires start == offset + TotalAll(front) && offset <= i < start + Total(last) <= |code|
    ensures TotalAll(front + [last]) == TotalAll(front) + Total(last)
    ensures WordAt(code, Node(front + [last]), offset, visited, i) ==
      if i < start then WordAt(code, Node(front), offset, visited, i)
      else if Used(visited, start, Total(last)) then WordAt(code, last, start, visited, i)
      else Patricia.ToFelt(if i == start then -1 else -2)
  {
    TotalAppend(front, last);
    assert (front + [last])[..|front|] == front;
  }

  lemma LoadsAppend(words: seq<int>, more: seq<int>, code: seq<nat>, front: seq<NestedIntList>, last: NestedIntList,
                    offset: nat, start: nat, visited: set<nat>)
    requires start == offset + TotalAll(front) && start + Total(last) <= |code|
    requires Loads(words, code, Node(front), offset, visited) && MoreLoads(more, code, last, start, visited)
    ensures TotalAll(front + [last]) == TotalAll(front) + Total(last)
    ensures Loads(words + more, code, Node(front + [last]), offset, visited)
  {
    TotalAppend(front, last);
    forall j | 0 <= j < |words + more|
      ensures LoadsAt(words + more, code, Node(front + [last]), offset, visited, j)
    {
      WordAppend(code, front, last, offset, start, visited, offset + j);
      if j < |words| {
        assert LoadsAt(words, code, Node(front), offset, visited, j);
      } else if Used(visited, start, Total(last)) {
        assert LoadsAt(more, code, last, start, visited, j - |words|);
      }
    }
  }

  predicate AllNonempty(l: NestedIntList) {
    match l
    case Leaf(_) => true
    case Node(items) => forall i :: 0 <= i < |items| ==> Total(items[i]) > 0 && AllNonempty(items[i])
  }

  /** Unused segments can be left out if no segment is empty. */
  lemma {:induction false} NonemptySkippable(code: seq<nat>, l: NestedIntList, offset: nat, visited: set<nat>)
    requires offset + Total(l) <= |code| && AllNonempty(l)
    ensures Skippable(Build(code, l, offset, visited))
    decreases l
  {
    match l
    case Leaf(_) =>
    case Node(items) =>
      var segments := BuildAll(code, items, offset, visited);
      forall i | 0 <= i < |segments|
        ensures if segments[i].isUsed then Skippable(segments[i].inner) else segments[i].length > 0
      {
        SegmentAt(code, items, offset, visited, i);
        NonemptySkippable(code, items[i], offset + TotalAll(items[..i]), visited);
      }
  }

  /** An empty segment is never used, and cannot be left out. */
  lemma EmptyNotSkippable(code: seq<nat>, items: seq<NestedIntList>, offset: nat, visited: set<nat>, i: nat)
    requires offset + TotalAll(items) <= |code| && i < |items| && Total(items[i]) == 0
    ensures !Skippable(Build(code, Node(items), offset, visited))
  {
    SegmentAt(code, items, offset, visited, i);
    var segments := BuildAll(code, items, offset, visited);
    assert !segments[i].isUsed && segments[i].length == 0;
  }
}
