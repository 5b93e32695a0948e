/** Replaying the calls of executed transactions in the order in which the OS meets them. */
module Replay {
  import opened Basics

  type Felt = nat

  datatype EntryPointType = Constructor | External | L1Handler

  datatype CallResult = CallResult(failed: bool, retdata: seq<Felt>, gasConsumed: nat)

  datatype CallInfo = CallInfo(
    kind: EntryPointType, address: Felt, execution: CallResult, readValues: seq<Felt>, inner: seq<CallInfo>)

  datatype Tx = Tx(validate: Option<CallInfo>, execute: Option<CallInfo>, feeTransfer: Option<CallInfo>)

  // ----- The calls of a transaction in execution order -----

  function Preorder(c: CallInfo): (r: seq<CallInfo>)
    ensures |r| > 0 && r[0] == c
  {
    [c] + PreorderAll(c.inner)
  }

  function PreorderAll(calls: seq<CallInfo>): seq<CallInfo> {
    if calls == [] then [] else PreorderAll(calls[..|calls| - 1]) + Preorder(calls[|calls| - 1])
  }

  method GenCallTopology(c: CallInfo) returns (r: seq<CallInfo>)
    ensures r == Preorder(c)
  {
    r := [c];
    for n := 0 to |c.inner|
      invariant r == [c] + PreorderAll(c.inner[..n])
    {
      assert c.inner[..n + 1][..n] == c.inner[..n];
      var more := GenCallTopology(c.inner[n]);
      r := r + more;
    }
    assert c.inner[..|c.inner|] == c.inner;
  }

  /** The outermost calls: a deployed account's constructor runs before its validation. */
  function Roots(tx: Tx): seq<CallInfo> {
    if tx.execute.Some? && tx.execute.value.kind == Constructor then
      AsList(tx.execute) + AsList(tx.validate) + AsList(tx.feeTransfer)
    else
      AsList(tx.validate) + AsList(tx.execute) + AsList(tx.feeTransfer)
  }

  function CallsOfTx(tx: Tx): seq<CallInfo> {
    PreorderAll(Roots(tx))
  }

  method GenCallIterator(tx: Tx) returns (r: seq<CallInfo>)
    ensures r == CallsOfTx(tx)
  {
    var isDeploy := tx.execute.Some? && tx.execute.value.kind == Constructor;
    var roots := if isDeploy then AsList(tx.execute) + AsList(tx.validate) + AsList(tx.feeTransfer)
                 else AsList(tx.validate) + AsList(tx.execute) + AsList(tx.feeTransfer);
    r := [];
    for n := 0 to |roots|
      invariant r == PreorderAll(roots[..n])
    {
      assert roots[..n + 1][..n] == roots[..n];
      var more := GenCallTopology(roots[n]);
      r := r + more;
    }
    assert roots[..|roots|] == roots;
  }

  // ----- The same order from a stack of pending calls -----

  function Size(c: CallInfo): (n: nat)
    ensures n > 0
  {
    1 + SizeAll(c.inner)
  }

  function SizeAll(calls: seq<CallInfo>): nat {
    if calls == [] then 0 else SizeAll(calls[..|calls| - 1]) + Size(calls[|calls| - 1])
  }

  lemma {:induction false} SizeAppend(a: seq<CallInfo>, b: seq<CallInfo>)
    ensures SizeAll(a + b) == SizeAll(a) + SizeAll(b)
    decreases |b|
  {
    if b == [] {
      assert a + b == a;
    } else {
      SizeAppend(a, b[..|b| - 1]);
      assert (a + b)[..|a + b| - 1] == a + b[..|b| - 1];
    }
  }

  lemma SizeHead(calls: seq<CallInfo>)
    requires calls != []
    ensures SizeAll(calls) == Size(calls[0]) + SizeAll(calls[1..])
    ensures SizeAll(calls[0].inner + calls[1..]) < SizeAll(calls)
  {
    assert calls == [calls[0]] + calls[1..];
    SizeAppend([calls[0]], calls[1..]);
    assert [calls[0]][..0] == [];
    SizeAppend(calls[0].inner, calls[1..]);
  }

  /** Takes the next pending call and puts its inner calls in front of the others. */
  function DepthFirst(pending: seq<CallInfo>): seq<CallInfo>
    decreases SizeAll(pending)
  {
    if pending == [] then []
    else
      SizeHead(pending);
      [pending[0]] + DepthFirst(pending[0].inner + pending[1..])
  }

  lemma PreorderLast(calls: seq<CallInfo>, c: CallInfo)
    ensures PreorderAll(calls + [c]) == PreorderAll(calls) + Preorder(c)
  {
    assert (calls + [c])[..|calls|] == calls;
  }

  lemma {:induction false} PreorderAppend(a: seq<CallInfo>, b: seq<CallInfo>)
    ensures PreorderAll(a + b) == PreorderAll(a) + PreorderAll(b)
    decreases |b|
  {
    if b == [] {
      assert a + b == a;
    } else {
      var n := |b| - 1;
      var front, c := b[..n], b[n];
      assert b == front + [c];
      assert a + b == (a + front) + [c];
      PreorderAppend(a, front);
      PreorderLast(a + front, c);
      PreorderLast(front, c);
      Associative(PreorderAll(a), PreorderAll(front), Preorder(c));
    }
  }

  lemma Associative(x: seq<CallInfo>, y: seq<CallInfo>, z: seq<CallInfo>)
    ensures (x + y) + z == x + (y + z)
  {
  }

  lemma PreorderFirst(c: CallInfo, rest: seq<CallInfo>)
    ensures PreorderAll([c] + rest) == [c] + PreorderAll(c.inner + rest)
  {
    PreorderAppend([c], rest);
    PreorderAppend(c.inner, rest);
    PreorderLast([], c);
    assert [] + [c] == [c];
  }

  /** The flattened calls are those met by a depth-first walk with a stack. */
  lemma {:induction false} PreorderIsDepthFirst(calls: seq<CallInfo>)
    ensures PreorderAll(calls) == DepthFirst(calls)
    decreases SizeAll(calls)
  {
    if calls != [] {
      SizeHead(calls);
      var c, rest := calls[0], calls[1..];
      PreorderIsDepthFirst(c.inner + rest);
      PreorderFirst(c, rest);
      assert [c] + rest == calls;
    }
  }

  // ----- What each call offers for consumption -----

  function ResultsIn(c: CallInfo): (r: seq<CallResult>)
    ensures |r| == |c.inner|
  {
    seq(|c.inner|, i requires 0 <= i < |c.inner| => c.inner[i].execution)
  }

  function AddressIfDeployed(c: CallInfo): seq<Felt> {
    if c.kind == Constructor then [c.address] else []
  }

  function DeployedIn(c: CallInfo): seq<Felt> {
    FlatMap(AddressIfDeployed, c.inner)
  }

  method UnpackDeployed(c: CallInfo) returns (r: seq<Felt>)
    ensures r == DeployedIn(c)
  {
    r := [];
    for n := 0 to |c.inner|
      invariant r == FlatMap(AddressIfDeployed, c.inner[..n])
    {
      assert c.inner[..n + 1] == c.inner[..n] + [c.inner[n]];
      FlatMapAppend(AddressIfDeployed, c.inner[..n], c.inner[n]);
      if c.inner[n].kind == Constructor {
        r := r + [c.inner[n].address];
      }
    }
    assert c.inner[..|c.inner|] == c.inner;
  }

  function ReadsIn(c: CallInfo): seq<Felt> {
    c.readValues
  }

  // ----- The helper -----

  datatype Helper = Helper(
    txs: seq<Tx>, tx: Option<Tx>, txInfoPtr: Option<Relocatable>, callInfoPtr: Option<Relocatable>,
    calls: seq<CallInfo>,
    call: Option<CallInfo>, results: seq<CallResult>, deployed: seq<Felt>, readValues: seq<Felt>)

  datatype Op = StartTx(txInfoPtr: Option<Relocatable>) | EndTx | EnterCall(callInfoPtr: Option<Relocatable>) | ExitCall
              | Call | Deploy | Read

  /** What a step hands over. */
  datatype Event = Started(tx: Tx) | Entered(call: CallInfo) | Left | Called(result: CallResult)
                 | Deployed(result: CallResult, address: Felt) | ReadValue(value: Felt)

  predicate Exhausted(s: Helper) {
    s.deployed == [] && s.results == [] && s.readValues == []
  }

  /** A step of the helper; `None` stands for a failed assertion or an exhausted iterator. */
  function Step(s: Helper, op: Op): Option<(Helper, Event)> {
    match op
    case StartTx(p) =>
      if s.txInfoPtr.Some? || s.tx.Some? || s.txs == [] then None
      else
        var tx := s.txs[0];
        Some((s.(txInfoPtr := p, txs := s.txs[1..], tx := Some(tx), calls := CallsOfTx(tx)), Started(tx)))
    case EndTx =>
      if s.calls != [] || s.tx.None? then None else Some((s.(txInfoPtr := None, tx := None), Left))
    case EnterCall(p) =>
      if s.callInfoPtr.Some? || !Exhausted(s) || s.call.Some? || s.calls == [] then None
      else
        var c := s.calls[0];
        Some((s.(callInfoPtr := p, calls := s.calls[1..], call := Some(c),
                 results := ResultsIn(c), deployed := DeployedIn(c), readValues := ReadsIn(c)), Entered(c)))
    case ExitCall =>
      if !Exhausted(s) || s.call.None? then None else Some((s.(callInfoPtr := None, call := None), Left))
    case Call =>
      if s.results == [] then None else Some((s.(results := s.results[1..]), Called(s.results[0])))
    case Deploy =>
      if s.results == [] then None
      else if s.results[0].failed then Some((s.(results := s.results[1..]), Called(s.results[0])))
      else if s.deployed == [] then None
      else
        Some((s.(results := s.results[1..], deployed := s.deployed[1..]), Deployed(s.results[0], s.deployed[0])))
    case Read =>
      if s.readValues == [] then None else Some((s.(readValues := s.readValues[1..]), ReadValue(s.readValues[0])))
  }

  function New(txs: seq<Tx>): Helper {
    Helper(txs, None, None, None, [], None, [], [], [])
  }

  class ExecutionHelper {
    var txs: seq<Tx>
    var tx: Option<Tx>
    var txInfoPtr: Option<Relocatable>
    var callInfoPtr: Option<Relocatable>
    var calls: seq<CallInfo>
    var call: Option<CallInfo>
    var results: seq<CallResult>
    var deployed: seq<Felt>
    var readValues: seq<Felt>

    function View(): Helper
      reads this
    {
      Helper(txs, tx, txInfoPtr, callInfoPtr, calls, call, results, deployed, readValues)
    }

    constructor (given: seq<Tx>)
      ensures View() == New(given)
    {
      txs, tx, txInfoPtr, callInfoPtr, calls, call, results, deployed, readValues :=
        given, None, None, None, [], None, [], [], [];
    }

    method StartTx(p: Option<Relocatable>) returns (ok: bool)
      modifies this
      ensures var step := Step(old(View()), Op.StartTx(p)); ok == step.Some? && (ok ==> View() == step.value.0)
    {
      if txInfoPtr.Some? {
        return false;
      }
      txInfoPtr := p;
      if tx.Some? || txs == [] {
        return false;
      }
      tx := Some(txs[0]);
      txs := txs[1..];
      calls := GenCallIterator(tx.value);
      ok := true;
    }

    method EndTx() returns (ok: bool)
      modifies this
      ensures var step := Step(old(View()), Op.EndTx); ok == step.Some? && (ok ==> View() == step.value.0)
    {
      if calls != [] {
        return false;
      }
      txInfoPtr := None;
      if tx.None? {
        return false;
      }
      tx := None;
      ok := true;
    }

    method EnterCall(p: Option<Relocatable>) returns (ok: bool)
      modifies this
      ensures var step := Step(old(View()), Op.EnterCall(p)); ok == step.Some? && (ok ==> View() == step.value.0)
    {
      if callInfoPtr.Some? {
        return false;
      }
      callInfoPtr := p;
      if !Exhausted(View()) || call.Some? || calls == [] {
        return false;
      }
      var c := calls[0];
      calls := calls[1..];
      deployed := UnpackDeployed(c);
      results := ResultsIn(c);
      readValues := c.readValues;
      call := Some(c);
      ok := true;
    }

    method ExitCall() returns (ok: bool)
      modifies this
      ensures var step := Step(old(View()), Op.ExitCall); ok == step.Some? && (ok ==> View() == step.value.0)
    {
      callInfoPtr := None;
      if !Exhausted(View()) || call.None? {
        return false;
      }
      call := None;
      ok := true;
    }

    /** The call and library call syscalls. */
    method ReplayCall() returns (r: Option<CallResult>)
      modifies `results
      ensures var step := Step(old(View()), Op.Call);
              r.Some? == step.Some? && (r.Some? ==> View() == step.value.0 && step.value.1 == Called(r.value))
    {
      if results == [] {
        return None;
      }
      r := Some(results[0]);
      results := results[1..];
    }

    /** The deploy syscall, which looks for an address only if the constructor did not fail. */
    method ReplayDeploy() returns (r: Option<Event>)
      modifies `results, `deployed
      ensures var step := Step(old(View()), Op.Deploy);
              r.Some? == step.Some? && (r.Some? ==> View() == step.value.0 && step.value.1 == r.value)
    {
      if results == [] {
        return None;
      }
      var result := results[0];
      results := results[1..];
      if result.failed {
        return Some(Called(result));
      }
      if deployed == [] {
        return None;
      }
      r := Some(Deployed(result, deployed[0]));
      deployed := deployed[1..];
    }

    method ReplayRead() returns (r: Option<Felt>)
      modifies `readValues
      ensures var step := Step(old(View()), Op.Read);
              r.Some? == step.Some? && (r.Some? ==> View() == step.value.0 && step.value.1 == ReadValue(r.value))
    {
      if readValues == [] {
        return None;
      }
      r := Some(readValues[0]);
      readValues := readValues[1..];
    }
  }

  // ----- Whole runs -----

  function Run(s: Helper, ops: seq<Op>): Option<(Helper, seq<Event>)> {
    if ops == [] then Some((s, []))
    else
      match Run(s, ops[..|ops| - 1])
      case None => None
      case Some((t, events)) =>
        match Step(t, ops[|ops| - 1])
        case None => None
        case Some((u, event)) => Some((u, events + [event]))
  }

  function StartedBy(e: Event): seq<Tx> {
    if e.Started? then [e.tx] else []
  }

  function EnteredBy(e: Event): seq<CallInfo> {
    if e.Entered? then [e.call] else []
  }

  function ResultOf(e: Event): seq<CallResult> {
    if e.Called? || e.Deployed? then [e.result] else []
  }

  function AddressOf(e: Event): seq<Felt> {
    if e.Deployed? then [e.address] else []
  }

  function ValueOf(e: Event): seq<Felt> {
    if e.ReadValue? then [e.value] else []
  }

  ghost predicate Balance<T>(taken: seq<T>, rest: seq<T>, offered: seq<T>) {
    taken + rest == offered
  }

  lemma Take<T>(taken: seq<T>, rest: seq<T>, offered: seq<T>)
    requires Balance(taken, rest, offered) && rest != []
    ensures Balance(taken + [rest[0]], rest[1..], offered)
  {
  }

  lemma Offer<A, T>(f: A -> seq<T>, taken: seq<T>, from: seq<A>, a: A)
    requires Balance(taken, [], FlatMap(f, from))
    ensures Balance(taken, f(a), FlatMap(f, from + [a]))
  {
    FlatMapAppend(f, from, a);
  }

  /** What was handed over and what is still to come make up what the calls entered offer. */
  ghost predicate Balanced(all: seq<Tx>, s: Helper, events: seq<Event>) {
    var calls := FlatMap(EnteredBy, events);
    && Balance(FlatMap(StartedBy, events), s.txs, all)
    && Balance(calls, s.calls, FlatMap(CallsOfTx, FlatMap(StartedBy, events)))
    && Balance(FlatMap(ResultOf, events), s.results, FlatMap(ResultsIn, calls))
    && Balance(FlatMap(AddressOf, events), s.deployed, FlatMap(DeployedIn, calls))
    && Balance(FlatMap(ValueOf, events), s.readValues, FlatMap(ReadsIn, calls))
    && (s.call.None? ==> Exhausted(s)) && (s.tx.None? ==> s.calls == [])
  }

  lemma AppendEvent(events: seq<Event>, e: Event)
    ensures var taken := FlatMap(StartedBy, events);
            FlatMap(StartedBy, events + [e]) == if e.Started? then taken + [e.tx] else taken
    ensures var taken := FlatMap(EnteredBy, events);
            FlatMap(EnteredBy, events + [e]) == if e.Entered? then taken + [e.call] else taken
    ensures var taken := FlatMap(ResultOf, events);
            FlatMap(ResultOf, events + [e]) == if e.Called? || e.Deployed? then taken + [e.result] else taken
    ensures var taken := FlatMap(AddressOf, events);
            FlatMap(AddressOf, events + [e]) == if e.Deployed? then taken + [e.address] else taken
    ensures var taken := FlatMap(ValueOf, events);
            FlatMap(ValueOf, events + [e]) == if e.ReadValue? then taken + [e.value] else taken
  {
    FlatMapAppend(StartedBy, events, e);
    FlatMapAppend(EnteredBy, events, e);
    FlatMapAppend(ResultOf, events, e);
    FlatMapAppend(AddressOf, events, e);
    FlatMapAppend(ValueOf, events, e);
  }

  lemma StartKeepsBalance(all: seq<Tx>, s: Helper, events: seq<Event>, op: Op)
    requires Balanced(all, s, events) && op.StartTx? && Step(s, op).Some?
    ensures Balanced(all, Step(s, op).value.0, events + [Step(s, op).value.1])
  {
    var tx, started := s.txs[0], FlatMap(StartedBy, events);
    AppendEvent(events, Started(tx));
    Take(started, s.txs, all);
    Offer(CallsOfTx, FlatMap(EnteredBy, events), started, tx);
  }

  lemma EnterKeepsBalance(all: seq<Tx>, s: Helper, events: seq<Event>, op: Op)
    requires Balanced(all, s, events) && op.EnterCall? && Step(s, op).Some?
    ensures Balanced(all, Step(s, op).value.0, events + [Step(s, op).value.1])
  {
    var c, calls := s.calls[0], FlatMap(EnteredBy, events);
    AppendEvent(events, Entered(c));
    Take(calls, s.calls, FlatMap(CallsOfTx, FlatMap(StartedBy, events)));
    EnterOffers(events, calls, c);
  }

  lemma EnterOffers(events: seq<Event>, calls: seq<CallInfo>, c: CallInfo)
    requires Balance(FlatMap(ResultOf, events), [], FlatMap(ResultsIn, calls))
    requires Balance(FlatMap(AddressOf, events), [], FlatMap(DeployedIn, calls))
    requires Balance(FlatMap(ValueOf, events), [], FlatMap(ReadsIn, calls))
    ensures Balance(FlatMap(ResultOf, events), ResultsIn(c), FlatMap(ResultsIn, calls + [c]))
    ensures Balance(FlatMap(AddressOf, events), DeployedIn(c), FlatMap(DeployedIn, calls + [c]))
    ensures Balance(FlatMap(ValueOf, events), ReadsIn(c), FlatMap(ReadsIn, calls + [c]))
  {
    Offer(ResultsIn, FlatMap(ResultOf, events), calls, c);
    Offer(DeployedIn, FlatMap(AddressOf, events), calls, c);
    Offer(ReadsIn, FlatMap(ValueOf, events), calls, c);
  }

  lemma ConsumeKeepsBalance(all: seq<Tx>, s: Helper, events: seq<Event>, op: Op)
    requires Balanced(all, s, events) && (op.Call? || op.Deploy? || op.Read?) && Step(s, op).Some?
    ensures Balanced(all, Step(s, op).value.0, events + [Step(s, op).value.1])
  {
    var e := Step(s, op).value.1;
    var calls := FlatMap(EnteredBy, events);
    AppendEvent(events, e);
    if op.Read? {
      Take(FlatMap(ValueOf, events), s.readValues, FlatMap(ReadsIn, calls));
    } else {
      Take(FlatMap(ResultOf, events), s.results, FlatMap(ResultsIn, calls));
      if e.Deployed? {
        Take(FlatMap(AddressOf, events), s.deployed, FlatMap(DeployedIn, calls));
      }
    }
  }

  lemma LeaveKeepsBalance(all: seq<Tx>, s: Helper, events: seq<Event>, op: Op)
    requires Balanced(all, s, events) && (op.EndTx? || op.ExitCall?) && Step(s, op).Some?
    ensures Balanced(all, Step(s, op).value.0, events + [Step(s, op).value.1])
  {
    AppendEvent(events, Left);
  }

  lemma StepKeepsBalance(all: seq<Tx>, s: Helper, events: seq<Event>, op: Op)
    requires Balanced(all, s, events) && Step(s, op).Some?
    ensures Balanced(all, Step(s, op).value.0, events + [Step(s, op).value.1])
  {
    match op
    case StartTx(_) => StartKeepsBalance(all, s, events, op);
    case EnterCall(_) => EnterKeepsBalance(all, s, events, op);
    case EndTx => LeaveKeepsBalance(all, s, events, op);
    case ExitCall => LeaveKeepsBalance(all, s, events, op);
    case _ => ConsumeKeepsBalance(all, s, events, op);
  }

  lemma {:induction false} RunBalanced(all: seq<Tx>, ops: seq<Op>)
    requires Run(New(all), ops).Some?
    ensures Balanced(all, Run(New(all), ops).value.0, Run(New(all), ops).value.1)
    decreases |ops|
  {
    if ops != [] {
      var front := ops[..|ops| - 1];
      RunBalanced(all, front);
      var (t, events) := Run(New(all), front).value;
      StepKeepsBalance(all, t, events, ops[|ops| - 1]);
    }
  }

  // ----- Counting -----

  lemma {:induction false} ResultsOfCall(c: CallInfo)
    ensures |FlatMap(ResultsIn, Preorder(c))| == |Preorder(c)| - 1
    decreases c, 1
  {
    ResultsOfCalls(c.inner);
    FlatMapConcat(ResultsIn, [c], PreorderAll(c.inner));
    FlatMapAppend(ResultsIn, [], c);
    assert [] + [c] == [c];
  }

  /** The results consumed are one for each call that is not outermost. */
  lemma {:induction false} ResultsOfCalls(calls: seq<CallInfo>)
    ensures |FlatMap(ResultsIn, PreorderAll(calls))| == |PreorderAll(calls)| - |calls|
    decreases calls, 0
  {
    if calls != [] {
      var n := |calls| - 1;
      ResultsOfCalls(calls[..n]);
      ResultsOfCall(calls[n]);
      FlatMapConcat(ResultsIn, PreorderAll(calls[..n]), Preorder(calls[n]));
    }
  }

  lemma {:induction false} ResultsOfTxs(txs: seq<Tx>)
    ensures |FlatMap(ResultsIn, FlatMap(CallsOfTx, txs))| == |FlatMap(CallsOfTx, txs)| - |FlatMap(Roots, txs)|
    decreases |txs|
  {
    if txs != [] {
      var n := |txs| - 1;
      ResultsOfTxs(txs[..n]);
      ResultsOfCalls(Roots(txs[n]));
      FlatMapConcat(ResultsIn, FlatMap(CallsOfTx, txs[..n]), CallsOfTx(txs[n]));
    }
  }

  /** The run replayed exactly these transactions. */
  ghost predicate Replayed(txs: seq<Tx>, events: seq<Event>) {
    var calls := FlatMap(EnteredBy, events);
    && FlatMap(StartedBy, events) == txs
    && calls == FlatMap(CallsOfTx, txs)
    && FlatMap(ValueOf, events) == FlatMap(ReadsIn, calls)
    && FlatMap(ResultOf, events) == FlatMap(ResultsIn, calls)
    && FlatMap(AddressOf, events) == FlatMap(DeployedIn, calls)
    && |FlatMap(ResultOf, events)| == |calls| - |FlatMap(Roots, txs)|
  }

  /** Whenever no call and no transaction is open, the transactions started so far have been
      replayed completely: calls in preorder, and all they offer consumed in that order. */
  lemma CompleteRun(all: seq<Tx>, ops: seq<Op>)
    requires Run(New(all), ops).Some?
    requires var s := Run(New(all), ops).value.0; s.tx.None? && s.call.None?
    ensures var (s, events) := Run(New(all), ops).value;
            |s.txs| <= |all| && Replayed(all[..|all| - |s.txs|], events)
  {
    RunBalanced(all, ops);
    var (s, events) := Run(New(all), ops).value;
    ResultsOfTxs(FlatMap(StartedBy, events));
  }

  // ----- Pairing deploy syscalls with constructor calls -----

  predicate Consuming(op: Op) {
    op.Call? || op.Deploy? || op.Read?
  }

  function AsCallOp(op: Op): seq<Op> {
    if op.Call? || op.Deploy? then [op] else []
  }

  function AsCallEvent(e: Event): seq<Event> {
    if e.Called? || e.Deployed? then [e] else []
  }

  /** The syscall by which a contract makes an inner call. */
  function OpFor(c: CallInfo): Op {
    if c.kind == Constructor then Deploy else Call
  }

  function OpsFor(calls: seq<CallInfo>): (r: seq<Op>)
    ensures |r| == |calls|
  {
    seq(|calls|, i requires 0 <= i < |calls| => OpFor(calls[i]))
  }

  predicate FailedConstructor(c: CallInfo) {
    c.kind == Constructor && c.execution.failed
  }

  /** What that syscall should hand over. */
  function EventFor(c: CallInfo): seq<Event> {
    if c.kind == Constructor then [Deployed(c.execution, c.address)] else [Called(c.execution)]
  }

  predicate NoneFailed(calls: seq<CallInfo>) {
    forall i :: 0 <= i < |calls| ==> !FailedConstructor(calls[i])
  }

  function Failures(calls: seq<CallInfo>): nat {
    if calls == [] then 0
    else Failures(calls[..|calls| - 1]) + if FailedConstructor(calls[|calls| - 1]) then 1 else 0
  }

  /** Where the replay stands after the first `k` inner calls of `c`. */
  ghost predicate Paired(c: CallInfo, t: Helper, events: seq<Event>, k: nat) {
    && k <= |c.inner| && t.results == ResultsIn(c)[k..]
    && |t.deployed| == |FlatMap(AddressIfDeployed, c.inner[k..])| + Failures(c.inner[..k])
    && (NoneFailed(c.inner[..k]) ==>
        && t.deployed == FlatMap(AddressIfDeployed, c.inner[k..])
        && FlatMap(AsCallEvent, events) == FlatMap(EventFor, c.inner[..k]))
  }

  lemma DeployedHead(inner: seq<CallInfo>, k: nat)
    requires k < |inner|
    ensures FlatMap(AddressIfDeployed, inner[k..])
            == AddressIfDeployed(inner[k]) + FlatMap(AddressIfDeployed, inner[k + 1..])
  {
    assert inner[k..] == [inner[k]] + inner[k + 1..];
    FlatMapConcat(AddressIfDeployed, [inner[k]], inner[k + 1..]);
    FlatMapAppend(AddressIfDeployed, [], inner[k]);
    assert [] + [inner[k]] == [inner[k]];
  }

  lemma PairedStep(c: CallInfo, t: Helper, events: seq<Event>, k: nat)
    requires Paired(c, t, events, k) && k < |c.inner|
    ensures var op := OpFor(c.inner[k]);
            && Step(t, op).Some?
            && Paired(c, Step(t, op).value.0, events + [Step(t, op).value.1], k + 1)
  {
    var inner := c.inner;
    DeployedHead(inner, k);
    NextInner(inner, k);
    assert t.results[0] == inner[k].execution && t.results[1..] == ResultsIn(c)[k + 1..];
    FlatMapAppend(AsCallEvent, events, Step(t, OpFor(inner[k])).value.1);
  }

  lemma NextInner(inner: seq<CallInfo>, k: nat)
    requires k < |inner|
    ensures Failures(inner[..k + 1]) == Failures(inner[..k]) + if FailedConstructor(inner[k]) then 1 else 0
    ensures NoneFailed(inner[..k + 1]) <==> NoneFailed(inner[..k]) && !FailedConstructor(inner[k])
    ensures FlatMap(EventFor, inner[..k + 1]) == FlatMap(EventFor, inner[..k]) + EventFor(inner[k])
  {
    var front, c := inner[..k], inner[k];
    assert inner[..k + 1] == front + [c];
    assert (front + [c])[..k] == front;
    FlatMapAppend(EventFor, front, c);
    assert forall i :: 0 <= i < k ==> (front + [c])[i] == front[i];
    assert (front + [c])[k] == c;
  }

  /** Syscalls take results, addresses and values from the front. */
  lemma {:induction false} ConsumingTakes(s: Helper, ops: seq<Op>)
    requires Run(s, ops).Some? && forall i :: 0 <= i < |ops| ==> Consuming(ops[i])
    ensures var (t, events) := Run(s, ops).value;
            && Balance(FlatMap(ResultOf, events), t.results, s.results)
            && Balance(FlatMap(AddressOf, events), t.deployed, s.deployed)
            && Balance(FlatMap(ValueOf, events), t.readValues, s.readValues)
    decreases |ops|
  {
    if ops != [] {
      var n := |ops| - 1;
      ConsumingTakes(s, ops[..n]);
      var (t, events) := Run(s, ops[..n]).value;
      TakeOne(s, t, events, ops[n]);
    }
  }

  lemma TakeOne(s: Helper, t: Helper, events: seq<Event>, op: Op)
    requires Consuming(op) && Step(t, op).Some?
    requires Balance(FlatMap(ResultOf, events), t.results, s.results)
    requires Balance(FlatMap(AddressOf, events), t.deployed, s.deployed)
    requires Balance(FlatMap(ValueOf, events), t.readValues, s.readValues)
    ensures var (u, e) := Step(t, op).value;
            && Balance(FlatMap(ResultOf, events + [e]), u.results, s.results)
            && Balance(FlatMap(AddressOf, events + [e]), u.deployed, s.deployed)
            && Balance(FlatMap(ValueOf, events + [e]), u.readValues, s.readValues)
  {
    var (u, e) := Step(t, op).value;
    TakeEvent(ResultOf, events, e, t.results, s.results);
    TakeEvent(AddressOf, events, e, t.deployed, s.deployed);
    TakeEvent(ValueOf, events, e, t.readValues, s.readValues);
  }

  /** An event that hands over the front of what is left. */
  lemma TakeEvent<T>(f: Event -> seq<T>, events: seq<Event>, e: Event, rest: seq<T>, offered: seq<T>)
    requires Balance(FlatMap(f, events), rest, offered) && f(e) <= rest
    ensures Balance(FlatMap(f, events + [e]), rest[|f(e)|..], offered)
  {
    FlatMapAppend(f, events, e);
    assert rest == f(e) + rest[|f(e)|..];
  }

  /** The state just after entering `c`. */
  predicate JustEntered(c: CallInfo, s: Helper) {
    s.call == Some(c) && s.results == ResultsIn(c) && s.deployed == DeployedIn(c) && s.readValues == ReadsIn(c)
  }

  /** Call-like syscalls that follow the inner calls, with storage reads in between. */
  predicate Follows(c: CallInfo, ops: seq<Op>) {
    (forall i :: 0 <= i < |ops| ==> Consuming(ops[i])) && FlatMap(AsCallOp, ops) <= OpsFor(c.inner)
  }

  lemma FollowsFront(c: CallInfo, ops: seq<Op>, n: nat)
    requires Follows(c, ops) && |ops| == n + 1
    ensures Follows(c, ops[..n])
    ensures var k, k' := |FlatMap(AsCallOp, ops[..n])|, |FlatMap(AsCallOp, ops)|;
            if ops[n].Read? then k' == k else k' == k + 1 && k < |c.inner| && ops[n] == OpFor(c.inner[k])
  {
    var k := |FlatMap(AsCallOp, ops[..n])|;
    assert FlatMap(AsCallOp, ops) == FlatMap(AsCallOp, ops[..n]) + AsCallOp(ops[n]);
    if !ops[n].Read? {
      assert FlatMap(AsCallOp, ops)[k] == ops[n];
    }
  }

  lemma PairedRead(c: CallInfo, t: Helper, events: seq<Event>, k: nat)
    requires Paired(c, t, events, k) && Step(t, Read).Some?
    ensures Paired(c, Step(t, Read).value.0, events + [Step(t, Read).value.1], k)
  {
    FlatMapAppend(AsCallEvent, events, Step(t, Read).value.1);
  }

  lemma {:induction false} PairedRun(c: CallInfo, s: Helper, ops: seq<Op>) returns (t: Helper, events: seq<Event>)
    requires JustEntered(c, s) && Follows(c, ops) && Run(s, ops).Some?
    ensures Run(s, ops) == Some((t, events)) && t.call == Some(c)
    ensures Paired(c, t, events, |FlatMap(AsCallOp, ops)|)
    decreases |ops|
  {
    if ops == [] {
      assert c.inner[0..] == c.inner;
      t, events := s, [];
    } else {
      var n := |ops| - 1;
      FollowsFront(c, ops, n);
      t, events := PairedRun(c, s, ops[..n]);
      PairedNext(c, t, events, |FlatMap(AsCallOp, ops[..n])|, ops[n]);
      var step := Step(t, ops[n]).value;
      t, events := step.0, events + [step.1];
    }
  }

  lemma PairedNext(c: CallInfo, t: Helper, events: seq<Event>, k: nat, op: Op)
    requires Paired(c, t, events, k) && (op == Read || (k < |c.inner| && op == OpFor(c.inner[k]))) && Step(t, op).Some?
    ensures var (u, e) := Step(t, op).value;
            u.call == t.call && Paired(c, u, events + [e], if op == Read then k else k + 1)
  {
    if op == Read {
      PairedRead(c, t, events, k);
    } else {
      PairedStep(c, t, events, k);
    }
  }

  lemma {:induction false} FailuresCount(calls: seq<CallInfo>)
    ensures Failures(calls) == 0 <==> NoneFailed(calls)
    decreases |calls|
  {
    if calls != [] {
      var n := |calls| - 1;
      FailuresCount(calls[..n]);
      assert forall i :: 0 <= i < n ==> calls[..n][i] == calls[i];
    }
  }

  /** After all inner calls and reads, the call can be left exactly when no constructor failed;
      then every deploy syscall got the address and the result of its own constructor call. */
  lemma DeployPairing(c: CallInfo, s: Helper, ops: seq<Op>)
    requires JustEntered(c, s) && Follows(c, ops) && FlatMap(AsCallOp, ops) == OpsFor(c.inner)
    requires Run(s, ops).Some? && Run(s, ops).value.0.readValues == []
    ensures var (t, events) := Run(s, ops).value;
            && (Step(t, ExitCall).Some? <==> NoneFailed(c.inner))
            && (NoneFailed(c.inner) ==> FlatMap(AsCallEvent, events) == FlatMap(EventFor, c.inner))
  {
    var _, _ := PairedRun(c, s, ops);
    FailuresCount(c.inner);
    assert c.inner[..|c.inner|] == c.inner;
  }

  /** After a failed constructor, the next deploy syscall gets the failed one's address. */
  lemma MispairedAfterFailure(c: CallInfo, s: Helper, a: CallInfo, b: CallInfo)
    requires JustEntered(c, s) && c.inner == [a, b] && FailedConstructor(a)
    requires b.kind == Constructor && !b.execution.failed
    ensures Run(s, [Deploy, Deploy]).Some?
    ensures Run(s, [Deploy, Deploy]).value.1 == [Called(a.execution), Deployed(b.execution, a.address)]
  {
    assert c.inner[..2] == c.inner && c.inner[..2][..1] == [a] && [a][..0] == [];
    assert FlatMap(AddressIfDeployed, [a]) == [a.address];
    assert DeployedIn(c) == [a.address, b.address];
    assert s.results == [a.execution, b.execution];
    RunAppend(s, [], Deploy);
    RunAppend(s, [Deploy], Deploy);
    assert [] + [Deploy] == [Deploy] && [Deploy] + [Deploy] == [Deploy, Deploy];
  }

  lemma RunAppend(s: Helper, ops: seq<Op>, op: Op)
    requires Run(s, ops).Some? && Step(Run(s, ops).value.0, op).Some?
    ensures var (t, events) := Run(s, ops).value;
            Run(s, ops + [op]) == Some((Step(t, op).value.0, events + [Step(t, op).value.1]))
  {
    assert (ops + [op])[..|ops|] == ops;
  }
}
