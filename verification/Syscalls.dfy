/** Answering syscalls in place: each request in the syscall segment is followed by its answer. */
module Syscalls {
  import opened Basics
  import Replay

  datatype Value = Felt(n: nat) | Pointer(at: Relocatable)

  /** The cells of all segments written so far. */
  type Memory = map<Relocatable, Value>

  function Next(p: Relocatable, n: nat): Relocatable {
    Relocatable(p.segment, p.offset + n)
  }

  // ----- Prices and sizes -----

  const STEP_GAS_COST: nat := 100
  const ENTRY_POINT_GAS_COST: nat := 100 * STEP_GAS_COST + 500 * STEP_GAS_COST
  const SYSCALL_BASE_GAS_COST: nat := 100 * STEP_GAS_COST
  const KECCAK_ROUND_COST: nat := 180000
  const KECCAK_FULL_RATE_IN_U64S: nat := 17

  /** `Foreign` stands for the elliptic curve and SHA-256 syscalls. */
  datatype Kind =
    | CallContract | LibraryCall | Deploy | EmitEvent | GetBlockHash | GetExecutionInfo | StorageRead | StorageWrite
    | SendMessageToL1 | ReplaceClass | Keccak | Foreign(requestSize: nat, gasCost: nat)

  function GasCost(kind: Kind): nat {
    match kind
    case CallContract | LibraryCall => SYSCALL_BASE_GAS_COST + 10 * STEP_GAS_COST + ENTRY_POINT_GAS_COST
    case Deploy => SYSCALL_BASE_GAS_COST + 200 * STEP_GAS_COST + ENTRY_POINT_GAS_COST
    case EmitEvent | GetExecutionInfo => SYSCALL_BASE_GAS_COST + 10 * STEP_GAS_COST
    case GetBlockHash | ReplaceClass | SendMessageToL1 | StorageRead | StorageWrite =>
      SYSCALL_BASE_GAS_COST + 50 * STEP_GAS_COST
    case Keccak => SYSCALL_BASE_GAS_COST
    case Foreign(_, gasCost) => gasCost
  }

  /** What a syscall costs beyond the base price, which was charged before. */
  function FixedPrice(kind: Kind): int {
    GasCost(kind) - SYSCALL_BASE_GAS_COST
  }

  /** The cells of a request after its selector and its gas counter. */
  function RequestSize(kind: Kind): nat {
    match kind
    case CallContract | LibraryCall | EmitEvent => 4
    case Deploy => 5
    case GetBlockHash | ReplaceClass => 1
    case GetExecutionInfo => 0
    case StorageRead | Keccak => 2
    case StorageWrite | SendMessageToL1 => 3
    case Foreign(size, _) => size
  }

  // ----- Memory whose cells are written once -----

  /** Writes the values one after the other; a cell may be written again only with the value it has. */
  function Put(m: Memory, at: Relocatable, values: seq<Value>): Option<Memory> {
    if values == [] then Some(m)
    else
      var n := |values| - 1;
      match Put(m, at, values[..n])
      case None => None
      case Some(m') =>
        var k := Next(at, n);
        if k in m' && m'[k] != values[n] then None else Some(m'[k := values[n]])
  }

  predicate Within(k: Relocatable, at: Relocatable, length: nat) {
    k.segment == at.segment && at.offset <= k.offset < at.offset + length
  }

  /** The cells to be written are free or have the right value already. */
  ghost predicate CanPut(m: Memory, at: Relocatable, values: seq<Value>) {
    forall k | Within(k, at, |values|) && k in m :: m[k] == values[k.offset - at.offset]
  }

  /** Exactly the cells from `at` on have been written. */
  ghost predicate HasPut(m: Memory, at: Relocatable, values: seq<Value>, m': Memory) {
    && (forall k :: k in m' <==> k in m || Within(k, at, |values|))
    && (forall k | k in m' :: m'[k] == if Within(k, at, |values|) then values[k.offset - at.offset] else m[k])
  }

  lemma {:induction false} PutExact(m: Memory, at: Relocatable, values: seq<Value>)
    ensures Put(m, at, values).Some? <==> CanPut(m, at, values)
    ensures Put(m, at, values).Some? ==> HasPut(m, at, values, Put(m, at, values).value)
    decreases |values|
  {
    if values != [] {
      var n := |values| - 1;
      PutExact(m, at, values[..n]);
      assert forall k :: Within(k, at, |values|) <==> Within(k, at, n) || k == Next(at, n);
      assert Within(Next(at, n), at, |values|);
    }
  }

  lemma {:induction false} PutStops(m: Memory, at: Relocatable, values: seq<Value>, n: nat)
    requires n <= |values| && Put(m, at, values[..n]).None?
    ensures Put(m, at, values).None?
    decreases |values|
  {
    if n < |values| {
      var front := values[..|values| - 1];
      assert front[..n] == values[..n];
      PutStops(m, at, front, n);
    } else {
      assert values[..n] == values;
    }
  }

  function FeltAt(m: Memory, at: Relocatable): Option<nat> {
    if at in m && m[at].Felt? then Some(m[at].n) else None
  }

  function PointerAt(m: Memory, at: Relocatable): Option<Relocatable> {
    if at in m && m[at].Pointer? then Some(m[at].at) else None
  }

  /** The felts in a range of cells; `None` if one is missing, no felt, or too large for `u64`. */
  function WordsAt(m: Memory, at: Relocatable, n: nat): Option<seq<nat>> {
    if n == 0 then Some([])
    else
      match WordsAt(m, at, n - 1)
      case None => None
      case Some(words) =>
        match FeltAt(m, Next(at, n - 1))
        case None => None
        case Some(w) => if w < USIZE then Some(words + [w]) else None
  }

  function Felts(data: seq<nat>): (r: seq<Value>)
    ensures |r| == |data|
  {
    seq(|data|, i requires 0 <= i < |data| => Felt(data[i]))
  }

  // ----- Executing a request -----

  /** What lies outside of the handlers. */
  datatype Env = Env(
    selectors: nat -> Option<Kind>, blockHashes: nat -> Option<nat>, lacksConstructor: nat -> Option<bool>,
    keccak: seq<nat> -> (nat, nat))

  /** How a foreign syscall ends. */
  datatype Outcome = Responded(spent: nat, cells: seq<Value>) | Reverted(spent: nat, data: seq<nat>)

  /** An executed request: what was taken from the replay, the gas it spent beyond the fixed
      price, the data loaded into a new segment, and the cells that answer it. */
  datatype Executed = Executed(
    helper: Replay.Helper, event: Option<Replay.Event>, rounds: nat, spent: nat, failed: bool,
    loaded: Option<seq<nat>>, cells: seq<Value>)

  /** The start and the end of data in a new segment. */
  function Bounds(segment: nat, data: seq<nat>): seq<Value> {
    [Pointer(Relocatable(segment, 0)), Pointer(Relocatable(segment, |data|))]
  }

  /** Return data, or the data of a failure, which are reported in the same way. */
  function Returned(helper: Replay.Helper, event: Replay.Event, result: Replay.CallResult, segment: nat): Executed {
    Executed(helper, Some(event), 0, result.gasConsumed, result.failed, Some(result.retdata),
             Bounds(segment, result.retdata))
  }

  function ExecuteCall(helper: Replay.Helper, segment: nat): Option<Executed> {
    match Replay.Step(helper, Replay.Call)
    case None => None
    case Some((h, e)) => if e.Called? then Some(Returned(h, e, e.result, segment)) else None
  }

  function ExecuteDeploy(env: Env, helper: Replay.Helper, segment: nat): Option<Executed> {
    match Replay.Step(helper, Replay.Deploy)
    case None => None
    case Some((h, e)) =>
      if e.Called? then Some(Returned(h, e, e.result, segment))
      else if e.Deployed? then
        match env.lacksConstructor(e.address)
        case None => None
        case Some(lacks) =>
          var x := Returned(h, e, e.result, segment);
          Some(x.(cells := [Felt(e.address)] + if lacks then [Felt(0), Felt(0)] else x.cells))
      else None
  }

  function ExecuteRead(helper: Replay.Helper): Option<Executed> {
    match Replay.Step(helper, Replay.Read)
    case None => None
    case Some((h, e)) =>
      if e.ReadValue? then Some(Executed(h, Some(e), 0, 0, false, None, [Felt(e.value)])) else None
  }

  /** The code for an invalid input length. */
  const INVALID_INPUT_LENGTH: nat := 0x496e76616c696420696e707574206c656e677468

  function ExecuteKeccak(env: Env, m: Memory, helper: Replay.Helper, at: Relocatable, gas: nat, segment: nat)
    : Option<Executed>
  {
    var start, end := PointerAt(m, at), PointerAt(m, Next(at, 1));
    if start.None? || end.None?
       || start.value.segment != end.value.segment || end.value.offset < start.value.offset then None
    else
      var length := end.value.offset - start.value.offset;
      var rounds := length / KECCAK_FULL_RATE_IN_U64S;
      if length % KECCAK_FULL_RATE_IN_U64S != 0 then
        Some(Executed(helper, None, 0, 0, true, Some([INVALID_INPUT_LENGTH]), Bounds(segment, [INVALID_INPUT_LENGTH])))
      else if rounds * KECCAK_ROUND_COST > gas then None
      else
        match WordsAt(m, start.value, length)
        case None => None
        case Some(words) =>
          var (low, high) := env.keccak(words);
          Some(Executed(helper, None, rounds, rounds * KECCAK_ROUND_COST, false, None, [Felt(low), Felt(high)]))
  }

  function Simple(helper: Replay.Helper, cells: seq<Value>): Executed {
    Executed(helper, None, 0, 0, false, None, cells)
  }

  /** Executes the request at `at` with `gas` left; `None` stands for an error of the host. */
  function Execute(env: Env, m: Memory, segment: nat, helper: Replay.Helper, kind: Kind, at: Relocatable, gas: nat,
                   foreign: Option<Outcome>): Option<Executed> {
    match kind
    case CallContract | LibraryCall => ExecuteCall(helper, segment)
    case Deploy => ExecuteDeploy(env, helper, segment)
    case EmitEvent | SendMessageToL1 | ReplaceClass => Some(Simple(helper, []))
    case StorageWrite => if FeltAt(m, at) == Some(0) then Some(Simple(helper, [])) else None
    case StorageRead => if FeltAt(m, at) == Some(0) then ExecuteRead(helper) else None
    case GetExecutionInfo =>
      if helper.callInfoPtr.Some? then Some(Simple(helper, [Pointer(helper.callInfoPtr.value)])) else None
    case GetBlockHash =>
      (match FeltAt(m, at)
       case None => None
       case Some(n) =>
         match env.blockHashes(n)
         case None => None
         case Some(hash) => Some(Simple(helper, [Felt(hash)])))
    case Keccak => ExecuteKeccak(env, m, helper, at, gas, segment)
    case Foreign(_, _) =>
      match foreign
      case None => None
      case Some(Responded(spent, cells)) => Some(Executed(helper, None, 0, spent, false, None, cells))
      case Some(Reverted(spent, data)) =>
        Some(Executed(helper, None, 0, spent, true, Some(data), Bounds(segment, data)))
  }

  // ----- Frames -----

  /** The code for running out of gas. */
  const OUT_OF_GAS: nat := 0x4f7574206f6620676173

  /** A completed syscall: its request with its gas counter, the gas left, the number of the new
      segment if there is one, and how it was executed. */
  datatype Frame = Frame(start: Relocatable, kind: Kind, gas: nat, left: nat, segment: nat, x: Executed) {
    /** The gas counter does not cover the fixed price. */
    predicate Early() {
      gas < FixedPrice(kind)
    }

    /** The size of the selector, the gas counter and the request. */
    function Request(): nat {
      2 + RequestSize(kind)
    }

    /** The early exit answers right after the gas counter, before it has read the request. */
    function AnswerAt(): Relocatable {
      Next(start, if Early() then 2 else Request())
    }

    function Answer(): (cells: seq<Value>)
      ensures |cells| >= 2
    {
      [Felt(left), Felt(if x.failed then 1 else 0)] + x.cells
    }

    function End(): Relocatable {
      Next(AnswerAt(), |Answer()|)
    }
  }

  datatype Vm = Vm(memory: Memory, segments: nat, ptr: Option<Relocatable>, helper: Replay.Helper)

  /** Runs the handler of a request with the given gas counter; `None` stands for an error of the host. */
  function Handle(env: Env, s: Vm, start: Relocatable, kind: Kind, gas: nat, foreign: Option<Outcome>): Option<Frame> {
    if GasCost(kind) < SYSCALL_BASE_GAS_COST then None
    else if gas < FixedPrice(kind) then
      Some(Frame(start, kind, gas, gas, s.segments,
                 Executed(s.helper, None, 0, 0, true, Some([OUT_OF_GAS]), Bounds(s.segments, [OUT_OF_GAS]))))
    else
      var left := gas - FixedPrice(kind);
      match Execute(env, s.memory, s.segments, s.helper, kind, Next(start, 2), left, foreign)
      case None => None
      case Some(x) => if x.spent > left then None else Some(Frame(start, kind, gas, left - x.spent, s.segments, x))
  }

  /** Loads data into a new segment. */
  function Load(m: Memory, segment: nat, loaded: Option<seq<nat>>): Option<Memory> {
    match loaded
    case None => Some(m)
    case Some(data) => Put(m, Relocatable(segment, 0), Felts(data))
  }

  function WriteFrame(s: Vm, f: Frame): Option<Vm> {
    match Load(s.memory, s.segments, f.x.loaded)
    case None => None
    case Some(m) =>
      match Put(m, f.AnswerAt(), f.Answer())
      case None => None
      case Some(m') =>
        Some(Vm(m', if f.x.loaded.Some? then s.segments + 1 else s.segments, Some(f.End()), f.x.helper))
  }

  /** Runs the handler of the request at `start`. */
  function FrameOf(env: Env, s: Vm, start: Relocatable, kind: Kind, foreign: Option<Outcome>): Option<Frame> {
    match FeltAt(s.memory, Next(start, 1))
    case None => None
    case Some(gas) => if gas < USIZE then Handle(env, s, start, kind, gas, foreign) else None
  }

  /** The kind of the next syscall, whose selector must be where the syscall pointer is. */
  function KindAt(env: Env, s: Vm, at: Relocatable): Option<Kind> {
    if s.ptr != Some(at) then None
    else
      match FeltAt(s.memory, at)
      case None => None
      case Some(selector) => env.selectors(selector)
  }

  function FrameAt(env: Env, s: Vm, at: Relocatable, foreign: Option<Outcome>): Option<Frame> {
    match KindAt(env, s, at)
    case None => None
    case Some(kind) => FrameOf(env, s, at, kind, foreign)
  }

  function Written(s: Vm, f: Option<Frame>): Option<Vm> {
    match f
    case None => None
    case Some(frame) => WriteFrame(s, frame)
  }

  function DoSyscall(env: Env, s: Vm, at: Relocatable, foreign: Option<Outcome>): Option<Vm> {
    Written(s, FrameAt(env, s, at, foreign))
  }

  // ----- The handler -----

  class SyscallHandler {
    var memory: Memory
    var segments: nat
    var ptr: Option<Relocatable>
    const helper: Replay.ExecutionHelper

    constructor (memory: Memory, segments: nat, helper: Replay.ExecutionHelper)
      ensures this.memory == memory && this.segments == segments && this.helper == helper && ptr == None
    {
      this.memory, this.segments, this.helper, this.ptr := memory, segments, helper, None;
    }

    function View(): Vm
      reads this, helper
    {
      Vm(memory, segments, ptr, helper.View())
    }

    /** Writes cells from `at` on; the result is the cell after them. */
    method WriteValues(at: Relocatable, values: seq<Value>) returns (r: Result<Relocatable>)
      modifies `memory
      ensures var put := Put(old(memory), at, values);
              r == (if put.Some? then Ok(Next(at, |values|)) else Err) && (r.Ok? ==> memory == put.value)
    {
      var p := at;
      for n := 0 to |values|
        invariant p == Next(at, n) && Put(old(memory), at, values[..n]) == Some(memory)
      {
        assert values[..n + 1][..n] == values[..n];
        if p in memory && memory[p] != values[n] {
          PutStops(old(memory), at, values, n + 1);
          return Err;
        }
        memory := memory[p := values[n]];
        p := Next(p, 1);
      }
      assert values[..|values|] == values;
      r := Ok(p);
    }

    method ReplayCall() returns (r: Result<Executed>)
      modifies helper
      ensures var e := ExecuteCall(old(helper.View()), segments);
              r.Ok? == e.Some? && (r.Ok? ==> r.value == e.value && helper.View() == e.value.helper)
    {
      var result := helper.ReplayCall();
      if result.None? {
        return Err;
      }
      r := Ok(Returned(helper.View(), Replay.Called(result.value), result.value, segments));
    }

    method ReplayDeploy(env: Env) returns (r: Result<Executed>)
      modifies helper
      ensures var e := ExecuteDeploy(env, old(helper.View()), segments);
              r.Ok? == e.Some? && (r.Ok? ==> r.value == e.value && helper.View() == e.value.helper)
    {
      var event := helper.ReplayDeploy();
      if event.None? {
        return Err;
      }
      if event.value.Called? {
        return Ok(Returned(helper.View(), event.value, event.value.result, segments));
      }
      var lacks := env.lacksConstructor(event.value.address);
      if lacks.None? {
        return Err;
      }
      var x := Returned(helper.View(), event.value, event.value.result, segments);
      var address := Felt(event.value.address);
      r := Ok(x.(cells := [address] + if lacks.value then [Felt(0), Felt(0)] else x.cells));
    }

    method ReplayRead() returns (r: Result<Executed>)
      modifies helper
      ensures var e := ExecuteRead(old(helper.View()));
              r.Ok? == e.Some? && (r.Ok? ==> r.value == e.value && helper.View() == e.value.helper)
    {
      var value := helper.ReplayRead();
      if value.None? {
        return Err;
      }
      r := Ok(Executed(helper.View(), Some(Replay.ReadValue(value.value)), 0, 0, false, None, [Felt(value.value)]));
    }

    method ReadWords(at: Relocatable, n: nat) returns (r: Option<seq<nat>>)
      ensures r == WordsAt(memory, at, n)
    {
      var words := [];
      for i := 0 to n
        invariant WordsAt(memory, at, i) == Some(words)
      {
        var w := FeltAt(memory, Next(at, i));
        if w.None? || w.value >= USIZE {
          WordsStop(memory, at, i + 1, n);
          return None;
        }
        words := words + [w.value];
      }
      r := Some(words);
    }

    method HashKeccak(env: Env, at: Relocatable, gas: nat) returns (r: Result<Executed>)
      ensures var e := ExecuteKeccak(env, memory, helper.View(), at, gas, segments);
              r == if e.Some? then Ok(e.value) else Err
    {
      var start, end := PointerAt(memory, at), PointerAt(memory, Next(at, 1));
      if start.None? || end.None? || start.value.segment != end.value.segment || end.value.offset < start.value.offset {
        return Err;
      }
      var length := end.value.offset - start.value.offset;
      var rounds, remainder := length / KECCAK_FULL_RATE_IN_U64S, length % KECCAK_FULL_RATE_IN_U64S;
      if remainder != 0 {
        return Ok(Executed(helper.View(), None, 0, 0, true, Some([INVALID_INPUT_LENGTH]),
                           Bounds(segments, [INVALID_INPUT_LENGTH])));
      }
      var cost := rounds * KECCAK_ROUND_COST;
      if cost > gas {
        return Err;
      }
      var words := ReadWords(start.value, length);
      if words.None? {
        return Err;
      }
      var (low, high) := env.keccak(words.value);
      r := Ok(Executed(helper.View(), None, rounds, cost, false, None, [Felt(low), Felt(high)]));
    }

    /** Executes a request in the way of its kind. */
    method ExecuteRequest(env: Env, kind: Kind, at: Relocatable, gas: nat, foreign: Option<Outcome>)
      returns (r: Result<Executed>)
      modifies helper
      ensures var e := Execute(env, memory, segments, old(helper.View()), kind, at, gas, foreign);
              r.Ok? == e.Some? && (r.Ok? ==> r.value == e.value && helper.View() == e.value.helper)
    {
      match kind
      case CallContract | LibraryCall => r := ReplayCall();
      case Deploy => r := ReplayDeploy(env);
      case StorageRead =>
        if FeltAt(memory, at) != Some(0) {
          return Err;
        }
        r := ReplayRead();
      case Keccak => r := HashKeccak(env, at, gas);
      case _ =>
        var e := Execute(env, memory, segments, helper.View(), kind, at, gas, foreign);
        r := if e.Some? then Ok(e.value) else Err;
    }

    /** Writes the answer of a frame, after loading its data into a new segment. */
    method WriteAnswer(f: Frame) returns (r: Result<Relocatable>)
      modifies `memory, `segments
      ensures var w := WriteFrame(old(View()), f);
              && r.Ok? == w.Some?
              && (r.Ok? ==> w.value.memory == memory && w.value.segments == segments && w.value.ptr == Some(r.value))
    {
      if f.x.loaded.Some? {
        var _ :- WriteValues(Relocatable(segments, 0), Felts(f.x.loaded.value));
        segments := segments + 1;
      }
      r := WriteValues(f.AnswerAt(), f.Answer());
    }

    /** Charges and executes the request at `start`. */
    method HandleRequest(env: Env, start: Relocatable, kind: Kind, gas: nat, foreign: Option<Outcome>)
      returns (r: Result<Frame>)
      modifies helper
      ensures var f := Handle(env, old(View()), start, kind, gas, foreign);
              r.Ok? == f.Some? && (r.Ok? ==> r.value == f.value && helper.View() == f.value.x.helper)
    {
      if GasCost(kind) < SYSCALL_BASE_GAS_COST {
        return Err;
      }
      var required := GasCost(kind) - SYSCALL_BASE_GAS_COST;
      if gas < required {
        var x := Executed(helper.View(), None, 0, 0, true, Some([OUT_OF_GAS]), Bounds(segments, [OUT_OF_GAS]));
        return Ok(Frame(start, kind, gas, gas, segments, x));
      }
      var remaining := gas - required;
      var x :- ExecuteRequest(env, kind, Next(start, 2), remaining, foreign);
      r := if x.spent > remaining then Err else Ok(Frame(start, kind, gas, remaining - x.spent, segments, x));
    }

    /** Runs the handler of the request at `start`; the result is the cell after its answer. */
    method RunHandler(env: Env, start: Relocatable, kind: Kind, foreign: Option<Outcome>)
      returns (r: Result<Relocatable>)
      modifies `memory, `segments, helper
      ensures var w := Written(old(View()), FrameOf(env, old(View()), start, kind, foreign));
              && r.Ok? == w.Some?
              && (r.Ok? ==> w.value == Vm(memory, segments, Some(r.value), helper.View()))
    {
      ghost var s := View();
      var gas := FeltAt(memory, Next(start, 1));
      if gas.None? || gas.value >= USIZE {
        return Err;
      }
      var f :- HandleRequest(env, start, kind, gas.value, foreign);
      assert FrameOf(env, s, start, kind, foreign) == Some(f);
      r := WriteAnswer(f);
    }

    method ExecuteSyscall(env: Env, at: Relocatable, foreign: Option<Outcome>) returns (r: Result<()>)
      modifies this, helper
      ensures var t := DoSyscall(env, old(View()), at, foreign);
              r.Ok? == t.Some? && (r.Ok? ==> View() == t.value)
    {
      var kind := KindAt(env, View(), at);
      if kind.None? {
        return Err;
      }
      var end :- RunHandler(env, at, kind.value, foreign);
      ptr := Some(end);
      r := Ok(());
    }

    /** The calling program's end of the segment must be where the handler stopped. */
    method ValidateAndDiscardSyscallPtr(end: Relocatable) returns (r: Result<()>)
      modifies `ptr
      ensures r.Ok? <==> old(ptr) == Some(end)
      ensures r.Ok? ==> ptr == None
    {
      if ptr != Some(end) {
        return Err;
      }
      ptr := None;
      r := Ok(());
    }
  }

  lemma {:induction false} WordsStop(m: Memory, at: Relocatable, i: nat, n: nat)
    requires i <= n && WordsAt(m, at, i).None?
    ensures WordsAt(m, at, n).None?
    decreases n
  {
    if i < n {
      WordsStop(m, at, i, n - 1);
    }
  }

  // ----- What a frame leaves in memory -----

  /** All cells lie in segments that exist. */
  ghost predicate Sane(s: Vm) {
    (forall k | k in s.memory :: k.segment < s.segments) && (s.ptr.Some? ==> s.ptr.value.segment < s.segments)
  }

  ghost predicate Kept(m: Memory, m': Memory) {
    forall k | k in m :: k in m' && m'[k] == m[k]
  }

  ghost predicate Holds(m: Memory, at: Relocatable, values: seq<Value>) {
    forall i :: 0 <= i < |values| ==> CellIs(m, Next(at, i), values[i])
  }

  predicate CellIs(m: Memory, k: Relocatable, v: Value) {
    k in m && m[k] == v
  }

  lemma PutHolds(m: Memory, at: Relocatable, values: seq<Value>, m': Memory)
    requires Put(m, at, values) == Some(m')
    ensures Kept(m, m') && Holds(m', at, values) && HasPut(m, at, values, m')
  {
    PutExact(m, at, values);
    forall i | 0 <= i < |values|
      ensures CellIs(m', Next(at, i), values[i])
    {
      assert Within(Next(at, i), at, |values|);
    }
  }

  /** A new segment can always be filled. */
  lemma LoadHolds(s: Vm, loaded: Option<seq<nat>>) returns (m: Memory)
    requires Sane(s)
    ensures Load(s.memory, s.segments, loaded) == Some(m) && Kept(s.memory, m)
    ensures forall k: Relocatable :: k.segment < s.segments ==> (k in m <==> k in s.memory)
    ensures forall k | k in m :: k.segment <= s.segments && (k.segment == s.segments ==> loaded.Some?)
    ensures loaded.Some? ==> Holds(m, Relocatable(s.segments, 0), Felts(loaded.value))
  {
    match loaded
    case None => m := s.memory;
    case Some(data) =>
      PutExact(s.memory, Relocatable(s.segments, 0), Felts(data));
      m := Put(s.memory, Relocatable(s.segments, 0), Felts(data)).value;
      PutHolds(s.memory, Relocatable(s.segments, 0), Felts(data), m);
  }

  lemma HoldsKept(m: Memory, m': Memory, at: Relocatable, values: seq<Value>)
    requires Holds(m, at, values) && Kept(m, m')
    ensures Holds(m', at, values)
  {
    forall i | 0 <= i < |values|
      ensures CellIs(m', Next(at, i), values[i])
    {
      assert CellIs(m, Next(at, i), values[i]);
    }
  }

  /** A frame adds its answer and the data it loads; it can be written exactly when the cells of
      the answer are free or have the right values. */
  lemma FrameWritten(s: Vm, f: Frame)
    requires Sane(s) && f.start.segment < s.segments
    ensures WriteFrame(s, f).Some? <==> CanPut(s.memory, f.AnswerAt(), f.Answer())
    ensures WriteFrame(s, f).Some? ==>
      var t := WriteFrame(s, f).value;
      && Sane(t) && Kept(s.memory, t.memory) && Holds(t.memory, f.AnswerAt(), f.Answer())
      && (forall k: Relocatable :: k.segment < s.segments ==>
            (k in t.memory <==> k in s.memory || Within(k, f.AnswerAt(), |f.Answer()|)))
      && (f.x.loaded.Some? ==> Holds(t.memory, Relocatable(s.segments, 0), Felts(f.x.loaded.value)))
  {
    var m := LoadHolds(s, f.x.loaded);
    PutExact(m, f.AnswerAt(), f.Answer());
    assert CanPut(m, f.AnswerAt(), f.Answer()) <==> CanPut(s.memory, f.AnswerAt(), f.Answer());
    if WriteFrame(s, f).Some? {
      var t := WriteFrame(s, f).value;
      PutHolds(m, f.AnswerAt(), f.Answer(), t.memory);
      if f.x.loaded.Some? {
        HoldsKept(m, t.memory, Relocatable(s.segments, 0), Felts(f.x.loaded.value));
      }
    }
  }

  /** What is known of a frame when it is made. */
  lemma FrameFacts(env: Env, s: Vm, at: Relocatable, foreign: Option<Outcome>)
    requires FrameAt(env, s, at, foreign).Some?
    ensures var f := FrameAt(env, s, at, foreign).value;
            && s.ptr == Some(f.start) && f.start == at && f.segment == s.segments
            && FeltAt(s.memory, Next(f.start, 1)) == Some(f.gas)
            && (f.Early() ==> f.left == f.gas)
            && (!f.Early() ==> f.gas == f.left + FixedPrice(f.kind) + f.x.spent)
  {
  }

  /** The early exit fails on a request whose first cell differs from the gas counter. */
  lemma EarlyExitFails(env: Env, s: Vm, at: Relocatable, foreign: Option<Outcome>)
    requires Sane(s) && FrameAt(env, s, at, foreign).Some? && FrameAt(env, s, at, foreign).value.Early()
    requires Next(at, 2) in s.memory && s.memory[Next(at, 2)] != s.memory[Next(at, 1)]
    ensures DoSyscall(env, s, at, foreign).None?
  {
    var f := FrameAt(env, s, at, foreign).value;
    FrameFacts(env, s, at, foreign);
    FrameWritten(s, f);
    var k := Next(at, 2);
    assert Within(k, f.AnswerAt(), |f.Answer()|) && f.Answer()[0] == Felt(f.gas);
  }

  // ----- Whole runs -----

  /** Between syscalls the calling program writes cells of its own. */
  datatype Action = Syscall(at: Relocatable, foreign: Option<Outcome>) | ProgramWrite(at: Relocatable, value: Value)

  function Do(env: Env, s: Vm, a: Action): Option<(Vm, seq<Frame>)> {
    match a
    case Syscall(at, foreign) =>
      (match FrameAt(env, s, at, foreign)
       case None => None
       case Some(f) =>
         match WriteFrame(s, f)
         case None => None
         case Some(t) => Some((t, [f])))
    case ProgramWrite(at, value) =>
      if at.segment >= s.segments then None
      else
        match Put(s.memory, at, [value])
        case None => None
        case Some(m) => Some((s.(memory := m), []))
  }

  function Run(env: Env, s: Vm, actions: seq<Action>): Option<(Vm, seq<Frame>)> {
    if actions == [] then Some((s, []))
    else
      var n := |actions| - 1;
      match Run(env, s, actions[..n])
      case None => None
      case Some((t, frames)) =>
        match Do(env, t, actions[n])
        case None => None
        case Some((u, more)) => Some((u, frames + more))
  }

  /** The frames lie one after the other from `p` to `q`. */
  predicate Tiles(p: Relocatable, frames: seq<Frame>, q: Relocatable) {
    if frames == [] then p == q
    else var n := |frames| - 1; q == frames[n].End() && Tiles(p, frames[..n], frames[n].start)
  }

  lemma TilesAppend(p: Relocatable, frames: seq<Frame>, f: Frame)
    requires Tiles(p, frames, f.start)
    ensures Tiles(p, frames + [f], f.End())
  {
    assert (frames + [f])[..|frames|] == frames;
  }

  /** The syscall pointer walks over the frames of a run. */
  lemma {:induction false} RunTiles(env: Env, s: Vm, actions: seq<Action>, p: Relocatable)
    requires Run(env, s, actions).Some? && s.ptr == Some(p)
    ensures var (t, frames) := Run(env, s, actions).value; t.ptr.Some? && Tiles(p, frames, t.ptr.value)
    decreases |actions|
  {
    if actions != [] {
      var n := |actions| - 1;
      RunTiles(env, s, actions[..n], p);
      var (t, frames) := Run(env, s, actions[..n]).value;
      DoTiles(env, t, actions[n], p, frames);
    }
  }

  lemma DoTiles(env: Env, t: Vm, a: Action, p: Relocatable, frames: seq<Frame>)
    requires Do(env, t, a).Some? && t.ptr.Some? && Tiles(p, frames, t.ptr.value)
    ensures var (u, more) := Do(env, t, a).value; u.ptr.Some? && Tiles(p, frames + more, u.ptr.value)
  {
    match a
    case Syscall(at, foreign) =>
      FrameFacts(env, t, at, foreign);
      TilesAppend(p, frames, FrameAt(env, t, at, foreign).value);
    case ProgramWrite(_, _) =>
      assert frames + [] == frames;
  }

  lemma {:induction false} TilesOrdered(p: Relocatable, frames: seq<Frame>, q: Relocatable, i: nat)
    requires Tiles(p, frames, q) && i < |frames|
    ensures p.segment == frames[i].start.segment == q.segment
    ensures p.offset <= frames[i].start.offset && frames[i].End().offset <= q.offset
    ensures forall j :: i < j < |frames| ==> frames[i].End().offset <= frames[j].start.offset
    decreases |frames|
  {
    var n := |frames| - 1;
    TilesBelow(p, frames[..n], frames[n].start);
    if i < n {
      TilesOrdered(p, frames[..n], frames[n].start, i);
      assert forall j :: i < j < n ==> frames[..n][j] == frames[j];
    }
  }

  lemma {:induction false} TilesBelow(p: Relocatable, frames: seq<Frame>, q: Relocatable)
    requires Tiles(p, frames, q)
    ensures p.segment == q.segment && p.offset <= q.offset
    decreases |frames|
  {
    if frames != [] {
      TilesBelow(p, frames[..|frames| - 1], frames[|frames| - 1].start);
    }
  }

  predicate RequestCell(f: Frame, k: Relocatable) {
    Within(k, f.start, f.Request())
  }

  predicate AnswerCell(f: Frame, k: Relocatable) {
    Within(k, f.AnswerAt(), |f.Answer()|)
  }

  /** No cell is part of two answers, however the syscalls end. */
  lemma AnswersDisjoint(env: Env, s: Vm, actions: seq<Action>, i: nat, j: nat, k: Relocatable)
    requires Run(env, s, actions).Some? && s.ptr.Some?
    requires i < |Run(env, s, actions).value.1| && j < |Run(env, s, actions).value.1| && i != j
    ensures var frames := Run(env, s, actions).value.1; !(AnswerCell(frames[i], k) && AnswerCell(frames[j], k))
  {
    RunTiles(env, s, actions, s.ptr.value);
    var (t, frames) := Run(env, s, actions).value;
    TilesOrdered(s.ptr.value, frames, t.ptr.value, i);
    TilesOrdered(s.ptr.value, frames, t.ptr.value, j);
  }

  /** No cell of a request, which the program writes, is written by an answer. */
  ghost predicate RequestsUntouched(frames: seq<Frame>) {
    forall i, j, k | 0 <= i < |frames| && 0 <= j < |frames| ::
      !(RequestCell(frames[i], k) && AnswerCell(frames[j], k))
  }

  /** The early exit spares the request only if there is none. */
  predicate InPlace(f: Frame) {
    f.Early() ==> RequestSize(f.kind) == 0
  }

  /** Requests stay untouched over a run exactly when every syscall with a request has enough gas
      for its fixed price. */
  lemma RequestsUntouchedExactly(env: Env, s: Vm, actions: seq<Action>)
    requires Run(env, s, actions).Some? && s.ptr.Some?
    ensures var frames := Run(env, s, actions).value.1;
            RequestsUntouched(frames) <==> forall i :: 0 <= i < |frames| ==> InPlace(frames[i])
  {
    RunTiles(env, s, actions, s.ptr.value);
    var (t, frames) := Run(env, s, actions).value;
    if forall i :: 0 <= i < |frames| ==> InPlace(frames[i]) {
      forall i, j, k | 0 <= i < |frames| && 0 <= j < |frames|
        ensures !(RequestCell(frames[i], k) && AnswerCell(frames[j], k))
      {
        TilesOrdered(s.ptr.value, frames, t.ptr.value, i);
        TilesOrdered(s.ptr.value, frames, t.ptr.value, j);
      }
    }
    if RequestsUntouched(frames) {
      forall i | 0 <= i < |frames|
        ensures InPlace(frames[i])
      {
        var k := Next(frames[i].start, 2);
        assert !(RequestCell(frames[i], k) && AnswerCell(frames[i], k));
      }
    }
  }

  // ----- What a run leaves in memory -----

  /** The gas counter, the answer and the data of a frame are in memory. */
  ghost predicate InMemory(m: Memory, f: Frame) {
    && CellIs(m, Next(f.start, 1), Felt(f.gas)) && Holds(m, f.AnswerAt(), f.Answer())
    && (f.x.loaded.Some? ==> Holds(m, Relocatable(f.segment, 0), Felts(f.x.loaded.value)))
  }

  lemma InMemoryKept(m: Memory, m': Memory, f: Frame)
    requires InMemory(m, f) && Kept(m, m')
    ensures InMemory(m', f)
  {
    HoldsKept(m, m', f.AnswerAt(), f.Answer());
    if f.x.loaded.Some? {
      HoldsKept(m, m', Relocatable(f.segment, 0), Felts(f.x.loaded.value));
    }
  }

  ghost predicate AllInMemory(m: Memory, frames: seq<Frame>) {
    forall i :: 0 <= i < |frames| ==> InMemory(m, frames[i])
  }

  /** A cell that the program writes. */
  ghost predicate ProgramCell(actions: seq<Action>, k: Relocatable) {
    exists i :: 0 <= i < |actions| && actions[i].ProgramWrite? && actions[i].at == k
  }

  ghost predicate AnyAnswerCell(frames: seq<Frame>, k: Relocatable) {
    exists i :: 0 <= i < |frames| && AnswerCell(frames[i], k)
  }

  lemma DoKeeps(env: Env, s: Vm, a: Action)
    requires Sane(s) && Do(env, s, a).Some?
    ensures var (t, more) := Do(env, s, a).value;
            Sane(t) && Kept(s.memory, t.memory) && s.segments <= t.segments && AllInMemory(t.memory, more)
  {
    match a
    case Syscall(at, foreign) =>
      FrameFacts(env, s, at, foreign);
      FrameWritten(s, FrameAt(env, s, at, foreign).value);
    case ProgramWrite(at, value) =>
      PutHolds(s.memory, at, [value], Put(s.memory, at, [value]).value);
  }

  /** A run changes no cell, and in the end all frames are in memory. */
  lemma {:induction false} RunKeeps(env: Env, s: Vm, actions: seq<Action>)
    requires Sane(s) && Run(env, s, actions).Some?
    ensures var (t, frames) := Run(env, s, actions).value;
            Sane(t) && Kept(s.memory, t.memory) && s.segments <= t.segments && AllInMemory(t.memory, frames)
    decreases |actions|
  {
    if actions != [] {
      var n := |actions| - 1;
      RunKeeps(env, s, actions[..n]);
      var (t, frames) := Run(env, s, actions[..n]).value;
      DoKeeps(env, t, actions[n]);
      var (u, more) := Do(env, t, actions[n]).value;
      forall i | 0 <= i < |frames|
        ensures InMemory(u.memory, frames[i])
      {
        InMemoryKept(t.memory, u.memory, frames[i]);
      }
    }
  }

  lemma DoWrites(env: Env, s: Vm, a: Action, k: Relocatable)
    requires Sane(s) && Do(env, s, a).Some? && k.segment < s.segments
    ensures var (t, more) := Do(env, s, a).value;
            k in t.memory <==> k in s.memory || AnyAnswerCell(more, k) || (a.ProgramWrite? && a.at == k)
  {
    match a
    case Syscall(at, foreign) =>
      FrameFacts(env, s, at, foreign);
      var f := FrameAt(env, s, at, foreign).value;
      FrameWritten(s, f);
      assert AnyAnswerCell([f], k) <==> AnswerCell(f, k) by {
        assert [f][0] == f;
      }
    case ProgramWrite(at, value) =>
      PutHolds(s.memory, at, [value], Put(s.memory, at, [value]).value);
      assert Within(k, at, 1) <==> k == at;
  }

  lemma AnyAnswerAppend(frames: seq<Frame>, more: seq<Frame>, k: Relocatable)
    ensures AnyAnswerCell(frames + more, k) <==> AnyAnswerCell(frames, k) || AnyAnswerCell(more, k)
  {
    var all := frames + more;
    assert forall i :: 0 <= i < |frames| ==> all[i] == frames[i];
    if AnyAnswerCell(more, k) {
      var i :| 0 <= i < |more| && AnswerCell(more[i], k);
      assert all[|frames| + i] == more[i];
    }
    if AnyAnswerCell(all, k) {
      var i :| 0 <= i < |all| && AnswerCell(all[i], k);
      assert if i < |frames| then all[i] == frames[i] else all[i] == more[i - |frames|];
    }
  }

  lemma ProgramCellLast(actions: seq<Action>, n: nat, k: Relocatable)
    requires |actions| == n + 1
    ensures ProgramCell(actions, k)
            <==> ProgramCell(actions[..n], k) || (actions[n].ProgramWrite? && actions[n].at == k)
  {
    if ProgramCell(actions[..n], k) {
      var i :| 0 <= i < n && actions[..n][i].ProgramWrite? && actions[..n][i].at == k;
      assert actions[i].at == k;
    }
    if ProgramCell(actions, k) {
      var i :| 0 <= i < |actions| && actions[i].ProgramWrite? && actions[i].at == k;
      assert i < n ==> actions[..n][i] == actions[i];
    }
  }

  /** In the segments there were, a run writes the answers and what the program writes, and nothing else. */
  lemma {:induction false} RunWrites(env: Env, s: Vm, actions: seq<Action>, k: Relocatable)
    requires Sane(s) && Run(env, s, actions).Some? && k.segment < s.segments
    ensures var (t, frames) := Run(env, s, actions).value;
            k in t.memory <==> k in s.memory || AnyAnswerCell(frames, k) || ProgramCell(actions, k)
    decreases |actions|
  {
    if actions != [] {
      var n := |actions| - 1;
      RunWrites(env, s, actions[..n], k);
      RunKeeps(env, s, actions[..n]);
      var (t, frames) := Run(env, s, actions[..n]).value;
      DoWrites(env, t, actions[n], k);
      AnyAnswerAppend(frames, Do(env, t, actions[n]).value.1, k);
      ProgramCellLast(actions, n, k);
    }
  }

  // ----- Syscalls and the replay -----

  /** What a syscall does in the replay. */
  function OpOf(f: Frame): seq<Replay.Op> {
    if f.Early() then []
    else
      match f.kind
      case CallContract | LibraryCall => [Replay.Call]
      case Deploy => [Replay.Deploy]
      case StorageRead => [Replay.Read]
      case _ => []
  }

  function EventOf(f: Frame): seq<Replay.Event> {
    AsList(f.x.event)
  }

  /** `ops` is at most one step of the replay, and it leads from `h` to `h'`. */
  ghost predicate Replays(h: Replay.Helper, ops: seq<Replay.Op>, events: seq<Replay.Event>, h': Replay.Helper) {
    if ops == [] then h' == h && events == []
    else |ops| == |events| == 1 && Replay.Step(h, ops[0]) == Some((h', events[0]))
  }

  lemma FrameReplays(env: Env, s: Vm, at: Relocatable, foreign: Option<Outcome>)
    requires FrameAt(env, s, at, foreign).Some?
    ensures var f := FrameAt(env, s, at, foreign).value; Replays(s.helper, OpOf(f), EventOf(f), f.x.helper)
  {
  }

  lemma ReplayNext(h: Replay.Helper, ops: seq<Replay.Op>, events: seq<Replay.Event>, s: Replay.Helper,
                   more: seq<Replay.Op>, moreEvents: seq<Replay.Event>, t: Replay.Helper)
    requires Replay.Run(h, ops) == Some((s, events)) && Replays(s, more, moreEvents, t)
    ensures Replay.Run(h, ops + more) == Some((t, events + moreEvents))
  {
    if more == [] {
      assert ops + more == ops && events + moreEvents == events;
    } else {
      Replay.RunAppend(h, ops, more[0]);
      assert more == [more[0]] && moreEvents == [moreEvents[0]];
    }
  }

  /** The syscalls of a run replay: each takes the next item of its kind. */
  lemma {:induction false} RunReplays(env: Env, s: Vm, actions: seq<Action>)
    requires Run(env, s, actions).Some?
    ensures var (t, frames) := Run(env, s, actions).value;
            Replay.Run(s.helper, FlatMap(OpOf, frames)) == Some((t.helper, FlatMap(EventOf, frames)))
    decreases |actions|
  {
    if actions != [] {
      var n := |actions| - 1;
      RunReplays(env, s, actions[..n]);
      var (t, frames) := Run(env, s, actions[..n]).value;
      DoReplays(env, t, actions[n]);
      var (u, more) := Do(env, t, actions[n]).value;
      FramesReplay(OpOf, EventOf, s.helper, t.helper, u.helper, frames, more);
    }
  }

  /** `frames` are at most one, and its step leads from `h` to `h'`. */
  ghost predicate StepOf<F>(opOf: F -> seq<Replay.Op>, eventOf: F -> seq<Replay.Event>, h: Replay.Helper, frames: seq<F>,
                            h': Replay.Helper) {
    if frames == [] then h' == h else |frames| == 1 && Replays(h, opOf(frames[0]), eventOf(frames[0]), h')
  }

  lemma DoReplays(env: Env, t: Vm, a: Action)
    requires Do(env, t, a).Some?
    ensures var (u, more) := Do(env, t, a).value; StepOf(OpOf, EventOf, t.helper, more, u.helper)
  {
    if a.Syscall? {
      FrameReplays(env, t, a.at, a.foreign);
    }
  }

  lemma FramesReplay<F>(opOf: F -> seq<Replay.Op>, eventOf: F -> seq<Replay.Event>, h: Replay.Helper, s: Replay.Helper,
                        t: Replay.Helper, frames: seq<F>, more: seq<F>)
    requires Replay.Run(h, FlatMap(opOf, frames)) == Some((s, FlatMap(eventOf, frames)))
    requires StepOf(opOf, eventOf, s, more, t)
    ensures Replay.Run(h, FlatMap(opOf, frames + more)) == Some((t, FlatMap(eventOf, frames + more)))
  {
    if more == [] {
      assert frames + more == frames;
    } else {
      assert more == [more[0]];
      FlatMapAppend(opOf, frames, more[0]);
      FlatMapAppend(eventOf, frames, more[0]);
      ReplayNext(h, FlatMap(opOf, frames), FlatMap(eventOf, frames), s, opOf(more[0]), eventOf(more[0]), t);
    }
  }

  /** The answer says what the replay handed over: return data or error data in the new segment,
      behind the address of a deployed contract, or a storage value. */
  lemma AnswerIsReplayed(env: Env, s: Vm, at: Relocatable, foreign: Option<Outcome>)
    requires FrameAt(env, s, at, foreign).Some? && FrameAt(env, s, at, foreign).value.x.event.Some?
    ensures var f := FrameAt(env, s, at, foreign).value;
            match f.x.event.value
            case Called(r) =>
              && f.x.loaded == Some(r.retdata)
              && f.Answer() == [Felt(f.left), Felt(if r.failed then 1 else 0)] + Bounds(f.segment, r.retdata)
            case Deployed(r, address) =>
              && f.x.loaded == Some(r.retdata) && !r.failed && env.lacksConstructor(address).Some?
              && f.Answer() == [Felt(f.left), Felt(0), Felt(address)]
                 + if env.lacksConstructor(address).value then [Felt(0), Felt(0)] else Bounds(f.segment, r.retdata)
            case ReadValue(v) => f.Answer() == [Felt(f.left), Felt(0), Felt(v)]
            case _ => false
  {
  }

  // ----- Gas over runs -----

  function Sum(g: Frame -> int, frames: seq<Frame>): int {
    if frames == [] then 0 else Sum(g, frames[..|frames| - 1]) + g(frames[|frames| - 1])
  }

  lemma SumAppend(g: Frame -> int, frames: seq<Frame>, f: Frame)
    ensures Sum(g, frames + [f]) == Sum(g, frames) + g(f)
  {
    assert (frames + [f])[..|frames|] == frames;
  }

  /** The gas consumed by inner calls. */
  function Consumed(results: seq<Replay.CallResult>): nat {
    if results == [] then 0 else Consumed(results[..|results| - 1]) + results[|results| - 1].gasConsumed
  }

  lemma {:induction false} ConsumedAppend(a: seq<Replay.CallResult>, b: seq<Replay.CallResult>)
    ensures Consumed(a + b) == Consumed(a) + Consumed(b)
    decreases |b|
  {
    if b == [] {
      assert a + b == a;
    } else {
      ConsumedAppend(a, b[..|b| - 1]);
      assert (a + b)[..|a + b| - 1] == a + b[..|b| - 1];
    }
  }

  function GasOf(f: Frame): int {
    f.gas
  }

  function LeftOf(f: Frame): int {
    f.left
  }

  function PriceOf(f: Frame): int {
    FixedPrice(f.kind)
  }

  function RoundsOf(f: Frame): int {
    f.x.rounds
  }

  function ForeignOf(f: Frame): int {
    if f.kind.Foreign? then f.x.spent else 0
  }

  function ResultsOf(f: Frame): seq<Replay.CallResult> {
    FlatMap(Replay.ResultOf, EventOf(f))
  }

  function EventGas(event: Option<Replay.Event>): nat {
    match event
    case Some(Called(r)) => r.gasConsumed
    case Some(Deployed(r, _)) => r.gasConsumed
    case _ => 0
  }

  lemma SpentOnWhat(env: Env, m: Memory, segment: nat, helper: Replay.Helper, kind: Kind, at: Relocatable, gas: nat,
                    foreign: Option<Outcome>)
    requires Execute(env, m, segment, helper, kind, at, gas, foreign).Some?
    ensures var x := Execute(env, m, segment, helper, kind, at, gas, foreign).value;
            x.spent == EventGas(x.event) + KECCAK_ROUND_COST * x.rounds + if kind.Foreign? then x.spent else 0
  {
  }

  lemma EventConsumes(event: Option<Replay.Event>)
    ensures Consumed(FlatMap(Replay.ResultOf, AsList(event))) == EventGas(event)
  {
    if event.Some? {
      FlatMapAppend(Replay.ResultOf, [], event.value);
      assert [] + [event.value] == [event.value];
      var results := Replay.ResultOf(event.value);
      assert |results| == 1 ==> results[..0] == [];
    }
  }

  /** What one syscall costs: its fixed price, the gas of the call it replays, and its rounds of hashing. */
  lemma FrameGas(env: Env, s: Vm, at: Relocatable, foreign: Option<Outcome>)
    requires FrameAt(env, s, at, foreign).Some? && !FrameAt(env, s, at, foreign).value.Early()
    ensures var f := FrameAt(env, s, at, foreign).value;
            f.gas == f.left + PriceOf(f) + Consumed(ResultsOf(f)) + KECCAK_ROUND_COST * RoundsOf(f) + ForeignOf(f)
  {
    var f := FrameAt(env, s, at, foreign).value;
    FrameFacts(env, s, at, foreign);
    HandledSpent(env, s, at, f.kind, f.gas, foreign);
    EventConsumes(f.x.event);
  }

  lemma HandledSpent(env: Env, s: Vm, start: Relocatable, kind: Kind, gas: nat, foreign: Option<Outcome>)
    requires Handle(env, s, start, kind, gas, foreign).Some?
    ensures var f := Handle(env, s, start, kind, gas, foreign).value;
            f.x.spent == EventGas(f.x.event) + KECCAK_ROUND_COST * f.x.rounds + ForeignOf(f)
  {
    if gas >= FixedPrice(kind) {
      SpentOnWhat(env, s.memory, s.segments, s.helper, kind, Next(start, 2), gas - FixedPrice(kind), foreign);
    }
  }

  /** No syscall of the run runs out of gas for its fixed price. */
  predicate AllPaid(frames: seq<Frame>) {
    forall i :: 0 <= i < |frames| ==> !frames[i].Early()
  }

  /** The gas that a run of syscalls uses up. */
  ghost predicate GasBalanced(frames: seq<Frame>) {
    Sum(GasOf, frames)
    == Sum(LeftOf, frames) + Sum(PriceOf, frames) + Consumed(FlatMap(ResultsOf, frames))
       + KECCAK_ROUND_COST * Sum(RoundsOf, frames) + Sum(ForeignOf, frames)
  }

  lemma GasAppend(frames: seq<Frame>, f: Frame)
    requires GasBalanced(frames)
    requires f.gas == f.left + PriceOf(f) + Consumed(ResultsOf(f)) + KECCAK_ROUND_COST * RoundsOf(f) + ForeignOf(f)
    ensures GasBalanced(frames + [f])
  {
    SumAppend(GasOf, frames, f);
    SumAppend(LeftOf, frames, f);
    SumAppend(PriceOf, frames, f);
    SumAppend(RoundsOf, frames, f);
    SumAppend(ForeignOf, frames, f);
    FlatMapAppend(ResultsOf, frames, f);
    ConsumedAppend(FlatMap(ResultsOf, frames), ResultsOf(f));
  }

  /** Gas is conserved over a run: what the counters held is what the answers return, the fixed
      prices, the gas of the calls replayed and the rounds of hashing. */
  lemma {:induction false} GasConserved(env: Env, s: Vm, actions: seq<Action>)
    requires Run(env, s, actions).Some? && AllPaid(Run(env, s, actions).value.1)
    ensures GasBalanced(Run(env, s, actions).value.1)
    decreases |actions|
  {
    if actions != [] {
      var n := |actions| - 1;
      var (t, frames) := Run(env, s, actions[..n]).value;
      var more := Do(env, t, actions[n]).value.1;
      PaidParts(frames, more);
      GasConserved(env, s, actions[..n]);
      match actions[n]
      case Syscall(at, foreign) =>
        var f := FrameAt(env, t, at, foreign).value;
        assert more == [f] && !more[0].Early();
        FrameGas(env, t, at, foreign);
        GasAppend(frames, f);
      case ProgramWrite(_, _) =>
        assert frames + more == frames;
    }
  }

  lemma PaidParts(frames: seq<Frame>, more: seq<Frame>)
    requires AllPaid(frames + more)
    ensures AllPaid(frames) && AllPaid(more)
  {
    var all := frames + more;
    assert forall i :: 0 <= i < |frames| ==> all[i] == frames[i];
    assert forall i :: 0 <= i < |more| ==> all[|frames| + i] == more[i];
  }

  lemma {:induction false} ResultsOfEvents(frames: seq<Frame>)
    ensures FlatMap(ResultsOf, frames) == FlatMap(Replay.ResultOf, FlatMap(EventOf, frames))
    decreases |frames|
  {
    if frames != [] {
      var n := |frames| - 1;
      ResultsOfEvents(frames[..n]);
      FlatMapConcat(Replay.ResultOf, FlatMap(EventOf, frames[..n]), EventOf(frames[n]));
    }
  }

  /** In a call all of whose inner calls have been replayed, the calls' gas is that of the inner calls. */
  lemma GasOfCall(env: Env, s: Vm, actions: seq<Action>, c: Replay.CallInfo)
    requires Run(env, s, actions).Some? && AllPaid(Run(env, s, actions).value.1)
    requires Replay.JustEntered(c, s.helper) && Run(env, s, actions).value.0.helper.results == []
    ensures var frames := Run(env, s, actions).value.1;
            Sum(GasOf, frames)
            == Sum(LeftOf, frames) + Sum(PriceOf, frames) + Consumed(Replay.ResultsIn(c))
               + KECCAK_ROUND_COST * Sum(RoundsOf, frames) + Sum(ForeignOf, frames)
  {
    GasConserved(env, s, actions);
    AllResultsTaken(env, s, actions, c);
  }

  lemma AllResultsTaken(env: Env, s: Vm, actions: seq<Action>, c: Replay.CallInfo)
    requires Run(env, s, actions).Some?
    requires Replay.JustEntered(c, s.helper) && Run(env, s, actions).value.0.helper.results == []
    ensures FlatMap(ResultsOf, Run(env, s, actions).value.1) == Replay.ResultsIn(c)
  {
    var (t, frames) := Run(env, s, actions).value;
    RunReplays(env, s, actions);
    ConsumingOps(frames);
    Replay.ConsumingTakes(s.helper, FlatMap(OpOf, frames));
    ResultsOfEvents(frames);
    var taken := FlatMap(Replay.ResultOf, FlatMap(EventOf, frames));
    assert Replay.Balance(taken, [], s.helper.results);
    assert taken + [] == taken;
  }

  lemma {:induction false} ConsumingOps(frames: seq<Frame>)
    ensures forall i :: 0 <= i < |FlatMap(OpOf, frames)| ==> Replay.Consuming(FlatMap(OpOf, frames)[i])
    decreases |frames|
  {
    if frames != [] {
      ConsumingOps(frames[..|frames| - 1]);
    }
  }

  /** If the call-like syscalls of a call follow its inner calls and no constructor failed, each
      deploy syscall got the address and the return data of its own constructor call. */
  lemma DeploysAnswered(env: Env, s: Vm, actions: seq<Action>, c: Replay.CallInfo)
    requires Run(env, s, actions).Some? && Replay.JustEntered(c, s.helper) && Replay.NoneFailed(c.inner)
    requires Run(env, s, actions).value.0.helper.readValues == []
    requires FlatMap(Replay.AsCallOp, FlatMap(OpOf, Run(env, s, actions).value.1)) == Replay.OpsFor(c.inner)
    ensures var (t, frames) := Run(env, s, actions).value;
            && FlatMap(Replay.AsCallEvent, FlatMap(EventOf, frames)) == FlatMap(Replay.EventFor, c.inner)
            && Replay.Step(t.helper, Replay.ExitCall).Some?
  {
    var (t, frames) := Run(env, s, actions).value;
    RunReplays(env, s, actions);
    ConsumingOps(frames);
    Replay.DeployPairing(c, s.helper, FlatMap(OpOf, frames));
  }
}
