/** Reading the output of the OS, a list of felts. */
module OsOutput {
  import opened Basics

  type Felt = nat

  // ----- The layout -----

  datatype Header = Header(
    initialRoot: Felt, finalRoot: Felt, prevBlockNumber: Felt, newBlockNumber: Felt, prevBlockHash: Felt,
    newBlockHash: Felt, osProgramHash: Felt, configHash: Felt, useKzgDa: Felt, fullOutput: Felt)

  /** A changed value; the previous one is present in full output only. */
  datatype Change = Change(key: Felt, prev: Option<Felt>, value: Felt)

  datatype ContractRecord = ContractRecord(
    addr: Felt, classFlag: nat, nonce: nat, prevClass: Option<Felt>, newClass: Option<Felt>, changes: seq<Change>)

  /** Data about blobs, four felts for each of them. */
  datatype KzgRecord = KzgRecord(first: Felt, blobs: nat, data: seq<Felt>)

  /** All that an output contains. */
  datatype Record = Record(
    header: Header, kzg: Option<KzgRecord>, messagesToL1: seq<Felt>, messagesToL2: seq<Felt>,
    state: State)

  /** Changed contracts and declared classes, absent if they are in blobs. */
  datatype State = State(contracts: seq<ContractRecord>, classes: seq<Change>)

  function EncodeChange(c: Change): seq<Felt> {
    [c.key] + AsList(c.prev) + [c.value]
  }

  predicate ValidChange(c: Change, full: bool) {
    c.prev.Some? <==> full
  }

  /** The class flag, the nonce and the number of changes in one felt. */
  function Pack(flag: nat, nonce: nat, count: nat): Felt {
    (flag * USIZE + nonce) * USIZE + count
  }

  function EncodeContract(c: ContractRecord): seq<Felt> {
    [c.addr, Pack(c.classFlag, c.nonce, |c.changes|)] + AsList(c.prevClass) + AsList(c.newClass)
    + FlatMap(EncodeChange, c.changes)
  }

  predicate ValidChanges(changes: seq<Change>, full: bool) {
    |changes| < USIZE && forall i :: 0 <= i < |changes| ==> ValidChange(changes[i], full)
  }

  predicate ValidContract(c: ContractRecord, full: bool) {
    && c.nonce < USIZE && ValidChanges(c.changes, full)
    && (c.prevClass.Some? <==> full) && (c.newClass.Some? <==> full || c.classFlag != 0)
  }

  function EncodeHeader(h: Header): seq<Felt> {
    [h.initialRoot, h.finalRoot, h.prevBlockNumber, h.newBlockNumber, h.prevBlockHash,
     h.newBlockHash, h.osProgramHash, h.configHash, h.useKzgDa, h.fullOutput]
  }

  function EncodeKzg(o: Option<KzgRecord>): seq<Felt> {
    match o
    case Some(k) => [k.first, k.blobs] + k.data
    case None => []
  }

  predicate ValidKzg(k: KzgRecord) {
    |k.data| == 4 * k.blobs < USIZE
  }

  function EncodeSegment(s: seq<Felt>): seq<Felt> {
    [|s|] + s
  }

  function EncodeState(r: State, useKzgDa: Felt): seq<Felt> {
    if useKzgDa != 0 then []
    else EncodeCounted(EncodeContract, r.contracts) + EncodeCounted(EncodeChange, r.classes)
  }

  predicate ValidState(r: State, useKzgDa: Felt, full: bool) {
    if useKzgDa != 0 then r == State([], [])
    else ValidContracts(r.contracts, full) && ValidChanges(r.classes, full)
  }

  function Encode(r: Record): seq<Felt> {
    EncodeHeader(r.header) + (EncodeKzg(r.kzg) + (EncodeSegment(r.messagesToL1) +
      (EncodeSegment(r.messagesToL2) + EncodeState(r.state, r.header.useKzgDa))))
  }

  predicate ValidContracts(contracts: seq<ContractRecord>, full: bool) {
    |contracts| < USIZE && forall i :: 0 <= i < |contracts| ==> ValidContract(contracts[i], full)
  }

  predicate Valid(r: Record) {
    var full := r.header.fullOutput != 0;
    && (r.kzg.Some? <==> r.header.useKzgDa != 0) && (r.kzg.Some? ==> ValidKzg(r.kzg.value))
    && |r.messagesToL1| < USIZE && |r.messagesToL2| < USIZE
    && ValidState(r.state, r.header.useKzgDa, full)
  }

  // ----- Reading a list of felts -----

  type Parser<!T> = seq<Felt> -> Option<(T, seq<Felt>)>

  /** `n` items in a row. */
  function Repeat<T>(p: Parser<T>, s: seq<Felt>, n: nat): Option<(seq<T>, seq<Felt>)> {
    if n == 0 then Some(([], s))
    else
      match Repeat(p, s, n - 1)
      case None => None
      case Some((items, rest)) =>
        match p(rest)
        case None => None
        case Some((item, rest')) => Some((items + [item], rest'))
  }

  ghost predicate Sound<T(!new)>(p: Parser<T>, encode: T -> seq<Felt>, valid: T -> bool) {
    forall s :: p(s).Some? ==> valid(p(s).value.0) && s == encode(p(s).value.0) + p(s).value.1
  }

  ghost predicate Complete<T(!new)>(p: Parser<T>, encode: T -> seq<Felt>, valid: T -> bool) {
    forall item, rest :: valid(item) ==> p(encode(item) + rest) == Some((item, rest))
  }

  predicate AllValid<T>(valid: T -> bool, items: seq<T>) {
    forall i :: 0 <= i < |items| ==> valid(items[i])
  }

  lemma {:induction false} RepeatSound<T(!new)>(
      p: Parser<T>, encode: T -> seq<Felt>, valid: T -> bool, s: seq<Felt>, n: nat)
    requires Sound(p, encode, valid) && Repeat(p, s, n).Some?
    ensures var (items, rest) := Repeat(p, s, n).value;
            |items| == n && AllValid(valid, items) && s == FlatMap(encode, items) + rest
  {
    if n > 0 {
      RepeatSound(p, encode, valid, s, n - 1);
      var (items, rest) := Repeat(p, s, n - 1).value;
      var (item, rest') := p(rest).value;
      FlatMapAppend(encode, items, item);
      assert rest == encode(item) + rest';
    }
  }

  lemma {:induction false} RepeatComplete<T(!new)>(
      p: Parser<T>, encode: T -> seq<Felt>, valid: T -> bool, items: seq<T>, rest: seq<Felt>)
    requires Complete(p, encode, valid) && AllValid(valid, items)
    ensures Repeat(p, FlatMap(encode, items) + rest, |items|) == Some((items, rest))
    decreases |items|
  {
    if items == [] {
      assert FlatMap(encode, items) + rest == rest;
    } else {
      var n := |items| - 1;
      var rest' := encode(items[n]) + rest;
      RepeatComplete(p, encode, valid, items[..n], rest');
      assert FlatMap(encode, items) + rest == FlatMap(encode, items[..n]) + rest';
      assert items == items[..n] + [items[n]];
    }
  }

  // ----- The records read -----

  function ParseChange(s: seq<Felt>, full: bool): Option<(Change, seq<Felt>)> {
    if full then if |s| < 3 then None else Some((Change(s[0], Some(s[1]), s[2]), s[3..]))
    else if |s| < 2 then None else Some((Change(s[0], None, s[1]), s[2..]))
  }

  function ChangeParser(full: bool): Parser<Change> {
    (s: seq<Felt>) => ParseChange(s, full)
  }

  function ValidChangeFor(full: bool): Change -> bool {
    (c: Change) => ValidChange(c, full)
  }

  lemma ChangeExact(full: bool)
    ensures Sound(ChangeParser(full), EncodeChange, ValidChangeFor(full))
    ensures Complete(ChangeParser(full), EncodeChange, ValidChangeFor(full))
  {
    var p, valid := ChangeParser(full), ValidChangeFor(full);
    forall s: seq<Felt> | p(s).Some?
      ensures valid(p(s).value.0) && s == EncodeChange(p(s).value.0) + p(s).value.1
    {
    }
    forall c: Change, rest: seq<Felt> | valid(c)
      ensures p(EncodeChange(c) + rest) == Some((c, rest))
    {
      var s := EncodeChange(c) + rest;
      assert if full then s[0] == c.key && s[1] == c.prev.value && s[2] == c.value && s[3..] == rest
             else s[0] == c.key && s[1] == c.value && s[2..] == rest;
    }
  }

  function CountOf(word: Felt): nat {
    word % USIZE
  }

  function NonceOf(word: Felt): nat {
    (word / USIZE) % USIZE
  }

  function FlagOf(word: Felt): nat {
    word / USIZE / USIZE
  }

  /** The packed felt determines its three parts, and is determined by them. */
  lemma PackExact(word: Felt, flag: nat, nonce: nat, count: nat)
    requires nonce < USIZE && count < USIZE
    ensures word == Pack(flag, nonce, count)
            <==> FlagOf(word) == flag && NonceOf(word) == nonce && CountOf(word) == count
  {
    if word == Pack(flag, nonce, count) {
      DivModUnique(word, USIZE, flag * USIZE + nonce, count);
      DivModUnique(flag * USIZE + nonce, USIZE, flag, nonce);
    }
  }

  datatype Classes = Classes(prev: Option<Felt>, next: Option<Felt>)

  function ParseClasses(s: seq<Felt>, flag: nat, full: bool): Option<(Classes, seq<Felt>)> {
    if full then if |s| < 2 then None else Some((Classes(Some(s[0]), Some(s[1])), s[2..]))
    else if flag != 0 then if |s| < 1 then None else Some((Classes(None, Some(s[0])), s[1..]))
    else Some((Classes(None, None), s))
  }

  function EncodeClasses(c: Classes): seq<Felt> {
    AsList(c.prev) + AsList(c.next)
  }

  predicate ValidClasses(c: Classes, flag: nat, full: bool) {
    (c.prev.Some? <==> full) && (c.next.Some? <==> full || flag != 0)
  }

  lemma ClassesSound(s: seq<Felt>, flag: nat, full: bool)
    requires ParseClasses(s, flag, full).Some?
    ensures var (c, rest) := ParseClasses(s, flag, full).value;
            ValidClasses(c, flag, full) && s == EncodeClasses(c) + rest
  {
  }

  lemma ClassesComplete(c: Classes, flag: nat, full: bool, rest: seq<Felt>)
    requires ValidClasses(c, flag, full)
    ensures ParseClasses(EncodeClasses(c) + rest, flag, full) == Some((c, rest))
  {
    var s := EncodeClasses(c) + rest;
    assert if full then s[0] == c.prev.value && s[1] == c.next.value && s[2..] == rest
           else if flag != 0 then s[0] == c.next.value && s[1..] == rest
           else s == rest;
  }

  function ParseContract(s: seq<Felt>, full: bool): Option<(ContractRecord, seq<Felt>)> {
    if |s| < 2 then None
    else
      var word := s[1];
      match ParseClasses(s[2..], FlagOf(word), full)
      case None => None
      case Some((classes, rest)) =>
        match Repeat(ChangeParser(full), rest, CountOf(word))
        case None => None
        case Some((changes, rest')) =>
          Some((ContractRecord(s[0], FlagOf(word), NonceOf(word), classes.prev, classes.next, changes), rest'))
  }

  function ContractParser(full: bool): Parser<ContractRecord> {
    (s: seq<Felt>) => ParseContract(s, full)
  }

  function ValidContractFor(full: bool): ContractRecord -> bool {
    (c: ContractRecord) => ValidContract(c, full)
  }

  lemma ChangesSound(s: seq<Felt>, full: bool, n: nat)
    requires Repeat(ChangeParser(full), s, n).Some? && n < USIZE
    ensures var (changes, rest) := Repeat(ChangeParser(full), s, n).value;
            |changes| == n && ValidChanges(changes, full) && s == FlatMap(EncodeChange, changes) + rest
  {
    ChangeExact(full);
    RepeatSound(ChangeParser(full), EncodeChange, ValidChangeFor(full), s, n);
    var changes := Repeat(ChangeParser(full), s, n).value.0;
    assert forall i :: 0 <= i < n ==> ValidChangeFor(full)(changes[i]);
  }

  lemma Reassemble(s: seq<Felt>, classes: Classes, rest: seq<Felt>, changes: seq<Change>, rest': seq<Felt>,
                   c: ContractRecord)
    requires |s| >= 2 && s[2..] == EncodeClasses(classes) + rest && rest == FlatMap(EncodeChange, changes) + rest'
    requires s[0] == c.addr && s[1] == Pack(c.classFlag, c.nonce, |c.changes|)
    requires c.prevClass == classes.prev && c.newClass == classes.next && c.changes == changes
    ensures s == EncodeContract(c) + rest'
  {
    assert s == [s[0], s[1]] + s[2..];
  }

  lemma ContractSound(s: seq<Felt>, full: bool)
    requires ParseContract(s, full).Some?
    ensures var (c, rest) := ParseContract(s, full).value;
            ValidContract(c, full) && s == EncodeContract(c) + rest
  {
    var (c, rest') := ParseContract(s, full).value;
    var word := s[1];
    ClassesSound(s[2..], FlagOf(word), full);
    var (classes, rest) := ParseClasses(s[2..], FlagOf(word), full).value;
    ChangesSound(rest, full, CountOf(word));
    PackExact(word, FlagOf(word), NonceOf(word), CountOf(word));
    Reassemble(s, classes, rest, c.changes, rest', c);
  }

  lemma ContractComplete(c: ContractRecord, full: bool, rest: seq<Felt>)
    requires ValidContract(c, full)
    ensures ParseContract(EncodeContract(c) + rest, full) == Some((c, rest))
  {
    var s := EncodeContract(c) + rest;
    var word := Pack(c.classFlag, c.nonce, |c.changes|);
    var classes := Classes(c.prevClass, c.newClass);
    var rest' := FlatMap(EncodeChange, c.changes) + rest;
    assert s[0] == c.addr && s[1] == word && s[2..] == EncodeClasses(classes) + rest';
    PackExact(word, c.classFlag, c.nonce, |c.changes|);
    ClassesComplete(classes, c.classFlag, full, rest');
    ChangeExact(full);
    RepeatComplete(ChangeParser(full), EncodeChange, ValidChangeFor(full), c.changes, rest);
  }

  lemma ContractExact(full: bool)
    ensures Sound(ContractParser(full), EncodeContract, ValidContractFor(full))
    ensures Complete(ContractParser(full), EncodeContract, ValidContractFor(full))
  {
    var p, valid := ContractParser(full), ValidContractFor(full);
    forall s: seq<Felt> | p(s).Some?
      ensures valid(p(s).value.0) && s == EncodeContract(p(s).value.0) + p(s).value.1
    {
      ContractSound(s, full);
    }
    forall c: ContractRecord, rest: seq<Felt> | valid(c)
      ensures p(EncodeContract(c) + rest) == Some((c, rest))
    {
      ContractComplete(c, full, rest);
    }
  }

  // ----- Sections that start with their length -----

  function ParseCounted<T>(p: Parser<T>, s: seq<Felt>): Option<(seq<T>, seq<Felt>)> {
    if s == [] || s[0] >= USIZE then None else Repeat(p, s[1..], s[0])
  }

  function EncodeCounted<T>(encode: T -> seq<Felt>, items: seq<T>): seq<Felt> {
    [|items|] + FlatMap(encode, items)
  }

  lemma CountedSound<T(!new)>(p: Parser<T>, encode: T -> seq<Felt>, valid: T -> bool, s: seq<Felt>)
    requires Sound(p, encode, valid) && ParseCounted(p, s).Some?
    ensures var (items, rest) := ParseCounted(p, s).value;
            |items| < USIZE && AllValid(valid, items) && s == EncodeCounted(encode, items) + rest
  {
    RepeatSound(p, encode, valid, s[1..], s[0]);
    assert s == [s[0]] + s[1..];
  }

  lemma CountedComplete<T(!new)>(
      p: Parser<T>, encode: T -> seq<Felt>, valid: T -> bool, items: seq<T>, rest: seq<Felt>)
    requires Complete(p, encode, valid) && AllValid(valid, items) && |items| < USIZE
    ensures ParseCounted(p, EncodeCounted(encode, items) + rest) == Some((items, rest))
  {
    var s := EncodeCounted(encode, items) + rest;
    assert s[0] == |items| && s[1..] == FlatMap(encode, items) + rest;
    RepeatComplete(p, encode, valid, items, rest);
  }

  function TakeFelts(s: seq<Felt>, n: nat): Option<(seq<Felt>, seq<Felt>)> {
    if n <= |s| then Some((s[..n], s[n..])) else None
  }

  function ParseSegment(s: seq<Felt>): Option<(seq<Felt>, seq<Felt>)> {
    if s == [] || s[0] >= USIZE then None else TakeFelts(s[1..], s[0])
  }

  lemma SegmentSound(s: seq<Felt>)
    requires ParseSegment(s).Some?
    ensures var (items, rest) := ParseSegment(s).value; |items| < USIZE && s == EncodeSegment(items) + rest
  {
  }

  lemma SegmentComplete(items: seq<Felt>, rest: seq<Felt>)
    requires |items| < USIZE
    ensures ParseSegment(EncodeSegment(items) + rest) == Some((items, rest))
  {
    var s := EncodeSegment(items) + rest;
    assert s[0] == |items| && s[1..] == items + rest;
  }

  // ----- The whole output -----

  const HEADER_SIZE: nat := 10

  function HeaderOf(s: seq<Felt>): Header
    requires |s| == HEADER_SIZE
  {
    Header(s[0], s[1], s[2], s[3], s[4], s[5], s[6], s[7], s[8], s[9])
  }

  function ParseKzg(s: seq<Felt>, useKzgDa: Felt): Option<(Option<KzgRecord>, seq<Felt>)> {
    if useKzgDa == 0 then Some((None, s))
    else if |s| < 2 || 4 * s[1] >= USIZE || |s| < 2 + 4 * s[1] then None
    else Some((Some(KzgRecord(s[0], s[1], s[2..2 + 4 * s[1]])), s[2 + 4 * s[1]..]))
  }

  lemma KzgSound(s: seq<Felt>, useKzgDa: Felt)
    requires ParseKzg(s, useKzgDa).Some?
    ensures var (k, rest) := ParseKzg(s, useKzgDa).value;
            (k.Some? <==> useKzgDa != 0) && (k.Some? ==> ValidKzg(k.value)) && s == EncodeKzg(k) + rest
  {
  }

  lemma KzgComplete(k: Option<KzgRecord>, useKzgDa: Felt, rest: seq<Felt>)
    requires (k.Some? <==> useKzgDa != 0) && (k.Some? ==> ValidKzg(k.value))
    ensures ParseKzg(EncodeKzg(k) + rest, useKzgDa) == Some((k, rest))
  {
    var s := EncodeKzg(k) + rest;
    if k.Some? {
      assert s[0] == k.value.first && s[1] == k.value.blobs && s[2..] == k.value.data + rest;
      assert s[2..2 + |k.value.data|] == k.value.data && s[2 + |k.value.data|..] == rest;
    } else {
      assert s == rest;
    }
  }

  function ParseState(s: seq<Felt>, useKzgDa: Felt, full: bool): Option<(State, seq<Felt>)> {
    if useKzgDa != 0 then Some((State([], []), s))
    else
      match ParseCounted(ContractParser(full), s)
      case None => None
      case Some((contracts, rest)) =>
        match ParseCounted(ChangeParser(full), rest)
        case None => None
        case Some((classes, rest')) => Some((State(contracts, classes), rest'))
  }

  function Parse(s: seq<Felt>): Option<(Record, seq<Felt>)> {
    if |s| < HEADER_SIZE then None
    else
      var h := HeaderOf(s[..HEADER_SIZE]);
      match ParseKzg(s[HEADER_SIZE..], h.useKzgDa)
      case None => None
      case Some((kzg, s1)) =>
        match ParseSegment(s1)
        case None => None
        case Some((l1, s2)) =>
          match ParseSegment(s2)
          case None => None
          case Some((l2, s3)) =>
            match ParseState(s3, h.useKzgDa, h.fullOutput != 0)
            case None => None
            case Some((state, rest)) => Some((Record(h, kzg, l1, l2, state), rest))
  }

  lemma StateSound(s: seq<Felt>, useKzgDa: Felt, full: bool)
    requires ParseState(s, useKzgDa, full).Some?
    ensures var (state, rest) := ParseState(s, useKzgDa, full).value;
            ValidState(state, useKzgDa, full) && s == EncodeState(state, useKzgDa) + rest
  {
    if useKzgDa == 0 {
      var (state, rest') := ParseState(s, useKzgDa, full).value;
      ContractExact(full);
      CountedSound(ContractParser(full), EncodeContract, ValidContractFor(full), s);
      var (contracts, rest) := ParseCounted(ContractParser(full), s).value;
      ChangeExact(full);
      CountedSound(ChangeParser(full), EncodeChange, ValidChangeFor(full), rest);
      assert forall i :: 0 <= i < |contracts| ==> ValidContractFor(full)(contracts[i]);
      assert forall i :: 0 <= i < |state.classes| ==> ValidChangeFor(full)(state.classes[i]);
    }
  }

  lemma StateComplete(state: State, useKzgDa: Felt, full: bool, rest: seq<Felt>)
    requires ValidState(state, useKzgDa, full)
    ensures ParseState(EncodeState(state, useKzgDa) + rest, useKzgDa, full) == Some((state, rest))
  {
    var s := EncodeState(state, useKzgDa) + rest;
    if useKzgDa == 0 {
      var rest' := EncodeCounted(EncodeChange, state.classes) + rest;
      assert s == EncodeCounted(EncodeContract, state.contracts) + rest';
      ContractExact(full);
      CountedComplete(ContractParser(full), EncodeContract, ValidContractFor(full), state.contracts, rest');
      ChangeExact(full);
      CountedComplete(ChangeParser(full), EncodeChange, ValidChangeFor(full), state.classes, rest);
    } else {
      assert s == rest;
    }
  }

  lemma HeaderExact(s: seq<Felt>, h: Header)
    requires |s| == HEADER_SIZE
    ensures HeaderOf(s) == h <==> s == EncodeHeader(h)
  {
  }

  lemma ParseSound(s: seq<Felt>)
    requires Parse(s).Some?
    ensures var (r, rest) := Parse(s).value; Valid(r) && s == Encode(r) + rest
  {
    var (r, rest) := Parse(s).value;
    var h, s0 := r.header, s[HEADER_SIZE..];
    HeaderExact(s[..HEADER_SIZE], h);
    KzgSound(s0, h.useKzgDa);
    var s1 := ParseKzg(s0, h.useKzgDa).value.1;
    SegmentSound(s1);
    var s2 := ParseSegment(s1).value.1;
    SegmentSound(s2);
    var s3 := ParseSegment(s2).value.1;
    StateSound(s3, h.useKzgDa, h.fullOutput != 0);
    Joined(s[..HEADER_SIZE], EncodeKzg(r.kzg), EncodeSegment(r.messagesToL1), EncodeSegment(r.messagesToL2),
           EncodeState(r.state, h.useKzgDa), rest);
  }

  lemma Joined(a: seq<Felt>, b: seq<Felt>, c: seq<Felt>, d: seq<Felt>, e: seq<Felt>, f: seq<Felt>)
    ensures a + (b + (c + (d + (e + f)))) == (a + (b + (c + (d + e)))) + f
  {
  }

  lemma ParseComplete(r: Record, rest: seq<Felt>)
    requires Valid(r)
    ensures Parse(Encode(r) + rest) == Some((r, rest))
  {
    var h := r.header;
    var s3 := EncodeState(r.state, h.useKzgDa) + rest;
    var s2 := EncodeSegment(r.messagesToL2) + s3;
    var s1 := EncodeSegment(r.messagesToL1) + s2;
    var s0 := EncodeKzg(r.kzg) + s1;
    Joined(EncodeHeader(h), EncodeKzg(r.kzg), EncodeSegment(r.messagesToL1), EncodeSegment(r.messagesToL2),
           EncodeState(r.state, h.useKzgDa), rest);
    KzgComplete(r.kzg, h.useKzgDa, s1);
    SegmentComplete(r.messagesToL1, s2);
    SegmentComplete(r.messagesToL2, s3);
    StateComplete(r.state, h.useKzgDa, h.fullOutput != 0, rest);
    ParseStages(r, s0, s1, s2, s3, rest);
  }

  /** The stages of reading, one after the other. */
  lemma ParseStages(r: Record, s0: seq<Felt>, s1: seq<Felt>, s2: seq<Felt>, s3: seq<Felt>, rest: seq<Felt>)
    requires ParseKzg(s0, r.header.useKzgDa) == Some((r.kzg, s1))
    requires ParseSegment(s1) == Some((r.messagesToL1, s2)) && ParseSegment(s2) == Some((r.messagesToL2, s3))
    requires ParseState(s3, r.header.useKzgDa, r.header.fullOutput != 0) == Some((r.state, rest))
    ensures Parse(EncodeHeader(r.header) + s0) == Some((r, rest))
  {
    var s := EncodeHeader(r.header) + s0;
    assert s[..HEADER_SIZE] == EncodeHeader(r.header) && s[HEADER_SIZE..] == s0;
    HeaderExact(s[..HEADER_SIZE], r.header);
  }

  /** Reading accepts exactly the encoded records, and stops exactly at their end. */
  lemma ParseExact(s: seq<Felt>, r: Record, rest: seq<Felt>)
    ensures Parse(s) == Some((r, rest)) <==> Valid(r) && s == Encode(r) + rest
  {
    if Parse(s) == Some((r, rest)) {
      ParseSound(s);
    }
    if Valid(r) {
      ParseComplete(r, rest);
    }
  }

  // ----- What the reader keeps -----

  datatype ContractChanges = ContractChanges(
    addr: Felt, nonce: Felt, classHash: Option<Felt>, storageChanges: map<Felt, Felt>)

  datatype StarknetOsOutput = StarknetOsOutput(
    header: Header, messagesToL1: seq<Felt>, messagesToL2: seq<Felt>,
    contracts: seq<ContractChanges>, classes: map<Felt, Felt>)

  /** Previous values are dropped, and the last change of a key wins. */
  function ToMap(changes: seq<Change>): map<Felt, Felt> {
    if changes == [] then map[]
    else var n := |changes| - 1; ToMap(changes[..n])[changes[n].key := changes[n].value]
  }

  function Kept(c: ContractRecord): ContractChanges {
    ContractChanges(c.addr, c.nonce, c.newClass, ToMap(c.changes))
  }

  function KeptAll(contracts: seq<ContractRecord>): (r: seq<ContractChanges>)
    ensures |r| == |contracts|
  {
    seq(|contracts|, i requires 0 <= i < |contracts| => Kept(contracts[i]))
  }

  function OutputOf(r: Record): StarknetOsOutput {
    StarknetOsOutput(r.header, r.messagesToL1, r.messagesToL2, KeptAll(r.state.contracts), ToMap(r.state.classes))
  }

  predicate DistinctKeys(changes: seq<Change>) {
    forall i, j :: 0 <= i < j < |changes| ==> changes[i].key != changes[j].key
  }

  predicate HasKey(changes: seq<Change>, k: Felt) {
    exists i :: 0 <= i < |changes| && changes[i].key == k
  }

  lemma {:induction false} ToMapKeys(changes: seq<Change>, k: Felt)
    ensures k in ToMap(changes) <==> HasKey(changes, k)
    decreases |changes|
  {
    if changes != [] {
      var n := |changes| - 1;
      ToMapKeys(changes[..n], k);
      if HasKey(changes[..n], k) {
        var i :| 0 <= i < n && changes[..n][i].key == k;
        assert changes[i].key == k;
      }
      if HasKey(changes, k) && k != changes[n].key {
        var i :| 0 <= i < |changes| && changes[i].key == k;
        assert changes[..n][i].key == k;
      }
    }
  }

  /** With distinct keys no change is lost. */
  lemma {:induction false} ToMapKeepsAll(changes: seq<Change>)
    requires DistinctKeys(changes)
    ensures |ToMap(changes)| == |changes|
    ensures forall i :: 0 <= i < |changes| ==> Get(ToMap(changes), changes[i].key) == Some(changes[i].value)
    decreases |changes|
  {
    if changes != [] {
      var n := |changes| - 1;
      var front, last := changes[..n], changes[n];
      ToMapKeepsAll(front);
      ToMapKeys(front, last.key);
      assert last.key !in ToMap(front);
      assert ToMap(changes).Keys == ToMap(front).Keys + {last.key};
      forall i | 0 <= i < n
        ensures Get(ToMap(changes), changes[i].key) == Some(changes[i].value)
      {
        assert front[i] == changes[i];
      }
    }
  }

  // ----- The reader -----

  class FeltIterator {
    var rest: seq<Felt>

    constructor (felts: seq<Felt>)
      ensures rest == felts
    {
      rest := felts;
    }

    method Next() returns (r: Result<Felt>)
      modifies this
      ensures if old(rest) == [] then r.Err? else r == Ok(old(rest)[0]) && rest == old(rest)[1..]
    {
      if rest == [] {
        return Err;
      }
      r := Ok(rest[0]);
      rest := rest[1..];
    }

    method NextAsUsize() returns (r: Result<nat>)
      modifies this
      ensures if old(rest) == [] || old(rest)[0] >= USIZE then r.Err?
              else r == Ok(old(rest)[0]) && rest == old(rest)[1..]
    {
      var x :- Next();
      r := if x < USIZE then Ok(x) else Err;
    }

    /** Rust's `take`: as many as there are, at most `n`. */
    method Take(n: nat) returns (s: seq<Felt>)
      modifies this
      ensures s + rest == old(rest) && |s| == if n <= |old(rest)| then n else |old(rest)|
    {
      var k := if n <= |rest| then n else |rest|;
      s := rest[..k];
      rest := rest[k..];
    }

    method ReadSegment(length: nat) returns (r: Result<seq<Felt>>)
      modifies this
      ensures var raw := TakeFelts(old(rest), length);
              r.Ok? == raw.Some? && (r.Ok? ==> raw.value == (r.value, rest))
    {
      var segment := Take(length);
      r := if |segment| != length then Err else Ok(segment);
    }

    method ReadVariableLengthSegment() returns (r: Result<seq<Felt>>)
      modifies this
      ensures var raw := ParseSegment(old(rest));
              r.Ok? == raw.Some? && (r.Ok? ==> raw.value == (r.value, rest))
    {
      var n :- NextAsUsize();
      r := ReadSegment(n);
    }
  }

  lemma {:induction false} RepeatStops<T>(p: Parser<T>, s: seq<Felt>, i: nat, n: nat)
    requires i <= n && Repeat(p, s, i).None?
    ensures Repeat(p, s, n).None?
    decreases n
  {
    if i < n {
      RepeatStops(p, s, i, n - 1);
    }
  }

  method DeserializeDaChanges(it: FeltIterator, n: nat, fullOutput: Felt) returns (r: Result<map<Felt, Felt>>)
    modifies it
    ensures var raw := Repeat(ChangeParser(fullOutput != 0), old(it.rest), n);
            r.Ok? == raw.Some? && (r.Ok? ==> r.value == ToMap(raw.value.0) && it.rest == raw.value.1)
  {
    ghost var p, s := ChangeParser(fullOutput != 0), it.rest;
    ghost var changes: seq<Change> := [];
    var storageChanges: map<Felt, Felt> := map[];
    for i := 0 to n
      invariant Repeat(p, s, i) == Some((changes, it.rest))
      invariant storageChanges == ToMap(changes)
    {
      ghost var raw := ParseChange(it.rest, fullOutput != 0);
      if raw.None? {
        RepeatStops(p, s, i + 1, n);
      }
      var entry :- NextChange(it, fullOutput);
      storageChanges := storageChanges[entry.0 := entry.1];
      ToMapAppend(changes, raw.value.0);
      changes := changes + [raw.value.0];
    }
    r := Ok(storageChanges);
  }

  lemma ToMapAppend(changes: seq<Change>, c: Change)
    ensures ToMap(changes + [c]) == ToMap(changes)[c.key := c.value]
  {
    assert (changes + [c])[..|changes|] == changes;
  }

  /** A key and its new value; the previous value in full output is skipped. */
  method NextChange(it: FeltIterator, fullOutput: Felt) returns (r: Result<(Felt, Felt)>)
    modifies it
    ensures var raw := ParseChange(old(it.rest), fullOutput != 0);
            && r.Ok? == raw.Some?
            && (r.Ok? ==> r.value == (raw.value.0.key, raw.value.0.value) && it.rest == raw.value.1)
  {
    var key :- it.Next();
    if fullOutput != 0 {
      var _ :- it.Next();
    }
    var value :- it.Next();
    r := Ok((key, value));
  }

  method DeserializeContractStateInner(it: FeltIterator, fullOutput: Felt) returns (r: Result<ContractChanges>)
    modifies it
    ensures var raw := ParseContract(old(it.rest), fullOutput != 0);
            r.Ok? == raw.Some? && (r.Ok? ==> r.value == Kept(raw.value.0) && it.rest == raw.value.1)
  {
    var addr :- it.Next();
    var word :- it.Next();
    var value, nActualUpdates := word / USIZE, word % USIZE;
    var wasClassUpdated, nonce := value / USIZE, value % USIZE;
    var classHash: Option<Felt> := None;
    if fullOutput != 0 {
      var _ :- it.Next();
      var c :- it.Next();
      classHash := Some(c);
    } else if wasClassUpdated != 0 {
      var c :- it.Next();
      classHash := Some(c);
    }
    var storageChanges :- DeserializeDaChanges(it, nActualUpdates, fullOutput);
    r := Ok(ContractChanges(addr, nonce, classHash, storageChanges));
  }

  lemma KeptAppend(records: seq<ContractRecord>, c: ContractRecord)
    ensures KeptAll(records + [c]) == KeptAll(records) + [Kept(c)]
  {
  }

  method DeserializeContractState(it: FeltIterator, fullOutput: Felt) returns (r: Result<seq<ContractChanges>>)
    modifies it
    ensures var raw := ParseCounted(ContractParser(fullOutput != 0), old(it.rest));
            r.Ok? == raw.Some? && (r.Ok? ==> r.value == KeptAll(raw.value.0) && it.rest == raw.value.1)
  {
    var n :- it.NextAsUsize();
    ghost var p, s := ContractParser(fullOutput != 0), it.rest;
    ghost var records: seq<ContractRecord> := [];
    var contracts: seq<ContractChanges> := [];
    for i := 0 to n
      invariant Repeat(p, s, i) == Some((records, it.rest))
      invariant contracts == KeptAll(records)
    {
      ghost var raw := ParseContract(it.rest, fullOutput != 0);
      if raw.None? {
        RepeatStops(p, s, i + 1, n);
      }
      var c :- DeserializeContractStateInner(it, fullOutput);
      contracts := contracts + [c];
      KeptAppend(records, raw.value.0);
      records := records + [raw.value.0];
    }
    r := Ok(contracts);
  }

  method DeserializeContractClassDaChanges(it: FeltIterator, fullOutput: Felt) returns (r: Result<map<Felt, Felt>>)
    modifies it
    ensures var raw := ParseCounted(ChangeParser(fullOutput != 0), old(it.rest));
            r.Ok? == raw.Some? && (r.Ok? ==> r.value == ToMap(raw.value.0) && it.rest == raw.value.1)
  {
    var n :- it.NextAsUsize();
    r := DeserializeDaChanges(it, n, fullOutput);
  }

  /** Skips the data about blobs; the length of what is skipped is not checked. */
  method SkipKzg(it: FeltIterator, useKzgDa: Felt) returns (ok: bool)
    modifies it
    ensures var raw := ParseKzg(old(it.rest), useKzgDa);
            if raw.Some? then ok && it.rest == raw.value.1 else !ok || it.rest == []
  {
    if useKzgDa != 0 {
      var segment := it.Take(2);
      if |segment| < 2 || 4 * segment[1] >= USIZE {
        return false;
      }
      var _ := it.Take(4 * segment[1]);
    }
    ok := true;
  }

  method DeserializeOsOutput(it: FeltIterator) returns (r: Result<StarknetOsOutput>)
    modifies it
    ensures var raw := Parse(old(it.rest));
            r.Ok? == raw.Some? && (r.Ok? ==> r.value == OutputOf(raw.value.0) && it.rest == raw.value.1)
  {
    var felts :- it.ReadSegment(HEADER_SIZE);
    var header := HeaderOf(felts);
    var ok := SkipKzg(it, header.useKzgDa);
    if !ok {
      return Err;
    }
    var messagesToL1 :- it.ReadVariableLengthSegment();
    var messagesToL2 :- it.ReadVariableLengthSegment();
    var contracts: seq<ContractChanges> := [];
    var classes: map<Felt, Felt> := map[];
    if header.useKzgDa == 0 {
      contracts :- DeserializeContractState(it, header.fullOutput);
      classes :- DeserializeContractClassDaChanges(it, header.fullOutput);
    }
    r := Ok(StarknetOsOutput(header, messagesToL1, messagesToL2, contracts, classes));
  }

  /** An encoded record is read back without its previous values and its blob data, and what
      follows it is left alone. */
  method RoundTrip(r: Record, rest: seq<Felt>) returns (output: StarknetOsOutput, left: seq<Felt>)
    requires Valid(r)
    ensures output == OutputOf(r) && left == rest
  {
    var it := new FeltIterator(Encode(r) + rest);
    ParseComplete(r, rest);
    var read := DeserializeOsOutput(it);
    output, left := read.value, it.rest;
  }
}
