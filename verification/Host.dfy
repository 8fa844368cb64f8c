/** What the host decides at one step, as functions of its state and of the replies it
    gets: the request it prepares, and whether it believes an answer. No endpoint
    is assumed here; a reply is anything the response decoder can return. */
module Host {
  import opened Outcomes
  import opened Bytes
  import opened Ghash
  import opened Pointers
  import opened Protocol
  import opened Wire
  import opened Requests
  import opened Frames
  import opened Results
  import opened Programs
  import opened HostMemory

  datatype State = State(
    cells: Cells,
    counts: map<u32, nat>,
    deferred: seq<DeferredEquality>,
    pc: u32,
    fp: u32,
    txnId: nat,
    stepIndex: nat
  )

  // ----- preparing a request -----

  /** Why the host refuses before anything is sent. */
  datatype Refusal = PreparationFault(status: Status) | OutsideProgram

  datatype Prepared = Prepared(request: Request, addresses: seq<u32>)

  function Refuse<T>(status: Status): Result<T, Refusal> {
    Err(PreparationFault(status))
  }

  /** `_address`: an overflow is the host's own refusal. */
  function Address(base: nat, offset: nat): Result<u32, Refusal> {
    if base + offset > U32_MAX then Refuse(U32_OVERFLOW) else Ok(base + offset)
  }

  function ThreeAddresses(fp: u32, a: u32, b: u32, c: u32): (r: Result<seq<u32>, Refusal>)
    ensures r.Ok? ==> r.value == [fp + a, fp + b, fp + c]
  {
    var x :- Address(fp, a);
    var y :- Address(fp, b);
    var z :- Address(fp, c);
    Ok([x, y, z])
  }

  function CellsAt(cells: Cells, addresses: seq<u32>): (r: seq<Cell>)
    ensures AllCanonical(r) && |r| == |addresses|
  {
    seq(|addresses|, i requires 0 <= i < |addresses| => CellOf(cells, addresses[i]))
  }

  /** `PointerMap.index_of`, with its refusal. */
  ghost function IndexOf(pointer: F128): Result<u32, Refusal> {
    match Reverse(pointer, INDEX_LIMIT)
    case Some(index) => Ok(index)
    case None => Refuse(BAD_POINTER)
  }

  /** `_inverse_witness`: only when the endpoint will back-solve a product. */
  ghost function InverseWitness(profile: Profile, left: Cell, right: Cell, destination: Cell): (c: Cell)
    ensures c.Canonical()
  {
    var known := if left.present then left else right;
    if profile != INTERPRETER_COMPAT || !destination.present || left.present == right.present || known.value == 0
    then ABSENT
    else Cell(true, Inverse(known.value))
  }

  ghost function PrepareBinary(h: State, profile: Profile, isMul: bool, a: u32, b: u32, c: u32): Result<Prepared, Refusal>
    requires h.txnId < U32_LIMIT
  {
    var addresses :- ThreeAddresses(h.fp, a, b, c);
    var cells := CellsAt(h.cells, addresses);
    var head := Preamble(h.txnId, h.pc, h.fp, profile);
    Ok(Prepared(if isMul then Request.Mul(head, [a, b, c], cells, InverseWitness(profile, cells[0], cells[1], cells[2]))
                else Request.Xor(head, [a, b, c], cells),
                addresses))
  }

  ghost function PrepareDeref(h: State, profile: Profile, mode: DerefMode, alpha: u32, beta: u32, gamma: u32)
    : Result<Prepared, Refusal>
    requires h.txnId < U32_LIMIT
  {
    var pointerAddress :- Address(h.fp, alpha);
    if pointerAddress !in h.cells then Refuse(BAD_POINTER) else
    var base :- IndexOf(h.cells[pointerAddress]);
    var target :- Address(base, beta);
    var local :- Address(h.fp, gamma);
    Ok(Prepared(
      Request.Deref(mode, Preamble(h.txnId, h.pc, h.fp, profile), alpha, beta, gamma,
                    CellOf(h.cells, pointerAddress), base, CellOf(h.cells, target), CellOf(h.cells, local)),
      [pointerAddress, target, local]))
  }

  ghost function PrepareJump(h: State, profile: Profile, oc: u32, od: u32, of: u32): Result<Prepared, Refusal>
    requires h.txnId < U32_LIMIT
  {
    var addresses :- ThreeAddresses(h.fp, oc, od, of);
    var cells := CellsAt(h.cells, addresses);
    var head := Preamble(h.txnId, h.pc, h.fp, profile);
    if cells[0].value == 0 then
      Ok(Prepared(Request.Jump(head, [oc, od, of], cells, false, 0, 0, ABSENT), addresses))
    else if !cells[1].present || !cells[2].present then Refuse(BAD_POINTER)
    else
      var destPc :- IndexOf(cells[1].value);
      var destFp :- IndexOf(cells[2].value);
      Ok(Prepared(Request.Jump(head, [oc, od, of], cells, true, destPc, destFp, Cell(true, Inverse(cells[0].value))), addresses))
  }

  /** `_prepare` of a scalar operation, after the transaction counter moved. */
  ghost function Prepare(h: State, profile: Profile, op: Operation): (r: Result<Prepared, Refusal>)
    requires h.txnId < U32_LIMIT && !op.Blake3?
  {
    match op
    case Set(o, k) =>
      var address :- Address(h.fp, o);
      Ok(Prepared(Request.SetConstant(Preamble(h.txnId, h.pc, h.fp, profile), o, k, CellOf(h.cells, address)), [address]))
    case Xor(a, b, c) => PrepareBinary(h, profile, false, a, b, c)
    case Mul(a, b, c) => PrepareBinary(h, profile, true, a, b, c)
    case Deref(mode, alpha, beta, gamma) => PrepareDeref(h, profile, mode, alpha, beta, gamma)
    case Jump(oc, od, of) => PrepareJump(h, profile, oc, od, of)
  }

  // ----- believing an answer -----

  /** Why a step raises after something was sent. */
  datatype Failure = ProtocolViolation | WriteOnceViolation | ServiceFailed | Undecodable(error: DecodeError)

  datatype StepOutcome =
    | Retired(retireSeq: u32)
    | Faulted(status: Status)
    | Refused(refusal: Refusal)
    | Raised(failure: Failure)

  type Reply = Result<Response, DecodeError>

  /** The section 9.1 rejections that decided nothing. */
  predicate FrameOnlyFault(s: Status) {
    s in {BAD_SOF, BAD_VERSION, BAD_OPCODE, BAD_LENGTH, BAD_CRC, BAD_FLAGS, BAD_STATE, BAD_SERVICE}
  }

  /** `check_fault_response`: whether a non-`OK` reply can be this step's fault. */
  predicate CredibleFault(r: Response, txnId: nat, staged: bool) {
    && r.status.IsFault()
    && |r.payload| == 5
    && U32Of(r.payload[..4]) == txnId
    && (if staged then r.status == RETIRE_MISMATCH else !FrameOnlyFault(r.status))
  }

  function FaultOutcome(r: Response, txnId: nat, staged: bool): StepOutcome {
    if CredibleFault(r, txnId, staged) then Faulted(r.status) else Raised(ProtocolViolation)
  }

  /** Each write in turn: against the earlier ones of the batch, then against memory. */
  function CheckWrites(cells: Cells, proposed: Cells, writes: seq<Write>): Option<Failure>
    decreases |writes|
  {
    if writes == [] then None
    else
      var w := writes[0];
      if w.address in proposed && proposed[w.address] != w.value then Some(ProtocolViolation)
      else if w.address in cells && cells[w.address] != w.value then Some(WriteOnceViolation)
      else CheckWrites(cells, proposed[w.address := w.value], writes[1..])
  }

  /** The result names only addresses the frame carried. */
  predicate WithinFrame(addresses: seq<u32>, t: Transition) {
    && (forall w :: w in t.writes ==> w.address in addresses)
    && (forall d :: d in t.deferred ==> d.target in addresses && d.local in addresses)
    && (forall a :: a in t.accesses ==> a in addresses)
  }

  /** `_decode_and_prevalidate_result`. */
  ghost function Prevalidate(h: State, addresses: seq<u32>, payload: seq<byte>): Result<Transition, Failure> {
    match DecodeTransition(payload)
    case None => Err(ProtocolViolation)
    case Some(t) =>
      if t.txnId != h.txnId then Err(ProtocolViolation)
      else match CheckWrites(h.cells, map[], t.writes)
        case Some(failure) => Err(failure)
        case None =>
          if !Consistent(ApplyWrites(h.cells, t.writes), h.deferred + t.deferred) then Err(WriteOnceViolation)
          else if !WithinFrame(addresses, t) then Err(ProtocolViolation)
          else Ok(t)
  }

  /** What the reply to the instruction is worth: a transition to retire, or the end of the step. */
  ghost function Judge(h: State, addresses: seq<u32>, reply: Reply): Result<Transition, StepOutcome> {
    match reply
    case Err(e) => Err(Raised(Undecodable(e)))
    case Ok(r) =>
      if r.status != OK then Err(FaultOutcome(r, h.txnId, false))
      else match Prevalidate(h, addresses, r.payload)
        case Err(failure) => Err(Raised(failure))
        case Ok(t) => Ok(t)
  }

  /** What the reply to RETIRE is worth: the commit, or the end of the step. */
  function JudgeRetire(h: State, t: Transition, reply: Reply): StepOutcome {
    match reply
    case Err(e) => Raised(Undecodable(e))
    case Ok(r) =>
      if r.status != RETIRED then FaultOutcome(r, h.txnId, true)
      else if |r.payload| != 16 then Raised(ProtocolViolation)
      else if U32Of(r.payload[..4]) != h.txnId then Raised(ProtocolViolation)
      else if (U32Of(r.payload[8..12]), U32Of(r.payload[12..16])) != (t.nextPc, t.nextFp) then Raised(ProtocolViolation)
      else StepOutcome.Retired(U32Of(r.payload[4..8]))
  }

  /** The commit block: exactly the decoded result, deferred equalities closed. */
  ghost predicate IsCommit(h: State, t: Transition, h': State) {
    && IsClosure(ApplyWrites(h.cells, t.writes), h.deferred + t.deferred, h'.cells)
    && h'.counts == CountAccesses(h.counts, t.accesses)
    && h'.deferred == OpenPairs(h.deferred + t.deferred, h'.cells)
    && h'.pc == t.nextPc && h'.fp == t.nextFp
    && h'.txnId == h.txnId && h'.stepIndex == h.stepIndex
  }

  /** Nothing but the host's own counters. */
  predicate Untouched(h: State, h': State) {
    h'.cells == h.cells && h'.counts == h.counts && h'.deferred == h.deferred && h'.pc == h.pc && h'.fp == h.fp
  }

  /** The outcome of a step and the state after it, for arbitrary replies. The state is
      either untouched or the commit of the transition the first reply carried. */
  ghost predicate IsStep(h: State, profile: Profile, op: Operation, reply: Reply, retire: Reply, outcome: StepOutcome, h': State)
    requires !op.Blake3? && h.txnId + 1 < U32_LIMIT
  {
    var h1 := h.(txnId := h.txnId + 1);
    match Prepare(h1, profile, op)
    case Err(refusal) => outcome == Refused(refusal) && h' == h1
    case Ok(p) =>
      var h2 := h1.(stepIndex := h1.stepIndex + 1);
      match Judge(h2, p.addresses, reply)
      case Err(o) => outcome == o && h' == h2
      case Ok(t) =>
        outcome == JudgeRetire(h2, t, retire) && (if outcome.Retired? then IsCommit(h2, t, h') else h' == h2)
  }

  /** The acknowledgement of a retirement, for the transition that was staged. */
  predicate Acknowledges(h: State, t: Transition, r: Response) {
    && r.status == RETIRED && |r.payload| == 16
    && U32Of(r.payload[..4]) == h.txnId
    && U32Of(r.payload[8..12]) == t.nextPc && U32Of(r.payload[12..16]) == t.nextFp
  }

  /** Both replies vouch for the transition: the first carries it and can be committed, the second
      acknowledges it. */
  ghost predicate Vouch(h: State, addresses: seq<u32>, reply: Reply, retire: Reply, t: Transition) {
    && reply.Ok? && reply.value.status == OK && Prevalidate(h, addresses, reply.value.payload) == Ok(t)
    && retire.Ok? && Acknowledges(h, t, retire.value)
  }

  /** All or nothing, whatever the endpoint answers to a scalar operation: the step retires exactly
      when a request was prepared and both replies vouch for one transition, which it then commits;
      otherwise nothing the program can see has moved. */
  lemma AllOrNothing(h: State, profile: Profile, op: Operation, reply: Reply, retire: Reply, outcome: StepOutcome, h': State)
    requires !op.Blake3? && h.txnId + 1 < U32_LIMIT
    requires IsStep(h, profile, op, reply, retire, outcome, h')
    ensures !outcome.Retired? ==> Untouched(h, h')
    ensures var h1 := h.(txnId := h.txnId + 1);
            var h2 := h1.(stepIndex := h.stepIndex + 1);
            match Prepare(h1, profile, op)
            case Err(refusal) => outcome == Refused(refusal)
            case Ok(p) =>
              && (outcome.Retired? <==> exists t :: Vouch(h2, p.addresses, reply, retire, t))
              && (forall t :: Vouch(h2, p.addresses, reply, retire, t) ==> IsCommit(h2, t, h'))
  {
    hide Prepare, Prevalidate, IsCommit, U32Of;
    var h1 := h.(txnId := h.txnId + 1);
    if outcome.Retired? {
      var p, h2 := Prepare(h1, profile, op).value, h1.(stepIndex := h.stepIndex + 1);
      assert Vouch(h2, p.addresses, reply, retire, Judge(h2, p.addresses, reply).value);
    }
  }

  // ----- an accepted batch cannot fail to apply -----

  lemma {:induction false} CheckedWritesApply(cells: Cells, proposed: Cells, applied: Cells, writes: seq<Write>)
    requires CheckWrites(cells, proposed, writes) == None
    requires applied == cells + proposed
    ensures AllAdmitted(applied, writes)
    decreases |writes|
  {
    if writes != [] {
      var w := writes[0];
      assert applied[w.address := w.value] == cells + proposed[w.address := w.value];
      CheckedWritesApply(cells, proposed[w.address := w.value], applied[w.address := w.value], writes[1..]);
    }
  }

  /** Every write of the batch passes the write-once rule when its turn comes. */
  predicate AllAdmitted(cells: Cells, writes: seq<Write>)
    decreases |writes|
  {
    writes == [] ||
    (var w := writes[0];
     (w.address in cells ==> cells[w.address] == w.value) && AllAdmitted(cells[w.address := w.value], writes[1..]))
  }

  lemma CheckedBatchAdmitted(cells: Cells, writes: seq<Write>)
    requires CheckWrites(cells, map[], writes) == None
    ensures AllAdmitted(cells, writes)
  {
    var none: Cells := map[];
    assert cells == cells + none;
    CheckedWritesApply(cells, none, cells, writes);
  }

  // ----- write once, whatever the endpoint answers -----

  /** No cell that had a value has lost or changed it. */
  predicate Keeps(cells: Cells, more: Cells) {
    forall x :: x in cells ==> x in more && more[x] == cells[x]
  }

  lemma {:induction false} AdmittedKeeps(cells: Cells, writes: seq<Write>)
    requires AllAdmitted(cells, writes)
    ensures Keeps(cells, ApplyWrites(cells, writes))
    decreases |writes|
  {
    if writes != [] {
      AdmittedKeeps(cells[writes[0].address := writes[0].value], writes[1..]);
    }
  }

  lemma {:induction false} AdmittedLands(cells: Cells, writes: seq<Write>, w: Write)
    requires AllAdmitted(cells, writes) && w in writes
    ensures w.address in ApplyWrites(cells, writes) && ApplyWrites(cells, writes)[w.address] == w.value
    decreases |writes|
  {
    var next := cells[writes[0].address := writes[0].value];
    if w == writes[0] {
      AdmittedKeeps(next, writes[1..]);
    } else {
      AdmittedLands(next, writes[1..], w);
    }
  }

  /** A committed result leaves every known cell alone and every written cell as the result says. */
  lemma CommitKeeps(h: State, addresses: seq<u32>, payload: seq<byte>, h': State)
    requires Prevalidate(h, addresses, payload).Ok? && IsCommit(h, Prevalidate(h, addresses, payload).value, h')
    ensures Keeps(h.cells, h'.cells)
    ensures forall w :: w in Prevalidate(h, addresses, payload).value.writes ==> w.address in h'.cells && h'.cells[w.address] == w.value
  {
    hide Prevalidate, CheckWrites, Consistent, IsClosure, ApplyWrites, AllAdmitted, OpenPairs, CountAccesses;
    var t := Prevalidate(h, addresses, payload).value;
    PrevalidatedChecks(h, addresses, payload);
    CheckedBatchAdmitted(h.cells, t.writes);
    AdmittedKeeps(h.cells, t.writes);
    ClosureKeeps(ApplyWrites(h.cells, t.writes), h.deferred + t.deferred, h'.cells);
    forall w | w in t.writes ensures w.address in h'.cells && h'.cells[w.address] == w.value {
      AdmittedLands(h.cells, t.writes, w);
    }
  }

  lemma PrevalidatedChecks(h: State, addresses: seq<u32>, payload: seq<byte>)
    requires Prevalidate(h, addresses, payload).Ok?
    ensures var t := Prevalidate(h, addresses, payload).value;
            && t.txnId == h.txnId && CheckWrites(h.cells, map[], t.writes) == None
            && Consistent(ApplyWrites(h.cells, t.writes), h.deferred + t.deferred)
  {
    hide DecodeTransition, CheckWrites, Consistent, WithinFrame;
  }

  lemma ClosureKeeps(cells: Cells, pairs: seq<DeferredEquality>, closed: Cells)
    requires IsClosure(cells, pairs, closed)
    ensures Keeps(cells, closed)
  {
    forall x | x in cells ensures x in closed && closed[x] == cells[x] {
      ImpliedHere(cells, pairs, x);
    }
  }

  /** Write once against an arbitrary endpoint: no step changes or loses a known cell. */
  lemma StepKeepsCells(h: State, profile: Profile, op: Operation, reply: Reply, retire: Reply, outcome: StepOutcome, h': State)
    requires !op.Blake3? && h.txnId + 1 < U32_LIMIT
    requires IsStep(h, profile, op, reply, retire, outcome, h')
    ensures Keeps(h.cells, h'.cells)
  {
    hide Prepare, Prevalidate, IsCommit, JudgeRetire;
    var h2 := h.(txnId := h.txnId + 1, stepIndex := h.stepIndex + 1);
    if h'.cells != h.cells {
      var p := Prepare(h.(txnId := h.txnId + 1), profile, op).value;
      assert Judge(h2, p.addresses, reply).Ok?;
      CommitKeeps(h2, p.addresses, reply.value.payload, h');
    }
  }

  // ----- deferred equalities, whatever the endpoint answers -----

  /** The equality holds in memory, or is listed and still between two absent cells. */
  predicate Honours(h: State, d: DeferredEquality) {
    IsClosed(h.cells, d) || (d in h.deferred && IsOpen(h.cells, d))
  }

  ghost predicate KeepsEqualities(h: State, h': State) {
    forall d :: Honours(h, d) ==> Honours(h', d)
  }

  lemma ClosureSettles(cells: Cells, pairs: seq<DeferredEquality>, closed: Cells, d: DeferredEquality)
    requires IsClosure(cells, pairs, closed) && d in pairs
    ensures IsOpen(closed, d) || IsClosed(closed, d)
  {
    assert d == DeferredEquality(d.target, d.local);
    hide Implied;
    if d.target in closed {
      ImpliedAcross(cells, pairs, d.target, d.local, closed[d.target]);
    }
    if d.local in closed {
      ImpliedAcross(cells, pairs, d.local, d.target, closed[d.local]);
    }
  }

  /** A commit keeps every equality, and takes on the ones that were listed or returned with it. */
  lemma CommitKeepsEqualities(h: State, t: Transition, h': State)
    requires IsCommit(h, t, h') && Keeps(h.cells, h'.cells)
    ensures KeepsEqualities(h, h')
    ensures forall d :: d in h.deferred + t.deferred ==> Honours(h', d)
  {
    var pairs := h.deferred + t.deferred;
    OpenPairsAreOpen(pairs, h'.cells);
    hide IsClosure;
    forall d | d in pairs ensures Honours(h', d) {
      ClosureSettles(ApplyWrites(h.cells, t.writes), pairs, h'.cells, d);
    }
  }

  lemma CommitCounters(h: State, t: Transition, h': State)
    requires IsCommit(h, t, h')
    ensures h'.txnId == h.txnId && h'.stepIndex == h.stepIndex
  {
    hide IsClosure;
  }

  lemma SameEqualities(h: State, h': State)
    requires h'.cells == h.cells && h'.deferred == h.deferred
    ensures KeepsEqualities(h, h') && Keeps(h.cells, h'.cells)
  {
  }

  /** No equality is forgotten, and the returned ones are taken on, whatever the replies. */
  lemma StepKeepsEqualities(h: State, profile: Profile, op: Operation, reply: Reply, retire: Reply, outcome: StepOutcome, h': State)
    requires !op.Blake3? && h.txnId + 1 < U32_LIMIT
    requires IsStep(h, profile, op, reply, retire, outcome, h')
    ensures KeepsEqualities(h, h')
    ensures outcome.Retired? ==>
      && reply.Ok? && DecodeTransition(reply.value.payload).Some?
      && forall d :: d in DecodeTransition(reply.value.payload).value.deferred ==> Honours(h', d)
  {
    hide Prepare, Prevalidate, IsCommit, JudgeRetire, Keeps, KeepsEqualities, Honours, DecodeTransition;
    StepKeepsCells(h, profile, op, reply, retire, outcome, h');
    var h1 := h.(txnId := h.txnId + 1);
    var h2 := h1.(stepIndex := h.stepIndex + 1);
    SameEqualities(h, h1);
    SameEqualities(h, h2);
    if outcome.Retired? && Prepare(h1, profile, op).Ok? {
      var addresses := Prepare(h1, profile, op).value.addresses;
      var t := Judge(h2, addresses, reply).value;
      PrevalidatedDecodes(h2, addresses, reply.value.payload);
      CommitKeepsEqualities(h2, t, h');
      KeptThrough(h, h2, h');
    }
  }

  lemma PrevalidatedDecodes(h: State, addresses: seq<u32>, payload: seq<byte>)
    requires Prevalidate(h, addresses, payload).Ok?
    ensures DecodeTransition(payload) == Some(Prevalidate(h, addresses, payload).value)
  {
    hide DecodeTransition, CheckWrites, Consistent, WithinFrame;
  }

  lemma KeptThrough(h: State, h1: State, h2: State)
    requires KeepsEqualities(h, h1) && KeepsEqualities(h1, h2)
    ensures KeepsEqualities(h, h2)
  {
  }
}
