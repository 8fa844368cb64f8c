/** Whole scalar steps of the host over the model endpoint, and their exact
    correspondence with the oracle's instructions. */
module ScalarRuns {
  import opened Outcomes
  import opened Bytes
  import opened Crc32
  import opened Ghash
  import opened Pointers
  import opened Protocol
  import opened Requests
  import opened Frames
  import opened Transitions
  import opened HostMemory
  import opened Refinement
  import opened Lockstep
  import Programs
  import Oracle
  import Host
  import Endpoint

  // ----- one operation -----

  lemma PreparedWell(h: Host.State, profile: Profile, op: Programs.Operation)
    requires h.txnId < U32_LIMIT && !op.Blake3? && Host.Prepare(h, profile, op).Ok?
    ensures var r := Host.Prepare(h, profile, op).value.request;
            r.Valid() && Endpoint.IsScalar(r) && r.head == Preamble(h.txnId, h.pc, h.fp, profile)
  {
    hide Inverse, Reverse;
  }

  /** The oracle's copy of the host's scalar state. */
  function Image(h: Host.State, cycles: nat): (s: Oracle.State)
    ensures s.Valid() && Mirrors(s, h.cells, h.pc, h.fp)
  {
    Oracle.State(h.cells, h.cells.Keys, h.pc, h.fp, cycles)
  }

  /** Whatever the endpoint decides about a prepared request, the host can commit. */
  lemma DecisionCommittable(h: Host.State, profile: Profile, op: Programs.Operation)
    requires h.txnId < U32_LIMIT && !op.Blake3? && Host.Prepare(h, profile, op).Ok?
    ensures var p := Host.Prepare(h, profile, op).value;
            p.request.Valid() && Endpoint.IsScalar(p.request) &&
            (Decide(p.request).Ok? ==> Committable(h.cells, p.addresses, Decide(p.request).value))
  {
    PreparedWell(h, profile, op);
    if op.Deref? {
      DerefCommittable(h, profile, op);
    } else {
      PreparedRefines(h, profile, op, Image(h, 0));
    }
  }

  lemma DerefCommittable(h: Host.State, profile: Profile, op: Programs.Operation)
    requires h.txnId < U32_LIMIT && op.Deref? && Host.Prepare(h, profile, op).Ok?
    ensures var p := Host.Prepare(h, profile, op).value;
            p.request.Valid() && Endpoint.IsScalar(p.request) &&
            (Decide(p.request).Ok? ==> Committable(h.cells, p.addresses, Decide(p.request).value))
  {
    hide Host.Prepare, Reverse, Committable, DecideDeref, Request.Valid, Host.PrepareDeref;
    var base := PreparedDeref(h, profile, op);
    PreparedWell(h, profile, op);
    DerefFits(op.mode, Preamble(h.txnId, h.pc, h.fp, profile), op.alpha, op.beta, op.gamma, base, h.cells);
  }

  /** The request a prepared dereference sends. */
  lemma PreparedDeref(h: Host.State, profile: Profile, op: Programs.Operation) returns (base: u32)
    requires h.txnId < U32_LIMIT && op.Deref? && Host.Prepare(h, profile, op).Ok?
    ensures h.fp + op.alpha <= U32_MAX && base + op.beta <= U32_MAX && h.fp + op.gamma <= U32_MAX
    ensures h.fp + op.alpha in h.cells && Reverse(h.cells[h.fp + op.alpha], INDEX_LIMIT) == Some(base)
    ensures var p, t, l := h.fp + op.alpha, base + op.beta, h.fp + op.gamma;
            Host.Prepare(h, profile, op).value == Host.Prepared(
              Request.Deref(op.mode, Preamble(h.txnId, h.pc, h.fp, profile), op.alpha, op.beta, op.gamma,
                            CellOf(h.cells, p), base, CellOf(h.cells, t), CellOf(h.cells, l)),
              [p, t, l])
  {
    hide Reverse;
    base := Host.Prepare(h, profile, op).value.request.base;
  }

  /** Beyond the oracle's own faults, what the protocol additionally asks for: indices inside its
      window, the local address of a dereference, and under FORWARD_ONLY both operands in memory. */
  predicate Supported(h: Host.State, profile: Profile, op: Programs.Operation) {
    && h.pc < INDEX_LIMIT && h.fp < INDEX_LIMIT
    && (op.Xor? || op.Mul? ==> BinarySupported(profile, h.cells, h.fp + op.a, h.fp + op.b))
    && (op.Deref? ==> h.fp + op.gamma <= U32_MAX && (op.mode == ModePc ==> h.pc + 2 < INDEX_LIMIT))
  }

  /** The endpoint's decision on the prepared request, against the oracle's instruction: it
      accepts exactly the supported part of what the oracle executes, to the same effect. */
  ghost predicate OperationRefines(h: Host.State, profile: Profile, op: Programs.Operation, s: Oracle.State)
    requires h.txnId < U32_LIMIT && !op.Blake3? && s.Valid()
  {
    && Host.Prepare(h, profile, op).Ok?
    && var p := Host.Prepare(h, profile, op).value;
    && p.request.Valid() && Endpoint.IsScalar(p.request)
    && var d, o := Decide(p.request), Oracle.Step(s, op);
    && (d.Ok? ==> o.Ok? && Agrees(s, h.cells, d.value, o.value) && d.value.deferred == [])
    && (d.Ok? && !op.Deref? ==> Committable(h.cells, p.addresses, d.value))
    && (h.pc < INDEX_LIMIT && h.fp < INDEX_LIMIT ==> (d.Ok? <==> o.Ok? && Supported(h, profile, op)))
  }

  lemma PreparedRefines(h: Host.State, profile: Profile, op: Programs.Operation, s: Oracle.State)
    requires h.txnId < U32_LIMIT && op.Interpreted()
    requires Host.Prepare(h, profile, op).Ok? && Mirrors(s, h.cells, h.pc, h.fp)
    ensures OperationRefines(h, profile, op, s)
  {
    PreparedWell(h, profile, op);
    match op
    case Set(o, k) => SetOperation(h, profile, op, s);
    case Xor(a, b, c) => BinaryOperation(h, profile, op, s);
    case Mul(a, b, c) => BinaryOperation(h, profile, op, s);
    case Deref(mode, alpha, beta, gamma) => DerefOperation(h, profile, op, s);
    case Jump(oc, od, of) => JumpOperation(h, profile, op, s);
  }

  lemma SetOperation(h: Host.State, profile: Profile, op: Programs.Operation, s: Oracle.State)
    requires h.txnId < U32_LIMIT && op.Set? && Host.Prepare(h, profile, op).Ok? && Mirrors(s, h.cells, h.pc, h.fp)
    ensures OperationRefines(h, profile, op, s)
  {
    PreparedWell(h, profile, op);
    SetRefines(Preamble(h.txnId, h.pc, h.fp, profile), op.o, op.k, h.cells, s);
    hide DecideSet, Oracle.Step, Committable, Agrees;
  }

  lemma BinaryOperation(h: Host.State, profile: Profile, op: Programs.Operation, s: Oracle.State)
    requires h.txnId < U32_LIMIT && (op.Xor? || op.Mul?) && Host.Prepare(h, profile, op).Ok? && Mirrors(s, h.cells, h.pc, h.fp)
    ensures OperationRefines(h, profile, op, s)
  {
    hide Host.Prepare, DecideBinary, Oracle.StepBinary, Committable, Agrees, BinarySupported, Host.InverseWitness, Host.CellsAt,
      Addresses, Request.Valid;
    PreparedWell(h, profile, op);
    var head := Preamble(h.txnId, h.pc, h.fp, profile);
    var offsets := [op.a, op.b, op.c];
    var operation := if op.Mul? then OpMul else OpXor;
    PreparedBinary(h, profile, op);
    BinaryRefines(operation, head, offsets, h.cells, s);
  }

  /** The request a prepared XOR or MUL sends. */
  lemma PreparedBinary(h: Host.State, profile: Profile, op: Programs.Operation)
    requires h.txnId < U32_LIMIT && (op.Xor? || op.Mul?) && Host.Prepare(h, profile, op).Ok?
    ensures var a, b, c := h.fp + op.a, h.fp + op.b, h.fp + op.c;
            && a <= U32_MAX && b <= U32_MAX && c <= U32_MAX
            && Addresses(h.fp, [op.a, op.b, op.c]) == Ok([a, b, c])
            && var p, head := Host.Prepare(h, profile, op).value, Preamble(h.txnId, h.pc, h.fp, profile);
            && p.addresses == [a, b, c]
            && p.request == (if op.Mul?
                             then Request.Mul(head, [op.a, op.b, op.c], Host.CellsAt(h.cells, [a, b, c]),
                                              Witness(OpMul, profile, h.cells, a, b, c))
                             else Request.Xor(head, [op.a, op.b, op.c], Host.CellsAt(h.cells, [a, b, c])))
  {
    hide Host.InverseWitness;
  }

  lemma DerefOperation(h: Host.State, profile: Profile, op: Programs.Operation, s: Oracle.State)
    requires h.txnId < U32_LIMIT && op.Deref? && op.mode != ModeCell
    requires Host.Prepare(h, profile, op).Ok? && Mirrors(s, h.cells, h.pc, h.fp)
    ensures OperationRefines(h, profile, op, s)
  {
    hide Host.Prepare, DecideDeref, Oracle.StepDeref, Agrees, Reverse, Committable, Request.Valid, CellOf;
    PreparedWell(h, profile, op);
    var base := PreparedDeref(h, profile, op);
    DerefRefines(op.mode, Preamble(h.txnId, h.pc, h.fp, profile), op.alpha, op.beta, op.gamma, base, h.cells, s);
  }

  lemma JumpOperation(h: Host.State, profile: Profile, op: Programs.Operation, s: Oracle.State)
    requires h.txnId < U32_LIMIT && op.Jump? && Host.Prepare(h, profile, op).Ok? && Mirrors(s, h.cells, h.pc, h.fp)
    ensures OperationRefines(h, profile, op, s)
  {
    hide DecideJump, Oracle.StepJump, Committable, Agrees, Reverse, Inverse, FieldMul, Request.Valid, Host.CellsAt;
    PreparedWell(h, profile, op);
    PreparedBranch(h, profile, op);
    var r := Host.Prepare(h, profile, op).value.request;
    JumpRefines(r.head, [op.oc, op.od, op.of], h.cells, s, r.taken, r.destPc, r.destFp, r.inverse);
    ConditionCell(h, op);
  }

  /** The request a prepared JUMP sends. */
  lemma PreparedBranch(h: Host.State, profile: Profile, op: Programs.Operation)
    requires h.txnId < U32_LIMIT && op.Jump? && Host.Prepare(h, profile, op).Ok?
    ensures var a, b, c := h.fp + op.oc, h.fp + op.od, h.fp + op.of;
            && a <= U32_MAX && b <= U32_MAX && c <= U32_MAX
            && Addresses(h.fp, [op.oc, op.od, op.of]) == Ok([a, b, c])
            && var p, cs := Host.Prepare(h, profile, op).value, Host.CellsAt(h.cells, [a, b, c]);
            && p.addresses == [a, b, c]
            && p.request.Jump? && p.request.head == Preamble(h.txnId, h.pc, h.fp, profile)
            && p.request.offsets == [op.oc, op.od, op.of] && p.request.cells == cs
            && p.request.taken == (cs[0].value != 0)
            && (if p.request.taken then
                  && Reverse(cs[1].value, INDEX_LIMIT) == Some(p.request.destPc)
                  && Reverse(cs[2].value, INDEX_LIMIT) == Some(p.request.destFp)
                  && p.request.inverse == Cell(true, Inverse(cs[0].value))
                else p.request.destPc == 0 && p.request.destFp == 0 && p.request.inverse == ABSENT)
  {
    hide Reverse, Inverse, Host.CellsAt;
  }

  lemma ConditionCell(h: Host.State, op: Programs.Operation)
    requires op.Jump? && h.fp + op.oc <= U32_MAX && h.fp + op.od <= U32_MAX && h.fp + op.of <= U32_MAX
    ensures Host.CellsAt(h.cells, [h.fp + op.oc, h.fp + op.od, h.fp + op.of])[0] == CellOf(h.cells, h.fp + op.oc)
  {
  }

  /** A host refusal is an oracle fault, or the one address the oracle never computes. */
  lemma RefusalIsFault(h: Host.State, profile: Profile, op: Programs.Operation, s: Oracle.State)
    requires h.txnId < U32_LIMIT && op.Interpreted()
    requires Host.Prepare(h, profile, op).Err? && Mirrors(s, h.cells, h.pc, h.fp)
    ensures Oracle.Step(s, op).Err? || (op.Deref? && h.fp + op.gamma > U32_MAX)
  {
    ZeroIsNoPointer(INDEX_LIMIT);
    hide Inverse, Reverse, FieldMul, Add, GPower, Oracle.FillOperand;
  }

  // ----- a whole step over the model endpoint -----

  /** One `HostRuntime.step` with the model endpoint at the other end of the lane. */
  ghost predicate ModelStep(h: Host.State, profile: Profile, e: Endpoint.State, op: Programs.Operation,
                            outcome: Host.StepOutcome, h': Host.State, e': Endpoint.State)
    requires !op.Blake3? && h.txnId + 1 < U32_LIMIT && e.Valid()
  {
    var h1 := h.(txnId := h.txnId + 1);
    match Host.Prepare(h1, profile, op)
    case Err(refusal) => outcome == Host.Refused(refusal) && h' == h1 && e' == e
    case Ok(p) =>
      var h2 := h1.(stepIndex := h1.stepIndex + 1);
      p.request.Valid() && PreparedStep(h2, e, p, outcome, h', e')
  }

  /** The exchanges of a step whose request is prepared. */
  ghost predicate PreparedStep(h: Host.State, e: Endpoint.State, p: Host.Prepared,
                               outcome: Host.StepOutcome, h': Host.State, e': Endpoint.State)
    requires e.Valid() && p.request.Valid() && h.txnId < U32_LIMIT
  {
    var e1 := Endpoint.Answer(e, p.request);
    match Host.Judge(h, p.addresses, ReplyOf(e1))
    case Err(o) => outcome == o && h' == h && e' == Endpoint.Drained(e1)
    case Ok(t) =>
      && Endpoint.Drained(e1).Valid()
      && var e2 := Endpoint.Answer(Endpoint.Drained(e1), RetireRequest(h, ReplyOf(e1)));
      && outcome == Host.JudgeRetire(h, t, ReplyOf(e2))
      && e' == Endpoint.Drained(e2)
      && (if outcome.Retired? then Host.IsCommit(h, t, h') else h' == h)
  }

  /** The RETIRE the host sends for the result it read. */
  function RetireRequest(h: Host.State, reply: Host.Reply): (r: Request)
    requires h.txnId < U32_LIMIT
    ensures r.Valid() && r.Retire?
  {
    Request.Retire(h.txnId, if reply.Ok? then Crc(reply.value.payload) else 0)
  }

  /** The endpoint accepts the request this host state prepares. */
  ghost predicate Retirable(h: Host.State, profile: Profile, op: Programs.Operation)
    requires h.txnId < U32_LIMIT && !op.Blake3?
  {
    && Host.Prepare(h, profile, op).Ok?
    && var r := Host.Prepare(h, profile, op).value.request;
       r.Valid() && Endpoint.IsScalar(r) && h.pc < INDEX_LIMIT && h.fp < INDEX_LIMIT && Decide(r).Ok?
  }

  ghost function DecisionFor(h: Host.State, profile: Profile, op: Programs.Operation): Decision
    requires h.txnId < U32_LIMIT && !op.Blake3? && Retirable(h, profile, op)
  {
    Decide(Host.Prepare(h, profile, op).value.request).value
  }

  /** The host as it prepares, and as it transacts. */
  function Counted(h: Host.State): Host.State {
    h.(txnId := h.txnId + 1)
  }

  function Indexed(h: Host.State): Host.State {
    h.(txnId := h.txnId + 1, stepIndex := h.stepIndex + 1)
  }

  /** How a step that does not retire ends: refused by the host, or faulted by the endpoint. */
  ghost function Unretired(h: Host.State, profile: Profile, op: Programs.Operation): Host.StepOutcome
    requires h.txnId < U32_LIMIT && !op.Blake3? && !Retirable(h, profile, op)
  {
    match Host.Prepare(h, profile, op)
    case Err(refusal) => Host.Refused(refusal)
    case Ok(p) =>
      PreparedWell(h, profile, op);
      Host.Faulted(FaultStatus(h, p.request))
  }

  /** With the model endpoint a scalar step never raises: it retires, or is refused by the host
      or by the endpoint with nothing moved; and both sides stay in step. */
  lemma StepStaysInStep(h: Host.State, profile: Profile, e: Endpoint.State, op: Programs.Operation,
                        outcome: Host.StepOutcome, h': Host.State, e': Endpoint.State)
    requires InStep(h, profile, e) && !op.Blake3? && h.txnId + 1 < U32_LIMIT && e.retireSeq + 1 < U32_LIMIT
    requires ModelStep(h, profile, e, op, outcome, h', e')
    ensures InStep(h', profile, e')
    ensures !outcome.Raised? && (outcome.Faulted? ==> !OutOfStep(outcome.status))
    ensures if outcome.Retired? then e'.retireSeq == e.retireSeq + 1 == outcome.retireSeq
            else Host.Untouched(h, h') && e'.Committed() == e.Committed()
    ensures outcome.Retired? <==> Retirable(Counted(h), profile, op)
    ensures outcome.Retired? ==>
              Host.IsCommit(Indexed(h), Endpoint.TransitionOf(h.txnId + 1, DecisionFor(Counted(h), profile, op)), h')
    ensures !outcome.Retired? ==> outcome == Unretired(Counted(h), profile, op)
  {
    var h1, h2 := Counted(h), Indexed(h);
    StaysInStep(h, h1, profile, e);
    StaysInStep(h, h2, profile, e);
    CountersUntouched(h);
    hide Host.Untouched, OutOfStep, Retirable, DecisionFor, Unretired, FaultStatus, InStep, ModelStep, PreparedStep, Host.Prepare, Decide,
      Host.IsCommit, Committable, Request.Valid, Endpoint.State.Valid, Endpoint.IsScalar, Endpoint.TransitionOf;
    ModelStepCases(h, profile, e, op, outcome, h', e');
    RetirableCases(h1, profile, op);
    if Host.Prepare(h1, profile, op).Ok? {
      var p := Host.Prepare(h1, profile, op).value;
      PreparedWell(h1, profile, op);
      DecisionCommittable(h1, profile, op);
      PreparedInStep(h2, profile, e, p, outcome, h', e');
    }
  }

  lemma ModelStepCases(h: Host.State, profile: Profile, e: Endpoint.State, op: Programs.Operation,
                       outcome: Host.StepOutcome, h': Host.State, e': Endpoint.State)
    requires !op.Blake3? && h.txnId + 1 < U32_LIMIT && e.Valid()
    requires ModelStep(h, profile, e, op, outcome, h', e')
    ensures match Host.Prepare(Counted(h), profile, op)
            case Err(refusal) => outcome == Host.Refused(refusal) && h' == Counted(h) && e' == e
            case Ok(p) => p.request.Valid() && PreparedStep(Indexed(h), e, p, outcome, h', e')
  {
    hide PreparedStep, Host.Prepare, Request.Valid, Endpoint.State.Valid;
  }

  lemma RetirableCases(h: Host.State, profile: Profile, op: Programs.Operation)
    requires h.txnId < U32_LIMIT && !op.Blake3?
    ensures match Host.Prepare(h, profile, op)
            case Err(_) => !Retirable(h, profile, op)
            case Ok(p) =>
              && p.request.Valid() && Endpoint.IsScalar(p.request)
              && (Retirable(h, profile, op) <==> h.pc < INDEX_LIMIT && h.fp < INDEX_LIMIT && Decide(p.request).Ok?)
              && (Retirable(h, profile, op) ==> DecisionFor(h, profile, op) == Decide(p.request).value)
    ensures !Retirable(h, profile, op) ==>
      Unretired(h, profile, op) == match Host.Prepare(h, profile, op)
                                   case Err(refusal) => Host.Refused(refusal)
                                   case Ok(p) => Host.Faulted(FaultStatus(h, p.request))
  {
    if Host.Prepare(h, profile, op).Ok? {
      PreparedWell(h, profile, op);
    }
    hide Host.Prepare, Decide, Request.Valid;
  }

  lemma CountersUntouched(h: Host.State)
    ensures Host.Untouched(h, Counted(h)) && Host.Untouched(h, Indexed(h))
  {
  }

  /** The counters do not matter to being in step. */
  lemma StaysInStep(h: Host.State, h1: Host.State, profile: Profile, e: Endpoint.State)
    requires InStep(h, profile, e) && h1 == h.(txnId := h1.txnId, stepIndex := h1.stepIndex)
    ensures InStep(h1, profile, e) && e.Valid()
  {
    hide Endpoint.State.Valid, AllOpen;
  }

  /** Why the endpoint refuses a request prepared in step. */
  function FaultStatus(h: Host.State, r: Request): Status
    requires r.Valid() && Endpoint.IsScalar(r) && (h.pc < INDEX_LIMIT && h.fp < INDEX_LIMIT ==> Decide(r).Err?)
  {
    if h.pc >= INDEX_LIMIT || h.fp >= INDEX_LIMIT then INDEX_RANGE else Decide(r).error.status
  }

  lemma PreparedInStep(h: Host.State, profile: Profile, e: Endpoint.State, p: Host.Prepared,
                       outcome: Host.StepOutcome, h': Host.State, e': Endpoint.State)
    requires InStep(h, profile, e) && h.txnId < U32_LIMIT && e.retireSeq + 1 < U32_LIMIT
    requires p.request.Valid() && Endpoint.IsScalar(p.request) && p.request.head == Preamble(h.txnId, h.pc, h.fp, profile)
    requires Decide(p.request).Ok? ==> Committable(h.cells, p.addresses, Decide(p.request).value)
    requires PreparedStep(h, e, p, outcome, h', e')
    ensures InStep(h', profile, e') && !outcome.Raised? && (outcome.Faulted? ==> !OutOfStep(outcome.status))
    ensures if outcome.Retired? then e'.retireSeq == e.retireSeq + 1 == outcome.retireSeq
            else h' == h && e'.Committed() == e.Committed()
    ensures outcome.Retired? <==> h.pc < INDEX_LIMIT && h.fp < INDEX_LIMIT && Decide(p.request).Ok?
    ensures outcome.Retired? ==> Host.IsCommit(h, Endpoint.TransitionOf(h.txnId, Decide(p.request).value), h')
    ensures !outcome.Retired? ==> outcome == Host.Faulted(FaultStatus(h, p.request))
  {
    hide Host.Judge, Endpoint.Answer, Decide, Host.JudgeRetire, Host.IsCommit, DecodeResponse, Committable, InStep, OutOfStep,
      Endpoint.HandleRetire, Endpoint.HandleInstruction, Endpoint.ResultPayload, Endpoint.Guard, Request.Valid,
      Endpoint.State.Valid, Crc;
    InStepParts(h, profile, e);
    GuardInStep(h, profile, e, p.request.head);
    HandledBy(e, p.request);
    Endpoint.InstructionKeepsCommitted(e, p.request);
    if Endpoint.Guard(e, p.request.head) == None && Decide(p.request).Ok? {
      var d := Decide(p.request).value;
      AcceptedInStep(h, profile, e, p.addresses, p.request, d);
      RetireAnswer(Endpoint.Drained(Endpoint.Answer(e, p.request)), Request.Retire(h.txnId, Crc(Endpoint.ResultPayload(h.txnId, d))));
    } else {
      RefusedInStep(h, profile, e, p.addresses, p.request);
    }
  }

  /** An instruction is refused exactly when its guard or its decision refuses. */
  lemma HandledBy(e: Endpoint.State, r: Request)
    requires e.Valid() && r.Valid() && Endpoint.IsScalar(r)
    ensures Endpoint.HandleInstruction(e, r).fault.Some? <==> Endpoint.Guard(e, r.head).Some? || Decide(r).Err?
    ensures Endpoint.HandleInstruction(e, r).fault.Some? ==> Endpoint.Answer(e, r).Committed() == e.Committed()
    ensures Endpoint.HandleInstruction(e, r).fault
         == match Endpoint.Guard(e, r.head)
            case Some(fault) => Some(fault)
            case None => match Decide(r) case Ok(_) => None case Err(fault) => Some(fault)
  {
    Endpoint.AnswerCommits(e, r);
    hide Decide, Endpoint.Guard, Endpoint.Finish, Endpoint.Answer;
  }

  lemma RetireAnswer(e: Endpoint.State, r: Request)
    requires e.Valid() && r.Retire? && Endpoint.HandleRetire(e, r).fault == None
    ensures Endpoint.Answer(e, r) == Endpoint.HandleRetire(e, r).state
  {
    hide Endpoint.HandleRetire;
  }

  // ----- refinement -----

  lemma CommitWithoutDeferred(h: Host.State, d: Decision, txnId: u32, h': Host.State)
    requires h.deferred == [] && d.deferred == [] && Host.IsCommit(h, Endpoint.TransitionOf(txnId, d), h')
    ensures h'.cells == ApplyWrites(h.cells, d.writes) && h'.deferred == [] && h'.pc == d.nextPc && h'.fp == d.nextFp
  {
    var cells := ApplyWrites(h.cells, d.writes);
    var none: seq<DeferredEquality> := [];
    assert h.deferred + d.deferred == none;
    OpenIsConsistent(cells, none);
    ClosureUnique(cells, none, cells, h'.cells);
  }

  /** Every step that retires is exactly one instruction of the oracle; and a step retires exactly
      when the oracle executes the instruction and the protocol supports it. */
  lemma StepRefinesOracle(h: Host.State, profile: Profile, e: Endpoint.State, op: Programs.Operation,
                          outcome: Host.StepOutcome, h': Host.State, e': Endpoint.State, s: Oracle.State)
    requires InStep(h, profile, e) && op.Interpreted() && h.txnId + 1 < U32_LIMIT && e.retireSeq + 1 < U32_LIMIT
    requires ModelStep(h, profile, e, op, outcome, h', e')
    requires h.deferred == [] && Mirrors(s, h.cells, h.pc, h.fp)
    ensures outcome.Retired? ==>
      && Oracle.Step(s, op).Ok?
      && Mirrors(Oracle.Step(s, op).value, h'.cells, h'.pc, h'.fp)
      && Oracle.Step(s, op).value.cycles == s.cycles + 1
      && h'.deferred == []
    ensures outcome.Retired? <==> Oracle.Step(s, op).Ok? && Supported(h, profile, op)
  {
    StepStaysInStep(h, profile, e, op, outcome, h', e');
    hide Host.Prepare, Decide, Oracle.Step, Supported, InStep, ModelStep, Host.IsCommit, Committable, Request.Valid, Agrees;
    var h1 := Counted(h);
    SupportIgnoresCounter(h, h1, profile, op);
    if Host.Prepare(h1, profile, op).Ok? {
      PreparedRefines(h1, profile, op, s);
      var r := Host.Prepare(h1, profile, op).value.request;
      if outcome.Retired? {
        CommitWithoutDeferred(Indexed(h), Decide(r).value, h1.txnId, h');
        AgreesMirrors(s, h.cells, Decide(r).value, Oracle.Step(s, op).value);
      }
    } else {
      RefusalIsFault(h1, profile, op, s);
    }
  }

  lemma AgreesMirrors(s: Oracle.State, cells: Cells, d: Decision, s': Oracle.State)
    requires Agrees(s, cells, d, s')
    ensures Mirrors(s', ApplyWrites(cells, d.writes), d.nextPc, d.nextFp) && s'.cycles == s.cycles + 1
  {
  }

  lemma SupportIgnoresCounter(h: Host.State, h1: Host.State, profile: Profile, op: Programs.Operation)
    requires h1.cells == h.cells && h1.pc == h.pc && h1.fp == h.fp
    ensures Supported(h, profile, op) <==> Supported(h1, profile, op)
    ensures Supported(h, profile, op) && op.Deref? ==> h.fp + op.gamma <= U32_MAX
    ensures Supported(h, profile, op) ==> h.pc < INDEX_LIMIT && h.fp < INDEX_LIMIT
  {
  }
}
