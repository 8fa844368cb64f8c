/** `HostRuntime`: one compiled program driven through an endpoint, transaction by
    transaction. */
module HostRuntime {
  import opened Outcomes
  import opened Bytes
  import opened Crc32
  import opened Ghash
  import opened Pointers
  import opened Protocol
  import opened Wire
  import opened Requests
  import opened Frames
  import opened Results
  import opened Transitions
  import opened Programs
  import opened HostMemory
  import opened Host
  import opened Lane
  import opened LaneEndpoint
  import Exchange
  import Endpoint
  import Lockstep
  import Refinement
  import ScalarRuns
  import Oracle

  /** The driver's limit on clock edges per exchange. */
  const MAX_CYCLES: nat := 100_000

  // ----- one exchange fits the driver's limit -----

  lemma AnswerShort(e: Endpoint.State, r: Request)
    requires e.Valid() && r.Valid() && e.tx == []
    ensures 0 < |Endpoint.Answer(e, r).tx| <= 200
  {
    hide Decide, DecideBlake3, Resume, Endpoint.ResultPayload, Endpoint.ServicePayload, Endpoint.StatusPayload,
      Endpoint.NegotiatePayload, Endpoint.RetiredPayload, Endpoint.State.ReceiveValid;
    if r.ServiceResponse? {
      ServiceAnswerShort(e, r);
    } else if Endpoint.IsScalar(r) || r.Blake3? {
      InstructionAnswerShort(e, r);
    } else {
      hide Endpoint.HandleInstruction, Endpoint.HandleServiceResponse;
    }
  }

  lemma FinishShort(e: Endpoint.State, txnId: u32, d: Decision)
    requires e.tx == [] && d.Small()
    ensures 0 < |Endpoint.Finish(e, txnId, d).tx| <= 200
  {
    Endpoint.ResultPayloadShort(txnId, d);
    hide Endpoint.ResultPayload;
  }

  lemma ServiceAnswerShort(e: Endpoint.State, r: Request)
    requires e.Valid() && r.ServiceResponse? && e.tx == []
    ensures 0 < |Endpoint.Answer(e, r).tx| <= 200
  {
    hide Resume, Endpoint.Finish, Endpoint.ResultPayload, Suspension.Valid, Crc, U32Bytes;
    if e.staged.Some? && e.staged.value.Suspended? && Resume(e.staged.value.suspension, r.digest0, r.digest1).Ok? {
      FinishShort(e, e.staged.value.txnId, Resume(e.staged.value.suspension, r.digest0, r.digest1).value);
    }
  }

  lemma InstructionAnswerShort(e: Endpoint.State, r: Request)
    requires e.Valid() && r.Valid() && (Endpoint.IsScalar(r) || r.Blake3?) && e.tx == []
    ensures 0 < |Endpoint.Answer(e, r).tx| <= 200
  {
    hide Decide, DecideBlake3, Endpoint.Finish, Endpoint.Guard, Request.Valid, Endpoint.State.StagedValid, Endpoint.ServicePayload,
      Crc, U32Bytes;
    if Endpoint.IsScalar(r) && Decide(r).Ok? {
      FinishShort(e, r.head.txnId, Decide(r).value);
    }
  }

  lemma {:induction false} CostGrows(m: nat, n: nat, gap: nat)
    requires m <= n
    ensures Cost(m, gap) <= Cost(n, gap) && Cost(n, gap) == n * (1 + gap)
  {
    if n != 0 {
      if m < n {
        CostGrows(m, n - 1, gap);
      } else {
        CostGrows(n - 1, n - 1, gap);
      }
    }
  }

  /** The stall patterns leave time for any single exchange. */
  predicate Patient(rxGaps: seq<nat>, txGaps: seq<nat>) {
    201 * (2 + MaxGap(Pattern(rxGaps)) + MaxGap(Pattern(txGaps))) <= MAX_CYCLES
  }

  lemma ExchangeSettles(e: Endpoint.State, r: Request, rxGaps: seq<nat>, txGaps: seq<nat>)
    requires e.Valid() && e.rx == [] && e.tx == [] && r.Valid() && Patient(rxGaps, txGaps)
    ensures Endpoint.Drained(e).Valid() && |EncodeRequest(r)| <= 200
    ensures WholeResponse(e, EncodeRequest(r)) == Endpoint.Answer(Endpoint.Drained(e), r).tx != []
    ensures CyclesNeeded(e, EncodeRequest(r), rxGaps, txGaps) <= MAX_CYCLES
  {
    hide Endpoint.Answer, Endpoint.State.Valid, EncodeRequest, WholeResponse, Endpoint.Inspect, Feed, Pattern, MaxGap;
    Exchange.ExchangeIsAnswer(e, r);
    RequestShort(r);
    AnswerShort(Endpoint.Drained(e), r);
    CostGrows(|EncodeRequest(r)|, 200, MaxGap(Pattern(rxGaps)));
    CostGrows(|WholeResponse(e, EncodeRequest(r))|, 200, MaxGap(Pattern(txGaps)));
    GapsAtStart(rxGaps);
    GapsAtStart(txGaps);
    hide Cost;
  }

  lemma GapsAtStart(gaps: seq<nat>)
    ensures Pattern(gaps)[0] <= MaxGap(Pattern(gaps))
  {
  }

  lemma RequestShort(r: Request)
    requires r.Valid()
    ensures |EncodeRequest(r)| <= 200
  {
    hide EncodeRequest, Endpoint.Inspect, Endpoint.IsWholeFrame, Request.Valid, Request.Op, Opcode.PayloadBytes;
    Exchange.EncodedRequestInspects(r);
    PayloadAtMost(r.Op());
  }

  lemma PayloadAtMost(op: Opcode)
    ensures op.PayloadBytes() <= 190
  {
  }

  // ----- a run, against the oracle -----

  /** How `run` ends; `Escaped` is an exception leaving it. */
  datatype Terminal = Halted | BadHaltState | Fault(status: Status) | StepLimit | Escaped

  /** No operation needs the external service. */
  predicate ScalarProgram(program: seq<Programs.Operation>) {
    forall op :: op in program ==> !op.Blake3?
  }

  /** The oracle can follow: every opcode is one it interprets, and nothing is deferred. */
  predicate InOracle(program: seq<Programs.Operation>, h: State) {
    (forall op :: op in program ==> op.Interpreted()) && h.deferred == []
  }

  /** `n` instructions of the oracle lead from the one scalar state to the other. */
  ghost predicate Traced(program: seq<Programs.Operation>, h0: State, n: nat, h: State)
    requires |program| > 0
  {
    InOracle(program, h0) ==>
      h.deferred == [] && Oracle.Reaches(program, ScalarRuns.Image(h0, 0), n, ScalarRuns.Image(h, n))
  }

  /** The oracle executes the instruction, and the protocol supports it. */
  ghost predicate Executes(h: State, profile: Profile, op: Programs.Operation) {
    Oracle.Step(ScalarRuns.Image(h, 0), op).Ok? && ScalarRuns.Supported(h, profile, op)
  }

  lemma TracedStart(program: seq<Programs.Operation>, h: State)
    requires |program| > 0
    ensures Traced(program, h, 0, h)
  {
  }

  lemma TracedHalts(program: seq<Programs.Operation>, h0: State, n: nat, h: State)
    requires |program| > 0 && Traced(program, h0, n, h) && h.pc == Sentinel(program)
    ensures InOracle(program, h0) && h.fp == 0 ==>
      Oracle.Halts(program, ScalarRuns.Image(h0, 0), n, ScalarRuns.Image(h, n))
  {
  }

  /** A retired step extends the trace by one instruction; any other leaves it where it was,
      and the oracle, or the protocol, refuses the instruction too. */
  lemma TracedStep(program: seq<Programs.Operation>, h0: State, n: nat, h: State, profile: Profile, e: Endpoint.State,
                   outcome: StepOutcome, h': State, e': Endpoint.State)
    requires 0 < |program| && h.pc < |program| && h.pc != Sentinel(program) && Traced(program, h0, n, h)
    requires Lockstep.InStep(h, profile, e) && h.txnId + 1 < U32_LIMIT && e.retireSeq + 1 < U32_LIMIT
    requires !program[h.pc].Blake3? && ScalarRuns.ModelStep(h, profile, e, program[h.pc], outcome, h', e')
    ensures Traced(program, h0, if outcome.Retired? then n + 1 else n, h')
    ensures !outcome.Retired? && InOracle(program, h0) ==>
      h'.pc == h.pc && !Executes(h', profile, program[h.pc])
  {
    hide Lockstep.InStep, ScalarRuns.ModelStep, Oracle.Step, ScalarRuns.Supported, Oracle.Reaches;
    var op := program[h.pc];
    ScalarRuns.StepStaysInStep(h, profile, e, op, outcome, h', e');
    if InOracle(program, h0) {
      ScalarRuns.StepRefinesOracle(h, profile, e, op, outcome, h', e', ScalarRuns.Image(h, n));
      ScalarRuns.StepRefinesOracle(h, profile, e, op, outcome, h', e', ScalarRuns.Image(h, 0));
      if outcome.Retired? {
        Oracle.RunAdvances(program, ScalarRuns.Image(h0, 0), n, ScalarRuns.Image(h, n));
        MirrorsIsImage(Oracle.Step(ScalarRuns.Image(h, n), op).value, h', n + 1);
      } else {
        assert ScalarRuns.Image(h', n) == ScalarRuns.Image(h, n) && ScalarRuns.Image(h', 0) == ScalarRuns.Image(h, 0);
        ScalarRuns.SupportIgnoresCounter(h, h', profile, op);
      }
    }
  }

  /** A step inside the program refuses only while preparing. */
  lemma RefusalPrepares(h: State, profile: Profile, e: Endpoint.State, op: Programs.Operation,
                        outcome: StepOutcome, h': State, e': Endpoint.State)
    requires !op.Blake3? && h.txnId + 1 < U32_LIMIT && e.Valid()
    requires ScalarRuns.ModelStep(h, profile, e, op, outcome, h', e')
    ensures outcome.Refused? ==> KnownRefusal(outcome.refusal)
  {
    hide Prepare, Endpoint.Answer, Judge, JudgeRetire, IsCommit, DecodeResponse, Request.Valid, Endpoint.State.Valid;
    var h1 := h.(txnId := h.txnId + 1);
    PreparationRefuses(h1, profile, op);
    if Prepare(h1, profile, op).Ok? {
      TransactionNeverRefuses(h1.(stepIndex := h1.stepIndex + 1), e, Prepare(h1, profile, op).value, outcome, h', e');
    }
  }

  lemma TransactionNeverRefuses(h: State, e: Endpoint.State, p: Prepared, outcome: StepOutcome, h': State, e': Endpoint.State)
    requires e.Valid() && p.request.Valid() && h.txnId < U32_LIMIT
    requires ScalarRuns.PreparedStep(h, e, p, outcome, h', e')
    ensures !outcome.Refused?
  {
    hide Endpoint.Answer, Judge, JudgeRetire, IsCommit, DecodeResponse, Request.Valid, Endpoint.State.Valid;
    var e1 := Endpoint.Answer(e, p.request);
    var reply := Lockstep.ReplyOf(e1);
    if Judge(h, p.addresses, reply).Ok? {
      var e2 := Endpoint.Answer(Endpoint.Drained(e1), ScalarRuns.RetireRequest(h, reply));
      JudgmentsNeverRefuse(h, p.addresses, reply, Lockstep.ReplyOf(e2));
    } else {
      JudgmentsNeverRefuse(h, p.addresses, reply, reply);
    }
  }

  lemma JudgmentsNeverRefuse(h: State, addresses: seq<u32>, reply: Reply, retire: Reply)
    ensures match Judge(h, addresses, reply)
            case Err(o) => !o.Refused?
            case Ok(t) => !JudgeRetire(h, t, retire).Refused?
  {
    hide Prevalidate;
  }

  predicate KnownRefusal(r: Refusal) {
    r == PreparationFault(U32_OVERFLOW) || r == PreparationFault(BAD_POINTER)
  }

  lemma PreparationRefuses(h: State, profile: Profile, op: Programs.Operation)
    requires h.txnId < U32_LIMIT && !op.Blake3?
    ensures Prepare(h, profile, op).Err? ==> KnownRefusal(Prepare(h, profile, op).error)
  {
    hide Reverse, InverseWitness, Inverse;
  }

  /** What a step means for the run it is part of. */
  lemma StepOfRun(program: seq<Programs.Operation>, h0: State, n: nat, h: State, profile: Profile, e: Endpoint.State,
                  outcome: StepOutcome, h': State, e': Endpoint.State)
    requires h.pc < |program| && h.pc != Sentinel(program) && Traced(program, h0, n, h) && !program[h.pc].Blake3?
    requires Lockstep.InStep(h, profile, e) && h.txnId + 1 < U32_LIMIT && e.retireSeq + 1 < U32_LIMIT
    requires ScalarRuns.ModelStep(h, profile, e, program[h.pc], outcome, h', e')
    ensures Lockstep.InStep(h', profile, e') && Traced(program, h0, if outcome.Retired? then n + 1 else n, h')
    ensures h'.txnId == h.txnId + 1
    ensures || outcome.Retired?
            || (outcome.Faulted? && !Lockstep.OutOfStep(outcome.status))
            || (outcome.Refused? && KnownRefusal(outcome.refusal))
    ensures outcome.Retired? ==> e'.retireSeq == e.retireSeq + 1 == outcome.retireSeq && h'.stepIndex == h.stepIndex + 1
    ensures !outcome.Retired? ==> e'.retireSeq == e.retireSeq && h'.pc == h.pc
    ensures !outcome.Retired? && InOracle(program, h0) ==> !Executes(h', profile, program[h.pc])
  {
    ReadyEndpoint(h, profile, e);
    hide Executes, Traced, Lockstep.InStep, Prepare, Judge, JudgeRetire, Endpoint.Answer, Request.Valid, Decide, InOracle,
      ScalarRuns.Supported, ScalarRuns.Image;
    ScalarRuns.StepStaysInStep(h, profile, e, program[h.pc], outcome, h', e');
    TracedStep(program, h0, n, h, profile, e, outcome, h', e');
    RefusalPrepares(h, profile, e, program[h.pc], outcome, h', e');
  }

  lemma MirrorsIsImage(s: Oracle.State, h: State, n: nat)
    requires Refinement.Mirrors(s, h.cells, h.pc, h.fp) && s.cycles == n
    ensures s == ScalarRuns.Image(h, n)
  {
  }

  /** Host and endpoint between two steps of a run. */
  datatype Pair = Pair(h: State, e: Endpoint.State)

  /** One scalar step, from one pair in step to the next. */
  ghost predicate Steps(program: seq<Programs.Operation>, profile: Profile, m: Pair, outcome: StepOutcome, m': Pair) {
    && m.h.pc < |program| && !program[m.h.pc].Blake3? && m.h.txnId + 1 < U32_LIMIT
    && Lockstep.InStep(m.h, profile, m.e) && Lockstep.InStep(m'.h, profile, m'.e) && m.e.Valid()
    && ScalarRuns.ModelStep(m.h, profile, m.e, program[m.h.pc], outcome, m'.h, m'.e)
  }

  /** What a run went through, and the outcome of each of its steps. */
  ghost predicate IsTrail(program: seq<Programs.Operation>, profile: Profile, trail: seq<Pair>, outcomes: seq<StepOutcome>) {
    && |trail| == |outcomes| + 1
    && forall i :: 0 <= i < |outcomes| ==> Steps(program, profile, trail[i], outcomes[i], trail[i + 1])
  }

  lemma TrailStarts(program: seq<Programs.Operation>, profile: Profile, m: Pair)
    ensures IsTrail(program, profile, [m], [])
  {
    hide Steps;
  }

  lemma TrailExtends(program: seq<Programs.Operation>, profile: Profile, trail: seq<Pair>, outcomes: seq<StepOutcome>,
                     outcome: StepOutcome, m: Pair)
    requires IsTrail(program, profile, trail, outcomes) && |trail| == |outcomes| + 1
    requires Steps(program, profile, trail[|outcomes|], outcome, m)
    ensures IsTrail(program, profile, trail + [m], outcomes + [outcome])
  {
    hide Steps;
  }

  /** The outcomes of a run against its records: a refusal leaves none, and leaving the program no step. */
  predicate Accounts(terminal: Terminal, records: seq<StepOutcome>, retired: nat, outcomes: seq<StepOutcome>) {
    && retired <= |records| <= |outcomes| <= retired + 1
    && records == outcomes[..|records|]
    && (|outcomes| > retired <==> terminal.Fault?)
    && (|outcomes| > |records| ==> outcomes[retired] == Refused(PreparationFault(terminal.status)))
  }

  /** The records of a run: one for each retired step, numbered by the endpoint from `first` on, and
      one more for a fault the endpoint reported; a refusal while preparing leaves none. */
  predicate Recorded(first: nat, terminal: Terminal, records: seq<StepOutcome>, retired: nat) {
    && retired <= |records|
    && (forall i :: 0 <= i < retired ==> records[i].Retired? && records[i].retireSeq == first + i + 1)
    && (if |records| == retired then terminal.Fault? ==> terminal.status in {U32_OVERFLOW, BAD_POINTER, BAD_SERVICE}
        else |records| == retired + 1 && terminal.Fault? && records[retired] == Faulted(terminal.status))
  }

  /** Every instruction on the oracle's way is one the protocol supports. */
  ghost predicate SupportedOnTheWay(program: seq<Programs.Operation>, profile: Profile, h0: State, n: nat)
    requires |program| > 0
  {
    forall k: nat, h: State ::
      k < n && Oracle.Reaches(program, ScalarRuns.Image(h0, 0), k, ScalarRuns.Image(h, k)) && h.pc < |program| ==>
        ScalarRuns.Supported(h, profile, program[h.pc])
  }

  /** The program is one the oracle halts on, and the protocol supports every instruction on the way. */
  ghost predicate HaltsSupported(program: seq<Programs.Operation>, profile: Profile, h0: State, n: nat, final: Oracle.State)
    requires |program| > 0
  {
    && InOracle(program, h0) && final.Valid()
    && Oracle.Halts(program, ScalarRuns.Image(h0, 0), n, final)
    && SupportedOnTheWay(program, profile, h0, n)
  }

  /** How a run ends, after `retired` instructions of at most `maxSteps`, in state `h`. */
  ghost predicate RunEnds(program: seq<Programs.Operation>, profile: Profile, maxSteps: nat, h0: State,
                          terminal: Terminal, retired: nat, h: State)
    requires |program| > 0
  {
    && retired <= maxSteps && Traced(program, h0, retired, h)
    && match terminal
       case Halted => retired < maxSteps && h.pc == Sentinel(program) && h.fp == 0
       case BadHaltState => retired < maxSteps && h.pc == Sentinel(program) && h.fp != 0
       case StepLimit => retired == maxSteps
       case Escaped => retired < maxSteps && h.pc != Sentinel(program) && h.pc >= |program|
       case Fault(status) =>
         && retired < maxSteps && !Lockstep.OutOfStep(status)
         && h.pc != Sentinel(program) && h.pc < |program|
         && (InOracle(program, h0) ==> !Executes(h, profile, program[h.pc]))
  }

  /** The converse of refinement: where the oracle halts, on supported instructions, a run that is
      given enough iterations halts too, after as many instructions and in the same state. */
  lemma RunFollowsOracle(program: seq<Programs.Operation>, profile: Profile, maxSteps: nat, h0: State,
                         terminal: Terminal, retired: nat, h: State, n: nat, final: Oracle.State)
    requires |program| > 0 && RunEnds(program, profile, maxSteps, h0, terminal, retired, h)
    requires HaltsSupported(program, profile, h0, n, final)
    ensures n < maxSteps ==> terminal == Halted && retired == n && ScalarRuns.Image(h, n) == final
    ensures n >= maxSteps ==> terminal == StepLimit
  {
    hide Oracle.Step, ScalarRuns.Supported, Oracle.Reaches;
    var t := ScalarRuns.Image(h, retired);
    Oracle.ReachedBefore(program, ScalarRuns.Image(h0, 0), n, final, retired, t);
    if retired < n {
      Oracle.StepIgnoresCycles(t, 0, program[h.pc]);
      assert ScalarRuns.Supported(h, profile, program[h.pc]);
      assert t.(cycles := 0) == ScalarRuns.Image(h, 0);
    }
  }

  lemma RunFollowsEveryOracle(program: seq<Programs.Operation>, profile: Profile, maxSteps: nat, h0: State,
                              terminal: Terminal, retired: nat, h: State)
    requires |program| > 0 && RunEnds(program, profile, maxSteps, h0, terminal, retired, h)
    ensures forall n: nat, final :: HaltsSupported(program, profile, h0, n, final) && n < maxSteps ==>
              terminal == Halted && retired == n && ScalarRuns.Image(h, n) == final
  {
    hide HaltsSupported, RunEnds;
    forall n: nat, final | HaltsSupported(program, profile, h0, n, final) && n < maxSteps
      ensures terminal == Halted && retired == n && ScalarRuns.Image(h, n) == final
    {
      RunFollowsOracle(program, profile, maxSteps, h0, terminal, retired, h, n, final);
    }
  }

  /** How the outcome of a step ends the run, if it does. */
  function Stop(outcome: StepOutcome): Option<Terminal> {
    match outcome
    case Retired(_) => None
    case Faulted(status) => Some(Terminal.Fault(status))
    case Refused(PreparationFault(status)) => Some(Terminal.Fault(status))
    case _ => Some(Escaped)
  }

  /** What holds of the records before the iteration that ends the run. */
  predicate AllRetired(first: nat, records: seq<StepOutcome>) {
    forall j :: 0 <= j < |records| ==> records[j].Retired? && records[j].retireSeq == first + j + 1
  }

  lemma RecordsStart(first: nat)
    ensures AllRetired(first, [])
  {
  }

  lemma RecordsGrow(first: nat, records: seq<StepOutcome>, outcome: StepOutcome)
    requires AllRetired(first, records) && outcome.Retired? && outcome.retireSeq == first + |records| + 1
    ensures AllRetired(first, records + [outcome])
  {
  }

  /** A run that ends between two steps. */
  lemma RunEndsQuietly(program: seq<Programs.Operation>, profile: Profile, maxSteps: nat, h0: State, first: nat,
                       records: seq<StepOutcome>, h: State)
    requires |program| > 0 && AllRetired(first, records) && |records| <= maxSteps && Traced(program, h0, |records|, h)
    requires |records| == maxSteps || h.pc == Sentinel(program)
    ensures var terminal := if |records| == maxSteps then StepLimit else if h.fp != 0 then BadHaltState else Halted;
            && RunEnds(program, profile, maxSteps, h0, terminal, |records|, h)
            && Recorded(first, terminal, records, |records|) && Accounts(terminal, records, |records|, records)
  {
    hide Traced, InOracle, Executes;
  }

  /** A run that ends with a step, or by leaving the program. */
  lemma RunEndsAtStep(program: seq<Programs.Operation>, profile: Profile, maxSteps: nat, h0: State, first: nat,
                      records: seq<StepOutcome>, outcome: StepOutcome, h: State)
    requires |program| > 0 && AllRetired(first, records) && |records| < maxSteps && Traced(program, h0, |records|, h)
    requires Stop(outcome).Some? && h.pc != Sentinel(program)
    requires || (outcome.Faulted? && !Lockstep.OutOfStep(outcome.status))
             || (outcome.Refused? && (outcome.refusal == OutsideProgram || KnownRefusal(outcome.refusal)))
    requires outcome == Refused(OutsideProgram) <==> h.pc >= |program|
    requires h.pc < |program| && InOracle(program, h0) ==> !Executes(h, profile, program[h.pc])
    ensures var terminal := Stop(outcome).value;
            var outcomes := if outcome == Refused(OutsideProgram) then records else records + [outcome];
            var recorded := if outcome.Faulted? then records + [outcome] else records;
            && RunEnds(program, profile, maxSteps, h0, terminal, |records|, h)
            && Recorded(first, terminal, recorded, |records|) && Accounts(terminal, recorded, |records|, outcomes)
  {
    hide Traced, InOracle, Executes;
  }

  class Runtime {
    const program: seq<Programs.Operation>
    const memory: Memory
    const endpoint: Lsc1Endpoint
    const profile: Profile
    const rxGaps: seq<nat>
    const txGaps: seq<nat>
    var pc: u32
    var fp: u32
    var txnId: nat
    var stepIndex: nat

    function View(): State
      reads this, memory
    {
      State(memory.cells, memory.accessCounts, memory.deferred, pc, fp, txnId, stepIndex)
    }

    ghost function Now(): Pair
      reads this, memory, endpoint
    {
      Pair(View(), endpoint.View())
    }

    ghost predicate Valid()
      reads this, memory, memory.pointers, endpoint
    {
      && IsProgram(program)
      && memory.pointers.Valid()
      && Patient(rxGaps, txGaps)
      && endpoint.View().Valid()
    }

    /** Idle between steps, with both counters far enough from 32 bits for `steps` more. */
    ghost predicate Ready(steps: nat)
      reads this, memory, memory.pointers, endpoint
    {
      && Valid()
      && Lockstep.InStep(View(), profile, endpoint.View())
      && txnId + steps < U32_MAX
      && endpoint.retireSeq + steps + 400 < U32_MAX
    }

    /** An idle endpoint, possibly with earlier transactions behind it, is negotiated with
        and is then in step with the runtime. */
    constructor (program: seq<Programs.Operation>, pc0: u32, fp0: u32, memory: Memory, endpoint: Lsc1Endpoint,
                 profile: Profile, rxGaps: seq<nat>, txGaps: seq<nat>)
      requires IsProgram(program)
      requires memory.pointers.Valid() && Patient(rxGaps, txGaps)
      requires endpoint.View().Valid() && endpoint.staged == None && endpoint.rx == [] && endpoint.tx == []
      requires !endpoint.done && endpoint.retireSeq + 200 < U32_MAX
      modifies endpoint
      ensures Valid()
      ensures this.program == program && this.memory == memory && this.endpoint == endpoint && this.profile == profile
      ensures View() == State(memory.cells, memory.accessCounts, memory.deferred, pc0, fp0, 0, 0)
      ensures endpoint.View() == old(endpoint.View()).(profile := profile, lastStatus := OK)
      ensures (endpoint.stateValid ==> endpoint.committedPc == pc0 && endpoint.committedFp == fp0)
              && Lockstep.AllOpen(memory.cells, memory.deferred)
              ==> Lockstep.InStep(View(), profile, endpoint.View())
    {
      this.program, this.memory, this.endpoint, this.profile := program, memory, endpoint, profile;
      this.rxGaps, this.txGaps := rxGaps, txGaps;
      pc, fp, txnId, stepIndex := pc0, fp0, 0, 0;
      new;
      var accepted := NegotiateProfile();
    }

    /** `_negotiate`: an idle endpoint always answers with the required 14 bytes. */
    method NegotiateProfile() returns (accepted: bool)
      requires Valid() && endpoint.staged == None && endpoint.rx == [] && endpoint.tx == []
      requires !endpoint.done && endpoint.retireSeq + 200 < U32_MAX
      modifies endpoint
      ensures accepted && Valid()
      ensures endpoint.View() == old(endpoint.View()).(profile := profile, lastStatus := OK)
    {
      hide IsProgram, Endpoint.State.ReceiveValid;
      var r := Request.Negotiate(PROTOCOL_VERSION, PROTOCOL_VERSION, profile, 0);
      NegotiationReply(endpoint.View(), r);
      var reply := SendRequest(r);
      accepted := reply == Ok(Response(OK, Endpoint.NegotiatePayload(profile)));
    }

    /** `_exchange`: one frame down the lane, one response back. */
    method SendRequest(r: Request) returns (reply: Reply)
      requires Valid() && r.Valid()
      requires endpoint.rx == [] && endpoint.tx == [] && !endpoint.done && endpoint.retireSeq + 200 < U32_MAX
      modifies endpoint
      ensures Valid()
      ensures endpoint.View() == Endpoint.Drained(Endpoint.Answer(old(endpoint.View()), r))
      ensures reply == Lockstep.ReplyOf(Endpoint.Answer(old(endpoint.View()), r))
    {
      hide Endpoint.Answer, Endpoint.State.Valid, EncodeRequest, WholeResponse, Feed, CyclesNeeded, DecodeResponse, IsProgram,
        Request.Valid;
      ghost var e := endpoint.View();
      ExchangeSettles(e, r, rxGaps, txGaps);
      Exchange.ExchangeIsAnswer(e, r);
      assert Endpoint.Drained(e) == e;
      var raw := Drive(endpoint, EncodeRequest(r), rxGaps, txGaps, MAX_CYCLES);
      reply := DecodeResponse(raw.value);
    }

    // ----- preparing -----

    method ResolvePointer(pointer: F128) returns (r: Result<u32, Refusal>)
      requires memory.pointers.Valid()
      modifies memory.pointers
      ensures memory.pointers.Valid()
      ensures r == IndexOf(pointer)
    {
      var index := memory.pointers.IndexOf(pointer);
      r := match index case Some(i) => Ok(i) case None => Refuse(BAD_POINTER);
    }

    method ProposeInverse(left: Cell, right: Cell, destination: Cell) returns (c: Cell)
      ensures c == InverseWitness(profile, left, right, destination)
    {
      var known := if left.present then left else right;
      if profile != INTERPRETER_COMPAT || !destination.present || left.present == right.present || known.value == 0 {
        return ABSENT;
      }
      var inverse := FieldInverse(known.value);
      return Cell(true, inverse.value);
    }

    /** `_prepare`, behind the increment of the transaction counter. */
    method PrepareRequest(op: Programs.Operation) returns (r: Result<Prepared, Refusal>)
      requires memory.pointers.Valid() && txnId < U32_LIMIT && !op.Blake3?
      modifies memory.pointers
      ensures memory.pointers.Valid()
      ensures r == Prepare(View(), profile, op)
    {
      var head := Preamble(txnId, pc, fp, profile);
      match op {
        case Set(o, k) =>
          var address :- Address(fp, o);
          return Ok(Prepared(Request.SetConstant(head, o, k, CellOf(memory.cells, address)), [address]));
        case Xor(a, b, c) =>
          var addresses :- ThreeAddresses(fp, a, b, c);
          return Ok(Prepared(Request.Xor(head, [a, b, c], CellsAt(memory.cells, addresses)), addresses));
        case Mul(a, b, c) =>
          var addresses :- ThreeAddresses(fp, a, b, c);
          var cells := CellsAt(memory.cells, addresses);
          var inverse := ProposeInverse(cells[0], cells[1], cells[2]);
          return Ok(Prepared(Request.Mul(head, [a, b, c], cells, inverse), addresses));
        case Deref(mode, alpha, beta, gamma) => r := PrepareDereference(head, mode, alpha, beta, gamma);
        case Jump(oc, od, of) => r := PrepareBranch(head, oc, od, of);
      }
    }

    method PrepareDereference(head: Preamble, mode: DerefMode, alpha: u32, beta: u32, gamma: u32)
      returns (r: Result<Prepared, Refusal>)
      requires memory.pointers.Valid() && txnId < U32_LIMIT && head == Preamble(txnId, pc, fp, profile)
      modifies memory.pointers
      ensures memory.pointers.Valid()
      ensures r == PrepareDeref(View(), profile, mode, alpha, beta, gamma)
    {
      var pointerAddress :- Address(fp, alpha);
      if pointerAddress !in memory.cells {
        return Refuse(BAD_POINTER);
      }
      var base :- ResolvePointer(memory.cells[pointerAddress]);
      var target :- Address(base, beta);
      var local :- Address(fp, gamma);
      return Ok(Prepared(
        Request.Deref(mode, head, alpha, beta, gamma, CellOf(memory.cells, pointerAddress), base,
                      CellOf(memory.cells, target), CellOf(memory.cells, local)),
        [pointerAddress, target, local]));
    }

    method PrepareBranch(head: Preamble, oc: u32, od: u32, of: u32) returns (r: Result<Prepared, Refusal>)
      requires memory.pointers.Valid() && txnId < U32_LIMIT && head == Preamble(txnId, pc, fp, profile)
      modifies memory.pointers
      ensures memory.pointers.Valid()
      ensures r == PrepareJump(View(), profile, oc, od, of)
    {
      var addresses :- ThreeAddresses(fp, oc, od, of);
      var cells := CellsAt(memory.cells, addresses);
      if cells[0].value == 0 {
        return Ok(Prepared(Request.Jump(head, [oc, od, of], cells, false, 0, 0, ABSENT), addresses));
      }
      if !cells[1].present || !cells[2].present {
        return Refuse(BAD_POINTER);
      }
      var destPc :- ResolvePointer(cells[1].value);
      var destFp :- ResolvePointer(cells[2].value);
      var inverse := FieldInverse(cells[0].value);
      return Ok(Prepared(Request.Jump(head, [oc, od, of], cells, true, destPc, destFp, Cell(true, inverse.value)), addresses));
    }

    // ----- believing -----

    /** `_decode_and_prevalidate_result`: nothing but a private copy of the memory changes. */
    method PrevalidateResult(addresses: seq<u32>, payload: seq<byte>) returns (r: Result<Transition, Failure>)
      ensures r == Prevalidate(View(), addresses, payload)
    {
      var decoded := DecodeResultPayload(payload);
      if decoded.None? || decoded.value.txnId != txnId {
        return Err(ProtocolViolation);
      }
      hide DecodeTransition, CheckWrites, Consistent, IsClosure;
      var t := decoded.value;
      var refused := CheckBatch(t.writes);
      if refused.Some? {
        return Err(refused.value);
      }
      var staged := new Memory(memory.cells, memory.deferred);
      CheckedBatchAdmitted(memory.cells, t.writes);
      ApplyBatch(staged, t.writes);
      DeferBatch(staged, t.deferred);
      var consistent := staged.ResolveDeferred();
      if !consistent {
        return Err(WriteOnceViolation);
      }
      if !WithinFrame(addresses, t) {
        return Err(ProtocolViolation);
      }
      return Ok(t);
    }

    method CheckBatch(writes: seq<Write>) returns (r: Option<Failure>)
      ensures r == CheckWrites(memory.cells, map[], writes)
    {
      var proposed: Cells := map[];
      for i := 0 to |writes|
        invariant CheckWrites(memory.cells, map[], writes) == CheckWrites(memory.cells, proposed, writes[i..])
      {
        var w := writes[i];
        assert writes[i..][0] == w && writes[i..][1..] == writes[i + 1..];
        if w.address in proposed && proposed[w.address] != w.value {
          return Some(ProtocolViolation);
        }
        if !memory.Admits(w.address, w.value) {
          return Some(WriteOnceViolation);
        }
        proposed := proposed[w.address := w.value];
      }
      return None;
    }

    /** Applying a checked batch; the write-once rule admits every write of it. */
    static method ApplyBatch(m: Memory, writes: seq<Write>)
      requires AllAdmitted(m.cells, writes)
      modifies m`cells
      ensures m.cells == ApplyWrites(old(m.cells), writes)
    {
      for i := 0 to |writes|
        invariant AllAdmitted(m.cells, writes[i..])
        invariant ApplyWrites(m.cells, writes[i..]) == ApplyWrites(old(m.cells), writes)
      {
        assert writes[i..][0] == writes[i] && writes[i..][1..] == writes[i + 1..];
        var _ := m.ApplyWrite(writes[i].address, writes[i].value);
      }
    }

    static method DeferBatch(m: Memory, deferred: seq<DeferredEquality>)
      modifies m`deferred
      ensures m.deferred == old(m.deferred) + deferred
    {
      assert deferred[..0] == [];
      for i := 0 to |deferred|
        invariant m.deferred == old(m.deferred) + deferred[..i]
      {
        assert deferred[..i + 1] == deferred[..i] + [DeferredEquality(deferred[i].target, deferred[i].local)];
        m.RecordDeferred(deferred[i].target, deferred[i].local);
      }
      assert deferred[..|deferred|] == deferred;
    }

    static method CountBatch(m: Memory, accesses: seq<u32>)
      modifies m`accessCounts
      ensures m.accessCounts == CountAccesses(old(m.accessCounts), accesses)
    {
      for i := 0 to |accesses|
        invariant CountAccesses(m.accessCounts, accesses[i..]) == CountAccesses(old(m.accessCounts), accesses)
      {
        assert accesses[i..][0] == accesses[i] && accesses[i..][1..] == accesses[i + 1..];
        m.CountAccess(accesses[i]);
      }
    }

    method JudgeReply(addresses: seq<u32>, reply: Reply) returns (r: Result<Transition, StepOutcome>)
      ensures r == Judge(View(), addresses, reply)
    {
      match reply {
        case Err(e) => return Err(Raised(Undecodable(e)));
        case Ok(response) =>
          if response.status != OK {
            return Err(FaultOutcome(response, txnId, false));
          }
          var result := PrevalidateResult(addresses, response.payload);
          r := match result case Ok(t) => Ok(t) case Err(failure) => Err(Raised(failure));
      }
    }

    /** The commit block. Nothing in it can raise: the batch passed prevalidation, and the
        memory has not changed since. */
    method Commit(addresses: seq<u32>, t: Transition)
      requires CheckWrites(memory.cells, map[], t.writes) == None
      requires Consistent(ApplyWrites(memory.cells, t.writes), memory.deferred + t.deferred)
      modifies this`pc, this`fp, memory
      ensures IsCommit(old(View()), t, View())
    {
      hide CheckWrites, Consistent, IsClosure;
      CheckedBatchAdmitted(memory.cells, t.writes);
      ApplyBatch(memory, t.writes);
      CountBatch(memory, t.accesses);
      DeferBatch(memory, t.deferred);
      var _ := memory.ResolveDeferred();
      pc := t.nextPc;
      fp := t.nextFp;
    }

    /** A step against arbitrary replies; the second is consulted only if the first is believed. */
    method StepAgainst(reply: Reply, retire: Reply) returns (outcome: StepOutcome)
      requires Valid() && pc < |program| && !program[pc].Blake3? && txnId + 1 < U32_LIMIT
      modifies this`pc, this`fp, this`txnId, this`stepIndex, memory, memory.pointers
      ensures Valid()
      ensures IsStep(old(View()), profile, program[old(pc)], reply, retire, outcome, View())
    {
      hide Prepare, Judge, IsCommit, IsProgram, Endpoint.State.Valid, Patient, PointerMap.Valid, JudgeRetire;
      var op := program[pc];
      txnId := txnId + 1;
      var prepared := PrepareRequest(op);
      if prepared.Err? {
        return Refused(prepared.error);
      }
      stepIndex := stepIndex + 1;
      outcome := ConcludeAgainst(prepared.value.addresses, reply, retire);
    }

    /** `step`, over the endpoint this runtime drives. */
    method Step() returns (outcome: StepOutcome)
      requires Ready(1) && (pc < |program| ==> !program[pc].Blake3?)
      modifies this`pc, this`fp, this`txnId, this`stepIndex, memory, memory.pointers, endpoint
      ensures Valid()
      ensures old(pc) >= |program| ==>
        outcome == Refused(OutsideProgram) && View() == old(View()) && endpoint.View() == old(endpoint.View())
      ensures old(pc) < |program| ==>
        ScalarRuns.ModelStep(old(View()), profile, old(endpoint.View()), program[old(pc)], outcome, View(), endpoint.View())
    {
      hide Lockstep.InStep, Endpoint.State.Valid, Prepare, Judge, IsCommit, IsProgram, Endpoint.Answer;
      if pc >= |program| {
        return Refused(OutsideProgram);
      }
      ghost var h := View();
      var op := program[pc];
      ReadyEndpoint(h, profile, endpoint.View());
      txnId := txnId + 1;
      var prepared := PrepareRequest(op);
      if prepared.Err? {
        return Refused(prepared.error);
      }
      stepIndex := stepIndex + 1;
      PreparationWell(h.(txnId := h.txnId + 1), profile, op);
      outcome := TransactPrepared(prepared.value);
    }

    /** The exchanges of a step, once its request is prepared. */
    method TransactPrepared(p: Prepared) returns (outcome: StepOutcome)
      requires Valid() && p.request.Valid() && Endpoint.IsScalar(p.request) && txnId < U32_LIMIT
      requires endpoint.rx == [] && endpoint.tx == [] && !endpoint.done && endpoint.retireSeq + 400 < U32_MAX
      modifies this`pc, this`fp, memory, endpoint
      ensures Valid()
      ensures ScalarRuns.PreparedStep(old(View()), old(endpoint.View()), p, outcome, View(), endpoint.View())
    {
      hide Endpoint.State.Valid, Prepare, Judge, IsCommit, IsProgram, Endpoint.Answer, JudgeRetire, Crc, CheckWrites,
        Consistent, FaultOutcome;
      ghost var h, e := View(), endpoint.View();
      ScalarAnswer(e, p.request);
      var reply := SendRequest(p.request);
      var judged := JudgeReply(p.addresses, reply);
      if judged.Err? {
        return judged.error;
      }
      BelievedReply(h, p.addresses, reply);
      var crc := ComputeCrc(reply.value.payload);
      var retire := SendRequest(Request.Retire(judged.value.txnId, crc));
      outcome := JudgeRetire(View(), judged.value, retire);
      if outcome.Retired? {
        BelievedCommits(h, p.addresses, reply);
        Commit(p.addresses, judged.value);
      }
    }

    /** One iteration of `run`, with `n` instructions behind it and `left` iterations to go. */
    method Advance(ghost h0: State, ghost n: nat, ghost left: nat, ghost trail: seq<Pair>, ghost outcomes: seq<StepOutcome>)
      returns (outcome: StepOutcome, ghost further: seq<Pair>, ghost more: seq<StepOutcome>)
      requires left > 0 && Ready(left) && ScalarProgram(program) && pc != Sentinel(program) && Traced(program, h0, n, View())
      requires IsTrail(program, profile, trail, outcomes) && |trail| == |outcomes| + 1 && trail[|outcomes|] == Now()
      modifies this`pc, this`fp, this`txnId, this`stepIndex, memory, memory.pointers, endpoint
      ensures Ready(left - 1)
      ensures outcome.Retired? ==> Traced(program, h0, n + 1, View()) && stepIndex == old(stepIndex) + 1
      ensures outcome.Retired? ==> endpoint.retireSeq == old(endpoint.retireSeq) + 1 == outcome.retireSeq
      ensures !outcome.Retired? ==> Traced(program, h0, n, View()) && endpoint.retireSeq == old(endpoint.retireSeq)
      ensures || outcome.Retired?
              || (outcome.Faulted? && !Lockstep.OutOfStep(outcome.status))
              || (outcome.Refused? && (outcome.refusal == OutsideProgram || KnownRefusal(outcome.refusal)))
      ensures outcome == Refused(OutsideProgram) ==> pc >= |program|
      ensures !outcome.Retired? ==> pc == old(pc) && (outcome != Refused(OutsideProgram) ==> pc < |program|)
      ensures outcome != Refused(OutsideProgram) && !outcome.Retired? && InOracle(program, h0) ==>
        pc < |program| && !Executes(View(), profile, program[pc])
      ensures IsTrail(program, profile, further, more) && |further| == |more| + 1 && further[0] == trail[0] && further[|more|] == Now()
      ensures more == if outcome == Refused(OutsideProgram) then outcomes else outcomes + [outcome]
    {
      hide Lockstep.InStep, Endpoint.State.Valid, IsProgram, Traced, InOracle, Executes, ScalarRuns.ModelStep, Patient,
        PointerMap.Valid, IsTrail;
      ghost var h, e := View(), endpoint.View();
      outcome := Step();
      further, more := trail, outcomes;
      if h.pc < |program| {
        ReadyEndpoint(h, profile, e);
        StepOfRun(program, h0, n, h, profile, e, outcome, View(), endpoint.View());
        TrailExtends(program, profile, trail, outcomes, outcome, Now());
        further, more := trail + [Now()], outcomes + [outcome];
      }
    }

    /** `run`: until the sentinel, a fault or the limit. The first `retired` records are the
        steps that retired, numbered by the endpoint, and a fault reported by the endpoint is one
        record more; nothing ever raises but a program counter outside the program; and a run of
        interpreted instructions is the oracle's, in both directions. */
    method Run(maxSteps: nat)
      returns (terminal: Terminal, records: seq<StepOutcome>, ghost retired: nat,
               ghost trail: seq<Pair>, ghost outcomes: seq<StepOutcome>)
      requires Ready(maxSteps) && ScalarProgram(program)
      modifies this`pc, this`fp, this`txnId, this`stepIndex, memory, memory.pointers, endpoint
      ensures Valid() && Lockstep.InStep(View(), profile, endpoint.View())
      ensures endpoint.retireSeq == old(endpoint.retireSeq) + retired
      ensures Recorded(old(endpoint.retireSeq), terminal, records, retired) && Accounts(terminal, records, retired, outcomes)
      ensures IsTrail(program, profile, trail, outcomes) && trail[0] == old(Now()) && trail[|outcomes|] == Now()
      ensures RunEnds(program, profile, maxSteps, old(View()), terminal, retired, View())
      ensures terminal.Halted? ==> stepIndex == old(stepIndex) + retired
      ensures terminal.Halted? && InOracle(program, old(View())) ==>
        Oracle.Halts(program, ScalarRuns.Image(old(View()), 0), retired, ScalarRuns.Image(View(), retired))
      ensures forall n: nat, final :: HaltsSupported(program, profile, old(View()), n, final) && n < maxSteps ==>
        terminal == Halted && retired == n && ScalarRuns.Image(View(), n) == final
    {
      assert |program| > 0;
      hide Lockstep.InStep, Endpoint.State.Valid, IsProgram, Traced, InOracle, Executes, Patient, PointerMap.Valid, HaltsSupported,
        IsTrail, RunEnds, Recorded, Accounts, AllRetired, Lockstep.OutOfStep, KnownRefusal;
      ghost var h0, first := View(), endpoint.retireSeq;
      retired, records, terminal := 0, [], StepLimit;
      trail, outcomes := [Now()], [];
      TracedStart(program, h0);
      TrailStarts(program, profile, Now());
      RecordsStart(first);
      for i := 0 to maxSteps
        invariant Ready(maxSteps - i)
        invariant retired == i == |records| && terminal == StepLimit && records == outcomes && AllRetired(first, records)
        invariant endpoint.retireSeq == first + i && stepIndex == old(stepIndex) + i
        invariant Traced(program, h0, i, View())
        invariant IsTrail(program, profile, trail, outcomes) && |trail| == i + 1 && trail[0] == old(Now()) && trail[i] == Now()
      {
        if pc == Sentinel(program) {
          TracedHalts(program, h0, retired, View());
          terminal := if fp != 0 then BadHaltState else Halted;
          break;
        }
        var outcome;
        ghost var before := records;
        outcome, trail, outcomes := Advance(h0, i, maxSteps - i, trail, outcomes);
        if outcome.Retired? || outcome.Faulted? {
          records := records + [outcome];
        }
        var stop := Stop(outcome);
        if stop.Some? {
          terminal := stop.value;
          RunEndsAtStep(program, profile, maxSteps, h0, first, before, outcome, View());
          break;
        }
        retired := retired + 1;
        RecordsGrow(first, before, outcome);
      }
      if terminal == StepLimit || terminal == Halted || terminal == BadHaltState {
        RunEndsQuietly(program, profile, maxSteps, h0, first, records, View());
      }
      RunFollowsEveryOracle(program, profile, maxSteps, h0, terminal, retired, View());
    }

    method ConcludeAgainst(addresses: seq<u32>, reply: Reply, retire: Reply) returns (outcome: StepOutcome)
      modifies this`pc, this`fp, memory
      ensures match Judge(old(View()), addresses, reply)
              case Err(o) => outcome == o && View() == old(View())
              case Ok(t) =>
                && outcome == JudgeRetire(old(View()), t, retire)
                && (if outcome.Retired? then IsCommit(old(View()), t, View()) else View() == old(View()))
    {
      var judged := JudgeReply(addresses, reply);
      if judged.Err? {
        return judged.error;
      }
      outcome := JudgeRetire(View(), judged.value, retire);
      if outcome.Retired? {
        BelievedCommits(View(), addresses, reply);
        Commit(addresses, judged.value);
      }
    }
  }

  lemma NegotiationReply(e: Endpoint.State, r: Request)
    requires e.Valid() && e.staged == None && e.tx == [] && !e.done
    requires r.Negotiate? && r.versionMin == r.versionMax == PROTOCOL_VERSION
    ensures r.Valid()
    ensures Endpoint.Drained(Endpoint.Answer(e, r)) == e.(profile := r.profile, lastStatus := OK)
    ensures Lockstep.ReplyOf(Endpoint.Answer(e, r)) == Ok(Response(OK, Endpoint.NegotiatePayload(r.profile)))
  {
    hide EncodeResponse, DecodeResponse, Endpoint.NegotiatePayload, Endpoint.State.Valid, Endpoint.Answer;
    var response := Response(OK, Endpoint.NegotiatePayload(r.profile));
    NegotiationAnswer(e, r, response);
    ResponseRoundTrip(response);
    assert [] + EncodeResponse(response) == EncodeResponse(response);
  }

  lemma NegotiationAnswer(e: Endpoint.State, r: Request, response: Response)
    requires e.Valid() && e.staged == None
    requires r.Negotiate? && r.versionMin == r.versionMax == PROTOCOL_VERSION
    requires response == Response(OK, Endpoint.NegotiatePayload(r.profile))
    ensures Endpoint.Answer(e, r) == Endpoint.Emit(e.(profile := r.profile), response)
  {
    hide EncodeResponse, Endpoint.NegotiatePayload, Endpoint.Emit, Endpoint.EmitFault, Endpoint.State.ReceiveValid;
  }

  lemma ReadyEndpoint(h: State, profile: Profile, e: Endpoint.State)
    requires Lockstep.InStep(h, profile, e)
    ensures e.Valid() && e.rx == [] && e.tx == [] && !e.done
  {
  }

  lemma PreparationWell(h: State, profile: Profile, op: Programs.Operation)
    requires h.txnId < U32_LIMIT && !op.Blake3? && Prepare(h, profile, op).Ok?
    ensures var r := Prepare(h, profile, op).value.request; r.Valid() && Endpoint.IsScalar(r)
  {
    ScalarRuns.PreparedWell(h, profile, op);
  }

  /** A scalar answer leaves the lane ready for the next exchange. */
  lemma ScalarAnswer(e: Endpoint.State, r: Request)
    requires e.Valid() && e.rx == [] && r.Valid() && Endpoint.IsScalar(r)
    ensures var e' := Endpoint.Drained(Endpoint.Answer(e, r));
            e'.Valid() && e'.rx == [] && e'.retireSeq == e.retireSeq
  {
    Endpoint.AnswerKeepsValid(e, r);
    Endpoint.AnswerCommits(e, r);
    hide Endpoint.Answer, Endpoint.State.StagedValid;
  }

  lemma BelievedReply(h: State, addresses: seq<u32>, reply: Reply)
    requires Judge(h, addresses, reply).Ok?
    ensures reply.Ok? && Judge(h, addresses, reply).value.txnId == h.txnId
  {
    hide DecodeTransition, CheckWrites, Consistent, WithinFrame;
  }

  /** A believed transition meets the commit block's requirements. */
  lemma BelievedCommits(h: State, addresses: seq<u32>, reply: Reply)
    requires Judge(h, addresses, reply).Ok?
    ensures var t := Judge(h, addresses, reply).value;
            CheckWrites(h.cells, map[], t.writes) == None && Consistent(ApplyWrites(h.cells, t.writes), h.deferred + t.deferred)
  {
  }
}
