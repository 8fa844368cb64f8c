/** `HostRuntime` with its BLAKE3 service: every operation of a program, scalar or not, against
    arbitrary replies and over the model endpoint, with the replay guard answering
    `SERVICE_REQUIRED`. */
module ServiceRuntime {
  import opened Outcomes
  import opened Bytes
  import opened Crc32
  import opened Ghash
  import opened Protocol
  import opened Wire
  import opened Requests
  import opened Results
  import opened Frames
  import opened Transitions
  import opened Pointers
  import opened HostMemory
  import opened HostRuntime
  import opened ServiceHost
  import opened ServiceSteps
  import opened Lockstep
  import opened ScalarRuns
  import Programs
  import Host
  import Endpoint
  import Service = Blake3Service

  const ABORT_EDGE: Endpoint.Input := Endpoint.Input(0, false, false, true, true)

  /** Whatever was asked, the drained endpoint takes the next exchange. */
  lemma AnswerReady(e: Endpoint.State, r: Request)
    requires e.Valid() && e.rx == [] && r.Valid()
    ensures var e' := Endpoint.Drained(Endpoint.Answer(e, r));
            e'.Valid() && e'.rx == [] && e'.retireSeq <= e.retireSeq + 1
  {
    hide Endpoint.Answer, Endpoint.State.Valid;
    Endpoint.AnswerKeepsValid(e, r);
    Endpoint.AnswerCommits(e, r);
    TxDrains(Endpoint.Answer(e, r));
  }

  // ----- what a run goes through -----

  /** Host, endpoint and replay guard between two steps. */
  datatype Moment = Moment(h: Host.State, e: Endpoint.State, a: Service.Adapter)

  /** One step of a run, from one moment to the next. */
  ghost predicate Moves(program: seq<Programs.Operation>, profile: Profile, m: Moment, attempts: seq<Service.Attempt>,
                        outcome: Host.StepOutcome, m': Moment) {
    && m.h.pc < |program| && program[m.h.pc].Valid()
    && m.h.txnId + 1 < U32_LIMIT && m.e.retireSeq + 1 < U32_LIMIT
    && InService(m.h, profile, m.e, m.a) && InService(m'.h, profile, m'.e, m'.a)
    && StepLaw(m.h, profile, m.e, m.a, program[m.h.pc], attempts, outcome, m'.h, m'.e, m'.a)
    && Host.Keeps(m.h.cells, m'.h.cells) && Host.KeepsEqualities(m.h, m'.h)
  }

  /** The moments of a run, and the outcomes of the steps between them. */
  ghost predicate IsPath(program: seq<Programs.Operation>, profile: Profile, attempts: seq<seq<Service.Attempt>>,
                         path: seq<Moment>, outcomes: seq<Host.StepOutcome>) {
    && |path| == |outcomes| + 1 && |outcomes| <= |attempts|
    && forall i :: 0 <= i < |outcomes| ==> Moves(program, profile, path[i], attempts[i], outcomes[i], path[i + 1])
  }

  lemma PathStarts(program: seq<Programs.Operation>, profile: Profile, attempts: seq<seq<Service.Attempt>>, m: Moment)
    ensures IsPath(program, profile, attempts, [m], [])
  {
  }

  lemma PathExtends(program: seq<Programs.Operation>, profile: Profile, attempts: seq<seq<Service.Attempt>>,
                    path: seq<Moment>, outcomes: seq<Host.StepOutcome>, outcome: Host.StepOutcome, m: Moment)
    requires IsPath(program, profile, attempts, path, outcomes) && |path| == |outcomes| + 1 && |outcomes| < |attempts|
    requires Moves(program, profile, path[|outcomes|], attempts[|outcomes|], outcome, m)
    ensures IsPath(program, profile, attempts, path + [m], outcomes + [outcome]) && |path| == |outcomes| + 1
  {
    hide Moves;
  }

  /** Over any stretch of a run memory is only added to, and no equality is forgotten. */
  lemma {:induction false} PathKeeps(program: seq<Programs.Operation>, profile: Profile, attempts: seq<seq<Service.Attempt>>,
                                     path: seq<Moment>, outcomes: seq<Host.StepOutcome>, i: nat, j: nat)
    requires IsPath(program, profile, attempts, path, outcomes) && i <= j < |path|
    ensures Host.Keeps(path[i].h.cells, path[j].h.cells) && Host.KeepsEqualities(path[i].h, path[j].h)
    decreases j - i
  {
    hide Moves, Host.Keeps, Host.KeepsEqualities;
    if i < j {
      MoveKeeps(program, profile, path[i], attempts[i], outcomes[i], path[i + 1]);
      PathKeeps(program, profile, attempts, path, outcomes, i + 1, j);
      KeptAlong(path[i].h, path[i + 1].h, path[j].h);
    } else {
      Host.SameEqualities(path[i].h, path[j].h);
    }
  }

  lemma MoveKeeps(program: seq<Programs.Operation>, profile: Profile, m: Moment, attempts: seq<Service.Attempt>,
                  outcome: Host.StepOutcome, m': Moment)
    requires Moves(program, profile, m, attempts, outcome, m')
    ensures m.h.pc < |program| && Host.Keeps(m.h.cells, m'.h.cells) && Host.KeepsEqualities(m.h, m'.h)
  {
    hide StepLaw, InService, Host.Keeps, Host.KeepsEqualities;
  }

  lemma KeptAlong(h: Host.State, h1: Host.State, h2: Host.State)
    requires Host.Keeps(h.cells, h1.cells) && Host.KeepsEqualities(h, h1)
    requires Host.Keeps(h1.cells, h2.cells) && Host.KeepsEqualities(h1, h2)
    ensures Host.Keeps(h.cells, h2.cells) && Host.KeepsEqualities(h, h2)
  {
    hide Host.Honours;
  }

  /** The equality a DEREF_CELL states, between the cell its pointer leads to and its local cell. */
  ghost predicate StatedBy(h: Host.State, op: Programs.Operation, d: DeferredEquality) {
    && op.Deref? && op.mode == ModeCell
    && h.fp + op.alpha in h.cells
    && Reverse(h.cells[h.fp + op.alpha], INDEX_LIMIT).Some?
    && d.target == Reverse(h.cells[h.fp + op.alpha], INDEX_LIMIT).value + op.beta
    && d.local == h.fp + op.gamma
  }

  /** What DEREF_CELL is for: at every later moment of the run the equality a retired one states holds
      in memory, or is still listed with both of its cells absent. */
  lemma EqualityForever(program: seq<Programs.Operation>, profile: Profile, attempts: seq<seq<Service.Attempt>>,
                        path: seq<Moment>, outcomes: seq<Host.StepOutcome>, i: nat, j: nat)
    requires IsPath(program, profile, attempts, path, outcomes) && i < j < |path|
    requires path[i].h.pc < |program| && outcomes[i].Retired?
    requires program[path[i].h.pc].Deref? && program[path[i].h.pc].mode == ModeCell
    ensures exists d :: StatedBy(path[i].h, program[path[i].h.pc], d) && Host.Honours(path[j].h, d)
  {
    hide Moves, StatedBy, Host.Keeps, Host.Honours;
    var d := MoveStates(program, profile, path[i], attempts[i], outcomes[i], path[i + 1]);
    PathKeeps(program, profile, attempts, path, outcomes, i + 1, j);
    assert StatedBy(path[i].h, program[path[i].h.pc], d) && Host.Honours(path[j].h, d);
  }

  lemma MoveStates(program: seq<Programs.Operation>, profile: Profile, m: Moment, attempts: seq<Service.Attempt>,
                   outcome: Host.StepOutcome, m': Moment)
    returns (d: DeferredEquality)
    requires Moves(program, profile, m, attempts, outcome, m') && m.h.pc < |program|
    requires outcome.Retired? && program[m.h.pc].Deref? && program[m.h.pc].mode == ModeCell
    ensures StatedBy(m.h, program[m.h.pc], d) && Host.Honours(m'.h, d)
  {
    hide InStep, ModelStep, Host.Keeps, Host.KeepsEqualities, Host.Honours, Reverse, Endpoint.State.Valid, TransactionLaw,
      Service.Adapter.Valid, PrepareBlake3, OutOfStep;
    var op := program[m.h.pc];
    InServiceParts(m.h, profile, m.e, m.a);
    var base := DerefCellHonoured(m.h, profile, m.e, op, outcome, m'.h, m'.e);
    d := DeferredEquality(base + op.beta, m.h.fp + op.gamma);
  }

  /** How a run ends, at a moment with nothing left to do, at the limit, or at the step that stopped it. */
  ghost predicate SessionEnds(program: seq<Programs.Operation>, maxSteps: nat, terminal: Terminal, outcomes: seq<Host.StepOutcome>,
                              retired: nat, h: Host.State)
  {
    && retired <= maxSteps && retired <= |outcomes|
    && (forall i :: 0 <= i < retired ==> outcomes[i].Retired?)
    && match terminal
       case Halted => |outcomes| == retired < maxSteps && h.pc == |program| - 1 && h.fp == 0
       case BadHaltState => |outcomes| == retired < maxSteps && h.pc == |program| - 1 && h.fp != 0
       case StepLimit => |outcomes| == retired == maxSteps
       case Fault(status) =>
         && |outcomes| == retired + 1 && !OutOfStep(status)
         && outcomes[retired] in {Host.Faulted(status), Host.Refused(Host.PreparationFault(status))}
       case Escaped =>
         || (|outcomes| == retired && h.pc != |program| - 1 && h.pc >= |program|)
         || (|outcomes| == retired + 1 && outcomes[retired].Raised? && h.pc < |program| && program[h.pc].Blake3?)
  }

  lemma EndsQuietly(program: seq<Programs.Operation>, maxSteps: nat, terminal: Terminal, first: nat, records: seq<Host.StepOutcome>,
                    h: Host.State)
    requires AllRetired(first, records) && |records| <= maxSteps
    requires match terminal
             case Halted => |records| < maxSteps && h.pc == |program| - 1 && h.fp == 0
             case BadHaltState => |records| < maxSteps && h.pc == |program| - 1 && h.fp != 0
             case StepLimit => |records| == maxSteps
             case _ => false
    ensures SessionEnds(program, maxSteps, terminal, records, |records|, h) && Recorded(first, terminal, records, |records|)
  {
  }

  lemma EndsAtStep(program: seq<Programs.Operation>, maxSteps: nat, first: nat, records: seq<Host.StepOutcome>,
                   outcome: Host.StepOutcome, h: Host.State)
    requires AllRetired(first, records) && |records| < maxSteps && Stop(outcome).Some? && h.pc != |program| - 1
    requires outcome.Faulted? ==> !OutOfStep(outcome.status)
    requires outcome.Refused? && outcome.refusal.PreparationFault? ==> outcome.refusal.status in {U32_OVERFLOW, BAD_POINTER, BAD_SERVICE}
    requires outcome.Raised? ==> h.pc < |program| && program[h.pc].Blake3?
    requires outcome == Host.Refused(Host.OutsideProgram) ==> h.pc >= |program|
    ensures var outcomes := if outcome == Host.Refused(Host.OutsideProgram) then records else records + [outcome];
            SessionEnds(program, maxSteps, Stop(outcome).value, outcomes, |records|, h)
    ensures var recorded := if outcome.Faulted? then records + [outcome] else records;
            Recorded(first, Stop(outcome).value, recorded, |records|)
  {
  }

  class Session {
    const runtime: Runtime
    const adapter: Service.ModelServiceAdapter

    ghost predicate Valid()
      reads this, runtime, runtime.memory, runtime.memory.pointers, runtime.endpoint, adapter
    {
      runtime.Valid() && adapter.Valid()
    }

    /** Nothing on the lane. */
    ghost predicate Idle()
      reads this, runtime, runtime.memory, runtime.memory.pointers, runtime.endpoint, adapter
    {
      Valid() && runtime.endpoint.rx == [] && runtime.endpoint.tx == [] && !runtime.endpoint.done
    }

    /** In service between steps, with the counters far enough from 32 bits for `steps` more. */
    ghost predicate Ready(steps: nat)
      reads this, runtime, runtime.memory, runtime.memory.pointers, runtime.endpoint, adapter
    {
      && Valid()
      && InService(runtime.View(), runtime.profile, runtime.endpoint.View(), adapter.View())
      && runtime.txnId + steps < U32_MAX
      && runtime.endpoint.retireSeq + steps + 800 < U32_MAX
    }

    ghost function Now(): Moment
      reads this, runtime, runtime.memory, runtime.endpoint, adapter
    {
      Moment(runtime.View(), runtime.endpoint.View(), adapter.View())
    }

    constructor (runtime: Runtime, adapter: Service.ModelServiceAdapter)
      requires runtime.Valid() && adapter.Valid()
      ensures this.runtime == runtime && this.adapter == adapter && Valid()
      ensures InStep(runtime.View(), runtime.profile, runtime.endpoint.View())
              && adapter.outstandingRequest == None && adapter.completed == {}
              ==> InService(runtime.View(), runtime.profile, runtime.endpoint.View(), adapter.View())
    {
      this.runtime, this.adapter := runtime, adapter;
    }

    // ----- preparing and judging, whatever the endpoint is -----

    /** The BLAKE3 branch of `_prepare`. */
    method PrepareService(op: Programs.Operation) returns (r: Result<Host.Prepared, Host.Refusal>)
      requires op.Blake3? && op.Valid() && runtime.txnId < U32_LIMIT
      ensures r == PrepareBlake3(runtime.View(), runtime.profile, op)
    {
      if !MetadataSupported(op.metadata) {
        return Host.Refuse(BAD_SERVICE);
      }
      var addresses :- AddressAll(runtime.fp, ServiceOffsets(op));
      var head := Preamble(runtime.txnId, runtime.pc, runtime.fp, runtime.profile);
      return Ok(Host.Prepared(
        Request.Blake3(head, op.ins, op.cv, op.out, op.metadata, Host.CellsAt(runtime.memory.cells, addresses)), addresses));
    }

    /** From the published request to the frame that answers it. */
    method ServeRequest(r: Request, payload: seq<byte>, attempts: seq<Service.Attempt>) returns (frame: Option<Request>)
      requires adapter.Valid() && r.Blake3? && r.Valid() && |attempts| == adapter.maxRetries + 1 && runtime.txnId < U32_LIMIT
      modifies adapter
      ensures adapter.Valid()
      ensures (adapter.View(), frame) == Serve(old(adapter.View()), runtime.txnId, r, payload, attempts)
    {
      hide Service.FromV1, OperandsMatch, F128Of;
      var required := adapter.AcceptRequired(payload);
      if required.None? {
        return None;
      }
      var q := required.value;
      if q.key.txnId != runtime.txnId || !OperandsMatch(q, r) {
        return None;
      }
      var computed := adapter.Compute(q, attempts);
      ComputedAnswers(q, attempts, computed);
      match computed {
        case Computed(response) => frame := adapter.ToV1(response);
        case _ => return None;
      }
    }

    /** `service_adapter.abort()`, beside the abort of the endpoint. */
    method Abandon(failure: Host.Failure) returns (end: Ending)
      requires adapter.Valid()
      modifies adapter
      ensures adapter.Valid() && end == Abandoned(old(adapter.View()), failure) && adapter.View() == end.adapter
    {
      adapter.Abort();
      return Ending(Host.Raised(failure), adapter.View(), true);
    }

    /** After the reply to the request. */
    method AnswerRequest(p: Host.Prepared, reply: Host.Reply, attempts: seq<Service.Attempt>) returns (j: Result<Request, Ending>)
      requires adapter.Valid() && p.request.Blake3? && p.request.Valid()
      requires |attempts| == adapter.maxRetries + 1 && runtime.txnId < U32_LIMIT
      modifies adapter
      ensures adapter.Valid()
      ensures match JudgeRequested(runtime.View(), old(adapter.View()), p, reply, attempts)
              case Err(end) => j == Err(end) && adapter.View() == end.adapter
              case Ok((a1, frame)) => j == Ok(frame) && adapter.View() == a1
    {
      hide Serve, Request.Valid, Service.Adapter.Valid, Host.FaultOutcome;
      var end: Ending;
      match reply {
        case Err(e) =>
          end := Abandon(Host.Undecodable(e));
        case Ok(r) =>
          if r.status == SERVICE_REQUIRED {
            var frame := ServeRequest(p.request, r.payload, attempts);
            if frame.Some? {
              return Ok(frame.value);
            }
            end := Abandon(Host.ServiceFailed);
          } else if !r.status.IsFault() {
            end := Abandon(Host.ProtocolViolation);
          } else {
            end := Ending(Host.FaultOutcome(r, runtime.txnId, false), adapter.View(), false);
          }
      }
      return Err(end);
    }

    /** After the reply to the digest. */
    method BelieveDigest(addresses: seq<u32>, reply: Host.Reply) returns (j: Result<Transition, Ending>)
      requires adapter.Valid()
      modifies adapter
      ensures adapter.Valid()
      ensures match JudgeServed(runtime.View(), old(adapter.View()), addresses, reply)
              case Err(end) => j == Err(end) && adapter.View() == end.adapter
              case Ok(t) => j == Ok(t) && adapter.View() == old(adapter.View())
    {
      hide Host.Prevalidate, Service.Adapter.Valid, Host.FaultOutcome;
      var end: Ending;
      match reply {
        case Err(e) =>
          end := Abandon(Host.Undecodable(e));
        case Ok(r) =>
          if r.status != OK {
            adapter.Abort();
            end := Ending(Host.FaultOutcome(r, runtime.txnId, false), adapter.View(), r.status != WRITE_CONFLICT);
          } else {
            var result := runtime.PrevalidateResult(addresses, r.payload);
            match result {
              case Ok(t) => return Ok(t);
              case Err(failure) => end := Abandon(failure);
            }
          }
      }
      return Err(end);
    }

    /** After the reply to RETIRE: the commit, and the end of the service. */
    method Conclude(addresses: seq<u32>, payload: seq<byte>, t: Transition, reply: Host.Reply) returns (end: Ending)
      requires adapter.Valid() && Host.Prevalidate(runtime.View(), addresses, payload) == Ok(t) && adapter.outstandingRequest.Some?
      modifies runtime`pc, runtime`fp, runtime.memory, adapter
      ensures adapter.Valid() && adapter.View() == end.adapter
      ensures end == JudgeRetirement(old(runtime.View()), old(adapter.View()), t, reply)
      ensures if end.outcome.Retired? then Host.IsCommit(old(runtime.View()), t, runtime.View()) else runtime.View() == old(runtime.View())
    {
      hide Host.Prevalidate, Host.IsCommit, Service.Adapter.Valid, Host.JudgeRetire, Host.CheckWrites, Consistent;
      Host.PrevalidatedChecks(runtime.View(), addresses, payload);
      if reply.Err? {
        end := Abandon(Host.Undecodable(reply.error));
        return;
      }
      var outcome := Host.JudgeRetire(runtime.View(), t, reply);
      if outcome.Retired? {
        runtime.Commit(addresses, t);
        var _ := adapter.Complete(adapter.outstandingRequest.value.key);
      } else if outcome == Host.Faulted(RETIRE_MISMATCH) {
        adapter.Abort();
      }
      return Ending(outcome, adapter.View(), false);
    }

    // ----- a step against arbitrary replies -----

    /** `step` on a BLAKE3 operation; each reply is consulted only if the ones before are believed. */
    method StepServiceAgainst(op: Programs.Operation, replies: Replies, attempts: seq<Service.Attempt>) returns (end: Ending)
      requires Valid() && op.Blake3? && op.Valid() && |attempts| == adapter.maxRetries + 1 && runtime.txnId + 1 < U32_LIMIT
      modifies runtime`pc, runtime`fp, runtime`txnId, runtime`stepIndex, runtime.memory, adapter
      ensures Valid() && adapter.View() == end.adapter
      ensures IsServiceStep(old(runtime.View()), runtime.profile, old(adapter.View()), op, replies, attempts, end, runtime.View())
    {
      hide Programs.IsProgram, Patient, Endpoint.State.Valid, PrepareBlake3, JudgeRequested, JudgeServed, JudgeRetirement,
        Host.IsCommit, Host.Prevalidate, Request.Valid, Service.Adapter.Valid;
      runtime.txnId := runtime.txnId + 1;
      var prepared := PrepareService(op);
      if prepared.Err? {
        return Ending(Host.Refused(prepared.error), adapter.View(), false);
      }
      var p := prepared.value;
      runtime.stepIndex := runtime.stepIndex + 1;
      var frame := AnswerRequest(p, replies.first, attempts);
      if frame.Err? {
        return frame.error;
      }
      var believed := BelieveDigest(p.addresses, replies.second);
      if believed.Err? {
        return believed.error;
      }
      end := Conclude(p.addresses, replies.second.value.payload, believed.value, replies.retire);
    }

    /** `step`, whatever the operation and whatever the endpoint answers. */
    method StepAgainst(replies: Replies, attempts: seq<Service.Attempt>) returns (end: Ending)
      requires Valid() && runtime.pc < |runtime.program| && |attempts| == adapter.maxRetries + 1 && runtime.txnId + 1 < U32_LIMIT
      modifies runtime`pc, runtime`fp, runtime`txnId, runtime`stepIndex, runtime.memory, runtime.memory.pointers, adapter
      ensures Valid() && adapter.View() == end.adapter
      ensures runtime.program[old(runtime.pc)].Valid()
      ensures IsHostStep(old(runtime.View()), runtime.profile, old(adapter.View()), runtime.program[old(runtime.pc)], replies, attempts,
                         end, runtime.View())
      ensures if end.outcome.Retired? then !end.aborted else Host.Untouched(old(runtime.View()), runtime.View())
      ensures Host.Keeps(old(runtime.memory.cells), runtime.memory.cells)
    {
      hide Programs.IsProgram, Patient, Endpoint.State.Valid, IsServiceStep, Host.IsStep, Service.Adapter.Valid, Host.Keeps,
        Host.KeepsEqualities, Host.Untouched;
      ghost var h, a := runtime.View(), adapter.View();
      var op := runtime.program[runtime.pc];
      ProgramWell(runtime.program, op);
      if op.Blake3? {
        end := StepServiceAgainst(op, replies, attempts);
      } else {
        var outcome := runtime.StepAgainst(replies.first, replies.retire);
        end := Ending(outcome, adapter.View(), false);
      }
      StepAllOrNothing(h, runtime.profile, a, op, replies, attempts, end, runtime.View());
    }

    // ----- a step over the endpoint -----

    /** `endpoint.step(abort=True)`, where a failed step calls for it. */
    method Settle(end: Ending) returns (outcome: Host.StepOutcome)
      requires Valid() && runtime.endpoint.Countable() && adapter.View() == end.adapter
      modifies runtime.endpoint
      ensures Valid()
      ensures Ends(end, old(runtime.endpoint.View()), outcome, runtime.endpoint.View(), adapter.View())
    {
      hide Programs.IsProgram, Patient, Endpoint.State.Valid, Service.Adapter.Valid;
      if end.aborted {
        var _ := runtime.endpoint.Tick(ABORT_EDGE);
      }
      return end.outcome;
    }

    /** RETIRE and what follows. */
    method RetireServed(addresses: seq<u32>, reply: Host.Reply, t: Transition) returns (outcome: Host.StepOutcome)
      requires Idle() && runtime.endpoint.retireSeq + 400 < U32_MAX && runtime.txnId < U32_LIMIT
      requires reply.Ok? && Host.Prevalidate(runtime.View(), addresses, reply.value.payload) == Ok(t) && adapter.outstandingRequest.Some?
      modifies runtime`pc, runtime`fp, runtime.memory, runtime.endpoint, adapter
      ensures Valid()
      ensures RetiredTransaction(old(runtime.View()), old(runtime.endpoint.View()), old(adapter.View()), t,
                                 RetireRequest(old(runtime.View()), reply), outcome,
                                 runtime.View(), runtime.endpoint.View(), adapter.View())
    {
      hide Programs.IsProgram, Endpoint.State.Valid, Service.Adapter.Valid, Patient, Host.Prevalidate, Host.IsCommit, Endpoint.Answer,
        DecodeResponse, Crc, JudgeRetirement;
      Host.PrevalidatedChecks(runtime.View(), addresses, reply.value.payload);
      hide Host.CheckWrites, Consistent;
      var crc := ComputeCrc(reply.value.payload);
      var request := Request.Retire(t.txnId, crc);
      AnswerReady(runtime.endpoint.View(), request);
      var acknowledgement := runtime.SendRequest(request);
      var end := Conclude(addresses, reply.value.payload, t, acknowledgement);
      outcome := Settle(end);
    }

    /** The digest goes to the endpoint, and its result back. */
    method TransactServed(addresses: seq<u32>, frame: Request) returns (outcome: Host.StepOutcome)
      requires Idle() && runtime.endpoint.retireSeq + 600 < U32_MAX && runtime.txnId < U32_LIMIT
      requires frame.ServiceResponse? && frame.Valid() && adapter.outstandingRequest.Some?
      modifies runtime`pc, runtime`fp, runtime.memory, runtime.endpoint, adapter
      ensures Valid()
      ensures ServedTransaction(old(runtime.View()), old(runtime.endpoint.View()), old(adapter.View()), addresses, frame, outcome,
                                runtime.View(), runtime.endpoint.View(), adapter.View())
    {
      hide Programs.IsProgram, Endpoint.State.Valid, Service.Adapter.Valid, Patient, Endpoint.Answer,
        DecodeResponse, RetiredTransaction, JudgeServed, Ends, Host.Prevalidate;
      AnswerReady(runtime.endpoint.View(), frame);
      var reply := runtime.SendRequest(frame);
      var believed := BelieveDigest(addresses, reply);
      match believed {
        case Err(end) => outcome := Settle(end);
        case Ok(t) => outcome := RetireServed(addresses, reply, t);
      }
    }

    /** The exchanges of a BLAKE3 step, once its request is prepared. */
    method TransactRequested(p: Host.Prepared, attempts: seq<Service.Attempt>) returns (outcome: Host.StepOutcome)
      requires Idle() && runtime.endpoint.retireSeq + 800 < U32_MAX && runtime.txnId < U32_LIMIT
      requires p.request.Valid() && p.request.Blake3? && |attempts| == adapter.maxRetries + 1
      modifies runtime`pc, runtime`fp, runtime.memory, runtime.endpoint, adapter
      ensures Valid()
      ensures RequestedTransaction(old(runtime.View()), old(runtime.endpoint.View()), old(adapter.View()), p, attempts, outcome,
                                   runtime.View(), runtime.endpoint.View(), adapter.View())
    {
      hide Programs.IsProgram, Endpoint.State.Valid, Service.Adapter.Valid, Patient, Endpoint.Answer,
        DecodeResponse, ServedTransaction, JudgeRequested, Ends, Request.Valid;
      AnswerReady(runtime.endpoint.View(), p.request);
      var reply := runtime.SendRequest(p.request);
      var frame := AnswerRequest(p, reply, attempts);
      match frame {
        case Err(end) => outcome := Settle(end);
        case Ok(f) => outcome := TransactServed(p.addresses, f);
      }
    }

    /** `step` on a BLAKE3 operation. */
    method StepService(op: Programs.Operation, attempts: seq<Service.Attempt>) returns (outcome: Host.StepOutcome)
      requires Idle() && runtime.endpoint.retireSeq + 800 < U32_MAX && runtime.txnId + 1 < U32_LIMIT
      requires op.Blake3? && op.Valid() && |attempts| == adapter.maxRetries + 1
      modifies runtime`pc, runtime`fp, runtime`txnId, runtime`stepIndex, runtime.memory, runtime.endpoint, adapter
      ensures Valid()
      ensures ServiceStep(old(runtime.View()), runtime.profile, old(runtime.endpoint.View()), old(adapter.View()), op, attempts, outcome,
                          runtime.View(), runtime.endpoint.View(), adapter.View())
    {
      hide Programs.IsProgram, Endpoint.State.Valid, Service.Adapter.Valid, Patient, PrepareBlake3, RequestedTransaction, Request.Valid;
      runtime.txnId := runtime.txnId + 1;
      var prepared := PrepareService(op);
      if prepared.Err? {
        return Host.Refused(prepared.error);
      }
      runtime.stepIndex := runtime.stepIndex + 1;
      outcome := TransactRequested(prepared.value, attempts);
    }

    /** `step`, over the endpoint and the service this session drives. */
    method Step(attempts: seq<Service.Attempt>, ghost left: nat) returns (outcome: Host.StepOutcome)
      requires left > 0 && Ready(left) && |attempts| == adapter.maxRetries + 1
      modifies runtime`pc, runtime`fp, runtime`txnId, runtime`stepIndex, runtime.memory, runtime.memory.pointers, runtime.endpoint, adapter
      ensures Ready(left - 1)
      ensures old(runtime.pc) >= |runtime.program| ==> outcome == Host.Refused(Host.OutsideProgram) && Now() == old(Now())
      ensures old(runtime.pc) < |runtime.program| ==> Moves(runtime.program, runtime.profile, old(Now()), attempts, outcome, Now())
    {
      hide Programs.IsProgram, Endpoint.State.Valid, Service.Adapter.Valid, Patient, ModelStep, ServiceStep, InService, InStep,
        PointerMap.Valid, TransactionLaw, PrepareBlake3, Host.Untouched, OutOfStep, Host.Keeps, Host.KeepsEqualities;
      ghost var h, e, a := runtime.View(), runtime.endpoint.View(), adapter.View();
      InServiceParts(h, runtime.profile, e, a);
      InStepParts(h, runtime.profile, e);
      if runtime.pc >= |runtime.program| {
        return Host.Refused(Host.OutsideProgram);
      }
      var op := runtime.program[runtime.pc];
      ProgramWell(runtime.program, op);
      if op.Blake3? {
        outcome := StepService(op, attempts);
        ServiceStepKeeps(h, runtime.profile, e, a, op, attempts, outcome, runtime.View(), runtime.endpoint.View(), adapter.View());
        ServiceStepStaysInService(h, runtime.profile, e, a, op, attempts, outcome, runtime.View(), runtime.endpoint.View(), adapter.View());
      } else {
        outcome := runtime.Step();
        ScalarStepKeeps(h, runtime.profile, e, op, outcome, runtime.View(), runtime.endpoint.View());
        ScalarStepStaysInService(h, runtime.profile, e, a, op, attempts, outcome, runtime.View(), runtime.endpoint.View());
      }
    }

    /** One iteration of `run`: unless the program counter has left the program, one step more. */
    method Advance(current: seq<Service.Attempt>, ghost attempts: seq<seq<Service.Attempt>>, ghost path: seq<Moment>,
                   ghost outcomes: seq<Host.StepOutcome>, ghost left: nat)
      returns (outcome: Host.StepOutcome, ghost further: seq<Moment>, ghost more: seq<Host.StepOutcome>)
      requires left > 0 && Ready(left) && |path| == |outcomes| + 1 && |outcomes| < |attempts|
      requires IsPath(runtime.program, runtime.profile, attempts, path, outcomes) && path[|outcomes|] == Now()
      requires current == attempts[|outcomes|] && |current| == adapter.maxRetries + 1
      modifies runtime`pc, runtime`fp, runtime`txnId, runtime`stepIndex, runtime.memory, runtime.memory.pointers, runtime.endpoint, adapter
      ensures Ready(left - 1) && IsPath(runtime.program, runtime.profile, attempts, further, more) && |further| == |more| + 1
      ensures further[0] == path[0] && further[|more|] == Now()
      ensures if outcome == Host.Refused(Host.OutsideProgram) then runtime.pc >= |runtime.program| && (further, more) == (path, outcomes)
              else further == path + [Now()] && more == outcomes + [outcome]
      ensures if outcome.Retired? then runtime.endpoint.retireSeq == old(runtime.endpoint.retireSeq) + 1 == outcome.retireSeq
              else runtime.endpoint.retireSeq == old(runtime.endpoint.retireSeq) && runtime.pc == old(runtime.pc)
      ensures outcome.Faulted? ==> !OutOfStep(outcome.status)
      ensures outcome.Refused? && outcome.refusal.PreparationFault? ==> outcome.refusal.status in {U32_OVERFLOW, BAD_POINTER, BAD_SERVICE}
      ensures outcome.Raised? ==> runtime.pc < |runtime.program| && runtime.program[runtime.pc].Blake3?
    {
      hide Programs.IsProgram, InService, Endpoint.State.Valid, Service.Adapter.Valid, Patient, PointerMap.Valid, Moves, OutOfStep,
        IsPath;
      ghost var m := Now();
      outcome := Step(current, left);
      further, more := path, outcomes;
      if m.h.pc < |runtime.program| {
        PathExtends(runtime.program, runtime.profile, attempts, path, outcomes, outcome, Now());
        MovesForRun(runtime.program, runtime.profile, m, current, outcome, Now());
        further, more := path + [Now()], outcomes + [outcome];
      }
    }

    /** `run`, service and all: a path of lawful steps, and how it ends. The first `retired` records
        are the steps that retired, numbered by the endpoint. */
    method Run(maxSteps: nat, attempts: seq<seq<Service.Attempt>>)
      returns (terminal: Terminal, records: seq<Host.StepOutcome>, ghost retired: nat,
               ghost path: seq<Moment>, ghost outcomes: seq<Host.StepOutcome>)
      requires Ready(maxSteps) && |attempts| == maxSteps
      requires forall i :: 0 <= i < maxSteps ==> |attempts[i]| == adapter.maxRetries + 1
      modifies runtime`pc, runtime`fp, runtime`txnId, runtime`stepIndex, runtime.memory, runtime.memory.pointers, runtime.endpoint, adapter
      ensures Ready(0) && runtime.endpoint.retireSeq == old(runtime.endpoint.retireSeq) + retired
      ensures Recorded(old(runtime.endpoint.retireSeq), terminal, records, retired)
      ensures IsPath(runtime.program, runtime.profile, attempts, path, outcomes) && path[0] == old(Now()) && path[|outcomes|] == Now()
      ensures SessionEnds(runtime.program, maxSteps, terminal, outcomes, retired, runtime.View())
      ensures Host.Keeps(old(runtime.memory.cells), runtime.memory.cells)
    {
      hide Programs.IsProgram, Moves, OutOfStep, Host.Keeps, Host.KeepsEqualities, IsPath, InService, Endpoint.State.Valid,
        Service.Adapter.Valid, Patient, PointerMap.Valid, SessionEnds, Recorded, AllRetired;
      ghost var first := runtime.endpoint.retireSeq;
      records, terminal := [], StepLimit;
      path, outcomes, retired := [Now()], [], 0;
      PathStarts(runtime.program, runtime.profile, attempts, Now());
      RecordsStart(first);
      for i := 0 to maxSteps
        invariant Ready(maxSteps - i) && terminal == StepLimit
        invariant i == |records| == retired && records == outcomes && AllRetired(first, records)
        invariant runtime.endpoint.retireSeq == first + i
        invariant |path| == i + 1 && path[0] == old(Now()) && path[i] == Now()
        invariant IsPath(runtime.program, runtime.profile, attempts, path, outcomes)
      {
        if runtime.pc == |runtime.program| - 1 {
          terminal := if runtime.fp != 0 then BadHaltState else Halted;
          EndsQuietly(runtime.program, maxSteps, terminal, first, records, runtime.View());
          break;
        }
        var outcome;
        ghost var before := records;
        outcome, path, outcomes := Advance(attempts[i], attempts, path, outcomes, maxSteps - i);
        if outcome.Retired? || outcome.Faulted? {
          records := records + [outcome];
        }
        var stop := Stop(outcome);
        if stop.Some? {
          terminal := stop.value;
          EndsAtStep(runtime.program, maxSteps, first, before, outcome, runtime.View());
          break;
        }
        retired := retired + 1;
        RecordsGrow(first, before, outcome);
      }
      if terminal == StepLimit {
        EndsQuietly(runtime.program, maxSteps, terminal, first, records, runtime.View());
      }
      PathKeeps(runtime.program, runtime.profile, attempts, path, outcomes, 0, |outcomes|);
    }
  }

  lemma ProgramWell(program: seq<Programs.Operation>, op: Programs.Operation)
    requires Programs.IsProgram(program) && op in program
    ensures op.Valid()
  {
  }

  /** What a step says to the run it is part of. */
  lemma MovesForRun(program: seq<Programs.Operation>, profile: Profile, m: Moment, attempts: seq<Service.Attempt>,
                    outcome: Host.StepOutcome, m': Moment)
    requires Moves(program, profile, m, attempts, outcome, m')
    ensures if outcome.Retired? then m'.e.retireSeq == m.e.retireSeq + 1 == outcome.retireSeq else m'.e.retireSeq == m.e.retireSeq
    ensures !outcome.Retired? ==> m'.h.pc == m.h.pc && m.h.pc < |program|
    ensures outcome.Faulted? ==> !OutOfStep(outcome.status)
    ensures outcome.Refused? ==>
      outcome.refusal.PreparationFault? && outcome.refusal.status in {U32_OVERFLOW, BAD_POINTER, BAD_SERVICE}
    ensures outcome.Raised? ==> program[m.h.pc].Blake3?
  {
    hide TransactionLaw, PrepareBlake3, ModelStep, OutOfStep, Endpoint.State.Valid, InService, Host.Keeps, Host.KeepsEqualities;
  }

  /** The attempt that decides, from what `compute` says about its result. */
  lemma ComputedAnswers(q: Service.ServiceRequired, attempts: seq<Service.Attempt>, r: Service.ComputeResult)
    requires match r
             case InfrastructureError => forall i :: 0 <= i < |attempts| ==> attempts[i].Unavailable?
             case _ => exists i :: 0 <= i < |attempts| && Service.Settles(attempts, i) && r == Service.Verdict(q, attempts[i])
    ensures r == Answering(q, attempts)
  {
    if r.InfrastructureError? {
      AnsweringFails(q, attempts);
    } else {
      var i :| 0 <= i < |attempts| && Service.Settles(attempts, i) && r == Service.Verdict(q, attempts[i]);
      AnsweringSettles(q, attempts, i);
    }
  }
}
