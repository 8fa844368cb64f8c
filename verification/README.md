# LSC-1 protocol stack: a verified model

LSC-1 moves one virtual-machine instruction at a time across a byte lane: the host sends a
request that carries every memory cell the instruction can touch, the endpoint decides a
transition and stages it, and only a matching `RETIRE` commits it. The repository writes each
part of this more than once, in Python, and compares the versions on finite vectors. The model
takes the versions one by one and proves that they agree, on all inputs.

| module | part |
|---|---|
| `Bits`, `Bytes`, `Outcomes` | bit operations on unbounded integers, little-endian bytes, result types |
| `BinaryField`, `Ghash`, `Pointers` | GF(2)[x] modulo any polynomial; GF(2^128) with the polynomial of section 6.3 of NIST SP 800-38D in unreflected bit order; pointers as powers of the generator, their tables and searches; inverses as powers |
| `Frobenius`, `FieldWords`, `FieldChain`, `Inverses` | why GF(2^128) is a field: repeated squaring, roots of polynomials, and the squarings computed on machine words |
| `FermatFactors`, `PointerOrder` | why no two indices of the window share a pointer |
| `Crc32`, `Division`, `CrcDivision`, `KnownFrames` | CRC-32 of section 3.2.9 of IEEE 802.3 and its burst detection; what it and the field product compute as remainders of polynomials; its check value and whole frames |
| `Protocol`, `Wire`, `Requests`, `Frames`, `Results` | constants, primitive fields, request and response frames, result payloads |
| `Layouts`, `FrameLaws` | where every field of every payload lies; which fault a deviating frame meets |
| `Transitions`, `TransitionLaws` | what one request decides |
| `Endpoint`, `LaneEndpoint`, `EndpointRuns`, `EndpointLaws`, `EdgeLaws` | the endpoint as a state function, as the object with its fields, and over whole runs; its answers without reference to its code |
| `Lane`, `Exchange` | the byte driver under every stall pattern; one frame down the lane |
| `Programs`, `Oracle` | bytecode, and the independent interpreter |
| `HostMemory`, `Host`, `HostRuntime`, `HostLaws` | write-once memory with deferred equalities; the host's decisions; the runtime object |
| `Refinement`, `Lockstep`, `ScalarRuns` | endpoint decisions against the oracle; host against endpoint; whole steps |
| `FaultAgreement`, `Reconciliation` | which fault an instruction meets on either side; DEREF_CELL, which the oracle does not interpret |
| `StreamAlu`, `StreamRuns` | the stream ALU as transaction model and as state machine, and why they agree |
| `Blake3Service` | the external BLAKE3 service: messages, bridge, replay guard |
| `ServiceHost`, `GuardRuns` | what the host decides at a BLAKE3 step, for arbitrary replies; the replay guard over whole runs |
| `Damage` | payload bytes damaged on the lane, against a whole host step |
| `ServiceSteps`, `ServiceRuntime` | whole BLAKE3 steps of host, endpoint and replay guard, and runs that mix them with scalar steps |
| `Delegation`, `AccessCounts`, `Confinement` | when the service is asked for; what a run counts; what a step can touch and which faults are its own |
| `ConcreteSteps` | steps at concrete inputs where the parts of the stack disagree |
| `PacketCodec`, `PacketExecution`, `PacketExecutor` | the independent packet executor and its bisimulation with the endpoint |
| `Worklist`, `CellGraphs` | the formal validator's evaluation of a cell graph, and what each kind of cell contributes |

An object of the source is a class here, and each of its methods is proved against a function of
its old state (`View()` is the value of the object). The theorems are about those functions, so
they hold of every run of the objects. The source's `HostRuntime` is two
classes: `HostRuntime.Runtime`, and `ServiceRuntime.Session`, which adds the service adapter.
Exceptions are results: `Err`, `None`, or a value of an
outcome type. Integers that the source masks or range-checks carry their range in their type.

## What the proofs found

- `docs/LSC1_TRANSACTION_PROTOCOL.md:524` says that a fault echoes the transaction id when the
  frame decoded far enough to carry one. For a payload that does not decode the endpoint echoes
  zero (`sim/lsc1_transaction.py:1147-1157`); the packet executor echoes the id
  (`sim/packet_executor_model.py:405-406`). The executor's state is a function of the endpoint's
  and of this echo, so nothing else can differ; `PacketExecutor.AnswersDiffer` says exactly when the
  answers do, and `PacketExecutor.DifferingFrame` gives a frame.
- An XOR whose absent destination is also an operand is accepted although its relation does not
  hold afterwards (`TransitionLaws.AliasedXorBreaksRelation`); `TransitionLaws.RelationHoldsAfter`
  says exactly when this happens. The oracle does the same, so the refinement is unaffected.
- The endpoint and the host compute `fp + gamma` for every dereference, the oracle never does
  (`ConcreteSteps.LocalOverflowDiverges`); the endpoint additionally bounds indices by its
  16-bit window, and under FORWARD_ONLY asks for both operands. `ScalarRuns.Supported` lists these,
  and a step retires exactly when the oracle executes the instruction and they hold; otherwise
  `FaultAgreement.StepFault` says with which status it ends. The inverses the host
  proposes always pass the endpoint's check: `Inverses.InverseHolds` proves that x^128 + x^7 + x^2 +
  x + 1 makes a field.
- The pointers of the window are all different (`PointerOrder.PointersDiffer`). This is not a matter of
  the field alone: it rests on 2^64 + 1 having no divisor below 2^16.
- A digest that the endpoint accepts can still contradict the equalities the host has deferred:
  exactly when both output cells are absent, a chain of open pairs joins them, and the two digest
  words differ (`ServiceSteps.DigestLaw`). The step then raises `WriteOnceViolation`, both sides are
  aborted and nothing moves; `ConcreteSteps.ContradictingDigest` is such a step. Scalar steps cannot
  do this.
- Near the end of its 32-bit service counter the endpoint answers BAD_SERVICE to every BLAKE3
  request. The host does not take that status for the fault of a step
  (`host/runtime.py:124-133`) and raises instead of ending the run with a fault
  (`ConcreteSteps.ExhaustedCounter`).
- When the reply to RETIRE decodes but is neither the acknowledgement nor a credible mismatch, the
  host raises without aborting either side (`host/runtime.py:665-697`), and a BLAKE3 service stays
  outstanding. `ServiceHost.KeyUsedUp` shows that this is the only way. On an undamaged lane the
  model endpoint never sends such a reply; it does when RETIRE is damaged on its way
  (`Damage.DamagedRetirementIsSenseless`). `ConcreteSteps.SenselessRetirement` is such a step.
- The service left outstanding fails the next one that is asked for, and that frees the guard
  (`GuardRuns.RunRecovers`). It is not freed by a step that the endpoint answers with a fault
  (`ConcreteSteps.StaleSurvivesFault`), which is what an endpoint that still holds the result does
  (`ServiceSteps.BusyReply`); `GuardRuns.StaleKey` is the exact condition.

## Model

| member | source | states |
|---|---|---|
| HostRuntime.Runtime.Run | host/runtime.py:733-764 | Over the model endpoint: a trail of lawful scalar steps from the old state to the new one, and exactly how it ends: at the sentinel with frame pointer zero or not, at the limit, outside the program, or at an instruction that faults. The first `retired` records are the retired steps, numbered consecutively by the endpoint, and a fault the endpoint reported is one record more; no fault is BAD_STATE, BAD_PROFILE or STATE_MISMATCH. For interpreted programs with nothing deferred the run is `retired` oracle instructions and a faulted one stopped where the oracle faults or the protocol does not support the instruction; and if the oracle halts after `n` supported instructions a run with more iterations than that halts after exactly `n`, in the oracle's final state |
| HostRuntime.Runtime.Advance | host/runtime.py:738-763 | One iteration of the run: one step more on the trail, host and endpoint in step, and the oracle's trace extended by one instruction exactly when it retires |
| HostRuntime.Runtime.Step | host/runtime.py:550-731 | A step over the driven endpoint is one `ModelStep`: same preparation, two exchanges, same verdicts, commit exactly when retired |
| HostRuntime.Runtime.TransactPrepared | host/runtime.py:568-731 | The two exchanges of a step and the commit between the replies, against the endpoint's own answers |
| HostRuntime.Runtime.StepAgainst | host/runtime.py:550-731 | A scalar operation against arbitrary replies is exactly `IsStep`: untouched, or the commit of the transition the first reply carried; `ServiceRuntime.Session.StepAgainst` does the same for every operation |
| HostRuntime.Runtime.ConcludeAgainst | host/runtime.py:645-731 | For any pair of replies the state after the step is the old one or the believed transition applied |
| HostRuntime.Runtime.Commit | host/runtime.py:699-713 | The commit block cannot raise once prevalidation passed, and leaves exactly the decoded result with deferred equalities closed and its accesses counted (`AccessCounts.CommitCounts`) |
| HostRuntime.Runtime.PrevalidateResult | host/runtime.py:499-546 | Decides on a private copy whether a result can be committed; the runtime's own memory is not touched |
| HostRuntime.Runtime.CheckBatch | host/runtime.py:502-511 | Reports the first write that conflicts with the batch or with memory, and which of the two |
| HostRuntime.Runtime.ApplyBatch | host/runtime.py:517-518 | A checked batch is applied write by write, each admitted by the write-once rule |
| HostRuntime.Runtime.PrepareRequest | host/runtime.py:357-477 | The request and addresses of every scalar operation, or the host's refusal, as a function of the host state |
| HostRuntime.Runtime.PrepareDereference | host/runtime.py:384-411 | Pointer resolution through the table, then target and local addresses, with the refusals in source order |
| HostRuntime.Runtime.PrepareBranch | host/runtime.py:413-443 | Taken branches need both cells and both reversed pointers; an untaken one carries zeros and no witness |
| HostRuntime.Runtime.ProposeInverse | host/runtime.py:479-497 | A witness exactly when the endpoint will back-solve a product by a nonzero operand |
| HostRuntime.Runtime.SendRequest | host/runtime.py:304-311 | One exchange: the endpoint ends in the answered, drained state and the reply is what it answered, whatever the gaps |
| HostRuntime.Runtime.NegotiateProfile | host/runtime.py:313-328 | An idle endpoint always answers with the required 14 bytes and only its profile and status change |
| HostRuntime.Runtime.constructor | host/runtime.py:265-300 | Negotiating with an idle endpoint puts it in step with the new runtime |
| HostRuntime.ExchangeSettles | sim/lsc1_transaction.py:1308-1355 | Every request and its answer fit the driver's cycle limit when the gap patterns leave room for 201 stalled transfers |
| HostRuntime.RunFollowsOracle | sim/scalar_step_oracle.py:143-154 | The converse of refinement: where the oracle halts after `n` supported instructions, a run with more iterations halts after exactly `n`, in the oracle's final state; with no more it reaches its limit |
| HostRuntime.TracedStep | host/runtime.py:550-731 | A retired step is one more oracle instruction of the run; an unretired one leaves the oracle at an instruction it faults on or the protocol does not support |
| HostRuntime.StepOfRun | host/runtime.py:738-763 | A step inside the program retires, is refused while preparing with U32_OVERFLOW or BAD_POINTER, or is faulted with a status that is never out of step |
| Host.AllOrNothing | host/runtime.py:645-731 | For arbitrary replies a scalar step retires if and only if the first reply carries a transition that can be committed and the second acknowledges it (status RETIRED, 16 bytes, the transaction id, the transition's pc and fp); it then commits exactly that transition, and otherwise nothing but counters moves |
| Host.CheckedWritesApply | host/runtime.py:499-518 | A batch that passed the pairwise check against the batch and memory is admitted write by write |
| Host.StepKeepsEqualities | host/runtime.py:699-709 | Whatever the replies, no scalar step forgets a deferred equality, and the returned ones are taken on |
| Host.CommitKeepsEqualities | host/memory.py:129-158 | After a commit every listed or returned equality holds in memory or is still listed between two absent cells |
| Host.StepKeepsCells | host/runtime.py:499-518 | Write once against an arbitrary endpoint: whatever the replies, no scalar step changes or loses a known cell; `ServiceHost.StepAllOrNothing` says so of every operation |
| Host.CommitKeeps | host/runtime.py:699-709 | A committed result leaves every known cell alone and every written cell as the result says |
| ServiceRuntime.Session.Run | host/runtime.py:733-764 | The whole run, service included, whatever the service does: a path of steps that each obey `StepLaw`, from the old moment to the new one, and exactly how it ends; retirements are numbered consecutively by the endpoint; host, endpoint and replay guard are in service throughout; no fault or refusal is BAD_STATE, BAD_PROFILE or STATE_MISMATCH; an exception leaves the run only outside the program or at a BLAKE3 operation; known cells are kept |
| ServiceRuntime.Session.Advance | host/runtime.py:738-763 | One iteration of the run: one step more on the path, unless the program counter has left the program |
| ServiceRuntime.Session.Step | host/runtime.py:550-731 | Every operation of a program obeys `StepLaw`, keeps known cells and deferred equalities, and leaves host, endpoint and replay guard in service |
| ServiceRuntime.Session.StepService | host/runtime.py:550-731 | A BLAKE3 step over the endpoint takes the same decisions as `StepServiceAgainst`, on the endpoint's own replies |
| ServiceRuntime.Session.TransactRequested | host/runtime.py:568-643 | The first exchange over the endpoint, and the abort edge where the judgment calls for it |
| ServiceRuntime.Session.TransactServed | host/runtime.py:616-651 | The second exchange: the digest goes to the endpoint and its result is judged |
| ServiceRuntime.Session.RetireServed | host/runtime.py:653-724 | RETIRE with the CRC of exactly the believed payload, and the conclusion |
| ServiceRuntime.Session.ServeRequest | host/runtime.py:576-616 | The published request is accepted only for the transaction in flight and with exactly the operands that were sent; then the service is asked and its digest turned into a frame |
| ServiceRuntime.Session.PrepareService | host/runtime.py:441-461 | Metadata first, then the eight addresses in order, with the refusals in source order; `Delegation.PreparesWhen` says when |
| ServiceRuntime.Session.Abandon | host/runtime.py:617-627 | The outstanding key is used up and the endpoint is marked for abort before the exception propagates |
| ServiceRuntime.Session.StepAgainst | host/runtime.py:550-731 | All or nothing for every operation and any sequence of replies: the step is `IsHostStep`, moves nothing but counters unless it retires, and never loses a known cell |
| ServiceRuntime.Session.StepServiceAgainst | host/runtime.py:550-731 | A BLAKE3 step against three arbitrary replies and any behaviour of the service follows the source branch by branch, abort flags and replay guard included |
| ServiceRuntime.Session.AnswerRequest | host/runtime.py:568-627 | After the first reply: a published service is answered, a fault is judged, anything else aborts both sides and raises |
| ServiceRuntime.Session.BelieveDigest | host/runtime.py:628-651 | After the second reply: WRITE_CONFLICT has already discarded the transaction, any other refusal aborts the endpoint; a result that cannot be committed aborts both sides |
| ServiceRuntime.Session.Conclude | host/runtime.py:660-724 | After the third reply: the commit and the end of the key, or the outcome without an abort |
| ServiceRuntime.Session.Settle | host/runtime.py:617-651 | The abort edge, exactly where a failed step calls for it |
| ServiceRuntime.EqualityForever | sim/lsc1_transaction.py:742-763 | What DEREF_CELL is for: at every later moment of a run the equality a retired one states holds in memory, or is still listed with both cells absent |
| ServiceRuntime.PathKeeps | host/runtime.py:699-709 | Over any stretch of a run, service included, no known cell changes and no deferred equality is forgotten |
| ServiceHost.StepAllOrNothing | host/runtime.py:550-731 | For every operation and every sequence of replies: unless the step retires nothing but counters has moved, a retiring step has not aborted the endpoint, and known cells and deferred equalities are kept either way |
| ServiceHost.TransactionAllOrNothing | host/runtime.py:568-731 | For arbitrary replies a BLAKE3 transaction retires if and only if the service was published and answered, the result can be committed, and the retirement acknowledges it; it then commits exactly that result, and otherwise nothing moves |
| ServiceHost.KeyUsedUp | host/runtime.py:568-726 | Whatever the endpoint answers, an outstanding service key is used up by the end of the step, except exactly when the result was believed and the last reply decodes but neither acknowledges it nor is a credible mismatch |
| ServiceHost.SenselessLast | host/runtime.py:660-697 | Every BLAKE3 transaction that retires would have been left with its service outstanding, and nothing committed, by a last reply that makes no sense |
| GuardRuns.StaleKey | host/blake3_service.py:245-257 | With a service of an earlier transaction outstanding a BLAKE3 step against any replies never retires; it aborts both sides and uses the key up exactly if a request is sent and the reply to it is not a fault, and otherwise the service stays outstanding |
| GuardRuns.StepKeepsBehind | host/blake3_service.py:290-301 | Whatever the replies, a step leaves no service of a later transaction and no used-up key outstanding, and never frees a used-up key; a scalar step does not touch the guard |
| GuardRuns.StaleUntilAsked | host/runtime.py:550-731 | Over any run against any replies, until the next service is asked for the outstanding one stays and no BLAKE3 operation retires |
| GuardRuns.RunRecovers | host/runtime.py:550-731 | Over any run against any replies, the first service asked for after one was left outstanding fails and frees the guard; the old key is used up at every later step |
| Damage.DamagedStep | host/runtime.py:550-731 | Up to four neighbouring payload bytes damaged in any exchange of any step, in either direction: nothing is committed and nothing but counters moves |
| Damage.DamagedScalarStep | host/runtime.py:645-697 | A scalar step that gets to a damaged exchange raises: undecodable if the reply was damaged, a protocol violation if the request was |
| Damage.DamagedTransaction | host/runtime.py:568-697 | How a BLAKE3 transaction with a damaged exchange ends: a damaged reply, or an answered damaged digest, aborts both sides and uses up the key; an answered damaged request or RETIRE aborts neither and leaves the guard as it was |
| Damage.DamagedRequestAnswered | sim/lsc1_transaction.py:1127-1132 | Driven over the lane, a damaged request moves only the status registers of an endpoint between frames and is answered with BAD_CRC |
| Damage.DamagedRetirementIsSenseless | host/runtime.py:141-190 | The answer to a damaged RETIRE makes no sense to the host |
| ServiceHost.TransactionKeeps | host/runtime.py:499-546 | Against arbitrary replies a BLAKE3 transaction keeps known cells and deferred equalities |
| ServiceRuntime.Session.constructor | host/runtime.py:265-300 | A runtime in step and a fresh replay guard are in service |
| ServiceSteps.ServiceStepStaysInService | host/runtime.py:550-731 | A BLAKE3 step of a host, endpoint and replay guard in service retires if and only if it is prepared, accepted by the endpoint, answered by the service, its digest collides with no output cell, and not both output cells are absent, joined by a chain of deferred equalities and given different words; the commit is then exactly the absent digest words; every other ending has its exact condition, moves nothing the program sees, and leaves all three in service |
| ServiceSteps.ScalarStepStaysInService | host/runtime.py:550-731 | Scalar steps never raise and never touch the service |
| ServiceSteps.DigestDecides | host/runtime.py:645-726 | With the request accepted and the service answering, the output cells, the two digest words and the open pairs alone decide between fault, exception and commit |
| ServiceSteps.ResumeDecides | sim/lsc1_transaction.py:855-864 | The endpoint accepts a digest exactly when it collides with no output cell the host knows, and writes exactly the absent words |
| ServiceSteps.RepliesOfTransaction | host/runtime.py:568-731 | A step over the model endpoint is a step against the replies it gives, `ModelReplies` |
| ServiceSteps.DigestBelieved | host/runtime.py:568-651 | Over the model endpoint a digest that collides with no output cell and contradicts no chain of deferred equalities is sent and its result believed |
| ServiceSteps.BusyReply | sim/lsc1_transaction.py:1203-1206 | An endpoint that still holds a result or a service answers the next BLAKE3 request BAD_STATE under its own id |
| ServiceSteps.ServiceStepKeeps | host/runtime.py:550-731 | Whatever state the endpoint is in, no BLAKE3 step changes or loses a known cell or forgets a deferred equality |
| ServiceSteps.DerefCellHonoured | sim/lsc1_transaction.py:742-763 | A retired DEREF_CELL leaves the cell its pointer leads to and its local cell equal, or their equality listed between two absent cells |
| Lockstep.TwoWritesConsistent | host/memory.py:129-158 | When every open pair has both cells absent, two writes contradict the deferred equalities if and only if both cells were absent, a chain of pairs joins them, and the values differ |
| ConcreteSteps.ContradictingDigest | host/runtime.py:645-651 | A concrete host, endpoint and digest: the endpoint accepts the digest and the step raises WriteOnceViolation |
| ConcreteSteps.ExhaustedCounter | sim/lsc1_transaction.py:1231-1235 | A concrete step at an exhausted service counter: BAD_SERVICE from the endpoint, an exception at the host |
| ConcreteSteps.LocalOverflowDiverges | sim/lsc1_transaction.py:731-735 | A concrete dereference whose local address overflows: the oracle executes it, the host refuses it |
| ConcreteSteps.SenselessRetirement | host/runtime.py:660-697 | A concrete step of the model endpoint whose last reply is an acknowledgement without its payload, or the answer to a damaged RETIRE: the host raises without aborting and the service stays outstanding |
| ConcreteSteps.StaleSurvivesFault | host/runtime.py:628-651 | The next BLAKE3 step from there, answered BAD_STATE: the host raises again and the service is still outstanding |
| ServiceSteps.SuspensionObeysLaw | host/runtime.py:576-724 | A published service fails, collides with an output cell, contradicts a deferred equality or retires, each exactly when the attempts, the output cells, the digest words and the open pairs say so; in every case its key is used up |
| ServiceSteps.DigestPrevalidates | host/runtime.py:499-546 | The host refuses a digest the endpoint accepted, with WriteOnceViolation, if and only if both output cells are absent, a chain of deferred equalities joins them, and the digest words differ |
| ServiceSteps.ServesPublished | host/runtime.py:576-616 | What the endpoint publishes for a prepared request passes the replay guard and the host's operand check, and the frame sent back carries the digest under its transaction and service id |
| ServiceSteps.PreparedDecides | sim/lsc1_transaction.py:830-852 | The endpoint can refuse a prepared BLAKE3 request only for its last index, and the operands it publishes are the host's cells |
| ServiceSteps.RefusedHow | sim/lsc1_transaction.py:1204-1244 | A prepared BLAKE3 request in step is refused only by the index window, the last index, or an exhausted service counter |
| ServiceSteps.RetirementObeysLaw | sim/lsc1_transaction.py:1271-1295 | The retirement of a believed digest is accepted, commits it and completes the key |
| ScalarRuns.StepRefinesOracle | sim/scalar_step_oracle.py:75-119 | Every retired step is exactly one `Machine.step`; under either profile a step retires if and only if the oracle executes the instruction, the indices are in the window, the local address of a dereference fits, and under FORWARD_ONLY both operands of XOR and MUL are in memory |
| ScalarRuns.StepStaysInStep | host/runtime.py:550-731 | With the model endpoint a scalar step never raises, retires exactly when the endpoint accepts the prepared request, and keeps both sides in step; otherwise it ends as the host's refusal or the status the endpoint decided |
| ScalarRuns.PreparedInStep | host/runtime.py:575-731 | The same for the exchanges alone, once a request is prepared |
| ScalarRuns.PreparedRefines | sim/lsc1_transaction.py:671-815 | The endpoint's decision on a prepared request accepts exactly the supported part of what the oracle executes, under either profile |
| ScalarRuns.RefusalIsFault | host/runtime.py:357-477 | A host refusal is an oracle fault, or an overflowing local address the oracle never computes |
| ScalarRuns.DecisionCommittable | host/runtime.py:499-521 | Whatever the endpoint decides about a prepared scalar request, the host can commit |
| Lockstep.OneWriteConsistent | host/memory.py:129-158 | When every open pair has both cells absent, one write to an absent cell cannot contradict a deferred equality |
| Lockstep.FittingPrevalidates | host/runtime.py:499-546 | The result payload of a committable decision always passes prevalidation and decodes to that decision |
| Lockstep.AcceptedInStep | sim/lsc1_transaction.py:1246-1295 | An accepted instruction: the host believes the result, its RETIRE matches, and the commit leaves both sides in step with one more retirement |
| Lockstep.RefusedInStep | sim/lsc1_transaction.py:1150-1157 | A refused instruction ends as a credible fault that is not BAD_STATE, BAD_PROFILE or STATE_MISMATCH, with both sides still in step |
| Lockstep.RetireInStep | sim/lsc1_transaction.py:1271-1295 | The host's RETIRE for the staged result is accepted and its reply is judged a retirement |
| Lockstep.GuardInStep | sim/lsc1_transaction.py:1204-1213 | In step, the endpoint's guard can only object to the index window |
| Lockstep.DecideFaults | sim/lsc1_transaction.py:671-815 | No execution fault is a frame-level rejection or an out-of-step status |
| Refinement.BackSolveNeverConflicts | sim/lsc1_transaction.py:685-710 | An operand solved by the endpoint never conflicts with its own instruction's forward write, whatever the aliasing |
| Refinement.BinaryRefines | sim/lsc1_transaction.py:671-716 | XOR and MUL are accepted exactly when the oracle executes them and, under FORWARD_ONLY, both operands are in memory; the witness the host sends always passes; at most one cell is written, one the host holds absent |
| Refinement.SetRefines | sim/lsc1_transaction.py:719-728 | SET is accepted exactly when the oracle accepts it, to the same effect |
| Refinement.DerefRefines | sim/lsc1_transaction.py:731-777 | DEREF_PC and DEREF_FP are accepted exactly when the oracle accepts them and the encoded index is inside the window |
| Refinement.DerefFits | sim/lsc1_transaction.py:731-777 | Any accepted dereference, DEREF_CELL included, writes at most one absent cell or defers one equality between absent cells |
| Refinement.JumpRefines | sim/lsc1_transaction.py:780-815 | JUMP is accepted exactly when the oracle accepts it; the witness the host sends always passes |
| TransitionLaws.RelationHoldsAfter | sim/lsc1_transaction.py:671-716 | After an accepted XOR or MUL the destination equals the combination of the operands in the resulting memory, if and only if the forward write did not overwrite an absent XOR operand beside a nonzero one |
| TransitionLaws.AliasedXorBreaksRelation | sim/lsc1_transaction.py:703-706 | A concrete accepted XOR after which its relation does not hold |
| TransitionLaws.WitnessIrrelevant | sim/lsc1_transaction.py:693-700 | Any two accepted witnesses solve the same operand, the only one whose product with the known operand is the destination |
| EndpointRuns.CommitsAfterDelivery | sim/lsc1_transaction.py:1067-1295 | After any inputs, committed pc, fp and retire_seq move without reset only at the edge that completes a RETIRE matching the staged transaction, with every byte of its result frame already delivered |
| EndpointRuns.RunsAreSound | sim/lsc1_transaction.py:1067-1295 | After any inputs, with aborts and resets, the invariant holds, retirements never outnumber decisions and service ids strictly increase between resets |
| EndpointRuns.StaleResponseIgnored | sim/lsc1_transaction.py:1252-1263 | A digest for any other service is refused and leaves the suspended transaction as it was |
| EndpointRuns.SecondRetireRefused | sim/lsc1_transaction.py:1271-1274 | A second RETIRE of a retired transaction answers BAD_STATE |
| EndpointRuns.StepStaging | sim/lsc1_transaction.py:1204-1295 | An edge keeps what is staged, drops it, stages from IDLE, or decides a suspended transaction; new staging needs an empty response buffer |
| Endpoint.StepKeepsValid | sim/lsc1_transaction.py:1067-1125 | Every edge keeps the invariant: a receive buffer that is a proper frame prefix, never both buffers non-empty, IDLE exactly when nothing is staged |
| Endpoint.StepCommits | sim/lsc1_transaction.py:1067-1090 | The committed state moves, other than by reset, if and only if an accepted byte completes a matching RETIRE |
| Endpoint.RetireCommits | sim/lsc1_transaction.py:1271-1295 | A RETIRE commits exactly when transaction id and CRC match, and otherwise faults without moving the committed state |
| Endpoint.AnswerKeepsValid | sim/lsc1_transaction.py:1161-1172 | Answering any valid request keeps the invariant |
| Endpoint.AcceptCases | sim/lsc1_transaction.py:1103-1125 | A byte either completes a frame, which is dispatched, or moves nothing but the receive and response buffers |
| Endpoint.ResultPayloadShort | sim/lsc1_transaction.py:585-594 | The length of a result payload in terms of its counts |
| LaneEndpoint.Lsc1Endpoint.constructor | sim/lsc1_transaction.py:1017-1037 | The power-on state |
| LaneEndpoint.Lsc1Endpoint.Reset | sim/lsc1_transaction.py:1022-1037 | Back to the power-on state from anywhere |
| LaneEndpoint.Lsc1Endpoint.Abort | sim/lsc1_transaction.py:1044-1053 | Drops what is staged and both buffers, keeps the committed state |
| LaneEndpoint.Lsc1Endpoint.Tick | sim/lsc1_transaction.py:1067-1090 | One edge is `Step` of the old state, with the record sampled before it, and keeps the invariant |
| LaneEndpoint.Lsc1Endpoint.AcceptByte | sim/lsc1_transaction.py:1103-1125 | Framing of one byte |
| LaneEndpoint.Lsc1Endpoint.DispatchFrame | sim/lsc1_transaction.py:1127-1142 | CRC, version, flags and opcode are checked in this order, each with its fault |
| LaneEndpoint.Lsc1Endpoint.DispatchPayload | sim/lsc1_transaction.py:1143-1157 | Length and payload decoding; a raised fault becomes the response |
| LaneEndpoint.Lsc1Endpoint.HandleRequest | sim/lsc1_transaction.py:1161-1172 | The handler of each opcode |
| LaneEndpoint.Lsc1Endpoint.Negotiated | sim/lsc1_transaction.py:1174-1189 | Only in IDLE, only for version 1; the profile changes |
| LaneEndpoint.Lsc1Endpoint.StatusQueried | sim/lsc1_transaction.py:1191-1202 | The 20-byte status, in any state, changing nothing else |
| LaneEndpoint.Lsc1Endpoint.Instruct | sim/lsc1_transaction.py:1204-1244 | The four guards in order, then execution and staging |
| LaneEndpoint.Lsc1Endpoint.SuspendOn | sim/lsc1_transaction.py:1232-1244 | A BLAKE3 request is published under the next service id, which is refused near the end of the counter |
| LaneEndpoint.Lsc1Endpoint.FinishTransaction | sim/lsc1_transaction.py:1246-1250 | The result is staged with the CRC of exactly the payload sent |
| LaneEndpoint.Lsc1Endpoint.ServiceAnswered | sim/lsc1_transaction.py:1252-1269 | A digest resumes only the outstanding service; a conflicting digest discards the transaction |
| LaneEndpoint.Lsc1Endpoint.Retired | sim/lsc1_transaction.py:1271-1295 | Commit, acknowledgement and done pulse, or a mismatch that discards |
| Lane.Drive | sim/lsc1_transaction.py:1308-1355 | For every stall pattern the response and the final endpoint state are those of the unstalled byte stream; it gives up only on a silent frame or below a stated cycle bound |
| Lane.EdgeKeepsTrack | sim/lsc1_transaction.py:1067-1090 | One edge, stalled or not, leaves the bytes still to come and the final state unchanged |
| Exchange.ExchangeIsAnswer | sim/lsc1_transaction.py:1103-1157 | Driving a built request over an idle lane is answering that request |
| Exchange.EncodedRequestInspects | sim/lsc1_transaction.py:316-333 | A built frame passes every frame check and decodes to the request it was built from |
| Exchange.CorruptedRequestRejected | sim/lsc1_transaction.py:1127-1132 | Changing up to four neighbouring payload bytes of a request is answered BAD_CRC |
| Exchange.FeedFrame | sim/lsc1_transaction.py:1103-1125 | Feeding a whole frame byte by byte is dispatching it once |
| Crc32.ComputeCrc | sim/lsc1_transaction.py:218-225 | The bit-at-a-time loop computes the CRC function, the remainder that `CrcDivision.CrcIsRemainder` describes |
| Crc32.BurstDetected | sim/lsc1_transaction.py:218-225 | Two equal-length messages that differ only within four consecutive bytes have different CRCs |
| Wire.ParseFlatten | sim/lsc1_transaction.py:231-311 | Reading back a laid-out field list gives the fields |
| Wire.FlattenParse | sim/lsc1_transaction.py:269-311 | Whatever the reader accepts is the layout of the fields it returns; a payload of the right length is never refused for its length |
| Wire.Reader.ReadAll | sim/lsc1_transaction.py:269-311 | The offset-based reader computes the parse, faults included |
| Requests.PayloadDecodes | sim/lsc1_transaction.py:381-506 | Every built payload has its opcode's fixed length and decodes to the request it was built from |
| Requests.DecodedRebuilds | sim/lsc1_transaction.py:909-973 | Re-encoding any accepted payload gives the same bytes |
| Requests.DecodeRequestPayload | sim/lsc1_transaction.py:909-973 | The decoder, with its fault and detail for each malformation |
| Frames.ResponseRoundTrip | sim/lsc1_transaction.py:336-367 | A response frame decodes to the response |
| Frames.DecodedResponseReencodes | sim/lsc1_transaction.py:353-367 | The response decoder accepts nothing but encoded responses |
| Frames.CorruptedResponseRejected | sim/lsc1_transaction.py:353-367 | Changing up to four neighbouring payload bytes of a response is always noticed |
| Results.TransitionRoundTrip | host/runtime.py:193-259 | A result payload with up to 255 writes, deferred pairs and accesses decodes to the transition |
| Results.DecodedTransitionReencodes | host/runtime.py:193-259 | The result decoder accepts nothing but encoded transitions |
| Results.DecodeResultPayload | host/runtime.py:193-259 | The cursor-based decoder computes the decoding, every truncation and surplus refused |
| Results.DecodeList | host/runtime.py:209-224 | One counted list at the cursor |
| Transitions.Frame.Supply | sim/lsc1_transaction.py:612-618 | Two cells for one address must agree |
| Transitions.Frame.WriteOnce | sim/lsc1_transaction.py:627-634 | A present cell admits only its own value and records nothing; an absent one is written and recorded |
| Transitions.CheckIndex | sim/lsc1_transaction.py:662-668 | The window check comes first, then the encoding must be the pointer |
| Transitions.EncodeIndexSquaring | sim/lsc1_transaction.py:195-204 | Square and multiply computes the power of the generator inside the window |
| Transitions.ExecuteBinary | sim/lsc1_transaction.py:671-716 | XOR and MUL with back-solving over an aliasing frame |
| Transitions.BackSolveFrame | sim/lsc1_transaction.py:680-706 | The operand solved from the destination, and the faults in source order |
| Transitions.ExecuteSet | sim/lsc1_transaction.py:719-728 | SET through the frame |
| Transitions.ExecuteDeref | sim/lsc1_transaction.py:731-777 | DEREF in its three modes, as `EndpointLaws.DerefLaw` says over the cells shown |
| Transitions.ReconcileFrame | sim/lsc1_transaction.py:742-763 | Cell equality: forward only, or filled from either side, or deferred when both are absent, as `Reconciliation.DerefCellDecides` says over the host's cells |
| Transitions.ExecuteJump | sim/lsc1_transaction.py:780-815 | The branch proposal checked against the condition, witness and pointers, as `EndpointLaws.JumpLaw` says over the cells shown |
| Transitions.Execute | sim/lsc1_transaction.py:1222-1231 | The execution of each scalar opcode |
| Transitions.ExecuteBlake3 | sim/lsc1_transaction.py:830-852 | The published operands and the suspended frame, under the metadata test of `Delegation.MetadataDecides` |
| BinaryField.MulCommutes | sim/model.py:36-47 | The bit-serial product is commutative, for every width and reduction polynomial |
| BinaryField.MulAssociates | sim/model.py:36-47 | The bit-serial product is associative, for every width and reduction polynomial |
| BinaryField.MulLinearRight | sim/model.py:36-47 | The product distributes over exclusive or in its second operand |
| BinaryField.MulOneLeft | sim/model.py:36-47 | One is a unit |
| BinaryField.ModulusVanishes | sim/model.py:60-65 | Every shift of the modulus multiplies to zero, which is what justifies long reduction |
| BinaryField.MulByX | sim/model.py:27-33 | One conditional reduction computes multiplication by x; an operand or width out of range is refused |
| BinaryField.GfMulBitserial | sim/model.py:36-47 | The LSB-first accumulator computes the field product; operands out of range are refused |
| BinaryField.GfMulPolynomial | sim/model.py:50-65 | Schoolbook product and long reduction compute the same field product; operands out of range are refused |
| BinaryField.MultipliersAgree | sim/model.py:36-65 | Serial, schoolbook and swapped products agree for every width, reduction and operands |
| Ghash.SerialProduct | sim/lsc1_transaction.py:184-192 | The endpoint's multiplier loop computes the field product |
| Ghash.SchoolbookProduct | sim/scalar_step_oracle.py:23-33 | The oracle's multiplier computes the same product; the packet executor's multiplier is the same loop |
| Ghash.FieldEncode | sim/lsc1_transaction.py:195-204 | Square and multiply, top bit first, is iterated multiplication by x, for every window size |
| Ghash.WitnessSolves | sim/lsc1_transaction.py:693-700 | A witness of one solves for the operand, uniquely |
| Ghash.FieldInverse | host/memory.py:18-34 | The host's loop computes the power 2^128 - 2; zero is refused |
| Ghash.OracleInverse | sim/scalar_step_oracle.py:122-131 | The oracle's exponentiation computes the same power, and zero for zero |
| Pointers.OracleReverse | sim/scalar_step_oracle.py:134-140 | The scan returns the least index below the limit that encodes the value, or none exists |
| Pointers.OracleEncode | sim/scalar_step_oracle.py:36-40 | Iterated doubling is the power of the generator |
| Pointers.PointerMap.IndexOf | host/memory.py:64-74 | The growing table returns the same least index as the oracle's scan, which the endpoint's index check accepts; or no index in the window would be accepted |
| Pointers.PointerMap.Encode | host/memory.py:60-62 | The table's forward direction is the power of the generator inside the window |
| Pointers.PointerMap.Grow | host/memory.py:49-58 | Grows to the index or refuses it; both directions stay exact |
| HostMemory.Memory.ResolveDeferred | host/memory.py:129-158 | Terminates; succeeds if and only if no cell is connected to two different known values; then memory holds exactly the implied values and the list exactly the pairs with both cells absent, in order; when it raises only implied values have been added |
| HostMemory.Memory.Pass | host/memory.py:137-154 | One sweep keeps the implied values and shrinks the list by what it resolved |
| HostMemory.Memory.Visit | host/memory.py:138-154 | The five cases of one pair |
| HostMemory.OrderIrrelevant | host/memory.py:129-158 | Two lists of the same deferred equalities are consistent together and have the same closure, whatever their order |
| HostMemory.ResolveEitherWay | host/memory.py:129-158 | Resolving permuted lists over equal memories succeeds or raises together, with equal cells and the same equalities left open |
| HostMemory.ClosureUnique | host/memory.py:129-158 | A consistent list of equalities has one closure |
| HostMemory.FixpointIsClosure | host/memory.py:155-157 | A fixpoint that only added implied values is the closure |
| HostMemory.Memory.ApplyWrite | host/memory.py:114-121 | The write-once rule, and nothing changes when it refuses |
| Oracle.Machine.Execute | sim/scalar_step_oracle.py:75-119 | One instruction is `Step` of the old state |
| Oracle.Machine.Fill | sim/scalar_step_oracle.py:84-98 | The oracle's back-solve |
| Oracle.Machine.Run | sim/scalar_step_oracle.py:143-154 | Returns exactly how the run ends: an unusable program length, the sentinel with frame pointer zero or not, the step limit, a program counter outside the program, or the fault of the instruction reached; with the steps completed and the state reached |
| Oracle.HaltsOnce | sim/scalar_step_oracle.py:143-154 | A program halts in one way only: after as many steps, in the same state |
| Oracle.RunHalts | sim/scalar_step_oracle.py:143-154 | A run given enough steps ends normally wherever the program halts |
| Oracle.ReachedBefore | sim/scalar_step_oracle.py:143-154 | Every state on the way to the sentinel comes before it and can go on |
| Oracle.CyclesAdvance | sim/scalar_step_oracle.py:75-119 | Every completed instruction is one cycle and never unwrites a cell |
| Oracle.Machine.WriteOnce | sim/scalar_step_oracle.py:65-70 | The oracle's write-once rule |
| StreamAlu.BitstreamMultiplier.Tick | sim/cycle_model.py:63-90 | One edge of the multiplier registers |
| StreamAlu.StreamALU.Combinational | sim/cycle_model.py:107-183 | The pins and controls of the present state |
| StreamAlu.StreamALU.Step | sim/cycle_model.py:185-288 | One edge of the state machine and its multiplier |
| StreamAlu.ProtocolLane.Step | sim/protocol_contract.py:41-73 | Reset and abort win over a same-edge transfer; a reset edge replaces the core |
| StreamRuns.CompletedCommandsRefine | sim/model.py:95-136 | After any inputs, stalls, aborts and resets, every completed command sent exactly the transaction model's bytes, with its beat counts and multiplier steps, in its exact latency plus the stalled edges |
| StreamRuns.DoneEndsCommand | sim/cycle_model.py:153-183 | A committed done pulse is the completion of exactly one command and the return to IDLE, and IDLE means no command is in flight |
| StreamRuns.CommandsAreTimely | sim/cycle_model.py:185-288 | A command in flight has not used more than its latency in unstalled edges, and the multiplier never takes more than 128 bit beats; `CommandCompletes` concludes that it completes |
| StreamRuns.EveryCommandCompletes | sim/cycle_model.py:185-288 | A command byte offered to an idle core completes, with exactly the transaction model's result, once its latency has passed in edges that offer a byte and take one, whatever stalls in between |
| StreamRuns.CommandCompletes | sim/cycle_model.py:185-288 | The same from any point of a command in flight |
| StreamRuns.OpenEdgeMoves | sim/cycle_model.py:107-183 | An edge that offers a byte and takes one is never a stall |
| StreamRuns.HistoryForgotten | sim/protocol_contract.py:27-36 | The same from any idle core, whatever an earlier command left in its registers |
| StreamRuns.WatchKeepsSound | sim/cycle_model.py:185-288 | One edge keeps the registers determined by the bytes committed so far |
| StreamRuns.MulBit | sim/cycle_model.py:255-264 | A bit beat consumes the next bit and moves the sentinel; the last bit of a byte moves on |
| StreamRuns.SentinelShifts | sim/cycle_model.py:103-105 | The sentinel falls out at exactly the eighth bit |
| StreamRuns.BitBeat | sim/cycle_model.py:84-88 | A beat adds the shifted multiplicand and doubles it: Horner's rule from the low end |
| StreamRuns.ShiftInAppends | sim/cycle_model.py:78-83 | Shifting a byte into the top appends it to the operand received so far |
| Blake3Service.RequiredCodecExact | host/blake3_service.py:93-121 | The decoder accepts exactly the encodings of valid requests |
| Blake3Service.ResponseCodecExact | host/blake3_service.py:154-181 | The decoder accepts exactly the encodings of valid responses |
| Blake3Service.BridgeExact | host/blake3_service.py:123-139 | The v1 bridge accepts exactly the v1 payloads of valid requests, under the given epoch |
| Blake3Service.PublishedCrosses | sim/lsc1_transaction.py:542-547 | Every service request the endpoint can publish crosses the bridge with the operands it published |
| Blake3Service.NoServiceReplayed | host/blake3_service.py:230-312 | Over any history and any number of sessions no key becomes outstanding twice, and a digest is sent on only for the key that is outstanding |
| Blake3Service.RecordKeepsSafe | host/blake3_service.py:245-312 | Every event keeps the replay guard's invariant |
| Blake3Service.AnswersItsSuspension | sim/lsc1_transaction.py:1252-1269 | A digest for the published request resumes exactly the suspended transaction |
| Blake3Service.PublishedBecomesOutstanding | host/blake3_service.py:245-257 | What the endpoint publishes becomes the outstanding request unless its key was completed |
| Blake3Service.EmittedCarriesDigest | host/blake3_service.py:274-288 | The digest bytes arrive in the endpoint's frame unchanged |
| Blake3Service.ModelServiceAdapter.constructor | host/blake3_service.py:233-243 | A session of its own epoch with nothing outstanding |
| Blake3Service.ModelServiceAdapter.AcceptRequired | host/blake3_service.py:245-257 | A first delivery, or an identical retry of the outstanding request; anything else is refused without effect |
| Blake3Service.ModelServiceAdapter.Compute | host/blake3_service.py:259-272 | The first attempt the infrastructure carries out decides, within the retry bound, and a computed response is bound to the outstanding key |
| Blake3Service.ModelServiceAdapter.ToV1 | host/blake3_service.py:274-288 | Only an OK response bound to the outstanding key is turned into a frame |
| Blake3Service.ModelServiceAdapter.Complete | host/blake3_service.py:290-295 | Only the outstanding key can be completed |
| Blake3Service.ModelServiceAdapter.Abort | host/blake3_service.py:297-301 | An aborted service counts as completed |
| Blake3Service.ModelServiceAdapter.Reset | host/blake3_service.py:303-312 | Only an epoch never used before starts a new session |
| Worklist.LeastExists | formal/validate_blake3_pending_contract.py:504-533 | With at most one driver per net and undriven inputs the cell equations have a least solution |
| Worklist.LeastUnique | formal/validate_blake3_pending_contract.py:504-533 | Two least solutions of the cell equations are the same, so what an evaluation reports is determined |
| Worklist.Evaluate | formal/validate_blake3_pending_contract.py:504-533 | Terminates with the outcome under the least solution of the cell equations: the output bits, KeyError exactly when an output is not determined by it, IndexError exactly when some cell asks an empty port for a bit under it; `CellGraphs` says what the cells compute |
| Worklist.EvaluateEitherWay | formal/validate_blake3_pending_contract.py:504-533 | Two evaluations of the same cells in any two orders agree, on values and on either failure |
| Worklist.OrderIrrelevant | formal/validate_blake3_pending_contract.py:504-533 | The least solution does not depend on the order or multiplicity of the cells |
| Worklist.EvalMonotone | formal/validate_blake3_pending_contract.py:515-525 | Knowing more nets never changes what a cell computed, lazily selected multiplexers included |
| Worklist.Sweep | formal/validate_blake3_pending_contract.py:507-532 | One pass keeps the sweep's invariant; without progress every remaining cell still lacks inputs; an IndexError ends it |
| Worklist.Visit | formal/validate_blake3_pending_contract.py:508-531 | One cell is dropped, stored, left waiting, or raises |
| Worklist.TwoDriversDisagree | formal/validate_blake3_pending_contract.py:529-530 | With two drivers of one net there may be no solution at all |
| PacketExecutor.DriveAlike | sim/packet_executor_model.py:302-334 | From power-on, over any in-scope inputs: at every edge the executor's record is the endpoint's with the one byte the echo determines, and its state is a function of the endpoint's and the echo |
| PacketExecutor.PacketExecutor.Step | sim/packet_executor_model.py:302-334 | One edge keeps the executor's state determined by the endpoint's and the echo, and shows the record they determine |
| PacketExecutor.PacketExecutor.AcceptByte | sim/packet_executor_model.py:350-372 | Framing: only a completed frame whose payload does not decode leaves an echo |
| PacketExecutor.PacketExecutor.DispatchFrame | sim/packet_executor_model.py:374-389 | The frame checks answer exactly as the endpoint does, for opcodes in the subset or unknown to both |
| PacketExecutor.PacketExecutor.DispatchPayload | sim/packet_executor_model.py:390-406 | Every payload fault is answered under the first four bytes of the payload, whatever the endpoint echoes; anything that decodes is answered as the endpoint does |
| PacketExecutor.PacketExecutor.Instruct | sim/packet_executor_model.py:408-489 | Guards, execution and staging mirror the endpoint's handler |
| PacketExecutor.PacketExecutor.Retire | sim/packet_executor_model.py:502-520 | Retirement mirrors the endpoint's handler |
| PacketExecutor.AnswersDiffer | sim/packet_executor_model.py:405-406 | The two answer a frame differently if and only if it passes every other check, its payload does not decode, and does not begin with four zero bytes |
| PacketExecutor.EchoIsPrefix | sim/packet_executor_model.py:374-431 | Only BAD_PROFILE, BAD_FLAGS and BAD_CELL of an instruction can be answered differently, and the id echoed is the payload's first word |
| PacketExecutor.ResponsesDiffer | sim/packet_executor_model.py:336-348 | Two such answers share header and detail byte and differ in both the transaction id and the CRC, exactly when the prefix is not zero |
| PacketExecutor.RecordsDiffer | sim/packet_executor_model.py:302-334 | The records of an edge differ exactly when a byte is on the lane in which the two answers differ |
| PacketExecutor.EchoComesFromFrame | sim/packet_executor_model.py:374-406 | Every echo comes from the last completed frame, whose payload did not decode |
| PacketExecutor.DifferingFrame | sim/packet_executor_model.py:405-406 | A concrete frame, SET_CONSTANT under id 1 with profile code 7, that the two answer differently |
| PacketExecutor.FaultsApart | sim/packet_executor_model.py:405-406 | A payload that does not decode leaves the two apart by exactly its prefix |
| PacketExecutor.FaultsAlike | sim/packet_executor_model.py:347-348 | A fault answered under the endpoint's id leaves the two alike |
| PacketCodec.DecodeInstruction | sim/packet_executor_model.py:408-431 | The executor's own reader accepts the same instruction payloads, with the same first fault |
| PacketCodec.DecodeRetire | sim/packet_executor_model.py:397-401 | The executor reads a retirement like the endpoint |
| PacketCodec.PacketReader.ReadCell | sim/packet_executor_model.py:225-230 | Presence and canonicality of one cell |
| PacketExecution.ExecuteRelation | sim/packet_executor_model.py:450-482 | XOR and MUL over the executor's frame memory decide the same writes as the endpoint |
| PacketExecution.SolveOperand | sim/packet_executor_model.py:456-476 | The executor's back-solve equals the endpoint's, faults and details included |
| PacketExecution.ExecuteRequest | sim/packet_executor_model.py:443-483 | The executed writes and accesses are the endpoint's decision |
| PacketExecution.BuildResult | sim/packet_executor_model.py:491-500 | The executor's result payload is the endpoint's |
| CrcDivision.CrcIsRemainder | sim/lsc1_transaction.py:215-228 | For every message the complemented CRC, its bits reversed, is the remainder of the bit-reversed message, its first 32 bits inverted, times x^32 modulo x^32 + 0x04C11DB7 |
| CrcDivision.CheckValue | sim/lsc1_transaction.py:215-228 | The CRC of the ASCII digits 1 to 9 is 0xCBF43926 |
| CrcDivision.FoldDivides | sim/lsc1_transaction.py:221-227 | From any start, the register with its bits reversed is the remainder of what has gone into it |
| CrcDivision.ShiftIsXtime | sim/lsc1_transaction.py:224-226 | One bit step is one multiplication by x of the reversed register |
| KnownFrames.StatusQueryFrame | sim/lsc1_transaction.py:316-333 | The ten bytes of the status query frame |
| KnownFrames.BadCrcFrame | sim/lsc1_transaction.py:336-350 | The fourteen bytes of the answer to a frame with a wrong CRC |
| Division.RemainderIs | sim/model.py:50-65 | Every polynomial has exactly one remainder, for every width and modulus |
| Division.ProductIsRemainder | sim/model.py:50-65 | The product is the remainder of the carry-less product, and nothing else is, for every width and modulus |
| Division.FieldProduct | sim/lsc1_transaction.py:178-192 | The endpoint's product differs from the carry-less product by a multiple of x^128 + x^7 + x^2 + x + 1 |
| Division.GeneratorPowers | sim/lsc1_transaction.py:195-204 | The encoding of an index is the remainder of that power of x |
| Inverses.InverseHolds | host/memory.py:18-34 | Every element but zero times its power 2^128 - 2 is one: the inverse of the host and of the oracle is an inverse |
| Inverses.NoZeroDivisors | sim/lsc1_transaction.py:184-192 | A product vanishes only where a factor does |
| PointerOrder.PointerRoundTrip | host/memory.py:60-74 | Every index of the window is what its pointer reverses to, and the only index the endpoint accepts for it |
| PointerOrder.PointersDiffer | host/memory.py:49-58 | Two indices of the window never have the same pointer |
| PointerOrder.NoShortPeriod | host/memory.py:49-58 | No power of the generator below 2^16 but the zeroth is one |
| FaultAgreement.StepFault | sim/scalar_step_oracle.py:75-119 | A step that does not retire ends as the oracle's instruction determines: refused for a pointer exactly if the oracle cannot reverse one and else for an overflowing address; faulted for the window, for FORWARD_ONLY operands, or with the status that names the oracle's own fault, in that order |
| FaultAgreement.PreparedFaults | sim/lsc1_transaction.py:671-815 | Inside the window the endpoint refuses a supported prepared instruction only with the oracle's own fault, and any other with the one status for it |
| FaultAgreement.RefusalFault | host/runtime.py:357-443 | The host refuses with BAD_POINTER exactly where the oracle cannot reverse a pointer, and otherwise with U32_OVERFLOW |
| Reconciliation.DerefCellDecides | sim/lsc1_transaction.py:742-763 | A prepared DEREF_CELL is accepted if and only if the next program counter fits and the two cells do not disagree, under FORWARD_ONLY with the local cell known; with the exact write, deferred equality and accesses in each of the four presence cases, and the exact status otherwise |
| Reconciliation.DerefCellStep | host/runtime.py:550-731 | A whole DEREF_CELL step retires exactly when the indices are in the window and the cells can be reconciled; the commit copies the known cell to the absent one or defers the equality, and any other step ends with the status that says why |
| Delegation.MetadataDecides | sim/lsc1_transaction.py:831-834 | Endpoint and host accept a metadata word if and only if the service request cut from it is valid: at most 64 bytes of block, flags within seven bits |
| Delegation.BlockLengths | host/runtime.py:441-446 | A word with nothing but a block length is accepted exactly up to a full block of 64 |
| Delegation.PreparesWhen | host/runtime.py:441-461 | The host prepares a BLAKE3 operation exactly if its metadata and its eight addresses fit, and refuses it otherwise with BAD_SERVICE or U32_OVERFLOW |
| Delegation.PublishesWhen | sim/lsc1_transaction.py:1204-1244 | In step the endpoint publishes a prepared request exactly if program counter, frame pointer and next program counter are in the window and a service id is left |
| Delegation.AsksWhen | host/runtime.py:550-616 | A whole step asks for the service exactly under these conditions, and ends otherwise as the first that fails says |
| HostMemory.CountsAdd | host/memory.py:123-124 | Counting a list adds to every address the times it occurs there, and adds those addresses to the keys |
| AccessCounts.CommitCounts | host/runtime.py:699-713 | A commit adds to every address the times the result lists it, against an arbitrary endpoint |
| AccessCounts.AcceptedAccesses | sim/lsc1_transaction.py:671-815 | The accesses of every accepted scalar instruction are its operand addresses in order, a taken JUMP included |
| AccessCounts.RunCounts | host/runtime.py:733-764 | Over a whole session run every counter grows by the number of times the retired operations touched its address |
| CellGraphs.AndGate | formal/validate_blake3_pending_contract.py:520-521 | In every graph an And cell puts the conjunction of its first bits on its output, as soon as both are known |
| CellGraphs.OrGate | formal/validate_blake3_pending_contract.py:522-523 | The same for Or and the disjunction |
| CellGraphs.NotGate | formal/validate_blake3_pending_contract.py:518-519 | The same for Not and the negation |
| CellGraphs.MuxGate | formal/validate_blake3_pending_contract.py:515-517 | A multiplexer puts B on Y if S is true and A if it is false, bit by bit, exactly when S and the side it selects are known; the other side may be unknown |
| CellGraphs.OneBitGates | formal/validate_blake3_pending_contract.py:518-531 | The further bits of a one-bit gate's output are never known |
| CellGraphs.LeastIsFounded | formal/validate_blake3_pending_contract.py:504-533 | Every known net is an input or was assigned by a cell |
| CellGraphs.DrivenWhen | formal/validate_blake3_pending_contract.py:529-530 | With one driver a net of a gate is known exactly if the gate was evaluated that far, and has the value it computed |
| CellGraphs.ComputeDecides | formal/validate_blake3_pending_contract.py:496-523 | What a cell computes is what reading its ports in order comes to: the bits, a KeyError or an IndexError |
| CellGraphs.OutcomeReads | formal/validate_blake3_pending_contract.py:504-533 | The outcome under the least solution in terms of what can be read: IndexError exactly if evaluating a cell with an output is one, KeyError only for an output that cannot be read, else the bits read |
| CellGraphs.EvaluateAnd | formal/validate_blake3_pending_contract.py:504-533 | The evaluation of a graph of one And cell returns the conjunction of its inputs |
| CellGraphs.EvaluateOr | formal/validate_blake3_pending_contract.py:504-533 | The same for Or |
| CellGraphs.EvaluateNot | formal/validate_blake3_pending_contract.py:504-533 | The same for Not |
| CellGraphs.EvaluateMux | formal/validate_blake3_pending_contract.py:504-533 | The same for a multiplexer whose other side is unknown |
| Confinement.StepConfined | host/runtime.py:520-527 | Whatever the operation and the replies, a retired step fills only frame cells or cells tied to them by deferred equalities, defers only between frame cells, and counts only frame cells |
| Confinement.CommitConfined | host/runtime.py:499-546 | The same for the commit of any result that stays within its frame |
| Confinement.FaultIsOwn | host/runtime.py:141-190 | A step is faulted only by a fault of its own transaction, of a class that can end it |
| Confinement.ForeignReplyRaises | host/runtime.py:141-190 | A first reply that is neither the result nor a fault of this transaction, one under another id for instance, raises a protocol violation |
| StreamRuns.CompletedCommandsSend | sim/model.py:95-136 | After any inputs, the bytes of every completed command: exclusive-or byte by byte, the product in the field, the operand itself, whether it is nonzero, nothing, the status bytes 01 01 0F 08, or E0 for anything that is no command |
| StreamRuns.PinsTell | sim/cycle_model.py:107-183 | Over any inputs busy means a command in flight, and the fault pin the sticky fault or an unknown command in flight |
| StreamRuns.FaultMoves | sim/cycle_model.py:185-288 | The sticky fault starts clear, is set by an abort or an unknown command and cleared by CLEAR or a reset |
| EndpointLaws.NegotiationLaw | sim/lsc1_transaction.py:1174-1189 | Negotiation is refused with anything staged or a window without version 1, and otherwise changes the profile and nothing else |
| EndpointLaws.GuardLaw | sim/lsc1_transaction.py:1204-1213 | BAD_STATE, BAD_PROFILE, STATE_MISMATCH and INDEX_RANGE in this order, each exactly for its reason, with nothing but the status registers changed |
| EndpointLaws.NoFork | sim/lsc1_transaction.py:1204-1213 | A transaction is decided or suspended only for the state committed last and the negotiated profile: a host can neither rewind nor fork |
| EndpointLaws.ServiceLaw | sim/lsc1_transaction.py:1252-1263 | A digest is refused unless it names the outstanding transaction, its service and its kind; the detail says which |
| EndpointLaws.RetirementLaw | sim/lsc1_transaction.py:1271-1285 | A retirement that does not match discards the result, moves nothing committed, and says whether id or CRC was wrong |
| EndpointLaws.PinsLaw | sim/lsc1_transaction.py:1057-1065 | Ready exactly when nothing waits to leave, valid otherwise; busy from the first byte of a frame to the end of what it began; fault follows the last status |
| EndpointLaws.JumpLaw | sim/lsc1_transaction.py:780-815 | When a branch over shown cells is accepted, taken or not, with its decision, and the fault for a wrong branch bit or witness |
| EndpointLaws.DerefLaw | sim/lsc1_transaction.py:731-777 | When a dereference over shown cells is accepted in each mode, with its writes, deferred equalities and accesses |
| EdgeLaws.ResetLaw | sim/lsc1_transaction.py:1022-1037 | A reset edge restores the power-on state field by field, whatever else is driven |
| EdgeLaws.AbortLaw | sim/lsc1_transaction.py:1044-1053 | An abort edge drops what is staged and both buffers, says ABORTED in both status registers, counts, and keeps committed state, profile and service counter; no byte crosses |
| EdgeLaws.SendingLaw | sim/lsc1_transaction.py:1083-1092 | While a response waits nothing is accepted, and its first byte leaves exactly if it is taken |
| EdgeLaws.FramingLaw | sim/lsc1_transaction.py:1103-1122 | Outside a frame only 0xA1 is taken; a length above 256 drops the frame; each with its exact answer; any other byte is stored |
| EdgeLaws.FrameEnds | sim/lsc1_transaction.py:1121-1125 | A frame ends exactly where its own length says |
| EdgeLaws.DoneLaw | sim/lsc1_transaction.py:1083-1295 | The done pulse is one edge long and means exactly that a transaction has just been retired |
| EndpointLaws.AliasLaw | sim/lsc1_transaction.py:612-618 | Operands at one address with two cells are refused as inconsistent |
| EndpointLaws.WrongLength | sim/lsc1_transaction.py:976-984 | A payload of the wrong length is refused under its first four bytes as the id |
| HostLaws.WitnessWhen | host/runtime.py:479-497 | A product carries a witness exactly when the endpoint will solve it by a nonzero operand, and it is the inverse of that operand |
| HostLaws.BatchVerdict | host/runtime.py:502-511 | The verdict on a batch is about its first refused write: a contradiction inside the batch is a protocol violation, one with memory alone a write-once violation |
| HostLaws.ServedExactly | host/runtime.py:576-616 | A published service is answered only if its payload is, byte for byte, what the endpoint publishes for the request that was sent; the answer carries its service id and the digest of the first attempt carried out |
| HostLaws.OnlyIdenticalRetry | host/blake3_service.py:245-257 | While a service is outstanding the guard accepts its own payload again and nothing else |
| HostLaws.OnlySuccessEmitted | host/blake3_service.py:274-288 | Only a successful response to the outstanding service becomes a frame |
| FrameLaws.DeviantResponse | sim/lsc1_transaction.py:353-367 | A built response with a wrong start byte or version, cut short or followed by more, is refused with the status for it |
| FrameLaws.UnknownStatusByte | sim/lsc1_transaction.py:353-367 | A sealed response with a status byte that is none is refused as such |
| FrameLaws.InspectionOrder | sim/lsc1_transaction.py:1127-1146 | The endpoint checks the CRC, then the version, the flags and the opcode, and only then the payload |
| FrameLaws.FirstRefusedField | sim/lsc1_transaction.py:909-973 | A payload of the right length is refused for its first refused field in reading order |
| FrameLaws.CodesInOrder | sim/lsc1_transaction.py:59-132 | The code tables: faults from 0x80 in the documented order, instructions from 1, controls from 0x10 |
| Layouts.RequestFields | sim/lsc1_transaction.py:381-506 | Every request payload byte by byte |
| Layouts.StatusFields | sim/lsc1_transaction.py:1191-1202 | Every field of the 20 bytes of a status reply decodes to the state |
| Layouts.NegotiateFields | sim/lsc1_transaction.py:1174-1189 | Every field of the 14 bytes of a negotiation reply |
| Layouts.RetiredFields | sim/lsc1_transaction.py:1286-1295 | Every field of the 16 bytes of an acknowledgement |
| Layouts.FaultFields | sim/lsc1_transaction.py:1100-1101 | The id and the detail byte of a fault |
| Layouts.ResultFields | sim/lsc1_transaction.py:574-582 | The fixed fields and the three counts of a result payload, and where its lists begin |
| Layouts.ResultWrite | sim/lsc1_transaction.py:513-521 | Where write `i` of a result lies |
| Layouts.ResultDeferred | sim/lsc1_transaction.py:524-532 | Where deferred equality `i` lies |
| Layouts.ResultAccess | sim/lsc1_transaction.py:574-582 | Where access `i` lies |
| Layouts.ServiceFields | sim/lsc1_transaction.py:542-547 | Every field of the 122 bytes of SERVICE_REQUIRED |
| Layouts.RequiredFields | host/blake3_service.py:93-103 | Every field of the 131-byte service request |
| Layouts.ResponseFields | host/blake3_service.py:154-162 | Every field of the 53-byte service response |
| Programs.PowersOfTwo | sim/scalar_step_oracle.py:144-145 | The accepted program lengths are exactly the powers of two |

## Left out

- HostRuntime.Runtime.Step: scalar operations; `ServiceRuntime.Session` adds the service to the runtime and steps every operation, and so does its `StepAgainst` beside `HostRuntime.Runtime.StepAgainst`
- ServiceRuntime.Session.Run: a BLAKE3 operation is not interpreted by the oracle, so a run that contains one is described by `ServiceSteps.StepLaw`, not by an oracle run; the service is the list of what its attempts do at each step; the counters need the same room below 2^32 as for `HostRuntime.Runtime.Run`
- HostRuntime.Runtime.Run: needs both the transaction counter and the endpoint's retirement counter to stay below 2^32, where `u32le` would raise, with room for the driver's bytes; and gap patterns that leave each exchange inside the driver's cycle limit
- LaneEndpoint.Lsc1Endpoint.Tick: the retirement counter stays below 2^32 - 1, where the acknowledgement could no longer be encoded; `Endpoint.Step` itself counts without bound
- PacketExecutor.DriveAlike: at most 2^32 - 2 edges, for the same reason, and no frame of an opcode outside the executor's four that the endpoint knows
- Lane.Drive: the number of cycles it also returns; the bound on it is stated instead
- Oracle.Machine.Run: gives up after a given number of steps, since a program need not halt; the cells a faulting instruction already wrote are not described
- HostMemory.Memory.ResolveDeferred: which of the implied cells are already filled when it raises
- Transitions.Execute: `execute_cycles` and the cycle budget tables, which are constants
- Worklist.Evaluate: names of cells; each net has at most one driver and inputs have none, since with two drivers the outcome depends on the order of the cells
- Blake3Service.ModelServiceAdapter.Compute: the service is the list of what its attempts do, and a result that is not bytes counts as one of the wrong length
- StreamAlu.StreamALU.Step: data inputs are bytes; the source also accepts larger integers and masks them except when it reads a command
- Damage.DamagedStep: a burst of up to four bytes inside one payload; damage to a header or to the CRC bytes themselves is not described
- GuardRuns.RunRecovers: runs inside one session epoch; resetting the service adapter is `Blake3Service.ModelServiceAdapter.Reset`
- BLAKE3 compression itself: the digest is arbitrary
- A staged transaction is a value in the endpoint's field; that the source shares one mutable object with the handler that fills it is not modelled
- Step and run records, lane byte counts, final-state images, hashes and JSON
- Program artifacts are sequences of decoded operations whose length is a power of two; the loader is not modelled
- Serial and UART drivers, threads, deadlines, subprocesses, file publication
- Mutation runners, netlist and evidence checks, corpus generators, and the rest of the formal validator
