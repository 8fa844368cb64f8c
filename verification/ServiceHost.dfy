/** The BLAKE3 branch of a host step against an arbitrary endpoint: what the host decides after each
    of the three replies, and what becomes of the replay guard. A reply is anything the response
    decoder can return, as in `Host`. */
module ServiceHost {
  import opened Outcomes
  import opened Bits
  import opened Bytes
  import opened Ghash
  import opened Protocol
  import opened Wire
  import opened Requests
  import opened Frames
  import opened Results
  import opened Transitions
  import opened Host
  import Programs
  import Endpoint
  import Service = Blake3Service

  // ----- preparing -----

  function AddressAll(base: u32, offsets: seq<nat>): (r: Result<seq<u32>, Refusal>)
    ensures r.Ok? ==> |r.value| == |offsets| && forall i :: 0 <= i < |offsets| ==> r.value[i] == base + offsets[i]
    ensures r.Err? ==> r == Refuse(U32_OVERFLOW)
  {
    if offsets == [] then Ok([]) else
    var head :- Address(base, offsets[0]);
    var rest :- AddressAll(base, offsets[1..]);
    Ok([head] + rest)
  }

  /** Four message words, two chaining words, two output words. */
  function ServiceOffsets(op: Programs.Operation): (r: seq<nat>)
    requires op.Blake3? && op.Valid()
    ensures |r| == 8
  {
    op.ins + [op.cv, op.cv + 1, op.out, op.out + 1]
  }

  /** `_prepare` of a BLAKE3 operation. */
  function PrepareBlake3(h: State, profile: Profile, op: Programs.Operation): (r: Result<Prepared, Refusal>)
    requires op.Blake3? && op.Valid() && h.txnId < U32_LIMIT
    ensures r.Ok? ==> r.value.request.Valid() && r.value.request.Blake3?
  {
    if !MetadataSupported(op.metadata) then Refuse(BAD_SERVICE) else
    var addresses :- AddressAll(h.fp, ServiceOffsets(op));
    Ok(Prepared(
      Request.Blake3(Preamble(h.txnId, h.pc, h.fp, profile), op.ins, op.cv, op.out, op.metadata, CellsAt(h.cells, addresses)),
      addresses))
  }

  // ----- serving -----

  /** What the attempts at the service come to: the first one that is carried out. */
  function Answering(request: Service.ServiceRequired, attempts: seq<Service.Attempt>): (r: Service.ComputeResult)
    ensures r.Computed? ==> r.response.key == request.key && r.response.status.SERVICE_OK? && |r.response.digest| == 32
  {
    if attempts == [] then Service.InfrastructureError
    else if attempts[0].Returned? then Service.Verdict(request, attempts[0])
    else Answering(request, attempts[1..])
  }

  lemma {:induction false} AnsweringSettles(request: Service.ServiceRequired, attempts: seq<Service.Attempt>, i: nat)
    requires Service.Settles(attempts, i)
    ensures Answering(request, attempts) == Service.Verdict(request, attempts[i])
  {
    if i > 0 {
      assert Service.Settles(attempts[1..], i - 1);
      AnsweringSettles(request, attempts[1..], i - 1);
    }
  }

  lemma {:induction false} AnsweringFails(request: Service.ServiceRequired, attempts: seq<Service.Attempt>)
    requires forall i :: 0 <= i < |attempts| ==> attempts[i].Unavailable?
    ensures Answering(request, attempts) == Service.InfrastructureError
  {
    if attempts != [] {
      AnsweringFails(request, attempts[1..]);
    }
  }

  function Values(cells: seq<Cell>): seq<F128> {
    seq(|cells|, i requires 0 <= i < |cells| => cells[i].value)
  }

  /** The published operands are the ones the request carried. */
  predicate OperandsMatch(q: Service.ServiceRequired, r: Request)
    requires r.Blake3? && r.Valid()
  {
    && q.message == Endpoint.F128Words(Values(r.cells[..4]))
    && q.chaining == Endpoint.F128Words(Values(r.cells[4..6]))
    && q.counter == Low(r.metadata, 64)
    && q.blockLen == Low(Shr(r.metadata, 64), 32)
    && q.flags == Shr(r.metadata, 96)
  }

  /** From `SERVICE_REQUIRED` to the frame that answers it; `None` is any exception on the way. */
  function Serve(a: Service.Adapter, txnId: u32, r: Request, payload: seq<byte>, attempts: seq<Service.Attempt>)
    : (s: (Service.Adapter, Option<Request>))
    requires r.Blake3? && r.Valid()
    ensures s.1.Some? ==> s.0.outstanding.Some? && s.1.value.ServiceResponse?
  {
    var (a1, required) := Service.Accepted(a, payload);
    match required
    case None => (a1, None)
    case Some(q) =>
      if q.key.txnId != txnId || !OperandsMatch(q, r) then (a1, None)
      else match Answering(q, attempts)
        case Computed(response) => (a1, if q.Valid() then Service.Emitted(a1, response) else None)
        case _ => (a1, None)
  }

  // ----- judging the replies -----

  /** The end of a step: its outcome, the replay guard, and whether the endpoint was told to abort. */
  datatype Ending = Ending(outcome: StepOutcome, adapter: Service.Adapter, aborted: bool)

  /** Endpoint and guard are both told to abort, and the exception propagates. */
  function Abandoned(a: Service.Adapter, failure: Failure): Ending {
    Ending(Raised(failure), Service.AbortedAdapter(a), true)
  }

  /** What the reply to the request is worth: a frame that answers the service, or the end. */
  function JudgeRequested(h: State, a: Service.Adapter, p: Prepared, reply: Reply, attempts: seq<Service.Attempt>)
    : (j: Result<(Service.Adapter, Request), Ending>)
    requires p.request.Blake3? && p.request.Valid() && h.txnId < U32_LIMIT
    ensures j.Ok? ==> j.value.0.outstanding.Some? && j.value.1.ServiceResponse? && j.value.1.Valid()
  {
    match reply
    case Err(e) => Err(Abandoned(a, Undecodable(e)))
    case Ok(r) =>
      if r.status == SERVICE_REQUIRED then
        var (a1, frame) := Serve(a, h.txnId, p.request, r.payload, attempts);
        match frame
        case None => Err(Abandoned(a1, ServiceFailed))
        case Some(f) => Ok((a1, f))
      else if !r.status.IsFault() then Err(Abandoned(a, ProtocolViolation))
      else Err(Ending(FaultOutcome(r, h.txnId, false), a, false))
  }

  /** What the reply to the digest is worth: a transition to retire, or the end. A write conflict has
      already discarded the transaction, so the endpoint is not told to abort it. */
  ghost function JudgeServed(h: State, a: Service.Adapter, addresses: seq<u32>, reply: Reply): (j: Result<Transition, Ending>)
    ensures j.Ok? ==> reply.Ok? && reply.value.status == OK && Prevalidate(h, addresses, reply.value.payload) == Ok(j.value)
  {
    match reply
    case Err(e) => Err(Abandoned(a, Undecodable(e)))
    case Ok(r) =>
      if r.status != OK then
        Err(Ending(FaultOutcome(r, h.txnId, false), Service.AbortedAdapter(a), r.status != WRITE_CONFLICT))
      else match Prevalidate(h, addresses, r.payload)
        case Err(failure) => Err(Abandoned(a, failure))
        case Ok(t) => Ok(t)
  }

  /** The guard after the last reply: the key is used up if the step retires or the endpoint says it
      discarded the transaction, and stays outstanding if the reply made no sense. */
  function Concluded(a: Service.Adapter, outcome: StepOutcome): Service.Adapter {
    if outcome.Retired? then match a.outstanding case Some(q) => Service.Completed(a, q.key) case None => a
    else if outcome == Faulted(RETIRE_MISMATCH) then Service.AbortedAdapter(a)
    else a
  }

  /** What the reply to RETIRE is worth. */
  function JudgeRetirement(h: State, a: Service.Adapter, t: Transition, reply: Reply): Ending {
    match reply
    case Err(e) => Abandoned(a, Undecodable(e))
    case Ok(r) => var outcome := JudgeRetire(h, t, reply); Ending(outcome, Concluded(a, outcome), false)
  }

  // ----- a whole step -----

  /** The three replies of a BLAKE3 step. A scalar step has only the first and the last. */
  datatype Replies = Replies(first: Reply, second: Reply, retire: Reply)

  /** The exchanges of a BLAKE3 step whose request is prepared. A reply is consulted only if the
      ones before it are believed. */
  ghost predicate IsTransaction(h: State, a: Service.Adapter, p: Prepared, replies: Replies, attempts: seq<Service.Attempt>,
                                end: Ending, h': State)
    requires p.request.Blake3? && p.request.Valid() && h.txnId < U32_LIMIT
  {
    match JudgeRequested(h, a, p, replies.first, attempts)
    case Err(x) => end == x && h' == h
    case Ok((a1, _)) =>
      match JudgeServed(h, a1, p.addresses, replies.second)
      case Err(x) => end == x && h' == h
      case Ok(t) =>
        && end == JudgeRetirement(h, a1, t, replies.retire)
        && (if end.outcome.Retired? then IsCommit(h, t, h') else h' == h)
  }

  ghost predicate IsServiceStep(h: State, profile: Profile, a: Service.Adapter, op: Programs.Operation, replies: Replies,
                                attempts: seq<Service.Attempt>, end: Ending, h': State)
    requires op.Blake3? && op.Valid() && h.txnId + 1 < U32_LIMIT
  {
    var h1 := h.(txnId := h.txnId + 1);
    match PrepareBlake3(h1, profile, op)
    case Err(refusal) => end == Ending(Refused(refusal), a, false) && h' == h1
    case Ok(p) => IsTransaction(h1.(stepIndex := h1.stepIndex + 1), a, p, replies, attempts, end, h')
  }

  /** `step`, for every operation and arbitrary replies. */
  ghost predicate IsHostStep(h: State, profile: Profile, a: Service.Adapter, op: Programs.Operation, replies: Replies,
                             attempts: seq<Service.Attempt>, end: Ending, h': State)
    requires op.Valid() && h.txnId + 1 < U32_LIMIT
  {
    if op.Blake3? then IsServiceStep(h, profile, a, op, replies, attempts, end, h')
    else IsStep(h, profile, op, replies.first, replies.retire, end.outcome, h') && end.adapter == a && !end.aborted
  }

  /** All three replies vouch for the transition: the service was asked for and answered, the result
      can be committed, and the retirement acknowledges it. */
  ghost predicate Vouched(h: State, a: Service.Adapter, p: Prepared, replies: Replies, attempts: seq<Service.Attempt>, t: Transition)
    requires p.request.Blake3? && p.request.Valid() && h.txnId < U32_LIMIT
  {
    && replies.first.Ok? && replies.first.value.status == SERVICE_REQUIRED
    && Serve(a, h.txnId, p.request, replies.first.value.payload, attempts).1.Some?
    && replies.second.Ok? && replies.second.value.status == OK
    && Prevalidate(h, p.addresses, replies.second.value.payload) == Ok(t)
    && replies.retire.Ok? && Acknowledges(h, t, replies.retire.value)
  }

  /** All or nothing: a BLAKE3 transaction retires exactly when all three replies vouch for one
      transition, which it then commits; otherwise nothing has moved. */
  lemma TransactionAllOrNothing(h: State, a: Service.Adapter, p: Prepared, replies: Replies, attempts: seq<Service.Attempt>,
                                end: Ending, h': State)
    requires p.request.Blake3? && p.request.Valid() && h.txnId < U32_LIMIT
    requires IsTransaction(h, a, p, replies, attempts, end, h')
    ensures !end.outcome.Refused?
    ensures !end.outcome.Retired? ==> h' == h
    ensures end.outcome.Retired? <==> exists t :: Vouched(h, a, p, replies, attempts, t)
    ensures forall t :: Vouched(h, a, p, replies, attempts, t) ==> IsCommit(h, t, h')
  {
    hide Serve, Prevalidate, IsCommit, U32Of;
    if end.outcome.Retired? {
      var (a1, _) := JudgeRequested(h, a, p, replies.first, attempts).value;
      assert Vouched(h, a, p, replies, attempts, JudgeServed(h, a1, p.addresses, replies.second).value);
    }
  }

  // ----- the replay guard -----

  /** The last reply decodes but neither acknowledges the retirement nor is a credible mismatch. */
  predicate Senseless(h: State, t: Transition, retire: Reply) {
    retire.Ok? && !Acknowledges(h, t, retire.value) && !CredibleFault(retire.value, h.txnId, true)
  }

  /** The guard while the endpoint's second and third replies come in. */
  function Asked(h: State, a: Service.Adapter, p: Prepared, first: Reply, attempts: seq<Service.Attempt>): Service.Adapter
    requires p.request.Blake3? && p.request.Valid() && h.txnId < U32_LIMIT
  {
    if first.Ok? && first.value.status == SERVICE_REQUIRED then
      Serve(a, h.txnId, p.request, first.value.payload, attempts).0
    else a
  }

  /** Once a service is outstanding its key is used up by the end of the step, whatever the endpoint
      answers, except exactly when the result was believed and the last reply makes no sense: then
      the host raises without aborting either side, and the service stays outstanding. */
  lemma KeyUsedUp(h: State, a: Service.Adapter, p: Prepared, replies: Replies, attempts: seq<Service.Attempt>, end: Ending, h': State)
    requires p.request.Blake3? && p.request.Valid() && h.txnId < U32_LIMIT
    requires IsTransaction(h, a, p, replies, attempts, end, h')
    requires replies.first.Ok? && replies.first.value.status == SERVICE_REQUIRED
    requires Asked(h, a, p, replies.first, attempts).outstanding.Some?
    ensures var a1 := Asked(h, a, p, replies.first, attempts);
            var key := a1.outstanding.value.key;
            var left := && Serve(a, h.txnId, p.request, replies.first.value.payload, attempts).1.Some?
                        && JudgeServed(h, a1, p.addresses, replies.second).Ok?
                        && Senseless(h, JudgeServed(h, a1, p.addresses, replies.second).value, replies.retire);
            if left then end == Ending(Raised(ProtocolViolation), a1, false)
            else end.adapter == a1.(completed := a1.completed + {key}, outstanding := None)
  {
    hide Serve, Prevalidate, IsCommit, U32Of;
  }

  /** Every transaction that retires would have been left with its service outstanding by a last
      reply that makes no sense. */
  lemma SenselessLast(h: State, a: Service.Adapter, p: Prepared, replies: Replies, retire: Reply, attempts: seq<Service.Attempt>,
                      t: Transition, end: Ending, h': State)
    requires p.request.Blake3? && p.request.Valid() && h.txnId < U32_LIMIT
    requires Vouched(h, a, p, replies, attempts, t) && Senseless(h, t, retire)
    requires IsTransaction(h, a, p, replies.(retire := retire), attempts, end, h')
    ensures h' == h && end == Ending(Raised(ProtocolViolation), Asked(h, a, p, replies.first, attempts), false)
    ensures end.adapter.outstanding.Some?
  {
    hide Serve, Prevalidate, IsCommit, U32Of;
  }

  /** An acknowledgement without its 16 bytes makes no sense. */
  lemma ShortAcknowledgement(h: State, t: Transition)
    ensures Senseless(h, t, Ok(Response(RETIRED, [])))
  {
    hide U32Of;
  }

  // ----- what no endpoint can do -----

  lemma TransactionKeeps(h: State, a: Service.Adapter, p: Prepared, replies: Replies, attempts: seq<Service.Attempt>,
                         end: Ending, h': State)
    requires p.request.Blake3? && p.request.Valid() && h.txnId < U32_LIMIT
    requires IsTransaction(h, a, p, replies, attempts, end, h')
    ensures Keeps(h.cells, h'.cells) && KeepsEqualities(h, h') && h'.txnId == h.txnId && h'.stepIndex == h.stepIndex
  {
    hide Serve, Prevalidate, IsCommit, JudgeRetirement;
    if h' != h {
      var (a1, _) := JudgeRequested(h, a, p, replies.first, attempts).value;
      CommitKeeps(h, p.addresses, replies.second.value.payload, h');
      CommitKeepsEqualities(h, JudgeServed(h, a1, p.addresses, replies.second).value, h');
      CommitCounters(h, JudgeServed(h, a1, p.addresses, replies.second).value, h');
    }
  }

  /** All or nothing for every operation and every sequence of replies: unless the step retires
      nothing but counters has moved, and if it retires the endpoint was not told to abort. Known
      cells and deferred equalities are kept either way. */
  lemma StepAllOrNothing(h: State, profile: Profile, a: Service.Adapter, op: Programs.Operation, replies: Replies,
                         attempts: seq<Service.Attempt>, end: Ending, h': State)
    requires op.Valid() && h.txnId + 1 < U32_LIMIT
    requires IsHostStep(h, profile, a, op, replies, attempts, end, h')
    ensures if end.outcome.Retired? then !end.aborted else Untouched(h, h')
    ensures Keeps(h.cells, h'.cells) && KeepsEqualities(h, h')
  {
    hide PrepareBlake3, IsTransaction, Prepare, Keeps, KeepsEqualities, IsStep;
    if op.Blake3? {
      var h1 := h.(txnId := h.txnId + 1);
      SameEqualities(h, h1);
      if PrepareBlake3(h1, profile, op).Ok? {
        var p := PrepareBlake3(h1, profile, op).value;
        TransactionAllOrNothing(h1.(stepIndex := h1.stepIndex + 1), a, p, replies, attempts, end, h');
        RetiredNotAborted(h1.(stepIndex := h1.stepIndex + 1), a, p, replies, attempts, end, h');
        TransactionKeeps(h1.(stepIndex := h1.stepIndex + 1), a, p, replies, attempts, end, h');
        SameEqualities(h, h1.(stepIndex := h1.stepIndex + 1));
        KeptThrough(h, h1.(stepIndex := h1.stepIndex + 1), h');
      }
    } else {
      AllOrNothing(h, profile, op, replies.first, replies.retire, end.outcome, h');
      StepKeepsCells(h, profile, op, replies.first, replies.retire, end.outcome, h');
      StepKeepsEqualities(h, profile, op, replies.first, replies.retire, end.outcome, h');
    }
  }

  lemma RetiredNotAborted(h: State, a: Service.Adapter, p: Prepared, replies: Replies, attempts: seq<Service.Attempt>,
                          end: Ending, h': State)
    requires p.request.Blake3? && p.request.Valid() && h.txnId < U32_LIMIT
    requires IsTransaction(h, a, p, replies, attempts, end, h')
    ensures end.outcome.Retired? ==> !end.aborted
  {
    hide Serve, Prevalidate, IsCommit;
  }
}
