/** The BLAKE3 branch of a host step over the model endpoint, with the replay guard in between:
    request, service, digest and retirement. `ServiceStep` takes the decisions of `ServiceHost` on
    the endpoint's own replies; `StepLaw` says what that comes to. */
module ServiceSteps {
  import opened Outcomes
  import opened Bits
  import opened Bytes
  import opened Crc32
  import opened Ghash
  import opened Pointers
  import opened Protocol
  import opened Wire
  import opened Requests
  import opened Frames
  import opened Results
  import opened Transitions
  import opened HostMemory
  import opened Refinement
  import opened Lockstep
  import opened ScalarRuns
  import opened ServiceHost
  import Programs
  import Host
  import HostRuntime
  import Endpoint
  import Service = Blake3Service

  // ----- a step over the model endpoint -----

  /** The step ends with the endpoint in `e`, or in its aborted state if it was told to abort. */
  predicate Ends(end: Ending, e: Endpoint.State, outcome: Host.StepOutcome, e': Endpoint.State, a': Service.Adapter) {
    outcome == end.outcome && a' == end.adapter && e' == if end.aborted then Endpoint.Aborted(e) else e
  }

  ghost predicate ServiceStep(h: Host.State, profile: Profile, e: Endpoint.State, a: Service.Adapter, op: Programs.Operation,
                              attempts: seq<Service.Attempt>,
                              outcome: Host.StepOutcome, h': Host.State, e': Endpoint.State, a': Service.Adapter)
    requires op.Blake3? && op.Valid() && h.txnId + 1 < U32_LIMIT && e.Valid()
  {
    match PrepareBlake3(Counted(h), profile, op)
    case Err(refusal) => outcome == Host.Refused(refusal) && h' == Counted(h) && e' == e && a' == a
    case Ok(p) => RequestedTransaction(Indexed(h), e, a, p, attempts, outcome, h', e', a')
  }

  ghost predicate RequestedTransaction(h: Host.State, e: Endpoint.State, a: Service.Adapter, p: Host.Prepared,
                                       attempts: seq<Service.Attempt>,
                                       outcome: Host.StepOutcome, h': Host.State, e': Endpoint.State, a': Service.Adapter)
    requires e.Valid() && p.request.Valid() && p.request.Blake3? && h.txnId < U32_LIMIT
  {
    var answered := Endpoint.Answer(e, p.request);
    match JudgeRequested(h, a, p, ReplyOf(answered), attempts)
    case Err(end) => h' == h && Ends(end, Endpoint.Drained(answered), outcome, e', a')
    case Ok((a1, frame)) =>
      Endpoint.Drained(answered).Valid() && ServedTransaction(h, Endpoint.Drained(answered), a1, p.addresses, frame, outcome, h', e', a')
  }

  ghost predicate ServedTransaction(h: Host.State, e: Endpoint.State, a: Service.Adapter, addresses: seq<u32>, frame: Request,
                                    outcome: Host.StepOutcome, h': Host.State, e': Endpoint.State, a': Service.Adapter)
    requires e.Valid() && frame.ServiceResponse? && h.txnId < U32_LIMIT
  {
    var answered := Endpoint.Answer(e, frame);
    match JudgeServed(h, a, addresses, ReplyOf(answered))
    case Err(end) => h' == h && Ends(end, Endpoint.Drained(answered), outcome, e', a')
    case Ok(t) =>
      && Endpoint.Drained(answered).Valid()
      && RetiredTransaction(h, Endpoint.Drained(answered), a, t, RetireRequest(h, ReplyOf(answered)), outcome, h', e', a')
  }

  ghost predicate RetiredTransaction(h: Host.State, e: Endpoint.State, a: Service.Adapter, t: Transition, request: Request,
                                     outcome: Host.StepOutcome, h': Host.State, e': Endpoint.State, a': Service.Adapter)
    requires e.Valid() && request.Retire?
  {
    var answered := Endpoint.Answer(e, request);
    && Ends(JudgeRetirement(h, a, t, ReplyOf(answered)), Endpoint.Drained(answered), outcome, e', a')
    && (if outcome.Retired? then Host.IsCommit(h, t, h') else h' == h)
  }

  /** What the model endpoint replies to the request and to the digest, before any reply to RETIRE. */
  function ModelReplies(h: Host.State, e: Endpoint.State, a: Service.Adapter, p: Host.Prepared, attempts: seq<Service.Attempt>,
                        retire: Host.Reply): (replies: Replies)
    requires e.Valid() && e.rx == [] && p.request.Valid() && p.request.Blake3? && h.txnId < U32_LIMIT
    ensures replies.retire == retire && replies.first == ReplyOf(Endpoint.Answer(e, p.request))
  {
    Endpoint.AnswerKeepsValid(e, p.request);
    TxDrains(Endpoint.Answer(e, p.request));
    var asked := Endpoint.Answer(e, p.request);
    match JudgeRequested(h, a, p, ReplyOf(asked), attempts)
    case Err(_) => Replies(ReplyOf(asked), ReplyOf(asked), retire)
    case Ok((_, frame)) => Replies(ReplyOf(asked), ReplyOf(Endpoint.Answer(Endpoint.Drained(asked), frame)), retire)
  }

  /** A step over the model endpoint is a step against the replies it gives. */
  lemma RepliesOfTransaction(h: Host.State, e: Endpoint.State, a: Service.Adapter, p: Host.Prepared, attempts: seq<Service.Attempt>,
                             outcome: Host.StepOutcome, h': Host.State, e': Endpoint.State, a': Service.Adapter)
    returns (replies: Replies, end: Ending)
    requires e.Valid() && p.request.Valid() && p.request.Blake3? && h.txnId < U32_LIMIT
    requires RequestedTransaction(h, e, a, p, attempts, outcome, h', e', a')
    ensures IsTransaction(h, a, p, replies, attempts, end, h') && end.outcome == outcome && end.adapter == a'
    ensures e.rx == [] ==> replies == ModelReplies(h, e, a, p, attempts, replies.retire)
  {
    hide Endpoint.Answer, DecodeResponse, Endpoint.State.Valid, Request.Valid, JudgeRequested, JudgeServed, JudgeRetirement,
      Host.IsCommit;
    var first := Endpoint.Answer(e, p.request);
    match JudgeRequested(h, a, p, ReplyOf(first), attempts)
    case Err(x) =>
      replies, end := Replies(ReplyOf(first), ReplyOf(first), ReplyOf(first)), x;
    case Ok((a1, frame)) =>
      var second := Endpoint.Answer(Endpoint.Drained(first), frame);
      match JudgeServed(h, a1, p.addresses, ReplyOf(second))
      case Err(x) =>
        replies, end := Replies(ReplyOf(first), ReplyOf(second), ReplyOf(second)), x;
      case Ok(t) =>
        var retire := ReplyOf(Endpoint.Answer(Endpoint.Drained(second), RetireRequest(h, ReplyOf(second))));
        replies, end := Replies(ReplyOf(first), ReplyOf(second), retire), JudgeRetirement(h, a1, t, retire);
  }

  // ----- what it comes to -----

  /** The adapter once the key is used up: it will not be served again in this session. */
  function Spent(a: Service.Adapter, key: Service.ServiceKey): Service.Adapter {
    a.(completed := a.completed + {key}, outstanding := None)
  }

  /** Between steps: host and endpoint in step, no service outstanding, and every key used up so
      far has a service id the endpoint will not issue again. */
  ghost predicate InService(h: Host.State, profile: Profile, e: Endpoint.State, a: Service.Adapter) {
    && InStep(h, profile, e) && a.Valid() && a.outstanding == None
    && forall k :: k in a.completed ==> k.serviceId <= e.serviceSeq
  }

  /** The endpoint accepts the request and publishes it. */
  predicate Suspends(e: Endpoint.State, r: Request)
    requires r.Valid() && r.Blake3?
  {
    Endpoint.Guard(e, r.head) == None && e.serviceSeq < 0xFFFF_FFFE && DecideBlake3(r, e.serviceSeq + 1).Ok?
  }

  /** The digest disagrees with an output cell that already has a value. */
  predicate Collides(cells: Cells, x: u32, v: F128, y: u32, w: F128) {
    (x in cells && cells[x] != v) || (y in cells && cells[y] != w)
  }

  /** The digest words that are written: those whose cell is absent. */
  function OutputWrites(cells: Cells, x: u32, v: F128, y: u32, w: F128): seq<Write> {
    (if x in cells then [] else [Write(x, v)]) + (if y in cells then [] else [Write(y, w)])
  }

  /** What the digest words come to at the two output cells: they collide with one, they contradict
      the deferred equalities (both cells absent, joined by a chain of equalities, the words
      different), or the transaction retires and writes exactly the absent ones. */
  ghost predicate DigestLaw(h: Host.State, e: Endpoint.State, s: Suspension, v: F128, w: F128,
                            outcome: Host.StepOutcome, h': Host.State)
    requires s.Valid() && h.txnId < U32_LIMIT && e.retireSeq + 1 < U32_LIMIT
  {
    var x, y := s.decision.accesses[6], s.decision.accesses[7];
    if Collides(h.cells, x, v, y, w) then outcome == Host.Faulted(WRITE_CONFLICT) && h' == h
    else if Differ(h.cells, x, v, y, w) && Connected(h.deferred, x, y) then
      outcome == Host.Raised(Host.WriteOnceViolation) && h' == h
    else
      && outcome == Host.StepOutcome.Retired(e.retireSeq + 1)
      && Host.IsCommit(h, Endpoint.TransitionOf(h.txnId, s.decision.(writes := OutputWrites(h.cells, x, v, y, w))), h')
  }

  /** What becomes of a published service: it fails, or its digest decides. */
  ghost predicate SuspensionLaw(h: Host.State, e: Endpoint.State, a: Service.Adapter, s: Suspension, attempts: seq<Service.Attempt>,
                                outcome: Host.StepOutcome, h': Host.State)
    requires s.Valid() && h.txnId < U32_LIMIT && e.retireSeq + 1 < U32_LIMIT
  {
    match Answering(Service.Published(h.txnId, s.service, a.epoch), attempts)
    case Computed(response) => DigestLaw(h, e, s, F128Of(response.digest[..16]), F128Of(response.digest[16..]), outcome, h')
    case _ => outcome == Host.Raised(Host.ServiceFailed) && h' == h
  }

  /** The outcome of the exchanges of a BLAKE3 step between a host and an endpoint in service. */
  ghost predicate TransactionLaw(h: Host.State, profile: Profile, e: Endpoint.State, a: Service.Adapter, p: Host.Prepared,
                                 attempts: seq<Service.Attempt>,
                                 outcome: Host.StepOutcome, h': Host.State, e': Endpoint.State, a': Service.Adapter)
    requires p.request.Valid() && p.request.Blake3? && h.txnId < U32_LIMIT && e.retireSeq + 1 < U32_LIMIT
  {
    && InService(h', profile, e', a')
    && e'.retireSeq == (if outcome.Retired? then e.retireSeq + 1 else e.retireSeq)
    && (if Suspends(e, p.request) then
          var s := DecideBlake3(p.request, e.serviceSeq + 1).value;
          && e'.serviceSeq == e.serviceSeq + 1
          && a' == Spent(a, Service.Published(h.txnId, s.service, a.epoch).key)
          && SuspensionLaw(h, e, a, s, attempts, outcome, h')
        else
          && h' == h && a' == a && e'.serviceSeq == e.serviceSeq
          && outcome == if h.pc >= INDEX_LIMIT || h.fp >= INDEX_LIMIT || e.serviceSeq < 0xFFFF_FFFE then Host.Faulted(INDEX_RANGE)
                        else Host.Raised(Host.ProtocolViolation))
  }

  // ----- the first exchange -----

  /** The frame supplied from memory reads as memory, at every operand. */
  lemma {:induction false} SupplyListShows(f: FrameView, cells: Cells, addresses: seq<u32>)
    requires Shows(f, cells)
    ensures var r := SupplyList(f, addresses, Host.CellsAt(cells, addresses));
            && r.Ok? && Shows(r.value, cells) && r.value.writes == f.writes
            && forall i :: 0 <= i < |addresses| ==> addresses[i] in r.value.cells
    decreases |addresses|
  {
    if addresses != [] {
      SupplyShows(f, cells, addresses[0]);
      assert Host.CellsAt(cells, addresses)[1..] == Host.CellsAt(cells, addresses[1..]);
      SupplyListShows(f.Supply(addresses[0], CellOf(cells, addresses[0])).value, cells, addresses[1..]);
    }
  }

  lemma {:induction false} AddAllIsAddressAll(fp: u32, offsets: seq<u32>, addresses: seq<u32>)
    requires |addresses| == |offsets| && forall i :: 0 <= i < |offsets| ==> addresses[i] == fp + offsets[i]
    ensures AddAll(fp, offsets) == Ok(addresses)
  {
    if offsets != [] {
      AddAllIsAddressAll(fp, offsets[1..], addresses[1..]);
      assert fp + offsets[0] == addresses[0];
      assert addresses == [addresses[0]] + addresses[1..];
    }
  }

  lemma AddressesAgree(h: Host.State, profile: Profile, op: Programs.Operation)
    requires op.Blake3? && op.Valid() && h.txnId < U32_LIMIT && PrepareBlake3(h, profile, op).Ok?
    ensures var addresses := PrepareBlake3(h, profile, op).value.addresses;
            |addresses| == 8 && Blake3Addresses(h.fp, op.ins, op.cv, op.out) == Ok(addresses) && addresses[6] != addresses[7]
  {
    var offsets := ServiceOffsets(op);
    var addresses := AddressAll(h.fp, offsets).value;
    assert forall i :: 0 <= i < 4 ==> offsets[i] == op.ins[i];
    AddAllIsAddressAll(h.fp, op.ins, addresses[..4]);
    assert addresses[4] == h.fp + offsets[4] && addresses[5] == h.fp + offsets[5];
    assert addresses[6] == h.fp + offsets[6] && addresses[7] == h.fp + offsets[7];
    assert addresses == addresses[..4] + [addresses[4], addresses[5], addresses[6], addresses[7]];
  }

  /** Everything about a suspension that the host relies on. */
  ghost predicate Faithful(cells: Cells, addresses: seq<u32>, r: Request, s: Suspension) {
    && |addresses| == 8 && r.Blake3? && |r.cells| == 8
    && s.decision.accesses == addresses && addresses[6] != addresses[7] && s.decision.nextFp == r.head.fp
    && Shows(s.frame, cells)
    && s.service.message == Values(r.cells[..4]) && s.service.chaining == Values(r.cells[4..6])
    && s.service.metadata == r.metadata
  }

  /** The endpoint's decision on a prepared BLAKE3 request can only object to the last index. */
  lemma PreparedDecides(h: Host.State, profile: Profile, op: Programs.Operation, serviceId: u32)
    requires op.Blake3? && op.Valid() && h.txnId < U32_LIMIT && PrepareBlake3(h, profile, op).Ok?
    ensures var p := PrepareBlake3(h, profile, op).value;
            var d := DecideBlake3(p.request, serviceId);
            && (d.Err? ==> d == Reject(INDEX_RANGE) || h.pc + 1 > U32_MAX)
            && (d.Ok? <==> h.pc != INDEX_LIMIT - 1 && h.pc + 1 <= U32_MAX)
            && (d.Ok? ==> d.value.Valid() && Faithful(h.cells, p.addresses, p.request, d.value))
  {
    hide Blake3Addresses, SupplyList, MetadataSupported, AddressAll, ServiceOffsets;
    AddressesAgree(h, profile, op);
    var p := PrepareBlake3(h, profile, op).value;
    var cells := Host.CellsAt(h.cells, p.addresses);
    SupplyListShows(EMPTY_FRAME, h.cells, p.addresses);
    var f := SupplyList(EMPTY_FRAME, p.addresses, cells).value;
    ReadsAreValues(f, h.cells, p.addresses, cells);
    var d := DecideBlake3(p.request, serviceId);
    if d.Ok? {
      var s := d.value;
      assert s.service.message == Values(cells[..4]);
      assert s.service.chaining == Values(cells[4..6]);
    }
  }

  lemma ReadsAreValues(f: FrameView, host: Cells, addresses: seq<u32>, cells: seq<Cell>)
    requires Shows(f, host) && cells == Host.CellsAt(host, addresses)
    requires forall i :: 0 <= i < |addresses| ==> addresses[i] in f.cells
    ensures forall i :: 0 <= i < |addresses| ==> f.Read(addresses[i]) == cells[i].value
  {
  }

  /** The endpoint with a published service, once its request has left the lane. */
  function Waiting(e: Endpoint.State, txnId: u32, s: Suspension): Endpoint.State
    requires e.serviceSeq < U32_MAX
  {
    e.(serviceSeq := e.serviceSeq + 1, staged := Some(Endpoint.Suspended(txnId, s)), phase := Endpoint.SERVICE_PENDING,
       lastStatus := SERVICE_REQUIRED, tx := [], done := false)
  }

  lemma PublishedReply(e: Endpoint.State, r: Request, s: Suspension)
    requires e.Valid() && e.tx == [] && r.Valid() && r.Blake3? && Suspends(e, r)
    requires DecideBlake3(r, e.serviceSeq + 1) == Ok(s)
    ensures s.Valid() && s.service.serviceId == e.serviceSeq + 1
    ensures ReplyOf(Endpoint.Answer(e, r)) == Ok(Response(SERVICE_REQUIRED, Endpoint.ServicePayload(r.head.txnId, s.service)))
    ensures Endpoint.Drained(Endpoint.Answer(e, r)) == Waiting(e, r.head.txnId, s)
  {
    hide DecideBlake3, EncodeResponse, DecodeResponse, Endpoint.ServicePayload, Endpoint.Guard, Endpoint.State.Valid;
    var response := Response(SERVICE_REQUIRED, Endpoint.ServicePayload(r.head.txnId, s.service));
    ResponseRoundTrip(response);
    assert [] + EncodeResponse(response) == EncodeResponse(response);
    assert Endpoint.Answer(e, r) == Endpoint.Suspend(e, r.head.txnId, s);
  }

  lemma WaitingValid(e: Endpoint.State, txnId: u32, s: Suspension)
    requires e.Valid() && e.rx == [] && s.Valid() && e.serviceSeq < U32_MAX && s.service.serviceId == e.serviceSeq + 1
    ensures Waiting(e, txnId, s).Valid()
  {
    hide Suspension.Valid;
  }

  /** A request that is not accepted is answered with its fault and changes nothing else. */
  lemma RefusedReply(e: Endpoint.State, r: Request, fault: Fault)
    requires e.Valid() && e.tx == [] && r.Valid() && r.Blake3? && fault.status.IsFault()
    requires Endpoint.HandleInstruction(e, r) == Endpoint.Handled(e, Some(fault))
    ensures ReplyOf(Endpoint.Answer(e, r)) == Ok(Endpoint.FaultResponse(fault.status, r.head.txnId, fault.detail))
    ensures U32Of(Endpoint.FaultResponse(fault.status, r.head.txnId, fault.detail).payload[..4]) == r.head.txnId
    ensures Endpoint.Drained(Endpoint.Answer(e, r)) == e.(lastStatus := fault.status, lastFault := fault.status, tx := [], done := false)
  {
    FaultReply(e, fault.status, r.head.txnId, fault.detail);
    hide Endpoint.HandleInstruction, EncodeResponse, DecodeResponse, U32Of;
  }

  /** The three ways in which a prepared request is not accepted. */
  lemma RefusedHow(h: Host.State, profile: Profile, e: Endpoint.State, op: Programs.Operation) returns (fault: Fault)
    requires op.Blake3? && op.Valid() && h.txnId < U32_LIMIT && PrepareBlake3(h, profile, op).Ok?
    requires InStep(h, profile, e)
    requires !Suspends(e, PrepareBlake3(h, profile, op).value.request)
    ensures Endpoint.HandleInstruction(e, PrepareBlake3(h, profile, op).value.request) == Endpoint.Handled(e, Some(fault))
    ensures fault.status == if h.pc >= INDEX_LIMIT || h.fp >= INDEX_LIMIT || e.serviceSeq < 0xFFFF_FFFE then INDEX_RANGE
                            else BAD_SERVICE
  {
    var r := PrepareBlake3(h, profile, op).value.request;
    GuardInStep(h, profile, e, r.head);
    if e.serviceSeq < 0xFFFF_FFFE {
      PreparedDecides(h, profile, op, e.serviceSeq + 1);
    }
    hide DecideBlake3, Endpoint.Guard, InStep, MetadataSupported, AddressAll, Host.CellsAt;
    fault := Endpoint.HandleInstruction(e, r).fault.value;
  }

  // ----- the service -----

  lemma PublishedIsFresh(h: Host.State, profile: Profile, e: Endpoint.State, a: Service.Adapter, txnId: u32, s: Suspension)
    requires InService(h, profile, e, a) && s.service.serviceId == e.serviceSeq + 1
    ensures Service.Published(txnId, s.service, a.epoch).key !in a.completed
  {
  }

  /** What the endpoint published is accepted, matches the request, and is answered or fails as the
      attempts decide. */
  lemma ServesPublished(h: Host.State, a: Service.Adapter, r: Request, addresses: seq<u32>, s: Suspension, attempts: seq<Service.Attempt>)
    requires a.Valid() && a.outstanding == None && h.txnId < U32_LIMIT
    requires r.Valid() && r.Blake3? && s.Valid() && Faithful(h.cells, addresses, r, s)
    requires Service.Published(h.txnId, s.service, a.epoch).key !in a.completed
    ensures var q := Service.Published(h.txnId, s.service, a.epoch);
            var a1 := a.(outstanding := Some(q));
            Serve(a, h.txnId, r, Endpoint.ServicePayload(h.txnId, s.service), attempts)
            == (a1, match Answering(q, attempts)
                    case Computed(response) => Some(Request.ServiceResponse(h.txnId, s.service.serviceId, BLAKE3_COMPRESS,
                                                                            F128Of(response.digest[..16]), F128Of(response.digest[16..])))
                    case _ => None)
  {
    Service.PublishedCrosses(h.txnId, s, a.epoch);
    PublishedValid(h.txnId, s, a.epoch);
    hide Service.FromV1, Endpoint.ServicePayload, Endpoint.F128Words, Low, Shr, F128Of, Answering, Suspension.Valid,
      Service.ServiceRequired.Valid, Shows;
  }

  lemma PublishedValid(txnId: u32, s: Suspension, epoch: nat)
    requires s.Valid() && 0 < epoch < Service.U64_LIMIT
    ensures Service.Published(txnId, s.service, epoch).Valid()
  {
    Service.PublishedCrosses(txnId, s, epoch);
    hide Endpoint.ServicePayload, Endpoint.F128Words, Low, Shr;
  }

  /** A digest that collides with an output cell. */
  lemma ResumeFails(s: Suspension, digest0: F128, digest1: F128)
    requires s.Valid()
    ensures Resume(s, digest0, digest1).Err? ==> Resume(s, digest0, digest1) == Reject(WRITE_CONFLICT)
  {
  }

  lemma ConflictReply(e: Endpoint.State, r: Request, s: Suspension)
    requires e.Valid() && e.tx == [] && r.ServiceResponse? && r.Valid() && r.kind == BLAKE3_COMPRESS
    requires e.staged == Some(Endpoint.Suspended(r.txnId, s)) && r.serviceId == s.service.serviceId
    requires Resume(s, r.digest0, r.digest1).Err?
    ensures ReplyOf(Endpoint.Answer(e, r)) == Ok(Endpoint.FaultResponse(WRITE_CONFLICT, r.txnId, 0))
    ensures U32Of(Endpoint.FaultResponse(WRITE_CONFLICT, r.txnId, 0).payload[..4]) == r.txnId
    ensures Endpoint.Drained(Endpoint.Answer(e, r))
         == Endpoint.Discarded(e).(lastStatus := WRITE_CONFLICT, lastFault := WRITE_CONFLICT, tx := [], done := false)
  {
    hide Resume, EncodeResponse, DecodeResponse, U32Of, Suspension.Valid, Endpoint.Answer, Endpoint.State.Valid;
    AnswerConflicts(e, r, s);
    FaultReply(Endpoint.Discarded(e), WRITE_CONFLICT, r.txnId, 0);
  }

  /** An endpoint that still holds a result or a service refuses the next request. */
  lemma BusyReply(e: Endpoint.State, r: Request)
    requires e.Valid() && e.tx == [] && e.phase != Endpoint.IDLE && r.Valid() && r.Blake3?
    ensures ReplyOf(Endpoint.Answer(e, r)) == Ok(Endpoint.FaultResponse(BAD_STATE, r.head.txnId, 0))
  {
    hide EncodeResponse, DecodeResponse, Endpoint.State.Valid, Request.Valid;
    RefusedReply(e, r, Fault(BAD_STATE, 0));
  }

  lemma AnswerConflicts(e: Endpoint.State, r: Request, s: Suspension)
    requires e.Valid() && r.ServiceResponse? && r.kind == BLAKE3_COMPRESS
    requires e.staged == Some(Endpoint.Suspended(r.txnId, s)) && r.serviceId == s.service.serviceId
    requires Resume(s, r.digest0, r.digest1).Err?
    ensures Endpoint.Answer(e, r) == Endpoint.EmitFault(Endpoint.Discarded(e), WRITE_CONFLICT, r.txnId, 0)
  {
    hide Resume, Endpoint.EmitFault, Suspension.Valid, Endpoint.HandleInstruction, Endpoint.HandleNegotiate,
      Endpoint.HandleStatusQuery, Endpoint.HandleRetire, Endpoint.State.ReceiveValid, Endpoint.ResultPayload, Crc;
    ResumeFails(s, r.digest0, r.digest1);
  }

  lemma ResumedReply(e: Endpoint.State, r: Request, s: Suspension, d: Decision)
    requires e.Valid() && e.rx == [] && e.tx == [] && r.ServiceResponse? && r.Valid() && r.kind == BLAKE3_COMPRESS
    requires e.staged == Some(Endpoint.Suspended(r.txnId, s)) && r.serviceId == s.service.serviceId
    requires Resume(s, r.digest0, r.digest1) == Ok(d)
    ensures d.Small()
    ensures ReplyOf(Endpoint.Answer(e, r)) == Ok(Response(OK, Endpoint.ResultPayload(r.txnId, d)))
    ensures Endpoint.Answer(e, r) == Endpoint.Finish(e, r.txnId, d) && Endpoint.Drained(Endpoint.Answer(e, r)).Valid()
  {
    FinishReply(e, r.txnId, d);
    Endpoint.AnswerKeepsValid(e, r);
    AnswerResumes(e, r, s, d);
    TxDrains(Endpoint.Answer(e, r));
    hide Resume, EncodeResponse, DecodeResponse, Endpoint.Finish, Suspension.Valid, Endpoint.State.Valid;
  }

  lemma AnswerResumes(e: Endpoint.State, r: Request, s: Suspension, d: Decision)
    requires e.Valid() && r.ServiceResponse? && r.kind == BLAKE3_COMPRESS
    requires e.staged == Some(Endpoint.Suspended(r.txnId, s)) && r.serviceId == s.service.serviceId
    requires Resume(s, r.digest0, r.digest1) == Ok(d)
    ensures Endpoint.Answer(e, r) == Endpoint.Finish(e, r.txnId, d)
  {
    hide Resume, Endpoint.Finish, Suspension.Valid;
  }

  // ----- believing the digest -----

  /** The endpoint's write-once rule is the host's: the digest is accepted exactly when it collides
      with no output cell, and the absent ones are written. */
  lemma ResumeDecides(cells: Cells, addresses: seq<u32>, r: Request, s: Suspension, v: F128, w: F128)
    requires s.Valid() && Faithful(cells, addresses, r, s)
    ensures var x, y := s.decision.accesses[6], s.decision.accesses[7];
            Resume(s, v, w) == if Collides(cells, x, v, y, w) then Reject(WRITE_CONFLICT)
                               else Ok(s.decision.(writes := OutputWrites(cells, x, v, y, w)))
  {
    var x, y := addresses[6], addresses[7];
    WriteShows(s.frame, cells, x, v);
    var f := s.frame.WriteOnce(x, v);
    if f.Ok? {
      WriteShows(f.value, cells[x := v], y, w);
      assert f.value.writes == if x in cells then [] else [Write(x, v)];
      var g := f.value.WriteOnce(y, w);
      assert g.Ok? <==> !(y in cells && cells[y] != w);
      if g.Ok? {
        assert g.value.writes == OutputWrites(cells, x, v, y, w);
      }
    }
  }

  lemma OutputsApply(cells: Cells, x: u32, v: F128, y: u32, w: F128)
    requires x != y && !Collides(cells, x, v, y, w)
    ensures var writes := OutputWrites(cells, x, v, y, w);
            && |writes| <= 2
            && Host.CheckWrites(cells, map[], writes) == None
            && ApplyWrites(cells, writes) == cells[x := v][y := w]
            && forall z :: z in writes ==> z.address == x || z.address == y
  {
    var none: Cells := map[];
    var writes := OutputWrites(cells, x, v, y, w);
    if x !in cells && y !in cells {
      assert writes == [Write(x, v), Write(y, w)];
      assert writes[1..] == [Write(y, w)] && writes[1..][1..] == [];
      assert Host.CheckWrites(cells, none[x := v][y := w], writes[1..][1..]) == None;
      assert Host.CheckWrites(cells, none[x := v], writes[1..]) == None;
      assert ApplyWrites(cells[x := v], writes[1..]) == cells[x := v][y := w];
    } else if writes != [] {
      assert writes[1..] == [];
      assert x in cells ==> cells[x := v] == cells;
    } else {
      assert cells[x := v] == cells && cells[y := w] == cells;
    }
  }

  /** An accepted digest passes prevalidation exactly when it contradicts no deferred equality. */
  lemma DigestPrevalidates(h: Host.State, addresses: seq<u32>, r: Request, s: Suspension, v: F128, w: F128)
    requires s.Valid() && Faithful(h.cells, addresses, r, s) && AllOpen(h.cells, h.deferred) && h.txnId < U32_LIMIT
    requires !Collides(h.cells, s.decision.accesses[6], v, s.decision.accesses[7], w)
    ensures var x, y := s.decision.accesses[6], s.decision.accesses[7];
            var d := s.decision.(writes := OutputWrites(h.cells, x, v, y, w));
            && d.Small()
            && Host.Prevalidate(h, addresses, Endpoint.ResultPayload(h.txnId, d))
               == if Differ(h.cells, x, v, y, w) && Connected(h.deferred, x, y) then Err(Host.WriteOnceViolation)
                  else Ok(Endpoint.TransitionOf(h.txnId, d))
  {
    var x, y := s.decision.accesses[6], s.decision.accesses[7];
    hide EncodeTransition, DecodeTransition, Consistent, Host.CheckWrites, Suspension.Valid, AllOpen, OutputWrites, Connected,
      ApplyWrites, Host.WithinFrame, Faithful, Collides, Differ;
    DigestWithin(h, addresses, r, s, v, w);
    OutputsApply(h.cells, x, v, y, w);
    SuspensionWrites(s);
    TwoWritesConsistent(h.cells, h.deferred, x, v, y, w);
    var t := Endpoint.TransitionOf(h.txnId, s.decision.(writes := OutputWrites(h.cells, x, v, y, w)));
    TransitionRoundTrip(t);
    assert h.deferred + t.deferred == h.deferred;
  }

  lemma DigestWithin(h: Host.State, addresses: seq<u32>, r: Request, s: Suspension, v: F128, w: F128)
    requires s.Valid() && Faithful(h.cells, addresses, r, s) && h.txnId < U32_LIMIT
    ensures var x, y := s.decision.accesses[6], s.decision.accesses[7];
            var d := s.decision.(writes := OutputWrites(h.cells, x, v, y, w));
            && x != y && d.Small()
            && Host.WithinFrame(addresses, Endpoint.TransitionOf(h.txnId, d))
  {
    hide Shows;
  }

  lemma SuspensionWrites(s: Suspension)
    requires s.Valid()
    ensures s.decision.deferred == [] && |s.decision.accesses| == 8
    ensures forall writes: seq<Write> :: |writes| <= 2 ==> s.decision.(writes := writes).Small()
  {
  }

  // ----- what the branches say, one at a time -----

  /** What a decoded reply to the request leads to. */
  lemma RequestedReply(h: Host.State, e: Endpoint.State, a: Service.Adapter, p: Host.Prepared, attempts: seq<Service.Attempt>,
                       reply: Response,
                       outcome: Host.StepOutcome, h': Host.State, e': Endpoint.State, a': Service.Adapter)
    requires e.Valid() && p.request.Valid() && p.request.Blake3? && h.txnId < U32_LIMIT
    requires ReplyOf(Endpoint.Answer(e, p.request)) == Ok(reply)
    requires RequestedTransaction(h, e, a, p, attempts, outcome, h', e', a')
    ensures var e1 := Endpoint.Drained(Endpoint.Answer(e, p.request));
            match JudgeRequested(h, a, p, Ok(reply), attempts)
            case Err(end) => h' == h && Ends(end, e1, outcome, e', a')
            case Ok((a1, frame)) => e1.Valid() && ServedTransaction(h, e1, a1, p.addresses, frame, outcome, h', e', a')
  {
    hide Endpoint.Answer, DecodeResponse, JudgeRequested, ServedTransaction, Ends, Endpoint.State.Valid, Request.Valid;
  }

  /** What a decoded reply to the digest leads to. */
  lemma ServedReply(h: Host.State, e: Endpoint.State, a: Service.Adapter, addresses: seq<u32>, frame: Request, reply: Response,
                    outcome: Host.StepOutcome, h': Host.State, e': Endpoint.State, a': Service.Adapter)
    requires e.Valid() && frame.ServiceResponse? && h.txnId < U32_LIMIT
    requires ReplyOf(Endpoint.Answer(e, frame)) == Ok(reply)
    requires ServedTransaction(h, e, a, addresses, frame, outcome, h', e', a')
    ensures var e1 := Endpoint.Drained(Endpoint.Answer(e, frame));
            match JudgeServed(h, a, addresses, Ok(reply))
            case Err(end) => h' == h && Ends(end, e1, outcome, e', a')
            case Ok(t) => e1.Valid() && RetiredTransaction(h, e1, a, t, RetireRequest(h, Ok(reply)), outcome, h', e', a')
  {
    hide Endpoint.Answer, DecodeResponse, Ends, Endpoint.State.Valid, JudgeServed, RetiredTransaction, Crc;
  }

  /** A fault response that echoes the transaction is this step's fault, unless it decided nothing. */
  lemma FaultJudged(txnId: u32, status: Status, detail: byte)
    requires status.IsFault() && U32Of(Endpoint.FaultResponse(status, txnId, detail).payload[..4]) == txnId
    ensures Host.FaultOutcome(Endpoint.FaultResponse(status, txnId, detail), txnId, false)
         == if Host.FrameOnlyFault(status) then Host.Raised(Host.ProtocolViolation) else Host.Faulted(status)
    ensures Endpoint.FaultResponse(status, txnId, detail).status == status
  {
    hide U32Of, Host.FrameOnlyFault;
  }

  // ----- the law -----

  /** An endpoint with nothing staged and nothing pending that still holds the committed state of
      an endpoint in step is in step. */
  lemma SettledInStep(h: Host.State, profile: Profile, e: Endpoint.State, e1: Endpoint.State)
    requires InStep(h, profile, e)
    requires e1.phase == Endpoint.IDLE && e1.staged == None && e1.rx == [] && e1.tx == [] && !e1.done && e1.expected == 0
    requires e1.profile == e.profile && e1.Committed() == e.Committed()
    ensures InStep(h, profile, e1)
  {
    hide AllOpen;
  }

  lemma SpentKeepsService(h: Host.State, profile: Profile, e: Endpoint.State, a: Service.Adapter, key: Service.ServiceKey,
                          h': Host.State, e': Endpoint.State)
    requires InService(h, profile, e, a) && InStep(h', profile, e')
    requires key.epoch == a.epoch && key.serviceId == e.serviceSeq + 1 == e'.serviceSeq
    ensures InService(h', profile, e', Spent(a, key))
  {
    hide InStep;
  }

  lemma PreparedHead(h: Host.State, profile: Profile, op: Programs.Operation)
    requires op.Blake3? && op.Valid() && h.txnId < U32_LIMIT && PrepareBlake3(h, profile, op).Ok?
    ensures PrepareBlake3(h, profile, op).value.request.head == Preamble(h.txnId, h.pc, h.fp, profile)
  {
    hide AddressAll, MetadataSupported, ServiceOffsets, Host.CellsAt, Request.Valid;
  }

  /** A request the endpoint does not accept. */
  lemma RefusalObeysLaw(h: Host.State, profile: Profile, e: Endpoint.State, a: Service.Adapter, p: Host.Prepared, fault: Fault,
                        attempts: seq<Service.Attempt>,
                        outcome: Host.StepOutcome, h': Host.State, e': Endpoint.State, a': Service.Adapter)
    requires InService(h, profile, e, a) && h.txnId < U32_LIMIT && e.retireSeq + 1 < U32_LIMIT && e.Valid()
    requires p.request.Valid() && p.request.Blake3? && p.request.head.txnId == h.txnId && !Suspends(e, p.request)
    requires Endpoint.HandleInstruction(e, p.request) == Endpoint.Handled(e, Some(fault))
    requires fault.status == if h.pc >= INDEX_LIMIT || h.fp >= INDEX_LIMIT || e.serviceSeq < 0xFFFF_FFFE then INDEX_RANGE else BAD_SERVICE
    requires RequestedTransaction(h, e, a, p, attempts, outcome, h', e', a')
    ensures TransactionLaw(h, profile, e, a, p, attempts, outcome, h', e', a')
  {
    hide Suspends, Endpoint.Answer, Endpoint.HandleInstruction, DecodeResponse, InStep, U32Of, RequestedTransaction,
      Endpoint.State.Valid, TransactionLaw, InService, Request.Valid, Service.Adapter.Valid, Host.FaultOutcome;
    InServiceParts(h, profile, e, a);
    InStepParts(h, profile, e);
    RefusedReply(e, p.request, fault);
    RequestedReply(h, e, a, p, attempts, Endpoint.FaultResponse(fault.status, h.txnId, fault.detail), outcome, h', e', a');
    FaultJudged(h.txnId, fault.status, fault.detail);
    RefusedIsLawful(h, profile, e, a, p, attempts, fault.status, outcome);
  }

  lemma RefusedIsLawful(h: Host.State, profile: Profile, e: Endpoint.State, a: Service.Adapter, p: Host.Prepared,
                        attempts: seq<Service.Attempt>, status: Status, outcome: Host.StepOutcome)
    requires InService(h, profile, e, a) && h.txnId < U32_LIMIT && e.retireSeq + 1 < U32_LIMIT
    requires p.request.Valid() && p.request.Blake3? && !Suspends(e, p.request)
    requires status == if h.pc >= INDEX_LIMIT || h.fp >= INDEX_LIMIT || e.serviceSeq < 0xFFFF_FFFE then INDEX_RANGE else BAD_SERVICE
    requires outcome == if Host.FrameOnlyFault(status) then Host.Raised(Host.ProtocolViolation) else Host.Faulted(status)
    ensures TransactionLaw(h, profile, e, a, p, attempts, outcome, h, e.(lastStatus := status, lastFault := status, tx := [], done := false), a)
  {
    AnsweredInStep(h, profile, e, status);
    hide Suspends, InStep, SuspensionLaw, Request.Valid;
  }

  /** What holds while the service is outstanding. */
  ghost predicate Outstanding(h: Host.State, profile: Profile, e: Endpoint.State, a: Service.Adapter, p: Host.Prepared, s: Suspension) {
    && InService(h, profile, e, a) && h.txnId < U32_LIMIT && e.retireSeq + 1 < U32_LIMIT
    && s.Valid() && s.service.serviceId == e.serviceSeq + 1 && e.serviceSeq < 0xFFFF_FFFE
    && Faithful(h.cells, p.addresses, p.request, s)
  }

  function WithOutstanding(h: Host.State, a: Service.Adapter, s: Suspension): Service.Adapter
    requires h.txnId < U32_LIMIT
  {
    a.(outstanding := Some(Service.Published(h.txnId, s.service, a.epoch)))
  }

  lemma FailureInService(h: Host.State, profile: Profile, e: Endpoint.State, a: Service.Adapter, p: Host.Prepared, s: Suspension,
                         e1: Endpoint.State)
    requires Outstanding(h, profile, e, a, p, s)
    requires e1.profile == e.profile && e1.Committed() == e.Committed() && e1.serviceSeq == e.serviceSeq + 1
    ensures var key := Service.Published(h.txnId, s.service, a.epoch).key;
            && Service.AbortedAdapter(WithOutstanding(h, a, s)) == Spent(a, key)
            && InService(h, profile, Endpoint.Aborted(e1), Spent(a, key))
            && (e1.phase == Endpoint.IDLE && e1.staged == None && e1.rx == [] && e1.tx == [] && !e1.done && e1.expected == 0 ==>
                  InService(h, profile, e1, Spent(a, key)))
  {
    var key := Service.Published(h.txnId, s.service, a.epoch).key;
    SettledInStep(h, profile, e, Endpoint.Aborted(e1));
    SpentKeepsService(h, profile, e, a, key, h, Endpoint.Aborted(e1));
    if e1.phase == Endpoint.IDLE && e1.staged == None && e1.rx == [] && e1.tx == [] && !e1.done && e1.expected == 0 {
      SettledInStep(h, profile, e, e1);
      SpentKeepsService(h, profile, e, a, key, h, e1);
    }
    hide InStep, Endpoint.F128Words, Low, Shr, Faithful, Suspension.Valid;
  }

  /** The retirement of a believed digest. */
  lemma RetirementObeysLaw(h: Host.State, profile: Profile, e: Endpoint.State, a: Service.Adapter, p: Host.Prepared, s: Suspension,
                           idle: Endpoint.State, d: Decision,
                           outcome: Host.StepOutcome, h': Host.State, e': Endpoint.State, a': Service.Adapter)
    requires Outstanding(h, profile, e, a, p, s)
    requires idle.Valid() && idle.rx == [] && idle.tx == [] && idle.profile == profile && d.Small()
    requires idle.retireSeq == e.retireSeq && idle.serviceSeq == e.serviceSeq + 1
    requires idle.staged == Some(Endpoint.Decided(h.txnId, d, Crc(Endpoint.ResultPayload(h.txnId, d))))
    requires RetiredTransaction(h, idle, WithOutstanding(h, a, s), Endpoint.TransitionOf(h.txnId, d),
                                Request.Retire(h.txnId, Crc(Endpoint.ResultPayload(h.txnId, d))), outcome, h', e', a')
    ensures outcome == Host.StepOutcome.Retired(e.retireSeq + 1) && Host.IsCommit(h, Endpoint.TransitionOf(h.txnId, d), h')
    ensures a' == Spent(a, Service.Published(h.txnId, s.service, a.epoch).key) && InService(h', profile, e', a')
    ensures e'.retireSeq == e.retireSeq + 1 && e'.serviceSeq == e.serviceSeq + 1
  {
    hide InStep, Endpoint.Answer, Endpoint.HandleRetire, Endpoint.ResultPayload, DecodeResponse, EncodeResponse, Host.IsCommit,
      Crc, Faithful, Suspension.Valid, Endpoint.State.Valid, Decision.Small, Endpoint.RetiredPayload, InService, U32Of,
      Host.FaultOutcome,
      Outstanding, Service.Adapter.Valid, Spent;
    var retire := Request.Retire(h.txnId, Crc(Endpoint.ResultPayload(h.txnId, d)));
    OutstandingParts(h, profile, e, a, p, s);
    OutstandingService(h, profile, e, a, p, s);
    RetireInStep(h, profile, idle, d);
    RetireAccepted(idle, h.txnId, d);
    RetireAnswer(idle, retire);
    CompletedIsSpent(h, a, s);
    RetiredInService(h, profile, e, a, p, s, h', e');
  }

  lemma CompletedIsSpent(h: Host.State, a: Service.Adapter, s: Suspension)
    requires h.txnId < U32_LIMIT && s.Valid()
    ensures var key := Service.Published(h.txnId, s.service, a.epoch).key;
            && WithOutstanding(h, a, s).outstanding.Some? && WithOutstanding(h, a, s).outstanding.value.key == key
            && Service.Completed(WithOutstanding(h, a, s), key) == Spent(a, key)
  {
    hide Suspension.Valid, Endpoint.F128Words, Low, Shr;
  }

  lemma RetiredInService(h: Host.State, profile: Profile, e: Endpoint.State, a: Service.Adapter, p: Host.Prepared, s: Suspension,
                         h': Host.State, e': Endpoint.State)
    requires Outstanding(h, profile, e, a, p, s) && InStep(h', profile, e') && e'.serviceSeq == e.serviceSeq + 1
    ensures InService(h', profile, e', Spent(a, Service.Published(h.txnId, s.service, a.epoch).key))
  {
    SpentKeepsService(h, profile, e, a, Service.Published(h.txnId, s.service, a.epoch).key, h', e');
    hide InStep, InService, Faithful, Suspension.Valid, Endpoint.F128Words, Low, Shr;
  }

  /** The frame that carries the digest to the endpoint. */
  function DigestFrame(txnId: u32, s: Suspension, digest: seq<byte>): (r: Request)
    requires |digest| == 32
    ensures r.Valid() && r.ServiceResponse?
  {
    Request.ServiceResponse(txnId, s.service.serviceId, BLAKE3_COMPRESS, F128Of(digest[..16]), F128Of(digest[16..]))
  }

  /** The exchange that carries the digest, and what follows. */
  lemma DigestObeysLaw(h: Host.State, profile: Profile, e: Endpoint.State, a: Service.Adapter, p: Host.Prepared, s: Suspension,
                       digest: seq<byte>,
                       outcome: Host.StepOutcome, h': Host.State, e': Endpoint.State, a': Service.Adapter)
    requires Outstanding(h, profile, e, a, p, s) && |digest| == 32
    requires var waiting := Waiting(e, h.txnId, s);
             waiting.Valid() && ServedTransaction(h, waiting, WithOutstanding(h, a, s), p.addresses, DigestFrame(h.txnId, s, digest),
                                                  outcome, h', e', a')
    ensures DigestLaw(h, e, s, F128Of(digest[..16]), F128Of(digest[16..]), outcome, h')
    ensures a' == Spent(a, Service.Published(h.txnId, s.service, a.epoch).key) && InService(h', profile, e', a')
    ensures e'.retireSeq == (if outcome.Retired? then e.retireSeq + 1 else e.retireSeq) && e'.serviceSeq == e.serviceSeq + 1
  {
    hide InStep, Endpoint.Answer, DecodeResponse, Host.IsCommit, Host.Prevalidate, Resume, F128Of, Consistent, U32Of, Crc,
      Endpoint.ResultPayload, Faithful, Suspension.Valid, Endpoint.State.Valid, Decision.Small, RetiredTransaction, InService,
      Spent, WithOutstanding, Service.Published, Service.AbortedAdapter, Outstanding, ServedTransaction, Endpoint.FaultResponse,
      Endpoint.Finish, Host.FaultOutcome, Service.Adapter.Valid, AllOpen, Collides, Differ, Connected, OutputWrites;
    var waiting, frame := Waiting(e, h.txnId, s), DigestFrame(h.txnId, s, digest);
    var e1 := Endpoint.Drained(Endpoint.Answer(waiting, frame));
    OutstandingParts(h, profile, e, a, p, s);
    OutstandingService(h, profile, e, a, p, s);
    ResumeDecides(h.cells, p.addresses, p.request, s, frame.digest0, frame.digest1);
    var x, y := s.decision.accesses[6], s.decision.accesses[7];
    if Collides(h.cells, x, frame.digest0, y, frame.digest1) {
      ConflictReply(waiting, frame, s);
      ServedReply(h, waiting, WithOutstanding(h, a, s), p.addresses, frame, Endpoint.FaultResponse(WRITE_CONFLICT, h.txnId, 0),
                  outcome, h', e', a');
      FaultJudged(h.txnId, WRITE_CONFLICT, 0);
      FailureInService(h, profile, e, a, p, s, e1);
    } else {
      var d := s.decision.(writes := OutputWrites(h.cells, x, frame.digest0, y, frame.digest1));
      ResumedReply(waiting, frame, s, d);
      DigestPrevalidates(h, p.addresses, p.request, s, frame.digest0, frame.digest1);
      ServedReply(h, waiting, WithOutstanding(h, a, s), p.addresses, frame, Response(OK, Endpoint.ResultPayload(h.txnId, d)),
                  outcome, h', e', a');
      ResumedEndpoint(waiting, h.txnId, d);
      FailureInService(h, profile, e, a, p, s, e1);
      if !(Differ(h.cells, x, frame.digest0, y, frame.digest1) && Connected(h.deferred, x, y)) {
        RetirementObeysLaw(h, profile, e, a, p, s, e1, d, outcome, h', e', a');
      }
    }
  }

  lemma OutstandingParts(h: Host.State, profile: Profile, e: Endpoint.State, a: Service.Adapter, p: Host.Prepared, s: Suspension)
    requires Outstanding(h, profile, e, a, p, s)
    ensures e.Valid() && e.rx == [] && e.tx == [] && !e.done && e.expected == 0 && e.profile == profile && s.Valid()
    ensures Faithful(h.cells, p.addresses, p.request, s) && AllOpen(h.cells, h.deferred) && |s.decision.accesses| == 8
  {
  }

  lemma ResumedEndpoint(e: Endpoint.State, txnId: u32, d: Decision)
    requires d.Small()
    ensures var e1 := Endpoint.Drained(Endpoint.Finish(e, txnId, d));
            && e1.staged == Some(Endpoint.Decided(txnId, d, Crc(Endpoint.ResultPayload(txnId, d))))
            && e1.rx == e.rx && e1.tx == [] && e1.profile == e.profile && e1.Committed() == e.Committed()
            && e1.serviceSeq == e.serviceSeq
  {
    hide Endpoint.ResultPayload, EncodeResponse;
  }

  /** A digest that collides with nothing and contradicts nothing is believed. */
  lemma DigestBelieved(h: Host.State, profile: Profile, e: Endpoint.State, a: Service.Adapter, p: Host.Prepared, s: Suspension,
                       digest: seq<byte>, retire: Host.Reply)
    requires Outstanding(h, profile, e, a, p, s) && e.Valid() && e.rx == [] && |digest| == 32
    requires p.request.Valid() && p.request.Blake3? && p.request.head.txnId == h.txnId
    requires Suspends(e, p.request) && DecideBlake3(p.request, e.serviceSeq + 1) == Ok(s)
    requires var x, y, v, w := s.decision.accesses[6], s.decision.accesses[7], F128Of(digest[..16]), F128Of(digest[16..]);
             !Collides(h.cells, x, v, y, w) && !(Differ(h.cells, x, v, y, w) && Connected(h.deferred, x, y))
    ensures var replies := ModelReplies(h, e, a, p, [Service.Returned(digest)], retire);
            && JudgeRequested(h, a, p, replies.first, [Service.Returned(digest)])
               == Ok((WithOutstanding(h, a, s), DigestFrame(h.txnId, s, digest)))
            && JudgeServed(h, WithOutstanding(h, a, s), p.addresses, replies.second).Ok?
  {
    hide InStep, Endpoint.Answer, DecodeResponse, Host.Prevalidate, Resume, F128Of, Serve, DecideBlake3, Suspends,
      Endpoint.ServicePayload, Endpoint.ResultPayload, Faithful, Suspension.Valid, Endpoint.State.Valid, InService,
      Service.Published, Request.Valid, Outstanding, Service.Adapter.Valid, AllOpen, Collides, Differ, Connected, OutputWrites,
      Endpoint.Finish, Decision.Small;
    var waiting, frame := Waiting(e, h.txnId, s), DigestFrame(h.txnId, s, digest);
    OutstandingParts(h, profile, e, a, p, s);
    OutstandingService(h, profile, e, a, p, s);
    PublishedReply(e, p.request, s);
    WaitingValid(e, h.txnId, s);
    ServesPublished(h, a, p.request, p.addresses, s, [Service.Returned(digest)]);
    ResumeDecides(h.cells, p.addresses, p.request, s, frame.digest0, frame.digest1);
    var d := s.decision.(writes := OutputWrites(h.cells, s.decision.accesses[6], frame.digest0, s.decision.accesses[7], frame.digest1));
    ResumedReply(waiting, frame, s, d);
    DigestPrevalidates(h, p.addresses, p.request, s, frame.digest0, frame.digest1);
  }

  /** The exchanges of a BLAKE3 step come to what `TransactionLaw` says. */
  lemma TransactionObeysLaw(hc: Host.State, h: Host.State, profile: Profile, e: Endpoint.State, a: Service.Adapter,
                            op: Programs.Operation, attempts: seq<Service.Attempt>,
                            outcome: Host.StepOutcome, h': Host.State, e': Endpoint.State, a': Service.Adapter)
    requires op.Blake3? && op.Valid() && hc.txnId < U32_LIMIT && PrepareBlake3(hc, profile, op).Ok? && e.Valid()
    requires h == hc.(stepIndex := h.stepIndex) && InService(h, profile, e, a) && e.retireSeq + 1 < U32_LIMIT
    requires RequestedTransaction(h, e, a, PrepareBlake3(hc, profile, op).value, attempts, outcome, h', e', a')
    ensures TransactionLaw(h, profile, e, a, PrepareBlake3(hc, profile, op).value, attempts, outcome, h', e', a')
  {
    hide PrepareBlake3, DecideBlake3, SuspensionLaw, InService, Spent, Service.Published, RequestedTransaction, Faithful,
      Suspension.Valid, Suspends, Endpoint.State.Valid, Outstanding, InStep, TransactionLaw, Endpoint.HandleInstruction, Request.Valid;
    var p := PrepareBlake3(hc, profile, op).value;
    PreparedHead(hc, profile, op);
    InServiceParts(h, profile, e, a);
    StaysInStep(h, hc, profile, e);
    if Suspends(e, p.request) {
      SuspendsWhen(e, p.request);
      PreparedDecides(hc, profile, op, e.serviceSeq + 1);
      var s := DecideBlake3(p.request, e.serviceSeq + 1).value;
      OutstandingStarts(h, profile, e, a, p, s);
      SuspensionObeysLaw(h, profile, e, a, p, s, attempts, outcome, h', e', a');
      SuspensionIsLawful(h, profile, e, a, p, s, attempts, outcome, h', e', a');
    } else {
      var fault := RefusedHow(hc, profile, e, op);
      RefusalObeysLaw(h, profile, e, a, p, fault, attempts, outcome, h', e', a');
    }
  }

  lemma SuspendsWhen(e: Endpoint.State, r: Request)
    requires r.Valid() && r.Blake3? && Suspends(e, r)
    ensures e.serviceSeq < 0xFFFF_FFFE && DecideBlake3(r, e.serviceSeq + 1).Ok?
  {
    hide DecideBlake3, Endpoint.Guard, Request.Valid;
  }

  lemma SuspensionIsLawful(h: Host.State, profile: Profile, e: Endpoint.State, a: Service.Adapter, p: Host.Prepared, s: Suspension,
                           attempts: seq<Service.Attempt>,
                           outcome: Host.StepOutcome, h': Host.State, e': Endpoint.State, a': Service.Adapter)
    requires p.request.Valid() && p.request.Blake3? && h.txnId < U32_LIMIT && e.retireSeq + 1 < U32_LIMIT && s.Valid()
    requires Suspends(e, p.request) && DecideBlake3(p.request, e.serviceSeq + 1) == Ok(s)
    requires SuspensionLaw(h, e, a, s, attempts, outcome, h')
    requires a' == Spent(a, Service.Published(h.txnId, s.service, a.epoch).key) && InService(h', profile, e', a')
    requires e'.retireSeq == (if outcome.Retired? then e.retireSeq + 1 else e.retireSeq) && e'.serviceSeq == e.serviceSeq + 1
    ensures TransactionLaw(h, profile, e, a, p, attempts, outcome, h', e', a')
  {
    hide DecideBlake3, SuspensionLaw, InService, Spent, Service.Published, Suspension.Valid, Endpoint.Guard, Request.Valid;
  }

  lemma OutstandingStarts(h: Host.State, profile: Profile, e: Endpoint.State, a: Service.Adapter, p: Host.Prepared, s: Suspension)
    requires InService(h, profile, e, a) && h.txnId < U32_LIMIT && e.retireSeq + 1 < U32_LIMIT
    requires p.request.Valid() && p.request.Blake3? && Suspends(e, p.request) && DecideBlake3(p.request, e.serviceSeq + 1) == Ok(s)
    requires s.Valid() && Faithful(h.cells, p.addresses, p.request, s)
    ensures Outstanding(h, profile, e, a, p, s)
  {
    hide InService, Faithful, Suspension.Valid, Endpoint.Guard;
  }

  lemma InServiceParts(h: Host.State, profile: Profile, e: Endpoint.State, a: Service.Adapter)
    requires InService(h, profile, e, a)
    ensures InStep(h, profile, e) && e.Valid() && a.Valid() && a.outstanding == None
  {
  }

  lemma SuspensionObeysLaw(h: Host.State, profile: Profile, e: Endpoint.State, a: Service.Adapter, p: Host.Prepared, s: Suspension,
                           attempts: seq<Service.Attempt>,
                           outcome: Host.StepOutcome, h': Host.State, e': Endpoint.State, a': Service.Adapter)
    requires Outstanding(h, profile, e, a, p, s) && e.Valid()
    requires p.request.Valid() && p.request.Blake3? && p.request.head.txnId == h.txnId
    requires Suspends(e, p.request) && DecideBlake3(p.request, e.serviceSeq + 1) == Ok(s)
    requires RequestedTransaction(h, e, a, p, attempts, outcome, h', e', a')
    ensures SuspensionLaw(h, e, a, s, attempts, outcome, h')
    ensures a' == Spent(a, Service.Published(h.txnId, s.service, a.epoch).key) && InService(h', profile, e', a')
    ensures e'.retireSeq == (if outcome.Retired? then e.retireSeq + 1 else e.retireSeq) && e'.serviceSeq == e.serviceSeq + 1
  {
    hide InStep, Endpoint.Answer, DecodeResponse, Host.IsCommit, Resume, F128Of, Consistent, Crc, Serve, DecideBlake3, Suspends,
      Endpoint.ServicePayload, Faithful, Suspension.Valid, Endpoint.State.Valid, ServedTransaction, InService, Answering,
      Spent, Service.Published, Service.AbortedAdapter, Request.Valid, RequestedTransaction, Outstanding, Service.Adapter.Valid;
    var waiting := Waiting(e, h.txnId, s);
    OutstandingParts(h, profile, e, a, p, s);
    OutstandingService(h, profile, e, a, p, s);
    PublishedReply(e, p.request, s);
    WaitingValid(e, h.txnId, s);
    ServesPublished(h, a, p.request, p.addresses, s, attempts);
    RequestedReply(h, e, a, p, attempts, Response(SERVICE_REQUIRED, Endpoint.ServicePayload(h.txnId, s.service)), outcome, h', e', a');
    FailureInService(h, profile, e, a, p, s, waiting);
    match Answering(Service.Published(h.txnId, s.service, a.epoch), attempts)
    case Computed(response) =>
      DigestObeysLaw(h, profile, e, a, p, s, response.digest, outcome, h', e', a');
    case _ =>
  }

  /** The service of a suspended transaction has not been asked for before. */
  lemma OutstandingService(h: Host.State, profile: Profile, e: Endpoint.State, a: Service.Adapter, p: Host.Prepared, s: Suspension)
    requires Outstanding(h, profile, e, a, p, s)
    ensures h.txnId < U32_LIMIT && e.retireSeq + 1 < U32_LIMIT && e.serviceSeq < 0xFFFF_FFFE
    ensures s.service.serviceId == e.serviceSeq + 1
    ensures a.Valid() && a.outstanding == None
    ensures Service.Published(h.txnId, s.service, a.epoch).key !in a.completed
  {
    hide InStep, Faithful, Suspension.Valid, Endpoint.F128Words, Low, Shr;
    PublishedIsFresh(h, profile, e, a, h.txnId, s);
  }

  // ----- whole steps -----

  /** What one step between a host and an endpoint in service comes to, whatever the operation and
      however the service behaves. */
  ghost predicate StepLaw(h: Host.State, profile: Profile, e: Endpoint.State, a: Service.Adapter, op: Programs.Operation,
                          attempts: seq<Service.Attempt>,
                          outcome: Host.StepOutcome, h': Host.State, e': Endpoint.State, a': Service.Adapter)
    requires h.txnId + 1 < U32_LIMIT && e.retireSeq + 1 < U32_LIMIT && op.Valid() && e.Valid()
  {
    && h'.txnId == h.txnId + 1
    && (if outcome.Retired? then e'.retireSeq == e.retireSeq + 1 == outcome.retireSeq && h'.stepIndex == h.stepIndex + 1
        else Host.Untouched(h, h') && e'.retireSeq == e.retireSeq)
    && (outcome.Faulted? ==> !OutOfStep(outcome.status))
    && (outcome.Refused? ==> outcome.refusal.PreparationFault? && outcome.refusal.status in {U32_OVERFLOW, BAD_POINTER, BAD_SERVICE})
    && if op.Blake3? then
         match PrepareBlake3(Counted(h), profile, op)
         case Err(refusal) => outcome == Host.Refused(refusal) && h' == Counted(h) && e' == e && a' == a
         case Ok(p) => TransactionLaw(Indexed(h), profile, e, a, p, attempts, outcome, h', e', a')
       else ModelStep(h, profile, e, op, outcome, h', e') && !outcome.Raised? && a' == a
  }

  /** A BLAKE3 step between a host and an endpoint in service leaves them in service; unless it
      retires nothing the program can see has moved; and it retires exactly when it is prepared,
      accepted, served without collision, and the digest contradicts no deferred equality. */
  lemma ServiceStepStaysInService(h: Host.State, profile: Profile, e: Endpoint.State, a: Service.Adapter, op: Programs.Operation,
                                  attempts: seq<Service.Attempt>,
                                  outcome: Host.StepOutcome, h': Host.State, e': Endpoint.State, a': Service.Adapter)
    requires op.Blake3? && op.Valid() && h.txnId + 1 < U32_LIMIT && e.Valid()
    requires InService(h, profile, e, a) && e.retireSeq + 1 < U32_LIMIT
    requires ServiceStep(h, profile, e, a, op, attempts, outcome, h', e', a')
    ensures InService(h', profile, e', a')
    ensures StepLaw(h, profile, e, a, op, attempts, outcome, h', e', a')
  {
    hide PrepareBlake3, InStep, RequestedTransaction, Endpoint.State.Valid, Suspends, InService, TransactionLaw, Request.Valid,
      Service.Adapter.Valid;
    OnlyCounted(h, profile, e, a);
    PrepareBlake3Refuses(Counted(h), profile, op);
    if PrepareBlake3(Counted(h), profile, op).Ok? {
      var p := PrepareBlake3(Counted(h), profile, op).value;
      TransactionObeysLaw(Counted(h), Indexed(h), profile, e, a, op, attempts, outcome, h', e', a');
      LawfulOutcome(Indexed(h), profile, e, a, p, attempts, outcome, h', e', a');
    }
  }

  /** With the request accepted and the service answering, the two digest words decide the step. */
  lemma DigestDecides(h: Host.State, profile: Profile, e: Endpoint.State, a: Service.Adapter, op: Programs.Operation, digest: seq<byte>,
                      outcome: Host.StepOutcome, h': Host.State, e': Endpoint.State, a': Service.Adapter)
    requires op.Blake3? && op.Valid() && h.txnId + 1 < U32_LIMIT && e.retireSeq + 1 < U32_LIMIT && e.Valid() && |digest| == 32
    requires StepLaw(h, profile, e, a, op, [Service.Returned(digest)], outcome, h', e', a')
    requires PrepareBlake3(Counted(h), profile, op).Ok? && Suspends(e, PrepareBlake3(Counted(h), profile, op).value.request)
    ensures var s := DecideBlake3(PrepareBlake3(Counted(h), profile, op).value.request, e.serviceSeq + 1).value;
            DigestLaw(Indexed(h), e, s, F128Of(digest[..16]), F128Of(digest[16..]), outcome, h')
  {
    hide PrepareBlake3, DecideBlake3, InService, F128Of, Spent, OutOfStep, DigestLaw, Endpoint.State.Valid, Suspension.Valid,
      Service.Adapter.Valid, Request.Valid, Service.Published, Endpoint.Guard;
    var p := PrepareBlake3(Counted(h), profile, op).value;
    assert TransactionLaw(Indexed(h), profile, e, a, p, [Service.Returned(digest)], outcome, h', e', a');
  }

  lemma PrepareBlake3Refuses(h: Host.State, profile: Profile, op: Programs.Operation)
    requires op.Blake3? && op.Valid() && h.txnId < U32_LIMIT
    ensures var r := PrepareBlake3(h, profile, op);
            r.Err? ==> r.error.PreparationFault? && r.error.status == if MetadataSupported(op.metadata) then U32_OVERFLOW else BAD_SERVICE
  {
    hide MetadataSupported, ServiceOffsets, Host.CellsAt, Request.Valid;
  }

  /** The host's own counters do not matter to being in service. */
  lemma OnlyCounted(h: Host.State, profile: Profile, e: Endpoint.State, a: Service.Adapter)
    requires InService(h, profile, e, a)
    ensures InService(Counted(h), profile, e, a) && InService(Indexed(h), profile, e, a)
  {
    StaysInStep(h, Counted(h), profile, e);
    StaysInStep(h, Indexed(h), profile, e);
    hide InStep;
  }

  lemma LawfulOutcome(h: Host.State, profile: Profile, e: Endpoint.State, a: Service.Adapter, p: Host.Prepared,
                      attempts: seq<Service.Attempt>,
                      outcome: Host.StepOutcome, h': Host.State, e': Endpoint.State, a': Service.Adapter)
    requires p.request.Valid() && p.request.Blake3? && h.txnId < U32_LIMIT && e.retireSeq + 1 < U32_LIMIT
    requires TransactionLaw(h, profile, e, a, p, attempts, outcome, h', e', a')
    ensures InService(h', profile, e', a')
    ensures if outcome.Retired? then e'.retireSeq == e.retireSeq + 1 == outcome.retireSeq
            else h' == h && e'.retireSeq == e.retireSeq
    ensures h'.txnId == h.txnId && h'.stepIndex == h.stepIndex
    ensures !outcome.Refused? && (outcome.Faulted? ==> !OutOfStep(outcome.status))
  {
    hide InService, Suspends, DecideBlake3, Answering, IsClosure, Spent, Service.Published, Request.Valid, F128Of, ApplyWrites,
      Collides, Differ, Connected, OutputWrites;
  }

  /** Scalar steps do not touch the service, and never raise. */
  lemma ScalarStepStaysInService(h: Host.State, profile: Profile, e: Endpoint.State, a: Service.Adapter, op: Programs.Operation,
                                 attempts: seq<Service.Attempt>,
                                 outcome: Host.StepOutcome, h': Host.State, e': Endpoint.State)
    requires InService(h, profile, e, a) && e.Valid() && !op.Blake3? && h.txnId + 1 < U32_LIMIT && e.retireSeq + 1 < U32_LIMIT
    requires ModelStep(h, profile, e, op, outcome, h', e')
    ensures InService(h', profile, e', a)
    ensures StepLaw(h, profile, e, a, op, attempts, outcome, h', e', a)
  {
    hide InStep, ModelStep, PreparedStep, Host.Prepare, Retirable, DecisionFor, Endpoint.State.Valid, Request.Valid,
      Endpoint.Answer, Endpoint.TransitionOf, Host.IsCommit;
    StepStaysInStep(h, profile, e, op, outcome, h', e');
    ModelStepCases(h, profile, e, op, outcome, h', e');
    HostRuntime.RefusalPrepares(h, profile, e, op, outcome, h', e');
    if Host.Prepare(Counted(h), profile, op).Ok? {
      PreparedWell(Counted(h), profile, op);
      ScalarTransactionKeeps(Indexed(h), e, Host.Prepare(Counted(h), profile, op).value, outcome, h', e');
    }
  }

  /** What the exchanges of a scalar step never touch. */
  lemma ScalarTransactionKeeps(h: Host.State, e: Endpoint.State, p: Host.Prepared,
                               outcome: Host.StepOutcome, h': Host.State, e': Endpoint.State)
    requires e.Valid() && p.request.Valid() && Endpoint.IsScalar(p.request) && h.txnId < U32_LIMIT
    requires PreparedStep(h, e, p, outcome, h', e')
    ensures e'.serviceSeq == e.serviceSeq
    ensures h'.txnId == h.txnId && h'.stepIndex == h.stepIndex
    ensures Host.Keeps(h.cells, h'.cells) && Host.KeepsEqualities(h, h')
  {
    hide Endpoint.Answer, Endpoint.State.Valid, Host.Prevalidate, Host.IsCommit, Host.JudgeRetire, DecodeResponse, Request.Valid,
      Host.FaultOutcome;
    var e1 := Endpoint.Answer(e, p.request);
    var reply := ReplyOf(e1);
    AnswerKeepsCounter(e, p.request);
    if Host.Judge(h, p.addresses, reply).Ok? {
      AnswerKeepsCounter(Endpoint.Drained(e1), RetireRequest(h, reply));
      if h' != h {
        Host.CommitKeeps(h, p.addresses, reply.value.payload, h');
        Host.CommitKeepsEqualities(h, Host.Judge(h, p.addresses, reply).value, h');
        Host.CommitCounters(h, Host.Judge(h, p.addresses, reply).value, h');
      }
    }
  }

  lemma AnswerKeepsCounter(e: Endpoint.State, r: Request)
    requires e.Valid() && r.Valid() && (Endpoint.IsScalar(r) || r.Retire?)
    ensures Endpoint.Answer(e, r).serviceSeq == e.serviceSeq
  {
    hide Decide, EncodeResponse, Endpoint.ResultPayload, Endpoint.RetiredPayload, Endpoint.State.Valid, Endpoint.Guard;
  }

  // ----- what is kept, whatever state the endpoint is in -----

  /** No BLAKE3 step changes or loses a known cell, or forgets a deferred equality, in step or not. */
  lemma ServiceStepKeeps(h: Host.State, profile: Profile, e: Endpoint.State, a: Service.Adapter, op: Programs.Operation,
                         attempts: seq<Service.Attempt>,
                         outcome: Host.StepOutcome, h': Host.State, e': Endpoint.State, a': Service.Adapter)
    requires op.Blake3? && op.Valid() && h.txnId + 1 < U32_LIMIT && e.Valid()
    requires ServiceStep(h, profile, e, a, op, attempts, outcome, h', e', a')
    ensures Host.Keeps(h.cells, h'.cells) && Host.KeepsEqualities(h, h')
  {
    hide PrepareBlake3, RequestedTransaction, Endpoint.State.Valid, Request.Valid, IsTransaction, Host.Keeps, Host.KeepsEqualities;
    Host.SameEqualities(h, Counted(h));
    Host.SameEqualities(h, Indexed(h));
    if PrepareBlake3(Counted(h), profile, op).Ok? {
      var p := PrepareBlake3(Counted(h), profile, op).value;
      var replies, end := RepliesOfTransaction(Indexed(h), e, a, p, attempts, outcome, h', e', a');
      TransactionKeeps(Indexed(h), a, p, replies, attempts, end, h');
      Host.KeptThrough(h, Indexed(h), h');
    }
  }

  /** The same for a scalar step. */
  lemma ScalarStepKeeps(h: Host.State, profile: Profile, e: Endpoint.State, op: Programs.Operation,
                        outcome: Host.StepOutcome, h': Host.State, e': Endpoint.State)
    requires !op.Blake3? && h.txnId + 1 < U32_LIMIT && e.Valid() && ModelStep(h, profile, e, op, outcome, h', e')
    ensures Host.Keeps(h.cells, h'.cells) && Host.KeepsEqualities(h, h')
  {
    hide ModelStep, PreparedStep, Host.Prepare, Endpoint.State.Valid, Request.Valid, Host.Keeps, Host.KeepsEqualities;
    ModelStepCases(h, profile, e, op, outcome, h', e');
    Host.SameEqualities(h, Counted(h));
    Host.SameEqualities(h, Indexed(h));
    if Host.Prepare(Counted(h), profile, op).Ok? {
      PreparedWell(Counted(h), profile, op);
      ScalarTransactionKeeps(Indexed(h), e, Host.Prepare(Counted(h), profile, op).value, outcome, h', e');
      Host.KeptThrough(h, Indexed(h), h');
    }
  }

  // ----- DEREF_CELL -----

  /** The accepted reconciliation of two cells leaves them equal, or hands their equality back. */
  lemma ReconcileHonours(profile: Profile, f: FrameView, cells: Cells, target: u32, local: u32)
    requires Shows(f, cells) && target in f.cells && local in f.cells && f.writes == []
    ensures var r := Reconcile(profile, f, target, local);
            r.Ok? ==> r.value.1 == [DeferredEquality(target, local)]
                      || IsClosed(ApplyWrites(cells, r.value.0.writes), DeferredEquality(target, local))
  {
    if local in cells {
      ApplyOne(cells, target, cells[local]);
    }
    if target in cells {
      ApplyOne(cells, local, cells[target]);
    }
  }

  /** So a retired DEREF_CELL's equality holds in memory, or is listed between two absent cells. */
  lemma DerefCellHonoured(h: Host.State, profile: Profile, e: Endpoint.State, op: Programs.Operation,
                          outcome: Host.StepOutcome, h': Host.State, e': Endpoint.State)
    returns (base: u32)
    requires InStep(h, profile, e) && op.Deref? && op.mode == ModeCell && h.txnId + 1 < U32_LIMIT && e.retireSeq + 1 < U32_LIMIT
    requires e.Valid() && ModelStep(h, profile, e, op, outcome, h', e') && outcome.Retired?
    ensures h.fp + op.alpha in h.cells && Reverse(h.cells[h.fp + op.alpha], INDEX_LIMIT) == Some(base)
    ensures base + op.beta <= U32_MAX && h.fp + op.gamma <= U32_MAX
    ensures Host.Honours(h', DeferredEquality(base + op.beta, h.fp + op.gamma))
  {
    hide InStep, ModelStep, Host.Prepare, Decide, Host.IsCommit, Reverse, Request.Valid, Endpoint.State.Valid, OutOfStep, Reconcile,
      DecideDeref, Shows, VerifyIndex, Host.Honours, Host.Keeps, Retirable, DecisionFor;
    StepStaysInStep(h, profile, e, op, outcome, h', e');
    ScalarStepKeeps(h, profile, e, op, outcome, h', e');
    RetirableCases(Counted(h), profile, op);
    base := PreparedDeref(Counted(h), profile, op);
    var target, local := base + op.beta, h.fp + op.gamma;
    var head := Preamble(h.txnId + 1, h.pc, h.fp, profile);
    var f := DerefReduces(op.mode, head, op.alpha, op.beta, op.gamma, base, h.cells);
    var d := DecisionFor(Counted(h), profile, op);
    DecideIsDeref(op, head, base, h.cells);
    ReconcileHonours(profile, f, h.cells, target, local);
    CommitHonours(Indexed(h), Endpoint.TransitionOf(h.txnId + 1, d), h', DeferredEquality(target, local));
  }

  lemma DecideIsDeref(op: Programs.Operation, head: Preamble, base: u32, cells: Cells)
    requires op.Deref? && head.fp + op.alpha <= U32_MAX && head.fp + op.gamma <= U32_MAX && base + op.beta <= U32_MAX
    ensures var p, t, l := head.fp + op.alpha, base + op.beta, head.fp + op.gamma;
            var r := Request.Deref(op.mode, head, op.alpha, op.beta, op.gamma, CellOf(cells, p), base, CellOf(cells, t), CellOf(cells, l));
            && r.Valid() && Endpoint.IsScalar(r)
            && Decide(r) == DecideDeref(op.mode, head, op.alpha, op.beta, op.gamma,
                                        CellOf(cells, p), base, CellOf(cells, t), CellOf(cells, l))
  {
    hide DecideDeref;
  }

  lemma CommitHonours(h: Host.State, t: Transition, h': Host.State, d: DeferredEquality)
    requires Host.IsCommit(h, t, h') && Host.Keeps(h.cells, h'.cells)
    requires d in t.deferred || IsClosed(ApplyWrites(h.cells, t.writes), d)
    ensures Host.Honours(h', d)
  {
    Host.CommitKeepsEqualities(h, t, h');
    Host.ClosureKeeps(ApplyWrites(h.cells, t.writes), h.deferred + t.deferred, h'.cells);
    hide IsClosure;
  }
}
