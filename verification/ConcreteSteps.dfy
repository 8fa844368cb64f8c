/** Steps at concrete inputs, where the parts of the stack disagree: an accepted digest that the host
    must refuse, an exhausted service counter, and an address the oracle never computes. */
module ConcreteSteps {
  import opened Outcomes
  import opened Bits
  import opened Bytes
  import opened Ghash
  import opened Pointers
  import opened Protocol
  import opened Wire
  import opened Requests
  import opened Frames
  import opened Transitions
  import opened HostMemory
  import opened HostRuntime
  import opened LaneEndpoint
  import opened Lockstep
  import opened ScalarRuns
  import opened Refinement
  import opened ServiceHost
  import opened ServiceSteps
  import opened ServiceRuntime
  import Programs
  import Oracle
  import Host
  import Endpoint
  import Service = Blake3Service

  // ----- one BLAKE3 operation over an empty memory -----

  /** Message words at 0 to 3, chaining words at 4 and 5, output words at 6 and 7. */
  const HASH: Programs.Operation := Programs.Blake3([0, 1, 2, 3], 4, 6, 0)

  const PROGRAM: seq<Programs.Operation> := [HASH, HASH]

  function StartHost(deferred: seq<DeferredEquality>): Host.State {
    Host.State(map[], map[], deferred, 0, 0, 0, 0)
  }

  /** An endpoint fresh but for the services it has already published. */
  function StartEndpoint(served: u32): Endpoint.State {
    Endpoint.POWER_ON.(profile := INTERPRETER_COMPAT, serviceSeq := served)
  }

  const START_ADAPTER: Service.Adapter := Service.Adapter(1, {1}, None, {})

  method StartSession(deferred: seq<DeferredEquality>, served: u32) returns (session: Session)
    ensures fresh(session) && fresh(session.runtime) && fresh(session.adapter) && fresh(session.runtime.memory)
    ensures fresh(session.runtime.memory.pointers) && fresh(session.runtime.endpoint)
    ensures session.Ready(1) && session.adapter.maxRetries == 0
    ensures session.runtime.program == PROGRAM && session.runtime.profile == INTERPRETER_COMPAT
    ensures session.Now() == Moment(StartHost(deferred), StartEndpoint(served), START_ADAPTER)
  {
    assert Programs.IsPowerOfTwo(1);
    assert Programs.IsProgram(PROGRAM);
    hide Programs.IsProgram;
    assert Patient([], []);
    hide Patient;
    var endpoint := new Lsc1Endpoint();
    endpoint.serviceSeq := served;
    var memory := new Memory(map[], deferred);
    var runtime := new Runtime(PROGRAM, 0, 0, memory, endpoint, INTERPRETER_COMPAT, [], []);
    var adapter := new Service.ModelServiceAdapter(1, 0);
    session := new Session(runtime, adapter);
  }

  /** The request is prepared, and accepted while the endpoint has service ids left. */
  lemma HashSuspends(deferred: seq<DeferredEquality>, served: u32)
    ensures var h, e := StartHost(deferred), StartEndpoint(served);
            var prepared := PrepareBlake3(Counted(h), INTERPRETER_COMPAT, HASH);
            && prepared.Ok? && prepared.value.addresses == [0, 1, 2, 3, 4, 5, 6, 7]
            && (Suspends(e, prepared.value.request) <==> served < 0xFFFF_FFFE)
            && (served < 0xFFFF_FFFE ==> Faithful(map[], prepared.value.addresses, prepared.value.request,
                                                  DecideBlake3(prepared.value.request, served + 1).value))
  {
    var h, e := StartHost(deferred), StartEndpoint(served);
    ZeroSupported();
    HashAddresses();
    hide MetadataSupported, AddressAll, DecideBlake3, Faithful, Host.CellsAt;
    if served < 0xFFFF_FFFE {
      PreparedDecides(Counted(h), INTERPRETER_COMPAT, HASH, served + 1);
    }
  }

  lemma ZeroSupported()
    ensures MetadataSupported(0)
  {
    hide Pow2, Shr, Low;
    ZeroShifted(64);
    ZeroShifted(96);
    ZeroShifted(32);
  }

  lemma {:induction false} ZeroShifted(n: nat)
    ensures Shr(0, n) == 0 && Low(0, n) == 0
  {
    if n != 0 {
      ZeroShifted(n - 1);
    }
  }

  lemma HashAddresses()
    ensures AddressAll(0, ServiceOffsets(HASH)) == Ok([0, 1, 2, 3, 4, 5, 6, 7])
  {
    var offsets := ServiceOffsets(HASH);
    assert offsets == [0, 1, 2, 3, 4, 5, 6, 7];
    AddressesFit(0, offsets);
    assert AddressAll(0, offsets).value == [0, 1, 2, 3, 4, 5, 6, 7];
  }

  lemma {:induction false} AddressesFit(base: u32, offsets: seq<nat>)
    requires forall i :: 0 <= i < |offsets| ==> base + offsets[i] <= U32_MAX
    ensures AddressAll(base, offsets).Ok?
  {
    if offsets != [] {
      AddressesFit(base, offsets[1..]);
    }
  }

  // ----- a digest the endpoint accepts and the host must refuse -----

  /** With an equality deferred between the two output cells, a digest with different halves. */
  method ContradictingDigest() returns (outcome: Host.StepOutcome)
    ensures outcome == Host.Raised(Host.WriteOnceViolation)
  {
    var deferred := [DeferredEquality(6, 7)];
    var digest := F128Bytes(1) + F128Bytes(0);
    var session := StartSession(deferred, 0);
    outcome := session.Step([Service.Returned(digest)], 1);
    ContradictionRaises(deferred, digest, outcome, session.Now());
  }

  lemma ContradictionRaises(deferred: seq<DeferredEquality>, digest: seq<byte>, outcome: Host.StepOutcome, m: Moment)
    requires deferred == [DeferredEquality(6, 7)] && digest == F128Bytes(1) + F128Bytes(0)
    requires Moves(PROGRAM, INTERPRETER_COMPAT, Moment(StartHost(deferred), StartEndpoint(0), START_ADAPTER),
                   [Service.Returned(digest)], outcome, m)
    ensures outcome == Host.Raised(Host.WriteOnceViolation)
  {
    hide PrepareBlake3, DecideBlake3, InService, Suspends, F128Of, Connected, Host.Keeps, Host.KeepsEqualities, StepLaw,
      F128Bytes, Endpoint.State.Valid, Suspension.Valid, Shows, Service.Adapter.Valid, Request.Valid, Moves;
    HashSuspends(deferred, 0);
    HalvesDiffer(digest);
    OutputsConnected(deferred);
    MovesLawfully(PROGRAM, INTERPRETER_COMPAT, Moment(StartHost(deferred), StartEndpoint(0), START_ADAPTER),
                  [Service.Returned(digest)], outcome, m);
    DigestDecides(StartHost(deferred), INTERPRETER_COMPAT, StartEndpoint(0), START_ADAPTER, HASH, digest, outcome, m.h, m.e, m.a);
  }

  lemma MovesLawfully(program: seq<Programs.Operation>, profile: Profile, m: Moment, attempts: seq<Service.Attempt>,
                      outcome: Host.StepOutcome, m': Moment)
    requires Moves(program, profile, m, attempts, outcome, m')
    ensures m.h.pc < |program| && program[m.h.pc].Valid() && m.h.txnId + 1 < U32_LIMIT && m.e.retireSeq + 1 < U32_LIMIT && m.e.Valid()
    ensures StepLaw(m.h, profile, m.e, m.a, program[m.h.pc], attempts, outcome, m'.h, m'.e, m'.a)
  {
    hide StepLaw, Host.Keeps, Host.KeepsEqualities, Endpoint.State.Valid, AllOpen;
  }

  lemma HalvesDiffer(digest: seq<byte>)
    requires digest == F128Bytes(1) + F128Bytes(0)
    ensures |digest| == 32 && F128Of(digest[..16]) == 1 && F128Of(digest[16..]) == 0
  {
    F128RoundTrip(1, digest[..16]);
    F128RoundTrip(0, digest[16..]);
    hide F128Bytes, F128Of;
    assert digest[..16] == F128Bytes(1) && digest[16..] == F128Bytes(0);
  }

  lemma OutputsConnected(deferred: seq<DeferredEquality>)
    requires deferred == [DeferredEquality(6, 7)]
    ensures Connected(deferred, 6, 7)
  {
    var chain: seq<u32> := [6, 7];
    assert Linked(deferred, 6, 7);
    assert IsChain(deferred, chain) && chain[0] == 6 && chain[|chain| - 1] == 7;
  }

  // ----- an exhausted service counter -----

  /** Near the end of its service counter the endpoint refuses with a status the host does not take
      for the fault of a step. */
  method ExhaustedCounter(digest: seq<byte>) returns (outcome: Host.StepOutcome)
    ensures outcome == Host.Raised(Host.ProtocolViolation)
  {
    var session := StartSession([], 0xFFFF_FFFE);
    outcome := session.Step([Service.Returned(digest)], 1);
    ExhaustionRaises(digest, outcome, session.Now());
  }

  lemma ExhaustionRaises(digest: seq<byte>, outcome: Host.StepOutcome, m: Moment)
    requires Moves(PROGRAM, INTERPRETER_COMPAT, Moment(StartHost([]), StartEndpoint(0xFFFF_FFFE), START_ADAPTER),
                   [Service.Returned(digest)], outcome, m)
    ensures outcome == Host.Raised(Host.ProtocolViolation)
  {
    hide PrepareBlake3, DecideBlake3, InService, Suspends, SuspensionLaw, Host.Keeps, Host.KeepsEqualities, Spent, OutOfStep,
      Endpoint.State.Valid, Service.Adapter.Valid, Request.Valid, Faithful;
    HashSuspends([], 0xFFFF_FFFE);
  }

  // ----- a last reply that makes no sense -----

  /** The endpoint's first two replies are its own; the last is an acknowledgement cut short, or the
      answer to a RETIRE that was damaged on its way. The host raises, aborts neither side, and the
      service stays outstanding. */
  method SenselessRetirement(digest: seq<byte>, retire: Host.Reply) returns (session: Session, end: Ending)
    requires |digest| == 32
    requires retire == Ok(Response(RETIRED, [])) || retire == Ok(Endpoint.FaultResponse(BAD_CRC, 0, 0))
    ensures fresh(session) && fresh(session.runtime) && fresh(session.adapter) && fresh(session.runtime.memory)
    ensures fresh(session.runtime.memory.pointers) && fresh(session.runtime.endpoint)
    ensures session.Valid() && session.adapter.maxRetries == 0
    ensures session.runtime.program == PROGRAM && session.runtime.profile == INTERPRETER_COMPAT
    ensures end.outcome == Host.Raised(Host.ProtocolViolation) && !end.aborted
    ensures session.runtime.View() == Indexed(StartHost([])) && session.adapter.View() == end.adapter
    ensures end.adapter.outstanding.Some? && end.adapter.completed == {}
    ensures end.adapter.outstanding.value.key == Service.ServiceKey(1, 1, 1, BLAKE3_COMPRESS)
  {
    session := StartSession([], 0);
    HashSuspends([], 0);
    var p := PrepareBlake3(Counted(StartHost([])), INTERPRETER_COMPAT, HASH).value;
    var replies := ModelReplies(Indexed(StartHost([])), StartEndpoint(0), START_ADAPTER, p, [Service.Returned(digest)], retire);
    end := session.StepServiceAgainst(HASH, replies, [Service.Returned(digest)]);
    LeftOutstanding(digest, retire, end, session.runtime.View());
  }

  lemma LeftOutstanding(digest: seq<byte>, retire: Host.Reply, end: Ending, h': Host.State)
    requires |digest| == 32
    requires retire == Ok(Response(RETIRED, [])) || retire == Ok(Endpoint.FaultResponse(BAD_CRC, 0, 0))
    requires PrepareBlake3(Counted(StartHost([])), INTERPRETER_COMPAT, HASH).Ok?
    requires var p := PrepareBlake3(Counted(StartHost([])), INTERPRETER_COMPAT, HASH).value;
             var replies := ModelReplies(Indexed(StartHost([])), StartEndpoint(0), START_ADAPTER, p, [Service.Returned(digest)], retire);
             IsServiceStep(StartHost([]), INTERPRETER_COMPAT, START_ADAPTER, HASH, replies, [Service.Returned(digest)], end, h')
    ensures h' == Indexed(StartHost([])) && end.outcome == Host.Raised(Host.ProtocolViolation) && !end.aborted
    ensures end.adapter.outstanding.Some? && end.adapter.completed == {}
    ensures end.adapter.outstanding.value.key == Service.ServiceKey(1, 1, 1, BLAKE3_COMPRESS)
  {
    hide PrepareBlake3, DecideBlake3, InService, Suspends, F128Of, Endpoint.Answer, Serve, Host.Prevalidate, Host.IsCommit,
      Endpoint.State.Valid, Suspension.Valid, Service.Adapter.Valid, Request.Valid, Faithful, Outstanding, DecodeResponse,
      Connected, Senseless, JudgeRequested, JudgeServed;
    var h, e := Indexed(StartHost([])), StartEndpoint(0);
    var p := PrepareBlake3(Counted(StartHost([])), INTERPRETER_COMPAT, HASH).value;
    HashSuspends([], 0);
    SuspendsWhen(e, p.request);
    var s := DecideBlake3(p.request, 1).value;
    PreparedHead(Counted(StartHost([])), INTERPRETER_COMPAT, HASH);
    PreparedDecides(Counted(StartHost([])), INTERPRETER_COMPAT, HASH, 1);
    StartInService();
    OutstandingStarts(h, INTERPRETER_COMPAT, e, START_ADAPTER, p, s);
    OutstandingParts(h, INTERPRETER_COMPAT, e, START_ADAPTER, p, s);
    FaithfulOutputs(h.cells, p.addresses, p.request, s);
    NothingConnected(s.decision.accesses[6], s.decision.accesses[7]);
    DigestBelieved(h, INTERPRETER_COMPAT, e, START_ADAPTER, p, s, digest, retire);
  }

  lemma StartInService()
    ensures InService(Indexed(StartHost([])), INTERPRETER_COMPAT, StartEndpoint(0), START_ADAPTER)
  {
  }

  lemma NothingConnected(x: u32, y: u32)
    requires x != y
    ensures !Connected([], x, y)
  {
    forall chain: seq<u32> | IsChain([], chain) ensures chain[0] == chain[|chain| - 1] {
      assert |chain| > 1 ==> Linked([], chain[0], chain[1]);
    }
  }

  lemma FaithfulOutputs(cells: Cells, addresses: seq<u32>, r: Request, s: Suspension)
    requires Faithful(cells, addresses, r, s)
    ensures |s.decision.accesses| == 8 && s.decision.accesses[6] != s.decision.accesses[7]
  {
  }

  /** The next BLAKE3 step does not free the guard when the endpoint, which still holds its result,
      answers BAD_STATE: the host raises again and the service is still outstanding. */
  method StaleSurvivesFault(digest: seq<byte>, retire: Host.Reply) returns (session: Session, end: Ending)
    requires |digest| == 32
    requires retire == Ok(Response(RETIRED, [])) || retire == Ok(Endpoint.FaultResponse(BAD_CRC, 0, 0))
    ensures end.outcome == Host.Raised(Host.ProtocolViolation) && !end.aborted
    ensures session.adapter.View().IsOutstanding(Service.ServiceKey(1, 1, 1, BLAKE3_COMPRESS))
  {
    session, end := SenselessRetirement(digest, retire);
    ghost var h, a := session.runtime.View(), session.adapter.View();
    var busy := Ok(Endpoint.FaultResponse(BAD_STATE, 2, 0));
    var replies := Replies(busy, busy, busy);
    end := session.StepAgainst(replies, [Service.Returned(digest)]);
    StaleAfterFault(h, a, replies, [Service.Returned(digest)], end, session.runtime.View());
  }

  lemma StaleAfterFault(h: Host.State, a: Service.Adapter, replies: Replies, attempts: seq<Service.Attempt>, end: Ending, h': Host.State)
    requires h.txnId == 1 && h.pc == 0 && h.fp == 0 && replies.first == Ok(Endpoint.FaultResponse(BAD_STATE, 2, 0))
    requires a.outstanding.Some? && a.outstanding.value.key == Service.ServiceKey(1, 1, 1, BLAKE3_COMPRESS) && a.completed == {}
    requires IsHostStep(h, INTERPRETER_COMPAT, a, HASH, replies, attempts, end, h')
    ensures end == Ending(Host.Raised(Host.ProtocolViolation), a, false)
  {
    hide PrepareBlake3, Request.Valid, U32Of;
    ZeroSupported();
    HashAddresses();
    HashPrepares(h);
  }

  lemma HashPrepares(h: Host.State)
    requires h.fp == 0 && h.txnId + 1 < U32_LIMIT && MetadataSupported(0)
    requires AddressAll(0, ServiceOffsets(HASH)).Ok?
    ensures PrepareBlake3(h.(txnId := h.txnId + 1), INTERPRETER_COMPAT, HASH).Ok?
  {
    hide MetadataSupported, AddressAll, Host.CellsAt;
  }

  // ----- an address the oracle never computes -----

  /** A dereference whose local cell lies beyond the address space: the oracle executes it, the host
      refuses it. */
  lemma LocalOverflowDiverges()
    ensures var op := Programs.Deref(ModePc, 0, 2, U32_MAX);
            var h := Host.State(map[1 := 1], map[], [], 0, 1, 1, 0);
            && Oracle.Step(Image(h, 0), op).Ok?
            && Host.Prepare(h, INTERPRETER_COMPAT, op) == Host.Refuse(U32_OVERFLOW)
  {
    assert GPower(0) == 1;
    assert IsLeastIndex(1, 0, INDEX_LIMIT);
    LeastIndexUnique(1, 0, INDEX_LIMIT);
    hide GPower, IsLeastIndex;
    var h := Host.State(map[1 := 1], map[], [], 0, 1, 1, 0);
    assert Oracle.OracleReverseIndex(Image(h, 0).Read(1)) == Ok(0);
    assert Host.IndexOf(h.cells[1]) == Ok(0);
  }
}
