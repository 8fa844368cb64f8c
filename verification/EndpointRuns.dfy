/** Safety of the endpoint over whole runs: arbitrary inputs at every edge, with
    abort and reset. A monitor beside the endpoint records the response bytes that
    have left the lane, the transitions decided and the service ids issued. */
module EndpointRuns {
  import opened Outcomes
  import opened Bytes
  import opened Protocol
  import opened Requests
  import opened Frames
  import opened Transitions
  import opened Endpoint

  datatype Monitor = Monitor(
    e: State,
    delivered: seq<byte>,   // response bytes that left since the staged transaction last changed
    decided: nat,           // transitions decided since the last reset
    issued: seq<u32>        // service ids issued since the last reset
  )

  const START: Monitor := Monitor(POWER_ON, [], 0, [])

  /** The bytes that leave the lane at this edge. */
  function Leaving(e: State, i: Input): seq<byte> {
    if RecordOf(e, i).txCommitted then [e.tx[0]] else []
  }

  function Observe(m: Monitor, i: Input): Monitor
    requires m.e.Valid()
  {
    var e' := Step(m.e, i);
    if !i.resetN then START
    else if e'.staged == m.e.staged then m.(e := e', delivered := m.delivered + Leaving(m.e, i))
    else match e'.staged
      case None => m.(e := e', delivered := [])
      case Some(Decided(_, _, _)) => m.(e := e', delivered := [], decided := m.decided + 1)
      case Some(Suspended(_, s)) => m.(e := e', delivered := [], issued := m.issued + [s.service.serviceId])
  }

  function ResultFrame(txnId: u32, d: Decision): seq<byte>
    requires d.Small()
  {
    ResultPayloadShort(txnId, d);
    EncodeResponse(Response(OK, ResultPayload(txnId, d)))
  }

  predicate Increasing(ids: seq<u32>) {
    forall i, j :: 0 <= i < j < |ids| ==> ids[i] < ids[j]
  }

  ghost predicate Sound(m: Monitor) {
    && m.e.Valid()
    && Increasing(m.issued)
    && (forall id :: id in m.issued ==> id <= m.e.serviceSeq)
    && match m.e.staged
       case None => m.e.retireSeq <= m.decided
       case Some(Suspended(_, s)) =>
         m.e.retireSeq <= m.decided && m.issued != [] && m.issued[|m.issued| - 1] == s.service.serviceId
       case Some(Decided(txnId, d, _)) =>
         m.e.retireSeq < m.decided && ResultFrame(txnId, d) <= m.delivered + m.e.tx
  }

  // ----- how one edge changes what is staged -----

  /** What was staged stays, is dropped, or is superseded in the only two ways the
      protocol has: a fresh transaction from IDLE, or a suspended one decided. */
  predicate StagingAllowed(e: State, e': State)
    requires e.Valid() && e'.Valid()
  {
    || e'.staged == e.staged
    || e'.staged == None
    || (e'.staged.value.Decided?
        && (e.staged == None || e.staged.value.Suspended?)
        && e'.tx == e.tx + ResultFrame(e'.staged.value.txnId, e'.staged.value.decision))
    || (e'.staged.value.Suspended?
        && e.staged == None
        && e'.serviceSeq == e.serviceSeq + 1 == e'.staged.value.suspension.service.serviceId)
  }

  /** The service counter moves only when a service is issued. */
  predicate SequenceAllowed(e: State, e': State) {
    e'.serviceSeq == e.serviceSeq || (e'.staged != e.staged && e'.serviceSeq == e.serviceSeq + 1)
  }

  lemma AnswerStaging(e: State, r: Request)
    requires e.Valid() && e.rx == [] && r.Valid()
    ensures Answer(e, r).Valid()
    ensures StagingAllowed(e, Answer(e, r)) && SequenceAllowed(e, Answer(e, r))
    ensures Answer(e, r).staged.Some? && Answer(e, r).staged.value.Suspended? && Answer(e, r).staged != e.staged ==>
              Answer(e, r).serviceSeq == e.serviceSeq + 1
  {
    AnswerKeepsValid(e, r);
    if r.ServiceResponse? {
      ResponseStaging(e, r);
    } else if IsScalar(r) || r.Blake3? {
      InstructionStaging(e, r);
    } else {
      ControlStaging(e, r);
    }
  }

  lemma ControlStaging(e: State, r: Request)
    requires e.Valid() && r.Valid() && (r.Negotiate? || r.StatusQuery? || r.Retire?)
    ensures Answer(e, r).serviceSeq == e.serviceSeq
    ensures Answer(e, r).staged == e.staged || Answer(e, r).staged == None
  {
    hide HandleServiceResponse, HandleInstruction, EncodeResponse, StatusPayload, NegotiatePayload, RetiredPayload;
  }

  lemma ResponseStaging(e: State, r: Request)
    requires e.Valid() && r.ServiceResponse? && Answer(e, r).Valid()
    ensures StagingAllowed(e, Answer(e, r)) && SequenceAllowed(e, Answer(e, r))
    ensures Answer(e, r).staged.Some? && Answer(e, r).staged.value.Suspended? ==> Answer(e, r).staged == e.staged
  {
    hide EncodeResponse, ResultPayload, Resume;
  }

  lemma InstructionStaging(e: State, r: Request)
    requires e.Valid() && r.Valid() && (IsScalar(r) || r.Blake3?) && Answer(e, r).Valid()
    ensures StagingAllowed(e, Answer(e, r)) && SequenceAllowed(e, Answer(e, r))
    ensures Answer(e, r).staged.Some? && Answer(e, r).staged.value.Suspended? && Answer(e, r).staged != e.staged ==>
              Answer(e, r).serviceSeq == e.serviceSeq + 1
  {
    hide EncodeResponse, ResultPayload, Decide, DecideBlake3, ServicePayload;
  }

  lemma StepStaging(e: State, i: Input)
    requires e.Valid() && i.resetN
    ensures Step(e, i).Valid()
    ensures StagingAllowed(e, Step(e, i)) && SequenceAllowed(e, Step(e, i))
    ensures Step(e, i).staged != e.staged ==> i.abort || e.tx == []
  {
    StepKeepsValid(e, i);
    if Accepting(e, i) {
      AcceptStaging(e.(done := false), i.rxData);
    }
    hide Accept, State.Valid, ResultFrame;
  }

  lemma AcceptStaging(e: State, b: byte)
    requires e.Valid() && e.tx == []
    ensures Accept(e, b).Valid()
    ensures StagingAllowed(e, Accept(e, b)) && SequenceAllowed(e, Accept(e, b))
  {
    AcceptKeepsValid(e, b);
    AcceptCases(e, b);
    hide Accept, Inspect, Answer, ResultFrame, State.Valid, EncodeResponse;
    if CompletesFrame(e) {
      match Inspect(e.rx + [b])
      case BadFrame(_, _, _) =>
      case GoodRequest(r) => AnswerStaging(Cleared(e), r);
    }
  }

  // ----- every run is sound -----

  lemma ObserveKeepsSound(m: Monitor, i: Input)
    requires Sound(m)
    ensures Sound(Observe(m, i))
  {
    if i.resetN {
      StepStaging(m.e, i);
      StepCommits(m.e, i);
      hide Step, State.Valid, ResultFrame, CompletesRetire, Increasing, EncodeResponse, ResultPayload, State.GetPins;
      var e' := Step(m.e, i);
      if e'.staged == m.e.staged {
        if m.e.staged.Some? {
          LeavingKeepsFrame(m, i);
        }
        QuietKeepsSound(m, e', Leaving(m.e, i));
      } else {
        StagingKeepsSound(m, e');
      }
    }
  }

  /** The edges that leave what is staged alone. */
  lemma QuietKeepsSound(m: Monitor, e': State, leaving: seq<byte>)
    requires Sound(m) && e'.Valid() && e'.staged == m.e.staged
    requires SequenceAllowed(m.e, e') && (e'.Committed() == m.e.Committed() || Retires(m.e, e'))
    requires m.e.staged.Some? ==> m.delivered + m.e.tx <= m.delivered + leaving + e'.tx
    ensures Sound(m.(e := e', delivered := m.delivered + leaving))
  {
    hide State.Valid, ResultFrame;
  }

  /** The edges that change what is staged. */
  lemma StagingKeepsSound(m: Monitor, e': State)
    requires Sound(m) && e'.Valid() && e'.staged != m.e.staged
    requires StagingAllowed(m.e, e') && SequenceAllowed(m.e, e')
    requires e'.Committed() == m.e.Committed() || Retires(m.e, e')
    requires e'.staged.Some? ==> m.e.tx == []
    ensures e'.staged == None ==> Sound(m.(e := e', delivered := []))
    ensures e'.staged.Some? && e'.staged.value.Decided? ==> Sound(m.(e := e', delivered := [], decided := m.decided + 1))
    ensures e'.staged.Some? && e'.staged.value.Suspended? ==>
      Sound(m.(e := e', delivered := [], issued := m.issued + [e'.staged.value.suspension.service.serviceId]))
  {
    hide State.Valid, ResultFrame;
    if e'.staged.Some? && e'.staged.value.Suspended? {
      var id := e'.staged.value.suspension.service.serviceId;
      var issued := m.issued + [id];
      assert issued[|issued| - 1] == id;
      forall i, j | 0 <= i < j < |issued|
        ensures issued[i] < issued[j]
      {
        assert m.issued[i] in m.issued;
      }
    }
  }

  /** While a result stays staged, the bytes that left and the bytes still pending only grow. */
  lemma LeavingKeepsFrame(m: Monitor, i: Input)
    requires m.e.Valid() && i.resetN && Step(m.e, i).staged == m.e.staged
    requires m.e.staged.Some?
    ensures m.delivered + m.e.tx <= m.delivered + Leaving(m.e, i) + Step(m.e, i).tx
  {
    hide Accept, State.Valid;
    if m.e.tx != [] {
      assert m.e.tx == [m.e.tx[0]] + m.e.tx[1..];
    }
  }

  function Run(m: Monitor, inputs: seq<Input>): Monitor
    requires Sound(m)
    decreases |inputs|
  {
    if inputs == [] then m else
    ObserveKeepsSound(m, inputs[0]);
    Run(Observe(m, inputs[0]), inputs[1..])
  }

  lemma {:induction false} RunKeepsSound(m: Monitor, inputs: seq<Input>)
    requires Sound(m)
    ensures Sound(Run(m, inputs))
    decreases |inputs|
  {
    if inputs != [] {
      ObserveKeepsSound(m, inputs[0]);
      RunKeepsSound(Observe(m, inputs[0]), inputs[1..]);
    }
  }

  // ----- what soundness gives -----

  /** Exactly-once commitment. After any history, the committed state moves without a
      reset only at an edge that accepts the last byte of a RETIRE matching the staged
      transaction, with every byte of that transaction's result frame already delivered. */
  lemma CommitsAfterDelivery(inputs: seq<Input>, i: Input)
    requires i.resetN
    ensures var m := Run(START, inputs);
            m.e.Valid() && Step(m.e, i).Valid() &&
            (Step(m.e, i).Committed() != m.e.Committed() ==>
              && Accepting(m.e, i) && CompletesRetire(m.e, i.rxData)
              && Retires(m.e, Step(m.e, i))
              && ResultFrame(m.e.staged.value.txnId, m.e.staged.value.decision) <= m.delivered)
  {
    RunKeepsSound(START, inputs);
    var m := Run(START, inputs);
    StepCommits(m.e, i);
    StepKeepsValid(m.e, i);
    hide Step, CompletesRetire, ResultFrame, Run, State.Valid;
    assert m.delivered + [] == m.delivered;
  }

  /** Between resets, retirements never outnumber decisions, and service ids strictly increase. */
  lemma RunsAreSound(inputs: seq<Input>)
    ensures var m := Run(START, inputs); m.e.Valid() && m.e.retireSeq <= m.decided && Increasing(m.issued)
  {
    RunKeepsSound(START, inputs);
  }

  /** A digest for any service but the outstanding one leaves the transaction suspended. */
  lemma StaleResponseIgnored(e: State, r: Request)
    requires e.Valid() && r.ServiceResponse?
    requires e.staged.Some? && e.staged.value.Suspended?
    requires (r.txnId, r.serviceId) != (e.staged.value.txnId, e.staged.value.suspension.service.serviceId)
    ensures Answer(e, r) == EmitFault(e, BAD_SERVICE, r.txnId, 1)
    ensures Answer(e, r).staged == e.staged && Answer(e, r).phase == SERVICE_PENDING
  {
    hide EncodeResponse, Resume, ResultPayload;
  }

  /** A second RETIRE finds nothing to retire. */
  lemma SecondRetireRefused(e: State, e': State, r: Request)
    requires e'.Valid() && r.Retire? && Retires(e, e')
    ensures Answer(e', r) == EmitFault(e', BAD_STATE, r.txnId, 0)
  {
    hide EncodeResponse;
  }
}
