/** The host's access counters over whole runs: every retired operation counts each address of its frame
    once for every time it names it, and nothing else moves a counter. */
module AccessCounts {
  import opened Outcomes
  import opened Bytes
  import opened Ghash
  import opened Pointers
  import opened Protocol
  import opened Wire
  import opened Requests
  import opened Results
  import opened Transitions
  import opened HostMemory
  import opened ScalarRuns
  import opened ServiceHost
  import opened ServiceSteps
  import opened ServiceRuntime
  import opened Delegation
  import Lockstep
  import Programs
  import Host
  import Endpoint
  import Service = Blake3Service

  // ----- what one request accesses -----

  /** The accesses of an accepted instruction are the addresses of its operands, in order. */
  lemma AcceptedAccesses(r: Request)
    requires r.Valid() && Endpoint.IsScalar(r) && Decide(r).Ok?
    ensures var fp := r.head.fp;
            Decide(r).value.accesses == match r
              case SetConstant(_, offset, _, _) => [fp + offset]
              case Deref(_, _, alpha, beta, gamma, _, base, _, _) => [fp + alpha, base + beta, fp + gamma]
              case _ => [fp + r.offsets[0], fp + r.offsets[1], fp + r.offsets[2]]
  {
    hide BinaryFrame, SupplyThree, FrameView.Supply, FrameView.WriteOnce, VerifyIndex, DerefEffect, FieldMul;
  }

  /** The addresses an operation touches in this state. */
  ghost predicate Touches(h: Host.State, op: Programs.Operation, addresses: seq<u32>)
    requires op.Valid()
  {
    match op
    case Set(o, _) => addresses == [h.fp + o]
    case Xor(a, b, c) => addresses == [h.fp + a, h.fp + b, h.fp + c]
    case Mul(a, b, c) => addresses == [h.fp + a, h.fp + b, h.fp + c]
    case Jump(a, b, c) => addresses == [h.fp + a, h.fp + b, h.fp + c]
    case Deref(_, alpha, beta, gamma) =>
      && |addresses| == 3 && addresses[0] == h.fp + alpha && addresses[2] == h.fp + gamma
      && addresses[0] in h.cells && addresses[1] >= beta && IsLeastIndex(h.cells[addresses[0]], addresses[1] - beta, INDEX_LIMIT)
    case Blake3(_, _, _, _) => addresses == OperandAddresses(h.fp, op)
  }

  lemma ScalarTouches(h: Host.State, profile: Profile, op: Programs.Operation)
    requires h.txnId < U32_LIMIT && op.Valid() && !op.Blake3? && Retirable(h, profile, op)
    ensures Touches(h, op, DecisionFor(h, profile, op).accesses)
  {
    hide Host.Prepare, Decide, Request.Valid, Host.CellsAt, Retirable, DecisionFor, Reverse, Inverse;
    RetirableCases(h, profile, op);
    AcceptedAccesses(Host.Prepare(h, profile, op).value.request);
    if op.Deref? {
      var base := PreparedDeref(h, profile, op);
      assert Reverse(h.cells[h.fp + op.alpha], INDEX_LIMIT) == Some(base);
    } else if op.Jump? {
      PreparedBranch(h, profile, op);
    } else if op.Set? {
      PreparedSet(h, profile, op);
    } else {
      PreparedBinary(h, profile, op);
    }
  }

  lemma PreparedSet(h: Host.State, profile: Profile, op: Programs.Operation)
    requires h.txnId < U32_LIMIT && op.Set? && Host.Prepare(h, profile, op).Ok?
    ensures var r := Host.Prepare(h, profile, op).value.request;
            h.fp + op.o <= U32_MAX && r.SetConstant? && r.offset == op.o && r.head.fp == h.fp
  {
  }

  // ----- one step -----

  /** The counters after a commit. */
  ghost predicate Counts(h: Host.State, accesses: seq<u32>, h': Host.State) {
    forall x: u32 ::
      && CountOf(h'.counts, x) == CountOf(h.counts, x) + multiset(accesses)[x]
      && (x in h'.counts <==> x in h.counts || x in accesses)
  }

  /** Against an arbitrary endpoint: a commit counts what the result lists. */
  lemma CommitCounts(h: Host.State, t: Transition, h': Host.State)
    requires Host.IsCommit(h, t, h')
    ensures Counts(h, t.accesses, h')
  {
    hide IsClosure, CountAccesses;
    forall x: u32
      ensures CountOf(h'.counts, x) == CountOf(h.counts, x) + multiset(t.accesses)[x]
      ensures x in h'.counts <==> x in h.counts || x in t.accesses
    {
      CountsAdd(h.counts, t.accesses, x);
    }
  }

  /** What a step did to the counters. */
  ghost predicate StepCounts(h: Host.State, op: Programs.Operation, outcome: Host.StepOutcome, touched: seq<u32>, h': Host.State)
    requires op.Valid()
  {
    Counts(h, touched, h') && if outcome.Retired? then Touches(h, op, touched) else touched == []
  }

  lemma NothingCounted(h: Host.State, h': Host.State)
    requires h'.counts == h.counts
    ensures Counts(h, [], h')
  {
  }

  lemma ScalarStepCounts(h: Host.State, profile: Profile, e: Endpoint.State, op: Programs.Operation,
                         outcome: Host.StepOutcome, h': Host.State, e': Endpoint.State) returns (touched: seq<u32>)
    requires Lockstep.InStep(h, profile, e) && op.Valid() && !op.Blake3? && h.txnId + 1 < U32_LIMIT && e.retireSeq + 1 < U32_LIMIT
    requires ModelStep(h, profile, e, op, outcome, h', e')
    ensures StepCounts(h, op, outcome, touched, h')
  {
    hide Lockstep.InStep, Lockstep.OutOfStep, ModelStep, Retirable, DecisionFor, Unretired, Counts, Host.IsCommit, Decide, IsLeastIndex;
    StepStaysInStep(h, profile, e, op, outcome, h', e');
    if outcome.Retired? {
      var d := DecisionFor(Counted(h), profile, op);
      touched := d.accesses;
      ScalarTouches(Counted(h), profile, op);
      CommitCounts(Indexed(h), Endpoint.TransitionOf(h.txnId + 1, d), h');
      SameCounts(Indexed(h), h, touched, h');
    } else {
      touched := [];
      NothingCounted(h, h');
    }
  }

  lemma SameCounts(h: Host.State, h0: Host.State, touched: seq<u32>, h': Host.State)
    requires Counts(h, touched, h') && h.counts == h0.counts
    ensures Counts(h0, touched, h')
  {
  }

  lemma ServiceStepCounts(h: Host.State, profile: Profile, e: Endpoint.State, a: Service.Adapter, op: Programs.Operation,
                          attempts: seq<Service.Attempt>,
                          outcome: Host.StepOutcome, h': Host.State, e': Endpoint.State, a': Service.Adapter)
    returns (touched: seq<u32>)
    requires op.Blake3? && op.Valid() && h.txnId + 1 < U32_LIMIT && e.Valid() && e.retireSeq + 1 < U32_LIMIT
    requires StepLaw(h, profile, e, a, op, attempts, outcome, h', e', a')
    ensures StepCounts(h, op, outcome, touched, h')
  {
    hide InService, Lockstep.OutOfStep, PrepareBlake3, DecideBlake3, Suspends, SuspensionLaw, Counts, Host.IsCommit, Spent,
      Suspension.Valid, Request.Valid, Service.Published, Answering, OperandAddresses, Endpoint.State.Valid;
    if outcome.Retired? {
      var p := PrepareBlake3(Counted(h), profile, op).value;
      PreparesWhen(Counted(h), profile, op);
      touched := p.addresses;
      SuspendsWhen(e, p.request);
      PreparedDecides(Counted(h), profile, op, e.serviceSeq + 1);
      var s := DecideBlake3(p.request, e.serviceSeq + 1).value;
      var t := SuspensionCommits(Indexed(h), e, a, s, attempts, outcome, h');
      CommitCounts(Indexed(h), t, h');
      SameCounts(Indexed(h), h, touched, h');
    } else {
      touched := [];
      NothingCounted(h, h');
    }
  }

  /** A retired service has committed a transition that accesses the eight addresses. */
  lemma SuspensionCommits(h: Host.State, e: Endpoint.State, a: Service.Adapter, s: Suspension, attempts: seq<Service.Attempt>,
                          outcome: Host.StepOutcome, h': Host.State) returns (t: Transition)
    requires s.Valid() && h.txnId < U32_LIMIT && e.retireSeq + 1 < U32_LIMIT
    requires SuspensionLaw(h, e, a, s, attempts, outcome, h') && outcome.Retired?
    ensures Host.IsCommit(h, t, h') && t.accesses == s.decision.accesses
  {
    hide Host.IsCommit, Suspension.Valid, Answering, Service.Published, F128Of, Collides, Lockstep.Differ, Lockstep.Connected;
    SuspensionWrites(s);
    var response := Answering(Service.Published(h.txnId, s.service, a.epoch), attempts).response;
    var x, y, v, w := s.decision.accesses[6], s.decision.accesses[7], F128Of(response.digest[..16]), F128Of(response.digest[16..]);
    t := Endpoint.TransitionOf(h.txnId, s.decision.(writes := OutputWrites(h.cells, x, v, y, w)));
  }

  // ----- whole runs -----

  function Tally(touched: seq<seq<u32>>, x: u32): nat {
    if touched == [] then 0 else Tally(touched[..|touched| - 1], x) + multiset(touched[|touched| - 1])[x]
  }

  /** Step by step, what the run touched. */
  ghost predicate Traces(program: seq<Programs.Operation>, path: seq<Moment>, outcomes: seq<Host.StepOutcome>, touched: seq<seq<u32>>) {
    && |path| == |outcomes| + 1 && |touched| == |outcomes|
    && forall i :: 0 <= i < |outcomes| ==>
         && path[i].h.pc < |program| && program[path[i].h.pc].Valid()
         && StepCounts(path[i].h, program[path[i].h.pc], outcomes[i], touched[i], path[i + 1].h)
  }

  /** Over a whole run of a session every counter grows by the number of times the retired operations
      touched its address. */
  lemma {:induction false} RunCounts(program: seq<Programs.Operation>, profile: Profile, attempts: seq<seq<Service.Attempt>>,
                                     path: seq<Moment>, outcomes: seq<Host.StepOutcome>) returns (touched: seq<seq<u32>>)
    requires IsPath(program, profile, attempts, path, outcomes)
    ensures Traces(program, path, outcomes, touched)
    ensures forall x: u32 :: CountOf(path[|outcomes|].h.counts, x) == CountOf(path[0].h.counts, x) + Tally(touched, x)
    decreases |outcomes|
  {
    hide Moves, StepCounts;
    if outcomes == [] {
      touched := [];
    } else {
      var n := |outcomes| - 1;
      var before := RunCounts(program, profile, attempts, path[..n + 1], outcomes[..n]);
      assert path[..n + 1][n] == path[n];
      assert Moves(program, profile, path[n], attempts[n], outcomes[n], path[n + 1]);
      var last := MoveCounts(program, profile, path[n], attempts[n], outcomes[n], path[n + 1]);
      touched := before + [last];
      assert touched[..n] == before;
      StepAdds(path[n].h, program[path[n].h.pc], outcomes[n], last, path[n + 1].h);
    }
  }

  lemma StepAdds(h: Host.State, op: Programs.Operation, outcome: Host.StepOutcome, touched: seq<u32>, h': Host.State)
    requires op.Valid() && StepCounts(h, op, outcome, touched, h')
    ensures forall x: u32 :: CountOf(h'.counts, x) == CountOf(h.counts, x) + multiset(touched)[x]
  {
    hide Touches;
  }

  lemma MoveCounts(program: seq<Programs.Operation>, profile: Profile, m: Moment, attempts: seq<Service.Attempt>,
                   outcome: Host.StepOutcome, m': Moment) returns (touched: seq<u32>)
    requires Moves(program, profile, m, attempts, outcome, m')
    ensures m.h.pc < |program| && program[m.h.pc].Valid() && StepCounts(m.h, program[m.h.pc], outcome, touched, m'.h)
  {
    hide InService, StepLaw, StepCounts, Host.Keeps, Host.KeepsEqualities, Endpoint.State.Valid;
    InServiceParts(m.h, profile, m.e, m.a);
    var op := program[m.h.pc];
    if op.Blake3? {
      touched := ServiceStepCounts(m.h, profile, m.e, m.a, op, attempts, outcome, m'.h, m'.e, m'.a);
    } else {
      LawIsModelStep(m.h, profile, m.e, m.a, op, attempts, outcome, m'.h, m'.e, m'.a);
      touched := ScalarStepCounts(m.h, profile, m.e, op, outcome, m'.h, m'.e);
    }
  }

  lemma LawIsModelStep(h: Host.State, profile: Profile, e: Endpoint.State, a: Service.Adapter, op: Programs.Operation,
                       attempts: seq<Service.Attempt>,
                       outcome: Host.StepOutcome, h': Host.State, e': Endpoint.State, a': Service.Adapter)
    requires !op.Blake3? && h.txnId + 1 < U32_LIMIT && e.Valid() && e.retireSeq + 1 < U32_LIMIT
    requires StepLaw(h, profile, e, a, op, attempts, outcome, h', e', a')
    ensures ModelStep(h, profile, e, op, outcome, h', e')
  {
    hide ModelStep, Endpoint.State.Valid;
  }
}
