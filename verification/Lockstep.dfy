/** The host against the endpoint it was written for: every scalar step, from the
    prepared request to the commit, and what the two hold between steps. */
module Lockstep {
  import opened Outcomes
  import opened Bytes
  import opened Crc32
  import opened Ghash
  import opened Protocol
  import opened Wire
  import opened Requests
  import opened Frames
  import opened Results
  import opened Transitions
  import opened HostMemory
  import opened Refinement
  import Host
  import Endpoint

  /** What holds between steps: the endpoint is idle and drained, agrees with the host on
      the scalar state, and every deferred equality is between two absent cells. */
  ghost predicate InStep(h: Host.State, profile: Profile, e: Endpoint.State) {
    && e.Valid() && e.staged == None && e.rx == [] && e.tx == [] && !e.done
    && e.profile == profile
    && (e.stateValid ==> e.committedPc == h.pc && e.committedFp == h.fp)
    && AllOpen(h.cells, h.deferred)
  }

  ghost predicate AllOpen(cells: Cells, pairs: seq<DeferredEquality>) {
    forall p :: p in pairs ==> IsOpen(cells, p)
  }

  // ----- one write into a memory whose deferred pairs are all open -----

  /** A cell that starts a chain of two or more is in some pair, so it was open before the write. */
  lemma ChainStart(cells: Cells, pairs: seq<DeferredEquality>, more: Cells, chain: seq<u32>, x: u32, y: u32, v: F128, value: F128)
    requires AllOpen(cells, pairs) && x !in cells && more == cells[x := v]
    requires Carries(more, pairs, chain, y, value)
    ensures y in more && |chain| == 1 ==> more[y] == value
    ensures |chain| > 1 ==> value == v && (y in more ==> y == x)
  {
    if |chain| > 1 {
      var n := |chain|;
      assert Linked(pairs, chain[0], chain[1]);
      assert Linked(pairs, chain[n - 2], chain[n - 1]);
    }
  }

  /** So one write, or one new open pair, cannot contradict anything. */
  lemma OneWriteConsistent(cells: Cells, pairs: seq<DeferredEquality>, x: u32, v: F128)
    requires AllOpen(cells, pairs) && x !in cells
    ensures Consistent(cells[x := v], pairs)
  {
    var more := cells[x := v];
    forall y: u32, p: F128, q: F128 | Implied(more, pairs, y, p) && Implied(more, pairs, y, q)
      ensures p == q
    {
      var c1 :| Carries(more, pairs, c1, y, p);
      var c2 :| Carries(more, pairs, c2, y, q);
      ChainStart(cells, pairs, more, c1, x, y, v, p);
      ChainStart(cells, pairs, more, c2, x, y, v, q);
    }
  }

  // ----- two writes into such a memory -----

  /** A chain of deferred equalities joins the two cells. */
  ghost predicate Connected(pairs: seq<DeferredEquality>, x: u32, y: u32) {
    exists chain :: IsChain(pairs, chain) && chain[0] == x && chain[|chain| - 1] == y
  }

  /** Two chains that end at one cell join the cells they start from. */
  lemma ChainsJoin(pairs: seq<DeferredEquality>, c: seq<u32>, d: seq<u32>)
    requires IsChain(pairs, c) && IsChain(pairs, d) && c[|c| - 1] == d[|d| - 1]
    ensures Connected(pairs, c[0], d[0])
  {
    var m, n := |c|, |d|;
    var joined := seq(m + n - 1, i requires 0 <= i < m + n - 1 => if i < m then c[i] else d[m + n - 2 - i]);
    forall i | 0 < i < m + n - 1 ensures Linked(pairs, joined[i - 1], joined[i]) {
      if i < m {
        assert Linked(pairs, c[i - 1], c[i]);
      } else {
        assert Linked(pairs, d[m + n - 2 - i], d[m + n - 1 - i]);
      }
    }
    assert IsChain(pairs, joined) && joined[0] == c[0] && joined[m + n - 2] == d[0];
  }

  /** Where a chain that reaches a cell may start, once two open cells are written. */
  lemma ChainStarts(cells: Cells, pairs: seq<DeferredEquality>, more: Cells, chain: seq<u32>, x: u32, y: u32, z: u32, value: F128)
    requires AllOpen(cells, pairs) && more.Keys <= cells.Keys + {x, y} && Carries(more, pairs, chain, z, value)
    ensures |chain| > 1 ==> chain[0] !in cells && chain[0] in {x, y} && z !in cells
    ensures |chain| == 1 ==> chain[0] == z
  {
    if |chain| > 1 {
      var n := |chain|;
      assert Linked(pairs, chain[0], chain[1]);
      assert Linked(pairs, chain[n - 2], chain[n - 1]);
    }
  }

  /** Two writes contradict the deferred equalities exactly when both cells were absent, a chain of
      equalities joins them, and the values differ. */
  predicate Differ(cells: Cells, x: u32, v: F128, y: u32, w: F128) {
    x !in cells && y !in cells && v != w
  }

  lemma TwoWritesConsistent(cells: Cells, pairs: seq<DeferredEquality>, x: u32, v: F128, y: u32, w: F128)
    requires AllOpen(cells, pairs) && x != y
    requires (x in cells ==> cells[x] == v) && (y in cells ==> cells[y] == w)
    ensures Consistent(cells[x := v][y := w], pairs) <==> !(Differ(cells, x, v, y, w) && Connected(pairs, x, y))
  {
    var more := cells[x := v][y := w];
    if Differ(cells, x, v, y, w) && Connected(pairs, x, y) {
      var chain :| IsChain(pairs, chain) && chain[0] == x && chain[|chain| - 1] == y;
      assert Carries(more, pairs, chain, y, v) && Carries(more, pairs, [y], y, w);
      assert Implied(more, pairs, y, v) && Implied(more, pairs, y, w);
    } else {
      forall z: u32, p: F128, q: F128 | Implied(more, pairs, z, p) && Implied(more, pairs, z, q)
        ensures p == q
      {
        var c :| Carries(more, pairs, c, z, p);
        var d :| Carries(more, pairs, d, z, q);
        ChainStarts(cells, pairs, more, c, x, y, z, p);
        ChainStarts(cells, pairs, more, d, x, y, z, q);
        ChainsJoin(pairs, c, d);
        ChainsJoin(pairs, d, c);
      }
    }
  }

  lemma OpenIsConsistent(cells: Cells, pairs: seq<DeferredEquality>)
    requires AllOpen(cells, pairs)
    ensures Consistent(cells, pairs) && IsClosure(cells, pairs, cells)
  {
    forall x | x in cells ensures Implied(cells, pairs, x, cells[x]) {
      ImpliedHere(cells, pairs, x);
    }
    FixpointIsClosure(cells, pairs, cells);
  }

  /** A fitting decision always passes prevalidation. */
  lemma FittingPrevalidates(h: Host.State, addresses: seq<u32>, d: Decision)
    requires AllOpen(h.cells, h.deferred) && Committable(h.cells, addresses, d) && h.txnId < U32_LIMIT
    requires d.Small()
    ensures Host.Prevalidate(h, addresses, Endpoint.ResultPayload(h.txnId, d)) == Ok(Endpoint.TransitionOf(h.txnId, d))
  {
    var t := Endpoint.TransitionOf(h.txnId, d);
    TransitionRoundTrip(t);
    FittingChecks(h.cells, addresses, d, t);
    FittingConsistent(h, addresses, d);
    hide EncodeTransition, DecodeTransition, Consistent, Host.CheckWrites, Host.WithinFrame, Committable, AllOpen;
  }

  lemma FittingChecks(cells: Cells, addresses: seq<u32>, d: Decision, t: Transition)
    requires Committable(cells, addresses, d)
    requires t.writes == d.writes && t.deferred == d.deferred && t.accesses == d.accesses
    ensures Host.CheckWrites(cells, map[], t.writes) == None && Host.WithinFrame(addresses, t)
  {
    assert forall w :: w in d.writes ==> w == d.writes[0];
    assert forall q :: q in d.deferred ==> q == d.deferred[0];
    if d.writes != [] {
      var proposed: Cells := map[];
      assert Host.CheckWrites(cells, proposed[d.writes[0].address := d.writes[0].value], d.writes[1..]) == None;
    }
  }

  lemma FittingConsistent(h: Host.State, addresses: seq<u32>, d: Decision)
    requires AllOpen(h.cells, h.deferred) && Committable(h.cells, addresses, d)
    ensures Consistent(ApplyWrites(h.cells, d.writes), h.deferred + d.deferred)
  {
    hide Consistent;
    if d.writes == [] {
      assert AllOpen(h.cells, h.deferred + d.deferred);
      OpenIsConsistent(h.cells, h.deferred + d.deferred);
    } else {
      var w := d.writes[0];
      assert d.writes == [w];
      OneWriteConsistent(h.cells, h.deferred, w.address, w.value);
      ApplyOne(h.cells, w.address, w.value);
      assert h.deferred + d.deferred == h.deferred;
    }
  }

  // ----- what the endpoint answers -----

  /** The reply the host decodes off the lane. */
  function ReplyOf(e: Endpoint.State): Host.Reply {
    DecodeResponse(e.tx)
  }

  lemma FaultReply(e: Endpoint.State, status: Status, txnId: u32, detail: byte)
    requires e.tx == []
    ensures ReplyOf(Endpoint.EmitFault(e, status, txnId, detail)) == Ok(Endpoint.FaultResponse(status, txnId, detail))
    ensures U32Of(Endpoint.FaultResponse(status, txnId, detail).payload[..4]) == txnId
  {
    hide DecodeResponse, EncodeResponse, U32Of;
    var r := Endpoint.FaultResponse(status, txnId, detail);
    ResponseRoundTrip(r);
    assert [] + EncodeResponse(r) == EncodeResponse(r);
    U32RoundTrip(txnId, []);
    hide U32Bytes;
    assert r.payload[..4] == U32Bytes(txnId);
  }

  /** The answers that would mean host and endpoint had lost track of each other. */
  predicate OutOfStep(s: Status) {
    s in {BAD_STATE, BAD_PROFILE, STATE_MISMATCH}
  }

  /** A refusal that reports on the transition, not on the frame that asked for it. */
  predicate Refuses<T>(r: Checked<T>) {
    r.Err? && r.error.status.IsFault() && !Host.FrameOnlyFault(r.error.status) && !OutOfStep(r.error.status)
  }

  /** A refused decision is never one of the rejections that decide nothing. */
  lemma DecideFaults(r: Request)
    requires r.Valid() && Endpoint.IsScalar(r)
    ensures Decide(r).Ok? || Refuses(Decide(r))
  {
    match r
    case Xor(h, offsets, cells) => BinaryFaults(OpXor, h, offsets, cells, ABSENT);
    case Mul(h, offsets, cells, inverse) => BinaryFaults(OpMul, h, offsets, cells, inverse);
    case SetConstant(h, offset, constant, cell) =>
    case Deref(mode, h, alpha, beta, gamma, pointer, base, target, local) =>
      DerefFaults(mode, h, alpha, beta, gamma, pointer, base, target, local);
    case Jump(h, offsets, cells, taken, destPc, destFp, inverse) =>
      JumpFaults(h, offsets, cells, taken, destPc, destFp, inverse);
  }

  lemma BackSolveFaults(op: Operation, profile: Profile, f: FrameView, a: u32, b: u32, c: u32, inverse: Cell)
    requires a in f.cells && b in f.cells && c in f.cells
    ensures var r := BackSolve(op, profile, f, a, b, c, inverse); r.Ok? || Refuses(r)
  {
    hide FieldMul, Add;
  }

  lemma SupplyFaults(addresses: seq<u32>, cells: seq<Cell>)
    requires |addresses| == 3 && |cells| == 3
    ensures var r := SupplyThree(addresses, cells); r.Ok? || Refuses(r)
  {
  }

  lemma FrameFaults(op: Operation, profile: Profile, addresses: seq<u32>, cells: seq<Cell>, inverse: Cell)
    requires |addresses| == 3 && |cells| == 3
    ensures var r := BinaryFrame(op, profile, addresses, cells, inverse); r.Ok? || Refuses(r)
  {
    hide FieldMul, Add, BackSolve, SupplyThree;
    SupplyFaults(addresses, cells);
    if SupplyThree(addresses, cells).Ok? {
      BackSolveFaults(op, profile, SupplyThree(addresses, cells).value, addresses[0], addresses[1], addresses[2], inverse);
    }
  }

  lemma BinaryFaults(op: Operation, h: Preamble, offsets: seq<u32>, cells: seq<Cell>, inverse: Cell)
    requires |offsets| == 3 && |cells| == 3
    ensures var d := DecideBinary(op, h, offsets, cells, inverse); d.Ok? || Refuses(d)
  {
    hide BinaryFrame;
    if Addresses(h.fp, offsets).Ok? {
      FrameFaults(op, h.profile, Addresses(h.fp, offsets).value, cells, inverse);
    }
  }

  lemma EffectFaults(mode: DerefMode, head: Preamble, f: FrameView, target: u32, local: u32)
    requires target in f.cells && local in f.cells
    ensures var r := DerefEffect(mode, head, f, target, local); r.Ok? || Refuses(r)
  {
    hide GPower;
  }

  lemma DerefFaults(mode: DerefMode, h: Preamble, alpha: u32, beta: u32, gamma: u32,
                    pointer: Cell, base: u32, target: Cell, local: Cell)
    ensures var d := DecideDeref(mode, h, alpha, beta, gamma, pointer, base, target, local); d.Ok? || Refuses(d)
  {
    hide GPower, DerefEffect;
    forall f: FrameView, t: u32, l: u32 | t in f.cells && l in f.cells
      ensures var r := DerefEffect(mode, h, f, t, l); r.Ok? || Refuses(r)
    {
      EffectFaults(mode, h, f, t, l);
    }
  }

  lemma JumpFaults(h: Preamble, offsets: seq<u32>, cells: seq<Cell>, taken: bool, destPc: u32, destFp: u32, inverse: Cell)
    requires |offsets| == 3 && |cells| == 3
    ensures var d := DecideJump(h, offsets, cells, taken, destPc, destFp, inverse); d.Ok? || Refuses(d)
  {
    hide GPower, FieldMul;
  }

  /** The three steps of a refused instruction. */
  lemma RefusedInStep(h: Host.State, profile: Profile, e: Endpoint.State, addresses: seq<u32>, r: Request)
    requires InStep(h, profile, e) && r.Valid() && Endpoint.IsScalar(r)
    requires r.head.txnId == h.txnId
    requires Endpoint.HandleInstruction(e, r).fault.Some?
    requires Endpoint.Guard(e, r.head) == None || Endpoint.Guard(e, r.head) == Some(Fault(INDEX_RANGE, 0))
    ensures var e1 := Endpoint.Answer(e, r);
            && Host.Judge(h, addresses, ReplyOf(e1)).Err?
            && Host.Judge(h, addresses, ReplyOf(e1)).error == Host.Faulted(Endpoint.HandleInstruction(e, r).fault.value.status)
            && !OutOfStep(Host.Judge(h, addresses, ReplyOf(e1)).error.status)
            && InStep(h, profile, Endpoint.Drained(e1))
  {
    hide DecodeResponse, EncodeResponse, Endpoint.HandleInstruction, Endpoint.Guard, Endpoint.Answer, InStep, U32Of,
      Host.FrameOnlyFault, Decide, OutOfStep, Request.Valid, Endpoint.State.Valid;
    InStepParts(h, profile, e);
    RefusedFault(e, r);
    var fault := Endpoint.HandleInstruction(e, r).fault.value;
    FaultAnswer(e, r, fault);
    FaultReply(e, fault.status, r.head.txnId, fault.detail);
    AnsweredInStep(h, profile, e, fault.status);
  }

  lemma FaultAnswer(e: Endpoint.State, r: Request, fault: Fault)
    requires e.Valid() && r.Valid() && Endpoint.IsScalar(r)
    requires Endpoint.HandleInstruction(e, r) == Endpoint.Handled(e, Some(fault))
    ensures Endpoint.Answer(e, r) == Endpoint.EmitFault(e, fault.status, r.head.txnId, fault.detail)
  {
    hide Endpoint.HandleInstruction, Endpoint.EmitFault;
  }

  /** The status registers do not matter to being in step. */
  lemma AnsweredInStep(h: Host.State, profile: Profile, e: Endpoint.State, status: Status)
    requires InStep(h, profile, e)
    ensures InStep(h, profile, e.(lastStatus := status, lastFault := status, tx := [], done := false))
  {
    hide AllOpen;
  }

  lemma RefusedFault(e: Endpoint.State, r: Request)
    requires r.Valid() && Endpoint.IsScalar(r)
    requires Endpoint.HandleInstruction(e, r).fault.Some?
    requires Endpoint.Guard(e, r.head) == None || Endpoint.Guard(e, r.head) == Some(Fault(INDEX_RANGE, 0))
    ensures var h := Endpoint.HandleInstruction(e, r);
            && h.state == e && h.fault.value.status.IsFault()
            && !Host.FrameOnlyFault(h.fault.value.status) && !OutOfStep(h.fault.value.status)
  {
    hide Decide, Endpoint.Finish, Endpoint.Guard, Request.Valid;
    DecideFaults(r);
  }

  /** The guard of a request prepared in step can only object to the index window. */
  lemma GuardInStep(h: Host.State, profile: Profile, e: Endpoint.State, head: Preamble)
    requires InStep(h, profile, e) && head.pc == h.pc && head.fp == h.fp && head.profile == profile
    ensures Endpoint.Guard(e, head) == if h.pc < INDEX_LIMIT && h.fp < INDEX_LIMIT then None else Some(Fault(INDEX_RANGE, 0))
  {
    hide Endpoint.State.ReceiveValid, AllOpen;
  }

  lemma FinishReply(e: Endpoint.State, txnId: u32, d: Decision)
    requires e.tx == [] && d.Small()
    ensures ReplyOf(Endpoint.Finish(e, txnId, d)) == Ok(Response(OK, Endpoint.ResultPayload(txnId, d)))
  {
    Endpoint.ResultPayloadShort(txnId, d);
    var r := Response(OK, Endpoint.ResultPayload(txnId, d));
    ResponseRoundTrip(r);
    hide DecodeResponse, EncodeResponse, Endpoint.ResultPayload;
    assert [] + EncodeResponse(r) == EncodeResponse(r);
  }

  lemma RetiredReply(e: Endpoint.State, txnId: u32, retireSeq: u32, pc: u32, fp: u32)
    requires e.tx == []
    ensures var payload := Endpoint.RetiredPayload(txnId, retireSeq, pc, fp);
            && ReplyOf(Endpoint.Emit(e, Response(RETIRED, payload))) == Ok(Response(RETIRED, payload))
            && U32Of(payload[..4]) == txnId && U32Of(payload[4..8]) == retireSeq
            && U32Of(payload[8..12]) == pc && U32Of(payload[12..16]) == fp
  {
    var payload := Endpoint.RetiredPayload(txnId, retireSeq, pc, fp);
    var r := Response(RETIRED, payload);
    ResponseRoundTrip(r);
    FourWords(txnId, retireSeq, pc, fp);
    hide DecodeResponse, EncodeResponse, U32Of, U32Bytes;
    assert [] + EncodeResponse(r) == EncodeResponse(r);
  }

  lemma FourWords(a: u32, b: u32, c: u32, d: u32)
    ensures var p := U32Bytes(a) + U32Bytes(b) + U32Bytes(c) + U32Bytes(d);
            && |p| == 16 && U32Of(p[..4]) == a && U32Of(p[4..8]) == b && U32Of(p[8..12]) == c && U32Of(p[12..16]) == d
  {
    U32RoundTrip(a, []);
    U32RoundTrip(b, []);
    U32RoundTrip(c, []);
    U32RoundTrip(d, []);
    hide U32Of, U32Bytes;
    var p := U32Bytes(a) + U32Bytes(b) + U32Bytes(c) + U32Bytes(d);
    assert p[..4] == U32Bytes(a) && p[4..8] == U32Bytes(b) && p[8..12] == U32Bytes(c) && p[12..16] == U32Bytes(d);
  }

  /** An accepted instruction: the host believes the result, and the retirement it sends commits it. */
  lemma AcceptedInStep(h: Host.State, profile: Profile, e: Endpoint.State, addresses: seq<u32>, r: Request, d: Decision)
    requires e.Valid() && r.Valid() && Endpoint.IsScalar(r) && d.Small() && InStep(h, profile, e)
    requires r.head.txnId == h.txnId && Endpoint.Guard(e, r.head) == None && Decide(r) == Ok(d)
    requires Committable(h.cells, addresses, d) && e.retireSeq + 1 < U32_LIMIT
    ensures var e1 := Endpoint.Answer(e, r);
            var idle := Endpoint.Drained(e1);
            && e1.Valid() && idle.Valid() && idle.rx == [] && idle.retireSeq == e.retireSeq
            && ReplyOf(e1) == Ok(Response(OK, Endpoint.ResultPayload(h.txnId, d)))
            && Host.Judge(h, addresses, ReplyOf(e1)) == Ok(Endpoint.TransitionOf(h.txnId, d))
            && RetiresWell(h, profile, idle, d)
  {
    hide DecodeResponse, EncodeResponse, Decide, Endpoint.ResultPayload, Host.Prevalidate, Host.IsCommit, Endpoint.HandleRetire,
      Committable, AllOpen, Host.JudgeRetire, Endpoint.State.Valid, Endpoint.Answer, Endpoint.Guard, Endpoint.IsScalar,
      Request.Valid, Crc;
    InStepParts(h, profile, e);
    Endpoint.AnswerKeepsValid(e, r);
    AnswerIsFinish(e, r, d);
    FittingPrevalidates(h, addresses, d);
    FinishReply(e, h.txnId, d);
    TxDrains(Endpoint.Answer(e, r));
    RetireInStep(h, profile, Endpoint.Drained(Endpoint.Answer(e, r)), d);
  }

  lemma InStepParts(h: Host.State, profile: Profile, e: Endpoint.State)
    requires InStep(h, profile, e)
    ensures e.Valid() && e.rx == [] && e.tx == [] && !e.done && e.profile == profile && AllOpen(h.cells, h.deferred)
  {
  }

  lemma TxDrains(e: Endpoint.State)
    requires e.Valid()
    ensures Endpoint.Drained(e).Valid()
  {
    hide Endpoint.ResultPayload;
  }

  lemma AnswerIsFinish(e: Endpoint.State, r: Request, d: Decision)
    requires e.Valid() && r.Valid() && Endpoint.IsScalar(r)
    requires Endpoint.Guard(e, r.head) == None && Decide(r) == Ok(d)
    ensures Endpoint.Answer(e, r) == Endpoint.Finish(e, r.head.txnId, d)
  {
    hide Decide, Endpoint.Finish, Endpoint.Guard, Endpoint.State.Valid;
  }

  /** The host's RETIRE for the staged result is accepted, its acknowledgement is judged a retirement,
      and whatever commits the transition leaves both sides in step. */
  ghost predicate RetiresWell(h: Host.State, profile: Profile, idle: Endpoint.State, d: Decision)
    requires h.txnId < U32_LIMIT && d.Small() && idle.retireSeq + 1 < U32_LIMIT
  {
    var t := Endpoint.TransitionOf(h.txnId, d);
    var e2 := Endpoint.HandleRetire(idle, Request.Retire(h.txnId, Crc(Endpoint.ResultPayload(h.txnId, d))));
    && e2.fault == None
    && Host.JudgeRetire(h, t, ReplyOf(e2.state)) == Host.StepOutcome.Retired(idle.retireSeq + 1)
    && e2.state.retireSeq == idle.retireSeq + 1
    && forall h' :: Host.IsCommit(h, t, h') ==> InStep(h', profile, Endpoint.Drained(e2.state))
  }

  lemma RetireInStep(h: Host.State, profile: Profile, idle: Endpoint.State, d: Decision)
    requires idle.Valid() && idle.rx == [] && idle.tx == [] && idle.profile == profile && h.txnId < U32_LIMIT
    requires d.Small() && idle.retireSeq + 1 < U32_LIMIT
    requires idle.staged == Some(Endpoint.Decided(h.txnId, d, Crc(Endpoint.ResultPayload(h.txnId, d))))
    ensures RetiresWell(h, profile, idle, d)
  {
    var t := Endpoint.TransitionOf(h.txnId, d);
    RetiredReply(RetiredState(idle, d), h.txnId, idle.retireSeq + 1, d.nextPc, d.nextFp);
    RetireAccepted(idle, h.txnId, d);
    CommitsLeaveOpen(h, t);
    hide DecodeResponse, EncodeResponse, Endpoint.ResultPayload, AllOpen, Endpoint.RetiredPayload, Decision.Small, Crc,
      Endpoint.HandleRetire, Host.IsCommit, U32Of, Endpoint.State.StagedValid;
    RetiredIdle(idle, d);
  }

  /** The endpoint once its staged decision is committed, before it says so. */
  function RetiredState(e: Endpoint.State, d: Decision): Endpoint.State {
    e.(committedPc := d.nextPc, committedFp := d.nextFp, stateValid := true,
       retireSeq := e.retireSeq + 1, phase := Endpoint.IDLE, staged := None, done := true)
  }

  lemma RetireAccepted(e: Endpoint.State, txnId: u32, d: Decision)
    requires e.Valid() && d.Small()
    requires e.staged == Some(Endpoint.Decided(txnId, d, Crc(Endpoint.ResultPayload(txnId, d))))
    ensures Endpoint.HandleRetire(e, Request.Retire(txnId, Crc(Endpoint.ResultPayload(txnId, d))))
         == Endpoint.Handled(
              Endpoint.Emit(RetiredState(e, d),
                            Response(RETIRED, Endpoint.RetiredPayload(txnId, e.retireSeq + 1, d.nextPc, d.nextFp))),
              None)
  {
    hide EncodeResponse, Endpoint.ResultPayload, Endpoint.RetiredPayload, Endpoint.State.ReceiveValid, Crc, Decision.Small;
  }

  /** With its response taken it is idle again. */
  lemma RetiredIdle(e: Endpoint.State, d: Decision)
    requires e.Valid() && e.rx == [] && e.tx == []
    ensures forall status, fault ::
      RetiredState(e, d).(lastStatus := status, lastFault := fault, tx := [], done := false).Valid()
  {
    hide Endpoint.ResultPayload;
  }

  lemma CommitsLeaveOpen(h: Host.State, t: Transition)
    ensures forall h' :: Host.IsCommit(h, t, h') ==> AllOpen(h'.cells, h'.deferred) && h'.pc == t.nextPc && h'.fp == t.nextFp
  {
    forall h' | Host.IsCommit(h, t, h')
      ensures AllOpen(h'.cells, h'.deferred)
    {
      OpenPairsAreOpen(h.deferred + t.deferred, h'.cells);
    }
  }
}
