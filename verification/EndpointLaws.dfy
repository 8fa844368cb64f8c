/** What the endpoint makes of every request, whoever sent it: the reply to each control request, the
    guards in front of an instruction, and which branches and dereferences it accepts for a memory that
    shows the cells of the request. */
module EndpointLaws {
  import opened Outcomes
  import opened Bytes
  import opened Ghash
  import opened Protocol
  import opened Requests
  import opened Frames
  import opened Transitions
  import opened HostMemory
  import opened Refinement
  import opened Lockstep
  import opened Reconciliation
  import Host
  import Endpoint
  import Bits
  import Crc32

  // ----- control requests -----

  /** A reply that refuses the request and leaves everything but the status registers. */
  predicate Refuses(e: Endpoint.State, r: Request, status: Status, detail: byte)
    requires e.Valid() && r.Valid()
  {
    && ReplyOf(Endpoint.Answer(e, r)) == Ok(Endpoint.FaultResponse(status, r.TxnId(), detail))
    && Endpoint.Drained(Endpoint.Answer(e, r)) == Endpoint.Drained(e).(lastStatus := status, lastFault := status)
  }

  lemma RefusedPlainly(e: Endpoint.State, r: Request, status: Status, detail: byte)
    requires e.Valid() && e.tx == [] && r.Valid() && status.IsFault()
    requires Endpoint.Answer(e, r) == Endpoint.EmitFault(e, status, r.TxnId(), detail)
    ensures Refuses(e, r, status, detail)
  {
    FaultReply(e, status, r.TxnId(), detail);
    hide EncodeResponse, DecodeResponse, Endpoint.Answer;
  }

  lemma Answered(e: Endpoint.State, r: Response)
    requires e.tx == [] && r.Encodable()
    ensures ReplyOf(Endpoint.Emit(e, r)) == Ok(r)
  {
    ResponseRoundTrip(r);
    hide EncodeResponse, DecodeResponse;
    assert [] + EncodeResponse(r) == EncodeResponse(r);
  }

  /** Negotiation: only between transactions, and only if the window of versions contains version 1; then
      the profile is the requested one and nothing else has changed. */
  lemma NegotiationLaw(e: Endpoint.State, r: Request)
    requires e.Valid() && e.tx == [] && r.Negotiate?
    ensures if e.staged.Some? then Refuses(e, r, BAD_STATE, 0)
            else if r.versionMin > 1 || r.versionMax < 1 then Refuses(e, r, BAD_VERSION, 0)
            else
              && ReplyOf(Endpoint.Answer(e, r)) == Ok(Response(OK, Endpoint.NegotiatePayload(r.profile)))
              && Endpoint.Drained(Endpoint.Answer(e, r)) == Endpoint.Drained(e).(profile := r.profile, lastStatus := OK)
  {
    hide EncodeResponse, DecodeResponse, Refuses, Endpoint.NegotiatePayload, Endpoint.EmitFault;
    if e.staged.Some? {
      RefusedPlainly(e, r, BAD_STATE, 0);
    } else if r.versionMin > 1 || r.versionMax < 1 {
      RefusedPlainly(e, r, BAD_VERSION, 0);
    } else {
      Answered(e.(profile := r.profile), Response(OK, Endpoint.NegotiatePayload(r.profile)));
    }
  }

  /** A digest: only for the outstanding service, under its transaction and its service id, and of the
      one kind there is. */
  lemma ServiceLaw(e: Endpoint.State, r: Request)
    requires e.Valid() && e.tx == [] && r.ServiceResponse?
    ensures match e.staged
            case Some(Suspended(txnId, s)) =>
              if r.txnId != txnId || r.serviceId != s.service.serviceId then Refuses(e, r, BAD_SERVICE, 1)
              else if r.kind != 1 then Refuses(e, r, BAD_SERVICE, 2)
              else true
            case _ => Refuses(e, r, BAD_STATE, 0)
  {
    hide EncodeResponse, DecodeResponse, Refuses, Resume, Endpoint.EmitFault, Endpoint.Finish, Suspension.Valid, Endpoint.ResultPayload;
    match e.staged
    case Some(Suspended(txnId, s)) =>
      if r.txnId != txnId || r.serviceId != s.service.serviceId {
        RefusedPlainly(e, r, BAD_SERVICE, 1);
      } else if r.kind != 1 {
        RefusedPlainly(e, r, BAD_SERVICE, 2);
      }
    case _ => RefusedPlainly(e, r, BAD_STATE, 0);
  }

  /** A retirement that does not match discards the result, and says whether the transaction id or the CRC
      was wrong. */
  lemma RetirementLaw(e: Endpoint.State, r: Request)
    requires e.Valid() && e.tx == [] && r.Retire?
    ensures match e.staged
            case Some(Decided(txnId, d, crc)) =>
              r.txnId != txnId || r.resultCrc != crc ==>
                && ReplyOf(Endpoint.Answer(e, r)) == Ok(Endpoint.FaultResponse(RETIRE_MISMATCH, r.txnId, if r.txnId != txnId then 1 else 2))
                && Endpoint.Answer(e, r).staged == None && Endpoint.Answer(e, r).Committed() == e.Committed()
            case _ => Refuses(e, r, BAD_STATE, 0)
  {
    hide EncodeResponse, DecodeResponse, Refuses, Endpoint.ResultPayload, Suspension.Valid, Crc32.Crc;
    match e.staged
    case Some(Decided(txnId, d, crc)) =>
      if r.txnId != txnId || r.resultCrc != crc {
        FaultReply(Endpoint.Discarded(e), RETIRE_MISMATCH, r.txnId, if r.txnId != txnId then 1 else 2);
      }
    case _ => RefusedPlainly(e, r, BAD_STATE, 0);
  }

  /** The pins: ready for a byte exactly when nothing waits to leave, which is otherwise offered from the
      front; busy exactly from the first byte of a frame to the end of what it began; and the fault pin
      follows the last status. */
  lemma PinsLaw(e: Endpoint.State)
    requires e.Valid()
    ensures var pins := e.GetPins();
            && (pins.rxReady <==> e.tx == []) && pins.txValid == !pins.rxReady && (pins.txValid ==> pins.txData == e.tx[0])
            && (pins.busy <==> e.rx != [] || e.tx != [] || e.staged.Some?)
            && (pins.fault <==> e.lastStatus.Code() >= 0x80) && pins.donePulse == e.done
  {
    hide Status.Code, Suspension.Valid, Endpoint.ResultPayload;
  }

  // ----- the guards of an instruction -----

  /** In order: nothing may be staged, the profile must be the negotiated one, the state must be the one
      the endpoint committed last, and both indices must be below 2^16. */
  lemma GuardLaw(e: Endpoint.State, r: Request)
    requires e.Valid() && e.tx == [] && r.Valid() && (Endpoint.IsScalar(r) || r.Blake3?)
    ensures var h := r.head;
            if e.staged.Some? then Refuses(e, r, BAD_STATE, 0)
            else if h.profile != e.profile then Refuses(e, r, BAD_PROFILE, 0)
            else if e.stateValid && (h.pc != e.committedPc || h.fp != e.committedFp) then Refuses(e, r, STATE_MISMATCH, 0)
            else h.pc >= 0x1_0000 || h.fp >= 0x1_0000 ==> Refuses(e, r, INDEX_RANGE, 0)
  {
    hide EncodeResponse, DecodeResponse, Refuses, Decide, DecideBlake3, Endpoint.EmitFault, Endpoint.Finish, Request.Valid,
      Endpoint.ResultPayload, Suspension.Valid, Crc32.Crc;
    if Endpoint.Guard(e, r.head).Some? {
      var fault := Endpoint.Guard(e, r.head).value;
      RefusedPlainly(e, r, fault.status, fault.detail);
    }
  }

  /** So no transaction is ever decided for a state other than the one committed last: a host can neither
      rewind nor fork. */
  lemma NoFork(e: Endpoint.State, r: Request)
    requires e.Valid() && e.rx == [] && e.tx == [] && r.Valid()
    requires e.staged == None && Endpoint.Answer(e, r).staged.Some?
    ensures (Endpoint.IsScalar(r) || r.Blake3?) && r.head.profile == e.profile && r.head.pc < 0x1_0000 && r.head.fp < 0x1_0000
    ensures e.stateValid ==> r.head.pc == e.committedPc && r.head.fp == e.committedFp
    ensures Endpoint.Answer(e, r).staged.value.txnId == r.head.txnId
  {
    hide EncodeResponse, Decide, DecideBlake3, Endpoint.ResultPayload, Suspension.Valid, Crc32.Crc, Endpoint.NegotiatePayload,
      Endpoint.StatusPayload, Request.Valid;
  }

  // ----- branches and dereferences -----

  /** The index is in the window and encodes the pointer. */
  predicate Encodes(index: u32, pointer: F128) {
    index < 0x1_0000 && GPower(index) == pointer
  }

  /** A branch over a memory that shows its three cells. It is taken exactly if the condition is nonzero,
      and then needs a true inverse of the condition and two indices that encode the targets; not taken it
      must propose nothing. */
  lemma JumpLaw(r: Request, cells: Cells)
    requires r.Valid() && r.Jump?
    requires forall i :: 0 <= i < 3 ==> r.head.fp + r.offsets[i] <= U32_MAX && r.cells[i] == CellOf(cells, r.head.fp + r.offsets[i])
    ensures var fp, x := r.head.fp, r.cells[0].value;
            var addresses := [fp + r.offsets[0], fp + r.offsets[1], fp + r.offsets[2]];
            if r.taken != (x != 0) then Decide(r) == Err(Fault(BAD_BRANCH_PROPOSAL, 1))
            else if r.taken then
              && (Decide(r).Ok? <==> && r.inverse.present && FieldMul(x, r.inverse.value) == 1
                                     && Encodes(r.destPc, r.cells[1].value) && Encodes(r.destFp, r.cells[2].value))
              && (Decide(r).Ok? ==> Decide(r).value == Decision(r.destPc, r.destFp, [], [], addresses))
              && (!r.inverse.present || FieldMul(x, r.inverse.value) != 1 ==> Decide(r) == Reject(BAD_INVERSE))
            else
              && (Decide(r).Ok? <==> && (!r.inverse.present || r.inverse.value == 0) && r.destPc == 0 && r.destFp == 0
                                     && r.head.pc + 1 <= U32_MAX)
              && (Decide(r).Ok? ==> Decide(r).value == Decision(r.head.pc + 1, fp, [], [], addresses))
              && (r.inverse.present && r.inverse.value != 0 ==> Decide(r) == Err(Fault(BAD_INVERSE, 3)))
  {
    var fp := r.head.fp;
    var addresses := [fp + r.offsets[0], fp + r.offsets[1], fp + r.offsets[2]];
    hide FieldMul, GPower, SupplyThree, Shows, Addresses, CellOf;
    AllResolve(fp, r.offsets);
    assert r.cells == Host.CellsAt(cells, addresses);
    SupplyThreeShows(cells, addresses);
    ShownReads(SupplyThree(addresses, r.cells).value, cells, addresses);
  }

  lemma ShownReads(f: FrameView, cells: Cells, addresses: seq<u32>)
    requires Shows(f, cells)
    ensures forall a :: a in addresses && a in f.cells ==> f.Read(a) == CellOf(cells, a).value
  {
  }

  /** A dereference over a memory that shows its three cells. Whatever the mode, the proposed index must be
      in the window and encode the pointer; the other modes write one encoded index to the target. */
  lemma DerefLaw(r: Request, cells: Cells)
    requires r.Valid() && r.Deref?
    requires r.head.fp + r.alpha <= U32_MAX && r.base + r.beta <= U32_MAX && r.head.fp + r.gamma <= U32_MAX
    requires r.pointer == CellOf(cells, r.head.fp + r.alpha) && r.target == CellOf(cells, r.base + r.beta)
    requires r.local == CellOf(cells, r.head.fp + r.gamma)
    ensures var p, t, l := r.head.fp + r.alpha, r.base + r.beta, r.head.fp + r.gamma;
            var index := if r.mode == ModePc then r.head.pc + 2 else r.head.fp;
            && (Decide(r).Ok? <==> && Encodes(r.base, r.pointer.value) && r.head.pc + 1 <= U32_MAX
                                   && if r.mode == ModeCell then Reconcilable(r.head.profile, cells, t, l)
                                      else index < 0x1_0000 && (t in cells ==> cells[t] == GPower(index)))
            && (Decide(r).Ok? ==>
                  && Decide(r).value.nextPc == r.head.pc + 1 && Decide(r).value.nextFp == r.head.fp
                  && Decide(r).value.accesses == [p, t, l]
                  && Decide(r).value.writes == (if r.mode == ModeCell then Copies(cells, t, l)
                                                else if t in cells then [] else [Write(t, GPower(index))])
                  && Decide(r).value.deferred == if r.mode == ModeCell then Defers(cells, t, l) else [])
  {
    var t, l := r.base + r.beta, r.head.fp + r.gamma;
    hide DecideDeref, GPower, Shows, Reconcile, Reconcilable, Copies, Defers;
    var f := DerefReduces(r.mode, r.head, r.alpha, r.beta, r.gamma, r.base, cells);
    IndexLaw(r.base, r.pointer.value);
    if r.mode == ModeCell {
      EffectOfCells(r.head, f, cells, t, l);
    } else {
      EffectOfIndex(r.mode, r.head, f, cells, t, l);
    }
  }

  lemma IndexLaw(index: u32, pointer: F128)
    ensures VerifyIndex(index, pointer).Ok? <==> Encodes(index, pointer)
    ensures index >= 0x1_0000 ==> VerifyIndex(index, pointer) == Reject(INDEX_RANGE)
    ensures index < 0x1_0000 && GPower(index) != pointer ==> VerifyIndex(index, pointer) == Reject(BAD_POINTER)
  {
    hide GPower;
  }

  lemma EffectOfIndex(mode: DerefMode, head: Preamble, f: FrameView, cells: Cells, t: u32, l: u32)
    requires mode != ModeCell && Shows(f, cells) && t in f.cells && l in f.cells && f.writes == []
    ensures var index := if mode == ModePc then head.pc + 2 else head.fp;
            var r := DerefEffect(mode, head, f, t, l);
            && (r.Ok? <==> index < 0x1_0000 && (t in cells ==> cells[t] == GPower(index)))
            && (r.Ok? ==> r.value.1 == [] && r.value.0.writes == if t in cells then [] else [Write(t, GPower(index))])
  {
    hide GPower;
  }

  /** Operands at one address must carry one cell. */
  lemma AliasLaw(r: Request)
    requires r.Valid() && (r.Xor? || r.Mul? || r.Jump?)
    requires forall i :: 0 <= i < 3 ==> r.head.fp + r.offsets[i] <= U32_MAX
    ensures (exists i, j :: 0 <= i < 3 && 0 <= j < 3 && r.offsets[i] == r.offsets[j] && r.cells[i] != r.cells[j]) ==>
              Decide(r) == Reject(ALIAS_INCONSISTENT)
  {
    hide FieldMul, GPower, BackSolve, FrameView.WriteOnce, SupplyThree, VerifyIndex;
    AllResolve(r.head.fp, r.offsets);
    ThreeSupplied(Addresses(r.head.fp, r.offsets).value, r.cells);
  }

  lemma AllResolve(fp: u32, offsets: seq<u32>)
    requires |offsets| == 3 && forall i :: 0 <= i < 3 ==> fp + offsets[i] <= U32_MAX
    ensures Addresses(fp, offsets) == Ok([fp + offsets[0], fp + offsets[1], fp + offsets[2]])
  {
  }

  lemma ThreeSupplied(addresses: seq<u32>, cells: seq<Cell>)
    requires |addresses| == 3 && |cells| == 3
    ensures (exists i, j :: 0 <= i < 3 && 0 <= j < 3 && addresses[i] == addresses[j] && cells[i] != cells[j]) ==>
              SupplyThree(addresses, cells) == Reject(ALIAS_INCONSISTENT)
  {
  }

  // ----- frames that are no request -----

  /** A payload of the wrong length is refused under its first four bytes, padded with zeros, as the id;
      negotiations and status queries have none. */
  lemma WrongLength(op: Opcode, payload: seq<byte>)
    requires |payload| != op.PayloadBytes()
    ensures var shown := if |payload| < 4 then payload else payload[..4];
            Endpoint.InspectPayload(op, payload)
            == Endpoint.BadFrame(BAD_LENGTH, if op == NEGOTIATE || op == STATUS_QUERY then 0 else FromLittleEndian(shown) % U32_LIMIT, 2)
  {
    hide FromLittleEndian;
    var shown := if |payload| < 4 then payload else payload[..4];
    assert shown == payload[..if |payload| < 4 then |payload| else 4];
    PaddedZeros(shown);
  }

  lemma {:induction false} PaddedZeros(data: seq<byte>)
    requires |data| <= 4
    ensures FromLittleEndian(data + [0, 0, 0, 0][|data|..]) == FromLittleEndian(data) < U32_LIMIT
  {
    ZerosAfter(data, [0, 0, 0, 0][|data|..]);
    Bits.Pow2Monotone(8 * |data|, 32);
    Pow2At32();
    ToFromLittleEndian(data);
  }

  lemma {:induction false} ZerosAfter(data: seq<byte>, zeros: seq<byte>)
    requires forall i :: 0 <= i < |zeros| ==> zeros[i] == 0
    ensures FromLittleEndian(data + zeros) == FromLittleEndian(data)
    decreases |data| + |zeros|
  {
    if data != [] {
      assert (data + zeros)[1..] == data[1..] + zeros;
      ZerosAfter(data[1..], zeros);
    } else if zeros != [] {
      assert [] + zeros == zeros && [] + zeros[1..] == zeros[1..];
      ZerosAfter([], zeros[1..]);
    }
  }
}
