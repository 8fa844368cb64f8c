/** DEREF_CELL in terms of the host's cells: when the endpoint accepts it, what it writes or defers, with
    which status it refuses, and what becomes of the two cells over a whole step. The oracle does not
    execute this instruction, so this is its specification. */
module Reconciliation {
  import opened Outcomes
  import opened Bytes
  import opened Ghash
  import opened Pointers
  import opened Protocol
  import opened Requests
  import opened Transitions
  import opened HostMemory
  import opened Refinement
  import opened Lockstep
  import opened ScalarRuns
  import Programs
  import Host
  import Endpoint

  /** Both cells are known and they disagree. */
  predicate Clash(cells: Cells, t: u32, l: u32) {
    t in cells && l in cells && cells[t] != cells[l]
  }

  /** The two cells can be made equal under the profile: FORWARD_ONLY reads the local cell only. */
  predicate Reconcilable(profile: Profile, cells: Cells, t: u32, l: u32) {
    !Clash(cells, t, l) && (profile == FORWARD_ONLY ==> l in cells)
  }

  /** A known cell is copied to the other, if that one is absent. */
  function Copies(cells: Cells, t: u32, l: u32): seq<Write> {
    if t in cells && l !in cells then [Write(l, cells[t])]
    else if l in cells && t !in cells then [Write(t, cells[l])]
    else []
  }

  /** Two absent cells are left to the host. */
  function Defers(cells: Cells, t: u32, l: u32): seq<DeferredEquality> {
    if t !in cells && l !in cells then [DeferredEquality(t, l)] else []
  }

  lemma EffectOfCells(head: Preamble, f: FrameView, cells: Cells, t: u32, l: u32)
    requires Shows(f, cells) && t in f.cells && l in f.cells && f.writes == []
    ensures var r := DerefEffect(ModeCell, head, f, t, l);
            && (r.Ok? <==> Reconcilable(head.profile, cells, t, l))
            && (r.Ok? ==> r.value.0.writes == Copies(cells, t, l) && r.value.1 == Defers(cells, t, l))
            && (r.Err? ==> r == Reject(if head.profile == FORWARD_ONLY && l !in cells then UNSUPPORTED_IN_PROFILE else DEREF_MISMATCH))
  {
  }

  /** The endpoint's decision on a DEREF_CELL the host prepared. */
  lemma DerefCellDecides(h: Host.State, profile: Profile, op: Programs.Operation) returns (base: u32)
    requires h.txnId < U32_LIMIT && op.Deref? && op.mode == ModeCell && Host.Prepare(h, profile, op).Ok?
    ensures h.fp + op.alpha <= U32_MAX && base + op.beta <= U32_MAX && h.fp + op.gamma <= U32_MAX
    ensures h.fp + op.alpha in h.cells && GPower(base) == h.cells[h.fp + op.alpha] && base < INDEX_LIMIT
    ensures var p, t, l := h.fp + op.alpha, base + op.beta, h.fp + op.gamma;
            var r := Host.Prepare(h, profile, op).value.request;
            && r.Valid() && Endpoint.IsScalar(r) && Host.Prepare(h, profile, op).value.addresses == [p, t, l]
            && (Decide(r).Ok? <==> h.pc + 1 <= U32_MAX && Reconcilable(profile, h.cells, t, l))
            && (Decide(r).Ok? ==> Decide(r).value == Decision(h.pc + 1, h.fp, Copies(h.cells, t, l), Defers(h.cells, t, l), [p, t, l]))
            && (Decide(r).Err? ==>
                  Decide(r) == Reject(if profile == FORWARD_ONLY && l !in h.cells then UNSUPPORTED_IN_PROFILE
                                      else if Clash(h.cells, t, l) then DEREF_MISMATCH else U32_OVERFLOW))
  {
    hide Host.Prepare, DecideDeref, Reverse, GPower, DerefEffect, Shows, Request.Valid, Copies, Defers;
    PreparedWell(h, profile, op);
    base := PreparedDeref(h, profile, op);
    var head := Preamble(h.txnId, h.pc, h.fp, profile);
    ReverseSome(h.cells[h.fp + op.alpha], base);
    var f := DerefReduces(ModeCell, head, op.alpha, op.beta, op.gamma, base, h.cells);
    EffectOfCells(head, f, h.cells, base + op.beta, h.fp + op.gamma);
  }

  lemma ReverseSome(pointer: F128, base: u32)
    requires Reverse(pointer, INDEX_LIMIT) == Some(base)
    ensures GPower(base) == pointer && base < INDEX_LIMIT && VerifyIndex(base, pointer) == Ok(())
  {
  }

  /** How a step ends whose request carries pointer, target and local: it retires exactly if the indices
      are in the window and the two cells can be reconciled; then a known one has been copied, or their
      equality is listed. Otherwise the status says which condition failed. */
  ghost predicate Reconciled(h: Host.State, profile: Profile, addresses: seq<u32>, outcome: Host.StepOutcome, h': Host.State) {
    && |addresses| == 3
    && var t, l := addresses[1], addresses[2];
    if h.pc >= INDEX_LIMIT || h.fp >= INDEX_LIMIT then outcome == Host.Faulted(INDEX_RANGE)
    else if Reconcilable(profile, h.cells, t, l) then
      && outcome.Retired? && h'.pc == h.pc + 1 && h'.fp == h.fp
      && IsClosure(ApplyWrites(h.cells, Copies(h.cells, t, l)), h.deferred + Defers(h.cells, t, l), h'.cells)
      && (if t in h.cells || l in h.cells then IsClosed(h'.cells, DeferredEquality(t, l))
          else IsOpen(h'.cells, DeferredEquality(t, l)) && DeferredEquality(t, l) in h'.deferred)
    else outcome == Host.Faulted(if profile == FORWARD_ONLY && l !in h.cells then UNSUPPORTED_IN_PROFILE else DEREF_MISMATCH)
  }

  /** A whole DEREF_CELL step over the model endpoint. */
  lemma DerefCellStep(h: Host.State, profile: Profile, e: Endpoint.State, op: Programs.Operation,
                      outcome: Host.StepOutcome, h': Host.State, e': Endpoint.State)
    requires InStep(h, profile, e) && h.txnId + 1 < U32_LIMIT && e.retireSeq + 1 < U32_LIMIT
    requires op.Deref? && op.mode == ModeCell && ModelStep(h, profile, e, op, outcome, h', e')
    ensures match Host.Prepare(Counted(h), profile, op)
            case Err(refusal) => outcome == Host.Refused(refusal)
            case Ok(prepared) => Reconciled(h, profile, prepared.addresses, outcome, h')
  {
    hide Host.Prepare, Reverse, GPower, Decide, Request.Valid, InStep, ModelStep, OutOfStep, IsClosure, Retirable, DecisionFor,
      Unretired, Copies, Defers, Host.Untouched;
    StepStaysInStep(h, profile, e, op, outcome, h', e');
    RetirableCases(Counted(h), profile, op);
    if Host.Prepare(Counted(h), profile, op).Ok? {
      var base := DerefCellDecides(Counted(h), profile, op);
      if outcome.Retired? {
        var t, l := base + op.beta, h.fp + op.gamma;
        TwoCells(h, profile, e, t, l, h');
      }
    }
  }

  lemma TwoCells(h: Host.State, profile: Profile, e: Endpoint.State, t: u32, l: u32, h': Host.State)
    requires InStep(h, profile, e) && !Clash(h.cells, t, l)
    requires IsClosure(ApplyWrites(h.cells, Copies(h.cells, t, l)), h.deferred + Defers(h.cells, t, l), h'.cells)
    requires h'.deferred == OpenPairs(h.deferred + Defers(h.cells, t, l), h'.cells)
    ensures if t in h.cells || l in h.cells then IsClosed(h'.cells, DeferredEquality(t, l))
            else IsOpen(h'.cells, DeferredEquality(t, l)) && DeferredEquality(t, l) in h'.deferred
  {
    var writes, pairs := Copies(h.cells, t, l), h.deferred + Defers(h.cells, t, l);
    hide IsClosure, Endpoint.State.Valid;
    OpenPairsAreOpen(pairs, h'.cells);
    if t in h.cells || l in h.cells {
      Host.ClosureKeeps(ApplyWrites(h.cells, writes), pairs, h'.cells);
      OneCopy(h.cells, t, l);
    } else {
      OpenIsConsistent(h.cells, pairs);
      ClosureUnique(h.cells, pairs, h.cells, h'.cells);
      assert DeferredEquality(t, l) == pairs[|h.deferred|];
    }
  }

  lemma OneCopy(cells: Cells, t: u32, l: u32)
    requires !Clash(cells, t, l) && (t in cells || l in cells)
    ensures IsClosed(ApplyWrites(cells, Copies(cells, t, l)), DeferredEquality(t, l))
  {
  }
}
