/** What no reply can bring about: a step changes only cells of its own frame and cells tied to them by
    equalities, and a fault that is not this step's own ends it with an exception. */
module Confinement {
  import opened Outcomes
  import opened Bytes
  import opened Protocol
  import opened Wire
  import opened Frames
  import opened Results
  import opened HostMemory
  import opened Host
  import opened ServiceHost
  import opened Lockstep
  import Programs
  import Service = Blake3Service

  // ----- confinement -----

  /** The cell is in the frame, or a chain of equalities ties it to a cell that is. */
  ghost predicate Reached(addresses: seq<u32>, pairs: seq<DeferredEquality>, x: u32) {
    exists a :: a in addresses && Connected(pairs, a, x)
  }

  lemma ReachedItself(addresses: seq<u32>, pairs: seq<DeferredEquality>, x: u32)
    requires x in addresses
    ensures Reached(addresses, pairs, x)
  {
    var chain: seq<u32> := [x];
    assert IsChain(pairs, chain) && chain[0] == x && chain[|chain| - 1] == x;
    assert Connected(pairs, x, x);
  }

  lemma {:induction false} WrittenOrKnown(cells: Cells, writes: seq<Write>, x: u32)
    requires x in ApplyWrites(cells, writes)
    ensures x in cells || exists w :: w in writes && w.address == x
    decreases |writes|
  {
    if writes != [] {
      WrittenOrKnown(cells[writes[0].address := writes[0].value], writes[1..], x);
    }
  }

  /** A chain from a known cell leaves it over a new equality, since the listed ones were open. */
  lemma FirstLink(h: State, t: Transition, chain: seq<u32>)
    requires AllOpen(h.cells, h.deferred) && IsChain(h.deferred + t.deferred, chain) && |chain| > 1 && chain[0] in h.cells
    ensures exists d :: d in t.deferred && (d.target == chain[0] || d.local == chain[0])
  {
    assert Linked(h.deferred + t.deferred, chain[0], chain[1]);
    var d := if DeferredEquality(chain[0], chain[1]) in h.deferred + t.deferred then DeferredEquality(chain[0], chain[1])
             else DeferredEquality(chain[1], chain[0]);
    assert d in h.deferred ==> IsOpen(h.cells, d);
  }

  /** After a commit of a result that stays within its frame. */
  lemma CommitConfined(h: State, addresses: seq<u32>, t: Transition, h': State)
    requires AllOpen(h.cells, h.deferred) && WithinFrame(addresses, t) && IsCommit(h, t, h')
    ensures forall x: u32 :: x in h'.cells && x !in h.cells ==> Reached(addresses, h.deferred + t.deferred, x)
    ensures forall d :: d in h'.deferred && d !in h.deferred ==> d.target in addresses && d.local in addresses
  {
    var pairs := h.deferred + t.deferred;
    OpenPairsAreOpen(pairs, h'.cells);
    hide OpenPairs, CountAccesses, ApplyWrites;
    forall x: u32 | x in h'.cells && x !in h.cells ensures Reached(addresses, pairs, x) {
      assert Implied(ApplyWrites(h.cells, t.writes), pairs, x, h'.cells[x]);
      var chain :| Carries(ApplyWrites(h.cells, t.writes), pairs, chain, x, h'.cells[x]);
      WrittenOrKnown(h.cells, t.writes, chain[0]);
      if chain[0] in h.cells {
        FirstLink(h, t, chain);
      }
      assert Connected(pairs, chain[0], x);
    }
  }

  lemma PrevalidatedWithin(h: State, addresses: seq<u32>, payload: seq<byte>)
    requires Prevalidate(h, addresses, payload).Ok?
    ensures WithinFrame(addresses, Prevalidate(h, addresses, payload).value)
  {
    hide DecodeTransition, CheckWrites, Consistent, WithinFrame;
  }

  /** The addresses a prepared request carries. */
  ghost function FrameOf(h: State, profile: Profile, op: Programs.Operation): Result<seq<u32>, Refusal>
    requires op.Valid() && h.txnId < U32_LIMIT
  {
    match if op.Blake3? then PrepareBlake3(h, profile, op) else Prepare(h, profile, op)
    case Ok(p) => Ok(p.addresses)
    case Err(refusal) => Err(refusal)
  }

  /** All that the step did lies within its frame, or is tied to it by equalities the host had listed or
      now lists between frame addresses. */
  ghost predicate Confined(h: State, addresses: seq<u32>, h': State) {
    exists t: Transition ::
      && WithinFrame(addresses, t) && IsCommit(h, t, h')
      && (forall x: u32 :: x in h'.cells && x !in h.cells ==> Reached(addresses, h.deferred + t.deferred, x))
      && (forall d :: d in h'.deferred && d !in h.deferred ==> d.target in addresses && d.local in addresses)
      && (forall x: u32 :: CountOf(h'.counts, x) != CountOf(h.counts, x) ==> x in addresses)
  }

  ghost predicate ConfinedToFrame(h: State, profile: Profile, op: Programs.Operation, h': State)
    requires op.Valid() && h.txnId < U32_LIMIT
  {
    match FrameOf(h, profile, op)
    case Ok(addresses) => Confined(h.(stepIndex := h.stepIndex + 1), addresses, h')
    case Err(_) => false
  }

  lemma CommitCountsWithin(h: State, addresses: seq<u32>, t: Transition, h': State)
    requires WithinFrame(addresses, t) && IsCommit(h, t, h')
    ensures forall x: u32 :: CountOf(h'.counts, x) != CountOf(h.counts, x) ==> x in addresses
  {
    hide IsClosure, CountAccesses;
    forall x: u32 | CountOf(h'.counts, x) != CountOf(h.counts, x) ensures x in addresses {
      CountsAdd(h.counts, t.accesses, x);
    }
  }

  lemma BelievedConfined(h: State, addresses: seq<u32>, payload: seq<byte>, h': State)
    requires AllOpen(h.cells, h.deferred) && Prevalidate(h, addresses, payload).Ok?
    requires IsCommit(h, Prevalidate(h, addresses, payload).value, h')
    ensures Confined(h, addresses, h')
  {
    hide Prevalidate, IsCommit, WithinFrame;
    var t := Prevalidate(h, addresses, payload).value;
    PrevalidatedWithin(h, addresses, payload);
    CommitConfined(h, addresses, t, h');
    CommitCountsWithin(h, addresses, t, h');
  }

  /** Whatever the operation and whatever the replies, a step that retires is confined to its frame. */
  lemma StepConfined(h: State, profile: Profile, a: Service.Adapter, op: Programs.Operation, replies: Replies,
                     attempts: seq<Service.Attempt>, end: Ending, h': State)
    requires op.Valid() && h.txnId + 1 < U32_LIMIT && AllOpen(h.cells, h.deferred)
    requires IsHostStep(h, profile, a, op, replies, attempts, end, h') && end.outcome.Retired?
    ensures ConfinedToFrame(h.(txnId := h.txnId + 1), profile, op, h')
  {
    hide PrepareBlake3, Prepare, Serve, Prevalidate, IsCommit, Confined, AllOpen, CredibleFault, U32Of;
    var h1 := h.(txnId := h.txnId + 1);
    var h2 := h1.(stepIndex := h.stepIndex + 1);
    if op.Blake3? {
      var p := PrepareBlake3(h1, profile, op).value;
      BelievedConfined(h2, p.addresses, replies.second.value.payload, h');
    } else {
      var p := Prepare(h1, profile, op).value;
      BelievedConfined(h2, p.addresses, replies.first.value.payload, h');
    }
  }

  // ----- faults that are not this step's own -----

  /** A fault response that cannot be the outcome of transaction `txnId`: it is not a fault at all, has not
      the five bytes of one, names another transaction, or is of a class that decided nothing here. Once a
      result is staged only a discarded retirement can end the step. */
  predicate Foreign(r: Response, txnId: u32, staged: bool) {
    || r.status.Code() < 0x80
    || |r.payload| != 5
    || FromLittleEndian(r.payload[..4]) != txnId
    || (staged && r.status != RETIRE_MISMATCH)
    || (!staged && r.status in {BAD_SOF, BAD_VERSION, BAD_OPCODE, BAD_LENGTH, BAD_CRC, BAD_FLAGS, BAD_STATE, BAD_SERVICE})
  }

  lemma ForeignRaises(r: Response, txnId: u32, staged: bool)
    ensures FaultOutcome(r, txnId, staged) == if Foreign(r, txnId, staged) then Raised(ProtocolViolation) else Faulted(r.status)
  {
    hide FromLittleEndian;
  }

  /** A step is faulted only by a fault of its own transaction: one under another id always raises. */
  lemma FaultIsOwn(h: State, profile: Profile, a: Service.Adapter, op: Programs.Operation, replies: Replies,
                   attempts: seq<Service.Attempt>, end: Ending, h': State)
    requires op.Valid() && h.txnId + 1 < U32_LIMIT
    requires IsHostStep(h, profile, a, op, replies, attempts, end, h') && end.outcome.Faulted?
    ensures var id := h.txnId + 1;
            || (replies.first.Ok? && replies.first.value.status == end.outcome.status && !Foreign(replies.first.value, id, false))
            || (op.Blake3? && replies.second.Ok? && replies.second.value.status == end.outcome.status
                && !Foreign(replies.second.value, id, false))
            || (replies.retire.Ok? && replies.retire.value.status == end.outcome.status && !Foreign(replies.retire.value, id, true))
  {
    hide PrepareBlake3, Prepare, Serve, Prevalidate, IsCommit, CredibleFault, Foreign, U32Of;
    if replies.first.Ok? {
      ForeignRaises(replies.first.value, h.txnId + 1, false);
    }
    if replies.second.Ok? {
      ForeignRaises(replies.second.value, h.txnId + 1, false);
    }
    if replies.retire.Ok? {
      ForeignRaises(replies.retire.value, h.txnId + 1, true);
    }
  }

  /** And a reply to the request that is neither the result nor a fault of this transaction raises. */
  lemma ForeignReplyRaises(h: State, profile: Profile, a: Service.Adapter, op: Programs.Operation, replies: Replies,
                           attempts: seq<Service.Attempt>, end: Ending, h': State)
    requires op.Valid() && h.txnId + 1 < U32_LIMIT && IsHostStep(h, profile, a, op, replies, attempts, end, h')
    requires replies.first.Ok? && replies.first.value.status != (if op.Blake3? then SERVICE_REQUIRED else OK)
    requires Foreign(replies.first.value, h.txnId + 1, false)
    ensures end.outcome.Refused? || end.outcome == Raised(ProtocolViolation)
  {
    hide PrepareBlake3, Prepare, Serve, Prevalidate, IsCommit, CredibleFault, Foreign, U32Of;
    ForeignRaises(replies.first.value, h.txnId + 1, false);
  }
}
