/** The replay guard over whole runs against an arbitrary endpoint: what a service left outstanding
    costs, and that a key which is used up stays used up. */
module GuardRuns {
  import opened Outcomes
  import opened Bytes
  import opened Protocol
  import opened Requests
  import opened Host
  import opened ServiceHost
  import Programs
  import Service = Blake3Service

  /** The outstanding service is of a transaction already begun, and not used up. */
  predicate Behind(h: State, a: Service.Adapter) {
    a.outstanding.Some? ==> a.outstanding.value.key.txnId <= h.txnId && a.outstanding.value.key !in a.completed
  }

  /** The step sends a request, and the reply to it is not a fault. */
  predicate Asks(h: State, profile: Profile, op: Programs.Operation, first: Reply)
    requires op.Valid() && h.txnId + 1 < U32_LIMIT
  {
    op.Blake3? && PrepareBlake3(h.(txnId := h.txnId + 1), profile, op).Ok? && !(first.Ok? && first.value.status.IsFault())
  }

  // ----- one step with a service left outstanding -----

  /** The published service is never the outstanding one: its transaction is new. */
  lemma StaleNotServed(a: Service.Adapter, txnId: u32, r: Request, payload: seq<byte>, attempts: seq<Service.Attempt>)
    requires r.Blake3? && r.Valid() && a.outstanding.Some? && a.outstanding.value.key.txnId != txnId
    ensures Serve(a, txnId, r, payload, attempts) == (a, None)
  {
    hide Service.FromV1, OperandsMatch, Request.Valid;
  }

  /** With a service of an earlier transaction outstanding a BLAKE3 step never retires. It uses the
      key up, aborting both sides, exactly if it sends a request and the reply to it is not a fault;
      otherwise the service stays outstanding. */
  lemma StaleKey(h: State, profile: Profile, a: Service.Adapter, op: Programs.Operation, replies: Replies,
                 attempts: seq<Service.Attempt>, end: Ending, h': State)
    requires op.Valid() && op.Blake3? && h.txnId + 1 < U32_LIMIT
    requires IsHostStep(h, profile, a, op, replies, attempts, end, h')
    requires a.outstanding.Some? && Behind(h, a)
    ensures !end.outcome.Retired? && Untouched(h, h')
    ensures if Asks(h, profile, op, replies.first) then
              && end.outcome.Raised? && end.aborted
              && end.adapter == a.(completed := a.completed + {a.outstanding.value.key}, outstanding := None)
            else end.adapter == a && !end.aborted
  {
    hide PrepareBlake3, Serve, Prevalidate, IsCommit, CredibleFault, Request.Valid;
    var h1 := h.(txnId := h.txnId + 1);
    var prepared := PrepareBlake3(h1, profile, op);
    if prepared.Ok? && replies.first.Ok? {
      StaleNotServed(a, h1.txnId, prepared.value.request, replies.first.value.payload, attempts);
    }
  }

  // ----- what every step keeps -----

  /** What accepting a published service does to the guard. */
  lemma ServeKeeps(a: Service.Adapter, txnId: u32, r: Request, payload: seq<byte>, attempts: seq<Service.Attempt>)
    requires r.Blake3? && r.Valid()
    ensures var (a1, frame) := Serve(a, txnId, r, payload, attempts);
            && a1.completed == a.completed
            && (a1.outstanding == a.outstanding || (a1.outstanding.Some? && a1.outstanding.value.key !in a.completed))
            && (frame.Some? ==> a1.outstanding.Some? && a1.outstanding.value.key.txnId == txnId)
  {
    hide Service.FromV1, OperandsMatch, Request.Valid, Answering;
  }

  /** A step leaves the guard behind the transaction counter, and never frees a used-up key. */
  lemma StepKeepsBehind(h: State, profile: Profile, a: Service.Adapter, op: Programs.Operation, replies: Replies,
                        attempts: seq<Service.Attempt>, end: Ending, h': State)
    requires op.Valid() && h.txnId + 1 < U32_LIMIT
    requires IsHostStep(h, profile, a, op, replies, attempts, end, h') && Behind(h, a)
    ensures h'.txnId == h.txnId + 1
    ensures Behind(h', end.adapter) && a.completed <= end.adapter.completed
    ensures !op.Blake3? ==> end.adapter == a
  {
    hide PrepareBlake3, Serve, IsTransaction, IsStep, Request.Valid, Prevalidate;
    if op.Blake3? {
      var h1 := h.(txnId := h.txnId + 1);
      var prepared := PrepareBlake3(h1, profile, op);
      if prepared.Ok? {
        TransactionKeepsBehind(h1.(stepIndex := h1.stepIndex + 1), a, prepared.value, replies, attempts, end, h');
        TransactionKeeps(h1.(stepIndex := h1.stepIndex + 1), a, prepared.value, replies, attempts, end, h');
      }
    } else {
      ScalarCounts(h, profile, op, replies, end.outcome, h');
    }
  }

  lemma ScalarCounts(h: State, profile: Profile, op: Programs.Operation, replies: Replies, outcome: StepOutcome, h': State)
    requires !op.Blake3? && h.txnId + 1 < U32_LIMIT
    requires IsStep(h, profile, op, replies.first, replies.retire, outcome, h')
    ensures h'.txnId == h.txnId + 1
  {
    hide Prepare, Judge, JudgeRetire;
  }

  lemma TransactionKeepsBehind(h: State, a: Service.Adapter, p: Prepared, replies: Replies, attempts: seq<Service.Attempt>,
                               end: Ending, h': State)
    requires p.request.Blake3? && p.request.Valid() && h.txnId < U32_LIMIT
    requires IsTransaction(h, a, p, replies, attempts, end, h') && Behind(h, a)
    ensures a.completed <= end.adapter.completed
    ensures Behind(h, end.adapter)
  {
    hide Serve, Prevalidate, IsCommit, JudgeRetire, FaultOutcome, Request.Valid;
    if replies.first.Ok? {
      ServeKeeps(a, h.txnId, p.request, replies.first.value.payload, attempts);
    }
  }

  // ----- whole runs -----

  /** One step of a run: what was replied, how the service behaved, and how the step ended. */
  datatype Turn = Turn(op: Programs.Operation, replies: Replies, attempts: seq<Service.Attempt>, end: Ending)

  /** A run against an arbitrary endpoint, with the host and the guard before and after every step. */
  ghost predicate IsRun(profile: Profile, states: seq<State>, guards: seq<Service.Adapter>, turns: seq<Turn>) {
    && |states| == |guards| == |turns| + 1
    && forall i :: 0 <= i < |turns| ==> Follows(profile, states[i], guards[i], turns[i], states[i + 1], guards[i + 1])
  }

  ghost predicate Follows(profile: Profile, h: State, a: Service.Adapter, turn: Turn, h': State, a': Service.Adapter) {
    && turn.op.Valid() && h.txnId + 1 < U32_LIMIT && a' == turn.end.adapter
    && IsHostStep(h, profile, a, turn.op, turn.replies, turn.attempts, turn.end, h')
  }

  lemma {:induction false} RunKeepsBehind(profile: Profile, states: seq<State>, guards: seq<Service.Adapter>, turns: seq<Turn>, i: nat, j: nat)
    requires IsRun(profile, states, guards, turns) && i <= j <= |turns| && Behind(states[i], guards[i])
    ensures Behind(states[j], guards[j]) && guards[i].completed <= guards[j].completed
    decreases j
  {
    hide Behind, IsHostStep;
    if i < j {
      RunKeepsBehind(profile, states, guards, turns, i, j - 1);
      assert Follows(profile, states[j - 1], guards[j - 1], turns[j - 1], states[j], guards[j]);
      var t := turns[j - 1];
      StepKeepsBehind(states[j - 1], profile, guards[j - 1], t.op, t.replies, t.attempts, t.end, states[j]);
    }
  }

  /** The step at `k` sends a BLAKE3 request and the reply to it is not a fault. */
  ghost predicate AsksAt(profile: Profile, states: seq<State>, guards: seq<Service.Adapter>, turns: seq<Turn>, k: nat)
    requires IsRun(profile, states, guards, turns) && k < |turns|
  {
    assert Follows(profile, states[k], guards[k], turns[k], states[k + 1], guards[k + 1]);
    Asks(states[k], profile, turns[k].op, turns[k].replies.first)
  }

  /** Until the next service is asked for, the outstanding one stays and no BLAKE3 operation retires. */
  lemma {:induction false} StaleUntilAsked(profile: Profile, states: seq<State>, guards: seq<Service.Adapter>, turns: seq<Turn>,
                                           i: nat, j: nat)
    requires IsRun(profile, states, guards, turns) && i <= j <= |turns|
    requires Behind(states[i], guards[i]) && guards[i].outstanding.Some?
    requires forall k :: i <= k < j ==> !AsksAt(profile, states, guards, turns, k)
    ensures guards[j] == guards[i]
    ensures forall k :: i <= k < j && turns[k].op.Blake3? ==> !turns[k].end.outcome.Retired?
    decreases j
  {
    hide Behind, IsHostStep, Asks;
    if i < j {
      StaleUntilAsked(profile, states, guards, turns, i, j - 1);
      RunKeepsBehind(profile, states, guards, turns, i, j - 1);
      var k, t := j - 1, turns[j - 1];
      assert Follows(profile, states[k], guards[k], t, states[j], guards[j]);
      assert !AsksAt(profile, states, guards, turns, k);
      if t.op.Blake3? {
        StaleKey(states[k], profile, guards[k], t.op, t.replies, t.attempts, t.end, states[j]);
      } else {
        StepKeepsBehind(states[k], profile, guards[k], t.op, t.replies, t.attempts, t.end, states[j]);
      }
    }
  }

  /** Recovery: the first service asked for after one was left outstanding fails, and that frees the
      guard; the old key is used up from then on, and no BLAKE3 operation retires before. */
  lemma RunRecovers(profile: Profile, states: seq<State>, guards: seq<Service.Adapter>, turns: seq<Turn>, i: nat, j: nat)
    requires IsRun(profile, states, guards, turns) && i <= j < |turns|
    requires Behind(states[i], guards[i]) && guards[i].outstanding.Some?
    requires AsksAt(profile, states, guards, turns, j)
    requires forall k :: i <= k < j ==> !AsksAt(profile, states, guards, turns, k)
    ensures var key := guards[i].outstanding.value.key;
            && turns[j].end.outcome.Raised? && turns[j].end.aborted && guards[j + 1].outstanding == None
            && (forall k :: i <= k <= j && turns[k].op.Blake3? ==> !turns[k].end.outcome.Retired?)
            && (forall m :: j < m <= |turns| ==> key in guards[m].completed && !guards[m].IsOutstanding(key))
  {
    hide IsHostStep, Asks;
    StaleUntilAsked(profile, states, guards, turns, i, j);
    RunKeepsBehind(profile, states, guards, turns, i, j);
    var t := turns[j];
    assert Follows(profile, states[j], guards[j], t, states[j + 1], guards[j + 1]);
    AsksBlake3(states[j], profile, t.op, t.replies.first);
    StaleKey(states[j], profile, guards[j], t.op, t.replies, t.attempts, t.end, states[j + 1]);
    forall m | j < m <= |turns|
      ensures guards[i].outstanding.value.key in guards[m].completed && !guards[m].IsOutstanding(guards[i].outstanding.value.key)
    {
      RunKeepsBehind(profile, states, guards, turns, i, j + 1);
      RunKeepsBehind(profile, states, guards, turns, j + 1, m);
    }
  }

  lemma AsksBlake3(h: State, profile: Profile, op: Programs.Operation, first: Reply)
    requires op.Valid() && h.txnId + 1 < U32_LIMIT && Asks(h, profile, op, first)
    ensures op.Blake3?
  {
  }
}
