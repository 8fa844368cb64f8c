/** Host decisions at the boundary, in terms of what crosses it: when a witness is proposed, why a batch
    of writes is refused, and which published service is answered. */
module HostLaws {
  import opened Outcomes
  import opened Bits
  import opened Bytes
  import opened Ghash
  import opened Protocol
  import opened Wire
  import opened Requests
  import opened Transitions
  import opened HostMemory
  import opened ServiceHost
  import Programs
  import Host
  import Endpoint
  import ScalarRuns
  import Service = Blake3Service

  // ----- witnesses -----

  /** A product carries a witness exactly when the endpoint will solve it for one absent operand and the
      other is not zero; the witness is the inverse of that one. */
  lemma WitnessWhen(h: Host.State, profile: Profile, op: Programs.Operation)
    requires h.txnId < U32_LIMIT && op.Mul? && Host.Prepare(h, profile, op).Ok?
    ensures var a, b, c := h.fp + op.a, h.fp + op.b, h.fp + op.c;
            var r := Host.Prepare(h, profile, op).value.request;
            && r.Mul?
            && (r.inverse.present <==>
                  && profile == INTERPRETER_COMPAT && c in h.cells && (a in h.cells) != (b in h.cells)
                  && h.cells[if a in h.cells then a else b] != 0)
            && (r.inverse.present ==> r.inverse.value == Inverse(h.cells[if a in h.cells then a else b]))
            && (!r.inverse.present ==> r.inverse == ABSENT)
  {
    hide Host.Prepare, Inverse;
    ScalarRuns.PreparedBinary(h, profile, op);
  }

  // ----- batches of writes -----

  /** Write `i` contradicts an earlier one of the batch. */
  predicate AgainstBatch(writes: seq<Write>, i: nat)
    requires i < |writes|
  {
    exists j :: 0 <= j < i && writes[j].address == writes[i].address && writes[j].value != writes[i].value
  }

  predicate AgainstMemory(cells: Cells, w: Write) {
    w.address in cells && cells[w.address] != w.value
  }

  predicate Refused(cells: Cells, writes: seq<Write>, i: nat)
    requires i < |writes|
  {
    AgainstBatch(writes, i) || AgainstMemory(cells, writes[i])
  }

  /** The batch so far, as a map. */
  ghost predicate Proposed(proposed: Cells, done: seq<Write>) {
    && (forall x :: x in proposed <==> exists j :: 0 <= j < |done| && done[j].address == x)
    && (forall j :: 0 <= j < |done| ==> done[j].address in proposed && proposed[done[j].address] == done[j].value)
  }

  /** The verdict on a batch is about its first refused write: a contradiction inside the batch is the
      endpoint's fault, one with memory alone is a write-once violation. */
  ghost predicate Verdict(cells: Cells, writes: seq<Write>, from: nat, r: Option<Host.Failure>) {
    match r
    case None => forall i :: from <= i < |writes| ==> !Refused(cells, writes, i)
    case Some(failure) =>
      exists i :: from <= i < |writes| && Refused(cells, writes, i) && (forall j :: from <= j < i ==> !Refused(cells, writes, j))
                  && failure == if AgainstBatch(writes, i) then Host.ProtocolViolation else Host.WriteOnceViolation
  }

  lemma {:induction false} BatchVerdictFrom(cells: Cells, proposed: Cells, writes: seq<Write>, from: nat)
    requires from <= |writes| && Proposed(proposed, writes[..from])
    ensures Verdict(cells, writes, from, Host.CheckWrites(cells, proposed, writes[from..]))
    decreases |writes| - from
  {
    if from < |writes| {
      var w := writes[from];
      assert writes[from..][0] == w && writes[from..][1..] == writes[from + 1..];
      KnownToBatch(proposed, writes, from);
      if !Refused(cells, writes, from) {
        NextProposed(proposed, writes, from);
        BatchVerdictFrom(cells, proposed[w.address := w.value], writes, from + 1);
        VerdictWidens(cells, writes, from, Host.CheckWrites(cells, proposed, writes[from..]));
      }
    }
  }

  lemma KnownToBatch(proposed: Cells, writes: seq<Write>, from: nat)
    requires from < |writes| && Proposed(proposed, writes[..from])
    ensures var w := writes[from]; AgainstBatch(writes, from) <==> w.address in proposed && proposed[w.address] != w.value
  {
    var w, done := writes[from], writes[..from];
    if w.address in proposed {
      var j :| 0 <= j < |done| && done[j].address == w.address;
      assert writes[j] == done[j];
    }
    if AgainstBatch(writes, from) {
      var j :| 0 <= j < from && writes[j].address == w.address && writes[j].value != w.value;
      assert done[j] == writes[j];
    }
  }

  lemma NextProposed(proposed: Cells, writes: seq<Write>, from: nat)
    requires from < |writes| && Proposed(proposed, writes[..from]) && !AgainstBatch(writes, from)
    ensures Proposed(proposed[writes[from].address := writes[from].value], writes[..from + 1])
  {
    var done, more := writes[..from], writes[..from + 1];
    assert more == done + [writes[from]];
    var next := proposed[writes[from].address := writes[from].value];
    forall x ensures x in next <==> exists j :: 0 <= j < |more| && more[j].address == x {
      if x in proposed {
        var j :| 0 <= j < |done| && done[j].address == x;
        assert more[j].address == x;
      }
      if x == writes[from].address {
        assert more[from].address == x;
      }
      if j :| 0 <= j < |more| && more[j].address == x && j < from {
        assert done[j].address == x;
      }
    }
    forall j | 0 <= j < |more| ensures more[j].address in next && next[more[j].address] == more[j].value {
      if j < from {
        assert done[j] == more[j] == writes[j];
      }
    }
  }

  lemma VerdictWidens(cells: Cells, writes: seq<Write>, from: nat, r: Option<Host.Failure>)
    requires from < |writes| && !Refused(cells, writes, from) && Verdict(cells, writes, from + 1, r)
    ensures Verdict(cells, writes, from, r)
  {
    hide Refused;
  }

  lemma BatchVerdict(cells: Cells, writes: seq<Write>)
    ensures Verdict(cells, writes, 0, Host.CheckWrites(cells, map[], writes))
  {
    BatchVerdictFrom(cells, map[], writes, 0);
    assert writes[0..] == writes;
  }

  // ----- the published service -----

  /** The last sixteen bytes of an accepted payload are the metadata word it was asked with. */
  lemma TailIsMetadata(q: Service.ServiceRequired, metadata: F128)
    requires q.counter == Low(metadata, 64) && q.blockLen == Low(Shr(metadata, 64), 32) && q.flags == Shr(metadata, 96)
    ensures Service.TailBytes(q) == F128Bytes(metadata)
  {
    hide LittleEndian, FromLittleEndian, Low, Shr, F128Bytes;
    Service.MetadataCut(metadata);
    var m := F128Bytes(metadata);
    ToFromLittleEndian(m[..8]);
    ToFromLittleEndian(m[8..12]);
    ToFromLittleEndian(m[12..]);
    assert m == m[..8] + m[8..12] + m[12..];
  }

  /** The host answers a published service only if the payload is, byte for byte, what the endpoint
      publishes for the request that was sent, under some service id; the answer carries that id and the
      digest of the first attempt that was carried out. */
  lemma ServedExactly(a: Service.Adapter, txnId: u32, r: Request, payload: seq<byte>, attempts: seq<Service.Attempt>)
    returns (serviceId: u32, digest: seq<byte>)
    requires r.Blake3? && r.Valid() && Serve(a, txnId, r, payload, attempts).1.Some?
    ensures payload == Endpoint.ServicePayload(txnId, ServiceRequest(serviceId, Values(r.cells[..4]), Values(r.cells[4..6]), r.metadata))
    ensures |digest| == 32 && FirstCarriedOut(attempts) == Some(digest)
    ensures Serve(a, txnId, r, payload, attempts).1.value
         == Request.ServiceResponse(txnId, serviceId, 1, F128Of(digest[..16]), F128Of(digest[16..]))
  {
    hide LittleEndian, FromLittleEndian, Low, Shr, F128Bytes, U32Bytes, F128Of, Endpoint.F128Words, Service.FromV1, Service.TailBytes;
    var q := Service.Accepted(a, payload).1.value;
    Service.BridgeExact(payload, a.epoch, q);
    TailIsMetadata(q, r.metadata);
    serviceId := q.key.serviceId;
    digest := Answering(q, attempts).response.digest;
    AnsweringIsFirst(q, attempts);
  }

  /** What the first attempt that was carried out returned. */
  function FirstCarriedOut(attempts: seq<Service.Attempt>): Option<seq<byte>> {
    if attempts == [] then None
    else if attempts[0].Returned? then Some(attempts[0].digest)
    else FirstCarriedOut(attempts[1..])
  }

  lemma {:induction false} AnsweringIsFirst(q: Service.ServiceRequired, attempts: seq<Service.Attempt>)
    requires Answering(q, attempts).Computed?
    ensures FirstCarriedOut(attempts) == Some(Answering(q, attempts).response.digest)
    decreases |attempts|
  {
    if attempts != [] && !attempts[0].Returned? {
      AnsweringIsFirst(q, attempts[1..]);
    }
  }

  /** While a service is outstanding the guard accepts its own payload again and nothing else. */
  lemma OnlyIdenticalRetry(a: Service.Adapter, payload: seq<byte>)
    requires a.Valid() && a.outstanding.Some?
    ensures Service.Accepted(a, payload)
         == (a, if payload == Service.V1Payload(a.outstanding.value) then a.outstanding else None)
  {
    hide Service.V1Payload, Service.FromV1, Service.ServiceRequired.Valid;
    var q := a.outstanding.value;
    Service.BridgeExact(payload, a.epoch, q);
    if Service.FromV1(payload, a.epoch).Some? {
      Service.BridgeExact(payload, a.epoch, Service.FromV1(payload, a.epoch).value);
    }
  }

  /** Only a successful response to the outstanding service becomes a frame. */
  lemma OnlySuccessEmitted(a: Service.Adapter, response: Service.ServiceResponse)
    requires response.Valid()
    ensures Service.Emitted(a, response).Some? <==>
              a.outstanding.Some? && a.outstanding.value.key == response.key && response.status == Service.SERVICE_OK
  {
    hide F128Of;
  }
}
