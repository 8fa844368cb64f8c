/** When a BLAKE3 operation is delegated: which metadata words are accepted, when the host prepares the
    request, when the endpoint publishes the service, and how the step ends if not. */
module Delegation {
  import opened Bits
  import opened Bytes
  import opened Ghash
  import opened Protocol
  import opened Wire
  import opened Requests
  import opened Transitions
  import opened Lockstep
  import opened ScalarRuns
  import opened ServiceHost
  import opened ServiceSteps
  import Programs
  import Host
  import Endpoint
  import Service = Blake3Service

  // ----- the metadata word -----

  /** Block length in bytes 8 to 11, at most one block; flags in bytes 12 to 15, seven of them known. */
  predicate MetadataFits(metadata: F128) {
    var m := F128Bytes(metadata);
    FromLittleEndian(m[8..12]) <= 64 && FromLittleEndian(m[12..]) < 128
  }

  /** What endpoint and host accept is exactly what the service's own check accepts, in every request
      that carries the word. */
  lemma MetadataDecides(metadata: F128, q: Service.ServiceRequired)
    requires q.key.Valid() && q.key.kind == BLAKE3_COMPRESS && |q.message| == 64 && |q.chaining| == 32
    requires var m := F128Bytes(metadata);
             && q.counter == FromLittleEndian(m[..8]) && q.blockLen == FromLittleEndian(m[8..12])
             && q.flags == FromLittleEndian(m[12..])
    ensures MetadataSupported(metadata) <==> q.Valid()
    ensures MetadataSupported(metadata) <==> MetadataFits(metadata)
  {
    Service.MetadataCut(metadata);
    SevenBits(q.flags);
    var m := F128Bytes(metadata);
    ToFromLittleEndian(m[..8]);
    EightBytes();
    hide F128Bytes, FromLittleEndian, Low, Shr, Pow2;
  }

  lemma EightBytes()
    ensures Pow2(64) == Service.U64_LIMIT
  {
    Pow2At32();
    Pow2Add(32, 32);
  }

  lemma SevenBits(v: nat)
    ensures Shr(v, 7) == 0 <==> v < 128
  {
    assert Pow2(4) == 16;
    Pow2Add(3, 4);
    LowPlusShr(v, 7);
    LowBound(v, 7);
    if v < 128 {
      ShrBound(v, 7, 0);
    }
  }

  /** A word with nothing but a block length: accepted up to a full block. */
  lemma BlockLengths(length: u32)
    ensures length * Pow2(64) < TWO_TO_128
    ensures MetadataSupported(length * Pow2(64)) <==> length <= 64
  {
    hide Pow2, Low, Shr, Shl;
    Pow2At128();
    Pow2At32();
    Pow2Add(32, 32);
    Pow2Add(64, 64);
    assert length * Pow2(64) < U32_LIMIT * Pow2(64);
    ShlIsProduct(length, 64);
    ShiftsBack(length, 64);
    ShrAdd(length * Pow2(64), 64, 32);
    LowSmall(length, 32);
    ShrBound(length, 32, 0);
    NoBits();
  }

  lemma NoBits()
    ensures Pow2(0) == 1
  {
  }

  lemma {:induction false} ShiftsBack(v: nat, n: nat)
    ensures Shr(Shl(v, n), n) == v
  {
    if n != 0 {
      assert Shl(v, n) / 2 == Shl(v, n - 1);
      ShiftsBack(v, n - 1);
    }
  }

  // ----- preparing and publishing -----

  /** The eight addresses of the operation: four message words, two chaining words, two output words. */
  function OperandAddresses(fp: u32, op: Programs.Operation): seq<nat>
    requires op.Blake3? && op.Valid()
  {
    [fp + op.ins[0], fp + op.ins[1], fp + op.ins[2], fp + op.ins[3], fp + op.cv, fp + op.cv + 1, fp + op.out, fp + op.out + 1]
  }

  predicate AddressesFit(fp: u32, op: Programs.Operation)
    requires op.Blake3? && op.Valid()
  {
    forall i :: 0 <= i < 8 ==> OperandAddresses(fp, op)[i] <= U32_MAX
  }

  lemma {:induction false} AddressAllWhen(base: u32, offsets: seq<nat>)
    ensures AddressAll(base, offsets).Ok? <==> forall i :: 0 <= i < |offsets| ==> base + offsets[i] <= U32_MAX
  {
    if offsets != [] {
      AddressAllWhen(base, offsets[1..]);
      assert forall i :: 0 < i < |offsets| ==> offsets[i] == offsets[1..][i - 1];
      if forall i :: 0 <= i < |offsets| ==> base + offsets[i] <= U32_MAX {
        assert forall i :: 0 <= i < |offsets| - 1 ==> offsets[1..][i] == offsets[i + 1];
      }
    }
  }

  lemma MetadataIs(metadata: F128)
    ensures MetadataSupported(metadata) <==> MetadataFits(metadata)
  {
    var m := F128Bytes(metadata);
    var zeros := seq(64, i => 0);
    var q := Service.ServiceRequired(Service.ServiceKey(1, 0, 0, BLAKE3_COMPRESS), zeros, zeros[..32], FromLittleEndian(m[..8]),
                                     FromLittleEndian(m[8..12]), FromLittleEndian(m[12..]));
    MetadataDecides(metadata, q);
  }

  /** The host prepares the request exactly if the metadata and the addresses fit; the metadata is
      looked at first. */
  lemma PreparesWhen(h: Host.State, profile: Profile, op: Programs.Operation)
    requires op.Blake3? && op.Valid() && h.txnId < U32_LIMIT
    ensures var r := PrepareBlake3(h, profile, op);
            && (r.Ok? <==> MetadataFits(op.metadata) && AddressesFit(h.fp, op))
            && (r.Ok? ==> r.value.addresses == OperandAddresses(h.fp, op))
            && (r.Err? ==> r == Host.Refuse(if MetadataFits(op.metadata) then U32_OVERFLOW else BAD_SERVICE))
  {
    hide MetadataSupported, MetadataFits, AddressAll, Host.CellsAt;
    MetadataIs(op.metadata);
    var offsets, addresses := ServiceOffsets(op), OperandAddresses(h.fp, op);
    assert offsets == [op.ins[0], op.ins[1], op.ins[2], op.ins[3], op.cv, op.cv + 1, op.out, op.out + 1];
    AddressAllWhen(h.fp, offsets);
    assert forall i :: 0 <= i < 8 ==> addresses[i] == h.fp + offsets[i];
    PrepareBlake3Refuses(h, profile, op);
  }

  /** In step the endpoint publishes a prepared request exactly if program counter, frame pointer and the
      next program counter are in the index window and it has a service id left. */
  lemma PublishesWhen(h: Host.State, profile: Profile, e: Endpoint.State, op: Programs.Operation)
    requires InStep(h, profile, e) && op.Blake3? && op.Valid() && h.txnId < U32_LIMIT && PrepareBlake3(h, profile, op).Ok?
    ensures Suspends(e, PrepareBlake3(h, profile, op).value.request) <==>
              h.pc + 1 < INDEX_LIMIT && h.fp < INDEX_LIMIT && e.serviceSeq < 0xFFFF_FFFE
  {
    hide PrepareBlake3, DecideBlake3, InStep, Endpoint.Guard, Faithful, Request.Valid;
    var r := PrepareBlake3(h, profile, op).value.request;
    PreparedHead(h, profile, op);
    GuardInStep(h, profile, e, r.head);
    if e.serviceSeq < 0xFFFF_FFFE {
      PreparedDecides(h, profile, op, e.serviceSeq + 1);
    }
  }

  /** How a step ends that asks for no service: the host's refusals first, then the endpoint's window, its
      service counter (which the host does not believe), and the window of the next program counter. */
  function Declined(h: Host.State, e: Endpoint.State, op: Programs.Operation): Host.StepOutcome
    requires op.Blake3? && op.Valid()
  {
    if !MetadataFits(op.metadata) then Host.Refused(Host.PreparationFault(BAD_SERVICE))
    else if !AddressesFit(h.fp, op) then Host.Refused(Host.PreparationFault(U32_OVERFLOW))
    else if h.pc >= INDEX_LIMIT || h.fp >= INDEX_LIMIT then Host.Faulted(INDEX_RANGE)
    else if e.serviceSeq >= 0xFFFF_FFFE then Host.Raised(Host.ProtocolViolation)
    else Host.Faulted(INDEX_RANGE)
  }

  /** A whole step: when the service is asked for, and what happens otherwise. */
  lemma AsksWhen(h: Host.State, profile: Profile, e: Endpoint.State, a: Service.Adapter, op: Programs.Operation,
                 attempts: seq<Service.Attempt>,
                 outcome: Host.StepOutcome, h': Host.State, e': Endpoint.State, a': Service.Adapter)
    requires op.Blake3? && op.Valid() && h.txnId + 1 < U32_LIMIT && e.Valid() && e.retireSeq + 1 < U32_LIMIT
    requires InService(h, profile, e, a) && ServiceStep(h, profile, e, a, op, attempts, outcome, h', e', a')
    ensures var asked := && MetadataFits(op.metadata) && AddressesFit(h.fp, op)
                         && h.pc + 1 < INDEX_LIMIT && h.fp < INDEX_LIMIT && e.serviceSeq < 0xFFFF_FFFE;
            && e'.serviceSeq == (if asked then e.serviceSeq + 1 else e.serviceSeq)
            && (!asked ==> outcome == Declined(h, e, op))
  {
    hide PrepareBlake3, InService, ServiceStep, Suspends, MetadataFits, AddressesFit, SuspensionLaw, Spent, OutOfStep,
      Endpoint.State.Valid, Request.Valid, InStep, DecideBlake3, Host.Untouched;
    ServiceStepStaysInService(h, profile, e, a, op, attempts, outcome, h', e', a');
    OnlyCounted(h, profile, e, a);
    InServiceParts(Counted(h), profile, e, a);
    PreparesWhen(Counted(h), profile, op);
    if PrepareBlake3(Counted(h), profile, op).Ok? {
      PublishesWhen(Counted(h), profile, e, op);
    }
  }
}
