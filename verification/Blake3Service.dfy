/** The external BLAKE3 service at the host's boundary: its message codecs, the bridge from
    the endpoint's v1 payload, and the epoch and replay guard. The digest is whatever the
    service returns. */
module Blake3Service {
  import opened Outcomes
  import opened Bits
  import opened Bytes
  import opened Ghash
  import opened Wire
  import opened Requests
  import opened Transitions
  import Endpoint

  const SCHEMA_VERSION: byte := 1
  const SERVICE_REQUIRED_BYTES: nat := 131
  const SERVICE_RESPONSE_BYTES: nat := 53
  const V1_BYTES: nat := 122
  const U64_LIMIT: nat := 0x1_0000_0000_0000_0000

  datatype ServiceStatus = SERVICE_OK | TRANSIENT_FAILURE | PERMANENT_FAILURE {
    function Code(): byte {
      match this
      case SERVICE_OK => 0
      case TRANSIENT_FAILURE => 1
      case PERMANENT_FAILURE => 2
    }
  }

  datatype ServiceKey = ServiceKey(epoch: nat, txnId: u32, serviceId: u32, kind: byte) {
    predicate Valid() {
      0 < epoch < U64_LIMIT
    }
  }

  datatype ServiceRequired = ServiceRequired(
    key: ServiceKey, message: seq<byte>, chaining: seq<byte>, counter: nat, blockLen: nat, flags: nat
  ) {
    /** What construction checks; `flags` has no bit outside the seven known ones. */
    predicate Valid() {
      && key.Valid() && key.kind == BLAKE3_COMPRESS
      && |message| == 64 && |chaining| == 32 && counter < U64_LIMIT && blockLen <= 64 && Shr(flags, 7) == 0
    }
  }

  datatype ServiceResponse = ServiceResponse(key: ServiceKey, status: ServiceStatus, digest: seq<byte>) {
    predicate Valid() {
      key.Valid() && |digest| == 32
    }
  }

  // ----- codecs; `None` is a refusal -----

  function Guarded<T>(ok: bool, value: T): Option<T> {
    if ok then Some(value) else None
  }

  function KeyBytes(k: ServiceKey): (r: seq<byte>)
    ensures |r| == 17
  {
    LittleEndian(8, k.epoch) + U32Bytes(k.txnId) + U32Bytes(k.serviceId) + [k.kind]
  }

  function KeyOf(data: seq<byte>): ServiceKey
    requires |data| == 17
  {
    ServiceKey(FromLittleEndian(data[..8]), U32Of(data[8..12]), U32Of(data[12..16]), data[16])
  }

  function TailBytes(r: ServiceRequired): (t: seq<byte>)
    ensures |t| == 16
  {
    LittleEndian(8, r.counter) + LittleEndian(4, r.blockLen) + LittleEndian(4, r.flags)
  }

  function EncodeRequired(r: ServiceRequired): seq<byte> {
    [SCHEMA_VERSION] + KeyBytes(r.key) + [0] + r.message + r.chaining
    + TailBytes(r)
  }

  /** The last sixteen bytes of a request, as both formats lay them out. */
  function RequiredOf(key: ServiceKey, message: seq<byte>, chaining: seq<byte>, metadata: seq<byte>): ServiceRequired
    requires |metadata| == 16
  {
    ServiceRequired(key, message, chaining, FromLittleEndian(metadata[..8]),
                    FromLittleEndian(metadata[8..12]), FromLittleEndian(metadata[12..]))
  }

  function DecodeRequired(p: seq<byte>): Option<ServiceRequired> {
    if |p| != SERVICE_REQUIRED_BYTES then None
    else if p[0] != SCHEMA_VERSION || p[18] != 0 then None
    else
      var r := RequiredOf(KeyOf(p[1..18]), p[19..83], p[83..115], p[115..131]);
      Guarded(r.Valid(), r)
  }

  /** `from_v1`: the endpoint's payload, bound to a session epoch. */
  function FromV1(p: seq<byte>, epoch: nat): Option<ServiceRequired> {
    if |p| != V1_BYTES || p[9] != 0 then None
    else
      var key := ServiceKey(epoch, U32Of(p[..4]), U32Of(p[4..8]), p[8]);
      var r := RequiredOf(key, p[10..74], p[74..106], p[106..122]);
      Guarded(r.Valid(), r)
  }

  /** The v1 payload that carries the request; the epoch stays on the host. */
  function V1Payload(r: ServiceRequired): seq<byte> {
    U32Bytes(r.key.txnId) + U32Bytes(r.key.serviceId) + [r.key.kind, 0] + r.message + r.chaining
    + TailBytes(r)
  }

  function EncodeServiceResponse(r: ServiceResponse): seq<byte> {
    [SCHEMA_VERSION] + KeyBytes(r.key) + [r.status.Code()] + [32, 0] + r.digest
  }

  function ServiceStatusOf(code: byte): Option<ServiceStatus> {
    if code == 0 then Some(SERVICE_OK)
    else if code == 1 then Some(TRANSIENT_FAILURE)
    else if code == 2 then Some(PERMANENT_FAILURE)
    else None
  }

  function DecodeServiceResponse(p: seq<byte>): Option<ServiceResponse> {
    if |p| != SERVICE_RESPONSE_BYTES then None
    else if p[0] != SCHEMA_VERSION || FromLittleEndian(p[19..21]) != 32 then None
    else match ServiceStatusOf(p[18])
      case None => None
      case Some(status) =>
        var r := ServiceResponse.ServiceResponse(KeyOf(p[1..18]), status, p[21..53]);
        Guarded(r.Valid(), r)
  }

  // ----- the codecs are exact inverses -----

  lemma LittleEndianExact(n: nat, v: nat, data: seq<byte>)
    requires |data| == n
    ensures v < Pow2(8 * n) ==> FromLittleEndian(LittleEndian(n, v)) == v
    ensures LittleEndian(n, FromLittleEndian(data)) == data && FromLittleEndian(data) < Pow2(8 * n)
  {
    if v < Pow2(8 * n) {
      FromToLittleEndian(n, v);
    }
    ToFromLittleEndian(data);
  }

  lemma Pow2At64()
    ensures Pow2(64) == U64_LIMIT && Pow2(32) == U32_LIMIT
  {
    Pow2At32();
    Pow2Add(32, 32);
  }

  lemma KeyRoundTrip(k: ServiceKey, data: seq<byte>)
    requires |data| == 17
    ensures k.Valid() ==> KeyOf(KeyBytes(k)) == k
    ensures KeyBytes(KeyOf(data)) == data
  {
    Pow2At64();
    LittleEndianExact(8, k.epoch, data[..8]);
    U32RoundTrip(k.txnId, data[8..12]);
    U32RoundTrip(k.serviceId, data[12..16]);
    hide LittleEndian, FromLittleEndian, U32Of, U32Bytes;
    CutKey(LittleEndian(8, k.epoch), U32Bytes(k.txnId), U32Bytes(k.serviceId), k.kind, data);
  }

  lemma CutKey(epoch: seq<byte>, txn: seq<byte>, service: seq<byte>, kind: byte, data: seq<byte>)
    requires |epoch| == 8 && |txn| == 4 && |service| == 4 && |data| == 17
    ensures var b := epoch + txn + service + [kind]; b[..8] == epoch && b[8..12] == txn && b[12..16] == service && b[16] == kind
    ensures data == data[..8] + data[8..12] + data[12..16] + [data[16]]
  {
  }

  lemma SmallWord(v: nat)
    requires v <= 64 || Shr(v, 7) == 0
    ensures v < U32_LIMIT
  {
    if Shr(v, 7) == 0 {
      assert Pow2(7) == 128;
      LowPlusShr(v, 7);
      LowBound(v, 7);
    }
  }

  lemma TailRoundTrip(r: ServiceRequired, data: seq<byte>)
    requires |data| == 16
    ensures r.Valid() ==> RequiredOf(r.key, r.message, r.chaining, TailBytes(r)) == r
    ensures TailBytes(RequiredOf(r.key, r.message, r.chaining, data)) == data
    ensures RequiredOf(r.key, r.message, r.chaining, data).counter < U64_LIMIT
  {
    Pow2At64();
    LittleEndianExact(8, r.counter, data[..8]);
    LittleEndianExact(4, r.blockLen, data[8..12]);
    LittleEndianExact(4, r.flags, data[12..]);
    if r.Valid() {
      SmallWord(r.blockLen);
      SmallWord(r.flags);
    }
    hide LittleEndian, FromLittleEndian, Shr, Pow2, ServiceRequired.Valid;
    CutTail(LittleEndian(8, r.counter), LittleEndian(4, r.blockLen), LittleEndian(4, r.flags), data);
  }

  lemma CutTail(a: seq<byte>, b: seq<byte>, c: seq<byte>, data: seq<byte>)
    requires |a| == 8 && |b| == 4 && |c| == 4 && |data| == 16
    ensures var t := a + b + c; t[..8] == a && t[8..12] == b && t[12..] == c
    ensures data == data[..8] + data[8..12] + data[12..]
  {
  }

  lemma SliceRequired(key: seq<byte>, message: seq<byte>, chaining: seq<byte>, tail: seq<byte>)
    requires |key| == 17 && |message| == 64 && |chaining| == 32 && |tail| == 16
    ensures var p := [SCHEMA_VERSION] + key + [0] + message + chaining + tail;
            && |p| == SERVICE_REQUIRED_BYTES && p[0] == SCHEMA_VERSION && p[18] == 0
            && p[1..18] == key && p[19..83] == message && p[83..115] == chaining && p[115..131] == tail
  {
  }

  lemma JoinRequired(p: seq<byte>)
    requires |p| == SERVICE_REQUIRED_BYTES && p[0] == SCHEMA_VERSION && p[18] == 0
    ensures p == [SCHEMA_VERSION] + p[1..18] + [0] + p[19..83] + p[83..115] + p[115..131]
  {
  }

  /** The decoder accepts exactly the encodings of valid requests. */
  lemma RequiredCodecExact(p: seq<byte>, r: ServiceRequired)
    ensures DecodeRequired(p) == Some(r) <==> r.Valid() && p == EncodeRequired(r)
  {
    hide LittleEndian, FromLittleEndian, KeyOf, KeyBytes, Shr;
    if r.Valid() && p == EncodeRequired(r) {
      KeyRoundTrip(r.key, KeyBytes(r.key));
      TailRoundTrip(r, TailBytes(r));
      SliceRequired(KeyBytes(r.key), r.message, r.chaining, TailBytes(r));
    }
    if DecodeRequired(p) == Some(r) {
      KeyRoundTrip(r.key, p[1..18]);
      TailRoundTrip(r, p[115..131]);
      JoinRequired(p);
    }
  }

  lemma SliceV1(txn: seq<byte>, service: seq<byte>, kind: byte, message: seq<byte>, chaining: seq<byte>, tail: seq<byte>)
    requires |txn| == 4 && |service| == 4 && |message| == 64 && |chaining| == 32 && |tail| == 16
    ensures var p := txn + service + [kind, 0] + message + chaining + tail;
            && |p| == V1_BYTES && p[8] == kind && p[9] == 0 && p[..4] == txn && p[4..8] == service
            && p[10..74] == message && p[74..106] == chaining && p[106..122] == tail
  {
  }

  lemma JoinV1(p: seq<byte>)
    requires |p| == V1_BYTES && p[9] == 0
    ensures p == p[..4] + p[4..8] + [p[8], 0] + p[10..74] + p[74..106] + p[106..122]
  {
  }

  /** The bridge accepts exactly the v1 payloads of valid requests of this epoch. */
  lemma BridgeExact(p: seq<byte>, epoch: nat, r: ServiceRequired)
    ensures FromV1(p, epoch) == Some(r) <==> r.Valid() && r.key.epoch == epoch && p == V1Payload(r)
  {
    hide LittleEndian, FromLittleEndian, Shr, U32Of, U32Bytes;
    if r.Valid() && r.key.epoch == epoch && p == V1Payload(r) {
      U32RoundTrip(r.key.txnId, []);
      U32RoundTrip(r.key.serviceId, []);
      TailRoundTrip(r, TailBytes(r));
      SliceV1(U32Bytes(r.key.txnId), U32Bytes(r.key.serviceId), r.key.kind, r.message, r.chaining, TailBytes(r));
    }
    if FromV1(p, epoch) == Some(r) {
      U32RoundTrip(0, p[..4]);
      U32RoundTrip(0, p[4..8]);
      TailRoundTrip(r, p[106..122]);
      JoinV1(p);
    }
  }

  lemma SliceResponse(key: seq<byte>, status: byte, digest: seq<byte>)
    requires |key| == 17 && |digest| == 32
    ensures var p := [SCHEMA_VERSION] + key + [status] + [32, 0] + digest;
            && |p| == SERVICE_RESPONSE_BYTES && p[0] == SCHEMA_VERSION && p[18] == status
            && p[1..18] == key && p[19..21] == [32, 0] && p[21..53] == digest
  {
  }

  lemma JoinResponse(p: seq<byte>)
    requires |p| == SERVICE_RESPONSE_BYTES && p[0] == SCHEMA_VERSION && p[19..21] == [32, 0]
    ensures p == [SCHEMA_VERSION] + p[1..18] + [p[18]] + [32, 0] + p[21..53]
  {
    assert p == [p[0]] + p[1..18] + [p[18]] + p[19..21] + p[21..53];
  }

  lemma DigestLength(data: seq<byte>)
    requires |data| == 2
    ensures FromLittleEndian(data) == 32 <==> data == [32, 0]
  {
    assert FromLittleEndian(data) == data[0] + 256 * FromLittleEndian(data[1..]);
    assert FromLittleEndian(data[1..]) == data[1] + 256 * FromLittleEndian(data[1..][1..]);
    assert data == [data[0], data[1]];
  }

  lemma ResponseCodecExact(p: seq<byte>, r: ServiceResponse)
    ensures DecodeServiceResponse(p) == Some(r) <==> r.Valid() && p == EncodeServiceResponse(r)
  {
    hide FromLittleEndian, KeyOf, KeyBytes;
    if r.Valid() && p == EncodeServiceResponse(r) {
      KeyRoundTrip(r.key, KeyBytes(r.key));
      SliceResponse(KeyBytes(r.key), r.status.Code(), r.digest);
      DigestLength(p[19..21]);
    }
    if DecodeServiceResponse(p) == Some(r) {
      KeyRoundTrip(r.key, p[1..18]);
      DigestLength(p[19..21]);
      JoinResponse(p);
    }
  }

  // ----- the endpoint's payload crosses the bridge -----

  /** The request an endpoint publishes, as the host should read it. */
  function Published(txnId: u32, s: ServiceRequest, epoch: nat): ServiceRequired {
    ServiceRequired(ServiceKey(epoch, txnId, s.serviceId, BLAKE3_COMPRESS),
                    Endpoint.F128Words(s.message), Endpoint.F128Words(s.chaining),
                    Low(s.metadata, 64), Low(Shr(s.metadata, 64), 32), Shr(s.metadata, 96))
  }

  /** Counter, block length and flags sit where the metadata word is cut. */
  lemma MetadataCut(metadata: F128)
    ensures var m := F128Bytes(metadata);
            && FromLittleEndian(m[..8]) == Low(metadata, 64)
            && FromLittleEndian(m[8..12]) == Low(Shr(metadata, 64), 32)
            && FromLittleEndian(m[12..]) == Shr(metadata, 96)
  {
    TopWord(metadata);
    hide LittleEndian, FromLittleEndian, Shr, Low, Pow2;
    LittleEndianSplit(8, 8, metadata);
    LittleEndianSplit(4, 4, Shr(metadata, 64));
    LittleEndianKeeps(8, metadata);
    LittleEndianKeeps(4, Shr(metadata, 64));
    LittleEndianKeeps(4, Shr(Shr(metadata, 64), 32));
    var a, b, c := LittleEndian(8, metadata), LittleEndian(4, Shr(metadata, 64)), LittleEndian(4, Shr(Shr(metadata, 64), 32));
    var m := F128Bytes(metadata);
    assert m == a + (b + c);
    assert m[..8] == a && m[8..12] == b && m[12..] == c;
  }

  lemma TopWord(metadata: F128)
    ensures Low(Shr(Shr(metadata, 64), 32), 32) == Shr(metadata, 96)
  {
    Pow2At128();
    ShrAdd(metadata, 64, 32);
    ShrBound(metadata, 96, 32);
    LowSmall(Shr(metadata, 96), 32);
  }

  lemma FlagsKnown(metadata: F128)
    requires MetadataSupported(metadata)
    ensures Shr(Shr(metadata, 96), 7) == 0 && Low(metadata, 64) < U64_LIMIT
  {
    Pow2At64();
    LowBound(metadata, 64);
    assert Pow2(7) == 0x80;
    ShrBound(Shr(metadata, 96), 7, 0);
  }

  /** Every service request the endpoint can publish is accepted, with the operands it published. */
  lemma PublishedCrosses(txnId: u32, s: Suspension, epoch: nat)
    requires s.Valid() && 0 < epoch < U64_LIMIT
    ensures FromV1(Endpoint.ServicePayload(txnId, s.service), epoch) == Some(Published(txnId, s.service, epoch))
  {
    var r := Published(txnId, s.service, epoch);
    MetadataCut(s.service.metadata);
    FlagsKnown(s.service.metadata);
    hide LittleEndian, FromLittleEndian, Shr, U32Of, U32Bytes, F128Bytes, Low, Endpoint.F128Words;
    var tail := F128Bytes(s.service.metadata);
    SliceV1(U32Bytes(txnId), U32Bytes(s.service.serviceId), BLAKE3_COMPRESS, r.message, r.chaining, tail);
    U32RoundTrip(txnId, []);
    U32RoundTrip(s.service.serviceId, []);
  }

  // ----- the adapter -----

  datatype Adapter = Adapter(epoch: nat, usedEpochs: set<nat>, outstanding: Option<ServiceRequired>, completed: set<ServiceKey>) {
    ghost predicate Valid() {
      && 0 < epoch < U64_LIMIT && epoch in usedEpochs
      && (outstanding.Some? ==> outstanding.value.Valid() && outstanding.value.key.epoch == epoch)
      && (forall k :: k in completed ==> k.epoch == epoch)
      && (outstanding.Some? ==> outstanding.value.key !in completed)
    }

    predicate IsOutstanding(key: ServiceKey) {
      outstanding.Some? && outstanding.value.key == key
    }
  }

  /** `accept_required`: a first delivery, or an identical retry of the outstanding one. */
  function Accepted(a: Adapter, payload: seq<byte>): (Adapter, Option<ServiceRequired>) {
    match FromV1(payload, a.epoch)
    case None => (a, None)
    case Some(r) =>
      if a.outstanding.Some? then (a, if r == a.outstanding.value then Some(r) else None)
      else if r.key in a.completed then (a, None)
      else (a.(outstanding := Some(r)), Some(r))
  }

  /** `to_v1`. */
  function Emitted(a: Adapter, response: ServiceResponse): Option<Request>
    requires response.Valid()
  {
    if !a.IsOutstanding(response.key) || response.status != SERVICE_OK then None
    else Some(Request.ServiceResponse(response.key.txnId, response.key.serviceId, response.key.kind,
                                      F128Of(response.digest[..16]), F128Of(response.digest[16..])))
  }

  function Completed(a: Adapter, key: ServiceKey): Adapter {
    if a.IsOutstanding(key) then a.(completed := a.completed + {key}, outstanding := None) else a
  }

  function AbortedAdapter(a: Adapter): Adapter {
    match a.outstanding
    case Some(r) => a.(completed := a.completed + {r.key}, outstanding := None)
    case None => a
  }

  predicate FreshEpoch(a: Adapter, epoch: nat) {
    0 < epoch < U64_LIMIT && epoch !in a.usedEpochs
  }

  function ResetAdapter(a: Adapter, epoch: nat): Adapter {
    if FreshEpoch(a, epoch) then Adapter(epoch, a.usedEpochs + {epoch}, None, {}) else a
  }

  /** One attempt at the service: its infrastructure failed, or it returned some bytes. */
  datatype Attempt = Unavailable | Returned(digest: seq<byte>)

  datatype ComputeResult = Computed(response: ServiceResponse) | SemanticError | InfrastructureError

  class ModelServiceAdapter {
    var epoch: nat
    var usedEpochs: set<nat>
    const maxRetries: nat
    var outstanding: Option<ServiceKey>
    var outstandingRequest: Option<ServiceRequired>
    var completed: set<ServiceKey>

    function View(): Adapter
      reads this
    {
      Adapter(epoch, usedEpochs, outstandingRequest, completed)
    }

    ghost predicate Valid()
      reads this
    {
      && View().Valid()
      && outstanding == match outstandingRequest case Some(r) => Some(r.key) case None => None
    }

    constructor (epoch: nat, maxRetries: nat)
      requires 0 < epoch < U64_LIMIT
      ensures Valid() && View() == Adapter(epoch, {epoch}, None, {}) && this.maxRetries == maxRetries
    {
      this.epoch, this.maxRetries := epoch, maxRetries;
      usedEpochs, completed := {epoch}, {};
      outstanding, outstandingRequest := None, None;
    }

    method AcceptRequired(payload: seq<byte>) returns (r: Option<ServiceRequired>)
      requires Valid()
      modifies this
      ensures Valid() && (View(), r) == Accepted(old(View()), payload)
    {
      r := FromV1(payload, epoch);
      if r.None? {
        return None;
      }
      BridgeExact(payload, epoch, r.value);
      if outstanding.Some? {
        if r.value.key != outstanding.value || r != outstandingRequest {
          return None;
        }
      } else if r.value.key in completed {
        return None;
      } else {
        outstanding, outstandingRequest := Some(r.value.key), r;
      }
    }

    /** `compute` against the given attempts: the first one the infrastructure carries out decides. */
    method Compute(request: ServiceRequired, attempts: seq<Attempt>) returns (r: ComputeResult)
      requires Valid() && |attempts| == maxRetries + 1
      ensures outstandingRequest != Some(request) ==> r == SemanticError
      ensures outstandingRequest == Some(request) ==>
        match r
        case InfrastructureError => forall i :: 0 <= i <= maxRetries ==> attempts[i].Unavailable?
        case _ => exists i :: 0 <= i <= maxRetries && Settles(attempts, i) && r == Verdict(request, attempts[i])
      ensures r.Computed? ==> r.response.Valid() && r.response.status == SERVICE_OK && View().IsOutstanding(r.response.key)
    {
      if outstandingRequest != Some(request) {
        return SemanticError;
      }
      for i := 0 to |attempts|
        invariant forall j :: 0 <= j < i ==> attempts[j].Unavailable?
      {
        match attempts[i] {
          case Returned(digest) =>
            assert Settles(attempts, i);
            return Verdict(request, attempts[i]);
          case Unavailable =>
        }
      }
      return InfrastructureError;
    }

    method ToV1(response: ServiceResponse) returns (frame: Option<Request>)
      requires Valid() && response.Valid()
      ensures frame == Emitted(View(), response)
    {
      if outstanding != Some(response.key) || response.status != SERVICE_OK {
        return None;
      }
      return Some(Request.ServiceResponse(response.key.txnId, response.key.serviceId, response.key.kind,
                                          F128Of(response.digest[..16]), F128Of(response.digest[16..])));
    }

    method Complete(key: ServiceKey) returns (ok: bool)
      requires Valid()
      modifies this
      ensures Valid() && View() == Completed(old(View()), key) && ok == old(View().IsOutstanding(key))
    {
      if outstanding != Some(key) {
        return false;
      }
      completed := completed + {key};
      outstanding, outstandingRequest := None, None;
      return true;
    }

    method Abort()
      requires Valid()
      modifies this
      ensures Valid() && View() == AbortedAdapter(old(View()))
    {
      if outstanding.Some? {
        completed := completed + {outstanding.value};
      }
      outstanding, outstandingRequest := None, None;
    }

    method Reset(newEpoch: nat) returns (ok: bool)
      requires Valid()
      modifies this
      ensures Valid() && View() == ResetAdapter(old(View()), newEpoch) && ok == old(FreshEpoch(View(), newEpoch))
    {
      if !(0 < newEpoch < U64_LIMIT) || newEpoch in usedEpochs {
        return false;
      }
      usedEpochs, epoch := usedEpochs + {newEpoch}, newEpoch;
      outstanding, outstandingRequest, completed := None, None, {};
      return true;
    }
  }

  predicate Settles(attempts: seq<Attempt>, i: nat) {
    i < |attempts| && attempts[i].Returned? && forall j :: 0 <= j < i ==> attempts[j].Unavailable?
  }

  function Verdict(request: ServiceRequired, attempt: Attempt): ComputeResult
    requires attempt.Returned?
  {
    if |attempt.digest| == 32 then Computed(ServiceResponse.ServiceResponse(request.key, SERVICE_OK, attempt.digest)) else SemanticError
  }

  // ----- replay safety over every history -----

  datatype Event =
    | Deliver(payload: seq<byte>)
    | Answer(response: ServiceResponse)
    | Finish(key: ServiceKey)
    | AbortService
    | NewEpoch(epoch: nat)

  /** The adapter, every key that ever became outstanding, and every key whose digest was sent on. */
  datatype History = History(a: Adapter, begun: seq<ServiceKey>, sent: seq<ServiceKey>)

  function Record(h: History, e: Event): History {
    match e
    case Deliver(payload) =>
      var (a, _) := Accepted(h.a, payload);
      History(a, if a.outstanding.Some? && h.a.outstanding.None? then h.begun + [a.outstanding.value.key] else h.begun, h.sent)
    case Answer(response) =>
      if response.Valid() && Emitted(h.a, response).Some? then h.(sent := h.sent + [response.key]) else h
    case Finish(key) => h.(a := Completed(h.a, key))
    case AbortService => h.(a := AbortedAdapter(h.a))
    case NewEpoch(epoch) => h.(a := ResetAdapter(h.a, epoch))
  }

  predicate NoRepeats(keys: seq<ServiceKey>) {
    forall i, j :: 0 <= i < j < |keys| ==> keys[i] != keys[j]
  }

  ghost predicate Safe(h: History) {
    && h.a.Valid()
    && NoRepeats(h.begun)
    && (forall k :: k in h.begun ==> k.epoch in h.a.usedEpochs)
    && (forall k :: k in h.begun && k.epoch == h.a.epoch ==> k in h.a.completed || h.a.IsOutstanding(k))
    && (h.a.outstanding.Some? ==> h.begun != [] && h.begun[|h.begun| - 1] == h.a.outstanding.value.key)
    && (forall k :: k in h.sent ==> k in h.begun)
  }

  lemma RecordKeepsSafe(h: History, e: Event)
    requires Safe(h)
    ensures Safe(Record(h, e))
    ensures h.begun <= Record(h, e).begun
  {
    match e
    case Deliver(payload) =>
      var (a, r) := Accepted(h.a, payload);
      if a.outstanding.Some? && h.a.outstanding.None? {
        BridgeExact(payload, h.a.epoch, r.value);
        assert r.value.key !in h.begun;
      }
    case _ =>
  }

  function Replay(h: History, events: seq<Event>): History
    decreases |events|
  {
    if events == [] then h else Replay(Record(h, events[0]), events[1..])
  }

  lemma {:induction false} ReplayKeepsSafe(h: History, events: seq<Event>)
    requires Safe(h)
    ensures Safe(Replay(h, events))
    decreases |events|
  {
    if events != [] {
      RecordKeepsSafe(h, events[0]);
      ReplayKeepsSafe(Record(h, events[0]), events[1..]);
    }
  }

  function NewSession(epoch: nat): History {
    History(Adapter(epoch, {epoch}, None, {}), [], [])
  }

  /** No key becomes outstanding twice, over any history and any number of sessions; and a
      digest is sent on only for the key that is outstanding, which is the last one begun. */
  lemma NoServiceReplayed(epoch: nat, events: seq<Event>, response: ServiceResponse)
    requires 0 < epoch < U64_LIMIT && response.Valid()
    ensures var h := Replay(NewSession(epoch), events);
            && NoRepeats(h.begun)
            && (forall k :: k in h.sent ==> k in h.begun)
            && (Emitted(h.a, response).Some? ==> h.begun != [] && h.begun[|h.begun| - 1] == response.key)
  {
    ReplayKeepsSafe(NewSession(epoch), events);
  }

  // ----- adapter and endpoint together -----

  /** The digest bytes arrive in the endpoint's frame unchanged. */
  lemma EmittedCarriesDigest(a: Adapter, response: ServiceResponse)
    requires response.Valid() && Emitted(a, response).Some?
    ensures var r := Emitted(a, response).value;
            && r.Valid() && r.ServiceResponse?
            && F128Bytes(r.digest0) + F128Bytes(r.digest1) == response.digest
  {
    F128RoundTrip(0, response.digest[..16]);
    F128RoundTrip(0, response.digest[16..]);
    assert response.digest == response.digest[..16] + response.digest[16..];
  }

  /** A digest computed for what the endpoint published resumes exactly that transaction; a
      digest for any other service of the session is never sent to it. */
  lemma AnswersItsSuspension(e: Endpoint.State, a: Adapter, response: ServiceResponse)
    requires e.Valid() && a.Valid() && response.Valid()
    requires e.staged.Some? && e.staged.value.Suspended?
    requires a.outstanding == Some(Published(e.staged.value.txnId, e.staged.value.suspension.service, a.epoch))
    requires Emitted(a, response).Some?
    ensures var r := Emitted(a, response).value;
            && r.ServiceResponse?
            && Endpoint.HandleServiceResponse(e, r)
               == match Resume(e.staged.value.suspension, r.digest0, r.digest1)
                  case Err(fault) => Endpoint.Handled(Endpoint.Discarded(e), Some(fault))
                  case Ok(d) => Endpoint.Handled(Endpoint.Finish(e, e.staged.value.txnId, d), None)
  {
    hide Resume, Endpoint.Finish, Endpoint.F128Words, F128Of, Low, Shr;
  }

  /** What the endpoint publishes becomes the outstanding request of an adapter that has none
      and has not completed that key. */
  lemma PublishedBecomesOutstanding(e: Endpoint.State, a: Adapter)
    requires e.Valid() && a.Valid() && a.outstanding == None
    requires e.staged.Some? && e.staged.value.Suspended?
    ensures var r := Published(e.staged.value.txnId, e.staged.value.suspension.service, a.epoch);
            r.key !in a.completed ==>
              Accepted(a, Endpoint.ServicePayload(e.staged.value.txnId, e.staged.value.suspension.service))
              == (a.(outstanding := Some(r)), Some(r))
  {
    PublishedCrosses(e.staged.value.txnId, e.staged.value.suspension, a.epoch);
    hide FromV1, Endpoint.ServicePayload, Endpoint.F128Words;
  }
}
