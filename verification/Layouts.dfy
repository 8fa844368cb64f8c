/** The payloads byte by byte: where every field of every message lies. The codecs elsewhere are inverse
    to each other; this fixes which bytes they exchange. */
module Layouts {
  import opened Bits
  import opened Bytes
  import opened Ghash
  import opened Protocol
  import opened Wire
  import opened Requests
  import opened Results
  import opened Transitions
  import opened Endpoint
  import Service = Blake3Service

  /** The number in `n` bytes from `at`, least significant first. */
  function At(p: seq<byte>, at: nat, n: nat): nat
    requires at + n <= |p|
  {
    FromLittleEndian(p[at..at + n])
  }

  lemma FourWords(a: u32, b: u32, c: u32, d: u32)
    ensures FromLittleEndian(U32Bytes(a)) == a && FromLittleEndian(U32Bytes(b)) == b
    ensures FromLittleEndian(U32Bytes(c)) == c && FromLittleEndian(U32Bytes(d)) == d
  {
    Pow2At32();
    FromToLittleEndian(4, a);
    FromToLittleEndian(4, b);
    FromToLittleEndian(4, c);
    FromToLittleEndian(4, d);
  }

  // ----- the endpoint's own replies -----

  /** Every field of a STATUS_QUERY reply. */
  lemma StatusFields(e: State)
    ensures var p := StatusPayload(e);
            && |p| == 20
            && p[0] == (match e.phase case IDLE => 0 case RESULT_PENDING => 1 case SERVICE_PENDING => 2)
            && At(p, 1, 4) == (match e.staged case Some(s) => s.txnId case None => 0)
            && p[5] == e.lastStatus.Code()
            && At(p, 6, 4) == e.retireSeq % U32_LIMIT
            && p[10] == e.lastFault.Code()
            && At(p, 11, 4) == e.committedPc && At(p, 15, 4) == e.committedFp
            && (p[19] == 1 <==> e.stateValid) && p[19] <= 1
  {
    var p := StatusPayload(e);
    var a, b, c, d, f := U32Bytes(StagedTxnId(e)), LittleEndian(4, e.retireSeq), U32Bytes(e.committedPc), U32Bytes(e.committedFp), [e.lastFault.Code()];
    hide U32Bytes, LittleEndian, FromLittleEndian, Status.Code;
    assert p[1..5] == a && p[6..10] == b && p[11..15] == c && p[15..19] == d;
    FourWords(StagedTxnId(e), e.committedPc, e.committedFp, 0);
    LittleEndianKeeps(4, e.retireSeq);
    LowIsRemainder(e.retireSeq);
  }

  lemma LowIsRemainder(v: nat)
    ensures Low(v, 32) == v % U32_LIMIT
  {
    Pow2At32();
    LowPlusShr(v, 32);
    LowBound(v, 32);
  }

  /** The 14 bytes of a successful negotiation: version, profile, 256 bytes of payload at most, 16 index
      bits, three features, and the device id. */
  lemma NegotiateFields(profile: Profile)
    ensures var p := NegotiatePayload(profile);
            && |p| == 14 && p[0] == 1 && p[1] == (if profile == FORWARD_ONLY then 0 else 1)
            && p[2] == 0 && p[3] == 1 && p[4] == 16 && p[5] == 0
            && At(p, 6, 4) == 7 && At(p, 10, 4) == 0x4C53_4331
  {
    hide U32Bytes, FromLittleEndian;
    var p := NegotiatePayload(profile);
    assert p[6..10] == U32Bytes(DEVICE_FEATURES) && p[10..14] == U32Bytes(DEVICE_ID);
    FourWords(DEVICE_FEATURES, DEVICE_ID, 0, 0);
  }

  /** The acknowledgement of a retirement. */
  lemma RetiredFields(txnId: u32, retireSeq: u32, pc: u32, fp: u32)
    ensures var p := RetiredPayload(txnId, retireSeq, pc, fp);
            At(p, 0, 4) == txnId && At(p, 4, 4) == retireSeq && At(p, 8, 4) == pc && At(p, 12, 4) == fp
  {
    var p := RetiredPayload(txnId, retireSeq, pc, fp);
    assert p[0..4] == U32Bytes(txnId) && p[4..8] == U32Bytes(retireSeq) && p[8..12] == U32Bytes(pc) && p[12..16] == U32Bytes(fp);
    hide U32Bytes, FromLittleEndian;
    FourWords(txnId, retireSeq, pc, fp);
  }

  /** A fault: the transaction it belongs to and a detail byte. */
  lemma FaultFields(status: Status, txnId: u32, detail: byte)
    ensures var r := FaultResponse(status, txnId, detail);
            r.status == status && |r.payload| == 5 && At(r.payload, 0, 4) == txnId && r.payload[4] == detail
  {
    var payload := FaultResponse(status, txnId, detail).payload;
    assert payload[0..4] == U32Bytes(txnId);
    hide U32Bytes, FromLittleEndian;
    FourWords(txnId, 0, 0, 0);
  }

  // ----- the result of a transition -----

  lemma {:induction false} RecordAt<T>(c: Codec<T>, xs: seq<T>, i: nat)
    requires i < |xs| && forall x :: x in xs ==> |c.encode(x)| == c.width
    ensures |Concat(c, xs)| == c.width * |xs| && c.width * i + c.width <= c.width * |xs|
    ensures Concat(c, xs)[c.width * i..c.width * i + c.width] == c.encode(xs[i])
    decreases |xs|
  {
    var w, rest := c.width, Concat(c, xs[1..]);
    assert Concat(c, xs) == c.encode(xs[0]) + rest;
    if i == 0 {
      if |xs| > 1 {
        RecordAt(c, xs[1..], 0);
      }
      Multiples(w, 0, |xs|);
    } else {
      RecordAt(c, xs[1..], i - 1);
      Multiples(w, i, |xs|);
      assert Concat(c, xs)[w..] == rest;
      assert Concat(c, xs)[w * i..w * i + w] == rest[w * (i - 1)..w * (i - 1) + w];
    }
  }

  lemma Multiples(w: nat, i: nat, n: nat)
    requires i < n
    ensures w * i + w <= w * n && w * n == w + w * (n - 1) && (i > 0 ==> w * i == w + w * (i - 1))
  {
    assert w * n == w * i + w + w * (n - i - 1);
  }

  /** Record `i` of a list that begins at `at`. */
  lemma ListAt<T>(p: seq<byte>, at: nat, c: Codec<T>, xs: seq<T>, i: nat)
    requires i < |xs| && forall x :: x in xs ==> |c.encode(x)| == c.width
    requires at + c.width * |xs| <= |p| && p[at..at + c.width * |xs|] == Concat(c, xs)
    ensures at + c.width * i + c.width <= |p|
    ensures p[at + c.width * i..at + c.width * i + c.width] == c.encode(xs[i])
  {
    hide Concat;
    RecordAt(c, xs, i);
    SliceOfSlice(p, at, c.width * |xs|, c.width * i, c.width);
  }

  lemma SliceOfSlice(p: seq<byte>, at: nat, n: nat, from: nat, w: nat)
    requires at + n <= |p| && from + w <= n
    ensures p[at..at + n][from..from + w] == p[at + from..at + from + w]
  {
    var x, y := p[at..at + n][from..from + w], p[at + from..at + from + w];
    assert |x| == w && forall j :: 0 <= j < w ==> x[j] == y[j];
  }

  /** Where the three lists of a result begin. */
  function DeferredFrom(t: Transition): nat {
    13 + 20 * |t.writes|
  }

  function AccessesFrom(t: Transition): nat {
    DeferredFrom(t) + 1 + 8 * |t.deferred|
  }

  lemma ResultParts(t: Transition)
    requires t.Encodable()
    ensures var p, d, a := EncodeTransition(t), DeferredFrom(t), AccessesFrom(t);
            && |p| == a + 1 + 4 * |t.accesses|
            && p[0..4] == U32Bytes(t.txnId) && p[4..8] == U32Bytes(t.nextPc) && p[8..12] == U32Bytes(t.nextFp)
            && p[12] == |t.writes| && p[13..13 + 20 * |t.writes|] == Concat(WriteCodec(), t.writes)
            && p[d] == |t.deferred| && p[d + 1..d + 1 + 8 * |t.deferred|] == Concat(DeferredCodec(), t.deferred)
            && p[a] == |t.accesses| && p[a + 1..a + 1 + 4 * |t.accesses|] == Concat(AccessCodec(), t.accesses)
  {
    ConcatLength(WriteCodec(), t.writes);
    ConcatLength(DeferredCodec(), t.deferred);
    ConcatLength(AccessCodec(), t.accesses);
    hide U32Bytes, Concat, EncodeWrite, EncodeDeferred;
    var w, e, x := Concat(WriteCodec(), t.writes), Concat(DeferredCodec(), t.deferred), Concat(AccessCodec(), t.accesses);
    PartsAt(U32Bytes(t.txnId), U32Bytes(t.nextPc), U32Bytes(t.nextFp), |t.writes|, w, |t.deferred|, e, |t.accesses|, x);
  }

  lemma PartsAt(a: seq<byte>, b: seq<byte>, c: seq<byte>, m: byte, w: seq<byte>, n: byte, e: seq<byte>, k: byte, x: seq<byte>)
    requires |a| == |b| == |c| == 4
    ensures var p := a + (b + (c + ([m] + w + ([n] + e + ([k] + x + [])))));
            var d := 13 + |w|;
            var f := d + 1 + |e|;
            && |p| == f + 1 + |x|
            && p[0..4] == a && p[4..8] == b && p[8..12] == c
            && p[12] == m && p[13..d] == w && p[d] == n && p[d + 1..f] == e && p[f] == k && p[f + 1..f + 1 + |x|] == x
  {
  }

  /** The result payload: transaction, next program counter and frame pointer; then writes, deferred
      equalities and accesses, each list behind its count byte. */
  lemma ResultFields(t: Transition)
    requires t.Encodable()
    ensures var p, d, a := EncodeTransition(t), DeferredFrom(t), AccessesFrom(t);
            && |p| == a + 1 + 4 * |t.accesses|
            && At(p, 0, 4) == t.txnId && At(p, 4, 4) == t.nextPc && At(p, 8, 4) == t.nextFp
            && p[12] == |t.writes| && p[d] == |t.deferred| && p[a] == |t.accesses|
  {
    hide U32Bytes, FromLittleEndian, Concat, EncodeTransition;
    ResultParts(t);
    FourWords(t.txnId, t.nextPc, t.nextFp, 0);
  }

  lemma ResultWrite(t: Transition, i: nat)
    requires t.Encodable() && i < |t.writes|
    ensures var p := EncodeTransition(t);
            && 13 + 20 * i + 20 <= |p|
            && At(p, 13 + 20 * i, 4) == t.writes[i].address && At(p, 13 + 20 * i + 4, 16) == t.writes[i].value
  {
    hide U32Bytes, FromLittleEndian, Concat, EncodeTransition;
    ResultParts(t);
    ListAt(EncodeTransition(t), 13, WriteCodec(), t.writes, i);
    WriteAt(EncodeTransition(t), 13 + 20 * i, t.writes[i]);
  }

  lemma ResultDeferred(t: Transition, i: nat)
    requires t.Encodable() && i < |t.deferred|
    ensures var p, at := EncodeTransition(t), DeferredFrom(t) + 1 + 8 * i;
            at + 8 <= |p| && At(p, at, 4) == t.deferred[i].target && At(p, at + 4, 4) == t.deferred[i].local
  {
    hide U32Bytes, FromLittleEndian, Concat, EncodeTransition;
    ResultParts(t);
    ListAt(EncodeTransition(t), DeferredFrom(t) + 1, DeferredCodec(), t.deferred, i);
    DeferredAt(EncodeTransition(t), DeferredFrom(t) + 1 + 8 * i, t.deferred[i]);
  }

  lemma ResultAccess(t: Transition, i: nat)
    requires t.Encodable() && i < |t.accesses|
    ensures var p, at := EncodeTransition(t), AccessesFrom(t) + 1 + 4 * i;
            at + 4 <= |p| && At(p, at, 4) == t.accesses[i]
  {
    hide U32Bytes, FromLittleEndian, Concat, EncodeTransition;
    ResultParts(t);
    ListAt(EncodeTransition(t), AccessesFrom(t) + 1, AccessCodec(), t.accesses, i);
    FourWords(t.accesses[i], 0, 0, 0);
  }

  lemma WriteAt(p: seq<byte>, at: nat, w: Write)
    requires at + 20 <= |p| && p[at..at + 20] == EncodeWrite(w)
    ensures At(p, at, 4) == w.address && At(p, at + 4, 16) == w.value
  {
    hide U32Bytes, F128Bytes, FromLittleEndian;
    assert p[at..at + 4] == p[at..at + 20][..4] == U32Bytes(w.address);
    assert p[at + 4..at + 20] == p[at..at + 20][4..] == F128Bytes(w.value);
    FourWords(w.address, 0, 0, 0);
    ElementBytes(w.value);
  }

  lemma ElementBytes(v: F128)
    ensures FromLittleEndian(F128Bytes(v)) == v
  {
    Pow2At128();
    FromToLittleEndian(16, v);
  }

  lemma DeferredAt(p: seq<byte>, at: nat, e: DeferredEquality)
    requires at + 8 <= |p| && p[at..at + 8] == EncodeDeferred(e)
    ensures At(p, at, 4) == e.target && At(p, at + 4, 4) == e.local
  {
    hide U32Bytes, FromLittleEndian;
    assert p[at..at + 4] == p[at..at + 8][..4] == U32Bytes(e.target);
    assert p[at + 4..at + 8] == p[at..at + 8][4..] == U32Bytes(e.local);
    FourWords(e.target, e.local, 0, 0);
  }

  // ----- the service -----

  lemma {:induction false} ElementAt(words: seq<F128>, i: nat)
    requires i < |words|
    ensures At(F128Words(words), 16 * i, 16) == words[i]
  {
    hide F128Bytes, FromLittleEndian;
    var rest := F128Words(words[1..]);
    if i == 0 {
      ElementBytes(words[0]);
      assert F128Words(words)[0..16] == F128Bytes(words[0]);
    } else {
      ElementAt(words[1..], i - 1);
      assert F128Words(words)[16 * i..16 * i + 16] == rest[16 * (i - 1)..16 * (i - 1) + 16];
    }
  }

  /** The 122 bytes of SERVICE_REQUIRED. */
  lemma ServiceFields(txnId: u32, s: ServiceRequest)
    requires |s.message| == 4 && |s.chaining| == 2
    ensures var p := ServicePayload(txnId, s);
            && |p| == 122 && At(p, 0, 4) == txnId && At(p, 4, 4) == s.serviceId && p[8] == 1 && p[9] == 0
            && (forall i :: 0 <= i < 4 ==> At(p, 10 + 16 * i, 16) == s.message[i])
            && (forall i :: 0 <= i < 2 ==> At(p, 74 + 16 * i, 16) == s.chaining[i])
            && At(p, 106, 16) == s.metadata
  {
    hide U32Bytes, F128Bytes, F128Words, FromLittleEndian;
    var p := ServicePayload(txnId, s);
    var message, chaining := F128Words(s.message), F128Words(s.chaining);
    assert p[0..4] == U32Bytes(txnId) && p[4..8] == U32Bytes(s.serviceId) && p[106..122] == F128Bytes(s.metadata);
    assert p[10..74] == message && p[74..106] == chaining;
    FourWords(txnId, s.serviceId, 0, 0);
    ElementBytes(s.metadata);
    forall i | 0 <= i < 4 ensures At(p, 10 + 16 * i, 16) == s.message[i] {
      ElementAt(s.message, i);
      SliceOfSlice(p, 10, 64, 16 * i, 16);
    }
    forall i | 0 <= i < 2 ensures At(p, 74 + 16 * i, 16) == s.chaining[i] {
      ElementAt(s.chaining, i);
      SliceOfSlice(p, 74, 32, 16 * i, 16);
    }
  }

  lemma Narrow(n: nat, v: nat)
    requires v < Pow2(8 * n)
    ensures FromLittleEndian(LittleEndian(n, v)) == v
  {
    FromToLittleEndian(n, v);
  }

  lemma KeyFields(k: Service.ServiceKey)
    requires k.Valid()
    ensures var p := Service.KeyBytes(k);
            At(p, 0, 8) == k.epoch && At(p, 8, 4) == k.txnId && At(p, 12, 4) == k.serviceId && p[16] == k.kind
  {
    hide U32Bytes, LittleEndian, FromLittleEndian, Pow2;
    var p := Service.KeyBytes(k);
    assert p[0..8] == LittleEndian(8, k.epoch) && p[8..12] == U32Bytes(k.txnId) && p[12..16] == U32Bytes(k.serviceId);
    FourWords(k.txnId, k.serviceId, 0, 0);
    Service.Pow2At64();
    Narrow(8, k.epoch);
  }

  /** The host's 131-byte service request: version, key, a reserved byte, message, chaining value, and
      counter, block length and flags. */
  lemma RequiredFields(q: Service.ServiceRequired)
    requires q.Valid()
    ensures var p := Service.EncodeRequired(q);
            && |p| == 131 && p[0] == 1 && p[1..18] == Service.KeyBytes(q.key) && p[18] == 0
            && p[19..83] == q.message && p[83..115] == q.chaining
            && At(p, 115, 8) == q.counter && At(p, 123, 4) == q.blockLen && At(p, 127, 4) == q.flags
  {
    hide LittleEndian, FromLittleEndian, Service.KeyBytes, Pow2, Shr;
    var p := Service.EncodeRequired(q);
    assert p[115..123] == LittleEndian(8, q.counter) && p[123..127] == LittleEndian(4, q.blockLen) && p[127..131] == LittleEndian(4, q.flags);
    Service.Pow2At64();
    Pow2At32();
    SmallFlags(q.flags);
    Narrow(8, q.counter);
    Narrow(4, q.blockLen);
    Narrow(4, q.flags);
  }

  lemma SmallFlags(v: nat)
    requires Shr(v, 7) == 0
    ensures v < U32_LIMIT
  {
    assert Pow2(4) == 16;
    Pow2Add(3, 4);
    LowPlusShr(v, 7);
    LowBound(v, 7);
  }

  /** The 53-byte service response: version, key, status, digest length and digest. */
  lemma ResponseFields(r: Service.ServiceResponse)
    requires r.Valid()
    ensures var p := Service.EncodeServiceResponse(r);
            && |p| == 53 && p[0] == 1 && p[1..18] == Service.KeyBytes(r.key) && p[18] == r.status.Code() && r.status.Code() <= 2
            && r.status == [Service.SERVICE_OK, Service.TRANSIENT_FAILURE, Service.PERMANENT_FAILURE][p[18]]
            && p[19] == 32 && p[20] == 0 && p[21..53] == r.digest
  {
    hide Service.KeyBytes;
  }

  // ----- requests -----

  function CellBytes(c: Cell): seq<byte> {
    [if c.present then 1 else 0] + F128Bytes(c.value)
  }

  function AllCells(cells: seq<Cell>): seq<byte> {
    if cells == [] then [] else CellBytes(cells[0]) + AllCells(cells[1..])
  }

  function AllWords(words: seq<u32>): seq<byte> {
    if words == [] then [] else U32Bytes(words[0]) + AllWords(words[1..])
  }

  /** Transaction, program counter, frame pointer, profile, and a reserved byte. */
  function HeadBytes(h: Preamble): seq<byte> {
    AllWords([h.txnId, h.pc, h.fp]) + [if h.profile == FORWARD_ONLY then 0 else 1, 0]
  }

  lemma {:induction false} FlattenAppend(a: seq<Field>, b: seq<Field>)
    ensures Flatten(a + b) == Flatten(a) + Flatten(b)
  {
    hide EncodeField;
    if a == [] {
      assert a + b == b;
    } else {
      FlattenAppend(a[1..], b);
      assert (a + b)[1..] == a[1..] + b;
    }
  }

  lemma {:induction false} FlattenWords(words: seq<u32>)
    ensures Flatten(WordFields(words)) == AllWords(words)
  {
    if words != [] {
      FlattenWords(words[1..]);
      assert WordFields(words)[1..] == WordFields(words[1..]);
    }
  }

  lemma {:induction false} FlattenCells(cells: seq<Cell>)
    ensures Flatten(CellFields(cells)) == AllCells(cells)
  {
    if cells != [] {
      FlattenCells(cells[1..]);
      assert CellFields(cells)[1..] == CellFields(cells[1..]);
    }
  }

  lemma FlattenHead(h: Preamble)
    ensures Flatten(HeadFields(h)) == HeadBytes(h)
  {
    hide U32Bytes;
    FlattenWords([h.txnId, h.pc, h.fp]);
    var rest := [FProfile(h.profile), FZero];
    assert HeadFields(h) == WordFields([h.txnId, h.pc, h.fp]) + rest;
    FlattenAppend(WordFields([h.txnId, h.pc, h.fp]), rest);
    assert Flatten(rest[1..]) == [0] + [] == [0];
  }

  /** The operands of a request behind its head. */
  function OperandBytes(r: Request): seq<byte>
    requires r.Valid()
  {
    match r
    case Xor(_, offsets, cells) => AllWords(offsets) + AllCells(cells)
    case Mul(_, offsets, cells, inverse) => AllWords(offsets) + AllCells(cells + [inverse])
    case SetConstant(_, offset, constant, cell) => U32Bytes(offset) + F128Bytes(constant) + CellBytes(cell)
    case Deref(_, _, alpha, beta, gamma, pointer, base, target, local) =>
      AllWords([alpha, beta, gamma]) + CellBytes(pointer) + U32Bytes(base) + CellBytes(target) + CellBytes(local)
    case Jump(_, offsets, cells, taken, destPc, destFp, inverse) =>
      AllWords(offsets) + AllCells(cells) + [if taken then 1 else 0] + U32Bytes(destPc) + U32Bytes(destFp) + CellBytes(inverse)
    case Blake3(_, offsets, cv, out, metadata, cells) =>
      AllWords(offsets) + U32Bytes(cv) + U32Bytes(out) + F128Bytes(metadata) + AllCells(cells)
    case Negotiate(low, high, profile, features) => [low, high, if profile == FORWARD_ONLY then 0 else 1] + U32Bytes(features)
    case ServiceResponse(txnId, serviceId, kind, d0, d1) =>
      U32Bytes(txnId) + U32Bytes(serviceId) + [kind, 0] + F128Bytes(d0) + F128Bytes(d1)
    case Retire(txnId, crc) => U32Bytes(txnId) + U32Bytes(crc)
    case StatusQuery => []
  }

  lemma FlattenFields(a: Field, b: Field, c: Field, d: Field)
    ensures Flatten([a]) == EncodeField(a)
    ensures Flatten([a, b]) == EncodeField(a) + EncodeField(b)
    ensures Flatten([a, b, c]) == EncodeField(a) + EncodeField(b) + EncodeField(c)
    ensures Flatten([a, b, c, d]) == EncodeField(a) + EncodeField(b) + EncodeField(c) + EncodeField(d)
  {
    hide EncodeField;
    assert [] + [a] == [a] && [a] + [b] == [a, b] && [a, b] + [c] == [a, b, c] && [a, b, c] + [d] == [a, b, c, d];
    NothingFlattened();
    FlattenLast([], a);
    FlattenLast([a], b);
    FlattenLast([a, b], c);
    FlattenLast([a, b, c], d);
  }

  lemma FlattenLast(fields: seq<Field>, f: Field)
    ensures Flatten(fields + [f]) == Flatten(fields) + EncodeField(f)
  {
    FlattenAppend(fields, [f]);
    hide EncodeField;
    assert [f][1..] == [] && EncodeField(f) + [] == EncodeField(f);
  }

  lemma FlattenThree(a: seq<Field>, b: seq<Field>, c: seq<Field>, d: seq<Field>)
    ensures Flatten(a + b) == Flatten(a) + Flatten(b)
    ensures Flatten(a + b + c) == Flatten(a) + (Flatten(b) + Flatten(c))
    ensures Flatten(a + b + c + d) == Flatten(a) + (Flatten(b) + Flatten(c) + Flatten(d))
  {
    hide Flatten;
    FlattenAppend(a, b);
    FlattenAppend(a + b, c);
    FlattenAppend(a + b + c, d);
    var x, y, z, w := Flatten(a), Flatten(b), Flatten(c), Flatten(d);
    assert x + y + z == x + (y + z) && x + y + z + w == x + (y + z + w);
  }

  /** Every request payload, byte by byte. */
  lemma RequestFields(r: Request)
    requires r.Valid()
    ensures Payload(r) == (if IsScalar(r) || r.Blake3? then HeadBytes(r.head) else []) + OperandBytes(r)
  {
    match r {
      case Xor(_, _, _) => BinaryFields(r);
      case Mul(_, _, _, _) => BinaryFields(r);
      case Jump(_, _, _, _, _, _, _) => JumpFields(r);
      case Blake3(_, _, _, _, _, _) => Blake3Fields(r);
      case Deref(_, _, _, _, _, _, _, _, _) => DerefFields(r);
      case SetConstant(h, offset, constant, cell) =>
        FlattenHead(h);
        FlattenThree(HeadFields(h), [FU32(offset), FF128(constant), FCell(cell)], [], []);
        FlattenFields(FU32(offset), FF128(constant), FCell(cell), FZero);
      case _ => ControlFields(r);
    }
  }

  lemma BinaryFields(r: Request)
    requires r.Valid() && (r.Xor? || r.Mul?)
    ensures Payload(r) == HeadBytes(r.head) + OperandBytes(r)
  {
    hide Flatten, EncodeField, U32Bytes, F128Bytes, AllWords, AllCells, HeadBytes;
    FlattenHead(r.head);
    FlattenWords(r.offsets);
    if r.Xor? {
      FlattenCells(r.cells);
      FlattenThree(HeadFields(r.head), WordFields(r.offsets), CellFields(r.cells), []);
    } else {
      var cells := r.cells + [r.inverse];
      FlattenCells(cells);
      assert CellFields(cells) == CellFields(r.cells) + [FCell(r.inverse)];
      assert Fields(r) == HeadFields(r.head) + WordFields(r.offsets) + CellFields(cells);
      FlattenThree(HeadFields(r.head), WordFields(r.offsets), CellFields(cells), []);
    }
  }

  lemma JumpFields(r: Request)
    requires r.Valid() && r.Jump?
    ensures Payload(r) == HeadBytes(r.head) + OperandBytes(r)
  {
    hide Flatten, U32Bytes, F128Bytes, AllWords, AllCells, HeadBytes;
    FlattenHead(r.head);
    FlattenWords(r.offsets);
    FlattenCells(r.cells);
    var tail := [FTaken(r.taken), FU32(r.destPc), FU32(r.destFp), FCell(r.inverse)];
    FlattenThree(HeadFields(r.head), WordFields(r.offsets), CellFields(r.cells), tail);
    FlattenFields(FTaken(r.taken), FU32(r.destPc), FU32(r.destFp), FCell(r.inverse));
    JoinFour(AllWords(r.offsets) + AllCells(r.cells), [if r.taken then 1 else 0], U32Bytes(r.destPc), U32Bytes(r.destFp), CellBytes(r.inverse));
  }

  lemma JoinFour(x: seq<byte>, a: seq<byte>, b: seq<byte>, c: seq<byte>, d: seq<byte>)
    ensures x + (a + b + c + d) == x + a + b + c + d
  {
  }

  lemma Blake3Fields(r: Request)
    requires r.Valid() && r.Blake3?
    ensures Payload(r) == HeadBytes(r.head) + OperandBytes(r)
  {
    hide Flatten, U32Bytes, F128Bytes, AllWords, AllCells, HeadBytes;
    FlattenHead(r.head);
    FlattenWords(r.messageOffsets);
    FlattenCells(r.cells);
    var middle := [FU32(r.cvOffset), FU32(r.outOffset), FF128(r.metadata)];
    FlattenThree(HeadFields(r.head), WordFields(r.messageOffsets), middle, CellFields(r.cells));
    FlattenFields(FU32(r.cvOffset), FU32(r.outOffset), FF128(r.metadata), FZero);
    JoinFour(AllWords(r.messageOffsets), U32Bytes(r.cvOffset), U32Bytes(r.outOffset), F128Bytes(r.metadata), []);
  }

  lemma DerefFields(r: Request)
    requires r.Valid() && r.Deref?
    ensures Payload(r) == HeadBytes(r.head) + OperandBytes(r)
  {
    hide Flatten, U32Bytes, F128Bytes, AllWords, AllCells, HeadBytes;
    FlattenHead(r.head);
    FlattenWords([r.alpha, r.beta, r.gamma]);
    var tail := [FCell(r.pointer), FU32(r.base), FCell(r.target), FCell(r.local)];
    FlattenThree(HeadFields(r.head), WordFields([r.alpha, r.beta, r.gamma]), tail, []);
    FlattenFields(FCell(r.pointer), FU32(r.base), FCell(r.target), FCell(r.local));
    JoinFour(AllWords([r.alpha, r.beta, r.gamma]), CellBytes(r.pointer), U32Bytes(r.base), CellBytes(r.target), CellBytes(r.local));
  }

  lemma ControlFields(r: Request)
    requires r.Valid() && (r.Negotiate? || r.ServiceResponse? || r.Retire? || r.StatusQuery?)
    ensures Payload(r) == OperandBytes(r)
  {
    hide Flatten, U32Bytes, F128Bytes;
    match r
    case Negotiate(low, high, profile, features) =>
      FlattenFields(FByte(low), FByte(high), FProfile(profile), FU32(features));
    case ServiceResponse(txnId, serviceId, kind, d0, d1) =>
      var head, tail := [FU32(txnId), FU32(serviceId), FByte(kind), FZero], [FF128(d0), FF128(d1)];
      assert Fields(r) == head + tail;
      FlattenThree(head, tail, [], []);
      FlattenFields(FU32(txnId), FU32(serviceId), FByte(kind), FZero);
      FlattenFields(FF128(d0), FF128(d1), FZero, FZero);
    case Retire(txnId, crc) => FlattenFields(FU32(txnId), FU32(crc), FZero, FZero);
    case StatusQuery => NothingFlattened();
  }

  lemma NothingFlattened()
    ensures Flatten([]) == []
  {
  }
}
