/** The payload of an `OK` response: the transition the endpoint decided. */
module Results {
  import opened Outcomes
  import opened Bytes
  import opened Protocol
  import opened Wire

  datatype Transition = Transition(
    txnId: u32,
    nextPc: u32,
    nextFp: u32,
    writes: seq<Write>,
    deferred: seq<DeferredEquality>,
    accesses: seq<u32>
  ) {
    /** The three counts are single bytes. */
    predicate Encodable() {
      |writes| < 256 && |deferred| < 256 && |accesses| < 256
    }
  }

  // ----- one record of each list -----

  /** A fixed-width record of a counted list. */
  datatype Codec<!T> = Codec(width: nat, encode: T -> seq<byte>, decode: seq<byte> -> T)

  ghost predicate Exact<T(!new)>(c: Codec<T>) {
    && c.width > 0
    && (forall x: T :: |c.encode(x)| == c.width && c.decode(c.encode(x)) == x)
    && (forall d: seq<byte> :: |d| == c.width ==> c.encode(c.decode(d)) == d)
  }

  function EncodeWrite(w: Write): seq<byte> {
    U32Bytes(w.address) + F128Bytes(w.value)
  }

  function DecodeWrite(d: seq<byte>): Write {
    if |d| == 20 then Write(U32Of(d[..4]), F128Of(d[4..])) else Write(0, 0)
  }

  function EncodeDeferred(e: DeferredEquality): seq<byte> {
    U32Bytes(e.target) + U32Bytes(e.local)
  }

  function DecodeDeferred(d: seq<byte>): DeferredEquality {
    if |d| == 8 then DeferredEquality(U32Of(d[..4]), U32Of(d[4..])) else DeferredEquality(0, 0)
  }

  function DecodeAccess(d: seq<byte>): u32 {
    if |d| == 4 then U32Of(d) else 0
  }

  function WriteCodec(): (c: Codec<Write>) { Codec(20, EncodeWrite, DecodeWrite) }
  function DeferredCodec(): (c: Codec<DeferredEquality>) { Codec(8, EncodeDeferred, DecodeDeferred) }
  function AccessCodec(): (c: Codec<u32>) { Codec(4, U32Bytes, DecodeAccess) }

  lemma CodecsExact()
    ensures Exact(WriteCodec()) && Exact(DeferredCodec()) && Exact(AccessCodec())
  {
    WritesExact();
    DeferredExact();
    forall v: u32 ensures DecodeAccess(U32Bytes(v)) == v {
      U32RoundTrip(v, []);
    }
    forall d: seq<byte> | |d| == 4 ensures U32Bytes(DecodeAccess(d)) == d {
      U32RoundTrip(0, d);
    }
  }

  lemma WritesExact()
    ensures Exact(WriteCodec())
  {
    hide U32Bytes, U32Of, F128Bytes, F128Of;
    forall w: Write ensures |EncodeWrite(w)| == 20 && DecodeWrite(EncodeWrite(w)) == w {
      var d := EncodeWrite(w);
      assert d[..4] == U32Bytes(w.address) && d[4..] == F128Bytes(w.value);
      U32RoundTrip(w.address, []);
      F128RoundTrip(w.value, []);
    }
    forall d: seq<byte> | |d| == 20 ensures EncodeWrite(DecodeWrite(d)) == d {
      U32RoundTrip(0, d[..4]);
      F128RoundTrip(0, d[4..]);
      assert d == d[..4] + d[4..];
    }
  }

  lemma DeferredExact()
    ensures Exact(DeferredCodec())
  {
    hide U32Bytes, U32Of;
    forall e: DeferredEquality ensures |EncodeDeferred(e)| == 8 && DecodeDeferred(EncodeDeferred(e)) == e {
      var d := EncodeDeferred(e);
      assert d[..4] == U32Bytes(e.target) && d[4..] == U32Bytes(e.local);
      U32RoundTrip(e.target, []);
      U32RoundTrip(e.local, []);
    }
    forall d: seq<byte> | |d| == 8 ensures EncodeDeferred(DecodeDeferred(d)) == d {
      U32RoundTrip(0, d[..4]);
      U32RoundTrip(0, d[4..]);
      assert d == d[..4] + d[4..];
    }
  }

  // ----- counted lists -----

  function Concat<T>(c: Codec<T>, xs: seq<T>): seq<byte> {
    if xs == [] then [] else c.encode(xs[0]) + Concat(c, xs[1..])
  }

  /** `n` records off the front of `data`, and what follows them. */
  function TakeRecords<T>(c: Codec<T>, n: nat, data: seq<byte>): Option<(seq<T>, seq<byte>)> {
    if n == 0 then Some(([], data))
    else if |data| < c.width then None
    else match TakeRecords(c, n - 1, data[c.width..])
      case None => None
      case Some((xs, rest)) => Some(([c.decode(data[..c.width])] + xs, rest))
  }

  lemma {:induction false} TakeConcat<T(!new)>(c: Codec<T>, xs: seq<T>, rest: seq<byte>)
    requires Exact(c)
    ensures TakeRecords(c, |xs|, Concat(c, xs) + rest) == Some((xs, rest))
  {
    if xs == [] {
      assert Concat(c, xs) + rest == rest;
    } else {
      TakeConcat(c, xs[1..], rest);
      var data := Concat(c, xs) + rest;
      assert data[..c.width] == c.encode(xs[0]);
      assert data[c.width..] == Concat(c, xs[1..]) + rest;
      assert xs == [xs[0]] + xs[1..];
    }
  }

  lemma {:induction false} ConcatTake<T(!new)>(c: Codec<T>, n: nat, data: seq<byte>)
    requires Exact(c) && TakeRecords(c, n, data).Some?
    ensures var (xs, rest) := TakeRecords(c, n, data).value; |xs| == n && Concat(c, xs) + rest == data
    decreases n
  {
    if n != 0 {
      ConcatTake(c, n - 1, data[c.width..]);
      var (xs, rest) := TakeRecords(c, n - 1, data[c.width..]).value;
      var head := data[..c.width];
      ConcatCons(c, c.decode(head), xs, rest);
      assert head + data[c.width..] == data;
    }
  }

  lemma ConcatCons<T(!new)>(c: Codec<T>, x: T, xs: seq<T>, rest: seq<byte>)
    ensures Concat(c, [x] + xs) + rest == c.encode(x) + (Concat(c, xs) + rest)
  {
    assert ([x] + xs)[1..] == xs;
    assert c.encode(x) + Concat(c, xs) + rest == c.encode(x) + (Concat(c, xs) + rest);
  }

  function EncodeList<T>(c: Codec<T>, xs: seq<T>): seq<byte>
    requires |xs| < 256
  {
    [|xs|] + Concat(c, xs)
  }

  /** A count byte and that many records. */
  function TakeList<T>(c: Codec<T>, data: seq<byte>): Option<(seq<T>, seq<byte>)> {
    if data == [] then None else TakeRecords(c, data[0], data[1..])
  }

  lemma ListRoundTrip<T(!new)>(c: Codec<T>, xs: seq<T>, rest: seq<byte>)
    requires Exact(c) && |xs| < 256
    ensures TakeList(c, EncodeList(c, xs) + rest) == Some((xs, rest))
  {
    var data := EncodeList(c, xs) + rest;
    assert data[1..] == Concat(c, xs) + rest;
    TakeConcat(c, xs, rest);
  }

  lemma ListExact<T(!new)>(c: Codec<T>, data: seq<byte>)
    requires Exact(c) && TakeList(c, data).Some?
    ensures var (xs, rest) := TakeList(c, data).value; |xs| < 256 && EncodeList(c, xs) + rest == data
  {
    hide Concat, TakeRecords;
    ConcatTake(c, data[0], data[1..]);
    var (xs, rest) := TakeList(c, data).value;
    assert data == [data[0]] + data[1..];
    assert [data[0]] + Concat(c, xs) + rest == [data[0]] + (Concat(c, xs) + rest);
  }

  // ----- the whole payload -----

  /** `StagedTransaction.result_payload`. */
  function EncodeTransition(t: Transition): seq<byte>
    requires t.Encodable()
  {
    U32Bytes(t.txnId) + (U32Bytes(t.nextPc) + (U32Bytes(t.nextFp)
      + (EncodeList(WriteCodec(), t.writes) + (EncodeList(DeferredCodec(), t.deferred)
      + (EncodeList(AccessCodec(), t.accesses) + [])))))
  }

  /** `decode_result_payload`; every malformation is the same protocol violation. */
  function DecodeTransition(p: seq<byte>): Option<Transition> {
    if |p| < 12 then None
    else match TakeList(WriteCodec(), p[12..])
      case None => None
      case Some((writes, d1)) =>
        match TakeList(DeferredCodec(), d1)
        case None => None
        case Some((deferred, d2)) =>
          match TakeList(AccessCodec(), d2)
          case None => None
          case Some((accesses, d3)) =>
            if d3 != [] then None
            else Some(Transition(U32Of(p[..4]), U32Of(p[4..8]), U32Of(p[8..12]), writes, deferred, accesses))
  }

  lemma TransitionRoundTrip(t: Transition)
    requires t.Encodable()
    ensures DecodeTransition(EncodeTransition(t)) == Some(t)
  {
    CodecsExact();
    var d3: seq<byte> := [];
    var d2 := EncodeList(AccessCodec(), t.accesses) + d3;
    var d1 := EncodeList(DeferredCodec(), t.deferred) + d2;
    var d0 := EncodeList(WriteCodec(), t.writes) + d1;
    HeaderRoundTrip(t.txnId, t.nextPc, t.nextFp, d0);
    ListRoundTrip(WriteCodec(), t.writes, d1);
    ListRoundTrip(DeferredCodec(), t.deferred, d2);
    ListRoundTrip(AccessCodec(), t.accesses, d3);
  }

  lemma HeaderRoundTrip(a: u32, b: u32, c: u32, rest: seq<byte>)
    ensures var p := U32Bytes(a) + (U32Bytes(b) + (U32Bytes(c) + rest));
            |p| >= 12 && U32Of(p[..4]) == a && U32Of(p[4..8]) == b && U32Of(p[8..12]) == c && p[12..] == rest
  {
    var p := U32Bytes(a) + (U32Bytes(b) + (U32Bytes(c) + rest));
    assert p[..4] == U32Bytes(a) && p[4..8] == U32Bytes(b) && p[8..12] == U32Bytes(c);
    U32RoundTrip(a, []);
    U32RoundTrip(b, []);
    U32RoundTrip(c, []);
  }

  /** The host's decoder accepts nothing but encoded transitions. */
  lemma DecodedTransitionReencodes(p: seq<byte>)
    requires DecodeTransition(p).Some?
    ensures DecodeTransition(p).value.Encodable()
    ensures EncodeTransition(DecodeTransition(p).value) == p
  {
    CodecsExact();
    var t := DecodeTransition(p).value;
    HeaderExact(p);
    ListExact(WriteCodec(), p[12..]);
    var d1 := TakeList(WriteCodec(), p[12..]).value.1;
    ListExact(DeferredCodec(), d1);
    var d2 := TakeList(DeferredCodec(), d1).value.1;
    ListExact(AccessCodec(), d2);
  }

  lemma HeaderExact(p: seq<byte>)
    requires |p| >= 12
    ensures p == U32Bytes(U32Of(p[..4])) + (U32Bytes(U32Of(p[4..8])) + (U32Bytes(U32Of(p[8..12])) + p[12..]))
  {
    U32RoundTrip(0, p[..4]);
    U32RoundTrip(0, p[4..8]);
    U32RoundTrip(0, p[8..12]);
  }

  // ----- the decoder's cursor -----

  function After<T>(xs: seq<T>, r: Option<(seq<T>, seq<byte>)>): Option<(seq<T>, seq<byte>)> {
    match r
    case None => None
    case Some((ys, rest)) => Some((xs + ys, rest))
  }

  lemma AfterStep<T>(c: Codec<T>, xs: seq<T>, n: nat, data: seq<byte>)
    requires n > 0
    ensures |data| < c.width ==> After(xs, TakeRecords(c, n, data)) == None
    ensures |data| >= c.width ==>
      After(xs, TakeRecords(c, n, data)) == After(xs + [c.decode(data[..c.width])], TakeRecords(c, n - 1, data[c.width..]))
  {
    if |data| >= c.width && TakeRecords(c, n - 1, data[c.width..]).Some? {
      var head, ys := c.decode(data[..c.width]), TakeRecords(c, n - 1, data[c.width..]).value.0;
      assert xs + ([head] + ys) == xs + [head] + ys;
    }
  }

  /** One counted list at `cursor`; the second result is the cursor behind it. */
  method DecodeList<T>(c: Codec<T>, payload: seq<byte>, cursor: nat) returns (xs: seq<T>, next: nat, ok: bool)
    requires cursor <= |payload|
    ensures ok ==> next <= |payload| && TakeList(c, payload[cursor..]) == Some((xs, payload[next..]))
    ensures !ok ==> TakeList(c, payload[cursor..]) == None
  {
    xs, next, ok := [], cursor, true;
    if cursor >= |payload| {
      return [], cursor, false;
    }
    var count := payload[cursor];
    next := cursor + 1;
    ghost var whole := payload[cursor..];
    assert whole[0] == count && whole[1..] == payload[next..];
    ghost var target := TakeRecords(c, count, payload[next..]);
    assert target.Some? ==> [] + target.value.0 == target.value.0;
    for i := 0 to count
      invariant next <= |payload|
      invariant After(xs, TakeRecords(c, count - i, payload[next..])) == target
    {
      ghost var rest := payload[next..];
      AfterStep(c, xs, count - i, rest);
      if next + c.width > |payload| {
        return xs, next, false;
      }
      assert rest[..c.width] == payload[next..next + c.width] && rest[c.width..] == payload[next + c.width..];
      xs := xs + [c.decode(payload[next..next + c.width])];
      next := next + c.width;
    }
    assert xs + [] == xs;
  }

  /** `decode_result_payload`. */
  method DecodeResultPayload(payload: seq<byte>) returns (r: Option<Transition>)
    ensures r == DecodeTransition(payload)
  {
    if |payload| < 12 {
      return None;
    }
    hide TakeList, TakeRecords, U32Of;
    var writes, deferredAt, writesOk := DecodeList(WriteCodec(), payload, 12);
    if !writesOk {
      return None;
    }
    var deferred, accessesAt, deferredOk := DecodeList(DeferredCodec(), payload, deferredAt);
    if !deferredOk {
      return None;
    }
    var accesses, end, accessesOk := DecodeList(AccessCodec(), payload, accessesAt);
    if !accessesOk || end != |payload| {
      return None;
    }
    return Some(Transition(U32Of(payload[..4]), U32Of(payload[4..8]), U32Of(payload[8..12]), writes, deferred, accesses));
  }
}
