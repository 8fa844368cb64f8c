/** The cycle model refines the transaction model. A monitor beside the lane records every
    committed transfer of the command in flight; under every stall schedule, with aborts and
    resets anywhere, each completed record is exactly what `Execute` computes. */
module StreamRuns {
  import opened Outcomes
  import opened Bits
  import opened BinaryField
  import opened Bytes
  import opened Ghash
  import opened StreamAlu

  /** What the lane committed for one command so far. */
  datatype Transaction = Transaction(
    command: byte,
    payload: seq<byte>,
    sent: seq<byte>,
    bits: nat,     // bit beats of the multiplier
    edges: nat,    // clock edges, the command's own included
    stalls: nat    // edges that moved neither a byte nor a bit
  )

  datatype Monitor = Monitor(core: Core, current: Option<Transaction>, completed: seq<Transaction>, faulted: bool)

  const START: Monitor := Monitor(RESET, None, [], false)

  function Extended(t: Transaction, c: Core, i: Input): Transaction
    requires c.Valid()
  {
    var r, bit := RecordOf(c, i), ControlsOf(c, i).bitValid;
    Transaction(t.command,
                if r.rxCommitted then t.payload + [i.rxData] else t.payload,
                if r.txCommitted then t.sent + [r.pins.txData] else t.sent,
                if bit then t.bits + 1 else t.bits,
                t.edges + 1,
                if r.rxCommitted || r.txCommitted || bit then t.stalls else t.stalls + 1)
  }

  /** The transaction this edge belongs to; a committed byte in IDLE begins one. */
  function Recorded(m: Monitor, i: Input): Option<Transaction>
    requires m.core.Valid()
  {
    match m.current
    case Some(t) => Some(Extended(t, m.core, i))
    case None => if RecordOf(m.core, i).rxCommitted then Some(Transaction(i.rxData, [], [], 0, 1, 0)) else None
  }

  predicate IsCommand(command: byte) {
    command in {XOR128, MUL128, SET128, NONZERO, STATUS, CLEAR}
  }

  /** The sticky fault flag after a command. */
  function FaultAfter(command: byte, before: bool): bool {
    if command == CLEAR then false else before || !IsCommand(command)
  }

  function Watch(m: Monitor, i: Input): Monitor
    requires m.core.Valid()
  {
    var core, t := LaneStep(m.core, i), Recorded(m, i);
    if !i.resetN then Monitor(core, None, m.completed, false)
    else if i.abort then Monitor(core, None, m.completed, true)
    else if t.Some? && RecordOf(m.core, i).pins.donePulse then
      Monitor(core, None, m.completed + [t.value], FaultAfter(t.value.command, m.faulted))
    else m.(core := core, current := t)
  }

  /** The edges a command takes behind its own when nothing stalls. */
  function Latency(command: byte): nat {
    if command == XOR128 then 32
    else if command == MUL128 then 160
    else if command == SET128 || command == NONZERO then 16
    else if command == STATUS then 4
    else if command == CLEAR then 0
    else 1
  }

  /** The record is the transaction model's result: bytes, beat counts and multiplier steps. */
  predicate Correct(t: Transaction) {
    && Execute(t.command, t.payload) == Some(CommandResult(t.sent, |t.payload|, |t.sent|, t.bits))
    && t.edges == 1 + Latency(t.command) + t.stalls
  }

  // ----- what the state machine holds in mid-command -----

  /** The part of the multiplier operand consumed: whole bytes, and `bits` low bits of the next. */
  function Consumed(whole: seq<byte>, next: byte, bits: nat): nat {
    FromLittleEndian(whole) + Pow2(8 * |whole|) * Low(next, bits)
  }

  /** Horner's rule, from the low end: the multiplicand has been doubled `bits` times. */
  predicate Multiplying(m: Multiplier, a: F128, b: nat, bits: nat) {
    m.acc == Mul(Ghash.Ghash(), a, b) && m.aShift == XtimePower(Ghash.Ghash(), a, bits) && b < Pow2(bits)
  }

  predicate XorFlight(c: Core, t: Transaction) {
    && t.command == XOR128 && t.bits == 0 && |t.sent| == c.index
    && (if c.state == XOR_A then |t.payload| == 2 * c.index && t.sent == XorPairs(t.payload)
        else |t.payload| == 2 * c.index + 1 && c.scratch == t.payload[2 * c.index] && t.sent == XorPairs(t.payload[..2 * c.index]))
  }

  predicate MulFlight(c: Core, t: Transaction)
    requires c.Valid()
  {
    && t.command == MUL128
    && match c.state
       case MUL_A_RX =>
         t.sent == [] && t.bits == 0 && |t.payload| == c.index && Shr(c.mul.aShift, 128 - 8 * c.index) == FromLittleEndian(t.payload)
       case MUL_B_RX =>
         && t.sent == [] && t.bits == 8 * c.index && |t.payload| == 16 + c.index
         && Multiplying(c.mul, Operand(t.payload[..16]), FromLittleEndian(t.payload[16..]), t.bits)
       case MUL_BITS =>
         && t.sent == [] && |t.payload| == 17 + c.index && 8 * c.index < t.bits < 8 * c.index + 8
         && var j := t.bits - 8 * c.index;
         && c.scratch == Shr(t.payload[16 + c.index], j) + Pow2(8 - j)
         && Multiplying(c.mul, Operand(t.payload[..16]), Consumed(t.payload[16..16 + c.index], t.payload[16 + c.index], j), t.bits)
       case _ =>
         && |t.payload| == 32 && t.bits == 128 && |t.sent| == c.index
         && t.sent + LittleEndian(16 - c.index, c.mul.acc)
            == LittleEndian(16, FieldMul(Operand(t.payload[..16]), Operand(t.payload[16..])))
  }

  /** The state and its registers are determined by the transfers committed so far. */
  predicate InFlight(c: Core, t: Transaction)
    requires c.Valid()
  {
    match c.state
    case IDLE => false
    case XOR_A => XorFlight(c, t)
    case XOR_B => XorFlight(c, t)
    case SET_STREAM => t.command == SET128 && t.bits == 0 && |t.payload| == c.index && t.sent == t.payload
    case ZERO_STREAM =>
      && t.command == NONZERO && t.bits == 0 && |t.payload| == c.index && t.sent == []
      && c.scratch == if AnyNonzero(t.payload) then 1 else 0
    case STATUS_TX => t.command == STATUS && t.bits == 0 && t.payload == [] && t.sent == IDENTITY[..c.index]
    case ERROR_TX => !IsCommand(t.command) && t.bits == 0 && t.payload == [] && t.sent == []
    case _ => MulFlight(c, t)
  }

  /** The edges a state has behind it when nothing stalled. */
  function Spent(c: Core, bits: nat): nat {
    match c.state
    case XOR_A => 2 * c.index
    case XOR_B => 2 * c.index + 1
    case MUL_B_RX => 16 + bits
    case MUL_BITS => 16 + bits
    case MUL_TX => 16 + bits + c.index
    case ERROR_TX => 0
    case IDLE => 0
    case _ => c.index
  }

  predicate OnTime(c: Core, t: Transaction) {
    t.edges == 1 + Spent(c, t.bits) + t.stalls
  }

  predicate Sound(m: Monitor) {
    && m.core.Valid()
    && (forall t :: t in m.completed ==> Correct(t))
    && match m.current
       case None => m.core.state == IDLE && m.core.fault == m.faulted
       case Some(t) =>
         && m.core.Valid() && InFlight(m.core, t) && OnTime(m.core, t)
         && m.core.fault == (m.faulted || !IsCommand(t.command))
  }

  // ----- bytes and bits -----

  lemma {:induction false} FromLittleEndianAppend(p: seq<byte>, b: byte)
    ensures FromLittleEndian(p + [b]) == FromLittleEndian(p) + b * Pow2(8 * |p|)
  {
    if p == [] {
      assert [] + [b] == [b] && [b][1..] == [];
    } else {
      assert (p + [b])[1..] == p[1..] + [b];
      FromLittleEndianAppend(p[1..], b);
      Pow2At32();
      Pow2Add(8, 8 * |p| - 8);
      assert 256 * (b * Pow2(8 * |p| - 8)) == b * Pow2(8 * |p|);
    }
  }

  lemma {:induction false} ShrPlus(v: nat, u: nat, m: nat, n: nat)
    ensures Shr(v + u * Pow2(m + n), m) == Shr(v, m) + u * Pow2(n)
  {
    if m != 0 {
      assert Pow2(m + n) == 2 * Pow2(m + n - 1);
      hide Pow2;
      DoubleProduct(u, Pow2(m + n - 1));
      HalfPlus(v, u * Pow2(m + n - 1));
      ShrPlus(v / 2, u, m - 1, n);
    }
  }

  lemma DoubleProduct(u: nat, p: nat)
    ensures u * (2 * p) == 2 * (u * p)
  {
  }

  lemma HalfPlus(v: nat, x: nat)
    ensures (v + 2 * x) / 2 == v / 2 + x
  {
  }

  lemma {:induction false} LowNext(v: nat, n: nat)
    ensures Low(v, n + 1) == Low(v, n) + (if Bit(v, n) then Pow2(n) else 0)
  {
    if n != 0 {
      LowNext(v / 2, n - 1);
    }
  }

  /** One more byte in the top of the register. */
  lemma ShiftInAppends(a: F128, p: seq<byte>, b: byte)
    requires |p| < 16 && Shr(a, 128 - 8 * |p|) == FromLittleEndian(p)
    ensures Shr(ShiftIn(a, b), 120 - 8 * |p|) == FromLittleEndian(p + [b])
  {
    var n := 120 - 8 * |p|;
    ShiftInAdds(a, b);
    hide ShiftIn, Pow2, Shr, FromLittleEndian;
    ShrPlus(Shr(a, 8), b, n, 8 * |p|);
    ShrAdd(a, 8, n);
    FromLittleEndianAppend(p, b);
  }

  lemma ShiftInAdds(a: F128, b: byte)
    ensures ShiftIn(a, b) == Shr(a, 8) + b * Pow2(120)
  {
    Pow2At128();
    ShrBound(a, 8, 120);
    OrPlaces(Shr(a, 8), b, 120);
    ShlIsProduct(b, 120);
    ByteAbove(Shr(a, 8), b, 120);
    LowSmall(Shr(a, 8) + b * Pow2(120), 128);
  }

  lemma ByteAbove(low: nat, b: byte, n: nat)
    requires low < Pow2(n)
    ensures low + b * Pow2(n) < Pow2(n + 8)
  {
    hide Pow2;
    Pow2At32();
    Pow2Add(n, 8);
    ByteTimes(low, b, Pow2(n));
  }

  lemma ByteTimes(low: nat, b: byte, p: nat)
    requires low < p
    ensures low + b * p < p * 256
  {
    assert b * p <= 255 * p;
  }

  /** One bit beat. */
  lemma BitBeat(m: Multiplier, a: F128, b: nat, bits: nat, bit: nat, last: bool)
    requires Multiplying(m, a, b, bits) && bit < 2
    ensures var m' := Ticked(m, NO_CONTROLS.(bitValid := true, bitValue := bit, bitLast := last), 0);
            var b' := b + bit * Pow2(bits);
            && m'.acc == Mul(Ghash.Ghash(), a, b') && b' < Pow2(bits + 1)
            && (!last ==> Multiplying(m', a, b', bits + 1))
  {
    var f := Ghash.Ghash();
    XorTopBit(b, bits);
    MulLinearRight(f, a, b, Pow2(bits));
    MulPowerOfTwo(f, a, bits);
    hide Mul, Xor, Xtime;
  }

  lemma ConsumedNext(whole: seq<byte>, next: byte, j: nat)
    requires j < 8
    ensures Shr(next, j) % 2 == if Bit(next, j) then 1 else 0
    ensures Consumed(whole, next, j) + (Shr(next, j) % 2) * Pow2(8 * |whole| + j) == Consumed(whole, next, j + 1)
  {
    LowNext(next, j);
    Pow2Add(8 * |whole|, j);
    Distributes(Pow2(8 * |whole|), Low(next, j), Pow2(j));
    hide Pow2, Low, FromLittleEndian;
  }

  lemma Distributes(p: nat, a: nat, b: nat)
    ensures p * (a + b) == p * a + p * b
  {
  }

  lemma ConsumedEnds(whole: seq<byte>, next: byte)
    ensures Consumed(whole, next, 0) == FromLittleEndian(whole)
    ensures Consumed(whole, next, 8) == FromLittleEndian(whole + [next])
  {
    Pow2At32();
    LowSmall(next, 8);
    FromLittleEndianAppend(whole, next);
    assert Low(next, 0) == 0;
    hide Pow2, Low, FromLittleEndian;
  }

  /** The sentinel and the bits above it, one place down. */
  lemma SentinelShifts(v: byte, j: nat)
    requires 1 <= j < 8
    ensures var s := Shr(v, j) + Pow2(8 - j);
            && s % 2 == Shr(v, j) % 2
            && s / 2 == Shr(v, j + 1) + Pow2(7 - j)
            && (s / 2 == 1 <==> j == 7)
  {
    var p := SentinelPlace(j);
    ByteGone(v);
    hide Pow2, Shr;
    ShrStep(v, j);
  }

  lemma SentinelPlace(j: nat) returns (p: nat)
    requires 1 <= j < 8
    ensures p == Pow2(7 - j) && Pow2(8 - j) == 2 * p && p >= 1 && (p == 1 <==> j == 7)
  {
    p := Pow2(7 - j);
    if j < 7 {
      Pow2Monotone(1, 7 - j);
    }
  }

  lemma ByteGone(v: byte)
    ensures Shr(v, 8) == 0
  {
    Pow2At32();
    hide Shr;
    ShrBound(v, 8, 0);
  }

  // ----- one edge of each command -----

  /** What an edge of the command in flight leads to. */
  predicate Progresses(c: Core, t: Transaction, i: Input)
    requires c.Valid()
  {
    var c', t' := Stepped(c, i), Extended(t, c, i);
    if Finishes(c, i) then c'.state == IDLE && Correct(t') else InFlight(c', t') && OnTime(c', t')
  }

  lemma XorEdge(c: Core, t: Transaction, i: Input)
    requires c.Valid() && !i.abort && i.resetN && InFlight(c, t) && OnTime(c, t) && c.state in {XOR_A, XOR_B}
    ensures Progresses(c, t, i)
  {
    hide ByteXor, XorPairs, FieldMul, LittleEndian, Operand, Ticked, MulFlight;
    if c.state == XOR_B && TxFires(c, i) {
      XorPairsAppend(t.payload, i.rxData, c.index);
      assert c.index < 15 ==> Extended(t, c, i).payload == t.payload + [i.rxData];
    } else if c.state == XOR_A && RxFires(c, i) {
      assert (t.payload + [i.rxData])[..2 * c.index] == t.payload;
    }
  }

  lemma XorPairsAppend(p: seq<byte>, b: byte, k: nat)
    requires |p| == 2 * k + 1
    ensures XorPairs(p + [b]) == XorPairs(p[..2 * k]) + [ByteXor(p[2 * k], b)]
  {
    hide Xor;
    var more, pairs := XorPairs(p + [b]), XorPairs(p[..2 * k]) + [ByteXor(p[2 * k], b)];
    assert |more| == |pairs| == k + 1;
    forall j | 0 <= j < k + 1
      ensures more[j] == pairs[j]
    {
    }
  }

  lemma SetEdge(c: Core, t: Transaction, i: Input)
    requires c.Valid() && !i.abort && i.resetN && InFlight(c, t) && OnTime(c, t) && c.state == SET_STREAM
    ensures Progresses(c, t, i)
  {
    hide XorPairs, FieldMul, LittleEndian, Operand, Ticked, MulFlight, AnyNonzero;
  }

  lemma NonzeroAppend(p: seq<byte>, b: byte)
    ensures AnyNonzero(p + [b]) <==> AnyNonzero(p) || b != 0
  {
    var more := p + [b];
    assert more[|p|] == b && forall k :: 0 <= k < |p| ==> more[k] == p[k];
  }

  lemma NonzeroEdge(c: Core, t: Transaction, i: Input)
    requires c.Valid() && !i.abort && i.resetN && InFlight(c, t) && OnTime(c, t) && c.state == ZERO_STREAM
    ensures Progresses(c, t, i)
  {
    hide XorPairs, FieldMul, LittleEndian, Operand, Ticked, MulFlight, AnyNonzero, ByteXor;
    NonzeroAppend(t.payload, i.rxData);
    assert [] + [OutputByte(c, i)] == [OutputByte(c, i)];
  }

  lemma StatusEdge(c: Core, t: Transaction, i: Input)
    requires c.Valid() && !i.abort && i.resetN && InFlight(c, t) && OnTime(c, t) && c.state in {STATUS_TX, ERROR_TX}
    ensures Progresses(c, t, i)
  {
    hide XorPairs, FieldMul, LittleEndian, Operand, Ticked, MulFlight, XorFlight, AnyNonzero, ByteXor, FromLittleEndian, Mul, Shr,
      Pow2, ShiftIn, Sentinel;
    assert IDENTITY[..4] == IDENTITY;
    assert [] + [ERROR_BYTE] == [ERROR_BYTE];
    if c.state == STATUS_TX {
      assert IDENTITY[..c.index + 1] == IDENTITY[..c.index] + [IDENTITY[c.index]];
    }
  }

  /** The first operand is complete: nothing multiplied yet. */
  lemma FirstOperand(a: F128, p: seq<byte>)
    requires |p| == 16 && Shr(a, 0) == FromLittleEndian(p)
    ensures p[..16] == p && p[16..] == [] && Multiplying(Multiplier(a, 0), Operand(p[..16]), FromLittleEndian(p[16..]), 0)
  {
    assert p[..16] == p && p[16..] == [];
    assert Mul(Ghash.Ghash(), a, 0) == 0;
  }

  lemma MulReceiveA(c: Core, t: Transaction, i: Input)
    requires c.Valid() && !i.abort && i.resetN && InFlight(c, t) && OnTime(c, t) && c.state == MUL_A_RX
    ensures Progresses(c, t, i)
  {
    hide ShiftIn, Mul, Shr, FromLittleEndian, XorPairs, FieldMul, LittleEndian, Operand, AnyNonzero, Multiplying, Execute, Pow2;
    if i.rxValid {
      ShiftInAppends(c.mul.aShift, t.payload, i.rxData);
      if c.index == 15 {
        FirstOperand(ShiftIn(c.mul.aShift, i.rxData), t.payload + [i.rxData]);
      }
    }
  }

  lemma MulReceiveB(c: Core, t: Transaction, i: Input)
    requires c.Valid() && !i.abort && i.resetN && InFlight(c, t) && OnTime(c, t) && c.state == MUL_B_RX
    ensures Progresses(c, t, i)
  {
    if i.rxValid {
      MulTakesByte(c, t, i);
    } else {
      assert Ticked(c.mul, ControlsOf(c, i), i.rxData) == c.mul;
      hide MulFlight;
      assert Stepped(c, i) == c && Extended(t, c, i) == t.(edges := t.edges + 1, stalls := t.stalls + 1);
      MulFlightIgnoresTime(c, t, t.edges + 1, t.stalls + 1);
    }
  }

  lemma MulFlightIgnoresTime(c: Core, t: Transaction, edges: nat, stalls: nat)
    requires c.Valid() && MulFlight(c, t)
    ensures MulFlight(c, t.(edges := edges, stalls := stalls))
  {
  }

  lemma MulTakesByte(c: Core, t: Transaction, i: Input)
    requires c.Valid() && !i.abort && i.resetN && InFlight(c, t) && OnTime(c, t) && c.state == MUL_B_RX && i.rxValid
    ensures Progresses(c, t, i)
  {
    hide Multiplying, Consumed, Operand, Shr, Pow2, FieldMul, LittleEndian, FromLittleEndian, Execute, Ticked, Sentinel;
    FirstBit(c, t, i);
    var mul := Ticked(c.mul, ControlsOf(c, i), i.rxData);
    var c' := c.(scratch := Sentinel(i.rxData), state := MUL_BITS, mul := mul);
    var t' := t.(payload := t.payload + [i.rxData], bits := t.bits + 1, edges := t.edges + 1);
    assert Stepped(c, i) == c' && Extended(t, c, i) == t' && !Finishes(c, i);
    AppendToOperand(t.payload, i.rxData, c.index);
    hide Stepped, Extended, ControlsOf, Finishes;
    FirstBitFlight(c', t');
  }

  lemma FirstBitFlight(c: Core, t: Transaction)
    requires c.Valid() && c.state == MUL_BITS && t.command == MUL128 && t.sent == []
    requires |t.payload| == 17 + c.index && t.bits == 8 * c.index + 1
    requires c.scratch == Shr(t.payload[16 + c.index], 1) + Pow2(7)
    requires Multiplying(c.mul, Operand(t.payload[..16]), Consumed(t.payload[16..16 + c.index], t.payload[16 + c.index], 1), t.bits)
    ensures InFlight(c, t)
  {
    hide Multiplying, Consumed, Operand, Shr, Pow2;
    assert t.bits - 8 * c.index == 1;
  }

  lemma AppendToOperand(p: seq<byte>, b: byte, k: nat)
    requires |p| == 16 + k
    ensures (p + [b])[..16] == p[..16] && (p + [b])[16..16 + k] == p[16..] && (p + [b])[16 + k] == b
  {
  }

  /** The first bit of a byte goes straight to the multiplier; the other seven wait below the sentinel. */
  lemma FirstBit(c: Core, t: Transaction, i: Input)
    requires c.Valid() && InFlight(c, t) && c.state == MUL_B_RX && i.rxValid
    ensures Sentinel(i.rxData) == Shr(i.rxData, 1) + Pow2(7)
    ensures Multiplying(Ticked(c.mul, ControlsOf(c, i), i.rxData), Operand(t.payload[..16]),
                        Consumed(t.payload[16..], i.rxData, 1), t.bits + 1)
  {
    hide Mul, XtimePower, FromLittleEndian, Consumed, FieldXtime, Add, Operand, Shr, Pow2, Low, Sentinel, Bit, LittleEndian, FieldMul,
      XorPairs;
    var whole, next := t.payload[16..], i.rxData;
    SentinelStarts(next);
    BitBeat(c.mul, Operand(t.payload[..16]), FromLittleEndian(whole), t.bits, next % 2, false);
    ConsumedEnds(whole, next);
    ConsumedNext(whole, next, 0);
  }

  lemma SentinelStarts(b: byte)
    ensures Sentinel(b) == Shr(b, 1) + Pow2(7) && Shr(b, 0) == b
  {
    assert Shr(b, 1) == b / 2 && Pow2(7) == 0x80;
  }

  /** The multiplier after a bit of the byte in the scratch register. */
  lemma MulBitBeat(c: Core, t: Transaction, i: Input)
    requires c.Valid() && InFlight(c, t) && c.state == MUL_BITS
    ensures var j := t.bits - 8 * c.index;
            var whole, next := t.payload[16..16 + c.index], t.payload[16 + c.index];
            var a, mul := Operand(t.payload[..16]), Ticked(c.mul, ControlsOf(c, i), i.rxData);
            && c.TailLast() == (j == 7)
            && c.scratch / 2 == Shr(next, j + 1) + Pow2(7 - j)
            && mul.acc == Mul(Ghash.Ghash(), a, Consumed(whole, next, j + 1))
            && (!(c.index == 15 && j == 7) ==> Multiplying(mul, a, Consumed(whole, next, j + 1), t.bits + 1))
  {
    hide Mul, XtimePower, Shr, FromLittleEndian, Consumed, FieldXtime, Add, Operand, Pow2;
    var j := t.bits - 8 * c.index;
    var whole, next := t.payload[16..16 + c.index], t.payload[16 + c.index];
    SentinelShifts(next, j);
    ConsumedNext(whole, next, j);
    BitBeat(c.mul, Operand(t.payload[..16]), Consumed(whole, next, j), t.bits, c.scratch % 2, c.index == 15 && j == 7);
  }

  lemma MulBit(c: Core, t: Transaction, i: Input)
    requires c.Valid() && !i.abort && i.resetN && InFlight(c, t) && OnTime(c, t) && c.state == MUL_BITS
    ensures Progresses(c, t, i)
  {
    hide Ticked, Multiplying, Mul, Shr, Consumed, Operand, Pow2, LittleEndian, FieldMul, Sentinel, FromLittleEndian, Execute,
      XorPairs, AnyNonzero, ShiftIn, ByteXor;
    MulBitBeat(c, t, i);
    var j := t.bits - 8 * c.index;
    if j == 7 {
      MulByteEnds(c, t, i);
    }
  }

  lemma MulByteEnds(c: Core, t: Transaction, i: Input)
    requires c.Valid() && InFlight(c, t) && c.state == MUL_BITS && t.bits == 8 * c.index + 7
    ensures var mul, whole := Ticked(c.mul, ControlsOf(c, i), i.rxData), FromLittleEndian(t.payload[16..]);
            && (c.index < 15 ==> Multiplying(mul, Operand(t.payload[..16]), whole, t.bits + 1))
            && (c.index == 15 ==>
                  [] + LittleEndian(16, mul.acc) == LittleEndian(16, FieldMul(Operand(t.payload[..16]), Operand(t.payload[16..]))))
  {
    hide Ticked, ControlsOf, Mul, Shr, Consumed, Pow2, LittleEndian;
    MulBitBeat(c, t, i);
    var whole, next := t.payload[16..16 + c.index], t.payload[16 + c.index];
    ConsumedEnds(whole, next);
    assert t.payload[16..] == whole + [next];
  }

  lemma MulSend(c: Core, t: Transaction, i: Input)
    requires c.Valid() && !i.abort && i.resetN && InFlight(c, t) && OnTime(c, t) && c.state == MUL_TX
    ensures Progresses(c, t, i)
  {
    if i.txReady {
      MulSendsByte(c, t, i);
    } else {
      MulWaits(c, t, i);
    }
  }

  lemma MulWaits(c: Core, t: Transaction, i: Input)
    requires c.Valid() && !i.abort && i.resetN && InFlight(c, t) && OnTime(c, t) && c.state == MUL_TX && !i.txReady
    ensures Progresses(c, t, i)
  {
    hide FieldMul, Operand, LittleEndian, XorFlight, Multiplying, Consumed, FromLittleEndian, Shr, Correct;
    assert Stepped(c, i) == c && Extended(t, c, i) == t.(edges := t.edges + 1, stalls := t.stalls + 1) && !Finishes(c, i);
  }

  lemma MulSendsByte(c: Core, t: Transaction, i: Input)
    requires c.Valid() && !i.abort && i.resetN && InFlight(c, t) && OnTime(c, t) && c.state == MUL_TX && i.txReady
    ensures Progresses(c, t, i)
  {
    hide FieldMul, Operand, LittleEndian, XorFlight, Multiplying, Consumed, FromLittleEndian, Shr, XorPairs, AnyNonzero;
    var acc := c.mul.acc;
    var sent := c.(mul := c.mul.(acc := acc / 256));
    var t' := t.(sent := t.sent + [acc % 256], edges := t.edges + 1);
    assert Stepped(c, i) == (if c.index == 15 then sent.(state := IDLE) else sent.(index := c.index + 1));
    assert Extended(t, c, i) == t' && Finishes(c, i) == (c.index == 15);
    ResultByteLeaves(t.sent, acc, 16 - c.index);
    hide Stepped, Extended, Finishes;
  }

  lemma ResultByteLeaves(sent: seq<byte>, acc: nat, left: nat)
    requires left > 0
    ensures sent + LittleEndian(left, acc) == sent + [acc % 256] + LittleEndian(left - 1, acc / 256)
    ensures left == 1 ==> sent + [acc % 256] + LittleEndian(left - 1, acc / 256) == sent + [acc % 256]
  {
    assert LittleEndian(left, acc) == [acc % 256] + LittleEndian(left - 1, acc / 256);
  }

  lemma FlightEdge(c: Core, t: Transaction, i: Input)
    requires c.Valid() && !i.abort && i.resetN && InFlight(c, t) && OnTime(c, t)
    ensures Progresses(c, t, i)
  {
    match c.state
    case XOR_A => XorEdge(c, t, i);
    case XOR_B => XorEdge(c, t, i);
    case SET_STREAM => SetEdge(c, t, i);
    case ZERO_STREAM => NonzeroEdge(c, t, i);
    case STATUS_TX => StatusEdge(c, t, i);
    case ERROR_TX => StatusEdge(c, t, i);
    case MUL_A_RX => MulReceiveA(c, t, i);
    case MUL_B_RX => MulReceiveB(c, t, i);
    case MUL_BITS => MulBit(c, t, i);
    case MUL_TX => MulSend(c, t, i);
    case IDLE =>
  }

  // ----- every run -----

  lemma RegisterBound(a: F128)
    ensures Shr(a, 128) == 0
  {
    Pow2At128();
    ShrBound(a, 128, 0);
  }

  lemma CommandEdge(m: Monitor, i: Input)
    requires Sound(m) && m.current == None && !i.abort && i.resetN
    ensures Sound(Watch(m, i))
  {
    hide FieldMul, LittleEndian, Operand, ByteXor, Shr, Pow2, AnyNonzero;
    if i.rxValid {
      var t := Transaction(i.rxData, [], [], 0, 1, 0);
      var none: seq<byte> := [];
      RegisterBound(m.core.mul.aShift);
      assert XorPairs(none) == none && !AnyNonzero(none) by { NothingNonzero(); }
      assert Stepped(m.core, i) == Started(m.core, i.rxData);
      if i.rxData == CLEAR {
        assert Correct(t);
      } else {
        assert InFlight(Started(m.core, i.rxData), t);
      }
    }
  }

  lemma NothingNonzero()
    ensures !AnyNonzero([])
  {
  }

  lemma WatchKeepsSound(m: Monitor, i: Input)
    requires Sound(m)
    ensures Sound(Watch(m, i))
  {
    if i.resetN && !i.abort {
      if m.current.Some? {
        FlightEdge(m.core, m.current.value, i);
        FaultStays(m.core, i);
      } else {
        CommandEdge(m, i);
      }
    }
    hide InFlight, OnTime, Correct, Advanced, Extended, Finishes;
  }

  lemma FaultStays(c: Core, i: Input)
    requires c.Valid() && c.state != IDLE && !i.abort
    ensures Stepped(c, i).fault == c.fault
  {
  }

  function Run(m: Monitor, inputs: seq<Input>): Monitor
    requires m.core.Valid()
    decreases |inputs|
  {
    if inputs == [] then m else Run(Watch(m, inputs[0]), inputs[1..])
  }

  lemma {:induction false} RunKeepsSound(m: Monitor, inputs: seq<Input>)
    requires Sound(m)
    ensures Sound(Run(m, inputs))
    decreases |inputs|
  {
    if inputs != [] {
      WatchKeepsSound(m, inputs[0]);
      RunKeepsSound(Watch(m, inputs[0]), inputs[1..]);
    }
  }

  /** Refinement. After any inputs whatever, every command that completed sent exactly the
      bytes of the transaction model, in exactly its latency plus the stalled edges. */
  lemma CompletedCommandsRefine(inputs: seq<Input>)
    ensures forall t :: t in Run(START, inputs).completed ==> Correct(t)
  {
    assert Sound(START);
    RunKeepsSound(START, inputs);
  }

  /** What the commands are, by the bytes that were sent for them. */
  predicate Sends(t: Transaction) {
    var p, s := t.payload, t.sent;
    if t.command == 0x01 then |p| == 32 && |s| == 16 && forall i :: 0 <= i < 16 ==> s[i] == Bits.Xor(p[2 * i], p[2 * i + 1])
    else if t.command == 0x02 then
      |p| == 32 && |s| == 16 && t.bits == 128
      && Ghash.Ghash().Holds(FromLittleEndian(p[..16]))
      && FromLittleEndian(s) == Mul(Ghash.Ghash(), FromLittleEndian(p[..16]), FromLittleEndian(p[16..]))
    else if t.command == 0x03 then |p| == 16 && s == p
    else if t.command == 0x04 then |p| == 16 && s == [if exists i :: 0 <= i < 16 && p[i] != 0 then 1 else 0]
    else if t.command == 0x7D then p == [] && s == []
    else if t.command == 0x7E then p == [] && s == [0x01, 0x01, 0x0F, 0x08]
    else p == [] && s == [0xE0]
  }

  lemma CorrectSends(t: Transaction)
    requires Correct(t)
    ensures Sends(t)
  {
    hide Mul, FromLittleEndian, LittleEndian, Xor, Latency;
    if t.command == MUL128 {
      Pow2At128();
      ToFromLittleEndian(t.payload[..16]);
      FromToLittleEndian(16, FieldMul(Operand(t.payload[..16]), Operand(t.payload[16..])));
    }
  }

  /** Over any inputs, the bytes every completed command sent: exclusive-or byte by byte, the product in
      the field, the operand itself, whether it is nonzero, nothing, the four identity bytes, or one error
      byte for anything that is no command. */
  lemma CompletedCommandsSend(inputs: seq<Input>)
    ensures forall t :: t in Run(START, inputs).completed ==> Sends(t)
  {
    hide Correct, Sends, Run;
    CompletedCommandsRefine(inputs);
    forall t | t in Run(START, inputs).completed ensures Sends(t) {
      CorrectSends(t);
    }
  }

  /** The done pulse of a committed edge is the end of one command: it comes with the return
      to IDLE, and the state machine is never idle with a command in flight. */
  lemma DoneEndsCommand(inputs: seq<Input>, i: Input)
    requires i.resetN && !i.abort
    ensures var m := Run(START, inputs);
            m.core.Valid() &&
            var m' := Watch(m, i);
            && (RecordOf(m.core, i).pins.donePulse <==> |m'.completed| == |m.completed| + 1)
            && (m'.current == None <==> m'.core.state == IDLE)
            && (RecordOf(m.core, i).pins.donePulse ==> m'.current == None)
  {
    assert Sound(START);
    RunKeepsSound(START, inputs);
    var m := Run(START, inputs);
    WatchKeepsSound(m, i);
    hide Advanced, OnTime, Correct, Extended, XorFlight, MulFlight, Run;
  }

  /** The two level pins, over any inputs: busy exactly while a command is in flight, and the sticky fault
      set by an abort or by a byte that is no command, until the next CLEAR or reset. */
  lemma PinsTell(inputs: seq<Input>, i: Input)
    ensures var m := Run(START, inputs);
            && m.core.Valid()
            && var pins := RecordOf(m.core, i).pins;
            && (pins.busy <==> m.current.Some?)
            && (pins.fault <==> m.faulted || (m.current.Some? && m.current.value.command !in {0x01, 0x02, 0x03, 0x04, 0x7D, 0x7E}))
  {
    assert Sound(START);
    RunKeepsSound(START, inputs);
    hide Advanced, OnTime, Correct, Extended, XorFlight, MulFlight, Run;
  }

  /** When the sticky fault moves: it starts clear, a reset clears it, an abort sets it, and a completed
      command clears it if it was CLEAR and sets it if it was none. */
  lemma FaultMoves(inputs: seq<Input>, i: Input)
    ensures Run(START, inputs).core.Valid() && (inputs == [] ==> !Run(START, inputs).faulted)
    ensures var m := Run(START, inputs);
            var m' := Watch(m, i);
            if !i.resetN then !m'.faulted
            else if i.abort then m'.faulted
            else if |m'.completed| > |m.completed| then
              var c := m'.completed[|m.completed|].command;
              m'.faulted == (c != 0x7D && (m.faulted || c !in {0x01, 0x02, 0x03, 0x04, 0x7E}))
            else m'.faulted == m.faulted
  {
    assert Sound(START);
    RunKeepsSound(START, inputs);
    hide Advanced, OnTime, Correct, Extended, XorFlight, MulFlight;
  }

  /** A command is over, at the latest, once its latency has passed in edges that did not stall;
      in particular the multiplier takes exactly 128 bit beats. */
  lemma CommandsAreTimely(inputs: seq<Input>)
    ensures var m := Run(START, inputs);
            m.current.Some? ==>
              var t := m.current.value;
              t.edges <= Latency(t.command) + t.stalls && t.bits <= (if t.command == MUL128 then 128 else 0)
  {
    assert Sound(START);
    RunKeepsSound(START, inputs);
    hide Run;
  }

  // ----- every command completes -----

  predicate Quiet(i: Input) {
    i.resetN && !i.abort
  }

  /** A byte is offered and one is taken. */
  predicate Open(i: Input) {
    Quiet(i) && i.rxValid && i.txReady
  }

  function Opens(inputs: seq<Input>): nat {
    if inputs == [] then 0 else (if Open(inputs[0]) then 1 else 0) + Opens(inputs[1..])
  }

  /** Such an edge is never a stall: in every state but IDLE it moves a byte or a bit. */
  lemma OpenEdgeMoves(c: Core, t: Transaction, i: Input)
    requires c.Valid() && c.state != IDLE && Open(i)
    ensures Extended(t, c, i).stalls == t.stalls
  {
  }

  /** The unstalled edges a command still needs. */
  function Left(m: Monitor): int
    requires m.current.Some?
  {
    1 + Latency(m.current.value.command) + m.current.value.stalls - m.current.value.edges
  }

  /** One edge either completes the command in flight or keeps it, with one edge less to go unless it
      stalled. */
  lemma EdgeCounts(m: Monitor, i: Input)
    requires Sound(m) && m.current.Some? && Quiet(i)
    ensures Left(m) > 0
    ensures var t, m' := m.current.value, Watch(m, i);
            if m'.current == None then
              |m'.completed| == |m.completed| + 1 && m'.completed == m.completed + [Extended(t, m.core, i)]
            else
              && m'.completed == m.completed && m'.current.value.command == t.command
              && Left(m') <= Left(m) - (if Open(i) then 1 else 0)
  {
    if Open(i) {
      OpenEdgeMoves(m.core, m.current.value, i);
    }
    InFlightLeft(m);
    hide LaneStep, InFlight, OnTime, Correct;
  }

  lemma InFlightLeft(m: Monitor)
    requires Sound(m) && m.current.Some?
    ensures m.core.state != IDLE && Left(m) > 0
  {
    hide Multiplying, Mul, Shr, Consumed, Operand, Pow2, LittleEndian, FieldMul, FromLittleEndian, XorPairs, AnyNonzero, Correct;
  }

  /** A command in flight completes once its latency has passed in edges that offer a byte and take
      one, whatever other edges stall in between. */
  lemma {:induction false} CommandCompletes(m: Monitor, inputs: seq<Input>) returns (k: nat)
    requires Sound(m) && m.current.Some? && (forall i :: i in inputs ==> Quiet(i)) && Opens(inputs) >= Left(m)
    ensures 0 < k <= |inputs|
    ensures var t, m' := m.current.value, Run(m, inputs[..k]);
            && m'.current == None && |m'.completed| == |m.completed| + 1
            && m'.completed[..|m.completed|] == m.completed
            && m'.completed[|m.completed|].command == t.command && Correct(m'.completed[|m.completed|])
    decreases |inputs|
  {
    hide Watch, InFlight, OnTime, Correct, Extended, Open, Latency;
    InFlightLeft(m);
    assert inputs != [];
    EdgeCounts(m, inputs[0]);
    WatchKeepsSound(m, inputs[0]);
    var m1 := Watch(m, inputs[0]);
    if m1.current == None {
      k := 1;
      assert inputs[..1][1..] == [] && Run(m1, []) == m1;
      assert m1.completed[|m.completed|] in m1.completed;
      ExtendedCommand(m.current.value, m.core, inputs[0]);
    } else {
      var rest := CommandCompletes(m1, inputs[1..]);
      k := rest + 1;
      assert inputs[..k][1..] == inputs[1..][..rest];
    }
  }

  lemma ExtendedCommand(t: Transaction, c: Core, i: Input)
    requires c.Valid()
    ensures Extended(t, c, i).command == t.command
  {
  }

  /** So every command byte offered to an idle core is answered in full. */
  lemma EveryCommandCompletes(before: seq<Input>, i: Input, after: seq<Input>) returns (k: nat)
    requires Run(START, before).current == None && Quiet(i) && i.rxValid
    requires (forall j :: j in after ==> Quiet(j)) && Opens(after) >= Latency(i.rxData)
    ensures Run(START, before).core.Valid() && k <= |after|
    ensures var m := Run(START, before);
            var m' := Run(Watch(m, i), after[..k]);
            && m'.current == None && |m'.completed| == |m.completed| + 1
            && m'.completed[|m.completed|].command == i.rxData && Correct(m'.completed[|m.completed|])
  {
    assert Sound(START);
    RunKeepsSound(START, before);
    var m := Run(START, before);
    WatchKeepsSound(m, i);
    var m1 := Watch(m, i);
    CommandBegins(m, i);
    hide Run, Watch, InFlight, OnTime, Correct, Extended;
    if m1.current == None {
      k := 0;
      assert after[..0] == [];
      NothingRuns(m1);
      assert m1.completed[|m.completed|] in m1.completed;
    } else {
      k := CommandCompletes(m1, after);
    }
  }

  lemma NothingRuns(m: Monitor)
    requires m.core.Valid()
    ensures Run(m, []) == m
  {
  }

  lemma CommandBegins(m: Monitor, i: Input)
    requires Sound(m) && m.current == None && Quiet(i) && i.rxValid
    ensures var m' := Watch(m, i);
            match m'.current
            case None => m'.completed == m.completed + [Transaction(i.rxData, [], [], 0, 1, 0)]
            case Some(t) => t.command == i.rxData && m'.completed == m.completed && Left(m') == Latency(i.rxData)
  {
    hide Correct, InFlight;
  }

  /** History does not matter: from any idle core the same transfers give the same results. */
  lemma HistoryForgotten(c: Core, inputs: seq<Input>)
    requires c.Valid() && c.state == IDLE
    ensures forall t :: t in Run(Monitor(c, None, [], c.fault), inputs).completed ==> Correct(t)
  {
    var m := Monitor(c, None, [], c.fault);
    assert Sound(m);
    RunKeepsSound(m, inputs);
  }
}
