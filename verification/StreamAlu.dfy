/** The byte-stream ALU, twice: what a command computes as one transaction, and the
    state machine that interleaves byte reception with the bit-serial multiplier. */
module StreamAlu {
  import opened Outcomes
  import opened Bits
  import opened BinaryField
  import opened Bytes
  import opened Ghash

  // ----- the transaction model -----

  const XOR128: byte := 0x01
  const MUL128: byte := 0x02
  const SET128: byte := 0x03
  const NONZERO: byte := 0x04
  const CLEAR: byte := 0x7D
  const STATUS: byte := 0x7E

  const IDENTITY: seq<byte> := [0x01, 0x01, 0x0F, 0x08]
  const ERROR_BYTE: byte := 0xE0

  datatype CommandResult = CommandResult(output: seq<byte>, inputBeats: nat, outputBeats: nat, bitSteps: nat)

  /** The operands interleaved byte by byte. */
  function XorPairs(payload: seq<byte>): (r: seq<byte>)
    requires |payload| % 2 == 0
    ensures |r| == |payload| / 2
  {
    seq(|payload| / 2, i requires 0 <= i < |payload| / 2 => ByteXor(payload[2 * i], payload[2 * i + 1]))
  }

  predicate AnyNonzero(payload: seq<byte>) {
    exists i :: 0 <= i < |payload| && payload[i] != 0
  }

  function Operand(data: seq<byte>): F128
    requires |data| == 16
  {
    ToFromLittleEndian(data);
    Pow2At128();
    FromLittleEndian(data)
  }

  /** `StreamALUModel.execute`: `None` where the source raises over the payload's length. */
  function Execute(command: byte, payload: seq<byte>): Option<CommandResult> {
    if command == XOR128 then
      if |payload| != 32 then None else Some(CommandResult(XorPairs(payload), 32, 16, 0))
    else if command == MUL128 then
      if |payload| != 32 then None
      else
        var product := FieldMul(Operand(payload[..16]), Operand(payload[16..]));
        Some(CommandResult(LittleEndian(16, product), 32, 16, 128))
    else if command == SET128 then
      if |payload| != 16 then None else Some(CommandResult(payload, 16, 16, 0))
    else if command == NONZERO then
      if |payload| != 16 then None else Some(CommandResult([if AnyNonzero(payload) then 1 else 0], 16, 1, 0))
    else if command == STATUS then
      if payload != [] then None else Some(CommandResult(IDENTITY, 0, 4, 0))
    else if command == CLEAR then
      if payload != [] then None else Some(CommandResult([], 0, 0, 0))
    else Some(CommandResult([ERROR_BYTE], 0, 1, 0))
  }

  // ----- the cycle model, as a value -----

  datatype AluState =
    | IDLE | XOR_A | XOR_B | SET_STREAM | ZERO_STREAM
    | MUL_A_RX | MUL_B_RX | MUL_BITS | MUL_TX | STATUS_TX | ERROR_TX

  datatype Pins = Pins(rxReady: bool, txValid: bool, txData: byte, busy: bool, donePulse: bool, fault: bool)

  datatype Controls = Controls(aValid: bool, aLast: bool, bitValid: bool, bitValue: nat, bitLast: bool, resultShift: bool)

  const NO_CONTROLS: Controls := Controls(false, false, false, 0, false, false)

  datatype Input = Input(rxData: byte, rxValid: bool, txReady: bool, abort: bool, resetN: bool)

  datatype Record = Record(pins: Pins, rxCommitted: bool, txCommitted: bool)

  datatype Multiplier = Multiplier(aShift: F128, acc: F128)

  datatype Core = Core(state: AluState, index: nat, scratch: byte, fault: bool, mul: Multiplier) {
    /** The byte index never leaves the transfer it counts. */
    predicate Valid() {
      index < 16 && (state == STATUS_TX ==> index < 4)
    }

    /** The sentinel is about to fall out: this is the last bit of the byte. */
    predicate TailLast() {
      scratch / 2 == 1
    }
  }

  const RESET: Core := Core(IDLE, 0, 0, false, Multiplier(0, 0))

  /** The byte shifted into the top of the multiplicand register. */
  function ShiftIn(a: F128, b: byte): F128 {
    Pow2At128();
    LowBound(Or(Shr(a, 8), Shl(b, 120)), 128);
    Low(Or(Shr(a, 8), Shl(b, 120)), 128)
  }

  function Ticked(m: Multiplier, c: Controls, aByte: byte): Multiplier {
    if c.aValid then Multiplier(ShiftIn(m.aShift, aByte), if c.aLast then 0 else m.acc)
    else if c.bitValid then
      Multiplier(if c.bitLast then m.aShift else FieldXtime(m.aShift),
                 if c.bitValue != 0 then Add(m.acc, m.aShift) else m.acc)
    else if c.resultShift then m.(acc := m.acc / 256)
    else m
  }

  function OutputByte(c: Core, i: Input): byte
    requires c.Valid()
  {
    match c.state
    case XOR_B => ByteXor(c.scratch, i.rxData)
    case SET_STREAM => i.rxData
    case ZERO_STREAM => if c.index == 15 && (c.scratch % 2 == 1 || i.rxData != 0) then 1 else 0
    case MUL_TX => c.mul.acc % 256
    case STATUS_TX => IDENTITY[c.index]
    case ERROR_TX => ERROR_BYTE
    case _ => 0
  }

  /** The states whose input byte leaves at the same edge. */
  predicate PassesThrough(c: Core) {
    c.state == XOR_B || c.state == SET_STREAM || (c.state == ZERO_STREAM && c.index == 15)
  }

  predicate Receives(c: Core) {
    c.state in {IDLE, XOR_A, MUL_A_RX, MUL_B_RX} || (c.state == ZERO_STREAM && c.index != 15)
  }

  predicate Sends(c: Core) {
    c.state in {MUL_TX, STATUS_TX, ERROR_TX}
  }

  predicate RxFires(c: Core, i: Input) {
    i.rxValid && (Receives(c) || (PassesThrough(c) && i.txReady))
  }

  predicate TxFires(c: Core, i: Input) {
    i.txReady && (Sends(c) || (PassesThrough(c) && i.rxValid))
  }

  /** The last transfer of a command. */
  predicate Finishes(c: Core, i: Input) {
    || (c.state == IDLE && RxFires(c, i) && i.rxData == CLEAR)
    || (c.state in {XOR_B, SET_STREAM, ZERO_STREAM, MUL_TX} && c.index == 15 && TxFires(c, i))
    || (c.state == STATUS_TX && c.index == 3 && TxFires(c, i))
    || (c.state == ERROR_TX && TxFires(c, i))
  }

  function PinsOf(c: Core, i: Input): Pins
    requires c.Valid()
  {
    Pins(Receives(c) || (PassesThrough(c) && i.txReady), Sends(c) || (PassesThrough(c) && i.rxValid),
         OutputByte(c, i), c.state != IDLE, Finishes(c, i), c.fault)
  }

  function ControlsOf(c: Core, i: Input): Controls {
    match c.state
    case MUL_A_RX => NO_CONTROLS.(aValid := i.rxValid, aLast := c.index == 15)
    case MUL_B_RX => NO_CONTROLS.(bitValid := i.rxValid, bitValue := i.rxData % 2)
    case MUL_BITS => NO_CONTROLS.(bitValid := true, bitValue := c.scratch % 2, bitLast := c.index == 15 && c.TailLast())
    case MUL_TX => NO_CONTROLS.(resultShift := i.txReady)
    case _ => NO_CONTROLS
  }

  function Started(c: Core, command: byte): Core {
    var idle := c.(index := 0, scratch := 0);
    if command == XOR128 then idle.(state := XOR_A)
    else if command == MUL128 then idle.(state := MUL_A_RX)
    else if command == SET128 then idle.(state := SET_STREAM)
    else if command == NONZERO then idle.(state := ZERO_STREAM)
    else if command == STATUS then idle.(state := STATUS_TX)
    else if command == CLEAR then idle.(fault := false)
    else idle.(state := ERROR_TX, fault := true)
  }

  /** On to the next byte, or back to the given state with the transfer complete. */
  function NextByte(c: Core, last: nat, more: AluState, done: AluState): Core {
    if c.index == last then c.(state := done) else c.(index := c.index + 1, state := more)
  }

  /** The seven bits still to come, below the sentinel. */
  function Sentinel(b: byte): (r: byte)
    ensures r == b / 2 + 0x80
  {
    assert Pow2(7) == 0x80 == Shl(1, 7);
    OrPlaces(b / 2, 1, 7);
    Or(b / 2, 0x80)
  }

  /** The control part of an edge without reset or abort. */
  function Advanced(c: Core, i: Input): Core
    requires c.Valid()
  {
    match c.state
    case IDLE => if RxFires(c, i) then Started(c, i.rxData) else c.(index := 0, scratch := 0)
    case XOR_A => if RxFires(c, i) then c.(scratch := i.rxData, state := XOR_B) else c
    case XOR_B => if TxFires(c, i) then NextByte(c, 15, XOR_A, IDLE) else c
    case SET_STREAM => if TxFires(c, i) then NextByte(c, 15, SET_STREAM, IDLE) else c
    case ZERO_STREAM =>
      if c.index == 15 then if TxFires(c, i) then c.(state := IDLE) else c
      else if RxFires(c, i) then
        c.(scratch := if c.scratch % 2 == 1 || i.rxData != 0 then 1 else 0, index := c.index + 1)
      else c
    case MUL_A_RX =>
      if !RxFires(c, i) then c
      else if c.index == 15 then c.(index := 0, state := MUL_B_RX)
      else c.(index := c.index + 1)
    case MUL_B_RX => if RxFires(c, i) then c.(scratch := Sentinel(i.rxData), state := MUL_BITS) else c
    case MUL_BITS =>
      if !c.TailLast() then c.(scratch := c.scratch / 2)
      else if c.index == 15 then c.(index := 0, state := MUL_TX)
      else c.(index := c.index + 1, state := MUL_B_RX)
    case MUL_TX => if TxFires(c, i) then NextByte(c, 15, MUL_TX, IDLE) else c
    case STATUS_TX => if TxFires(c, i) then NextByte(c, 3, STATUS_TX, IDLE) else c
    case ERROR_TX => if TxFires(c, i) then c.(state := IDLE) else c
  }

  function Stepped(c: Core, i: Input): (r: Core)
    requires c.Valid()
    ensures r.Valid()
  {
    if i.abort then Core(IDLE, 0, 0, true, Multiplier(0, 0))
    else Advanced(c, i).(mul := Ticked(c.mul, ControlsOf(c, i), i.rxData))
  }

  /** One edge of the lane around the core. */
  function LaneStep(c: Core, i: Input): (r: Core)
    requires c.Valid()
    ensures r.Valid()
  {
    if !i.resetN then RESET else Stepped(c, i)
  }

  function RecordOf(c: Core, i: Input): Record
    requires c.Valid()
  {
    var quiet := i.abort || !i.resetN;
    Record(PinsOf(c, i), RxFires(c, i) && !quiet, TxFires(c, i) && !quiet)
  }

  // ----- the objects -----

  class BitstreamMultiplier {
    var aShift: F128
    var acc: F128

    ghost function View(): Multiplier
      reads this
    {
      Multiplier(aShift, acc)
    }

    constructor ()
      ensures View() == Multiplier(0, 0)
    {
      aShift, acc := 0, 0;
    }

    method Tick(c: Controls, aByte: byte, abort: bool)
      modifies this
      ensures View() == if abort then Multiplier(0, 0) else Ticked(old(View()), c, aByte)
    {
      if abort {
        aShift, acc := 0, 0;
      } else if c.aValid {
        aShift := ShiftIn(aShift, aByte);
        if c.aLast {
          acc := 0;
        }
      } else if c.bitValid {
        if c.bitValue != 0 {
          acc := Add(acc, aShift);
        }
        if !c.bitLast {
          var doubled := MulByX(Ghash.Ghash(), aShift);
          aShift := doubled.value;
        }
      } else if c.resultShift {
        acc := acc / 256;
      }
    }
  }

  class StreamALU {
    var state: AluState
    var index: nat
    var scratch: byte
    var fault: bool
    const mul: BitstreamMultiplier

    ghost function View(): Core
      reads this, mul
    {
      Core(state, index, scratch, fault, mul.View())
    }

    constructor ()
      ensures View() == RESET && fresh(mul)
    {
      state, index, scratch, fault := IDLE, 0, 0, false;
      mul := new BitstreamMultiplier();
    }

    /** `mul_tail_last`. */
    predicate TailLast()
      reads this
    {
      scratch / 2 == 1
    }

    /** `combinational`. */
    method Combinational(i: Input) returns (pins: Pins, controls: Controls)
      requires View().Valid()
      ensures pins == PinsOf(View(), i) && controls == ControlsOf(View(), i)
    {
      var rxReady, txValid, txData: byte := false, false, 0;
      controls := NO_CONTROLS;
      match state {
        case IDLE => rxReady := true;
        case XOR_A => rxReady := true;
        case XOR_B => txValid, txData, rxReady := i.rxValid, ByteXor(scratch, i.rxData), i.txReady;
        case SET_STREAM => txValid, txData, rxReady := i.rxValid, i.rxData, i.txReady;
        case ZERO_STREAM =>
          if index == 15 {
            txValid, rxReady := i.rxValid, i.txReady;
            txData := if scratch % 2 == 1 || i.rxData != 0 then 1 else 0;
          } else {
            rxReady := true;
          }
        case MUL_A_RX =>
          rxReady, controls := true, NO_CONTROLS.(aValid := i.rxValid, aLast := index == 15);
        case MUL_B_RX =>
          rxReady, controls := true, NO_CONTROLS.(bitValid := i.rxValid, bitValue := i.rxData % 2);
        case MUL_BITS =>
          controls := NO_CONTROLS.(bitValid := true, bitValue := scratch % 2, bitLast := index == 15 && TailLast());
        case MUL_TX =>
          txValid, txData, controls := true, mul.acc % 256, NO_CONTROLS.(resultShift := i.txReady);
        case STATUS_TX => txValid, txData := true, IDENTITY[index];
        case ERROR_TX => txValid, txData := true, ERROR_BYTE;
      }
      var rxFire, txFire := i.rxValid && rxReady, txValid && i.txReady;
      var done :=
        || (rxFire && state == IDLE && i.rxData == CLEAR)
        || (txFire && ((state in {XOR_B, SET_STREAM, ZERO_STREAM, MUL_TX} && index == 15)
                       || (state == STATUS_TX && index == 3)
                       || state == ERROR_TX));
      pins := Pins(rxReady, txValid, txData, state != IDLE, done, fault);
    }

    /** `step`. */
    method Step(i: Input) returns (pins: Pins)
      requires View().Valid()
      modifies this, mul
      ensures pins == old(PinsOf(View(), i)) && View() == old(Stepped(View(), i))
    {
      var controls;
      pins, controls := Combinational(i);
      var rxFire, txFire := i.rxValid && pins.rxReady, pins.txValid && i.txReady;
      if i.abort {
        state, index, scratch, fault := IDLE, 0, 0, true;
      } else {
        Advance(i, rxFire, txFire);
      }
      mul.Tick(controls, i.rxData, i.abort);
    }

    method Advance(i: Input, rxFire: bool, txFire: bool)
      requires View().Valid() && rxFire == RxFires(View(), i) && txFire == TxFires(View(), i)
      modifies this
      ensures View() == old(Advanced(View(), i))
    {
      match state {
        case IDLE =>
          index, scratch := 0, 0;
          if rxFire {
            Start(i.rxData);
          }
        case XOR_A =>
          if rxFire {
            scratch, state := i.rxData, XOR_B;
          }
        case XOR_B =>
          if txFire {
            Proceed(15, XOR_A);
          }
        case SET_STREAM =>
          if txFire {
            Proceed(15, SET_STREAM);
          }
        case ZERO_STREAM =>
          if index == 15 {
            if txFire {
              state := IDLE;
            }
          } else if rxFire {
            scratch := if scratch % 2 == 1 || i.rxData != 0 then 1 else 0;
            index := index + 1;
          }
        case MUL_A_RX =>
          if rxFire {
            if index == 15 {
              index, state := 0, MUL_B_RX;
            } else {
              index := index + 1;
            }
          }
        case MUL_B_RX =>
          if rxFire {
            scratch, state := Sentinel(i.rxData), MUL_BITS;
          }
        case MUL_BITS =>
          if TailLast() {
            if index == 15 {
              index, state := 0, MUL_TX;
            } else {
              index, state := index + 1, MUL_B_RX;
            }
          } else {
            scratch := scratch / 2;
          }
        case MUL_TX =>
          if txFire {
            Proceed(15, MUL_TX);
          }
        case STATUS_TX =>
          if txFire {
            Proceed(3, STATUS_TX);
          }
        case ERROR_TX =>
          if txFire {
            state := IDLE;
          }
      }
    }

    method Start(command: byte)
      modifies this
      ensures View() == old(Started(View(), command))
    {
      index, scratch := 0, 0;
      if command == XOR128 {
        state := XOR_A;
      } else if command == MUL128 {
        state := MUL_A_RX;
      } else if command == SET128 {
        state := SET_STREAM;
      } else if command == NONZERO {
        state := ZERO_STREAM;
      } else if command == STATUS {
        state := STATUS_TX;
      } else if command == CLEAR {
        fault := false;
      } else {
        fault, state := true, ERROR_TX;
      }
    }

    method Proceed(last: nat, more: AluState)
      modifies this
      ensures View() == old(NextByte(View(), last, more, IDLE))
    {
      if index == last {
        state := IDLE;
      } else {
        index, state := index + 1, more;
      }
    }
  }

  /** `ProtocolLane`: only committed transfers count; a reset edge replaces the core. */
  class ProtocolLane {
    var core: StreamALU

    constructor ()
      ensures core.View() == RESET && fresh(core) && fresh(core.mul)
    {
      core := new StreamALU();
    }

    method Step(i: Input) returns (record: Record)
      requires core.View().Valid()
      modifies this, core, core.mul
      ensures record == old(RecordOf(core.View(), i)) && core.View() == old(LaneStep(core.View(), i))
      ensures core == old(core) || (fresh(core) && fresh(core.mul))
    {
      if !i.resetN {
        var pins, _ := core.Combinational(i);
        core := new StreamALU();
        return Record(pins, false, false);
      }
      var pins := core.Step(i);
      return Record(pins, i.rxValid && pins.rxReady && !i.abort, pins.txValid && i.txReady && !i.abort);
    }
  }
}
