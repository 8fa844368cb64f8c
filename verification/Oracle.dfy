/** The independent interpreter of the scalar opcodes. */
module Oracle {
  import opened Outcomes
  import opened Bytes
  import opened Ghash
  import opened Pointers
  import opened Protocol
  import opened Requests
  import opened Programs

  datatype MachineFault =
    | Overflow | WriteConflict | ZeroDivisor | InvalidGPower | Unsupported | PcOutOfRange | BadHaltState | NotPowerOfTwo

  type Outcome<+T> = Result<T, MachineFault>

  datatype State = State(memory: map<nat, F128>, written: set<nat>, pc: nat, fp: nat, cycles: nat) {
    predicate Valid() {
      written <= memory.Keys
    }

    function Read(address: nat): F128
      requires Valid()
    {
      if address in written then memory[address] else 0
    }

    function WriteOnce(address: nat, value: F128): (r: Outcome<State>)
      requires Valid()
      ensures r.Ok? ==> r.value.Valid() && r.value.pc == pc && r.value.fp == fp && r.value.cycles == cycles
    {
      if address in written && memory[address] != value then Err(WriteConflict)
      else Ok(this.(memory := memory[address := value], written := written + {address}))
    }
  }

  function OracleAdd(left: nat, right: nat): Outcome<nat> {
    if left + right > U32_MAX then Err(Overflow) else Ok(left + right)
  }

  ghost function OracleReverseIndex(pointer: F128): Outcome<nat> {
    match Reverse(pointer, INDEX_LIMIT)
    case Some(index) => Ok(index)
    case None => Err(InvalidGPower)
  }

  /** `inverse`, with its convention for zero. */
  ghost function OracleInverseOf(value: F128): F128 {
    if value == 0 then 0 else Inverse(value)
  }

  ghost function Advance(s: State): Outcome<State> {
    var pc :- OracleAdd(s.pc, 1);
    Ok(s.(pc := pc, cycles := s.cycles + 1))
  }

  /** Fills the one absent operand when the destination is written. */
  ghost function FillOperand(s: State, isMul: bool, a: nat, b: nat, c: nat): (r: Outcome<State>)
    requires s.Valid()
    ensures r.Ok? ==> r.value.Valid() && r.value.pc == s.pc && r.value.fp == s.fp && r.value.cycles == s.cycles
  {
    if c in s.written && (a in s.written) != (b in s.written) then
      var known, missing := s.Read(if a in s.written then a else b), if a in s.written then b else a;
      if !isMul then s.WriteOnce(missing, Add(s.Read(c), known))
      else if known == 0 then Err(ZeroDivisor)
      else s.WriteOnce(missing, FieldMul(s.Read(c), OracleInverseOf(known)))
    else Ok(s)
  }

  ghost function StepBinary(s: State, isMul: bool, offsetA: u32, offsetB: u32, offsetC: u32): (r: Outcome<State>)
    requires s.Valid()
    ensures r.Ok? ==> r.value.Valid()
  {
    var a :- OracleAdd(s.fp, offsetA);
    var b :- OracleAdd(s.fp, offsetB);
    var c :- OracleAdd(s.fp, offsetC);
    var filled :- FillOperand(s, isMul, a, b, c);
    var left, right := filled.Read(a), filled.Read(b);
    var done :- filled.WriteOnce(c, if isMul then FieldMul(left, right) else Add(left, right));
    Advance(done)
  }

  ghost function StepDeref(s: State, mode: DerefMode, alpha: u32, beta: u32): (r: Outcome<State>)
    requires s.Valid() && mode != ModeCell
    ensures r.Ok? ==> r.value.Valid()
  {
    var pointerAddress :- OracleAdd(s.fp, alpha);
    var base :- OracleReverseIndex(s.Read(pointerAddress));
    var target :- OracleAdd(base, beta);
    var index :- if mode == ModePc then OracleAdd(s.pc, 2) else Ok(s.fp);
    var done :- s.WriteOnce(target, GPower(index));
    Advance(done)
  }

  ghost function StepJump(s: State, oc: u32, od: u32, of: u32): (r: Outcome<State>)
    requires s.Valid()
    ensures r.Ok? ==> r.value.Valid()
  {
    var condition :- OracleAdd(s.fp, oc);
    var destination :- OracleAdd(s.fp, od);
    var frame :- OracleAdd(s.fp, of);
    if s.Read(condition) == 0 then Advance(s) else
    var pc :- OracleReverseIndex(s.Read(destination));
    var fp :- OracleReverseIndex(s.Read(frame));
    Ok(s.(pc := pc, fp := fp, cycles := s.cycles + 1))
  }

  /** `Machine.step`. */
  ghost function Step(s: State, op: Operation): (r: Outcome<State>)
    requires s.Valid()
    ensures r.Ok? ==> r.value.Valid()
  {
    match op
    case Set(o, k) =>
      var address :- OracleAdd(s.fp, o);
      var done :- s.WriteOnce(address, k);
      Advance(done)
    case Xor(a, b, c) => StepBinary(s, false, a, b, c)
    case Mul(a, b, c) => StepBinary(s, true, a, b, c)
    case Deref(mode, alpha, beta, _) =>
      if mode == ModeCell then Err(Unsupported) else StepDeref(s, mode, alpha, beta)
    case Jump(oc, od, of) => StepJump(s, oc, od, of)
    case Blake3(_, _, _, _) => Err(Unsupported)
  }

  /** `n` steps of `program`, none of them taken at the sentinel, lead from `s` to `t`. */
  ghost predicate Reaches(program: seq<Operation>, s: State, n: nat, t: State)
    requires |program| > 0 && s.Valid()
    decreases n
  {
    if n == 0 then s == t else
      && s.pc != Sentinel(program)
      && s.pc < |program|
      && Step(s, program[s.pc]).Ok?
      && Reaches(program, Step(s, program[s.pc]).value, n - 1, t)
  }

  lemma {:induction false} ReachesStep(program: seq<Operation>, s: State, n: nat, t: State)
    requires |program| > 0 && s.Valid() && t.Valid() && Reaches(program, s, n, t)
    requires t.pc != Sentinel(program) && t.pc < |program| && Step(t, program[t.pc]).Ok?
    ensures Reaches(program, s, n + 1, Step(t, program[t.pc]).value)
    decreases n
  {
    if n != 0 {
      ReachesStep(program, Step(s, program[s.pc]).value, n - 1, t);
    }
  }

  /** The program halts properly: `n` steps lead to the sentinel, with frame pointer zero. */
  ghost predicate Halts(program: seq<Operation>, s: State, n: nat, final: State)
    requires |program| > 0 && s.Valid()
  {
    Reaches(program, s, n, final) && final.pc == Sentinel(program) && final.fp == 0
  }

  class Machine {
    var memory: map<nat, F128>
    var written: set<nat>
    var pc: nat
    var fp: nat
    var cycles: nat

    ghost function View(): State
      reads this
    {
      State(memory, written, pc, fp, cycles)
    }

    /** `with_public_input`. */
    constructor WithPublicInput(first: F128, second: F128)
      ensures View() == State(map[0 := first, 1 := second], {0, 1}, 0, 0, 0)
    {
      memory := map[0 := first, 1 := second];
      written := {0, 1};
      pc, fp, cycles := 0, 0, 0;
    }

    method WriteOnce(address: nat, value: F128) returns (r: Outcome<()>)
      requires View().Valid()
      modifies this`memory, this`written
      ensures View().Valid()
      ensures match old(View()).WriteOnce(address, value)
              case Ok(s) => r == Ok(()) && View() == s
              case Err(fault) => r == Err(fault) && View() == old(View())
    {
      if address in written && memory[address] != value {
        return Err(WriteConflict);
      }
      memory := memory[address := value];
      written := written + {address};
      return Ok(());
    }

    function Read(address: nat): F128
      requires View().Valid()
      reads this
    {
      if address in written then memory[address] else 0
    }

    method Fill(isMul: bool, a: nat, b: nat, c: nat) returns (r: Outcome<()>)
      requires View().Valid()
      modifies this`memory, this`written
      ensures View().Valid()
      ensures match FillOperand(old(View()), isMul, a, b, c)
              case Ok(s) => r == Ok(()) && View() == s
              case Err(fault) => r == Err(fault)
    {
      var absentA, absentB := a !in written, b !in written;
      if c in written && absentA != absentB {
        var known := Read(if absentA then b else a);
        var missing := if absentA then a else b;
        if isMul {
          if known == 0 {
            return Err(ZeroDivisor);
          }
          var inverse := OracleInverse(known);
          var solved := SchoolbookProduct(Read(c), inverse);
          r := WriteOnce(missing, solved);
        } else {
          r := WriteOnce(missing, Add(Read(c), known));
        }
        return;
      }
      return Ok(());
    }

    method ReverseIndex(pointer: F128) returns (r: Outcome<nat>)
      ensures r == OracleReverseIndex(pointer)
    {
      var found := OracleReverse(pointer, INDEX_LIMIT);
      r := match found case Some(index) => Ok(index) case None => Err(InvalidGPower);
    }

    /** Executes one instruction; a fault leaves `cycles` alone and never unwrites a cell. */
    method Execute(op: Operation) returns (r: Outcome<()>)
      requires View().Valid()
      modifies this
      ensures View().Valid()
      ensures match Step(old(View()), op)
              case Ok(s) => r == Ok(()) && View() == s
              case Err(fault) => r == Err(fault)
    {
      match op {
        case Set(o, k) =>
          var address :- OracleAdd(fp, o);
          var _ :- WriteOnce(address, k);
          r := Next();
        case Xor(a, b, c) => r := Binary(false, a, b, c);
        case Mul(a, b, c) => r := Binary(true, a, b, c);
        case Deref(mode, alpha, beta, _) =>
          if mode == ModeCell {
            return Err(Unsupported);
          }
          r := Dereference(mode, alpha, beta);
        case Jump(oc, od, of) => r := Branch(oc, od, of);
        case Blake3(_, _, _, _) => r := Err(Unsupported);
      }
    }

    method Next() returns (r: Outcome<()>)
      modifies this`pc, this`cycles
      ensures match Advance(old(View()))
              case Ok(s) => r == Ok(()) && View() == s
              case Err(fault) => r == Err(fault) && View() == old(View())
    {
      pc :- OracleAdd(pc, 1);
      cycles := cycles + 1;
      return Ok(());
    }

    method Binary(isMul: bool, offsetA: u32, offsetB: u32, offsetC: u32) returns (r: Outcome<()>)
      requires View().Valid()
      modifies this
      ensures View().Valid()
      ensures match StepBinary(old(View()), isMul, offsetA, offsetB, offsetC)
              case Ok(s) => r == Ok(()) && View() == s
              case Err(fault) => r == Err(fault)
    {
      var a :- OracleAdd(fp, offsetA);
      var b :- OracleAdd(fp, offsetB);
      var c :- OracleAdd(fp, offsetC);
      var _ :- Fill(isMul, a, b, c);
      var value: F128;
      if isMul {
        value := SchoolbookProduct(Read(a), Read(b));
      } else {
        value := Add(Read(a), Read(b));
      }
      var _ :- WriteOnce(c, value);
      r := Next();
    }

    method Dereference(mode: DerefMode, alpha: u32, beta: u32) returns (r: Outcome<()>)
      requires View().Valid() && mode != ModeCell
      modifies this
      ensures View().Valid()
      ensures match StepDeref(old(View()), mode, alpha, beta)
              case Ok(s) => r == Ok(()) && View() == s
              case Err(fault) => r == Err(fault)
    {
      var pointerAddress :- OracleAdd(fp, alpha);
      var base :- ReverseIndex(Read(pointerAddress));
      var target :- OracleAdd(base, beta);
      var index := fp;
      if mode == ModePc {
        index :- OracleAdd(pc, 2);
      }
      var value := OracleEncode(index);
      var _ :- WriteOnce(target, value);
      r := Next();
    }

    method Branch(oc: u32, od: u32, of: u32) returns (r: Outcome<()>)
      requires View().Valid()
      modifies this
      ensures View().Valid()
      ensures match StepJump(old(View()), oc, od, of)
              case Ok(s) => r == Ok(()) && View() == s
              case Err(fault) => r == Err(fault)
    {
      var condition :- OracleAdd(fp, oc);
      var destination :- OracleAdd(fp, od);
      var frame :- OracleAdd(fp, of);
      if Read(condition) == 0 {
        r := Next();
        return;
      }
      pc :- ReverseIndex(Read(destination));
      fp :- ReverseIndex(Read(frame));
      cycles := cycles + 1;
      return Ok(());
    }

    /** One iteration of `run`. */
    method Tick(program: seq<Operation>, ghost start: State, ghost steps: nat) returns (r: Outcome<()>)
      requires |program| > 0 && start.Valid() && View().Valid()
      requires pc != Sentinel(program) && Reaches(program, start, steps, View())
      modifies this
      ensures View().Valid()
      ensures r.Ok? ==> Reaches(program, start, steps + 1, View()) && cycles == old(cycles) + 1
      ensures r.Err? ==>
        if old(pc) >= |program| then r == Err(PcOutOfRange)
        else Step(old(View()), program[old(pc)]) == Err(r.error)
    {
      if pc >= |program| {
        return Err(PcOutOfRange);
      }
      RunAdvances(program, start, steps, View());
      r := Execute(program[pc]);
    }

    /** `run`, given up after `limit` steps: `last` is the state after the last completed step,
        and what is returned says exactly why there was no further one. */
    method Run(program: seq<Operation>, limit: nat) returns (r: Option<Outcome<()>>, ghost steps: nat, ghost last: State)
      requires View().Valid()
      modifies this
      ensures r == Some(Err(NotPowerOfTwo)) <==> !IsPowerOfTwo(|program|)
      ensures IsPowerOfTwo(|program|) ==> last.Valid() && RunsTo(program, old(View()), limit, steps, last, r)
      ensures r == Some(Ok(())) ==> View() == last && cycles == old(cycles) + steps
      ensures r == None ==> View() == last
    {
      steps, last := 0, View();
      if !IsPowerOfTwo(|program|) {
        return Some(Err(NotPowerOfTwo)), steps, last;
      }
      RunStarts(program, View());
      hide Step, Reaches, IsPowerOfTwo;
      ghost var start := View();
      var remaining := limit;
      while remaining > 0 && pc != Sentinel(program)
        invariant View().Valid() && last == View()
        invariant cycles == start.cycles + steps && steps + remaining == limit
        invariant Reaches(program, start, steps, View())
        decreases remaining
      {
        var outcome := Tick(program, start, steps);
        if outcome.Err? {
          if last.pc < |program| {
            StepFaults(last, program[last.pc]);
          }
          return Some(Err(outcome.error)), steps, last;
        }
        steps, last := steps + 1, View();
        remaining := remaining - 1;
      }
      if pc != Sentinel(program) {
        return None, steps, last;
      }
      return Some(if fp != 0 then Err(BadHaltState) else Ok(())), steps, last;
    }
  }

  lemma RunStarts(program: seq<Operation>, s: State)
    requires IsPowerOfTwo(|program|) && s.Valid()
    ensures |program| > 0 && Reaches(program, s, 0, s)
  {
  }

  /** The faults of the run itself are not faults of an instruction. */
  lemma StepFaults(s: State, op: Operation)
    requires s.Valid() && Step(s, op).Err?
    ensures Step(s, op).error !in {PcOutOfRange, BadHaltState, NotPowerOfTwo}
  {
    hide Reverse, Inverse, FieldMul, GPower;
  }

  /** How a run of at most `limit` steps ends: at the sentinel, at the limit, outside the program,
      or at an instruction that faults. */
  ghost predicate RunsTo(program: seq<Operation>, s: State, limit: nat, steps: nat, last: State, r: Option<Outcome<()>>)
    requires |program| > 0 && s.Valid() && last.Valid()
  {
    && steps <= limit && Reaches(program, s, steps, last)
    && if last.pc == Sentinel(program) then r == Some(if last.fp != 0 then Err(BadHaltState) else Ok(()))
       else if steps == limit then r == None
       else if last.pc >= |program| then r == Some(Err(PcOutOfRange))
       else Step(last, program[last.pc]).Err? && r == Some(Err(Step(last, program[last.pc]).error))
  }

  /** Whatever is reached on the way to the sentinel is reached before it, and can go on. */
  lemma {:induction false} ReachedBefore(program: seq<Operation>, s: State, n: nat, final: State, k: nat, t: State)
    requires |program| > 0 && s.Valid() && final.Valid() && t.Valid()
    requires Reaches(program, s, n, final) && final.pc == Sentinel(program)
    requires Reaches(program, s, k, t)
    ensures k <= n
    ensures k == n ==> t == final
    ensures k < n ==> t.pc != Sentinel(program) && t.pc < |program| && Step(t, program[t.pc]).Ok?
    decreases n
  {
    hide Step;
    if n != 0 && k != 0 {
      ReachedBefore(program, Step(s, program[s.pc]).value, n - 1, final, k - 1, t);
    }
  }

  /** A program halts in one way only: after as many steps, and in the same state. */
  lemma HaltsOnce(program: seq<Operation>, s: State, n: nat, final: State, m: nat, other: State)
    requires |program| > 0 && s.Valid() && final.Valid() && other.Valid()
    requires Halts(program, s, n, final) && Halts(program, s, m, other)
    ensures n == m && final == other
  {
    ReachedBefore(program, s, n, final, m, other);
    ReachedBefore(program, s, m, other, n, final);
  }

  /** A run given enough steps halts if and only if the program does, where the program does. */
  lemma RunHalts(program: seq<Operation>, s: State, limit: nat, steps: nat, last: State, r: Option<Outcome<()>>, n: nat, final: State)
    requires |program| > 0 && s.Valid() && last.Valid() && final.Valid()
    requires RunsTo(program, s, limit, steps, last, r) && Halts(program, s, n, final)
    ensures n <= limit ==> r == Some(Ok(())) && steps == n && last == final
    ensures n > limit ==> r == None
  {
    hide Step;
    ReachedBefore(program, s, n, final, steps, last);
  }

  lemma RunAdvances(program: seq<Operation>, s: State, n: nat, t: State)
    requires |program| > 0 && s.Valid() && t.Valid() && Reaches(program, s, n, t)
    requires t.pc != Sentinel(program) && t.pc < |program|
    ensures var r := Step(t, program[t.pc]);
            r.Ok? ==> Reaches(program, s, n + 1, r.value) && r.value.cycles == t.cycles + 1
  {
    CyclesAdvance(t, program[t.pc]);
    if Step(t, program[t.pc]).Ok? {
      ReachesStep(program, s, n, t);
    }
  }

  /** The cycle count decides nothing. */
  lemma StepIgnoresCycles(s: State, cycles: nat, op: Operation)
    requires s.Valid()
    ensures Step(s, op).Ok? <==> Step(s.(cycles := cycles), op).Ok?
  {
    hide Reverse, Inverse, FieldMul, GPower, Add;
  }

  /** Every completed step is one cycle and never unwrites a cell. */
  lemma CyclesAdvance(s: State, op: Operation)
    requires s.Valid()
    ensures Step(s, op).Ok? ==>
      Step(s, op).value.cycles == s.cycles + 1 && s.written <= Step(s, op).value.written
  {
  }
}
