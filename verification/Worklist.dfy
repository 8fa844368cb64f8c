/** The formal validator's evaluation of a combinational cell graph: sweeps over a shrinking
    worklist until nothing moves. The result is the least solution of the cell equations,
    so it does not depend on the order in which the cells are visited. */
module Worklist {
  import opened Outcomes

  /** A bit of a connection: a constant, a net, or an undefined state such as `x`. */
  datatype Wire = Zero | One | Net(id: int) | Undefined

  datatype CellKind = Mux | Not | And | Or | AssertCell | Unknown

  /** A cell; a port it does not have is `None`. */
  datatype Cell = Cell(
    kind: CellKind, a: Option<seq<Wire>>, b: Option<seq<Wire>>, s: Option<seq<Wire>>, y: Option<seq<Wire>>)
  {
    /** Dropped from the worklist on sight. */
    predicate Ignored() {
      kind.AssertCell? || y.None?
    }

    /** Evaluating the cell asks an empty port for its first bit. Ports are read in order, and a bit that
        is not known ends the evaluation before the next port is looked at. */
    predicate Faults(values: Values) {
      match kind
      case Mux => a.Some? && b.Some? && a.value != [] && b.value != [] && s == Some([])
      case Not => a == Some([])
      case And => PairFaults(values)
      case Or => PairFaults(values)
      case _ => false
    }

    predicate PairFaults(values: Values) {
      a == Some([]) || (a.Some? && a.value != [] && Bit(a.value[0], values).Some? && b == Some([]))
    }

    /** The cell may assign net `n` at position `i` of its output. */
    predicate Drives(i: int, n: int) {
      !Ignored() && !kind.Unknown? && 0 <= i < |y.value| && y.value[i] == Net(n)
    }
  }

  type Values = map<int, bool>

  // ----- the equations -----

  /** `_bit`: `None` is a `KeyError`. */
  function Bit(w: Wire, values: Values): Option<bool> {
    match w
    case Zero => Some(false)
    case One => Some(true)
    case Net(id) => if id in values then Some(values[id]) else None
    case Undefined => None
  }

  function Bits(ws: seq<Wire>, values: Values): (r: Option<seq<bool>>)
    ensures r.Some? ==> |r.value| == |ws|
  {
    if ws == [] then Some([]) else
    match (Bit(ws[0], values), Bits(ws[1..], values))
    case (Some(first), Some(rest)) => Some([first] + rest)
    case _ => None
  }

  function Shorter<T>(a: seq<T>, b: seq<T>): nat {
    if |a| <= |b| then |a| else |b|
  }

  /** The right-hand side of the cell's equation, once enough of its inputs are known. A
      multiplexer only waits for the side it selects, and not at all if it has no bits. An empty
      port has nothing to be read. */
  function Eval(c: Cell, values: Values): Option<seq<bool>>
  {
    match c.kind
    case Mux =>
      if c.a.None? || c.b.None? then None
      else if c.a.value == [] || c.b.value == [] then Some([])
      else if c.s.None? || c.s.value == [] then None
      else
        (match Bit(c.s.value[0], values)
         case None => None
         case Some(select) =>
           var n := Shorter(c.a.value, c.b.value);
           Bits((if select then c.b.value else c.a.value)[..n], values))
    case Not =>
      if c.a.None? || c.a.value == [] then None else
      (match Bit(c.a.value[0], values)
       case Some(x) => Some([!x])
       case None => None)
    case And => Both(c, values, (x, y) => x && y)
    case Or => Both(c, values, (x, y) => x || y)
    case _ => None
  }

  /** Both operands are read, whatever the first one is. */
  function Both(c: Cell, values: Values, op: (bool, bool) -> bool): Option<seq<bool>>
  {
    if c.a.None? || c.b.None? || c.a.value == [] || c.b.value == [] then None else
    match (Bit(c.a.value[0], values), Bit(c.b.value[0], values))
    case (Some(x), Some(y)) => Some([op(x, y)])
    case _ => None
  }

  /** The assignments of a cell that came out as `result`, cut to the shorter of the two. */
  ghost predicate Assigned(c: Cell, result: seq<bool>, values: Values)
    requires !c.Ignored()
  {
    forall i, n :: 0 <= i < |result| && c.Drives(i, n) ==> n in values && values[n] == result[i]
  }

  /** The cell's equation holds as far as its inputs are known. */
  ghost predicate Satisfied(c: Cell, values: Values)
  {
    c.Ignored() || Eval(c, values).None? || Assigned(c, Eval(c, values).value, values)
  }

  predicate Extends(values: Values, more: Values) {
    forall n :: n in values ==> n in more && more[n] == values[n]
  }

  /** A solution of the equations over the given inputs. */
  ghost predicate IsSolution(cells: seq<Cell>, inputs: Values, values: Values)
  {
    Extends(inputs, values) && forall c :: c in cells ==> Satisfied(c, values)
  }

  /** The solution that says no more than every other solution. */
  ghost predicate IsLeast(cells: seq<Cell>, inputs: Values, values: Values)
  {
    IsSolution(cells, inputs, values) && forall other :: IsSolution(cells, inputs, other) ==> Extends(values, other)
  }

  /** At most one cell bit drives a net, and none drives an input. */
  ghost predicate SingleDriver(cells: seq<Cell>, inputs: Values) {
    && (forall c, i, n :: 0 <= c < |cells| && cells[c].Drives(i, n) ==> n !in inputs)
    && (forall c, d, i, j, n :: 0 <= c < |cells| && 0 <= d < |cells| && cells[c].Drives(i, n) && cells[d].Drives(j, n)
          ==> c == d && i == j)
  }

  // ----- knowing more never changes what was known -----

  lemma {:induction false} BitsMonotone(ws: seq<Wire>, values: Values, more: Values)
    requires Extends(values, more) && Bits(ws, values).Some?
    ensures Bits(ws, more) == Bits(ws, values)
  {
    if ws != [] {
      BitsMonotone(ws[1..], values, more);
    }
  }

  lemma EvalMonotone(c: Cell, values: Values, more: Values)
    requires Extends(values, more) && Eval(c, values).Some?
    ensures Eval(c, more) == Eval(c, values)
  {
    if c.kind.Mux? && c.a.value != [] && c.b.value != [] {
      var select := Bit(c.s.value[0], values).value;
      BitsMonotone((if select then c.b.value else c.a.value)[..Shorter(c.a.value, c.b.value)], values, more);
    }
  }

  lemma FaultsMonotone(c: Cell, values: Values, more: Values)
    requires Extends(values, more) && c.Faults(values)
    ensures c.Faults(more)
  {
  }

  lemma EvaluatedNeverFaults(c: Cell, values: Values)
    requires Eval(c, values).Some?
    ensures !c.Faults(values)
  {
  }

  lemma SameValues(v: Values, w: Values)
    requires Extends(v, w) && Extends(w, v)
    ensures v == w
  {
    forall n
      ensures n in v.Keys <==> n in w.Keys
    {
      assert n in v ==> n in w;
      assert n in w ==> n in v;
    }
    assert v.Keys == w.Keys;
    assert forall n :: n in v ==> w[n] == v[n];
  }

  lemma LeastUnique(cells: seq<Cell>, inputs: Values, v: Values, w: Values)
    requires IsLeast(cells, inputs, v) && IsLeast(cells, inputs, w)
    ensures v == w
  {
    SameValues(v, w);
  }

  /** The order, and the multiplicity, of the cells is irrelevant. */
  lemma OrderIrrelevant(cells: seq<Cell>, others: seq<Cell>, inputs: Values, v: Values, w: Values)
    requires forall c :: c in cells <==> c in others
    requires IsLeast(cells, inputs, v) && IsLeast(others, inputs, w)
    ensures v == w
  {
    assert IsSolution(others, inputs, v) && IsSolution(cells, inputs, w);
    SameValues(v, w);
  }

  // ----- the worklist -----

  /** What the sweeps keep. Everything known is implied, every cell off the worklist is
      satisfied for good, and no cell still on it has assigned anything. */
  ghost predicate Sweeping(cells: seq<Cell>, inputs: Values, values: Values, pending: seq<nat>) {
    && (forall k :: k in pending ==> k < |cells|)
    && Extends(inputs, values)
    && (forall other :: IsSolution(cells, inputs, other) ==> Extends(values, other))
    && (forall k :: 0 <= k < |cells| ==> k in pending || Settled(cells[k], values))
    && (forall n :: n in values ==> n in inputs || Driven(cells, pending, n))
  }

  /** Some cell off the worklist drives the net. */
  ghost predicate Driven(cells: seq<Cell>, pending: seq<nat>, n: int) {
    exists k, i :: 0 <= k < |cells| && k !in pending && cells[k].Drives(i, n)
  }

  /** None of these cells has enough inputs yet. */
  ghost predicate Blocked(cells: seq<Cell>, values: Values, left: seq<nat>)
  {
    forall k :: k in left && k < |cells| ==> Eval(cells[k], values).None? && (cells[k].Ignored() || !cells[k].Faults(values))
  }

  /** Some cell asks an empty port for a bit. */
  ghost predicate SomeFaults(cells: seq<Cell>, values: Values) {
    exists c :: c in cells && !c.Ignored() && c.Faults(values)
  }

  lemma NoneBlocked(cells: seq<Cell>, values: Values)
    ensures Blocked(cells, values, [])
  {
  }

  /** Evaluated, and assigned. */
  ghost predicate Settled(c: Cell, values: Values)
  {
    c.Ignored() || (Eval(c, values).Some? && Assigned(c, Eval(c, values).value, values))
  }

  lemma SettledStays(c: Cell, values: Values, more: Values)
    requires Settled(c, values) && Extends(values, more)
    ensures Settled(c, more)
  {
    if !c.Ignored() {
      EvalMonotone(c, values, more);
    }
  }

  /** The net was not known before its only driver assigned it. */
  lemma AssignsFresh(cells: seq<Cell>, inputs: Values, values: Values, pending: seq<nat>, k: nat, i: int, n: int)
    requires Sweeping(cells, inputs, values, pending) && SingleDriver(cells, inputs)
    requires k in pending && k < |cells| && cells[k].Drives(i, n)
    ensures n !in values
  {
    forall d, j | 0 <= d < |cells| && cells[d].Drives(j, n)
      ensures d in pending
    {
      assert d == k;
    }
    assert !Driven(cells, pending, n);
  }

  /** `values` after the cell's result was stored. */
  ghost predicate Stored(c: Cell, result: seq<bool>, values: Values, more: Values)
    requires !c.Ignored()
  {
    && Extends(values, more) && Assigned(c, result, more)
    && (forall n :: n in more ==> n in values || exists i :: 0 <= i < |result| && c.Drives(i, n) && more[n] == result[i])
  }

  lemma SweepingStores(cells: seq<Cell>, inputs: Values, values: Values, before: seq<nat>, k: nat, after: seq<nat>, more: Values)
    requires Sweeping(cells, inputs, values, before + [k] + after) && k < |cells| && k !in before && k !in after
    requires !cells[k].Ignored() && Eval(cells[k], values).Some?
    requires Stored(cells[k], Eval(cells[k], values).value, values, more)
    ensures Sweeping(cells, inputs, more, before + after)
  {
    var c, result := cells[k], Eval(cells[k], values).value;
    var pending, rest := before + [k] + after, before + after;
    assert forall j :: j in pending <==> j in rest || j == k;
    EvalMonotone(c, values, more);
    StoredImplied(cells, inputs, values, k, more);
    forall j | 0 <= j < |cells|
      ensures j in rest || Settled(cells[j], more)
    {
      if j !in pending {
        SettledStays(cells[j], values, more);
      }
    }
    forall n | n in more
      ensures n in inputs || Driven(cells, rest, n)
    {
      if n !in values {
        var i :| 0 <= i < |result| && c.Drives(i, n) && more[n] == result[i];
      } else if n !in inputs {
        var d, i :| 0 <= d < |cells| && d !in pending && cells[d].Drives(i, n);
        assert d !in rest;
      }
    }
  }

  /** What was stored is implied by what was known. */
  lemma StoredImplied(cells: seq<Cell>, inputs: Values, values: Values, k: nat, more: Values)
    requires k < |cells|
    requires forall other :: IsSolution(cells, inputs, other) ==> Extends(values, other)
    requires !cells[k].Ignored() && Eval(cells[k], values).Some?
    requires Stored(cells[k], Eval(cells[k], values).value, values, more)
    ensures forall other :: IsSolution(cells, inputs, other) ==> Extends(more, other)
  {
    var c, result := cells[k], Eval(cells[k], values).value;
    forall other | IsSolution(cells, inputs, other)
      ensures Extends(more, other)
    {
      EvalMonotone(c, values, other);
      assert Satisfied(c, other);
      forall n | n in more
        ensures n in other && other[n] == more[n]
      {
        if n !in values {
          var i :| 0 <= i < |result| && c.Drives(i, n) && more[n] == result[i];
        }
      }
    }
  }

  lemma SweepingDrops(cells: seq<Cell>, inputs: Values, values: Values, before: seq<nat>, k: nat, after: seq<nat>)
    requires Sweeping(cells, inputs, values, before + [k] + after) && k < |cells| && cells[k].Ignored()
    ensures Sweeping(cells, inputs, values, before + after)
  {
    var pending, rest := before + [k] + after, before + after;
    assert forall j :: j in pending <==> j in rest || j == k;
    forall n | n in values
      ensures n in inputs || Driven(cells, rest, n)
    {
      if n !in inputs {
        var d, i :| 0 <= d < |cells| && d !in pending && cells[d].Drives(i, n);
        assert d !in rest;
      }
    }
  }

  /** With nothing left to evaluate the least solution is reached. */
  lemma SweptIsLeast(cells: seq<Cell>, inputs: Values, values: Values, pending: seq<nat>)
    requires Sweeping(cells, inputs, values, pending)
    requires forall k :: k in pending && k < |cells| ==> Eval(cells[k], values).None?
    ensures IsLeast(cells, inputs, values)
  {
    forall c | c in cells
      ensures Satisfied(c, values)
    {
      var k :| 0 <= k < |cells| && cells[k] == c;
    }
  }

  /** A sweep that moved nothing has reached the least solution. */
  lemma SweepingEnds(cells: seq<Cell>, inputs: Values, values: Values, pending: seq<nat>)
    requires Sweeping(cells, inputs, values, pending)
    requires Blocked(cells, values, pending)
    ensures IsLeast(cells, inputs, values)
  {
    SweptIsLeast(cells, inputs, values, pending);
  }

  /** And no cell faults under it, if none of those left does. */
  lemma SweptWithoutFault(cells: seq<Cell>, inputs: Values, values: Values, pending: seq<nat>)
    requires Sweeping(cells, inputs, values, pending)
    requires Blocked(cells, values, pending)
    ensures !SomeFaults(cells, values)
  {
    forall c | c in cells && !c.Ignored()
      ensures !c.Faults(values)
    {
      var k :| 0 <= k < |cells| && cells[k] == c;
      if k !in pending {
        EvaluatedNeverFaults(c, values);
      }
    }
  }

  predicate Distinct(pending: seq<nat>) {
    forall i, j :: 0 <= i < j < |pending| ==> pending[i] != pending[j]
  }

  /** What an evaluation comes to: the output bits, a `KeyError`, or an `IndexError`. */
  datatype Evaluation = Evaluated(bits: seq<bool>) | KeyFault | IndexFault

  /** The outcome under given values. */
  ghost function OutcomeOf(cells: seq<Cell>, outputs: seq<Wire>, values: Values): Evaluation {
    if SomeFaults(cells, values) then IndexFault
    else match Bits(outputs, values)
      case Some(bits) => Evaluated(bits)
      case None => KeyFault
  }

  /** `_evaluate`: the outputs under the least solution. An output it leaves open is a `KeyError`,
      and a cell that asks an empty port for a bit under it is an `IndexError`. */
  method Evaluate(cells: seq<Cell>, outputs: seq<Wire>, inputs: Values) returns (r: Evaluation)
    requires SingleDriver(cells, inputs)
    ensures exists least :: IsLeast(cells, inputs, least) && r == OutcomeOf(cells, outputs, least)
  {
    LeastExists(cells, inputs);
    hide Sweeping, SingleDriver, IsLeast, SomeFaults;
    var values := inputs;
    var pending: seq<nat> := AllPending(cells, inputs);
    var progress, faulted := true, false;
    while pending != [] && progress
      invariant Sweeping(cells, inputs, values, pending) && Distinct(pending)
      invariant !progress ==> Blocked(cells, values, pending)
      decreases |pending|, progress
    {
      values, pending, progress, faulted := Sweep(cells, inputs, values, pending);
      if faulted {
        ghost var least :| IsLeast(cells, inputs, least);
        FaultReachesLeast(cells, inputs, values, least);
        return IndexFault;
      }
    }
    SweepingEnds(cells, inputs, values, pending);
    SweptWithoutFault(cells, inputs, values, pending);
    r := match Bits(outputs, values) case Some(bits) => Evaluated(bits) case None => KeyFault;
  }

  /** A fault met on the way is there to stay. */
  lemma FaultReachesLeast(cells: seq<Cell>, inputs: Values, values: Values, least: Values)
    requires SomeFaults(cells, values) && IsLeast(cells, inputs, least)
    requires forall other :: IsSolution(cells, inputs, other) ==> Extends(values, other)
    ensures SomeFaults(cells, least)
  {
    var c :| c in cells && !c.Ignored() && c.Faults(values);
    FaultsMonotone(c, values, least);
  }

  // ----- with single drivers there is a least solution -----

  /** `known` with the first `length` assignments of the cell. */
  function StoreFirst(c: Cell, result: seq<bool>, known: Values, length: nat): Values
    requires !c.Ignored() && length <= |c.y.value| && length <= |result|
  {
    if length == 0 then known
    else
      var before := StoreFirst(c, result, known, length - 1);
      match c.y.value[length - 1]
      case Net(n) => before[n := result[length - 1]]
      case _ => before
  }

  /** The first assignments of a cell, none of whose nets was known. */
  lemma {:induction false} StoresFirst(c: Cell, result: seq<bool>, known: Values, length: nat)
    requires !c.Ignored() && !c.kind.Unknown? && length <= |c.y.value| && length <= |result|
    requires forall i, n :: c.Drives(i, n) ==> n !in known
    requires forall i, j, n :: c.Drives(i, n) && c.Drives(j, n) ==> i == j
    ensures var values := StoreFirst(c, result, known, length);
            && Extends(known, values)
            && (forall j, n :: 0 <= j < length && c.Drives(j, n) ==> n in values && values[n] == result[j])
            && (forall n :: n in values ==> n in known || exists j :: 0 <= j < length && c.Drives(j, n) && values[n] == result[j])
  {
    if length != 0 {
      StoresFirst(c, result, known, length - 1);
      var before, i := StoreFirst(c, result, known, length - 1), length - 1;
      match c.y.value[i]
      case Net(id) =>
        assert c.Drives(i, id);
        var values := before[id := result[i]];
        forall n | n in values
          ensures n in known || exists j :: 0 <= j < length && c.Drives(j, n) && values[n] == result[j]
        {
          if n != id && n !in known {
            var j :| 0 <= j < i && c.Drives(j, n) && before[n] == result[j];
            assert 0 <= j < length && c.Drives(j, n) && values[n] == result[j];
          }
        }
      case _ =>
    }
  }

  lemma {:induction false} LeastFrom(cells: seq<Cell>, inputs: Values, values: Values, pending: seq<nat>)
    requires Sweeping(cells, inputs, values, pending) && Distinct(pending) && SingleDriver(cells, inputs)
    ensures exists least :: IsLeast(cells, inputs, least)
    decreases |pending|
  {
    if p :| 0 <= p < |pending| && pending[p] < |cells| && (cells[pending[p]].Ignored() || Eval(cells[pending[p]], values).Some?) {
      var k, before, after := pending[p], pending[..p], pending[p + 1..];
      var c := cells[k];
      assert pending == before + [k] + after;
      DistinctMiddle(before, k, after);
      if c.Ignored() {
        SweepingDrops(cells, inputs, values, before, k, after);
        LeastFrom(cells, inputs, values, before + after);
      } else {
        var more := StoreResult(cells, inputs, values, pending, k);
        SweepingStores(cells, inputs, values, before, k, after, more);
        LeastFrom(cells, inputs, more, before + after);
      }
    } else {
      forall k | k in pending && k < |cells|
        ensures Eval(cells[k], values).None?
      {
        var p :| 0 <= p < |pending| && pending[p] == k;
      }
      SweptIsLeast(cells, inputs, values, pending);
    }
  }

  lemma StoreResult(cells: seq<Cell>, inputs: Values, values: Values, pending: seq<nat>, k: nat) returns (more: Values)
    requires Sweeping(cells, inputs, values, pending) && SingleDriver(cells, inputs)
    requires k in pending && k < |cells| && !cells[k].Ignored() && Eval(cells[k], values).Some?
    ensures Stored(cells[k], Eval(cells[k], values).value, values, more)
  {
    var c, result := cells[k], Eval(cells[k], values).value;
    DrivesFresh(cells, inputs, values, pending, k);
    var length := if |c.y.value| <= |result| then |c.y.value| else |result|;
    StoresFirst(c, result, values, length);
    more := StoreFirst(c, result, values, length);
  }

  /** The nets of a cell still on the worklist are new, and no two of its bits are the same. */
  lemma DrivesFresh(cells: seq<Cell>, inputs: Values, values: Values, pending: seq<nat>, k: nat)
    requires Sweeping(cells, inputs, values, pending) && SingleDriver(cells, inputs) && k in pending && k < |cells|
    ensures forall i, n :: cells[k].Drives(i, n) ==> n !in values
    ensures forall i, j, n :: cells[k].Drives(i, n) && cells[k].Drives(j, n) ==> i == j
  {
    forall i, n | cells[k].Drives(i, n)
      ensures n !in values
    {
      AssignsFresh(cells, inputs, values, pending, k, i, n);
    }
  }

  lemma LeastExists(cells: seq<Cell>, inputs: Values)
    requires SingleDriver(cells, inputs)
    ensures exists least :: IsLeast(cells, inputs, least)
  {
    var pending := seq(|cells|, i => i);
    EveryCellPending(cells, inputs, pending);
    LeastFrom(cells, inputs, inputs, pending);
  }

  lemma EveryCellPending(cells: seq<Cell>, inputs: Values, pending: seq<nat>)
    requires pending == seq(|cells|, i => i)
    ensures Sweeping(cells, inputs, inputs, pending) && Distinct(pending)
  {
    forall k | 0 <= k < |cells|
      ensures k in pending
    {
      assert pending[k] == k;
    }
  }

  // ----- the sweeps -----

  method AllPending(cells: seq<Cell>, inputs: Values) returns (pending: seq<nat>)
    ensures Sweeping(cells, inputs, inputs, pending) && Distinct(pending)
  {
    pending := seq(|cells|, i => i);
    EveryCellPending(cells, inputs, pending);
  }

  /** The worklist in mid-pass: what was put back, then what is still to be visited. */
  ghost function Todo(left: seq<nat>, pending: seq<nat>, p: nat): seq<nat>
    requires p <= |pending|
  {
    left + pending[p..]
  }

  lemma TodoEnds(left: seq<nat>, pending: seq<nat>)
    ensures Todo([], pending, 0) == pending && Todo(left, pending, |pending|) == left
  {
  }

  /** One pass over the worklist. A fault ends it on the spot. */
  method Sweep(cells: seq<Cell>, inputs: Values, known: Values, pending: seq<nat>)
    returns (values: Values, left: seq<nat>, progress: bool, faulted: bool)
    requires Sweeping(cells, inputs, known, pending) && Distinct(pending) && SingleDriver(cells, inputs)
    ensures !faulted ==> Sweeping(cells, inputs, values, left) && Distinct(left)
    ensures !faulted ==> |left| <= |pending| && (progress ==> |left| < |pending|)
    ensures !faulted && !progress ==> Blocked(cells, values, left)
    ensures faulted ==> SomeFaults(cells, values) && forall other :: IsSolution(cells, inputs, other) ==> Extends(values, other)
  {
    NoneBlocked(cells, known);
    hide Sweeping, SingleDriver, Distinct, Eval, Blocked, Todo, SomeFaults;
    values, left, progress, faulted := known, [], false, false;
    TodoEnds(left, pending);
    for p := 0 to |pending|
      invariant Sweeping(cells, inputs, values, Todo(left, pending, p)) && Distinct(Todo(left, pending, p))
      invariant |left| <= p && (progress ==> |left| < p)
      invariant !progress ==> Blocked(cells, values, left)
      invariant !faulted
    {
      var removed: bool;
      values, removed, faulted := VisitNext(cells, inputs, values, left, pending, p);
      if faulted {
        return;
      }
      if removed {
        progress := true;
      } else {
        left := left + [pending[p]];
      }
    }
    TodoEnds(left, pending);
  }

  /** The next cell of a pass. */
  method VisitNext(cells: seq<Cell>, inputs: Values, known: Values, ghost left: seq<nat>, pending: seq<nat>, p: nat)
    returns (values: Values, removed: bool, faulted: bool)
    requires p < |pending| && SingleDriver(cells, inputs)
    requires Sweeping(cells, inputs, known, Todo(left, pending, p)) && Distinct(Todo(left, pending, p))
    ensures removed ==>
      Sweeping(cells, inputs, values, Todo(left, pending, p + 1)) && Distinct(Todo(left, pending, p + 1))
    ensures faulted ==>
      !removed && SomeFaults(cells, values) && forall other :: IsSolution(cells, inputs, other) ==> Extends(values, other)
    ensures !removed && !faulted ==>
      && values == known && Todo(left + [pending[p]], pending, p + 1) == Todo(left, pending, p)
      && (Blocked(cells, known, left) ==> Blocked(cells, known, left + [pending[p]]))
  {
    var k := pending[p];
    TakeNext(left, pending, p);
    DistinctMiddle(left, k, pending[p + 1..]);
    assert k in Todo(left, pending, p);
    assert k < |cells|;
    SweepingImplied(cells, inputs, known, Todo(left, pending, p));
    hide Sweeping, SingleDriver, Distinct;
    values, removed, faulted := Visit(cells, inputs, known, left, k, pending[p + 1..]);
  }

  lemma SweepingImplied(cells: seq<Cell>, inputs: Values, values: Values, pending: seq<nat>)
    requires Sweeping(cells, inputs, values, pending)
    ensures forall other :: IsSolution(cells, inputs, other) ==> Extends(values, other)
  {
  }

  lemma TakeNext(left: seq<nat>, pending: seq<nat>, p: nat)
    requires p < |pending|
    ensures left + pending[p..] == left + [pending[p]] + pending[p + 1..]
  {
    assert pending[p..] == [pending[p]] + pending[p + 1..];
  }

  lemma DistinctMiddle(before: seq<nat>, k: nat, after: seq<nat>)
    requires Distinct(before + [k] + after)
    ensures k !in before && k !in after && Distinct(before + after)
  {
    var all, rest := before + [k] + after, before + after;
    assert all[|before|] == k;
    assert forall i :: 0 <= i < |before| ==> all[i] == before[i];
    assert forall i :: 0 <= i < |after| ==> all[|before| + 1 + i] == after[i];
    forall i, j | 0 <= i < j < |rest|
      ensures rest[i] != rest[j]
    {
      assert rest[i] == all[if i < |before| then i else i + 1];
      assert rest[j] == all[if j < |before| then j else j + 1];
    }
  }

  /** One cell of a pass: removed from the worklist if ignored or evaluated. */
  method Visit(cells: seq<Cell>, inputs: Values, known: Values, ghost before: seq<nat>, k: nat, ghost after: seq<nat>)
    returns (values: Values, removed: bool, faulted: bool)
    requires Sweeping(cells, inputs, known, before + [k] + after) && SingleDriver(cells, inputs)
    requires k < |cells| && k !in before && k !in after
    ensures removed ==> Sweeping(cells, inputs, values, before + after)
    ensures faulted ==> !removed && values == known && SomeFaults(cells, known)
    ensures !removed && !faulted ==> values == known && Eval(cells[k], values).None? && !cells[k].Faults(values)
  {
    var c := cells[k];
    assert k in before + [k] + after && c in cells;
    values, removed, faulted := known, false, false;
    if c.Ignored() {
      SweepingDrops(cells, inputs, known, before, k, after);
      return values, true, false;
    }
    if c.Faults(known) {
      return values, false, true;
    }
    var result := Eval(c, known);
    if result.None? {
      return values, false, false;
    }
    DrivesFresh(cells, inputs, known, before + [k] + after, k);
    hide Sweeping, SingleDriver;
    values := Store(c, result.value, known);
    SweepingStores(cells, inputs, known, before, k, after, values);
    return values, true, false;
  }

  method Store(c: Cell, result: seq<bool>, known: Values) returns (values: Values)
    requires !c.Ignored() && !c.kind.Unknown?
    requires forall i, n :: c.Drives(i, n) ==> n !in known
    requires forall i, j, n :: c.Drives(i, n) && c.Drives(j, n) ==> i == j
    ensures Stored(c, result, known, values)
  {
    values := known;
    var length := if |c.y.value| <= |result| then |c.y.value| else |result|;
    StoresFirst(c, result, known, length);
    for i := 0 to length
      invariant values == StoreFirst(c, result, known, i)
    {
      match c.y.value[i] {
        case Net(n) => values := values[n := result[i]];
        case _ =>
      }
    }
  }

  /** Two evaluations of the same graph in different cell orders agree, on values and on either
      failure. */
  method EvaluateEitherWay(cells: seq<Cell>, others: seq<Cell>, outputs: seq<Wire>, inputs: Values)
    returns (r: Evaluation, s: Evaluation)
    requires SingleDriver(cells, inputs) && SingleDriver(others, inputs)
    requires forall c :: c in cells <==> c in others
    ensures r == s
  {
    r := Evaluate(cells, outputs, inputs);
    s := Evaluate(others, outputs, inputs);
    ghost var v :| IsLeast(cells, inputs, v) && r == OutcomeOf(cells, outputs, v);
    ghost var w :| IsLeast(others, inputs, w) && s == OutcomeOf(others, outputs, w);
    OrderIrrelevant(cells, others, inputs, v, w);
    assert SomeFaults(cells, v) <==> SomeFaults(others, v);
  }

  /** With two drivers of one net there need not be a solution at all: here one says that the
      net is true and the other that it is false. */
  lemma TwoDriversDisagree(n: int)
    ensures var high := Cell(Not, Some([Zero]), None, None, Some([Net(n)]));
            var low := Cell(Not, Some([One]), None, None, Some([Net(n)]));
            forall values :: !IsSolution([high, low], map[], values)
  {
    var high := Cell(Not, Some([Zero]), None, None, Some([Net(n)]));
    var low := Cell(Not, Some([One]), None, None, Some([Net(n)]));
    var cells := [high, low];
    forall values | IsSolution(cells, map[], values)
      ensures false
    {
      assert cells[0] == high && cells[1] == low;
      assert Satisfied(high, values) && Satisfied(low, values);
      assert high.Drives(0, n) && low.Drives(0, n);
    }
  }
}
