/** What the cells of a graph compute, read off the least solution net by net: every gate's output in
    terms of the nets it reads, when an evaluation fails, and single gates evaluated. */
module CellGraphs {
  import opened Outcomes
  import opened Worklist

  // ----- reading a connection -----

  /** The connection carries this bit. */
  predicate Carries(w: Wire, values: Values, bit: bool) {
    (w == Zero && !bit) || (w == One && bit) || (w.Net? && w.id in values && values[w.id] == bit)
  }

  predicate Known(w: Wire, values: Values) {
    Carries(w, values, false) || Carries(w, values, true)
  }

  /** The first bit of a port. */
  predicate First(port: Option<seq<Wire>>, values: Values, bit: bool) {
    port.Some? && port.value != [] && Carries(port.value[0], values, bit)
  }

  predicate FirstKnown(port: Option<seq<Wire>>, values: Values) {
    First(port, values, false) || First(port, values, true)
  }

  lemma BitCarries(w: Wire, values: Values)
    ensures forall bit :: Bit(w, values) == Some(bit) <==> Carries(w, values, bit)
    ensures Bit(w, values).Some? <==> Known(w, values)
  {
  }

  lemma {:induction false} BitsCarry(ws: seq<Wire>, values: Values)
    ensures Bits(ws, values).Some? <==> forall i :: 0 <= i < |ws| ==> Known(ws[i], values)
    ensures Bits(ws, values).Some? ==> forall i :: 0 <= i < |ws| ==> Carries(ws[i], values, Bits(ws, values).value[i])
  {
    if ws != [] {
      BitsCarry(ws[1..], values);
      assert forall i :: 0 < i < |ws| ==> ws[i] == ws[1..][i - 1];
      assert (forall i :: 0 <= i < |ws| ==> Known(ws[i], values)) ==> forall i :: 0 <= i < |ws| - 1 ==> Known(ws[1..][i], values);
    }
  }

  // ----- nothing is known without a reason -----

  /** The cell was evaluated and assigned the net. */
  ghost predicate Assigns(c: Cell, values: Values, n: int) {
    !c.Ignored() && Eval(c, values).Some? && exists i :: 0 <= i < |Eval(c, values).value| && c.Drives(i, n)
  }

  /** A net of the least solution is an input or was assigned by a cell. */
  lemma LeastIsFounded(cells: seq<Cell>, inputs: Values, v: Values, n: int)
    requires IsLeast(cells, inputs, v) && n in v && n !in inputs
    ensures exists c :: c in cells && Assigns(c, v, n)
  {
    if forall c :: c in cells ==> !Assigns(c, v, n) {
      var less := map m | m in v && m != n :: v[m];
      forall c | c in cells
        ensures Satisfied(c, less)
      {
        assert !Assigns(c, v, n);
        StillSatisfied(c, v, less, n);
      }
      assert IsSolution(cells, inputs, less);
      assert Extends(v, less);
    }
  }

  lemma StillSatisfied(c: Cell, v: Values, less: Values, n: int)
    requires Satisfied(c, v) && !Assigns(c, v, n) && less == map m | m in v && m != n :: v[m]
    ensures Satisfied(c, less)
  {
    if !c.Ignored() && Eval(c, less).Some? {
      EvalMonotone(c, less, v);
    }
  }

  predicate IsGate(c: Cell) {
    c.kind.Mux? || c.kind.Not? || c.kind.And? || c.kind.Or?
  }

  /** Position `i` of the gate's output is this net. */
  predicate Output(c: Cell, i: nat, n: int) {
    c.y.Some? && i < |c.y.value| && c.y.value[i] == Net(n)
  }

  /** With one driver a net of a gate is known exactly if the gate was evaluated this far. */
  lemma DrivenWhen(cells: seq<Cell>, inputs: Values, v: Values, c: Cell, i: nat, n: int)
    requires IsLeast(cells, inputs, v) && SingleDriver(cells, inputs) && c in cells && IsGate(c) && Output(c, i, n)
    ensures n !in inputs
    ensures n in v <==> Eval(c, v).Some? && i < |Eval(c, v).value|
    ensures n in v ==> v[n] == Eval(c, v).value[i]
  {
    var k :| 0 <= k < |cells| && cells[k] == c;
    assert c.Drives(i, n);
    if n in v {
      LeastIsFounded(cells, inputs, v, n);
      var d :| d in cells && Assigns(d, v, n);
      var m :| 0 <= m < |cells| && cells[m] == d;
    }
    assert Satisfied(c, v);
  }

  // ----- the gates, in a graph of any size -----

  lemma AndGate(cells: seq<Cell>, inputs: Values, v: Values, c: Cell, n: int)
    requires IsLeast(cells, inputs, v) && SingleDriver(cells, inputs) && c in cells && c.kind.And? && Output(c, 0, n)
    ensures n in v <==> FirstKnown(c.a, v) && FirstKnown(c.b, v)
    ensures n in v ==> (v[n] <==> First(c.a, v, true) && First(c.b, v, true))
  {
    DrivenWhen(cells, inputs, v, c, 0, n);
    hide IsLeast, SingleDriver;
  }

  lemma OrGate(cells: seq<Cell>, inputs: Values, v: Values, c: Cell, n: int)
    requires IsLeast(cells, inputs, v) && SingleDriver(cells, inputs) && c in cells && c.kind.Or? && Output(c, 0, n)
    ensures n in v <==> FirstKnown(c.a, v) && FirstKnown(c.b, v)
    ensures n in v ==> (v[n] <==> First(c.a, v, true) || First(c.b, v, true))
  {
    DrivenWhen(cells, inputs, v, c, 0, n);
    hide IsLeast, SingleDriver;
  }

  lemma NotGate(cells: seq<Cell>, inputs: Values, v: Values, c: Cell, n: int)
    requires IsLeast(cells, inputs, v) && SingleDriver(cells, inputs) && c in cells && c.kind.Not? && Output(c, 0, n)
    ensures n in v <==> FirstKnown(c.a, v)
    ensures n in v ==> (v[n] <==> First(c.a, v, false))
  {
    DrivenWhen(cells, inputs, v, c, 0, n);
    hide IsLeast, SingleDriver;
  }

  /** The other bits of a one-bit gate's output are never known. */
  lemma OneBitGates(cells: seq<Cell>, inputs: Values, v: Values, c: Cell, i: nat, n: int)
    requires IsLeast(cells, inputs, v) && SingleDriver(cells, inputs) && c in cells && IsGate(c) && !c.kind.Mux? && i > 0 && Output(c, i, n)
    ensures n !in v
  {
    DrivenWhen(cells, inputs, v, c, i, n);
    hide IsLeast, SingleDriver;
  }

  /** The bits of port `p` that pair up with the other data port are all known. */
  predicate SideKnown(p: seq<Wire>, other: seq<Wire>, values: Values) {
    forall j :: 0 <= j < |p| && j < |other| ==> Known(p[j], values)
  }

  /** A multiplexer puts B on Y if S is true and A if it is false, bit by bit, as soon as S and the side
      it selects are known; the other side may be unknown. */
  lemma MuxGate(cells: seq<Cell>, inputs: Values, v: Values, c: Cell, i: nat, n: int)
    requires IsLeast(cells, inputs, v) && SingleDriver(cells, inputs) && c in cells && c.kind.Mux? && Output(c, i, n)
    ensures n in v <==>
      && c.a.Some? && c.b.Some? && i < |c.a.value| && i < |c.b.value|
      && ((First(c.s, v, true) && SideKnown(c.b.value, c.a.value, v)) || (First(c.s, v, false) && SideKnown(c.a.value, c.b.value, v)))
    ensures n in v && First(c.s, v, true) ==> Carries(c.b.value[i], v, v[n])
    ensures n in v && First(c.s, v, false) ==> Carries(c.a.value[i], v, v[n])
  {
    DrivenWhen(cells, inputs, v, c, i, n);
    hide IsLeast, SingleDriver;
    if c.a.Some? && c.b.Some? {
      var m := Shorter(c.a.value, c.b.value);
      BitsCarry(c.b.value[..m], v);
      BitsCarry(c.a.value[..m], v);
      SideOf(c.b.value, c.a.value, v);
      SideOf(c.a.value, c.b.value, v);
    }
  }

  lemma SideOf(p: seq<Wire>, other: seq<Wire>, values: Values)
    ensures var m := if |p| <= |other| then |p| else |other|;
            SideKnown(p, other, values) <==> forall j :: 0 <= j < |p[..m]| ==> Known(p[..m][j], values)
  {
    var m := if |p| <= |other| then |p| else |other|;
    assert forall j :: 0 <= j < m ==> p[..m][j] == p[j];
    if forall j :: 0 <= j < |p[..m]| ==> Known(p[..m][j], values) {
      forall j | 0 <= j < |p| && j < |other| ensures Known(p[j], values) {
        assert Known(p[..m][j], values);
      }
    }
  }

  // ----- the evaluation of one cell, read by read -----

  /** What reading comes to: a bit, or one of the two exceptions. */
  datatype Attempt<T> = Got(value: T) | KeyError | IndexError {
    predicate IsFailure() {
      !Got?
    }

    function PropagateFailure<U>(): Attempt<U>
      requires IsFailure()
    {
      if KeyError? then KeyError else IndexError
    }

    function Extract(): T
      requires !IsFailure()
    {
      value
    }
  }

  function ReadWire(w: Wire, values: Values): Attempt<bool> {
    if Carries(w, values, true) then Got(true) else if Carries(w, values, false) then Got(false) else KeyError
  }

  /** The port under its name: a `KeyError` if the cell does not have it. */
  function Port(p: Option<seq<Wire>>): Attempt<seq<Wire>> {
    match p case Some(ws) => Got(ws) case None => KeyError
  }

  /** Its first bit: an `IndexError` if it is empty. */
  function ReadFirst(p: Option<seq<Wire>>, values: Values): Attempt<bool> {
    var ws :- Port(p);
    if ws == [] then IndexError else ReadWire(ws[0], values)
  }

  /** The two data ports in step; the select is read again for every pair. */
  function Select(a: seq<Wire>, b: seq<Wire>, s: Option<seq<Wire>>, values: Values): Attempt<seq<bool>> {
    if a == [] || b == [] then Got([]) else
    var choice :- ReadFirst(s, values);
    var bit :- ReadWire(if choice then b[0] else a[0], values);
    var rest :- Select(a[1..], b[1..], s, values);
    Got([bit] + rest)
  }

  /** The right-hand side with its exceptions, in reading order. */
  function Compute(c: Cell, values: Values): Attempt<seq<bool>> {
    match c.kind
    case Mux =>
      var a :- Port(c.a);
      var b :- Port(c.b);
      Select(a, b, c.s, values)
    case Not =>
      var x :- ReadFirst(c.a, values);
      Got([!x])
    case And =>
      var x :- ReadFirst(c.a, values);
      var y :- ReadFirst(c.b, values);
      Got([x && y])
    case Or =>
      var x :- ReadFirst(c.a, values);
      var y :- ReadFirst(c.b, values);
      Got([x || y])
    case _ => KeyError
  }

  lemma {:induction false} SelectDecides(a: seq<Wire>, b: seq<Wire>, s: seq<Wire>, values: Values)
    requires s != [] && Known(s[0], values)
    ensures var m := if |a| <= |b| then |a| else |b|;
            var chosen := Bits((if Carries(s[0], values, true) then b else a)[..m], values);
            Select(a, b, Some(s), values) == match chosen case Some(bits) => Got(bits) case None => KeyError
  {
    if a != [] && b != [] {
      SelectDecides(a[1..], b[1..], s, values);
      var m := if |a| <= |b| then |a| else |b|;
      var p := (if Carries(s[0], values, true) then b else a)[..m];
      assert p[1..] == (if Carries(s[0], values, true) then b[1..] else a[1..])[..m - 1];
    }
  }

  /** The equations say what reading port by port comes to, and `Faults` says when that is an
      `IndexError`. */
  lemma ComputeDecides(c: Cell, values: Values)
    ensures Compute(c, values) == match Eval(c, values)
                                  case Some(bits) => Got(bits)
                                  case None => if c.Faults(values) then IndexError else KeyError
  {
    if c.kind.Mux? && c.a.Some? && c.b.Some? && c.a.value != [] && c.b.value != [] && c.s.Some? && c.s.value != [] {
      if Known(c.s.value[0], values) {
        SelectDecides(c.a.value, c.b.value, c.s.value, values);
      }
    }
  }

  /** The outcome under the least solution, in terms of what can be read: an `IndexError` exactly if
      evaluating some cell that has an output is one, then the bit of every output. */
  lemma OutcomeReads(cells: seq<Cell>, outputs: seq<Wire>, v: Values)
    ensures OutcomeOf(cells, outputs, v).IndexFault? <==>
              exists c :: c in cells && !c.kind.AssertCell? && c.y.Some? && Compute(c, v) == IndexError
    ensures forall bits :: OutcomeOf(cells, outputs, v) == Evaluated(bits) ==>
              |bits| == |outputs| && forall i :: 0 <= i < |outputs| ==> Carries(outputs[i], v, bits[i])
    ensures OutcomeOf(cells, outputs, v).KeyFault? ==> exists w :: w in outputs && !Known(w, v)
  {
    forall c: Cell
      ensures Compute(c, v) == IndexError <==> c.Faults(v)
    {
      ComputeDecides(c, v);
      if Eval(c, v).Some? {
        EvaluatedNeverFaults(c, v);
      }
    }
    BitsCarry(outputs, v);
  }

  // ----- one gate -----

  /** The outcome of a graph in which `n`, the only output asked for, is known, and no cell fails. */
  lemma ReadsOut(cells: seq<Cell>, v: Values, n: int)
    requires n in v && forall c :: c in cells ==> Compute(c, v).Got?
    ensures OutcomeOf(cells, [Net(n)], v) == Evaluated([v[n]])
  {
    OutcomeReads(cells, [Net(n)], v);
    assert Known(Net(n), v);
    match OutcomeOf(cells, [Net(n)], v)
    case Evaluated(bits) => assert Carries([Net(n)][0], v, bits[0]);
    case _ =>
  }

  function Binary(kind: CellKind, a: int, b: int, n: int): Cell {
    Cell(kind, Some([Net(a)]), Some([Net(b)]), None, Some([Net(n)]))
  }

  lemma OneDriver(c: Cell, inputs: Values, n: int)
    requires c.y == Some([Net(n)]) && n !in inputs
    ensures SingleDriver([c], inputs)
  {
  }

  method EvaluateAnd(a: int, b: int, n: int, inputs: Values) returns (r: Evaluation)
    requires a in inputs && b in inputs && n !in inputs
    ensures r == Evaluated([inputs[a] && inputs[b]])
  {
    var c := Binary(And, a, b, n);
    OneDriver(c, inputs, n);
    r := Evaluate([c], [Net(n)], inputs);
    ghost var v :| IsLeast([c], inputs, v) && r == OutcomeOf([c], [Net(n)], v);
    AndGate([c], inputs, v, c, n);
    ReadsOut([c], v, n);
  }

  method EvaluateOr(a: int, b: int, n: int, inputs: Values) returns (r: Evaluation)
    requires a in inputs && b in inputs && n !in inputs
    ensures r == Evaluated([inputs[a] || inputs[b]])
  {
    var c := Binary(Or, a, b, n);
    OneDriver(c, inputs, n);
    r := Evaluate([c], [Net(n)], inputs);
    ghost var v :| IsLeast([c], inputs, v) && r == OutcomeOf([c], [Net(n)], v);
    OrGate([c], inputs, v, c, n);
    ReadsOut([c], v, n);
  }

  method EvaluateNot(a: int, n: int, inputs: Values) returns (r: Evaluation)
    requires a in inputs && n !in inputs
    ensures r == Evaluated([!inputs[a]])
  {
    var c := Cell(Not, Some([Net(a)]), None, None, Some([Net(n)]));
    OneDriver(c, inputs, n);
    r := Evaluate([c], [Net(n)], inputs);
    ghost var v :| IsLeast([c], inputs, v) && r == OutcomeOf([c], [Net(n)], v);
    NotGate([c], inputs, v, c, n);
    ReadsOut([c], v, n);
  }

  /** The side that is not selected need not be known. */
  method EvaluateMux(a: int, b: int, s: int, n: int, inputs: Values) returns (r: Evaluation)
    requires s in inputs && n !in inputs && (if inputs[s] then b in inputs else a in inputs)
    ensures r == Evaluated([inputs[if inputs[s] then b else a]])
  {
    var c := Cell(Mux, Some([Net(a)]), Some([Net(b)]), Some([Net(s)]), Some([Net(n)]));
    OneDriver(c, inputs, n);
    r := Evaluate([c], [Net(n)], inputs);
    ghost var v :| IsLeast([c], inputs, v) && r == OutcomeOf([c], [Net(n)], v);
    MuxGate([c], inputs, v, c, 0, n);
    assert [Net(a)][1..] == [] && Select([], [Net(b)][1..], c.s, v) == Got([]);
    ReadsOut([c], v, n);
  }
}
