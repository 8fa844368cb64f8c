/** What an accepted XOR or MUL leaves in memory: exactly when the relation between the three
    cells holds afterwards, and that the host's choice of witness never matters. */
module TransitionLaws {
  import opened Outcomes
  import Bits
  import opened Bytes
  import opened Ghash
  import opened Protocol
  import opened Requests
  import opened Transitions
  import opened HostMemory
  import opened Refinement
  import Host

  /** An absent cell reads as zero. */
  function ValueAt(cells: Cells, address: u32): F128 {
    CellOf(cells, address).value
  }

  /** The forward write lands in a cell that is also an operand, and changes that operand. */
  predicate OverwritesOperand(op: Transitions.Operation, cells: Cells, a: u32, b: u32, c: u32) {
    op.OpXor? && c !in cells && ((a == c && ValueAt(cells, b) != 0) || (b == c && ValueAt(cells, a) != 0))
  }

  lemma ReadIsValue(f: FrameView, cells: Cells, address: u32)
    requires Shows(f, cells) && address in f.cells
    ensures f.Read(address) == ValueAt(cells, address) && f.Present(address) == (address in cells)
  {
  }

  lemma AddLaws(x: F128)
    ensures Add(x, x) == 0 && Add(0, x) == x && Add(x, 0) == x
  {
    Bits.XorSelf(x);
    Bits.XorZero(x);
  }

  lemma ApplyAtZero(op: Transitions.Operation, x: F128)
    ensures op.Apply(0, x) == op.Apply(x, 0) == if op.OpXor? then x else 0
    ensures op.OpXor? ==> op.Apply(x, x) == 0
    ensures op.OpMul? ==> op.Apply(0, 0) == 0
  {
    AddLaws(x);
    FieldMulZero(x);
    FieldMulZero(0);
  }

  /** A forward write, whatever the aliasing. */
  lemma ForwardConstraint(op: Transitions.Operation, cells: Cells, a: u32, b: u32, c: u32)
    requires var value := op.Apply(ValueAt(cells, a), ValueAt(cells, b)); c in cells ==> cells[c] == value
    ensures var value := op.Apply(ValueAt(cells, a), ValueAt(cells, b));
            var after := cells[c := value];
            (op.Apply(ValueAt(after, a), ValueAt(after, b)) == ValueAt(after, c)) <==> !OverwritesOperand(op, cells, a, b, c)
  {
    hide FieldMul, Add;
    ApplyAtZero(op, ValueAt(cells, a));
    ApplyAtZero(op, ValueAt(cells, b));
    var value := op.Apply(ValueAt(cells, a), ValueAt(cells, b));
    if c in cells {
      assert cells[c := value] == cells;
    }
  }

  /** After an accepted XOR or MUL the destination holds the combination of the operands, read
      from the memory the decision leaves; except that an XOR into an absent cell that is also
      an operand overwrites that operand, exactly when the other operand is not zero. */
  lemma RelationHoldsAfter(op: Transitions.Operation, head: Preamble, offsets: seq<u32>, cells: Cells, inverse: Cell)
    requires |offsets| == 3 && Addresses(head.fp, offsets).Ok?
    ensures var addresses := Addresses(head.fp, offsets).value;
            var a, b, c := addresses[0], addresses[1], addresses[2];
            var r := DecideBinary(op, head, offsets, Host.CellsAt(cells, addresses), inverse);
            r.Ok? ==>
              var after := ApplyWrites(cells, r.value.writes);
              (op.Apply(ValueAt(after, a), ValueAt(after, b)) == ValueAt(after, c)) <==> !OverwritesOperand(op, cells, a, b, c)
  {
    var addresses := Addresses(head.fp, offsets).value;
    var a, b, c := addresses[0], addresses[1], addresses[2];
    SupplyThreeShows(cells, addresses);
    var f := SupplyThree(addresses, Host.CellsAt(cells, addresses)).value;
    hide SupplyThree, Host.CellsAt, FieldMul, Add, Shows, OverwritesOperand;
    if head.profile == INTERPRETER_COMPAT && Solves(cells, a, b, c) {
      BackSolvedConstraint(op, f, cells, a, b, c, inverse);
    } else if BackSolve(op, head.profile, f, a, b, c, inverse).Ok? {
      UnsolvedIsForward(op, head.profile, f, cells, a, b, c, inverse);
      ForwardWrites(op, f, cells, a, b, c);
      if f.WriteOnce(c, op.Apply(f.Read(a), f.Read(b))).Ok? {
        ForwardConstraint(op, cells, a, b, c);
      }
    }
  }

  lemma UnsolvedIsForward(op: Transitions.Operation, profile: Profile, f: FrameView, cells: Cells, a: u32, b: u32, c: u32, inverse: Cell)
    requires Shows(f, cells) && a in f.cells && b in f.cells && c in f.cells
    requires !(profile == INTERPRETER_COMPAT && Solves(cells, a, b, c))
    requires BackSolve(op, profile, f, a, b, c, inverse).Ok?
    ensures BackSolve(op, profile, f, a, b, c, inverse) == Ok(f)
  {
    hide FieldMul, Add;
  }

  lemma ForwardWrites(op: Transitions.Operation, f: FrameView, cells: Cells, a: u32, b: u32, c: u32)
    requires Shows(f, cells) && a in f.cells && b in f.cells && c in f.cells && f.writes == []
    ensures var value := op.Apply(ValueAt(cells, a), ValueAt(cells, b));
            && f.Read(a) == ValueAt(cells, a) && f.Read(b) == ValueAt(cells, b)
            && f.WriteOnce(c, value).Ok? == (c in cells ==> cells[c] == value)
            && (f.WriteOnce(c, value).Ok? ==> ApplyWrites(cells, f.WriteOnce(c, value).value.writes) == cells[c := value])
  {
    hide FieldMul, Add;
    ReadIsValue(f, cells, a);
    ReadIsValue(f, cells, b);
    var value := op.Apply(ValueAt(cells, a), ValueAt(cells, b));
    WriteShows(f, cells, c, value);
    ApplyOne(cells, c, value);
    assert [] + [Write(c, value)] == [Write(c, value)];
    assert c in cells && cells[c] == value ==> cells[c := value] == cells;
  }

  lemma BackSolvedConstraint(op: Transitions.Operation, f: FrameView, cells: Cells, a: u32, b: u32, c: u32, inverse: Cell)
    requires Shows(f, cells) && a in f.cells && b in f.cells && c in f.cells && f.writes == []
    requires Solves(cells, a, b, c)
    ensures !OverwritesOperand(op, cells, a, b, c)
    ensures var solved := BackSolve(op, INTERPRETER_COMPAT, f, a, b, c, inverse);
            solved.Ok? ==>
              var done := solved.value.WriteOnce(c, op.Apply(solved.value.Read(a), solved.value.Read(b)));
              && done.Ok?
              && var after := ApplyWrites(cells, done.value.writes);
                 op.Apply(ValueAt(after, a), ValueAt(after, b)) == ValueAt(after, c)
  {
    hide FieldMul, Add;
    if BackSolve(op, INTERPRETER_COMPAT, f, a, b, c, inverse).Ok? {
      BackSolveNeverConflicts(op, f, cells, a, b, c, inverse);
      var known, missing := if a in cells then a else b, if a in cells then b else a;
      SolvedForward(op, f.Read(c), f.Read(known), inverse);
      var x := Solve(op, f.Read(c), f.Read(known), inverse).value;
      ApplyOne(cells, missing, x);
      assert [] + [Write(missing, x)] == [Write(missing, x)];
    }
  }

  /** An XOR that is accepted although its relation does not hold afterwards: writing `a ^ b`
      over the absent operand `a`. */
  lemma AliasedXorBreaksRelation()
    ensures var head := Preamble(0, 0, 0, INTERPRETER_COMPAT);
            var cells: Cells := map[1 := 5];
            var r := DecideBinary(OpXor, head, [0, 1, 0], Host.CellsAt(cells, [0, 1, 0]), ABSENT);
            && r.Ok?
            && var after := ApplyWrites(cells, r.value.writes);
               after == map[1 := 5, 0 := 5] && Add(ValueAt(after, 0), ValueAt(after, 1)) != ValueAt(after, 0)
  {
    var head := Preamble(0, 0, 0, INTERPRETER_COMPAT);
    var cells: Cells := map[1 := 5];
    var addresses: seq<u32> := [0, 1, 0];
    assert Addresses(head.fp, [0, 1, 0]) == Ok(addresses);
    SupplyThreeShows(cells, addresses);
    var f := SupplyThree(addresses, Host.CellsAt(cells, addresses)).value;
    AddLaws(5);
    UnsolvedIsForward(OpXor, INTERPRETER_COMPAT, f, cells, 0, 1, 0, ABSENT);
    ForwardWrites(OpXor, f, cells, 0, 1, 0);
  }

  /** Whichever witnesses the endpoint accepts, the operand it solves is the same: the only
      one whose product with the known operand is the destination. */
  lemma WitnessIrrelevant(product: F128, known: F128, first: Cell, second: Cell)
    requires Solve(OpMul, product, known, first).Ok? && Solve(OpMul, product, known, second).Ok?
    ensures Solve(OpMul, product, known, first) == Solve(OpMul, product, known, second)
    ensures forall x: F128 :: FieldMul(known, x) == product <==> Solve(OpMul, product, known, first) == Ok(x)
  {
    WitnessSolves(known, first.value, product);
    WitnessSolves(known, second.value, product);
    hide FieldMul;
  }
}
