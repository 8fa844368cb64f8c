/** The host's write-once memory, and the deferred equalities it has to close. */
module HostMemory {
  import opened Bytes
  import opened Ghash
  import opened Protocol
  import opened Pointers

  type Cells = map<u32, F128>

  // ----- what the deferred equalities imply -----

  predicate Linked(pairs: seq<DeferredEquality>, x: u32, y: u32) {
    DeferredEquality(x, y) in pairs || DeferredEquality(y, x) in pairs
  }

  /** A chain of cells, each tied to the next by a deferred equality. */
  predicate IsChain(pairs: seq<DeferredEquality>, chain: seq<u32>) {
    |chain| > 0 && forall i :: 0 < i < |chain| ==> Linked(pairs, chain[i - 1], chain[i])
  }

  /** The chain starts at a cell holding `value` and ends at `x`. */
  predicate Carries(cells: Cells, pairs: seq<DeferredEquality>, chain: seq<u32>, x: u32, value: F128) {
    IsChain(pairs, chain) && chain[0] in cells && cells[chain[0]] == value && chain[|chain| - 1] == x
  }

  /** Some known cell connected to `x` holds `value`. */
  ghost predicate Implied(cells: Cells, pairs: seq<DeferredEquality>, x: u32, value: F128) {
    exists chain :: Carries(cells, pairs, chain, x, value)
  }

  /** No cell is connected to two known cells that hold different values. */
  ghost predicate Consistent(cells: Cells, pairs: seq<DeferredEquality>) {
    forall x: u32, v: F128, w: F128 :: Implied(cells, pairs, x, v) && Implied(cells, pairs, x, w) ==> v == w
  }

  /** `closed` holds exactly the implied values. */
  ghost predicate IsClosure(cells: Cells, pairs: seq<DeferredEquality>, closed: Cells) {
    && (forall x :: x in closed ==> Implied(cells, pairs, x, closed[x]))
    && (forall x: u32, v: F128 :: Implied(cells, pairs, x, v) ==> x in closed && closed[x] == v)
  }

  predicate IsOpen(cells: Cells, pair: DeferredEquality) {
    pair.target !in cells && pair.local !in cells
  }

  predicate IsClosed(cells: Cells, pair: DeferredEquality) {
    pair.target in cells && pair.local in cells && cells[pair.target] == cells[pair.local]
  }

  /** The pairs with both cells absent, in list order. */
  function OpenPairs(pairs: seq<DeferredEquality>, cells: Cells): seq<DeferredEquality> {
    if pairs == [] then []
    else (if IsOpen(cells, pairs[0]) then [pairs[0]] else []) + OpenPairs(pairs[1..], cells)
  }

  lemma ClosureUnique(cells: Cells, pairs: seq<DeferredEquality>, m: Cells, n: Cells)
    requires IsClosure(cells, pairs, m) && IsClosure(cells, pairs, n)
    ensures m == n
  {
    assert forall x :: x in m ==> x in n && n[x] == m[x];
    assert forall x :: x in n ==> x in m;
  }

  /** Only which equalities are deferred matters to what is implied, not their order or number. */
  lemma ImpliedBySet(cells: Cells, p: seq<DeferredEquality>, q: seq<DeferredEquality>, x: u32, value: F128)
    requires forall d :: d in p ==> d in q
    requires Implied(cells, p, x, value)
    ensures Implied(cells, q, x, value)
  {
    var chain :| Carries(cells, p, chain, x, value);
    assert forall i :: 0 < i < |chain| ==> Linked(p, chain[i - 1], chain[i]);
    assert Carries(cells, q, chain, x, value);
  }

  /** So two lists of the same equalities are consistent together, and close memory alike. */
  lemma OrderIrrelevant(cells: Cells, p: seq<DeferredEquality>, q: seq<DeferredEquality>, m: Cells, n: Cells)
    requires forall d :: d in p <==> d in q
    ensures Consistent(cells, p) <==> Consistent(cells, q)
    ensures IsClosure(cells, p, m) && IsClosure(cells, q, n) ==> m == n
  {
    forall x: u32, v: F128 ensures Implied(cells, p, x, v) <==> Implied(cells, q, x, v) {
      if Implied(cells, p, x, v) {
        ImpliedBySet(cells, p, q, x, v);
      }
      if Implied(cells, q, x, v) {
        ImpliedBySet(cells, q, p, x, v);
      }
    }
    hide Implied;
    if IsClosure(cells, p, m) && IsClosure(cells, q, n) {
      assert IsClosure(cells, p, n);
      ClosureUnique(cells, p, m, n);
    }
  }

  lemma ImpliedHere(cells: Cells, pairs: seq<DeferredEquality>, x: u32)
    requires x in cells
    ensures Implied(cells, pairs, x, cells[x])
  {
    assert Carries(cells, pairs, [x], x, cells[x]);
  }

  lemma ImpliedAcross(cells: Cells, pairs: seq<DeferredEquality>, x: u32, y: u32, value: F128)
    requires Implied(cells, pairs, x, value) && Linked(pairs, x, y)
    ensures Implied(cells, pairs, y, value)
  {
    var chain :| Carries(cells, pairs, chain, x, value);
    assert Carries(cells, pairs, chain + [y], y, value);
  }

  /** Once every pair is open or closed, values have spread along every chain. */
  lemma {:induction false} ChainSpreads(closed: Cells, pairs: seq<DeferredEquality>, chain: seq<u32>, value: F128)
    requires forall p :: p in pairs ==> IsOpen(closed, p) || IsClosed(closed, p)
    requires IsChain(pairs, chain) && chain[0] in closed && closed[chain[0]] == value
    ensures var x := chain[|chain| - 1]; x in closed && closed[x] == value
    decreases |chain|
  {
    if |chain| > 1 {
      var init := chain[..|chain| - 1];
      ChainSpreads(closed, pairs, init, value);
      var x, y := init[|init| - 1], chain[|chain| - 1];
      assert Linked(pairs, x, y);
      assert DeferredEquality(x, y) in pairs || DeferredEquality(y, x) in pairs;
    }
  }

  /** A fixpoint that only ever added implied values is the closure. */
  lemma FixpointIsClosure(cells: Cells, pairs: seq<DeferredEquality>, closed: Cells)
    requires forall x :: x in cells ==> x in closed && closed[x] == cells[x]
    requires forall x :: x in closed ==> Implied(cells, pairs, x, closed[x])
    requires forall p :: p in pairs ==> IsOpen(closed, p) || IsClosed(closed, p)
    ensures Consistent(cells, pairs) && IsClosure(cells, pairs, closed)
  {
    forall x: u32, v: F128 | Implied(cells, pairs, x, v)
      ensures x in closed && closed[x] == v
    {
      var chain :| Carries(cells, pairs, chain, x, v);
      ChainSpreads(closed, pairs, chain, v);
    }
  }

  // ----- open pairs under growing memories -----

  lemma {:induction false} OpenPairsAppend(a: seq<DeferredEquality>, b: seq<DeferredEquality>, cells: Cells)
    ensures OpenPairs(a + b, cells) == OpenPairs(a, cells) + OpenPairs(b, cells)
    decreases |a|
  {
    if a == [] {
      assert a + b == b;
    } else {
      assert (a + b)[0] == a[0] && (a + b)[1..] == a[1..] + b;
      OpenPairsAppend(a[1..], b, cells);
    }
  }

  /** Filtering by a larger memory can be done after filtering by a smaller one. */
  lemma {:induction false} OpenPairsTwice(a: seq<DeferredEquality>, cells: Cells, more: Cells)
    requires cells.Keys <= more.Keys
    ensures OpenPairs(OpenPairs(a, cells), more) == OpenPairs(a, more)
    decreases |a|
  {
    if a != [] {
      var head := if IsOpen(cells, a[0]) then [a[0]] else [];
      OpenPairsAppend(head, OpenPairs(a[1..], cells), more);
      OpenPairsTwice(a[1..], cells, more);
      assert head != [] ==> OpenPairs(head, more) == if IsOpen(more, a[0]) then [a[0]] else [];
    }
  }

  lemma {:induction false} OpenPairsAll(a: seq<DeferredEquality>, cells: Cells)
    requires forall p :: p in a ==> IsOpen(cells, p)
    ensures OpenPairs(a, cells) == a
    decreases |a|
  {
    if a != [] {
      OpenPairsAll(a[1..], cells);
    }
  }

  lemma {:induction false} OpenPairsAreOpen(a: seq<DeferredEquality>, cells: Cells)
    ensures forall p :: p in OpenPairs(a, cells) <==> p in a && IsOpen(cells, p)
    decreases |a|
  {
    if a != [] {
      OpenPairsAreOpen(a[1..], cells);
    }
  }

  /** Nothing but implied values was added. */
  ghost predicate Filling(cells0: Cells, pairs: seq<DeferredEquality>, cells: Cells) {
    && (forall x :: x in cells0 ==> x in cells && cells[x] == cells0[x])
    && (forall x :: x in cells ==> Implied(cells0, pairs, x, cells[x]))
  }

  /** What a resolution pass keeps: nothing but implied values was added, every pair
      still to be looked at or already closed, and the open ones in list order. */
  ghost predicate Resolving(cells0: Cells, pairs: seq<DeferredEquality>, cells: Cells, todo: seq<DeferredEquality>) {
    && Filling(cells0, pairs, cells)
    && (forall p :: p in todo ==> p in pairs)
    && (forall p :: p in pairs ==> p in todo || IsClosed(cells, p))
    && OpenPairs(todo, cells) == OpenPairs(pairs, cells)
  }

  lemma ResolvingStarts(cells: Cells, pairs: seq<DeferredEquality>)
    ensures Resolving(cells, pairs, cells, pairs)
  {
    forall x | x in cells ensures Implied(cells, pairs, x, cells[x]) {
      ImpliedHere(cells, pairs, x);
    }
  }

  /** Dropping a closed pair. */
  lemma ResolvingDrops(cells0: Cells, pairs: seq<DeferredEquality>, cells: Cells,
                       before: seq<DeferredEquality>, p: DeferredEquality, after: seq<DeferredEquality>)
    requires Resolving(cells0, pairs, cells, before + [p] + after) && IsClosed(cells, p)
    ensures Resolving(cells0, pairs, cells, before + after)
  {
    OpenPairsAppend(before + [p], after, cells);
    OpenPairsAppend(before, [p], cells);
    OpenPairsAppend(before, after, cells);
    assert OpenPairs([p], cells) == [];
    assert forall q :: q in before + [p] + after <==> q in before + after || q == p;
  }

  /** Writing the known side of a half-known pair to the other side. */
  lemma ResolvingWrites(cells0: Cells, pairs: seq<DeferredEquality>, cells: Cells, todo: seq<DeferredEquality>, x: u32, y: u32)
    requires Resolving(cells0, pairs, cells, todo)
    requires Linked(pairs, x, y) && x in cells && y !in cells
    ensures Resolving(cells0, pairs, cells[y := cells[x]], todo)
  {
    var value := cells[x];
    var more := cells[y := value];
    ImpliedAcross(cells0, pairs, x, y, value);
    ImpliedGrows(cells0, pairs, cells, more, y, value);
    ClosedGrows(pairs, cells, more, todo);
    OpenPairsMonotone(todo, pairs, cells, more);
  }

  lemma ImpliedGrows(cells0: Cells, pairs: seq<DeferredEquality>, cells: Cells, more: Cells, y: u32, value: F128)
    requires forall z :: z in cells ==> Implied(cells0, pairs, z, cells[z])
    requires Implied(cells0, pairs, y, value) && more == cells[y := value]
    ensures forall z :: z in more ==> Implied(cells0, pairs, z, more[z])
  {
  }

  lemma ClosedGrows(pairs: seq<DeferredEquality>, cells: Cells, more: Cells, todo: seq<DeferredEquality>)
    requires forall p :: p in pairs ==> p in todo || IsClosed(cells, p)
    requires forall z :: z in cells ==> z in more && more[z] == cells[z]
    ensures forall p :: p in pairs ==> p in todo || IsClosed(more, p)
  {
  }

  lemma OpenPairsMonotone(a: seq<DeferredEquality>, b: seq<DeferredEquality>, cells: Cells, more: Cells)
    requires cells.Keys <= more.Keys && OpenPairs(a, cells) == OpenPairs(b, cells)
    ensures OpenPairs(a, more) == OpenPairs(b, more)
  {
    OpenPairsTwice(a, cells, more);
    OpenPairsTwice(b, cells, more);
  }

  /** Two different known sides refute consistency. */
  lemma ResolvingRefutes(cells0: Cells, pairs: seq<DeferredEquality>, cells: Cells, todo: seq<DeferredEquality>, p: DeferredEquality)
    requires Resolving(cells0, pairs, cells, todo) && p in todo
    requires p.target in cells && p.local in cells && cells[p.target] != cells[p.local]
    ensures !Consistent(cells0, pairs)
  {
    assert Implied(cells0, pairs, p.target, cells[p.target]);
    assert p == DeferredEquality(p.target, p.local);
    ImpliedAcross(cells0, pairs, p.target, p.local, cells[p.target]);
  }

  /** A pass that resolved nothing has reached the closure. */
  lemma ResolvingEnds(cells0: Cells, pairs: seq<DeferredEquality>, cells: Cells, todo: seq<DeferredEquality>)
    requires Resolving(cells0, pairs, cells, todo)
    requires forall p :: p in todo ==> IsOpen(cells, p)
    ensures Consistent(cells0, pairs) && IsClosure(cells0, pairs, cells)
    ensures todo == OpenPairs(pairs, cells)
  {
    OpenPairsAll(todo, cells);
    FixpointIsClosure(cells0, pairs, cells);
  }

  // ----- write batches -----

  function ApplyWrites(cells: Cells, writes: seq<Write>): Cells
    decreases |writes|
  {
    if writes == [] then cells else ApplyWrites(cells[writes[0].address := writes[0].value], writes[1..])
  }

  function CountAccesses(counts: map<u32, nat>, accesses: seq<u32>): map<u32, nat>
    decreases |accesses|
  {
    if accesses == [] then counts
    else
      var a := accesses[0];
      CountAccesses(counts[a := (if a in counts then counts[a] else 0) + 1], accesses[1..])
  }

  /** How often an address has been accessed. */
  function CountOf(counts: map<u32, nat>, x: u32): nat {
    if x in counts then counts[x] else 0
  }

  /** Every access counts once, and only accessed addresses gain an entry. */
  lemma {:induction false} CountsAdd(counts: map<u32, nat>, accesses: seq<u32>, x: u32)
    ensures CountOf(CountAccesses(counts, accesses), x) == CountOf(counts, x) + multiset(accesses)[x]
    ensures x in CountAccesses(counts, accesses) <==> x in counts || x in accesses
    decreases |accesses|
  {
    if accesses != [] {
      var a := accesses[0];
      assert accesses == [a] + accesses[1..];
      CountsAdd(counts[a := CountOf(counts, a) + 1], accesses[1..], x);
    }
  }

  /** The cell a request carries for an address. */
  function CellOf(cells: Cells, address: u32): (c: Cell)
    ensures c.Canonical()
  {
    if address in cells then Cell(true, cells[address]) else ABSENT
  }

  /** What a sweep found about one pair. */
  datatype Visited = StillOpen | Resolved | AlreadyClosed | Conflicting

  class Memory {
    var cells: Cells
    var accessCounts: map<u32, nat>
    var deferred: seq<DeferredEquality>
    const pointers: PointerMap

    /** `HostMemory(cells=..., deferred=...)`, also used for the prevalidation copy. */
    constructor (cells: Cells, deferred: seq<DeferredEquality>)
      ensures this.cells == cells && this.deferred == deferred && accessCounts == map[]
      ensures fresh(pointers) && pointers.Valid()
    {
      this.cells := cells;
      this.deferred := deferred;
      accessCounts := map[];
      pointers := new PointerMap();
    }

    /** `prevalidate_write`: whether the write-once rule admits the write. */
    predicate Admits(address: u32, value: F128)
      reads this`cells
    {
      address in cells ==> cells[address] == value
    }

    /** `apply_write`. */
    method ApplyWrite(address: u32, value: F128) returns (ok: bool)
      modifies this`cells
      ensures ok <==> old(Admits(address, value))
      ensures cells == if ok then old(cells)[address := value] else old(cells)
    {
      if !Admits(address, value) {
        return false;
      }
      cells := cells[address := value];
      return true;
    }

    method CountAccess(address: u32)
      modifies this`accessCounts
      ensures accessCounts == CountAccesses(old(accessCounts), [address])
    {
      accessCounts := accessCounts[address := (if address in accessCounts then accessCounts[address] else 0) + 1];
    }

    method RecordDeferred(target: u32, local: u32)
      modifies this`deferred
      ensures deferred == old(deferred) + [DeferredEquality(target, local)]
    {
      deferred := deferred + [DeferredEquality(target, local)];
    }

    /** `resolve_deferred`; `ok` is false when the source raises `WriteOnceViolation`. */
    method ResolveDeferred() returns (ok: bool)
      modifies this`cells, this`deferred
      ensures ok <==> Consistent(old(cells), old(deferred))
      ensures ok ==> IsClosure(old(cells), old(deferred), cells) && deferred == OpenPairs(old(deferred), cells)
      ensures !ok ==> deferred == old(deferred) && Filling(old(cells), old(deferred), cells)
    {
      ghost var cells0, pairs := cells, deferred;
      var pending := deferred;
      ResolvingStarts(cells, deferred);
      while true
        invariant deferred == pairs
        invariant Resolving(cells0, pairs, cells, pending)
        decreases |pending|
      {
        var stillOpen, resolved, consistent := Pass(pending, cells0);
        if !consistent {
          return false;
        }
        if resolved == 0 {
          ResolvingEnds(cells0, pairs, cells, stillOpen);
          deferred := stillOpen;
          return true;
        }
        pending := stillOpen;
      }
      assert false;
    }

    /** One sweep over the pending pairs. */
    method Pass(pending: seq<DeferredEquality>, ghost cells0: Cells)
      returns (stillOpen: seq<DeferredEquality>, resolved: nat, consistent: bool)
      requires Resolving(cells0, deferred, cells, pending)
      modifies this`cells
      ensures !consistent ==> !Consistent(cells0, deferred) && Filling(cells0, deferred, cells)
      ensures consistent ==>
        && Resolving(cells0, deferred, cells, stillOpen)
        && |stillOpen| + resolved <= |pending|
        && (resolved == 0 ==> forall p :: p in stillOpen ==> IsOpen(cells, p))
    {
      hide Resolving, Consistent;
      stillOpen, resolved, consistent := [], 0, true;
      assert [] + pending[0..] == pending;
      for i := 0 to |pending|
        invariant Resolving(cells0, deferred, cells, stillOpen + pending[i..])
        invariant |stillOpen| + resolved <= i
        invariant resolved == 0 ==> forall p :: p in stillOpen ==> IsOpen(cells, p)
      {
        assert stillOpen + pending[i..] == stillOpen + [pending[i]] + pending[i + 1..];
        var visited := Visit(pending[i], cells0, stillOpen, pending[i + 1..]);
        match visited {
          case StillOpen => stillOpen := stillOpen + [pending[i]];
          case Resolved => resolved := resolved + 1;
          case AlreadyClosed =>
          case Conflicting => return stillOpen, resolved, false;
        }
      }
      assert stillOpen + pending[|pending|..] == stillOpen;
    }

    /** One pair of a sweep. */
    method Visit(p: DeferredEquality, ghost cells0: Cells, ghost before: seq<DeferredEquality>, ghost after: seq<DeferredEquality>)
      returns (v: Visited)
      requires Resolving(cells0, deferred, cells, before + [p] + after)
      modifies this`cells
      ensures v.StillOpen? ==> cells == old(cells) && IsOpen(cells, p)
      ensures v.AlreadyClosed? ==> cells == old(cells)
      ensures v.Resolved? || v.AlreadyClosed? ==> Resolving(cells0, deferred, cells, before + after)
      ensures v.Conflicting? ==> !Consistent(cells0, deferred) && Filling(cells0, deferred, cells)
    {
      assert p in before + [p] + after;
      assert p == DeferredEquality(p.target, p.local);
      if p.target !in cells && p.local !in cells {
        return StillOpen;
      }
      if p.target !in cells {
        ResolvingWrites(cells0, deferred, cells, before + [p] + after, p.local, p.target);
        var _ := ApplyWrite(p.target, cells[p.local]);
        ResolvingDrops(cells0, deferred, cells, before, p, after);
        return Resolved;
      }
      if p.local !in cells {
        ResolvingWrites(cells0, deferred, cells, before + [p] + after, p.target, p.local);
        var _ := ApplyWrite(p.local, cells[p.target]);
        ResolvingDrops(cells0, deferred, cells, before, p, after);
        return Resolved;
      }
      if cells[p.target] != cells[p.local] {
        ResolvingRefutes(cells0, deferred, cells, before + [p] + after, p);
        return Conflicting;
      }
      ResolvingDrops(cells0, deferred, cells, before, p, after);
      return AlreadyClosed;
    }
  }

  /** Two memories that hold the same cells and the same deferred equalities in different orders
      resolve or refuse together, to the same cells, and leave the same equalities open. */
  method ResolveEitherWay(one: Memory, other: Memory) returns (ok: bool)
    requires one != other && one.cells == other.cells
    requires forall d :: d in one.deferred <==> d in other.deferred
    modifies one`cells, one`deferred, other`cells, other`deferred
    ensures ok <==> Consistent(old(one.cells), old(one.deferred))
    ensures ok ==> one.cells == other.cells && forall d :: d in one.deferred <==> d in other.deferred
    ensures !ok ==> one.deferred == old(one.deferred) && other.deferred == old(other.deferred)
  {
    hide Consistent, IsClosure;
    ghost var cells, p, q := one.cells, one.deferred, other.deferred;
    ok := one.ResolveDeferred();
    var also := other.ResolveDeferred();
    OrderIrrelevant(cells, p, q, one.cells, other.cells);
    OpenPairsAreOpen(p, one.cells);
    OpenPairsAreOpen(q, other.cells);
    assert ok == also;
  }
}
