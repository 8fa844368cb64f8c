/** No two indices of the window have the same pointer: the generator has no period below 2^16,
    because the order of its power 2^64 - 1 divides 2^64 + 1. */
module PointerOrder {
  import opened Outcomes
  import opened Bits
  import opened BinaryField
  import opened Ghash
  import opened Frobenius
  import opened Inverses
  import opened Pointers
  import opened FermatFactors

  const BELOW: nat := 0xFFFF_FFFF_FFFF_FFFF

  /** The power 2^64 - 1 of the generator, to the `j`. */
  function Turn(j: nat): F128 {
    GPower(BELOW * j)
  }

  lemma TurnAdds(i: nat, j: nat)
    ensures Turn(i + j) == FieldMul(Turn(i), Turn(j))
  {
    hide GPower, FieldMul;
    GPowerAdd(BELOW * i, BELOW * j);
    assert BELOW * (i + j) == BELOW * i + BELOW * j;
  }

  // ----- powers -----

  lemma TimesGenerator(v: F128)
    ensures FieldMul(v, 2) == FieldXtime(v)
  {
    OneIsTwo(v);
    MulPowerOfTwo(Ghash.Ghash(), v, 1);
  }

  lemma OneIsTwo(v: F128)
    ensures Pow2(1) == 2 && XtimePower(Ghash.Ghash(), v, 1) == FieldXtime(v)
  {
    assert XtimePower(Ghash.Ghash(), v, 0) == v;
  }

  lemma {:induction false} GPowerIsPower(n: nat)
    ensures GPower(n) == Power(2, n)
  {
    if n > 0 {
      GPowerIsPower(n - 1);
      TimesGenerator(GPower(n - 1));
      hide FieldMul;
    }
  }

  lemma Cancels(a: F128, b: F128, c: F128)
    requires c != 0 && FieldMul(a, c) == FieldMul(b, c)
    ensures a == b
  {
    hide FieldMul, Inverse;
    InverseHolds(c);
    FieldMulAssociates(a, c, Inverse(c));
    FieldMulAssociates(b, c, Inverse(c));
    FieldMulOne(a);
    FieldMulOne(b);
  }

  lemma GPowerNext(n: nat)
    ensures GPower(n + 1) == FieldMul(GPower(n), 2) && GPower(0) == 1 && GPower(1) == 2 == FieldMul(1, 2)
  {
    GPowerIsPower(n + 1);
    GPowerIsPower(n);
    GPowerIsPower(1);
    hide GPower, FieldMul;
    PowerOne(2);
    FieldMulOne(2);
    assert Power(2, n + 1) == FieldMul(Power(2, n), 2);
  }

  lemma ConjugateIsPower(k: nat)
    ensures Conjugate(k) == GPower(Pow2(k))
  {
    SquaredIsPower(2, k);
    GPowerIsPower(Pow2(k));
  }

  lemma TurnReturns()
    ensures Turn(NUMBER) == 1
  {
    hide GPower, FieldMul, Pow2, Squared;
    Pow2At128();
    GeneratorReturns();
    ConjugateIsPower(128);
    GPowerNext(BELOW * NUMBER);
    assert BELOW * NUMBER + 1 == TWO_TO_128;
    Cancels(GPower(BELOW * NUMBER), 1, 2);
  }

  lemma TurnMoves()
    ensures Turn(1) != 1
  {
    hide GPower, FieldMul, Pow2, Squared, Add, Regular;
    NumberIs();
    ConjugateIsPower(64);
    GPowerNext(BELOW);
    DifferenceRegular(64);
    if Turn(1) == 1 {
      AddLaws(2, 0, 0);
      FieldMulZero(1);
      RegularCancels(0, 1);
    }
  }

  lemma {:induction false} PeriodTurns(k: nat, n: nat)
    requires GPower(k) == 1
    ensures GPower(n * k) == 1
    decreases n
  {
    hide FieldMul, GPower;
    GPowerNext(0);
    if n > 0 {
      PeriodTurns(k, n - 1);
      assert n * k == (n - 1) * k + k;
      GPowerAdd((n - 1) * k, k);
      FieldMulOne(1);
    }
  }

  // ----- the least period -----

  ghost predicate IsLeastPeriod(g: nat) {
    g > 0 && Turn(g) == 1 && forall j :: 0 < j < g ==> Turn(j) != 1
  }

  lemma {:induction false} LeastPeriod(k: nat) returns (g: nat)
    requires k > 0 && Turn(k) == 1
    ensures IsLeastPeriod(g) && g <= k
  {
    hide Turn;
    if IsLeastPeriod(k) {
      g := k;
    } else {
      var j: nat :| 0 < j < k && Turn(j) == 1;
      g := LeastPeriod(j);
    }
  }

  lemma {:induction false} PeriodDivides(g: nat, n: nat)
    requires IsLeastPeriod(g) && Turn(n) == 1
    ensures Divides(g, n)
    decreases n
  {
    hide Turn, FieldMul;
    if n == 0 {
      DividesItself(g, 0);
    } else {
      TurnAdds(g, n - g);
      FieldMulOne(Turn(n - g));
      PeriodDivides(g, n - g);
      DividesItself(g, 1);
      DividesSum(g, g, n - g);
    }
  }

  /** The generator has no period below 2^16. */
  lemma NoShortPeriod(k: nat)
    requires 0 < k < INDEX_LIMIT
    ensures GPower(k) != 1
  {
    hide GPower;
    if GPower(k) == 1 {
      PeriodTurns(k, BELOW);
      var g := LeastPeriod(k);
      TurnReturns();
      PeriodDivides(g, NUMBER);
      TurnMoves();
      NoSmallDivisor(g);
    }
  }

  // ----- pointers -----

  /** Different indices of the window have different pointers. */
  lemma PointersDiffer(i: nat, j: nat)
    requires i < j < INDEX_LIMIT
    ensures GPower(i) != GPower(j)
  {
    hide GPower, FieldMul;
    NoShortPeriod(j - i);
    GPowerAdd(j - i, i);
    GPowerNonzero(i);
    if GPower(i) == GPower(j) {
      FieldMulOne(GPower(i));
      Cancels(GPower(j - i), 1, GPower(i));
    }
  }

  /** An index is what its pointer reverses to, and the only index the endpoint accepts for it. */
  lemma PointerRoundTrip(index: nat)
    requires index < INDEX_LIMIT
    ensures Reverse(GPower(index), INDEX_LIMIT) == Some(index)
    ensures forall base: nat :: Accepts(base, GPower(index)) <==> base == index
  {
    hide GPower;
    forall j: nat | j < INDEX_LIMIT && j != index
      ensures GPower(j) != GPower(index)
    {
      if j < index {
        PointersDiffer(j, index);
      } else {
        PointersDiffer(index, j);
      }
    }
    LeastIndexUnique(GPower(index), index, INDEX_LIMIT);
  }
}
