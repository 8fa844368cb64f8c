/** The field of the endpoint is a field: every element but zero has the inverse that the host and
    the oracle compute, the power 2^128 - 2.

    Squaring 128 times fixes the generator, hence every element; an element that one squaring fixes
    is a polynomial that takes the same value at the 128 conjugates of the generator; these differ
    by elements with which no product vanishes, so the polynomial is constant. */
module Inverses {
  import opened Bits
  import opened Ghash
  import opened Frobenius
  import opened FieldChain
  import FermatFactors

  /** A squaring and the element itself, added up `2^j` times, are one repeated squaring. */
  lemma {:induction false} StepsOfPower(a: F128, j: nat)
    ensures Steps(a, Pow2(j)) == Add(Squared(a, Pow2(j)), a)
    decreases j
  {
    hide FieldMul, Add;
    if j == 0 {
      OneStepIs(a);
    } else {
      var n := Pow2(j - 1);
      StepsOfPower(a, j - 1);
      StepsOfPower(Add(Squared(a, n), a), j - 1);
      StepsAdd(a, n, n);
      SquaredAdds(Squared(a, n), a, n);
      SquaredAgain(a, n, n);
      var s, t := Squared(a, n + n), Squared(a, n);
      AddLaws(Add(s, t), t, a);
      AddLaws(s, t, t);
      AddLaws(t, 0, 0);
      AddLaws(s, 0, 0);
    }
  }

  lemma OneStepIs(a: F128)
    ensures Steps(a, 1) == Add(FieldMul(a, a), a) && Squared(a, 1) == FieldMul(a, a)
  {
    hide FieldMul, Add;
    assert Steps(Add(FieldMul(a, a), a), 0) == Add(FieldMul(a, a), a);
    assert Squared(FieldMul(a, a), 0) == FieldMul(a, a);
  }

  lemma SmallPowers()
    ensures Pow2(6) == 64 && Pow2(7) == 128
  {
  }

  /** 128 squarings give the generator back. */
  lemma GeneratorReturns()
    ensures Squared(2, 128) == 2
  {
    hide FieldMul, Add, Squared, Steps;
    SmallPowers();
    GeneratorReachesOne();
    StepsAdd(2, 126, 2);
    OneVanishes();
    StepsOfPower(2, 7);
    AddCancels(Squared(2, 128), 2);
    AddLaws(2, 0, 0);
  }

  lemma OneVanishes()
    ensures Steps(1, 2) == 0
  {
    hide FieldMul, Add;
    FieldMulOne(1);
    FieldMulZero(0);
    AddLaws(1, 0, 0);
    AddLaws(0, 0, 0);
    assert Steps(0, 1) == Steps(0, 0);
  }

  /** Some element and its 64-fold square differ by one. */
  lemma OneIsDifference() returns (a: F128)
    ensures Add(Squared(a, 64), a) == 1
  {
    hide FieldMul, Add, Squared, Steps;
    SmallPowers();
    GeneratorReachesOne();
    a := Steps(2, 62);
    StepsAdd(2, 62, 64);
    StepsOfPower(a, 6);
  }

  // ----- the conjugates of the generator -----

  function Conjugate(k: nat): F128 {
    Squared(2, k)
  }

  lemma {:induction false} ConjugateReturns(k: nat, turns: nat)
    ensures Conjugate(k + 128 * turns) == Conjugate(k)
  {
    hide FieldMul, Squared;
    if turns != 0 {
      ConjugateReturns(k, turns - 1);
      GeneratorReturns();
      SquaredAgain(2, 128, k + 128 * (turns - 1));
    }
  }

  lemma {:induction false} SquaredVanishes(d: F128, y: F128, k: nat)
    requires FieldMul(d, y) == 0
    ensures FieldMul(Squared(d, k), y) == 0
    decreases k
  {
    hide FieldMul;
    if k != 0 {
      FieldMulAssociates(d, d, y);
      FieldMulZero(d);
      SquaredVanishes(FieldMul(d, d), y, k - 1);
    }
  }

  /** If the difference at distance `j` vanishes on `y`, so does the one at every multiple. */
  lemma {:induction false} MultiplesVanish(j: nat, m: nat, multiple: nat, y: F128)
    requires FieldMul(Add(Conjugate(j), 2), y) == 0 && multiple == j * m
    ensures FieldMul(Add(Conjugate(multiple), 2), y) == 0
    decreases m
  {
    hide FieldMul, Add, Squared;
    if m == 0 {
      NoDistance(y);
    } else {
      OneLess(j, m);
      var k: nat := multiple - j;
      MultiplesVanish(j, m - 1, k, y);
      SquaredVanishes(Add(Conjugate(j), 2), y, k);
      SquaredAdds(Conjugate(j), 2, k);
      SquaredAgain(2, j, k);
      var far, near := Conjugate(multiple), Conjugate(k);
      AddTelescopes(far, near, 2);
      Distributes(y, Add(far, near), Add(near, 2));
      AddLaws(0, 0, 0);
    }
  }

  lemma OneLess(j: nat, m: nat)
    requires m > 0
    ensures j * m >= j && j * (m - 1) == j * m - j
  {
  }

  lemma NoDistance(y: F128)
    ensures FieldMul(Add(Conjugate(0), 2), y) == 0
  {
    AddLaws(2, 2, 0);
    FieldMulZero(y);
  }

  lemma AddTelescopes(a: F128, b: F128, c: F128)
    ensures Add(Add(a, b), Add(b, c)) == Add(a, c)
  {
    hide Add;
    AddLaws(Add(a, b), b, c);
    AddCancels(a, b);
  }

  /** Nothing but zero vanishes under the difference of two conjugates. */
  lemma DifferenceRegular(j: nat)
    requires 0 < j < 128
    ensures Regular(Add(Conjugate(j), 2))
  {
    hide FieldMul, Add, Squared;
    var m, turns := FermatFactors.ReachesHalf(j);
    ConjugateReturns(64, turns);
    forall y: F128 | FieldMul(Add(Conjugate(j), 2), y) == 0
      ensures y == 0
    {
      MultiplesVanish(j, m, 64 + 128 * turns, y);
      HalfTurnRegular(y);
    }
  }

  /** An element moves by a multiple of what the generator moves by. */
  lemma HalfTurnRegular(y: F128)
    requires FieldMul(Add(Conjugate(64), 2), y) == 0
    ensures y == 0
  {
    hide FieldMul, Add, Squared, Evaluate;
    var a := OneIsDifference();
    Pow2At128();
    var c, d := Coefficients(a, 128), Add(Conjugate(64), 2);
    CoefficientsAtGenerator(a, 128);
    SquaredEvaluates(a, 128, 2, 64);
    QuotientDivides(c, 2, Conjugate(64));
    var q := Evaluate(Quotient(c, 2), Conjugate(64));
    AddCancels(FieldMul(d, q), a);
    AddLaws(a, FieldMul(d, q), 0);
    assert FieldMul(d, q) == 1;
    FieldMulCommutes(d, q);
    FieldMulAssociates(q, d, y);
    FieldMulZero(q);
    FieldMulOne(y);
  }

  // ----- what one squaring fixes -----

  function Conjugates(n: nat): (s: seq<F128>)
    ensures |s| == n && forall k :: 0 <= k < n ==> s[k] == Conjugate(k)
  {
    seq(n, k requires 0 <= k < n => Conjugate(k))
  }

  lemma {:induction false} SquaredRegular(d: F128, k: nat)
    requires Regular(d)
    ensures Regular(Squared(d, k))
    decreases k
  {
    hide FieldMul;
    if k != 0 {
      forall y: F128 | FieldMul(FieldMul(d, d), y) == 0
        ensures y == 0
      {
        FieldMulAssociates(d, d, y);
      }
      SquaredRegular(FieldMul(d, d), k - 1);
    }
  }

  lemma ConjugatesSeparate()
    ensures Separate(Conjugates(128))
  {
    hide FieldMul, Add, Squared, Regular;
    var points := Conjugates(128);
    forall i, j | 0 <= i < j < 128
      ensures Regular(Add(points[i], points[j]))
    {
      DifferenceRegular(j - i);
      SquaredRegular(Add(Conjugate(j - i), 2), i);
      SquaredAdds(Conjugate(j - i), 2, i);
      SquaredAgain(2, j - i, i);
      AddLaws(points[i], points[j], 0);
    }
  }

  /** Only zero and one are their own squares. */
  lemma OnlyBitsFixed(e: F128)
    requires FieldMul(e, e) == e
    ensures e == 0 || e == 1
  {
    hide FieldMul, Add, Squared, Evaluate, Separate, Coefficients;
    Pow2At128();
    var points, c := Conjugates(128), Coefficients(e, 128);
    var shifted := c[0 := Add(c[0], e)];
    ConjugatesSeparate();
    forall k | 0 <= k < 128
      ensures Evaluate(shifted, points[k]) == 0
    {
      CoefficientsAtGenerator(e, 128);
      SquaredEvaluates(e, 128, 2, k);
      SquaredFixed(e, k);
      ConstantShifts(c, e, points[k]);
      AddLaws(e, 0, 0);
    }
    TooManyRoots(shifted, points);
    ConstantCoefficient(e, 128);
    assert Add(c[0], e) == shifted[0] == 0;
    AddCancels(c[0], e);
    AddLaws(e, 0, 0);
  }

  lemma ConstantShifts(c: seq<F128>, e: F128, p: F128)
    requires c != []
    ensures Evaluate(c[0 := Add(c[0], e)], p) == Add(Evaluate(c, p), e)
  {
    hide FieldMul, Add;
    var tail := FieldMul(p, Evaluate(c[1..], p));
    assert c[0 := Add(c[0], e)][1..] == c[1..];
    AddLaws(c[0], e, tail);
    AddLaws(e, tail, 0);
    AddLaws(c[0], tail, e);
  }

  lemma ConstantCoefficient(v: nat, n: nat)
    requires n > 0
    ensures Coefficients(v, n)[0] == v % 2
  {
  }

  // ----- inverses -----

  /** Every element but zero times its inverse is one. */
  lemma InverseHolds(a: F128)
    requires a != 0
    ensures FieldMul(a, Inverse(a)) == 1 == FieldMul(Inverse(a), a)
  {
    hide FieldMul, Power, Pow2;
    Pow2At128();
    var n: nat := Pow2(128);
    var e := FieldMul(a, Inverse(a));
    FieldMulCommutes(a, Inverse(a));
    PowerOne(a);
    PowerReturns(a);
    PowerAdd(a, 1, n - 2);
    PowerAdd(a, n - 1, 1);
    PowerAdd(a, n - 1, n - 1);
    PowerAdd(a, n, n - 2);
    OnlyBitsFixed(e);
    FieldMulZero(a);
  }

  /** The power 2^128 of an element is the element. */
  lemma PowerReturns(a: F128)
    ensures Power(a, Pow2(128)) == a
  {
    hide FieldMul, Power, Squared, Evaluate;
    Pow2At128();
    SquaredIsPower(a, 128);
    CoefficientsAtGenerator(a, 128);
    SquaredEvaluates(a, 128, 2, 128);
    GeneratorReturns();
  }

  /** A product vanishes only where a factor does. */
  lemma NoZeroDivisors(a: F128, b: F128)
    ensures FieldMul(a, b) == 0 <==> a == 0 || b == 0
  {
    hide FieldMul, Inverse;
    FieldMulZero(b);
    FieldMulZero(a);
    if a != 0 {
      InverseHolds(a);
      FieldMulAssociates(Inverse(a), a, b);
      FieldMulOne(b);
      FieldMulZero(Inverse(a));
    }
  }
}
