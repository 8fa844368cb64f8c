/** Repeated squaring in the field of the endpoint, and polynomials over it. */
module Frobenius {
  import opened Bits
  import opened BinaryField
  import opened Ghash

  // ----- the additive and multiplicative laws, over `F128` -----

  lemma AddLaws(a: F128, b: F128, c: F128)
    ensures Add(a, b) == Add(b, a) && Add(Add(a, b), c) == Add(a, Add(b, c))
    ensures Add(a, 0) == a == Add(0, a) && Add(a, a) == 0
  {
    XorCommutes(a, b);
    XorAssociates(a, b, c);
    XorZero(a);
    XorSelf(a);
  }

  lemma Distributes(a: F128, b: F128, c: F128)
    ensures FieldMul(a, Add(b, c)) == Add(FieldMul(a, b), FieldMul(a, c))
    ensures FieldMul(Add(b, c), a) == Add(FieldMul(b, a), FieldMul(c, a))
  {
    MulLinearRight(Ghash.Ghash(), a, b, c);
    MulLinearLeft(Ghash.Ghash(), b, c, a);
  }

  lemma MulInterchange(a: F128, b: F128, c: F128, d: F128)
    ensures FieldMul(FieldMul(a, b), FieldMul(c, d)) == FieldMul(FieldMul(a, c), FieldMul(b, d))
  {
    hide FieldMul;
    FieldMulAssociates(a, b, FieldMul(c, d));
    FieldMulAssociates(b, c, d);
    FieldMulCommutes(b, c);
    FieldMulAssociates(c, b, d);
    FieldMulAssociates(a, c, FieldMul(b, d));
  }

  lemma AddInterchange(a: F128, b: F128, c: F128, d: F128)
    ensures Add(Add(a, b), Add(c, d)) == Add(Add(a, c), Add(b, d))
  {
    XorInterchange(a, b, c, d);
  }

  // ----- squaring -----

  /** `a`, squared `k` times over. */
  function Squared(a: F128, k: nat): F128
    decreases k
  {
    if k == 0 then a else Squared(FieldMul(a, a), k - 1)
  }

  lemma {:induction false} SquaredAgain(a: F128, j: nat, k: nat)
    ensures Squared(Squared(a, j), k) == Squared(a, j + k)
    decreases j
  {
    hide FieldMul;
    if j != 0 {
      SquaredAgain(FieldMul(a, a), j - 1, k);
    }
  }

  lemma SquareAdds(a: F128, b: F128)
    ensures FieldMul(Add(a, b), Add(a, b)) == Add(FieldMul(a, a), FieldMul(b, b))
  {
    hide FieldMul, Add;
    Distributes(Add(a, b), a, b);
    Distributes(a, a, b);
    Distributes(b, a, b);
    FieldMulCommutes(a, b);
    var cross := FieldMul(a, b);
    AddLaws(cross, FieldMul(b, b), 0);
    AddInterchange(FieldMul(a, a), cross, FieldMul(b, b), cross);
    AddLaws(cross, cross, 0);
    AddLaws(Add(FieldMul(a, a), FieldMul(b, b)), 0, 0);
  }

  /** Squaring respects sums and products. */
  lemma {:induction false} SquaredAdds(a: F128, b: F128, k: nat)
    ensures Squared(Add(a, b), k) == Add(Squared(a, k), Squared(b, k))
    decreases k
  {
    hide FieldMul, Add;
    if k != 0 {
      SquareAdds(a, b);
      SquaredAdds(FieldMul(a, a), FieldMul(b, b), k - 1);
    }
  }

  lemma {:induction false} SquaredMuls(a: F128, b: F128, k: nat)
    ensures Squared(FieldMul(a, b), k) == FieldMul(Squared(a, k), Squared(b, k))
    decreases k
  {
    hide FieldMul, Add;
    if k != 0 {
      MulInterchange(a, b, a, b);
      SquaredMuls(FieldMul(a, a), FieldMul(b, b), k - 1);
    }
  }

  lemma {:induction false} SquaredBit(bit: nat, k: nat)
    requires bit < 2
    ensures Squared(bit, k) == bit
  {
    hide FieldMul;
    if k != 0 {
      FieldMulOne(bit);
      FieldMulZero(bit);
      assert FieldMul(bit, bit) == bit;
      SquaredBit(bit, k - 1);
    }
  }

  /** A fixed point of one squaring is one of all. */
  lemma {:induction false} SquaredFixed(e: F128, k: nat)
    requires FieldMul(e, e) == e
    ensures Squared(e, k) == e
  {
    hide FieldMul;
    if k != 0 {
      SquaredFixed(e, k - 1);
    }
  }

  lemma {:induction false} SquaredIsPower(a: F128, k: nat)
    ensures Squared(a, k) == Power(a, Pow2(k))
    decreases k
  {
    hide FieldMul, Power;
    if k == 0 {
      PowerOne(a);
    } else {
      SquaredIsPower(FieldMul(a, a), k - 1);
      PowerSquare(a, Pow2(k - 1));
    }
  }

  // ----- polynomials with coefficients in the field, constant term first -----

  function Evaluate(c: seq<F128>, p: F128): F128 {
    if c == [] then 0 else Add(c[0], FieldMul(p, Evaluate(c[1..], p)))
  }

  /** Synthetic division by `x + p`. */
  function Quotient(c: seq<F128>, p: F128): (q: seq<F128>)
    ensures |q| == if |c| == 0 then 0 else |c| - 1
  {
    if |c| <= 1 then [] else [Evaluate(c[1..], p)] + Quotient(c[1..], p)
  }

  lemma {:induction false} QuotientDivides(c: seq<F128>, p: F128, z: F128)
    ensures Evaluate(c, z) == Add(Evaluate(c, p), FieldMul(Add(z, p), Evaluate(Quotient(c, p), z)))
  {
    hide FieldMul, Add;
    if c == [] {
      FieldMulZero(Add(z, p));
      AddLaws(0, 0, 0);
    } else if |c| == 1 {
      assert Quotient(c, p) == [] && c[1..] == [];
      FieldMulZero(Add(z, p));
      FieldMulZero(z);
      FieldMulZero(p);
      AddLaws(c[0], 0, 0);
    } else {
      var t := c[1..];
      QuotientDivides(t, p, z);
      var at, rest := Evaluate(t, p), Evaluate(Quotient(t, p), z);
      assert Quotient(c, p)[1..] == Quotient(t, p);
      DivisionStep(c[0], p, z, at, rest);
    }
  }

  lemma DivisionStep(c0: F128, p: F128, z: F128, at: F128, rest: F128)
    ensures Add(c0, FieldMul(z, Add(at, FieldMul(Add(z, p), rest))))
         == Add(Add(c0, FieldMul(p, at)), FieldMul(Add(z, p), Add(at, FieldMul(z, rest))))
  {
    hide FieldMul, Add;
    var d := Add(z, p);
    Distributes(z, at, FieldMul(d, rest));
    Distributes(d, at, FieldMul(z, rest));
    Distributes(at, z, p);
    FieldMulAssociates(z, d, rest);
    FieldMulAssociates(d, z, rest);
    FieldMulCommutes(z, d);
    var za, pa, last := FieldMul(z, at), FieldMul(p, at), FieldMul(d, FieldMul(z, rest));
    AddLaws(c0, pa, Add(Add(za, pa), last));
    AddLaws(Add(za, pa), last, 0);
    AddLaws(pa, Add(za, pa), last);
    AddCancels(za, pa);
  }

  /** A polynomial whose quotient and remainder vanish is zero. */
  lemma {:induction false} QuotientVanishes(c: seq<F128>, p: F128)
    requires Evaluate(c, p) == 0 && forall i :: 0 <= i < |c| - 1 ==> Quotient(c, p)[i] == 0
    ensures forall i :: 0 <= i < |c| ==> c[i] == 0
  {
    hide FieldMul, Add;
    if |c| > 0 {
      var t := c[1..];
      if |c| > 1 {
        assert Quotient(c, p)[0] == Evaluate(t, p);
        assert forall i :: 0 <= i < |t| - 1 ==> Quotient(t, p)[i] == Quotient(c, p)[i + 1];
      }
      QuotientVanishes(t, p);
      FieldMulZero(p);
      AddLaws(c[0], 0, 0);
      assert forall i :: 0 < i < |c| ==> c[i] == t[i - 1];
    }
  }

  /** An element by which no product vanishes. */
  ghost predicate Regular(d: F128) {
    forall y: F128 :: FieldMul(d, y) == 0 ==> y == 0
  }

  ghost predicate Separate(points: seq<F128>) {
    forall i, j :: 0 <= i < j < |points| ==> Regular(Add(points[i], points[j]))
  }

  /** A polynomial with as many separate roots as coefficients is zero. */
  lemma {:induction false} TooManyRoots(c: seq<F128>, points: seq<F128>)
    requires |points| == |c| && Separate(points)
    requires forall i :: 0 <= i < |points| ==> Evaluate(c, points[i]) == 0
    ensures forall i :: 0 <= i < |c| ==> c[i] == 0
    decreases |c|
  {
    hide FieldMul, Add, Evaluate, Regular;
    if |c| > 0 {
      var p, others, q := points[0], points[1..], Quotient(c, points[0]);
      forall i | 0 <= i < |others|
        ensures Evaluate(q, others[i]) == 0
      {
        var z := points[i + 1];
        QuotientDivides(c, p, z);
        AddLaws(FieldMul(Add(z, p), Evaluate(q, z)), 0, 0);
        AddLaws(p, z, 0);
        RegularCancels(Add(p, z), Evaluate(q, z));
      }
      forall i, j | 0 <= i < j < |others|
        ensures Regular(Add(others[i], others[j]))
      {
        assert Regular(Add(points[i + 1], points[j + 1]));
      }
      TooManyRoots(q, others);
      QuotientVanishes(c, p);
    }
  }

  lemma RegularCancels(d: F128, y: F128)
    requires Regular(d) && FieldMul(d, y) == 0
    ensures y == 0
  {
  }

  // ----- elements as polynomials in the generator -----

  /** The `n` low bits of an element, as coefficients. */
  function Coefficients(v: nat, n: nat): (c: seq<F128>)
    ensures |c| == n
  {
    if n == 0 then [] else [v % 2] + Coefficients(v / 2, n - 1)
  }

  lemma {:induction false} CoefficientsAtGenerator(v: F128, n: nat)
    requires v < Pow2(n)
    ensures Evaluate(Coefficients(v, n), 2) == v
    decreases n
  {
    hide FieldMul, Add;
    if n != 0 {
      var half := v / 2;
      var c := Coefficients(v, n);
      assert c[1..] == Coefficients(half, n - 1);
      CoefficientsAtGenerator(half, n - 1);
      GeneratorDoubles(half, v % 2);
    }
  }

  lemma GeneratorDoubles(half: F128, digit: nat)
    requires digit < 2 && 2 * half + digit < TWO_TO_128
    ensures Add(digit, FieldMul(2, half)) == 2 * half + digit
  {
    Pow2At128();
    FieldMulCommutes(2, half);
    assert Pow2(1) == 2;
    MulPowerOfTwo(Ghash.Ghash(), half, 1);
    assert XtimePower(Ghash.Ghash(), half, 1) == FieldXtime(XtimePower(Ghash.Ghash(), half, 0));
    XtimeCases(Ghash.Ghash(), half);
    assert Pow2(128) == 2 * Pow2(127);
    XorHalf(digit, 2 * half);
    XorZero(half);
    assert (2 * half) / 2 == half && digit / 2 == 0;
  }

  /** Squaring an element's polynomial moves the point it is evaluated at. */
  lemma {:induction false} SquaredEvaluates(v: nat, n: nat, p: F128, k: nat)
    ensures Squared(Evaluate(Coefficients(v, n), p), k) == Evaluate(Coefficients(v, n), Squared(p, k))
  {
    hide FieldMul, Add, Squared;
    if n == 0 {
      SquaredBit(0, k);
    } else {
      var c := Coefficients(v, n);
      assert c[1..] == Coefficients(v / 2, n - 1);
      SquaredEvaluates(v / 2, n - 1, p, k);
      SquaredBit(v % 2, k);
      SquaredAdds(v % 2, FieldMul(p, Evaluate(c[1..], p)), k);
      SquaredMuls(p, Evaluate(c[1..], p), k);
    }
  }
}
