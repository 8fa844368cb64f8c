/** The number 2^64 + 1 has no divisor below 2^16 but one: a prime divisor is one more than a
    multiple of 128, and of those there are 511. */
module FermatFactors {
  import opened Bits

  // ----- divisibility -----

  function Multiple(d: int, q: int): int {
    d * q
  }

  ghost predicate Divides(d: int, n: int) {
    exists q: int :: n == Multiple(d, q)
  }

  lemma DividesSum(d: int, a: int, b: int)
    requires Divides(d, a)
    ensures Divides(d, b) <==> Divides(d, a + b)
  {
    var q: int :| a == Multiple(d, q);
    if Divides(d, b) {
      var r: int :| b == Multiple(d, r);
      Distributes(d, q, r);
      assert a + b == Multiple(d, q + r);
    }
    if Divides(d, a + b) {
      var r: int :| a + b == Multiple(d, r);
      Distributes(d, r, -q);
      Distributes(d, q, -q);
      assert b == Multiple(d, r - q);
    }
  }

  lemma DividesTimes(d: int, a: int, c: int)
    requires Divides(d, a)
    ensures Divides(d, a * c)
  {
    var q: int :| a == Multiple(d, q);
    Reassociates(d, q, c);
    assert a * c == Multiple(d, q * c);
  }

  lemma DividesItself(d: int, c: int)
    ensures Divides(d, d * c)
  {
    assert d * c == Multiple(d, c);
  }

  lemma Distributes(a: int, b: int, c: int)
    ensures a * (b + c) == a * b + a * c && (b + c) * a == b * a + c * a
  {
  }

  lemma Reassociates(a: int, b: int, c: int)
    ensures (a * b) * c == a * (b * c)
  {
  }

  lemma DivisorBound(d: nat, n: nat)
    requires Divides(d, n) && n > 0
    ensures 0 < d <= n
  {
    var q: int :| n == Multiple(d, q);
    assert d != 0 && q > 0;
    assert d * q >= d * 1;
  }

  lemma DividesTransitive(a: int, b: int, c: int)
    requires Divides(a, b) && Divides(b, c)
    ensures Divides(a, c)
  {
    var q: int :| c == Multiple(b, q);
    DividesTimes(a, b, q);
  }

  // ----- primes -----

  ghost predicate Prime(p: nat) {
    p > 1 && forall d: nat :: 1 < d < p ==> !Divides(d, p)
  }

  lemma {:induction false} PrimeFactor(n: nat) returns (p: nat)
    requires n > 1
    ensures Prime(p) && Divides(p, n) && p <= n
    decreases n
  {
    DividesItself(n, 1);
    if Prime(n) {
      p := n;
    } else {
      var d: nat :| 1 < d < n && Divides(d, n);
      p := PrimeFactor(d);
      DividesTransitive(p, d, n);
    }
  }

  lemma PrimeLeaves(p: nat, i: nat)
    requires Prime(p) && 1 < i < p
    ensures p % i != 0
  {
    if p % i == 0 {
      var q := p / i;
      assert p == i * q == Multiple(i, q);
      assert Divides(i, p);
    }
  }

  /** A prime that divides a product with a smaller factor divides the other. */
  lemma {:induction false} Euclid(p: nat, c: int, i: nat)
    requires Prime(p) && 0 < i < p && Divides(p, c * i)
    ensures Divides(p, c)
    decreases i
  {
    if i > 1 {
      var q, r := p / i, p % i;
      PrimeLeaves(p, i);
      DividesItself(p, c);
      DividesTimes(p, c * i, -q);
      EuclidStep(c, i, q, r, p);
      DividesSum(p, (c * i) * -q, p * c);
      Euclid(p, c, r);
    }
  }

  lemma EuclidStep(c: int, i: int, q: int, r: int, p: int)
    requires p == i * q + r
    ensures c * r == (c * i) * -q + p * c
  {
    Distributes(c, i * q, r);
    Reassociates(c, i, q);
  }

  // ----- Fermat's little theorem, for two -----

  function Factorial(n: nat): nat {
    if n == 0 then 1 else Factorial(n - 1) * n
  }

  /** 2 * 4 * ... * 2n, and 1 * 3 * ... * (2n - 1). */
  function Evens(n: nat): nat {
    if n == 0 then 1 else Evens(n - 1) * (2 * n)
  }

  function Odds(n: nat): nat {
    if n == 0 then 1 else Odds(n - 1) * (2 * n - 1)
  }

  /** The `n` even numbers above `2h`. */
  function Above(h: nat, n: nat): nat {
    if n == 0 then 1 else Above(h, n - 1) * (2 * (h + n))
  }

  lemma {:induction false} EvensAndOdds(n: nat)
    ensures Evens(n) * Odds(n) == Factorial(2 * n)
  {
    if n > 0 {
      EvensAndOdds(n - 1);
      var e, o, f := Evens(n - 1), Odds(n - 1), Factorial(2 * n - 2);
      assert Factorial(2 * n) == Factorial(2 * n - 1) * (2 * n) && Factorial(2 * n - 1) == f * (2 * n - 1);
      Rearranges(e, 2 * n, o, 2 * n - 1);
    }
  }

  lemma Rearranges(a: int, b: int, c: int, d: int)
    ensures (a * b) * (c * d) == ((a * c) * d) * b
  {
    Reassociates(a, b, c * d);
    Reassociates(b, c, d);
    Reassociates(a * c, d, b);
    Reassociates(a, c, d * b);
    Reassociates(c, d, b);
    assert b * (c * d) == c * (d * b);
  }

  lemma {:induction false} EvensAreDoubled(n: nat)
    ensures Evens(n) == Pow2(n) * Factorial(n)
  {
    if n > 0 {
      EvensAreDoubled(n - 1);
      var p, f := Pow2(n - 1), Factorial(n - 1);
      Rearranges(p, 2, f, n);
      Reassociates(p * f, n, 2);
      assert n * 2 == 2 * n;
    }
  }

  lemma {:induction false} EvensSplit(h: nat, n: nat)
    ensures Evens(h) * Above(h, n) == Evens(h + n)
    decreases n
  {
    if n > 0 {
      EvensSplit(h, n - 1);
      Reassociates(Evens(h), Above(h, n - 1), 2 * (h + n));
      assert h + n - 1 == h + (n - 1);
    }
  }

  /** Modulo `2h + 1` the even numbers above `2h` are the odd numbers from one. */
  lemma {:induction false} AboveAreOdds(h: nat, n: nat)
    ensures Divides(2 * h + 1, Above(h, n) - Odds(n))
    decreases n
  {
    var p := 2 * h + 1;
    if n == 0 {
      DividesItself(p, 0);
    } else {
      AboveAreOdds(h, n - 1);
      var a, o, k := Above(h, n - 1), Odds(n - 1), 2 * n - 1;
      assert 2 * (h + n) == k + p;
      Distributes(a, k, p);
      Distributes(k, a, -o);
      DividesTimes(p, a - o, k);
      DividesItself(p, a);
      DividesSum(p, (a - o) * k, p * a);
    }
  }

  lemma {:induction false} FactorialCancels(p: nat, c: int, n: nat)
    requires Prime(p) && n < p && Divides(p, c * Factorial(n))
    ensures Divides(p, c)
    decreases n
  {
    if n > 0 {
      Reassociates(c, Factorial(n - 1), n);
      Euclid(p, c * Factorial(n - 1), n);
      FactorialCancels(p, c, n - 1);
    }
  }

  lemma FermatForTwo(h: nat)
    requires Prime(2 * h + 1)
    ensures Divides(2 * h + 1, Pow2(2 * h) - 1)
  {
    hide Evens, Odds, Above, Factorial, Pow2, Divides;
    EvensAreDoubled(2 * h);
    EvensAndOdds(h);
    EvensSplit(h, h);
    AboveAreOdds(h, h);
    CommonFactor(2 * h + 1, Evens(h), Above(h, h), Odds(h), Pow2(2 * h), Factorial(2 * h));
    FactorialCancels(2 * h + 1, Pow2(2 * h) - 1, 2 * h);
  }

  lemma CommonFactor(p: int, e: int, a: int, o: int, two: int, f: int)
    requires Divides(p, a - o) && e * o == f && e * a == two * f
    ensures Divides(p, (two - 1) * f)
  {
    DividesTimes(p, a - o, e);
    Distributes(e, a, -o);
    Distributes(f, two, -1);
  }

  // ----- prime divisors of 2^64 + 1 -----

  lemma {:induction false} PowersReturn(p: nat, a: nat, t: nat, n: nat)
    requires Divides(p, Pow2(a) - 1) && n == a * t
    ensures Divides(p, Pow2(n) - 1)
    decreases t
  {
    if t == 0 {
      DividesItself(p, 0);
    } else {
      Distributes(a, t, -1);
      var m: nat := MinusOne(a, t, n);
      PowersReturn(p, a, t - 1, m);
      Pow2Add(m, a);
      hide Pow2;
      DividesTimes(p, Pow2(a) - 1, Pow2(m));
      Distributes(Pow2(m), Pow2(a), -1);
      DividesSum(p, (Pow2(a) - 1) * Pow2(m), Pow2(m) - 1);
    }
  }

  lemma MinusOne(a: nat, t: nat, n: nat) returns (m: nat)
    requires t > 0 && n == a * t
    ensures m == a * (t - 1) && n == m + a
  {
    Distributes(a, t - 1, 1);
    assert a * (t - 1) >= 0;
    m := n - a;
  }

  /** An odd multiple of 64 takes two to minus one. */
  lemma OddMultiples(p: nat, j: nat)
    requires Divides(p, Pow2(64) + 1)
    ensures Divides(p, Pow2(64 + 128 * j) + 1)
  {
    hide Pow2;
    Pow2Add(64, 64);
    var x := Pow2(64);
    DividesTimes(p, x + 1, x - 1);
    assert (x + 1) * (x - 1) == Pow2(128) - 1;
    PowersReturn(p, 128, j, 128 * j);
    Pow2Add(64, 128 * j);
    DividesTimes(p, Pow2(128 * j) - 1, x);
    Distributes(x, Pow2(128 * j), -1);
    DividesSum(p, (Pow2(128 * j) - 1) * x, x + 1);
  }

  /** Every positive number below 128 has an odd multiple of 64 among its multiples. */
  lemma ReachesHalf(r: nat) returns (t: nat, j: nat)
    requires 0 < r < 128
    ensures r * t == 64 + 128 * j
  {
    t := 64;
    var i, d := r, 1;
    while i % 2 == 0
      invariant 0 < i < 128 && 0 < d && i * d == r && d * t == 64
      decreases i
    {
      HalvesOut(i, d, t);
      i, d, t := i / 2, 2 * d, t / 2;
    }
    j := i / 2;
    Reassociates(i, d, t);
  }

  lemma HalvesOut(i: nat, d: nat, t: nat)
    requires i % 2 == 0 && 0 < i && 0 < i * d < 128 && d * t == 64
    ensures (i / 2) * (2 * d) == i * d && (2 * d) * (t / 2) == 64
  {
  }

  /** So does every number that 128 does not divide. */
  lemma OddMultipleOf64(n: nat) returns (t: nat, j: nat)
    requires n % 128 != 0
    ensures n * t == 64 + 128 * j
  {
    var q, r := n / 128, n % 128;
    t, j := ReachesHalf(r);
    Distributes(t, 128 * q, r);
    Reassociates(128, q, t);
    j := q * t + j;
  }

  const NUMBER: nat := 0x1_0000_0000_0000_0001

  lemma NumberIs()
    ensures Pow2(64) + 1 == NUMBER
  {
    hide Pow2;
    SmallPower();
    Pow2Add(4, 4);
    Pow2Add(8, 8);
    Pow2Add(16, 16);
    Pow2Add(32, 32);
  }

  lemma SmallPower()
    ensures Pow2(4) == 16
  {
  }

  lemma PrimeDivisorForm(p: nat)
    requires Prime(p) && Divides(p, NUMBER)
    ensures p % 128 == 1
  {
    hide Prime, Divides;
    OddDivisor(p);
    if (p - 1) % 128 != 0 {
      var t, j := OddMultipleOf64(p - 1);
      DividesTwo(p, p / 2, t, j);
      DivisorBound(p, 2);
    }
  }

  lemma DividesTwo(p: nat, h: nat, t: nat, j: nat)
    requires Prime(p) && Divides(p, NUMBER) && p == 2 * h + 1 && 64 + 128 * j == (2 * h) * t
    ensures Divides(p, 2)
  {
    hide Pow2, Prime, Divides;
    NumberIs();
    FermatForTwo(h);
    PowersReturn(p, 2 * h, t, 64 + 128 * j);
    OddMultiples(p, j);
    DividesSum(p, Pow2(64 + 128 * j) - 1, 2);
  }

  lemma OddDivisor(p: nat)
    requires Prime(p) && Divides(p, NUMBER)
    ensures p % 2 == 1 && p > 2
  {
    if p % 2 == 0 {
      var q: int :| NUMBER == Multiple(p, q);
      EvenMultiple(p, q);
    }
  }

  lemma EvenMultiple(p: nat, q: int)
    requires p % 2 == 0
    ensures Multiple(p, q) % 2 == 0
  {
    Reassociates(2, p / 2, q);
  }

  // ----- the candidates -----

  function Remainder(p: nat): nat
    requires p > 0
  {
    0x1_0000_0000_0000_0001 % p
  }

  /** None of sixteen candidates divides. */
  predicate Sixteen(p: nat)
    requires p > 0
  {
    && Remainder(p) != 0 && Remainder(p + 128) != 0 && Remainder(p + 256) != 0 && Remainder(p + 384) != 0
    && Remainder(p + 512) != 0 && Remainder(p + 640) != 0 && Remainder(p + 768) != 0 && Remainder(p + 896) != 0
    && Remainder(p + 1024) != 0 && Remainder(p + 1152) != 0 && Remainder(p + 1280) != 0 && Remainder(p + 1408) != 0
    && Remainder(p + 1536) != 0 && Remainder(p + 1664) != 0 && Remainder(p + 1792) != 0 && Remainder(p + 1920) != 0
  }

  /** None of sixty-four candidates divides. */
  predicate SixtyFour(p: nat)
    requires p > 0
  {
    Sixteen(p) && Sixteen(p + 2048) && Sixteen(p + 4096) && Sixteen(p + 6144)
  }

  lemma Candidates1()
    ensures SixtyFour(129)
  {
  }

  lemma Candidates2()
    ensures SixtyFour(8321)
  {
  }

  lemma Candidates3()
    ensures SixtyFour(16513)
  {
  }

  lemma Candidates4()
    ensures SixtyFour(24705)
  {
  }

  lemma Candidates5()
    ensures SixtyFour(32897)
  {
  }

  lemma Candidates6()
    ensures SixtyFour(41089)
  {
  }

  lemma Candidates7()
    ensures SixtyFour(49281)
  {
  }

  lemma Candidates8()
    ensures SixtyFour(57473)
  {
  }

  lemma AmongSixteen(lo: nat, i: nat)
    requires lo > 0 && Sixteen(lo) && i < 16
    ensures Remainder(lo + 128 * i) != 0
  {
    hide Remainder;
  }

  lemma AmongSixtyFour(lo: nat, i: nat)
    requires lo > 0 && SixtyFour(lo) && i < 64
    ensures Remainder(lo + 128 * i) != 0
  {
    hide Sixteen, Remainder;
    if i < 16 {
      AmongSixteen(lo, i);
    } else if i < 32 {
      AmongSixteen(lo + 2048, i - 16);
    } else if i < 48 {
      AmongSixteen(lo + 4096, i - 32);
    } else {
      AmongSixteen(lo + 6144, i - 48);
    }
  }

  lemma NoCandidate(i: nat)
    requires i < 511
    ensures Remainder(129 + 128 * i) != 0
  {
    hide SixtyFour, Remainder;
    if i < 64 {
      Candidates1();
      AmongSixtyFour(129, i);
    } else if i < 128 {
      Candidates2();
      AmongSixtyFour(8321, i - 64);
    } else if i < 192 {
      Candidates3();
      AmongSixtyFour(16513, i - 128);
    } else if i < 256 {
      Candidates4();
      AmongSixtyFour(24705, i - 192);
    } else if i < 320 {
      Candidates5();
      AmongSixtyFour(32897, i - 256);
    } else if i < 384 {
      Candidates6();
      AmongSixtyFour(41089, i - 320);
    } else if i < 448 {
      Candidates7();
      AmongSixtyFour(49281, i - 384);
    } else {
      Candidates8();
      AmongSixtyFour(57473, i - 448);
    }
  }

  lemma Divided(d: nat, n: nat)
    requires d > 0 && Divides(d, n)
    ensures n % d == 0
  {
    var q: int :| n == Multiple(d, q);
    var m, k := n / d, n % d;
    assert n == d * m + k;
    Distributes(d, q, -m);
    if q != m {
      LargeMultiple(d, q - m);
    }
  }

  lemma LargeMultiple(d: nat, q: int)
    requires q != 0
    ensures d * q < 0 || d * q >= d
  {
    if q > 0 {
      Distributes(d, q - 1, 1);
      ProductNonnegative(d, q - 1);
    } else {
      Distributes(d, -q - 1, 1);
      ProductNonnegative(d, -q - 1);
    }
  }

  lemma ProductNonnegative(a: nat, b: nat)
    ensures a * b >= 0
  {
  }

  /** Nothing from 2 up to 2^16 divides 2^64 + 1. */
  lemma NoSmallDivisor(g: nat)
    requires 1 < g < 0x1_0000
    ensures !Divides(g, NUMBER)
  {
    if Divides(g, NUMBER) {
      var p := PrimeFactor(g);
      DividesTransitive(p, g, NUMBER);
      PrimeDivisorForm(p);
      NoCandidate(p / 128 - 1);
      Divided(p, NUMBER);
    }
  }
}
