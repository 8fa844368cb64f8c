/** Decoded bytecode, as the host runs it and as the oracle interprets it. */
module Programs {
  import opened Bits
  import opened Bytes
  import opened Ghash
  import opened Requests

  datatype Operation =
    | Set(o: u32, k: F128)
    | Xor(a: u32, b: u32, c: u32)
    | Mul(a: u32, b: u32, c: u32)
    | Deref(mode: DerefMode, alpha: u32, beta: u32, gamma: u32)
    | Jump(oc: u32, od: u32, of: u32)
    | Blake3(ins: seq<u32>, cv: u32, out: u32, metadata: F128)
  {
    predicate Valid() {
      Blake3? ==> |ins| == 4
    }

    /** The opcodes the scalar oracle interprets. */
    predicate Interpreted() {
      !Blake3? && (Deref? ==> mode != ModeCell)
    }
  }

  /** `n and not n & (n - 1)`: the program lengths the loader and the oracle accept. */
  predicate IsPowerOfTwo(n: nat) {
    n == 1 || (n > 1 && n % 2 == 0 && IsPowerOfTwo(n / 2))
  }

  lemma {:induction false} PowerAccepted(k: nat)
    ensures IsPowerOfTwo(Pow2(k))
  {
    if k > 0 {
      PowerAccepted(k - 1);
      assert Pow2(k) / 2 == Pow2(k - 1);
    }
  }

  lemma {:induction false} PowersOfTwo(n: nat)
    ensures IsPowerOfTwo(n) <==> exists k: nat :: n == Pow2(k)
  {
    forall k: nat | n == Pow2(k)
      ensures IsPowerOfTwo(n)
    {
      PowerAccepted(k);
    }
    if n == 1 {
      assert n == Pow2(0);
    } else if IsPowerOfTwo(n) {
      PowersOfTwo(n / 2);
      var k: nat :| n / 2 == Pow2(k);
      assert n == Pow2(k + 1);
    }
  }

  /** A loaded program: the last slot is the sentinel. */
  predicate IsProgram(program: seq<Operation>) {
    IsPowerOfTwo(|program|) && forall i :: 0 <= i < |program| ==> program[i].Valid()
  }

  function Sentinel(program: seq<Operation>): nat
    requires |program| > 0
  {
    |program| - 1
  }
}
