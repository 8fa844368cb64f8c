/** The reverse direction of `n -> g^n`: the search the endpoint refuses to do,
    the host's growing table for it, and the oracle's linear scan. */
module Pointers {
  import opened Outcomes
  import opened Ghash

  /** `index` is the first index below `limit` that encodes `pointer`. */
  ghost predicate IsLeastIndex(pointer: F128, index: nat, limit: nat) {
    && index < limit
    && GPower(index) == pointer
    && forall j: nat :: j < index ==> GPower(j) != pointer
  }

  ghost predicate NoIndex(pointer: F128, limit: nat) {
    forall j: nat :: j < limit ==> GPower(j) != pointer
  }

  lemma {:induction false} LeastIndexExists(pointer: F128, limit: nat)
    requires !NoIndex(pointer, limit)
    ensures exists index :: IsLeastIndex(pointer, index, limit)
  {
    if limit > 0 {
      if NoIndex(pointer, limit - 1) {
        assert IsLeastIndex(pointer, limit - 1, limit);
      } else {
        LeastIndexExists(pointer, limit - 1);
        var index :| IsLeastIndex(pointer, index, limit - 1);
        assert IsLeastIndex(pointer, index, limit);
      }
    }
  }

  /** The index both searches look for. */
  ghost function Reverse(pointer: F128, limit: nat): (r: Option<nat>)
    ensures match r
            case Some(index) => IsLeastIndex(pointer, index, limit)
            case None => NoIndex(pointer, limit)
  {
    if NoIndex(pointer, limit) then None else
    LeastIndexExists(pointer, limit);
    var index: nat :| IsLeastIndex(pointer, index, limit);
    Some(index)
  }

  lemma LeastIndexUnique(pointer: F128, index: nat, limit: nat)
    requires IsLeastIndex(pointer, index, limit)
    ensures Reverse(pointer, limit) == Some(index)
  {
    match Reverse(pointer, limit)
    case Some(other) => assert GPower(other) == GPower(index) == pointer;
    case None =>
  }

  /** The zero word, which an absent cell reads as, encodes no index. */
  lemma ZeroIsNoPointer(limit: nat)
    ensures Reverse(0, limit) == None
  {
    match Reverse(0, limit)
    case Some(index) => GPowerNonzero(index);
    case None =>
  }

  /** `reverse` of the oracle. */
  method OracleReverse(value: F128, limit: nat) returns (r: Option<nat>)
    ensures r == Reverse(value, limit)
  {
    var candidate: F128 := 1;
    var index := 0;
    while index < limit
      invariant 0 <= index <= limit
      invariant candidate == GPower(index)
      invariant NoIndex(value, index)
    {
      if candidate == value {
        LeastIndexUnique(value, index, limit);
        return Some(index);
      }
      candidate := FieldXtimeStep(candidate);
      index := index + 1;
    }
    return None;
  }

  /** `encode` of the oracle. */
  method OracleEncode(index: nat) returns (value: F128)
    ensures value == GPower(index)
  {
    value := 1;
    for i := 0 to index
      invariant value == GPower(i)
    {
      value := FieldXtimeStep(value);
    }
  }

  /** `_verify_index`: what the endpoint accepts as the index of a pointer. */
  predicate Accepts(base: nat, pointer: F128) {
    base < INDEX_LIMIT && GPower(base) == pointer
  }

  /** The forward list holds the powers, the reverse map the least index of each of them. */
  ghost predicate IsTable(forward: seq<F128>, reverse: map<F128, nat>) {
    && (forall i :: 0 <= i < |forward| ==> forward[i] == GPower(i) && forward[i] in reverse)
    && (forall v :: v in reverse ==> IsLeastIndex(v, reverse[v], |forward|))
  }

  lemma TableGrows(forward: seq<F128>, reverse: map<F128, nat>, value: F128)
    requires IsTable(forward, reverse) && value == GPower(|forward|)
    ensures value in reverse ==> IsTable(forward + [value], reverse)
    ensures value !in reverse ==> IsTable(forward + [value], reverse[value := |forward|])
  {
    var n, forward' := |forward|, forward + [value];
    assert forall i :: 0 <= i < n ==> forward'[i] == forward[i];
    assert forall v :: v in reverse ==> IsLeastIndex(v, reverse[v], |forward|) && IsLeastIndex(v, reverse[v], n + 1);
    if value !in reverse {
      assert forall j: nat :: j < n ==> GPower(j) == forward[j] && forward[j] in reverse;
      assert IsLeastIndex(value, n, n + 1);
    }
  }

  class PointerMap {
    var forward: seq<F128>
    var reverse: map<F128, nat>

    ghost predicate Valid()
      reads this
    {
      1 <= |forward| <= INDEX_LIMIT && IsTable(forward, reverse)
    }

    constructor ()
      ensures Valid()
    {
      forward := [1];
      reverse := map[1 := 0];
    }

    /** `_grow`; refuses an index outside the window. */
    method Grow(index: nat) returns (ok: bool)
      requires Valid()
      modifies this
      ensures Valid()
      ensures ok <==> index < INDEX_LIMIT
      ensures ok ==> index < |forward|
      ensures |forward| >= old(|forward|)
    {
      if index >= INDEX_LIMIT {
        return false;
      }
      while |forward| <= index
        invariant Valid()
        invariant |forward| >= old(|forward|)
        decreases index - |forward|
      {
        Extend();
      }
      return true;
    }

    method Extend()
      requires Valid() && |forward| < INDEX_LIMIT
      modifies this
      ensures Valid() && |forward| == old(|forward|) + 1
    {
      var n := |forward|;
      var value := FieldXtimeStep(forward[n - 1]);
      assert value == GPower(n);
      TableGrows(forward, reverse, value);
      if value !in reverse {
        reverse := reverse[value := n];
      }
      forward := forward + [value];
    }

    method Encode(index: nat) returns (r: Option<F128>)
      requires Valid()
      modifies this
      ensures Valid()
      ensures r == if index < INDEX_LIMIT then Some(GPower(index)) else None
    {
      var ok := Grow(index);
      r := if ok then Some(forward[index]) else None;
    }

    /** `index_of`: the oracle's answer, whatever part of the table was already built. */
    method IndexOf(pointer: F128) returns (r: Option<nat>)
      requires Valid()
      modifies this
      ensures Valid()
      ensures r == Reverse(pointer, INDEX_LIMIT)
      ensures r.Some? ==> Accepts(r.value, pointer)
      ensures r.None? ==> forall base :: !Accepts(base, pointer)
    {
      if pointer in reverse {
        LeastIndexUnique(pointer, reverse[pointer], INDEX_LIMIT);
        return Some(reverse[pointer]);
      }
      var ok := Grow(INDEX_LIMIT - 1);
      if pointer !in reverse {
        assert NoIndex(pointer, INDEX_LIMIT) by {
          assert forall j: nat :: j < INDEX_LIMIT ==> GPower(j) == forward[j] && forward[j] in reverse;
        }
        return None;
      }
      LeastIndexUnique(pointer, reverse[pointer], INDEX_LIMIT);
      return Some(reverse[pointer]);
    }
  }
}
