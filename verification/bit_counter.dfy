/** The boolean array of `computePowerSet` read as a big-endian binary
    counter (index 0 is the most significant bit), and `addOne`. */
module BitCounter {

  function Pow2(n: nat): (r: nat)
    ensures r >= 1
  {
    if n == 0 then 1 else 2 * Pow2(n - 1)
  }

  lemma Pow2Monotonic(a: nat, b: nat)
    requires a <= b
    ensures Pow2(a) <= Pow2(b)
  {
  }

  /** The number a bit array encodes, most significant bit first. */
  function BitsToNat(b: seq<bool>): nat
  {
    if b == [] then 0 else 2 * BitsToNat(b[..|b| - 1]) + (if b[|b| - 1] then 1 else 0)
  }

  lemma {:induction false} BitsToNatBound(b: seq<bool>)
    ensures BitsToNat(b) < Pow2(|b|)
  {
    if b != [] {
      BitsToNatBound(b[..|b| - 1]);
    }
  }

  lemma BitsToNatSnoc(p: seq<bool>, x: bool)
    ensures BitsToNat(p + [x]) == 2 * BitsToNat(p) + (if x then 1 else 0)
  {
    assert (p + [x])[..|p|] == p;
  }

  /** `addOne`: adds one with the carry running from the last element
      towards the first; a carry out of the first element is dropped, so
      the all-true array wraps around to all false. */
  function AddOne(b: seq<bool>): (r: seq<bool>)
    ensures |r| == |b|
  {
    if b == [] then []
    else
      var p := b[..|b| - 1];
      if !b[|b| - 1] then p + [true] else AddOne(p) + [false]
  }

  /** Below the top value `addOne` increments the encoded number; at the
      top value it wraps around to zero. */
  lemma {:induction false} AddOneIncrements(b: seq<bool>)
    ensures BitsToNat(b) + 1 < Pow2(|b|) ==> BitsToNat(AddOne(b)) == BitsToNat(b) + 1
    ensures BitsToNat(b) + 1 == Pow2(|b|) ==> BitsToNat(AddOne(b)) == 0
  {
    if b != [] {
      var p := b[..|b| - 1];
      BitsToNatBound(p);
      if !b[|b| - 1] {
        BitsToNatSnoc(p, true);
      } else {
        AddOneIncrements(p);
        BitsToNatSnoc(AddOne(p), false);
      }
    }
  }

  /** The all-false array the counter starts from. */
  function Zeros(n: nat): (r: seq<bool>)
    ensures |r| == n && BitsToNat(r) == 0
  {
    if n == 0 then []
    else
      BitsToNatSnoc(Zeros(n - 1), false);
      Zeros(n - 1) + [false]
  }

  /** The array after `k` calls of `addOne` starting from all false. */
  function Count(n: nat, k: nat): (r: seq<bool>)
    ensures |r| == n
  {
    if k == 0 then Zeros(n) else AddOne(Count(n, k - 1))
  }

  /** After `k` increments from zero (k below `2^n`) the array encodes `k`. */
  lemma {:induction false} CountEncodes(n: nat, k: nat)
    requires k < Pow2(n)
    ensures BitsToNat(Count(n, k)) == k
  {
    if k > 0 {
      CountEncodes(n, k - 1);
      CountStep(n, k);
      AddOneIncrements(Count(n, k - 1));
    }
  }

  /** Exactly `2^n` increments bring the counter back to all false. */
  lemma {:induction false} CountWrapsAround(n: nat)
    ensures Count(n, Pow2(n)) == Zeros(n)
  {
    var k := Pow2(n);
    CountEncodes(n, k - 1);
    CountStep(n, k);
    AddOneIncrements(Count(n, k - 1));
    BitsInjective(Count(n, k), Zeros(n));
  }

  /** One more call of `addOne`; kept apart so that callers see the
      unfolding of `Count` without the contract of `addOne`. */
  lemma CountStep(n: nat, k: nat)
    requires k > 0
    ensures Count(n, k) == AddOne(Count(n, k - 1))
  {
  }

  /** Two arrays of one length encoding the same number are equal. */
  lemma BitsInjective(a: seq<bool>, b: seq<bool>)
    requires |a| == |b| && BitsToNat(a) == BitsToNat(b)
    ensures a == b
  {
    BitsToNatToBits(a);
    BitsToNatToBits(b);
  }

  /** The `n`-bit big-endian encoding of `v` modulo `2^n`. */
  function NatToBits(v: nat, n: nat): (r: seq<bool>)
    ensures |r| == n
  {
    if n == 0 then [] else NatToBits(v / 2, n - 1) + [v % 2 == 1]
  }

  lemma {:induction false} NatToBitsToNat(v: nat, n: nat)
    requires v < Pow2(n)
    ensures BitsToNat(NatToBits(v, n)) == v
  {
    if n > 0 {
      NatToBitsToNat(v / 2, n - 1);
      BitsToNatSnoc(NatToBits(v / 2, n - 1), v % 2 == 1);
    }
  }

  lemma {:induction false} BitsToNatToBits(b: seq<bool>)
    ensures NatToBits(BitsToNat(b), |b|) == b
  {
    if b != [] {
      var p := b[..|b| - 1];
      BitsToNatToBits(p);
      assert BitsToNat(b) / 2 == BitsToNat(p);
      assert b == p + [b[|b| - 1]];
    }
  }

  /** The counter walks through the encodings in order: after `k`
      increments (k below `2^n`) the array is the encoding of `k`. */
  lemma CountIsNatToBits(n: nat, k: nat)
    requires k < Pow2(n)
    ensures Count(n, k) == NatToBits(k, n)
  {
    CountEncodes(n, k);
    BitsToNatToBits(Count(n, k));
    assert Count(n, k) == NatToBits(BitsToNat(Count(n, k)), n);
  }

  /** A pattern encoding a non-zero number has a set bit. */
  lemma {:induction false} NonZeroHasSetBit(b: seq<bool>)
    requires BitsToNat(b) != 0
    ensures exists j :: 0 <= j < |b| && b[j]
  {
    if !b[|b| - 1] {
      NonZeroHasSetBit(b[..|b| - 1]);
      var j :| 0 <= j < |b| - 1 && b[..|b| - 1][j];
      assert b[j];
    }
  }

  /** The encoding of `2^m` sets exactly the bit at index `n - 1 - m`. */
  lemma {:induction false} PowerOfTwoBits(m: nat, n: nat, i: int)
    requires m < n && 0 <= i < n
    ensures NatToBits(Pow2(m), n)[i] <==> i == n - 1 - m
  {
    if m == 0 {
      if i < n - 1 {
        ZeroBits(n - 1, i);
      }
    } else {
      assert Pow2(m) / 2 == Pow2(m - 1) && Pow2(m) % 2 == 0;
      if i < n - 1 {
        PowerOfTwoBits(m - 1, n - 1, i);
      }
    }
  }

  lemma {:induction false} ZeroBits(n: nat, i: int)
    requires 0 <= i < n
    ensures !NatToBits(0, n)[i]
  {
    if i < n - 1 {
      ZeroBits(n - 1, i);
    }
  }
}
