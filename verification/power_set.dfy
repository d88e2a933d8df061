/** `computePowerSet`: the sentinel `EMPTY` followed by one merged state per
    non-zero pattern of the bit counter, sorted by `State.compareTo`. */
module PowerSet {
  import opened Results
  import opened States
  import opened StateSort
  import opened BitCounter

  const INT_MIN: int := -0x8000_0000
  const INT_RANGE: int := 0x1_0000_0000

  /** A mathematical integer reduced to Java's 32-bit `int`. */
  function WrapInt32(x: int): (r: int)
    ensures INT_MIN <= r < -INT_MIN
    ensures INT_MIN <= x < -INT_MIN ==> r == x
    ensures (r - x) % INT_RANGE == 0
  {
    (x - INT_MIN) % INT_RANGE + INT_MIN
  }

  /** Java's `1 << n` on an `int`: the shift distance is taken modulo 32,
      and a shift into bit 31 gives the most negative `int`. */
  function ShiftLeftOne(n: nat): int
  {
    var d := n % 32;
    if d == 31 then INT_MIN else Pow2(d)
  }

  /** `numIterations = (1 << states.size()) - 1` with `int` arithmetic. */
  function IterationCount(n: nat): int
  {
    WrapInt32(ShiftLeftOne(n) - 1)
  }

  lemma Pow2Constants()
    ensures Pow2(30) == 0x4000_0000 && Pow2(31) == 0x8000_0000
  {
    assert Pow2(4) == 16;
    assert Pow2(8) == 256;
    assert Pow2(12) == 4096;
    assert Pow2(16) == 65536;
    assert Pow2(20) == 1048576;
    assert Pow2(24) == 16777216;
    assert Pow2(28) == 268435456;
  }

  /** The loop runs `2^(n mod 32) - 1` times: for 31 states the wrapped
      subtraction lands on the right value again, but from 32 states on the
      shift distance wraps. */
  lemma IterationCountValue(n: nat)
    ensures IterationCount(n) == Pow2(n % 32) - 1
  {
    var d := n % 32;
    Pow2Constants();
    if d < 31 {
      Pow2Monotonic(d, 30);
    } else {
      assert ShiftLeftOne(n) - 1 == INT_MIN - 1;
    }
  }

  /** The union of the names of the states whose bit is set. */
  function SelectedNames(states: seq<State>, bits: seq<bool>): set<string>
  {
    set j, name | 0 <= j < |bits| && j < |states| && bits[j] && name in states[j].names :: name
  }

  /** The state the `k`-th pattern of the counter selects. */
  function PatternState(states: seq<State>, k: nat): State
  {
    State(SelectedNames(states, NatToBits(k, |states|)))
  }

  /** The names selected by the counter after `v` increments. */
  function CounterNames(states: seq<State>, v: nat): set<string>
  {
    SelectedNames(states, Count(|states|, v))
  }

  /** The states `pick(done + 1) .. pick(done + k)`, in order. */
  function Picked(pick: nat -> State, done: nat, k: nat): (r: seq<State>)
    ensures |r| == k
    decreases k
  {
    if k == 0 then [] else [pick(done + 1)] + Picked(pick, done + 1, k - 1)
  }

  /** Two choices agreeing on `done + 1 .. done + k` pick the same list. */
  lemma {:induction false} PickedAgree(p: nat -> State, q: nat -> State, done: nat, k: nat)
    requires forall v :: done < v <= done + k ==> p(v) == q(v)
    ensures Picked(p, done, k) == Picked(q, done, k)
    decreases k
  {
    if k > 0 {
      PickedAgree(p, q, done + 1, k - 1);
    }
  }

  function CounterState(states: seq<State>): nat -> State
  {
    (v: nat) => State(CounterNames(states, v))
  }

  function PatternOf(states: seq<State>): nat -> State
  {
    (v: nat) => PatternState(states, v)
  }

  /** The states of the counter values `done + 1 .. done + k`, in order. */
  function CounterStates(states: seq<State>, done: nat, k: nat): seq<State>
  {
    Picked(CounterState(states), done, k)
  }

  /** The states of the patterns `done + 1 .. done + k`, in order. */
  function PatternStates(states: seq<State>, done: nat, k: nat): seq<State>
  {
    Picked(PatternOf(states), done, k)
  }

  /** `k` iterations of the `computePowerSet` loop from the array `bits`:
      each increments the array and then turns it into a state with
      `select`, stopping at the first failure. */
  function Iterate(select: seq<bool> -> Result<State>, bits: seq<bool>, k: nat): Result<seq<State>>
    decreases k
  {
    if k == 0 then Success([])
    else
      var next := AddOne(bits);
      var first :- select(next);
      var rest :- Iterate(select, next, k - 1);
      Success([first] + rest)
  }

  /** `select` accepts the counter after each of `done + 1 .. done + k`
      increments. */
  ghost predicate Accepts(select: seq<bool> -> Result<State>, n: nat, done: nat, k: nat)
  {
    forall v :: done < v <= done + k ==> select(Count(n, v)).Success?
  }

  lemma AcceptsStep(select: seq<bool> -> Result<State>, n: nat, done: nat, k: nat)
    requires k > 0
    ensures Accepts(select, n, done, k)
        <==> select(Count(n, done + 1)).Success? && Accepts(select, n, done + 1, k - 1)
  {
  }

  /** Started from the counter after `done` increments, the loop succeeds
      exactly when `select` accepts every counter value it visits. */
  lemma {:induction false} IterateSucceeds(select: seq<bool> -> Result<State>, n: nat, done: nat, k: nat)
    ensures Iterate(select, Count(n, done), k).Success? <==> Accepts(select, n, done, k)
    decreases k
  {
    if k > 0 {
      CountStep(n, done + 1);
      AcceptsStep(select, n, done, k);
      IterateSucceeds(select, n, done + 1, k - 1);
    }
  }

  /** When `select` gives `pick(v)` for every counter value `v` visited, the
      loop lists those states in order. */
  lemma {:induction false} IterateValue(select: seq<bool> -> Result<State>, pick: nat -> State, n: nat, done: nat, k: nat)
    requires forall v :: done < v <= done + k ==> select(Count(n, v)) == Success(pick(v))
    ensures Iterate(select, Count(n, done), k) == Success(Picked(pick, done, k))
    decreases k
  {
    if k > 0 {
      CountStep(n, done + 1);
      IterateValue(select, pick, n, done + 1, k - 1);
    }
  }

  /** `State.of` applied to the names an array selects. */
  function SelectState(states: seq<State>): seq<bool> -> Result<State>
  {
    bits => Of(SelectedNames(states, bits))
  }

  /** The unsorted `subsets` list: `k` loop iterations from the all-false
      array. */
  function SubsetStates(states: seq<State>, k: nat): Result<seq<State>>
  {
    Iterate(SelectState(states), Zeros(|states|), k)
  }

  /** The loop succeeds exactly when every counter value it visits selects
      some name, and then lists the states of those values in order. */
  lemma SubsetStatesMeaning(states: seq<State>, k: nat)
    ensures SubsetStates(states, k).Success?
        <==> forall v :: 0 < v <= k ==> CounterNames(states, v) != {}
    ensures SubsetStates(states, k).Failure? ==> SubsetStates(states, k).error == EmptyState
    ensures SubsetStates(states, k).Success? ==> SubsetStates(states, k).value == CounterStates(states, 0, k)
  {
    var n, select := |states|, SelectState(states);
    assert Count(n, 0) == Zeros(n);
    IterateSucceeds(select, n, 0, k);
    forall v | 0 < v <= k
      ensures select(Count(n, v)) == Of(CounterNames(states, v))
    {
    }
    if SubsetStates(states, k).Success? {
      IterateValue(select, CounterState(states), n, 0, k);
    } else {
      IterateFailure(select, n, 0, k);
    }
  }

  /** A failing loop reports the error of the first rejected array. */
  lemma {:induction false} IterateFailure(select: seq<bool> -> Result<State>, n: nat, done: nat, k: nat)
    requires Iterate(select, Count(n, done), k).Failure?
    ensures exists v :: (done < v <= done + k && select(Count(n, v)).Failure?
        && Iterate(select, Count(n, done), k).error == select(Count(n, v)).error)
    decreases k
  {
    CountStep(n, done + 1);
    if select(Count(n, done + 1)).Success? {
      IterateFailure(select, n, done + 1, k - 1);
    }
  }

  /** The whole of `computePowerSet` for a given number of loop iterations. */
  function PowerSetWith(states: seq<State>, iterations: nat): (r: Result<seq<State>>)
    ensures r.Success? <==> forall v :: 0 < v <= iterations ==> CounterNames(states, v) != {}
    ensures r.Failure? ==> r.error == EmptyState
  {
    var subsets := SubsetStates(states, iterations);
    SubsetStatesMeaning(states, iterations);
    if subsets.Failure? then Failure(subsets.error)
    else Success([EMPTY] + Sort(subsets.value))
  }

  /** A successful run lists `EMPTY` and then the states of the counter
      values `1 .. iterations`, sorted. */
  lemma PowerSetWithContents(states: seq<State>, iterations: nat)
    requires PowerSetWith(states, iterations).Success?
    ensures var list := PowerSetWith(states, iterations).value;
      && |list| == iterations + 1 && list[0] == EMPTY && Sorted(list[1..])
      && IsPermutation(list[1..], CounterStates(states, 0, iterations))
  {
    SubsetStatesMeaning(states, iterations);
    var sorted := Sort(SubsetStates(states, iterations).value);
    assert ([EMPTY] + sorted)[1..] == sorted;
  }

  /** `computePowerSet` as written, with the `int` iteration count. */
  function ComputePowerSetAsWritten(states: seq<State>): (r: Result<seq<State>>)
    ensures r.Success? <==> forall v :: 0 < v <= LoopIterations(|states|) ==> CounterNames(states, v) != {}
    ensures r.Failure? ==> r.error == EmptyState
    ensures r.Success? ==> |r.value| == LoopIterations(|states|) + 1 && r.value[0] == EMPTY && Sorted(r.value[1..])
  {
    var iterations := LoopIterations(|states|);
    var r := PowerSetWith(states, iterations);
    if r.Success? then PowerSetWithContents(states, iterations); r else r
  }

  /** A `for` loop up to a negative `numIterations` runs zero times. */
  function LoopIterations(n: nat): nat
  {
    var count := IterationCount(n);
    if count < 0 then 0 else count
  }

  /** `computePowerSet` with the iteration count its comment intends,
      `2^N - 1`: the list holds `EMPTY` and then, in sorted order, the state
      of every non-zero pattern `1 .. 2^N - 1`. It fails exactly when some
      original state has no names, because that state alone is selected by
      one of the patterns and `State.of` rejects the empty set. */
  function ComputePowerSet(states: seq<State>): (r: Result<seq<State>>)
    ensures r.Success? <==> forall j :: 0 <= j < |states| ==> states[j].names != {}
    ensures r.Failure? ==> r.error == EmptyState
  {
    PatternsNonEmptyIff(states);
    PowerSetWith(states, Pow2(|states|) - 1)
  }

  /** A successful `computePowerSet` lists `EMPTY` and then, sorted, the
      state of every non-zero pattern: `2^N` states in all. */
  lemma ComputePowerSetContents(states: seq<State>)
    requires ComputePowerSet(states).Success?
    ensures var list := ComputePowerSet(states).value;
      && |list| == Pow2(|states|) && list[0] == EMPTY && Sorted(list[1..])
      && IsPermutation(list[1..], PatternStates(states, 0, Pow2(|states|) - 1))
  {
    var k := Pow2(|states|) - 1;
    PowerSetWithContents(states, k);
    CounterStatesArePatterns(states, 0, k);
  }

  /** Below `2^N` increments the counter selects exactly the pattern of the
      increment count. */
  lemma CounterStatesArePatterns(states: seq<State>, done: nat, k: nat)
    requires done + k < Pow2(|states|)
    ensures CounterStates(states, done, k) == PatternStates(states, done, k)
  {
    forall v | done < v <= done + k
      ensures CounterState(states)(v) == PatternOf(states)(v)
    {
      CountIsNatToBits(|states|, v);
    }
    PickedAgree(CounterState(states), PatternOf(states), done, k);
  }

  /** Every non-zero pattern selects a non-empty name set exactly when no
      original state is empty. */
  lemma PatternsNonEmptyIff(states: seq<State>)
    ensures (forall v :: 0 < v <= Pow2(|states|) - 1 ==> CounterNames(states, v) != {})
        <==> (forall j :: 0 <= j < |states| ==> states[j].names != {})
  {
    if forall j :: 0 <= j < |states| ==> states[j].names != {} {
      forall v | 0 < v <= Pow2(|states|) - 1
        ensures CounterNames(states, v) != {}
      {
        NonEmptyStatesSelectSomething(states, v);
      }
    } else {
      var j :| 0 <= j < |states| && states[j].names == {};
      EmptyStateSelectedAlone(states, j);
    }
  }

  lemma NonEmptyStatesSelectSomething(states: seq<State>, v: nat)
    requires forall j :: 0 <= j < |states| ==> states[j].names != {}
    requires 0 < v < Pow2(|states|)
    ensures CounterNames(states, v) != {}
  {
    var bits := Count(|states|, v);
    CountEncodes(|states|, v);
    NonZeroHasSetBit(bits);
    var j :| 0 <= j < |states| && bits[j];
    var name :| name in states[j].names;
    assert name in SelectedNames(states, bits);
  }

  /** The pattern `2^(N-1-j)` selects state `j` alone. */
  lemma EmptyStateSelectedAlone(states: seq<State>, j: int)
    requires 0 <= j < |states| && states[j].names == {}
    ensures 0 < Pow2(|states| - 1 - j) <= Pow2(|states|) - 1
    ensures CounterNames(states, Pow2(|states| - 1 - j)) == {}
  {
    var n := |states|;
    var m := n - 1 - j;
    Pow2Monotonic(m, n - 1);
    var v := Pow2(m);
    CountIsNatToBits(n, v);
    var bits := Count(n, v);
    forall k | 0 <= k < n
      ensures bits[k] <==> k == j
    {
      PowerOfTwoBits(m, n, k);
    }
    assert SelectedNames(states, bits) == {};
  }

  /** Below 32 states the code as written computes the intended list. */
  lemma AsWrittenAgreesBelow32(states: seq<State>)
    requires |states| < 32
    ensures ComputePowerSetAsWritten(states) == ComputePowerSet(states)
  {
    LoopIterationsBelow32(|states|);
    AgreeOnEqualCounts(states, LoopIterations(|states|), Pow2(|states|) - 1);
  }

  /** `asWritten` and `intended` name the two loop counts, so that the
      solver compares them as plain numbers instead of unfolding both. */
  lemma AgreeOnEqualCounts(states: seq<State>, asWritten: nat, intended: nat)
    requires asWritten == LoopIterations(|states|) && intended == Pow2(|states|) - 1
    requires asWritten == intended
    ensures ComputePowerSetAsWritten(states) == ComputePowerSet(states)
  {
  }

  lemma LoopIterationsBelow32(n: nat)
    requires n < 32
    ensures LoopIterations(n) == Pow2(n) - 1
  {
    assert n % 32 == n;
    LoopIterationsUnwrapped(n, n % 32);
  }

  /** When the shift distance does not wrap, the loop runs `2^n - 1` times.
      `d` names the masked shift distance, so that the solver sees it equal
      to `n` without reasoning about `%` again. */
  lemma LoopIterationsUnwrapped(n: nat, d: nat)
    requires d == n % 32 && d == n
    ensures LoopIterations(n) == Pow2(n) - 1
  {
    IterationCountValue(n);
  }

  /** With 32 states the shift distance wraps to zero, the loop never runs
      and the list holds `EMPTY` alone instead of `2^32` entries. */
  lemma AsWrittenWrapsAt32(states: seq<State>)
    requires |states| == 32
    ensures ComputePowerSetAsWritten(states) == Success([EMPTY])
  {
    IterationCountValue(|states|);
    assert IterationCount(|states|) == 0;
    assert SubsetStates(states, 0) == Success([]);
    assert Sort([]) == [];
    assert [EMPTY] + [] == [EMPTY];
    assert PowerSetWith(states, 0) == Success([EMPTY]);
  }
}
