/** `Collections.sort` on a list of states ordered by `State.compareTo`:
    a stable sort, modelled as insertion sort. */
module StateSort {
  import opened States

  predicate Sorted(s: seq<State>) {
    forall i :: 0 <= i < |s| - 1 ==> CompareTo(s[i], s[i + 1]) <= 0
  }

  /** `a` and `b` hold the same states, each as often. */
  predicate IsPermutation(a: seq<State>, b: seq<State>) {
    multiset(a) == multiset(b)
  }

  /** Inserts `x` after every element that does not compare greater than it,
      so that equal elements keep their original order. */
  function Insert(x: State, s: seq<State>): (r: seq<State>)
    requires Sorted(s)
    ensures Sorted(r)
    ensures multiset(r) == multiset(s) + multiset{x}
    ensures |r| == |s| + 1
    ensures r[0] == x || (|s| > 0 && r[0] == s[0])
  {
    if s == [] then [x]
    else if CompareTo(x, s[0]) < 0 then
      SortedCons(x, s);
      [x] + s
    else
      CompareToAntisymmetric(x, s[0]);
      SortedTail(s);
      var rest := Insert(x, s[1..]);
      SortedCons(s[0], rest);
      assert multiset([s[0]] + rest) == multiset(s) + multiset{x} by {
        assert s == [s[0]] + s[1..];
        assert multiset([s[0]] + rest) == multiset{s[0]} + multiset(rest);
      }
      [s[0]] + rest
  }

  lemma SortedTail(s: seq<State>)
    requires Sorted(s) && s != []
    ensures Sorted(s[1..])
  {
    forall i | 0 <= i < |s| - 2
      ensures CompareTo(s[1..][i], s[1..][i + 1]) <= 0
    {
      assert s[1..][i] == s[i + 1] && s[1..][i + 1] == s[i + 2];
    }
  }

  /** A state no greater than the head of a sorted list extends it. */
  lemma SortedCons(y: State, s: seq<State>)
    requires Sorted(s)
    requires s != [] ==> CompareTo(y, s[0]) <= 0
    ensures Sorted([y] + s)
  {
    var r := [y] + s;
    forall i | 0 <= i < |r| - 1
      ensures CompareTo(r[i], r[i + 1]) <= 0
    {
      if i > 0 {
        assert r[i] == s[i - 1] && r[i + 1] == s[i];
      }
    }
  }

  /** The sorted permutation of `s`. */
  function Sort(s: seq<State>): (r: seq<State>)
    ensures Sorted(r)
    ensures IsPermutation(r, s)
    ensures |r| == |s|
  {
    if s == [] then []
    else
      assert s == s[..|s| - 1] + [s[|s| - 1]];
      Insert(s[|s| - 1], Sort(s[..|s| - 1]))
  }

  /** The elements of `s` that compare equal to `x`, in their order in
      `s`. Distinct states can compare equal (same size, same display
      string), so this is what a stable sort must keep. */
  function Ties(s: seq<State>, x: State): seq<State>
  {
    if s == [] then []
    else Tie(s[0], x) + Ties(s[1..], x)
  }

  /** `[y]` when `y` compares equal to `x`, otherwise nothing. */
  function Tie(y: State, x: State): seq<State>
  {
    if CompareTo(y, x) == 0 then [y] else []
  }

  lemma {:induction false} TiesAppend(a: seq<State>, b: seq<State>, x: State)
    ensures Ties(a + b, x) == Ties(a, x) + Ties(b, x)
  {
    if a != [] {
      assert (a + b)[0] == a[0] && (a + b)[1..] == a[1..] + b;
      TiesAppend(a[1..], b, x);
      calc {
        Ties(a + b, x);
        Tie(a[0], x) + Ties(a[1..] + b, x);
        Tie(a[0], x) + (Ties(a[1..], x) + Ties(b, x));
        { ConcatAssoc(Tie(a[0], x), Ties(a[1..], x), Ties(b, x)); }
        (Tie(a[0], x) + Ties(a[1..], x)) + Ties(b, x);
      }
    } else {
      assert a + b == b;
    }
  }

  lemma ConcatAssoc(a: seq<State>, b: seq<State>, c: seq<State>)
    ensures a + (b + c) == (a + b) + c
  {
  }

  /** A list none of whose states compares equal to `x` has no ties with it. */
  lemma {:induction false} NoTies(s: seq<State>, x: State)
    requires forall i :: 0 <= i < |s| ==> CompareTo(s[i], x) != 0
    ensures Ties(s, x) == []
  {
    if s != [] {
      NoTies(s[1..], x);
    }
  }

  /** States that compare equal to one another compare alike to everything
      else: `compareTo` sees only the size and the display string. */
  lemma TiedAlike(a: State, b: State, c: State)
    requires CompareTo(a, b) == 0
    ensures CompareTo(c, a) <= 0 <==> CompareTo(c, b) <= 0
  {
  }

  /** Nothing in a sorted list that starts above `y` ties with `y`. */
  lemma NoTiesAbove(y: State, s: seq<State>, x: State)
    requires Sorted(s) && s != [] && CompareTo(y, s[0]) < 0
    requires CompareTo(y, x) == 0
    ensures Ties(s, x) == []
  {
    forall i | 0 <= i < |s| ensures CompareTo(s[i], x) != 0 {
      if CompareTo(s[i], x) == 0 {
        SortedPairwise(s, 0, i);
        CompareToAntisymmetric(s[i], x);
        CompareToAntisymmetric(y, x);
        TiedAlike(s[i], y, s[0]);
        CompareToAntisymmetric(y, s[0]);
        assert false;
      }
    }
    NoTies(s, x);
  }

  /** `Insert` puts the new state after every state it ties with. */
  lemma {:induction false} InsertTies(y: State, s: seq<State>, x: State)
    requires Sorted(s)
    ensures Ties(Insert(y, s), x) == Ties(s, x) + Tie(y, x)
  {
    if s == [] {
      assert Insert(y, s) == [y];
      assert Ties([y], x) == Tie(y, x) + Ties([], x);
    } else if CompareTo(y, s[0]) < 0 {
      InsertTiesFront(y, s, x);
    } else {
      SortedTail(s);
      InsertTies(y, s[1..], x);
      InsertTiesPast(y, s, x);
    }
  }

  lemma InsertTiesFront(y: State, s: seq<State>, x: State)
    requires Sorted(s) && s != [] && CompareTo(y, s[0]) < 0
    ensures Ties(Insert(y, s), x) == Ties(s, x) + Tie(y, x)
  {
    assert Insert(y, s) == [y] + s;
    assert ([y] + s)[1..] == s;
    assert Ties([y] + s, x) == Tie(y, x) + Ties(s, x);
    if CompareTo(y, x) == 0 {
      NoTiesAbove(y, s, x);
    }
  }

  lemma InsertTiesPast(y: State, s: seq<State>, x: State)
    requires Sorted(s) && s != [] && CompareTo(y, s[0]) >= 0 && Sorted(s[1..])
    requires Ties(Insert(y, s[1..]), x) == Ties(s[1..], x) + Tie(y, x)
    ensures Ties(Insert(y, s), x) == Ties(s, x) + Tie(y, x)
  {
    var rest := Insert(y, s[1..]);
    assert Insert(y, s) == [s[0]] + rest;
    assert ([s[0]] + rest)[1..] == rest;
    calc {
      Ties([s[0]] + rest, x);
      Tie(s[0], x) + Ties(rest, x);
      Tie(s[0], x) + (Ties(s[1..], x) + Tie(y, x));
      { ConcatAssoc(Tie(s[0], x), Ties(s[1..], x), Tie(y, x)); }
      (Tie(s[0], x) + Ties(s[1..], x)) + Tie(y, x);
      Ties(s, x) + Tie(y, x);
    }
  }

  /** `Collections.sort` is stable: the states that compare equal to any
      given state come out in the order they went in. */
  lemma {:induction false} SortStable(s: seq<State>, x: State)
    ensures Ties(Sort(s), x) == Ties(s, x)
  {
    if s != [] {
      var init, last := s[..|s| - 1], s[|s| - 1];
      assert s == init + [last];
      var sorted := Sort(init);
      assert Sort(s) == Insert(last, sorted);
      SortStable(init, x);
      InsertTies(last, sorted, x);
      TiesAppend(init, [last], x);
      assert Ties([last], x) == Tie(last, x) + Ties([], x);
    }
  }

  /** A sorted list is sorted in the pairwise sense too, because
      `compareTo` is transitive. */
  lemma {:induction false} SortedPairwise(s: seq<State>, i: int, j: int)
    requires Sorted(s)
    requires 0 <= i <= j < |s|
    ensures CompareTo(s[i], s[j]) <= 0
    decreases j - i
  {
    if i == j {
      CompareToReflexive(s[i]);
    } else {
      SortedPairwise(s, i + 1, j);
      CompareToTransitive(s[i], s[i + 1], s[j]);
    }
  }
}
