/** A state of the automaton: a set of original state names. The source
    interns states in a process-wide cache so that two states are the same
    object exactly when their name sets are equal; here a state is a value
    over its name set, so that identity is plain value equality. */
module States {
  import opened Results
  import opened JavaStrings

  datatype State = State(names: set<string>)

  /** The sentinel "no valid destination" state: the only state without names. */
  const EMPTY: State := State({})

  const EMPTY_NAME: string := "EM"

  /** `State.of(Set)`: the state named by a non-empty set of names. */
  function Of(names: set<string>): (r: Result<State>)
    ensures r.Success? <==> names != {}
    ensures r.Failure? ==> r.error == EmptyState
    ensures r.Success? ==> r.value.names == names && r.value != EMPTY
  {
    if names == {} then Failure(EmptyState) else Success(State(names))
  }

  /** Interning: two successful calls give the same state exactly when the
      name sets are equal. */
  lemma OfIsCanonical(a: set<string>, b: set<string>)
    requires a != {} && b != {}
    ensures Of(a).value == Of(b).value <==> a == b
  {
  }

  /** `State.of(String)`: the state with one name. */
  function OfName(name: string): (r: State)
    ensures Of({name}) == Success(r)
    ensures r.names == {name} && r != EMPTY
  {
    Of({name}).value
  }

  /** The state `Of` never produces is exactly `EMPTY`. */
  lemma OfNeverEmpty(names: set<string>)
    ensures Of(names).Success? ==> Of(names).value != EMPTY
    ensures Of(names).Failure? <==> State(names) == EMPTY
  {
  }

  /** `m` belongs to `names` and no name of `names` is smaller. */
  predicate IsLeast(m: string, names: set<string>) {
    m in names && forall y :: y in names ==> CompareStrings(m, y) <= 0
  }

  /** The smallest name of a non-empty set under `String.compareTo`. */
  function MinName(names: set<string>): (m: string)
    requires names != {}
    ensures m in names
    ensures forall y :: y in names ==> CompareStrings(m, y) <= 0
  {
    MinNameExists(names);
    LeastUnique(names);
    var m :| IsLeast(m, names);
    m
  }

  /** Since `compareTo` is antisymmetric, a set has at most one least name. */
  lemma LeastUnique(names: set<string>)
    ensures forall a, b :: IsLeast(a, names) && IsLeast(b, names) ==> a == b
  {
    forall a, b | IsLeast(a, names) && IsLeast(b, names)
      ensures a == b
    {
      CompareAntisymmetric(a, b);
      CompareZeroIffEqual(a, b);
    }
  }

  /** Every non-empty set of names has a least element. */
  lemma MinNameExists(names: set<string>)
    requires names != {}
    ensures exists m :: IsLeast(m, names)
  {
    var z :| z in names;
    CompareZeroIffEqual(z, z);
    var rest := names - {z};
    if rest == {} {
      assert names == {z};
      assert IsLeast(z, names);
    } else {
      MinNameExists(rest);
      var m :| IsLeast(m, rest);
      if CompareStrings(z, m) <= 0 {
        forall y | y in names
          ensures CompareStrings(z, y) <= 0
        {
          if y != z {
            CompareTransitive(z, m, y);
          }
        }
        assert IsLeast(z, names);
      } else {
        CompareAntisymmetric(z, m);
        assert IsLeast(m, names);
      }
    }
  }

  /** The order in which a state's names are listed in its display name.
      The source lists them in `HashSet` iteration order, which is not
      specified; this model fixes it to ascending `compareTo` order, one
      admissible instance of that order. */
  function Listing(names: set<string>): (r: seq<string>)
    ensures |r| == |names|
    ensures forall i :: 0 <= i < |r| ==> r[i] in names
    ensures forall n :: n in names ==> n in r
    ensures forall i, j :: 0 <= i < j < |r| ==> r[i] != r[j]
    decreases |names|
  {
    if names == {} then []
    else
      var m := MinName(names);
      [m] + Listing(names - {m})
  }

  /** `constructDisplayName`: the names joined by ", " inside braces. Every
      name occurs between the braces, and those hold nothing but the names
      and one ", " between each neighbouring pair. */
  function DisplayName(names: set<string>): (r: string)
    ensures |r| >= 2 && r[0] == '{' && r[|r| - 1] == '}'
    ensures r[1..|r| - 1] == Join(Listing(names), ", ")
    ensures forall n :: n in names ==> Contains(r[1..|r| - 1], n)
    ensures names == {} ==> r == "{}"
    ensures names != {} ==> |r| == 2 + TotalLength(Listing(names)) + 2 * (|names| - 1)
  {
    var r := "{" + Join(Listing(names), ", ") + "}";
    assert r[1..|r| - 1] == Join(Listing(names), ", ");
    ListedNamesJoined(names);
    r
  }

  lemma ListedNamesJoined(names: set<string>)
    ensures forall n :: n in names ==> Contains(Join(Listing(names), ", "), n)
    ensures names != {} ==> |Join(Listing(names), ", ")| == TotalLength(Listing(names)) + 2 * (|names| - 1)
    ensures names == {} ==> Join(Listing(names), ", ") == ""
  {
    var xs := Listing(names);
    JoinContents(xs, ", ");
    forall n | n in names ensures Contains(Join(xs, ", "), n) {
      var i :| 0 <= i < |xs| && xs[i] == n;
    }
  }

  /** `toString`: the display name, or "EM" for the sentinel. */
  function ToString(s: State): (r: string)
    ensures s == EMPTY <==> r == EMPTY_NAME
    ensures s != EMPTY ==> r == DisplayName(s.names)
  {
    if s.names == {} then EMPTY_NAME else DisplayName(s.names)
  }

  /** A one-name state is displayed as its name between braces. */
  lemma SingletonDisplay(name: string)
    ensures ToString(OfName(name)) == "{" + name + "}"
  {
    assert Listing({name}) == [name];
  }

  /** `compareTo`: fewer names first; equally many names are ordered by
      their display strings. */
  function CompareTo(a: State, b: State): (r: int)
    ensures r < 0 <==> |a.names| < |b.names| || (|a.names| == |b.names| && LexLess(ToString(a), ToString(b)))
    ensures r == 0 <==> |a.names| == |b.names| && ToString(a) == ToString(b)
  {
    var sizeDiff := |a.names| - |b.names|;
    CompareZeroIffEqual(ToString(a), ToString(b));
    if sizeDiff == 0 then CompareStrings(ToString(a), ToString(b)) else sizeDiff
  }

  lemma CompareToReflexive(a: State)
    ensures CompareTo(a, a) == 0
  {
    CompareZeroIffEqual(ToString(a), ToString(a));
  }

  lemma CompareToAntisymmetric(a: State, b: State)
    ensures CompareTo(a, b) == -CompareTo(b, a)
    ensures |a.names| < |b.names| ==> CompareTo(a, b) < 0
    ensures CompareTo(a, b) == 0 ==> |a.names| == |b.names| && ToString(a) == ToString(b)
  {
    CompareAntisymmetric(ToString(a), ToString(b));
    CompareZeroIffEqual(ToString(a), ToString(b));
  }

  lemma CompareToTransitive(a: State, b: State, c: State)
    requires CompareTo(a, b) <= 0 && CompareTo(b, c) <= 0
    ensures CompareTo(a, c) <= 0
  {
    if |a.names| == |b.names| == |c.names| {
      CompareTransitive(ToString(a), ToString(b), ToString(c));
    }
  }
}
