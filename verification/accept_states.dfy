/** `computeAcceptStates`: the accept states of the converted automaton. */
module AcceptStates {
  import opened Results
  import opened States
  import opened Transitions
  import opened Merging

  /** A state accepts when it shares a name with the original accept states. */
  function Accepting(s: State, acceptNames: set<string>): (r: bool)
    ensures r <==> exists n :: n in s.names && n in acceptNames
  {
    var common := s.names * acceptNames;
    if common != {} then
      var n :| n in common;
      assert n in s.names && n in acceptNames;
      true
    else
      assert forall n :: n in s.names && n in acceptNames ==> n in common;
      false
  }

  /** `s` is the start or the end of transition `k` of `ts`. */
  ghost predicate Touches(ts: seq<Transition>, s: State, k: int) {
    0 <= k < |ts| && (ts[k].start == s || ts[k].end == s)
  }

  /** `computeAcceptStates`. The original accept states are merged into one
      name set, which fails when there are none; a state of a converted
      transition, start or end, is then accepting exactly when one of its
      names is in that set. */
  method ComputeAcceptStates(dfa: seq<Transition>, accept: set<State>) returns (r: Result<set<State>>)
    ensures r.Success? <==> accept != {}
    ensures r.Failure? ==> r.error == EmptyState
    ensures r.Success? ==> forall s :: s in r.value <==>
              (exists k :: Touches(dfa, s, k)) && Accepting(s, UnionNames(accept))
    ensures r.Success? ==> EMPTY !in r.value
  {
    var merged := MergeStates(accept);
    if merged.Failure? {
      return Failure(merged.error);
    }
    var names := merged.value.names;
    var found: set<State> := {};
    for i := 0 to |dfa|
      invariant forall s :: s in found <==> (exists k :: k < i && Touches(dfa, s, k)) && Accepting(s, names)
    {
      var start, end := dfa[i].start, dfa[i].end;
      if start !in found && Accepting(start, names) {
        found := found + {start};
      }
      if end !in found && Accepting(end, names) {
        found := found + {end};
      }
      assert Touches(dfa, start, i) && Touches(dfa, end, i);
    }
    return Success(found);
  }
}
