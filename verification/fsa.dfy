/** `FSA`: a finite-state automaton and its conversion into a DFA. */
module Automata {
  import opened Results
  import opened States
  import opened Transitions
  import opened Merging
  import opened PowerSet
  import opened Destinations
  import opened SubsetConstruction
  import opened AcceptStates
  import opened EpsilonClosure

  /** An automaton as the source holds it: states in input order, the
      alphabet, the initial state, the accept states, the transitions, and
      whether it already is a DFA. */
  datatype Fsa = Fsa(states: seq<State>, alphabet: seq<string>, initial: State,
                     accept: set<State>, transitions: seq<Transition>, isDfa: bool)

  /** `convertToDFA`. A DFA is returned unchanged. Otherwise the result
      has the power set of the states (sorted after `EMPTY`), the same
      alphabet, the merged epsilon closure of the initial state as initial
      state, one transition per explored state and symbol, and as accept
      states the states of those transitions that share a name with an
      original accept state. It fails when a state has no names or there
      is no accept state. `explored` lists the states the transitions were
      emitted for. */
  method ConvertToDfa(a: Fsa) returns (r: Result<Fsa>, ghost explored: seq<State>, ghost dequeued: seq<State>)
    ensures a.isDfa ==> r == Success(a)
    ensures !a.isDfa ==>
              (r.Success? <==> (forall j :: 0 <= j < |a.states| ==> a.states[j].names != {}) && a.accept != {})
    ensures r.Failure? ==> r.error == EmptyState
    ensures !a.isDfa && r.Success? ==>
              && r.value.isDfa
              && r.value.alphabet == a.alphabet
              && r.value.states == ComputePowerSet(a.states).value
              && r.value.initial == StartState(a.transitions, a.initial)
              && |explored| >= 1 && explored[0] == r.value.initial
              && r.value.transitions == Rows(a.transitions, a.alphabet, explored)
              && |r.value.transitions| == |a.alphabet| * |explored|
    ensures !a.isDfa && r.Success? ==>
              && |dequeued| == |explored| && dequeued[0] == a.initial
              && (forall k :: 0 <= k < |explored| ==> explored[k] == StartState(a.transitions, dequeued[k]))
              && dequeued == Enqueued(DestinationFn(a.transitions), a.alphabet, a.initial, explored)
              && (forall k :: 1 <= k < |dequeued| ==>
                    dequeued[k] in Ends(Rows(a.transitions, a.alphabet, explored[..k])))
              && FifoRun(StartFn(a.transitions), DestinationFn(a.transitions), a.alphabet, a.initial, explored)
    ensures !a.isDfa && r.Success? ==> forall t1, t2 ::
              (t1 in r.value.transitions && t2 in r.value.transitions
               && t1.start == t2.start && t1.symbol == t2.symbol) ==> t1 == t2
    ensures !a.isDfa && r.Success? ==> forall s ::
              s in r.value.accept <==>
                (exists k :: Touches(r.value.transitions, s, k)) && Accepting(s, UnionNames(a.accept))
  {
    explored, dequeued := [], [];
    if a.isDfa {
      return Success(a), explored, dequeued;
    }
    var powerSet := ComputePowerSet(a.states);
    if powerSet.Failure? {
      return Failure(powerSet.error), explored, dequeued;
    }
    var initial := StartState(a.transitions, a.initial);
    var dfa;
    dfa, explored, dequeued := ComputeTransitions(a.transitions, a.alphabet, a.initial);
    var accept := ComputeAcceptStates(dfa, a.accept);
    if accept.Failure? {
      return Failure(accept.error), explored, dequeued;
    }
    RowsLength(a.transitions, a.alphabet, explored);
    RowsDeterministic(a.transitions, a.alphabet, explored);
    r := Success(Fsa(powerSet.value, a.alphabet, initial, accept.value, dfa, true));
  }
}
