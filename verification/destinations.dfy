/** The two state computations `computeTransitions` performs on the
    original transitions: the merged epsilon closure of a dequeued state and
    the destination of a state on a symbol. */
module Destinations {
  import opened States
  import opened Transitions
  import opened EpsilonClosure
  import opened Merging

  /** All names occurring in end states of `ts`. */
  function EndNames(ts: seq<Transition>): set<string>
  {
    set k, n | 0 <= k < |ts| && n in ts[k].end.names :: n
  }

  /** `mergeStates(computeEpsilonClosure(x))`: the state standing for the
      epsilon closure of `x`; it never fails because a closure holds `x`. */
  function StartState(ts: seq<Transition>, x: State): (r: State)
    ensures r.names == UnionNames(Closure(ts, x))
    ensures x.names <= r.names <= x.names + EndNames(ts)
  {
    var c := Closure(ts, x);
    var r := MergeStates(c).value;
    assert forall n :: n in r.names && n !in x.names ==> n in EndNames(ts);
    r
  }

  /** Transition `k` of `ts` reads `symbol` from the one-name state of
      some name of `start`. */
  ghost predicate Moves(ts: seq<Transition>, start: State, symbol: string, k: int)
    requires 0 <= k < |ts|
  {
    exists n :: n in start.names && Matches(ts[k], OfName(n), symbol)
  }

  /** The `endStates` set of one symbol: the closures of the ends of all
      transitions on `symbol` leaving the one-name state of a name of `start`. */
  function EndStates(ts: seq<Transition>, start: State, symbol: string): set<State>
  {
    set n, k, y | n in start.names && 0 <= k < |ts| && Matches(ts[k], OfName(n), symbol)
                  && y in Closure(ts, ts[k].end) :: y
  }

  lemma EndStatesMembers(ts: seq<Transition>, start: State, symbol: string, y: State)
    ensures y in EndStates(ts, start, symbol) <==>
              exists k :: 0 <= k < |ts| && Moves(ts, start, symbol, k) && y in Closure(ts, ts[k].end)
  {
    if exists k :: 0 <= k < |ts| && Moves(ts, start, symbol, k) && y in Closure(ts, ts[k].end) {
      var k :| 0 <= k < |ts| && Moves(ts, start, symbol, k) && y in Closure(ts, ts[k].end);
      var n :| n in start.names && Matches(ts[k], OfName(n), symbol);
    }
  }

  /** Some original transition on `symbol` leaves a name of `start`. */
  ghost predicate HasMove(ts: seq<Transition>, start: State, symbol: string) {
    exists k :: 0 <= k < |ts| && Moves(ts, start, symbol, k)
  }

  /** The destination state for (`start`, `symbol`): `EMPTY` when nothing
      was collected, otherwise the merge of everything collected. */
  function Destination(ts: seq<Transition>, start: State, symbol: string): (r: State)
    ensures r.names == UnionNames(EndStates(ts, start, symbol))
    ensures r == EMPTY <==> UnionNames(EndStates(ts, start, symbol)) == {}
  {
    var ends := EndStates(ts, start, symbol);
    if ends == {} then EMPTY else MergeStates(ends).value
  }

  /** The destination holds exactly the names of the states
      epsilon-reachable from the end of a transition on `symbol` that leaves
      a name of `start`. */
  lemma DestinationNames(ts: seq<Transition>, start: State, symbol: string, name: string)
    ensures name in Destination(ts, start, symbol).names <==>
              exists k, y :: 0 <= k < |ts| && Moves(ts, start, symbol, k)
                             && EpsReachable(ts, ts[k].end, y) && name in y.names
  {
    if name in Destination(ts, start, symbol).names {
      DestinationNameHasSource(ts, start, symbol, name);
    }
    if exists k, y :: 0 <= k < |ts| && Moves(ts, start, symbol, k)
                      && EpsReachable(ts, ts[k].end, y) && name in y.names {
      var k, y :| 0 <= k < |ts| && Moves(ts, start, symbol, k)
                  && EpsReachable(ts, ts[k].end, y) && name in y.names;
      ReachedNameInDestination(ts, start, symbol, k, y, name);
    }
  }

  lemma DestinationNameHasSource(ts: seq<Transition>, start: State, symbol: string, name: string)
    requires name in Destination(ts, start, symbol).names
    ensures exists k, y :: 0 <= k < |ts| && Moves(ts, start, symbol, k)
                           && EpsReachable(ts, ts[k].end, y) && name in y.names
  {
    var ends := EndStates(ts, start, symbol);
    assert name in UnionNames(ends);
    var y :| y in ends && name in y.names;
    EndStatesMembers(ts, start, symbol, y);
    var k :| 0 <= k < |ts| && Moves(ts, start, symbol, k) && y in Closure(ts, ts[k].end);
    assert EpsReachable(ts, ts[k].end, y);
  }

  lemma ReachedNameInDestination(ts: seq<Transition>, start: State, symbol: string, k: int, y: State, name: string)
    requires 0 <= k < |ts| && Moves(ts, start, symbol, k)
    requires EpsReachable(ts, ts[k].end, y) && name in y.names
    ensures name in Destination(ts, start, symbol).names
  {
    var ends := EndStates(ts, start, symbol);
    assert y in Closure(ts, ts[k].end);
    EndStatesMembers(ts, start, symbol, y);
    assert y in ends;
    assert name in UnionNames(ends);
  }

  /** With no transition on `symbol` out of `start` the destination is `EMPTY`. */
  lemma DestinationWithoutMove(ts: seq<Transition>, start: State, symbol: string)
    requires !HasMove(ts, start, symbol)
    ensures Destination(ts, start, symbol) == EMPTY
  {
    forall y | y in EndStates(ts, start, symbol) ensures false {
      EndStatesMembers(ts, start, symbol, y);
    }
  }

  /** A transition on `symbol` out of `start` into a state with names makes
      the destination a state other than `EMPTY`. */
  lemma DestinationWithMove(ts: seq<Transition>, start: State, symbol: string, k: int)
    requires 0 <= k < |ts| && Moves(ts, start, symbol, k)
    requires ts[k].end.names != {}
    ensures Destination(ts, start, symbol) != EMPTY
  {
    var ends := EndStates(ts, start, symbol);
    assert ts[k].end in Closure(ts, ts[k].end);
    EndStatesMembers(ts, start, symbol, ts[k].end);
    var name :| name in ts[k].end.names;
    assert name in UnionNames(ends);
  }

  /** Destinations only ever hold names of end states of `ts`. */
  lemma DestinationBounded(ts: seq<Transition>, start: State, symbol: string)
    ensures Destination(ts, start, symbol).names <= EndNames(ts)
  {
    forall name | name in Destination(ts, start, symbol).names
      ensures name in EndNames(ts)
    {
      DestinationNameHasSource(ts, start, symbol, name);
      var k, y :| 0 <= k < |ts| && Moves(ts, start, symbol, k)
                  && EpsReachable(ts, ts[k].end, y) && name in y.names;
      ReachedNameIsEndName(ts, k, y, name);
    }
  }

  lemma ReachedNameIsEndName(ts: seq<Transition>, k: int, y: State, name: string)
    requires 0 <= k < |ts| && EpsReachable(ts, ts[k].end, y) && name in y.names
    ensures name in EndNames(ts)
  {
    assert y in Closure(ts, ts[k].end);
    if y == ts[k].end {
      assert name in ts[k].end.names;
    } else {
      var j :| 0 <= j < |ts| && ts[j].end == y;
      assert name in ts[j].end.names;
    }
  }

  /** `StartState` as a value, for the search below. */
  function StartFn(ts: seq<Transition>): (f: State -> State)
    ensures forall x :: f(x) == StartState(ts, x)
  {
    x => StartState(ts, x)
  }

  /** `Destination` as a value, for the search below. */
  function DestinationFn(ts: seq<Transition>): (f: (State, string) -> State)
    ensures forall s, a :: f(s, a) == Destination(ts, s, a)
  {
    (s, a) => Destination(ts, s, a)
  }
}
