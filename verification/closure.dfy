/** `computeEpsilonClosure`: the states reachable from a start state along
    epsilon transitions, computed by the source's stack-based search. */
module EpsilonClosure {
  import opened States
  import opened Transitions

  /** `ts` holds an epsilon transition from `a` to `b`. */
  predicate EpsEdge(ts: seq<Transition>, a: State, b: State) {
    Transition(a, EPSILON, b) in ts
  }

  /** A non-empty walk along epsilon transitions. */
  ghost predicate IsEpsPath(ts: seq<Transition>, p: seq<State>) {
    |p| >= 1 && forall i :: 0 <= i < |p| - 1 ==> EpsEdge(ts, p[i], p[i + 1])
  }

  /** `t` is reachable from `s` by zero or more epsilon transitions. */
  ghost predicate EpsReachable(ts: seq<Transition>, s: State, t: State) {
    exists p :: IsEpsPath(ts, p) && p[0] == s && p[|p| - 1] == t
  }

  /** No epsilon transition leads out of `r`. */
  ghost predicate EpsClosed(ts: seq<Transition>, r: set<State>) {
    forall k :: 0 <= k < |ts| && ts[k].symbol == EPSILON && ts[k].start in r ==> ts[k].end in r
  }

  /** The end states of all transitions. */
  function Ends(ts: seq<Transition>): set<State> {
    set k | 0 <= k < |ts| :: ts[k].end
  }

  /** Every state the search can ever touch. */
  function Universe(ts: seq<Transition>, start: State): set<State> {
    {start} + Ends(ts)
  }

  lemma ReachableRefl(ts: seq<Transition>, s: State)
    ensures EpsReachable(ts, s, s)
  {
    assert IsEpsPath(ts, [s]);
  }

  lemma ReachableStep(ts: seq<Transition>, s: State, x: State, y: State)
    requires EpsReachable(ts, s, x) && EpsEdge(ts, x, y)
    ensures EpsReachable(ts, s, y)
  {
    var p :| IsEpsPath(ts, p) && p[0] == s && p[|p| - 1] == x;
    var q := p + [y];
    assert IsEpsPath(ts, q);
  }

  /** A closed set holding `s` holds everything reachable from `s`. */
  lemma {:induction false} ClosedContainsReachable(ts: seq<Transition>, c: set<State>, p: seq<State>)
    requires EpsClosed(ts, c) && IsEpsPath(ts, p) && p[0] in c
    ensures p[|p| - 1] in c
    decreases |p|
  {
    if |p| > 1 {
      var q := p[..|p| - 1];
      assert IsEpsPath(ts, q);
      ClosedContainsReachable(ts, c, q);
      var k :| 0 <= k < |ts| && ts[k] == Transition(p[|p| - 2], EPSILON, p[|p| - 1]);
    }
  }

  lemma ClosedContainsAllReachable(ts: seq<Transition>, c: set<State>, s: State)
    requires EpsClosed(ts, c) && s in c
    ensures forall t :: EpsReachable(ts, s, t) ==> t in c
  {
    forall t | EpsReachable(ts, s, t)
      ensures t in c
    {
      var p :| IsEpsPath(ts, p) && p[0] == s && p[|p| - 1] == t;
      ClosedContainsReachable(ts, c, p);
    }
  }

  /** The states pushed after popping `x`: in transition order, the end of
      every epsilon transition leaving `x` that is not yet in the result. */
  function Pushes(ts: seq<Transition>, x: State, visited: set<State>, from: nat): (r: seq<State>)
    requires from <= |ts|
    ensures forall i :: 0 <= i < |r| ==> r[i] !in visited && EpsEdge(ts, x, r[i]) && r[i] in Ends(ts)
    ensures forall k :: from <= k < |ts| && Matches(ts[k], x, EPSILON) && ts[k].end !in visited ==> ts[k].end in r
    decreases |ts| - from
  {
    if from == |ts| then []
    else
      var rest := Pushes(ts, x, visited, from + 1);
      if Matches(ts[from], x, EPSILON) && ts[from].end !in visited then
        assert ts[from] == Transition(x, EPSILON, ts[from].end);
        [ts[from].end] + rest
      else rest
  }

  /** A state in the result whose epsilon successor is not in the result
      still has that successor above it on the stack. This is what makes
      popping an already visited state push nothing. */
  ghost predicate Lifo(ts: seq<Transition>, visited: set<State>, stack: seq<State>) {
    forall i, k ::
      (0 <= i < |stack| && 0 <= k < |ts| && stack[i] in visited
       && Matches(ts[k], stack[i], EPSILON) && ts[k].end !in visited)
      ==> ts[k].end in stack[i + 1..]
  }

  /** Every epsilon successor of a visited state is visited or waiting. */
  ghost predicate Frontier(ts: seq<Transition>, visited: set<State>, stack: seq<State>) {
    forall k ::
      (0 <= k < |ts| && ts[k].symbol == EPSILON && ts[k].start in visited && ts[k].end !in visited)
      ==> ts[k].end in stack
  }

  ghost predicate SearchInv(ts: seq<Transition>, start: State, visited: set<State>, stack: seq<State>) {
    && visited <= Universe(ts, start)
    && (forall i :: 0 <= i < |stack| ==> stack[i] in Universe(ts, start))
    && Lifo(ts, visited, stack)
    && Frontier(ts, visited, stack)
    && (start in visited || start in stack)
    && (forall x :: x in visited ==> EpsReachable(ts, start, x))
    && (forall i :: 0 <= i < |stack| ==> EpsReachable(ts, start, stack[i]))
  }

  /** The result of popping the top of the stack. */
  function PopVisited(visited: set<State>, stack: seq<State>): set<State>
    requires stack != []
  {
    visited + {stack[|stack| - 1]}
  }

  function PopStack(ts: seq<Transition>, visited: set<State>, stack: seq<State>): seq<State>
    requires stack != []
  {
    stack[..|stack| - 1] + Pushes(ts, stack[|stack| - 1], PopVisited(visited, stack), 0)
  }

  /** With no epsilon successor outside `visited` there is nothing to push. */
  lemma {:induction false} PushesNone(ts: seq<Transition>, x: State, visited: set<State>, from: nat)
    requires from <= |ts|
    requires forall k :: from <= k < |ts| && Matches(ts[k], x, EPSILON) ==> ts[k].end in visited
    ensures Pushes(ts, x, visited, from) == []
    decreases |ts| - from
  {
    if from < |ts| {
      PushesNone(ts, x, visited, from + 1);
    }
  }

  /** Popping a state that is already visited pushes nothing. */
  lemma RevisitPushesNothing(ts: seq<Transition>, visited: set<State>, stack: seq<State>)
    requires Lifo(ts, visited, stack) && stack != []
    requires stack[|stack| - 1] in visited
    ensures Pushes(ts, stack[|stack| - 1], PopVisited(visited, stack), 0) == []
  {
    var n := |stack|;
    var x := stack[n - 1];
    forall k | 0 <= k < |ts| && Matches(ts[k], x, EPSILON)
      ensures ts[k].end in PopVisited(visited, stack)
    {
      assert stack[n..] == [];
    }
    PushesNone(ts, x, PopVisited(visited, stack), 0);
  }

  lemma LifoStep(ts: seq<Transition>, visited: set<State>, stack: seq<State>)
    requires Lifo(ts, visited, stack) && stack != []
    ensures Lifo(ts, PopVisited(visited, stack), PopStack(ts, visited, stack))
  {
    var n := |stack|;
    var x := stack[n - 1];
    var visited' := PopVisited(visited, stack);
    var pushed := Pushes(ts, x, visited', 0);
    var stack' := PopStack(ts, visited, stack);
    forall i, k | 0 <= i < |stack'| && 0 <= k < |ts| && stack'[i] in visited'
      && Matches(ts[k], stack'[i], EPSILON) && ts[k].end !in visited'
      ensures ts[k].end in stack'[i + 1..]
    {
      assert i < n - 1;
      assert stack'[i + 1..] == stack[i + 1..n - 1] + pushed;
      if stack[i] in visited {
        assert ts[k].end in stack[i + 1..];
        assert stack[i + 1..] == stack[i + 1..n - 1] + [x];
      }
    }
  }

  lemma FrontierStep(ts: seq<Transition>, visited: set<State>, stack: seq<State>)
    requires Frontier(ts, visited, stack) && stack != []
    ensures Frontier(ts, PopVisited(visited, stack), PopStack(ts, visited, stack))
  {
    var n := |stack|;
    var x := stack[n - 1];
    var visited' := PopVisited(visited, stack);
    var stack' := PopStack(ts, visited, stack);
    assert stack == stack[..n - 1] + [x];
    forall k | 0 <= k < |ts| && ts[k].symbol == EPSILON && ts[k].start in visited'
      && ts[k].end !in visited'
      ensures ts[k].end in stack'
    {
      if ts[k].start in visited {
        assert ts[k].end in stack;
      } else {
        assert Matches(ts[k], x, EPSILON);
      }
    }
  }

  /** After a pop, the result still holds only reachable states of the
      universe, and the start state is in the result or on the stack. */
  lemma ReachStep(ts: seq<Transition>, start: State, visited: set<State>, stack: seq<State>)
    requires SearchInv(ts, start, visited, stack) && stack != []
    ensures var visited' := PopVisited(visited, stack);
            && visited' <= Universe(ts, start)
            && (start in visited' || start in PopStack(ts, visited, stack))
            && (forall x :: x in visited' ==> EpsReachable(ts, start, x))
  {
    var n := |stack|;
    var x := stack[n - 1];
    assert x in Universe(ts, start) && EpsReachable(ts, start, x);
    forall y | y in PopVisited(visited, stack)
      ensures EpsReachable(ts, start, y)
    {
      if y !in visited {
        assert y == x;
      }
    }
    if start !in visited && start != x {
      var j :| 0 <= j < n && stack[j] == start;
      assert j < n - 1;
      assert PopStack(ts, visited, stack)[j] == start;
    }
  }

  /** After a pop, every state on the stack is a reachable state of the
      universe: the old ones were, and the pushed ones are epsilon
      successors of the popped state. */
  lemma StackStep(ts: seq<Transition>, start: State, visited: set<State>, stack: seq<State>)
    requires SearchInv(ts, start, visited, stack) && stack != []
    ensures var stack' := PopStack(ts, visited, stack);
            forall i :: 0 <= i < |stack'| ==> stack'[i] in Universe(ts, start) && EpsReachable(ts, start, stack'[i])
  {
    var n := |stack|;
    var x := stack[n - 1];
    var pushed := Pushes(ts, x, PopVisited(visited, stack), 0);
    var stack' := PopStack(ts, visited, stack);
    assert EpsReachable(ts, start, x);
    forall i | 0 <= i < |stack'|
      ensures stack'[i] in Universe(ts, start) && EpsReachable(ts, start, stack'[i])
    {
      if i < n - 1 {
        assert stack'[i] == stack[i];
      } else {
        assert stack'[i] == pushed[i - (n - 1)];
        ReachableStep(ts, start, x, pushed[i - (n - 1)]);
      }
    }
  }

  /** One pop of the search keeps the invariant and shrinks the measure. */
  lemma SearchStep(ts: seq<Transition>, start: State, visited: set<State>, stack: seq<State>)
    requires SearchInv(ts, start, visited, stack) && stack != []
    ensures SearchInv(ts, start, PopVisited(visited, stack), PopStack(ts, visited, stack))
    ensures stack[|stack| - 1] in visited ==>
              PopVisited(visited, stack) == visited && |PopStack(ts, visited, stack)| < |stack|
    ensures stack[|stack| - 1] !in visited ==>
              |Universe(ts, start) - PopVisited(visited, stack)| < |Universe(ts, start) - visited|
  {
    LifoStep(ts, visited, stack);
    FrontierStep(ts, visited, stack);
    ReachStep(ts, start, visited, stack);
    StackStep(ts, start, visited, stack);
    var x := stack[|stack| - 1];
    if x in visited {
      RevisitPushesNothing(ts, visited, stack);
    } else {
      assert Universe(ts, start) - PopVisited(visited, stack) < Universe(ts, start) - visited;
    }
  }

  /** The `while(!toVisit.isEmpty())` loop: pop the top state, add it to
      the result and push its unvisited epsilon successors. */
  function Search(ts: seq<Transition>, ghost start: State, visited: set<State>, stack: seq<State>): (r: set<State>)
    requires SearchInv(ts, start, visited, stack)
    ensures visited <= r <= Universe(ts, start)
    ensures start in r
    ensures EpsClosed(ts, r)
    ensures forall x :: x in r ==> EpsReachable(ts, start, x)
    decreases |Universe(ts, start) - visited|, |stack|
  {
    if stack == [] then visited
    else
      SearchStep(ts, start, visited, stack);
      Search(ts, start, PopVisited(visited, stack), PopStack(ts, visited, stack))
  }

  /** `computeEpsilonClosure(start)`: exactly the states epsilon-reachable
      from `start`; it contains `start`, is closed under epsilon transitions
      and holds nothing but `start` and ends of transitions. */
  function Closure(ts: seq<Transition>, start: State): (r: set<State>)
    ensures start in r
    ensures EpsClosed(ts, r)
    ensures forall t :: t in r <==> EpsReachable(ts, start, t)
    ensures forall t :: t in r ==> t == start || t in Ends(ts)
  {
    ReachableRefl(ts, start);
    var r := Search(ts, start, {}, [start]);
    ClosedContainsAllReachable(ts, r, start);
    r
  }

  /** The closure of any member lies inside the closure: closing a closure
      again adds nothing. */
  lemma ClosureIdempotent(ts: seq<Transition>, s: State, t: State)
    requires t in Closure(ts, s)
    ensures Closure(ts, t) <= Closure(ts, s)
  {
    ClosedContainsAllReachable(ts, Closure(ts, s), t);
  }
}
