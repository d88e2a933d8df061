/** `mergeStates`: a collection of states folded into one state. */
module Merging {
  import opened Results
  import opened States

  /** All names of all states in `ss`. */
  function UnionNames(ss: set<State>): set<string>
  {
    set s, n | s in ss && n in s.names :: n
  }

  /** Two different states cannot both be without names. */
  lemma DistinctStatesHaveNames(ss: set<State>)
    requires |ss| >= 2
    ensures UnionNames(ss) != {}
  {
    var x :| x in ss;
    assert |ss - {x}| == |ss| - 1;
    var y :| y in ss - {x};
    if x.names == {} {
      assert y != x;
      var n :| n in y.names;
      assert n in UnionNames(ss);
    } else {
      var n :| n in x.names;
      assert n in UnionNames(ss);
    }
  }

  lemma SingletonElement(ss: set<State>, x: State)
    requires |ss| == 1 && x in ss
    ensures ss == {x}
  {
    assert |ss - {x}| == 0;
  }

  /** `mergeStates`: a one-element collection gives its element back;
      any other collection gives `State.of` of all names, which fails when
      the collection is empty. */
  function MergeStates(ss: set<State>): (r: Result<State>)
    ensures r.Success? <==> ss != {}
    ensures r.Failure? ==> r.error == EmptyState
    ensures forall x :: ss == {x} ==> r == Success(x)
    ensures r.Success? ==> r.value.names == UnionNames(ss)
    ensures r.Success? ==> (r.value == EMPTY <==> UnionNames(ss) == {})
  {
    if |ss| == 1 then
      var x :| x in ss;
      SingletonElement(ss, x);
      Success(x)
    else
      if |ss| >= 2 then DistinctStatesHaveNames(ss); Of(UnionNames(ss))
      else Of(UnionNames(ss))
  }
}
