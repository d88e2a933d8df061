/** Element-wise traversals of sequences, used by the reader and the
    writer. */
module Seqs {
  import opened Results

  /** `f` applied to every element, in order. */
  function Map<A, B>(f: A -> B, xs: seq<A>): (r: seq<B>)
    ensures |r| == |xs|
    ensures forall i :: 0 <= i < |xs| ==> r[i] == f(xs[i])
  {
    if xs == [] then [] else [f(xs[0])] + Map(f, xs[1..])
  }

  /** `f` applied to every element, in order, stopping at the first
      element it rejects: that element's error is the result. */
  function MapAll<A, B>(f: A -> Result<B>, xs: seq<A>): (r: Result<seq<B>>)
    ensures r.Success? <==> forall i :: 0 <= i < |xs| ==> f(xs[i]).Success?
    ensures r.Success? ==> |r.value| == |xs| && forall i :: 0 <= i < |xs| ==> f(xs[i]) == Success(r.value[i])
  {
    if xs == [] then Success([])
    else
      var y :- f(xs[0]);
      var rest :- MapAll(f, xs[1..]);
      Success([y] + rest)
  }

  /** A failed traversal reports the error of the first rejected element. */
  lemma {:induction false} MapAllFirstRejected<A, B>(f: A -> Result<B>, xs: seq<A>)
    requires MapAll(f, xs).Failure?
    ensures exists i :: FirstRejected(f, xs, i) && MapAll(f, xs).error == f(xs[i]).error
  {
    if f(xs[0]).Failure? {
      assert FirstRejected(f, xs, 0);
    } else {
      MapAllFirstRejected(f, xs[1..]);
      var i :| FirstRejected(f, xs[1..], i) && MapAll(f, xs[1..]).error == f(xs[1..][i]).error;
      assert FirstRejected(f, xs, i + 1);
    }
  }

  /** `xs[i]` is the first element `f` rejects. */
  ghost predicate FirstRejected<A, B>(f: A -> Result<B>, xs: seq<A>, i: int) {
    && 0 <= i < |xs| && f(xs[i]).Failure?
    && forall j :: 0 <= j < i ==> f(xs[j]).Success?
  }

  /** Extending a prefix by one element. */
  lemma TakeSnoc<T>(s: seq<T>, j: int)
    requires 0 <= j < |s|
    ensures s[..j + 1] == s[..j] + [s[j]]
  {
  }

  /** The three pieces of a sequence written with two separators. */
  lemma SplitAtSeparators<T>(a: seq<T>, x: T, b: seq<T>, y: T, c: seq<T>)
    ensures var s := a + [x] + b + [y] + c;
      && s[..|a|] == a
      && s[|a| + 1..|a| + 1 + |b|] == b
      && s[|a| + 1 + |b| + 1..] == c
      && s == a + ([x] + b + [y] + c)
      && s == (a + [x] + b) + ([y] + c)
  {
    var s := a + [x] + b + [y] + c;
    assert s == a + ([x] + b + [y] + c);
    assert s == (a + [x] + b) + ([y] + c);
    assert s[|a| + 1..] == b + [y] + c;
  }
}
