/** `computeTransitions`: the breadth-first subset construction, emitting
    one transition per explored state and alphabet symbol. The search is
    written once over the two state computations it performs (`close` for
    the merged epsilon closure of a dequeued state, `dest` for the
    destination of a state on a symbol) and then applied to the ones of
    the original transitions. */
module SubsetConstruction {
  import opened States
  import opened Transitions
  import opened EpsilonClosure
  import opened Destinations
  import opened Seqs

  /** The transitions emitted for one explored state, in symbol order. */
  function RowOf(dest: (State, string) -> State, symbols: seq<string>, s: State): (r: seq<Transition>)
    ensures |r| == |symbols|
    ensures forall j :: 0 <= j < |symbols| ==> r[j] == Transition(s, symbols[j], dest(s, symbols[j]))
  {
    if symbols == [] then []
    else [Transition(s, symbols[0], dest(s, symbols[0]))] + RowOf(dest, symbols[1..], s)
  }

  /** The transitions emitted for a sequence of explored states. */
  function RowsOf(dest: (State, string) -> State, alphabet: seq<string>, explored: seq<State>): seq<Transition>
  {
    if explored == [] then []
    else RowsOf(dest, alphabet, explored[..|explored| - 1]) + RowOf(dest, alphabet, explored[|explored| - 1])
  }

  /** The transitions of the converted automaton for the explored states. */
  function Rows(ts: seq<Transition>, alphabet: seq<string>, explored: seq<State>): seq<Transition>
  {
    RowsOf(DestinationFn(ts), alphabet, explored)
  }

  /** `|alphabet|` transitions per explored state. */
  lemma {:induction false} RowsLength(ts: seq<Transition>, alphabet: seq<string>, explored: seq<State>)
    ensures |Rows(ts, alphabet, explored)| == |alphabet| * |explored|
  {
    if explored != [] {
      var m := |explored| - 1;
      RowsLength(ts, alphabet, explored[..m]);
      assert |alphabet| * m + |alphabet| == |alphabet| * (m + 1);
    }
  }

  lemma {:induction false} RowsOfMembership(dest: (State, string) -> State, alphabet: seq<string>, explored: seq<State>, t: Transition)
    ensures t in RowsOf(dest, alphabet, explored) <==>
              t.start in explored && t.symbol in alphabet && t.end == dest(t.start, t.symbol)
  {
    if explored != [] {
      var m := |explored| - 1;
      RowsOfMembership(dest, alphabet, explored[..m], t);
      RowMembership(dest, alphabet, explored[m], t);
      assert explored == explored[..m] + [explored[m]];
      assert t in RowsOf(dest, alphabet, explored) <==>
               t in RowsOf(dest, alphabet, explored[..m]) || t in RowOf(dest, alphabet, explored[m]);
    }
  }

  /** The row of `s` holds exactly the transitions from `s` on an alphabet
      symbol to that symbol's destination. */
  lemma RowMembership(dest: (State, string) -> State, alphabet: seq<string>, s: State, t: Transition)
    ensures t in RowOf(dest, alphabet, s) <==>
              t.start == s && t.symbol in alphabet && t.end == dest(t.start, t.symbol)
  {
    var row := RowOf(dest, alphabet, s);
    if t in row {
      var j :| 0 <= j < |row| && row[j] == t;
    }
    if t.start == s && t.symbol in alphabet && t.end == dest(t.start, t.symbol) {
      var j :| 0 <= j < |alphabet| && alphabet[j] == t.symbol;
      assert row[j] == t;
    }
  }

  /** A transition is emitted exactly when it starts in an explored state,
      is labelled with an alphabet symbol and leads to the destination of
      that state and symbol. */
  lemma RowsMembership(ts: seq<Transition>, alphabet: seq<string>, explored: seq<State>, t: Transition)
    ensures t in Rows(ts, alphabet, explored) <==>
              t.start in explored && t.symbol in alphabet && t.end == Destination(ts, t.start, t.symbol)
  {
    RowsOfMembership(DestinationFn(ts), alphabet, explored, t);
  }

  /** The emitted transitions form a deterministic, total transition
      function on the explored states: one destination per (state, symbol). */
  lemma RowsDeterministic(ts: seq<Transition>, alphabet: seq<string>, explored: seq<State>)
    ensures forall t1, t2 ::
              (t1 in Rows(ts, alphabet, explored) && t2 in Rows(ts, alphabet, explored)
               && t1.start == t2.start && t1.symbol == t2.symbol) ==> t1 == t2
    ensures forall s, a :: s in explored && a in alphabet ==>
              Transition(s, a, Destination(ts, s, a)) in Rows(ts, alphabet, explored)
  {
    forall t | t in Rows(ts, alphabet, explored)
      ensures t.end == Destination(ts, t.start, t.symbol)
    {
      RowsMembership(ts, alphabet, explored, t);
    }
    forall s, a | s in explored && a in alphabet
      ensures Transition(s, a, Destination(ts, s, a)) in Rows(ts, alphabet, explored)
    {
      RowsMembership(ts, alphabet, explored, Transition(s, a, Destination(ts, s, a)));
    }
  }

  lemma EndsConcat(a: seq<Transition>, b: seq<Transition>)
    ensures Ends(a + b) == Ends(a) + Ends(b)
  {
    var d := a + b;
    forall y | y in Ends(a) ensures y in Ends(d) {
      var k :| 0 <= k < |a| && a[k].end == y;
      assert d[k].end == y;
    }
    forall y | y in Ends(b) ensures y in Ends(d) {
      var k :| 0 <= k < |b| && b[k].end == y;
      assert d[|a| + k].end == y;
    }
    forall y | y in Ends(d) ensures y in Ends(a) + Ends(b) {
      var k :| 0 <= k < |d| && d[k].end == y;
      if k < |a| { assert a[k].end == y; } else { assert b[k - |a|].end == y; }
    }
  }

  /** All states whose names lie within `a`: a finite bound on the states
      the search can ever find. */
  ghost function Candidates(a: set<string>): set<State>
  {
    set n: set<string> | n <= a :: State(n)
  }

  /** No state occurs twice in `s` from index 1 on. */
  ghost predicate DistinctAfterFirst(s: seq<State>) {
    forall i, j :: 1 <= i < j < |s| ==> s[i] != s[j]
  }

  /** The destinations a row queues, in symbol order: the destination of
      `start` on each symbol that is neither in `found` nor queued earlier
      in the same row. */
  function NewEnds(dest: (State, string) -> State, symbols: seq<string>, start: State, found: set<State>): seq<State>
  {
    if symbols == [] then []
    else
      var prev := NewEnds(dest, symbols[..|symbols| - 1], start, found);
      var end := dest(start, symbols[|symbols| - 1]);
      if end in found || end in prev then prev else prev + [end]
  }

  /** What one row step does to the search: `dfa` grows by the row of
      `start`, and exactly the destinations not in `found0` are queued (in
      symbol order, once each) and recorded. */
  ghost predicate RowEmitted(dest: (State, string) -> State, alphabet: seq<string>, start: State,
                             dfa0: seq<Transition>, found0: set<State>, queue0: seq<State>,
                             dfa: seq<Transition>, found: set<State>, queue: seq<State>)
  {
    && RowRecorded(dest, alphabet, start, dfa0, found0, queue0, dfa, found, queue)
    && queue == queue0 + NewEnds(dest, alphabet, start, found0)
  }

  /** `RowEmitted` without the order of the queued entries. */
  ghost predicate RowRecorded(dest: (State, string) -> State, alphabet: seq<string>, start: State,
                              dfa0: seq<Transition>, found0: set<State>, queue0: seq<State>,
                              dfa: seq<Transition>, found: set<State>, queue: seq<State>)
  {
    && dfa == dfa0 + RowOf(dest, alphabet, start)
    && |queue| >= |queue0| && queue[..|queue0|] == queue0
    && (forall x :: x in found <==> x in found0 || x in queue[|queue0|..])
    && |found| == |found0| + (|queue| - |queue0|)
    && (forall i :: |queue0| <= i < |queue| ==> queue[i] !in found0)
    && (forall i, j :: |queue0| <= i < j < |queue| ==> queue[i] != queue[j])
    && (forall i :: |queue0| <= i < |queue| ==> queue[i] in Ends(RowOf(dest, alphabet, start)))
    && Ends(RowOf(dest, alphabet, start)) <= found
  }

  /** The inner loop of `computeTransitions` for one explored state: one
      transition per symbol, and every destination not found before is
      recorded and queued, once. */
  method EmitRow(dest: (State, string) -> State, alphabet: seq<string>, start: State,
                 dfa0: seq<Transition>, found0: set<State>, queue0: seq<State>)
    returns (dfa: seq<Transition>, found: set<State>, queue: seq<State>)
    ensures RowEmitted(dest, alphabet, start, dfa0, found0, queue0, dfa, found, queue)
  {
    dfa, found, queue := dfa0, found0, queue0;
    var j := 0;
    assert dfa0 + [] == dfa0;
    while j < |alphabet|
      invariant 0 <= j <= |alphabet|
      invariant RowEmitted(dest, alphabet[..j], start, dfa0, found0, queue0, dfa, found, queue)
    {
      var symbol := alphabet[j];
      var end := dest(start, symbol);
      var found1, queue1 := found, queue;
      if end !in found {
        found1, queue1 := found + {end}, queue + [end];
      }
      EmitStep(dest, alphabet[..j], symbol, start, dfa0, found0, queue0, dfa, found, queue, found1, queue1);
      TakeSnoc(alphabet, j);
      dfa, found, queue := dfa + [Transition(start, symbol, end)], found1, queue1;
      j := j + 1;
    }
    assert alphabet[..j] == alphabet;
  }

  lemma RowAppend(dest: (State, string) -> State, symbols: seq<string>, symbol: string, s: State)
    ensures RowOf(dest, symbols + [symbol], s) == RowOf(dest, symbols, s) + [Transition(s, symbol, dest(s, symbol))]
  {
  }

  /** One symbol of the inner loop keeps `RowEmitted`. */
  lemma EmitStep(dest: (State, string) -> State, symbols: seq<string>, symbol: string, start: State,
                 dfa0: seq<Transition>, found0: set<State>, queue0: seq<State>,
                 dfa: seq<Transition>, found: set<State>, queue: seq<State>,
                 found1: set<State>, queue1: seq<State>)
    requires RowEmitted(dest, symbols, start, dfa0, found0, queue0, dfa, found, queue)
    requires dest(start, symbol) in found ==> found1 == found && queue1 == queue
    requires dest(start, symbol) !in found ==>
               found1 == found + {dest(start, symbol)} && queue1 == queue + [dest(start, symbol)]
    ensures RowEmitted(dest, symbols + [symbol], start, dfa0, found0, queue0,
                       dfa + [Transition(start, symbol, dest(start, symbol))], found1, queue1)
  {
    RecordStep(dest, symbols, symbol, start, dfa0, found0, queue0, dfa, found, queue, found1, queue1);
    QueueOrderStep(dest, symbols, symbol, start, found0, queue0, found, queue, queue1);
  }

  lemma RecordStep(dest: (State, string) -> State, symbols: seq<string>, symbol: string, start: State,
                   dfa0: seq<Transition>, found0: set<State>, queue0: seq<State>,
                   dfa: seq<Transition>, found: set<State>, queue: seq<State>,
                   found1: set<State>, queue1: seq<State>)
    requires RowRecorded(dest, symbols, start, dfa0, found0, queue0, dfa, found, queue)
    requires dest(start, symbol) in found ==> found1 == found && queue1 == queue
    requires dest(start, symbol) !in found ==>
               found1 == found + {dest(start, symbol)} && queue1 == queue + [dest(start, symbol)]
    ensures RowRecorded(dest, symbols + [symbol], start, dfa0, found0, queue0,
                        dfa + [Transition(start, symbol, dest(start, symbol))], found1, queue1)
  {
    RowAppend(dest, symbols, symbol, start);
    RowEndsAppend(dest, symbols, symbol, start);
    if dest(start, symbol) !in found {
      EmitNew(found0, queue0, found, queue, dest(start, symbol), Ends(RowOf(dest, symbols, start)));
    }
  }

  /** The queue grows by the next entry of `NewEnds` exactly when the
      destination of `symbol` was not recorded yet. */
  lemma QueueOrderStep(dest: (State, string) -> State, symbols: seq<string>, symbol: string, start: State,
                       found0: set<State>, queue0: seq<State>, found: set<State>, queue: seq<State>,
                       queue1: seq<State>)
    requires queue == queue0 + NewEnds(dest, symbols, start, found0)
    requires forall x :: x in found <==> x in found0 || x in queue[|queue0|..]
    requires dest(start, symbol) in found ==> queue1 == queue
    requires dest(start, symbol) !in found ==> queue1 == queue + [dest(start, symbol)]
    ensures queue1 == queue0 + NewEnds(dest, symbols + [symbol], start, found0)
  {
    assert (symbols + [symbol])[..|symbols|] == symbols;
    assert queue[|queue0|..] == NewEnds(dest, symbols, start, found0);
  }

  lemma RowEndsAppend(dest: (State, string) -> State, symbols: seq<string>, symbol: string, s: State)
    ensures Ends(RowOf(dest, symbols + [symbol], s)) == Ends(RowOf(dest, symbols, s)) + {dest(s, symbol)}
  {
    var t := Transition(s, symbol, dest(s, symbol));
    RowAppend(dest, symbols, symbol, s);
    EndsConcat(RowOf(dest, symbols, s), [t]);
    assert [t][0].end == dest(s, symbol);
  }

  /** Recording and queueing a state not found before keeps the queue
      bookkeeping of `RowEmitted`. */
  lemma EmitNew(found0: set<State>, queue0: seq<State>, found: set<State>, queue: seq<State>,
                end: State, ends: set<State>)
    requires |queue| >= |queue0| && queue[..|queue0|] == queue0
    requires forall x :: x in found <==> x in found0 || x in queue[|queue0|..]
    requires |found| == |found0| + (|queue| - |queue0|)
    requires forall i :: |queue0| <= i < |queue| ==> queue[i] !in found0
    requires forall i, j :: |queue0| <= i < j < |queue| ==> queue[i] != queue[j]
    requires forall i :: |queue0| <= i < |queue| ==> queue[i] in ends
    requires end !in found
    ensures var q := queue + [end];
            && |q| >= |queue0| && q[..|queue0|] == queue0
            && (forall x :: x in found + {end} <==> x in found0 || x in q[|queue0|..])
            && |found + {end}| == |found0| + (|q| - |queue0|)
            && (forall i :: |queue0| <= i < |q| ==> q[i] !in found0)
            && (forall i, j :: |queue0| <= i < j < |q| ==> q[i] != q[j])
            && (forall i :: |queue0| <= i < |q| ==> q[i] in ends + {end})
  {
    var q := queue + [end];
    assert q[|queue0|..] == queue[|queue0|..] + [end];
    assert q[..|queue0|] == queue[..|queue0|];
    assert |found + {end}| == |found| + 1;
  }

  lemma {:induction false} SubsetCard<T>(a: set<T>, b: set<T>)
    requires a <= b
    ensures |a| <= |b|
    decreases a
  {
    if a != {} {
      var x :| x in a;
      SubsetCard(a - {x}, b - {x});
    }
  }

  lemma RowEndsWithin(dest: (State, string) -> State, alphabet: seq<string>, s: State, bound: set<State>)
    requires forall s, a :: dest(s, a) in bound
    ensures Ends(RowOf(dest, alphabet, s)) <= bound
  {
    var row := RowOf(dest, alphabet, s);
    forall y | y in Ends(row) ensures y in bound {
      var m :| 0 <= m < |row| && row[m].end == y;
      assert y == dest(s, alphabet[m]);
    }
  }

  lemma SplitAt(s: seq<State>, n: nat)
    requires n <= |s|
    ensures s == s[..n] + s[n..]
  {
  }

  lemma DistinctAppend(a: seq<State>, b: seq<State>, seen: set<State>)
    requires DistinctAfterFirst(a)
    requires forall i :: 1 <= i < |a| ==> a[i] in seen
    requires forall i :: 0 <= i < |b| ==> b[i] !in seen
    requires forall i, j :: 0 <= i < j < |b| ==> b[i] != b[j]
    requires |a| >= 1
    ensures DistinctAfterFirst(a + b)
  {
    var c := a + b;
    forall i, j | 1 <= i < j < |c| ensures c[i] != c[j] {
      if j >= |a| && i < |a| {
        assert c[i] == a[i] && a[i] in seen;
        assert c[j] == b[j - |a|];
      } else if i >= |a| {
        assert c[i] == b[i - |a|] && c[j] == b[j - |a|];
      }
    }
  }

  /** The shape part of the search invariant: everything ever queued
      (`dequeued + queue`) starts with `initial`; each explored state is
      `close` of the entry it was dequeued as; the transitions are the rows
      of the explored states. */
  ghost predicate ShapeInvariant(close: State -> State, dest: (State, string) -> State, alphabet: seq<string>,
                                 initial: State, queue: seq<State>, dfa: seq<Transition>,
                                 explored: seq<State>, dequeued: seq<State>)
  {
    && |dequeued + queue| >= 1 && (dequeued + queue)[0] == initial
    && (|explored| >= 1 || queue == [initial])
    && |dequeued| == |explored|
    && (forall k :: 0 <= k < |explored| ==> explored[k] == close(dequeued[k]))
    && dfa == RowsOf(dest, alphabet, explored)
  }

  /** The bookkeeping part: `found` is exactly the explored and the queued
      states, nothing is queued twice after `initial`, every state queued
      after `initial` is the end of an emitted transition, and every
      emitted end has been found. */
  ghost predicate FoundInvariant(queue: seq<State>, found: set<State>, dfa: seq<Transition>,
                                 explored: seq<State>, dequeued: seq<State>)
  {
    var enqueued := dequeued + queue;
    && |enqueued| >= 1
    && (forall x :: x in found <==> x in explored || x in enqueued[1..])
    && DistinctAfterFirst(enqueued)
    && (forall k :: 1 <= k < |enqueued| ==> enqueued[k] in Ends(dfa))
    && Ends(dfa) <= found
  }

  /** The termination part: all found and queued states lie in `bound`. */
  ghost predicate BoundInvariant(bound: set<State>, queue: seq<State>, found: set<State>)
  {
    found <= bound && forall i :: 0 <= i < |queue| ==> queue[i] in bound
  }

  /** Queueing `added` after `enqueued` keeps `enqueued` free of repeats
      when none of `added` was seen and it has no repeats of its own. */
  lemma StepEnqueued(initial: State, dequeued0: seq<State>, queue0: seq<State>, queue: seq<State>, seen: set<State>)
    requires |dequeued0 + queue0| >= 1 && (dequeued0 + queue0)[0] == initial
    requires DistinctAfterFirst(dequeued0 + queue0)
    requires queue0 != []
    requires forall i :: 1 <= i < |dequeued0 + queue0| ==> (dequeued0 + queue0)[i] in seen
    requires |queue| >= |queue0| - 1 && queue[..|queue0| - 1] == queue0[1..]
    requires forall i :: |queue0| - 1 <= i < |queue| ==> queue[i] !in seen
    requires forall i, j :: |queue0| - 1 <= i < j < |queue| ==> queue[i] != queue[j]
    ensures (dequeued0 + [queue0[0]]) + queue == (dequeued0 + queue0) + queue[|queue0| - 1..]
    ensures ((dequeued0 + [queue0[0]]) + queue)[0] == initial
    ensures DistinctAfterFirst((dequeued0 + [queue0[0]]) + queue)
  {
    var added := queue[|queue0| - 1..];
    SplitAt(queue, |queue0| - 1);
    assert queue0 == [queue0[0]] + queue0[1..];
    assert (dequeued0 + [queue0[0]]) + queue == (dequeued0 + queue0) + added;
    DistinctAppend(dequeued0 + queue0, added, seen);
  }

  /** After a round `found` is again exactly the explored and queued states. */
  lemma StepFound(found0: set<State>, found: set<State>, explored0: seq<State>, start: State,
                  enqueued0: seq<State>, added: seq<State>)
    requires |enqueued0| >= 1
    requires forall x :: x in found0 <==> x in explored0 || x in enqueued0[1..]
    requires forall x :: x in found <==> x in found0 + {start} || x in added
    ensures forall x :: x in found <==> x in explored0 + [start] || x in (enqueued0 + added)[1..]
  {
    assert (enqueued0 + added)[1..] == enqueued0[1..] + added;
  }

  /** After a round every state queued after `initial` is an emitted end,
      and every emitted end is found. */
  lemma StepEnds(dfa0: seq<Transition>, row: seq<Transition>, enqueued0: seq<State>, added: seq<State>,
                 found0: set<State>, found: set<State>)
    requires forall k :: 1 <= k < |enqueued0| ==> enqueued0[k] in Ends(dfa0)
    requires forall i :: 0 <= i < |added| ==> added[i] in Ends(row)
    requires Ends(dfa0) <= found0 <= found
    requires Ends(row) <= found
    ensures forall k :: 1 <= k < |enqueued0 + added| ==> (enqueued0 + added)[k] in Ends(dfa0 + row)
    ensures Ends(dfa0 + row) <= found
  {
    EndsConcat(dfa0, row);
    var e := enqueued0 + added;
    forall k | 1 <= k < |e| ensures e[k] in Ends(dfa0 + row) {
      if k < |enqueued0| { assert e[k] == enqueued0[k]; } else { assert e[k] == added[k - |enqueued0|]; }
    }
  }

  /** After a round every found and every queued state is still in `bound`. */
  lemma StepBounds(close: State -> State, dest: (State, string) -> State, alphabet: seq<string>, bound: set<State>,
                   queue0: seq<State>, found0: set<State>, queue: seq<State>, found: set<State>)
    requires forall x :: x in bound ==> close(x) in bound
    requires forall s, a :: dest(s, a) in bound
    requires found0 <= bound
    requires queue0 != [] && forall i :: 0 <= i < |queue0| ==> queue0[i] in bound
    requires |queue| >= |queue0| - 1 && queue[..|queue0| - 1] == queue0[1..]
    requires forall i :: |queue0| - 1 <= i < |queue| ==> queue[i] in Ends(RowOf(dest, alphabet, close(queue0[0])))
    requires forall x :: x in found ==> x in found0 + {close(queue0[0])} || x in queue[|queue0| - 1..]
    ensures found <= bound
    ensures forall i :: 0 <= i < |queue| ==> queue[i] in bound
  {
    RowEndsWithin(dest, alphabet, close(queue0[0]), bound);
    assert queue0[0] in bound;
    forall i | 0 <= i < |queue| ensures queue[i] in bound {
      if i < |queue0| - 1 {
        assert queue[i] == queue0[1..][i] == queue0[i + 1];
      }
    }
    forall x | x in found ensures x in bound {
      if x in queue[|queue0| - 1..] {
        var i :| 0 <= i < |queue[|queue0| - 1..]| && queue[|queue0| - 1..][i] == x;
        assert x == queue[|queue0| - 1 + i];
      }
    }
  }

  /** After a round the explored states and the emitted transitions have
      grown by the closure of the dequeued state and its row. */
  lemma StepRows(close: State -> State, dest: (State, string) -> State, alphabet: seq<string>,
                 dfa0: seq<Transition>, explored0: seq<State>, dequeued0: seq<State>, polled: State)
    requires |dequeued0| == |explored0|
    requires forall k :: 0 <= k < |explored0| ==> explored0[k] == close(dequeued0[k])
    requires dfa0 == RowsOf(dest, alphabet, explored0)
    ensures dfa0 + RowOf(dest, alphabet, close(polled)) == RowsOf(dest, alphabet, explored0 + [close(polled)])
    ensures forall k :: 0 <= k < |explored0| + 1 ==>
              (explored0 + [close(polled)])[k] == close((dequeued0 + [polled])[k])
  {
    var explored := explored0 + [close(polled)];
    assert explored[..|explored| - 1] == explored0;
  }

  /** One round keeps the bookkeeping part of the invariant, and either
      records a new state or shortens the queue. */
  lemma StepFoundInvariant(close: State -> State, dest: (State, string) -> State, alphabet: seq<string>,
                           initial: State, queue0: seq<State>, found0: set<State>, dfa0: seq<Transition>,
                           explored0: seq<State>, dequeued0: seq<State>,
                           queue: seq<State>, found: set<State>, dfa: seq<Transition>)
    requires |dequeued0 + queue0| >= 1 && (dequeued0 + queue0)[0] == initial
    requires FoundInvariant(queue0, found0, dfa0, explored0, dequeued0)
    requires queue0 != []
    requires RowEmitted(dest, alphabet, close(queue0[0]), dfa0, found0 + {close(queue0[0])}, queue0[1..], dfa, found, queue)
    ensures FoundInvariant(queue, found, dfa, explored0 + [close(queue0[0])], dequeued0 + [queue0[0]])
    ensures |found0| <= |found| && (|found| == |found0| ==> |queue| < |queue0|)
  {
    var polled := queue0[0];
    var start := close(polled);
    var found1 := found0 + {start};
    var row := RowOf(dest, alphabet, start);
    var added := queue[|queue0| - 1..];
    var enqueued0 := dequeued0 + queue0;
    assert forall i :: 1 <= i < |enqueued0| ==> enqueued0[i] in found1;
    StepEnqueued(initial, dequeued0, queue0, queue, found1);
    StepFound(found0, found, explored0, start, enqueued0, added);
    StepEnds(dfa0, row, enqueued0, added, found0, found);
    SubsetCard(found0, found1);
  }

  /** The states that count as found when the row of the last of
      `explored` is emitted: the explored states and everything queued
      after the first entry. */
  ghost function Seen(explored: seq<State>, enqueued: seq<State>): set<State>
    requires |enqueued| >= 1
  {
    (set x | x in explored) + (set x | x in enqueued[1..])
  }

  /** Everything the first-in-first-out search has queued once it has
      explored `explored`: `initial`, followed by the new destinations of
      each explored state's row, row after row. */
  ghost function Enqueued(dest: (State, string) -> State, alphabet: seq<string>, initial: State,
                          explored: seq<State>): (r: seq<State>)
    ensures |r| >= 1 && r[0] == initial
    decreases |explored|
  {
    if explored == [] then [initial]
    else
      var prev := Enqueued(dest, alphabet, initial, explored[..|explored| - 1]);
      prev + NewEnds(dest, alphabet, explored[|explored| - 1], Seen(explored, prev))
  }

  /** The order part of the search invariant: the queue's history is
      exactly `Enqueued` of the explored states, and the queue was not empty
      when each explored state was dequeued. */
  ghost predicate OrderInvariant(dest: (State, string) -> State, alphabet: seq<string>, initial: State,
                                 queue: seq<State>, explored: seq<State>, dequeued: seq<State>)
  {
    && dequeued + queue == Enqueued(dest, alphabet, initial, explored)
    && forall j :: 0 <= j < |explored| ==> j < |Enqueued(dest, alphabet, initial, explored[..j])|
  }

  /** One round keeps the order part of the invariant. */
  lemma StepOrder(close: State -> State, dest: (State, string) -> State, alphabet: seq<string>,
                  initial: State, queue0: seq<State>, found0: set<State>, dfa0: seq<Transition>,
                  explored0: seq<State>, dequeued0: seq<State>, queue: seq<State>)
    requires queue0 != [] && |dequeued0| == |explored0|
    requires OrderInvariant(dest, alphabet, initial, queue0, explored0, dequeued0)
    requires FoundInvariant(queue0, found0, dfa0, explored0, dequeued0)
    requires queue == queue0[1..] + NewEnds(dest, alphabet, close(queue0[0]), found0 + {close(queue0[0])})
    ensures OrderInvariant(dest, alphabet, initial, queue, explored0 + [close(queue0[0])], dequeued0 + [queue0[0]])
  {
    var start := close(queue0[0]);
    var explored := explored0 + [start];
    var enqueued0 := dequeued0 + queue0;
    assert explored[..|explored| - 1] == explored0;
    SeenIsFound(found0, explored0, dequeued0 + queue0, start);
    assert queue0 == [queue0[0]] + queue0[1..];
    assert (dequeued0 + [queue0[0]]) + queue == enqueued0 + NewEnds(dest, alphabet, start, found0 + {start});
    PrefixesKept(dest, alphabet, initial, explored0, start);
  }

  /** Exploring one more state leaves the history of every earlier prefix
      alone, and the queue was not empty when that state was dequeued. */
  lemma PrefixesKept(dest: (State, string) -> State, alphabet: seq<string>, initial: State,
                     explored0: seq<State>, start: State)
    requires forall j :: 0 <= j < |explored0| ==> j < |Enqueued(dest, alphabet, initial, explored0[..j])|
    requires |explored0| < |Enqueued(dest, alphabet, initial, explored0)|
    ensures forall j :: 0 <= j < |explored0| + 1 ==>
              j < |Enqueued(dest, alphabet, initial, (explored0 + [start])[..j])|
  {
    var explored := explored0 + [start];
    forall j | 0 <= j < |explored|
      ensures j < |Enqueued(dest, alphabet, initial, explored[..j])|
    {
      if j < |explored0| {
        assert explored[..j] == explored0[..j];
      } else {
        assert explored[..j] == explored0;
      }
    }
  }

  /** What the search has recorded as found is what it has explored or
      queued after `initial`. */
  lemma SeenIsFound(found0: set<State>, explored0: seq<State>, enqueued0: seq<State>, start: State)
    requires |enqueued0| >= 1
    requires forall x :: x in found0 <==> x in explored0 || x in enqueued0[1..]
    ensures Seen(explored0 + [start], enqueued0) == found0 + {start}
  {
  }

  /** Every state a row queues is an end of that row. */
  lemma {:induction false} NewEndsInRow(dest: (State, string) -> State, symbols: seq<string>, start: State,
                                        found: set<State>)
    ensures forall i :: 0 <= i < |NewEnds(dest, symbols, start, found)| ==>
              NewEnds(dest, symbols, start, found)[i] in Ends(RowOf(dest, symbols, start))
    decreases |symbols|
  {
    if symbols != [] {
      var m := |symbols| - 1;
      NewEndsInRow(dest, symbols[..m], start, found);
      RowEndsAppend(dest, symbols[..m], symbols[m], start);
      assert symbols[..m] + [symbols[m]] == symbols;
    }
  }

  /** An entry queued after `initial` was queued by the row of an explored
      state that had been dequeued before it. */
  lemma {:induction false} QueuedByEarlierRow(dest: (State, string) -> State, alphabet: seq<string>, initial: State,
                                              explored: seq<State>, k: int)
    requires 1 <= k < |Enqueued(dest, alphabet, initial, explored)|
    ensures exists j :: 0 <= j < |explored| && |Enqueued(dest, alphabet, initial, explored[..j])| <= k
                        && Enqueued(dest, alphabet, initial, explored)[k] in Ends(RowOf(dest, alphabet, explored[j]))
    decreases |explored|
  {
    var m := |explored| - 1;
    var prev := Enqueued(dest, alphabet, initial, explored[..m]);
    if k < |prev| {
      QueuedByEarlierRow(dest, alphabet, initial, explored[..m], k);
      var j :| 0 <= j < m && |Enqueued(dest, alphabet, initial, explored[..m][..j])| <= k
               && prev[k] in Ends(RowOf(dest, alphabet, explored[..m][j]));
      EarlierRowKept(dest, alphabet, initial, explored, k, j);
    } else {
      QueuedByLastRow(dest, alphabet, initial, explored, k);
    }
  }

  /** An entry queued before the last row stays where it was, and the
      earlier prefixes of the explored states are unchanged. */
  lemma EarlierRowKept(dest: (State, string) -> State, alphabet: seq<string>, initial: State,
                       explored: seq<State>, k: int, j: int)
    requires 0 <= j < |explored| - 1
    requires 0 <= k < |Enqueued(dest, alphabet, initial, explored[..|explored| - 1])|
    ensures explored[..|explored| - 1][..j] == explored[..j]
    ensures explored[..|explored| - 1][j] == explored[j]
    ensures Enqueued(dest, alphabet, initial, explored)[k]
         == Enqueued(dest, alphabet, initial, explored[..|explored| - 1])[k]
  {
  }

  /** An entry queued by the last row is an end of that row. */
  lemma QueuedByLastRow(dest: (State, string) -> State, alphabet: seq<string>, initial: State,
                        explored: seq<State>, k: int)
    requires explored != []
    requires |Enqueued(dest, alphabet, initial, explored[..|explored| - 1])| <= k
    requires k < |Enqueued(dest, alphabet, initial, explored)|
    ensures Enqueued(dest, alphabet, initial, explored)[k] in Ends(RowOf(dest, alphabet, explored[|explored| - 1]))
  {
    var m := |explored| - 1;
    var prev := Enqueued(dest, alphabet, initial, explored[..m]);
    var added := NewEnds(dest, alphabet, explored[m], Seen(explored, prev));
    NewEndsInRow(dest, alphabet, explored[m], Seen(explored, prev));
    assert Enqueued(dest, alphabet, initial, explored)[k] == added[k - |prev|];
  }

  /** The row of an explored state is among the rows of every longer
      prefix of the explored states. */
  lemma RowInRows(dest: (State, string) -> State, alphabet: seq<string>, explored: seq<State>, j: int, k: int)
    requires 0 <= j < k <= |explored|
    ensures Ends(RowOf(dest, alphabet, explored[j])) <= Ends(RowsOf(dest, alphabet, explored[..k]))
  {
    var row := RowOf(dest, alphabet, explored[j]);
    var rows := RowsOf(dest, alphabet, explored[..k]);
    forall y | y in Ends(row) ensures y in Ends(rows) {
      var i :| 0 <= i < |row| && row[i].end == y;
      RowMembership(dest, alphabet, explored[j], row[i]);
      assert explored[..k][j] == explored[j];
      RowsOfMembership(dest, alphabet, explored[..k], row[i]);
      var n :| 0 <= n < |rows| && rows[n] == row[i];
    }
  }

  /** Exploring more states only appends to what has been queued. */
  lemma {:induction false} EnqueuedPrefix(dest: (State, string) -> State, alphabet: seq<string>, initial: State,
                                          explored: seq<State>, j: int)
    requires 0 <= j <= |explored|
    ensures Enqueued(dest, alphabet, initial, explored[..j]) <= Enqueued(dest, alphabet, initial, explored)
    decreases |explored|
  {
    if j < |explored| {
      var m := |explored| - 1;
      EnqueuedPrefix(dest, alphabet, initial, explored[..m], j);
      assert explored[..m][..j] == explored[..j];
    } else {
      assert explored[..j] == explored;
    }
  }

  /** A complete first-in-first-out run: the queue is worked off to the
      end, and the `k`-th explored state is `close` of the `k`-th entry ever
      queued, which had been queued before the `k`-th round began. */
  ghost predicate FifoRun(close: State -> State, dest: (State, string) -> State, alphabet: seq<string>,
                          initial: State, explored: seq<State>)
  {
    && |Enqueued(dest, alphabet, initial, explored)| == |explored|
    && forall k :: 0 <= k < |explored| ==> RunStep(close, dest, alphabet, initial, explored, k)
  }

  /** Round `k` of a run dequeued an entry queued before it began. */
  ghost predicate RunStep(close: State -> State, dest: (State, string) -> State, alphabet: seq<string>,
                          initial: State, explored: seq<State>, k: nat)
    requires k < |explored|
  {
    && k < |Enqueued(dest, alphabet, initial, explored[..k])|
    && explored[k] == close(Enqueued(dest, alphabet, initial, explored[..k])[k])
  }

  /** The search's own record of the run makes it a `FifoRun`. */
  lemma RecordIsFifoRun(close: State -> State, dest: (State, string) -> State, alphabet: seq<string>,
                        initial: State, explored: seq<State>, dequeued: seq<State>)
    requires |dequeued| == |explored|
    requires dequeued == Enqueued(dest, alphabet, initial, explored)
    requires forall j :: 0 <= j < |explored| ==> j < |Enqueued(dest, alphabet, initial, explored[..j])|
    requires forall k :: 0 <= k < |explored| ==> explored[k] == close(dequeued[k])
    ensures FifoRun(close, dest, alphabet, initial, explored)
  {
    forall k | 0 <= k < |explored|
      ensures RunStep(close, dest, alphabet, initial, explored, k)
    {
      EnqueuedPrefix(dest, alphabet, initial, explored, k);
    }
  }

  /** There is only one complete first-in-first-out run, so the contract
      of `Explore` determines the explored states. */
  lemma FifoRunUnique(close: State -> State, dest: (State, string) -> State, alphabet: seq<string>,
                      initial: State, e1: seq<State>, e2: seq<State>)
    requires FifoRun(close, dest, alphabet, initial, e1)
    requires FifoRun(close, dest, alphabet, initial, e2)
    ensures e1 == e2
  {
    var n := if |e1| < |e2| then |e1| else |e2|;
    FifoRunsAgree(close, dest, alphabet, initial, e1, e2, n);
    if |e1| < |e2| {
      assert e1[..n] == e1;
      FifoRunAt(close, dest, alphabet, initial, e2, n);
    } else if |e2| < |e1| {
      assert e2[..n] == e2;
      FifoRunAt(close, dest, alphabet, initial, e1, n);
    } else {
      assert e1 == e1[..n] && e2 == e2[..n];
    }
  }

  lemma {:induction false} FifoRunsAgree(close: State -> State, dest: (State, string) -> State, alphabet: seq<string>,
                                         initial: State, e1: seq<State>, e2: seq<State>, n: int)
    requires FifoRun(close, dest, alphabet, initial, e1)
    requires FifoRun(close, dest, alphabet, initial, e2)
    requires 0 <= n <= |e1| && n <= |e2|
    ensures e1[..n] == e2[..n]
  {
    if n > 0 {
      var k := n - 1;
      FifoRunsAgree(close, dest, alphabet, initial, e1, e2, k);
      FifoRunAt(close, dest, alphabet, initial, e1, k);
      FifoRunAt(close, dest, alphabet, initial, e2, k);
      assert e1[..n] == e1[..k] + [e1[k]] && e2[..n] == e2[..k] + [e2[k]];
    }
  }

  lemma FifoRunAt(close: State -> State, dest: (State, string) -> State, alphabet: seq<string>,
                  initial: State, e: seq<State>, k: int)
    requires FifoRun(close, dest, alphabet, initial, e)
    requires 0 <= k < |e|
    ensures k < |Enqueued(dest, alphabet, initial, e[..k])|
    ensures e[k] == close(Enqueued(dest, alphabet, initial, e[..k])[k])
  {
    assert RunStep(close, dest, alphabet, initial, e, k);
  }

  /** The search of `computeTransitions`. A queue seeded with `initial` is
      worked off front first; each dequeued state is first replaced by
      `close` of it, then gets one transition per alphabet symbol, and each
      destination not seen before is recorded and enqueued. `explored` lists
      the states the transitions were emitted for, in order; `dequeued`
      lists the queue entries they came from. All states the search touches
      lie in `bound`, which is what makes it stop. */
  method Explore(close: State -> State, dest: (State, string) -> State, alphabet: seq<string>,
                 initial: State, ghost bound: set<State>)
    returns (dfa: seq<Transition>, explored: seq<State>, ghost dequeued: seq<State>)
    requires initial in bound
    requires forall x :: x in bound ==> close(x) in bound
    requires forall s, a :: dest(s, a) in bound
    ensures |explored| >= 1 && explored[0] == close(initial)
    ensures dfa == RowsOf(dest, alphabet, explored)
    ensures |dequeued| == |explored| && dequeued[0] == initial
    ensures forall k :: 0 <= k < |explored| ==> explored[k] == close(dequeued[k])
    ensures forall k :: 1 <= k < |dequeued| ==> dequeued[k] in Ends(dfa)
    ensures DistinctAfterFirst(dequeued)
    ensures forall i :: 0 <= i < |dfa| ==> dfa[i].end in explored || dfa[i].end in dequeued
    ensures dequeued == Enqueued(dest, alphabet, initial, explored)
    ensures forall j :: 0 <= j < |explored| ==> j < |Enqueued(dest, alphabet, initial, explored[..j])|
    ensures forall k :: 1 <= k < |dequeued| ==> dequeued[k] in Ends(RowsOf(dest, alphabet, explored[..k]))
    ensures FifoRun(close, dest, alphabet, initial, explored)
  {
    var queue := [initial];
    var found: set<State> := {};
    dfa, explored, dequeued := [], [], [];
    while queue != []
      invariant ShapeInvariant(close, dest, alphabet, initial, queue, dfa, explored, dequeued)
      invariant FoundInvariant(queue, found, dfa, explored, dequeued)
      invariant BoundInvariant(bound, queue, found)
      invariant OrderInvariant(dest, alphabet, initial, queue, explored, dequeued)
      decreases |bound| - |found|, |queue|
    {
      SubsetCard(found, bound);
      queue, found, dfa, explored, dequeued := Round(close, dest, alphabet, initial, bound,
                                                     queue, found, dfa, explored, dequeued);
    }
    Finished(close, dest, alphabet, initial, dfa, explored, dequeued, found);
    FinishedOrder(dest, alphabet, initial, explored, dequeued);
    RecordIsFifoRun(close, dest, alphabet, initial, explored, dequeued);
  }

  /** One round of the search: dequeue the front state, close it, emit its
      row and queue the destinations not found before. */
  method Round(close: State -> State, dest: (State, string) -> State, alphabet: seq<string>,
               initial: State, ghost bound: set<State>,
               queue0: seq<State>, found0: set<State>, dfa0: seq<Transition>,
               explored0: seq<State>, ghost dequeued0: seq<State>)
    returns (queue: seq<State>, found: set<State>, dfa: seq<Transition>,
             explored: seq<State>, ghost dequeued: seq<State>)
    requires forall x :: x in bound ==> close(x) in bound
    requires forall s, a :: dest(s, a) in bound
    requires queue0 != []
    requires ShapeInvariant(close, dest, alphabet, initial, queue0, dfa0, explored0, dequeued0)
    requires FoundInvariant(queue0, found0, dfa0, explored0, dequeued0)
    requires BoundInvariant(bound, queue0, found0)
    requires OrderInvariant(dest, alphabet, initial, queue0, explored0, dequeued0)
    ensures ShapeInvariant(close, dest, alphabet, initial, queue, dfa, explored, dequeued)
    ensures FoundInvariant(queue, found, dfa, explored, dequeued)
    ensures BoundInvariant(bound, queue, found)
    ensures OrderInvariant(dest, alphabet, initial, queue, explored, dequeued)
    ensures |found0| <= |found| && (|found| == |found0| ==> |queue| < |queue0|)
  {
    var polled := queue0[0];
    queue := queue0[1..];
    dequeued := dequeued0 + [polled];
    var start := close(polled);
    found := found0 + {start};
    dfa, found, queue := EmitRow(dest, alphabet, start, dfa0, found, queue);
    explored := explored0 + [start];
    StepRows(close, dest, alphabet, dfa0, explored0, dequeued0, polled);
    StepFoundInvariant(close, dest, alphabet, initial, queue0, found0, dfa0, explored0, dequeued0, queue, found, dfa);
    StepBounds(close, dest, alphabet, bound, queue0, found0, queue, found);
    StepOrder(close, dest, alphabet, initial, queue0, found0, dfa0, explored0, dequeued0, queue);
    assert (dequeued + queue)[0] == initial;
  }

  /** An empty queue: the invariant gives the search's postcondition. */
  lemma Finished(close: State -> State, dest: (State, string) -> State, alphabet: seq<string>,
                 initial: State, dfa: seq<Transition>, explored: seq<State>, dequeued: seq<State>,
                 found: set<State>)
    requires ShapeInvariant(close, dest, alphabet, initial, [], dfa, explored, dequeued)
    requires FoundInvariant([], found, dfa, explored, dequeued)
    ensures |explored| >= 1 && explored[0] == close(initial)
    ensures |dequeued| == |explored| && dequeued[0] == initial
    ensures forall k :: 1 <= k < |dequeued| ==> dequeued[k] in Ends(dfa)
    ensures DistinctAfterFirst(dequeued)
    ensures forall i :: 0 <= i < |dfa| ==> dfa[i].end in explored || dfa[i].end in dequeued
  {
    assert dequeued + [] == dequeued;
    forall i | 0 <= i < |dfa| ensures dfa[i].end in explored || dfa[i].end in dequeued {
      assert dfa[i].end in Ends(dfa);
    }
  }

  /** An empty queue: the order part of the invariant says that every
      entry after `initial` was queued by the row of a state explored
      before that entry was dequeued. */
  lemma FinishedOrder(dest: (State, string) -> State, alphabet: seq<string>, initial: State,
                      explored: seq<State>, dequeued: seq<State>)
    requires |dequeued| == |explored|
    requires OrderInvariant(dest, alphabet, initial, [], explored, dequeued)
    ensures dequeued == Enqueued(dest, alphabet, initial, explored)
    ensures forall k :: 1 <= k < |dequeued| ==> dequeued[k] in Ends(RowsOf(dest, alphabet, explored[..k]))
  {
    assert dequeued + [] == dequeued;
    forall k | 1 <= k < |dequeued|
      ensures dequeued[k] in Ends(RowsOf(dest, alphabet, explored[..k]))
    {
      QueuedByEarlierRow(dest, alphabet, initial, explored, k);
      var j :| 0 <= j < |explored| && |Enqueued(dest, alphabet, initial, explored[..j])| <= k
               && dequeued[k] in Ends(RowOf(dest, alphabet, explored[j]));
      RowInRows(dest, alphabet, explored, j, k);
    }
  }

  /** `computeTransitions` on the original transitions `ts`: the search with
      the merged epsilon closure and the destination of `ts`. */
  method ComputeTransitions(ts: seq<Transition>, alphabet: seq<string>, initial: State)
    returns (dfa: seq<Transition>, explored: seq<State>, ghost dequeued: seq<State>)
    ensures |explored| >= 1 && explored[0] == StartState(ts, initial)
    ensures dfa == Rows(ts, alphabet, explored)
    ensures |dequeued| == |explored| && dequeued[0] == initial
    ensures forall k :: 0 <= k < |explored| ==> explored[k] == StartState(ts, dequeued[k])
    ensures forall k :: 1 <= k < |dequeued| ==> dequeued[k] in Ends(dfa)
    ensures DistinctAfterFirst(dequeued)
    ensures forall i :: 0 <= i < |dfa| ==> dfa[i].end in explored || dfa[i].end in dequeued
    ensures dequeued == Enqueued(DestinationFn(ts), alphabet, initial, explored)
    ensures forall j :: 0 <= j < |explored| ==> j < |Enqueued(DestinationFn(ts), alphabet, initial, explored[..j])|
    ensures forall k :: 1 <= k < |dequeued| ==> dequeued[k] in Ends(Rows(ts, alphabet, explored[..k]))
    ensures FifoRun(StartFn(ts), DestinationFn(ts), alphabet, initial, explored)
  {
    ghost var names := initial.names + EndNames(ts);
    var close, dest := StartFn(ts), DestinationFn(ts);
    forall s, a ensures dest(s, a) in Candidates(names) {
      DestinationBounded(ts, s, a);
    }
    dfa, explored, dequeued := Explore(close, dest, alphabet, initial, Candidates(names));
  }
}
