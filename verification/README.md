# NFA-to-DFA converter, modelled in Dafny

This project models the core of a small Java program that converts a
nondeterministic finite automaton into a deterministic one by the subset
construction. The model covers:

- the value types `State` (a set of original state names, with the
  sentinel `EMPTY`) and `Transition` (a labelled edge, with `EPS` as the
  epsilon label);
- the conversion in `FSA`:
  - the binary-counter power-set enumeration (`computePowerSet`, `addOne`);
  - the stack-based epsilon closure;
  - the breadth-first construction of the DFA transitions;
  - `mergeStates`;
  - the derivation of the accept states;
- the pure text helpers of `Main` that read an automaton from its lines and
  write the tab-separated output lines.

Every exception the Java code throws becomes a `Failure` of the `Result`
type in `results.dfy`, with one error constructor per throw site.

Module layout, one file each:

| file | module | Java counterpart |
|---|---|---|
| `results.dfy` | `Results` | the exceptions |
| `seqs.dfy` | `Seqs` | list helpers |
| `java_strings.dfy` | `JavaStrings` | `String.compareTo`, `trim`, `indexOf`, `join`, split |
| `state.dfy` | `States` | `State` |
| `state_sort.dfy` | `StateSort` | `Collections.sort` on states |
| `transition.dfy` | `Transitions` | `Transition` |
| `bit_counter.dfy` | `BitCounter` | the `exists` bit array and `addOne` |
| `power_set.dfy` | `PowerSet` | `computePowerSet` |
| `closure.dfy` | `EpsilonClosure` | `computeEpsilonClosure` |
| `merge.dfy` | `Merging` | `mergeStates` |
| `destinations.dfy` | `Destinations` | the start and end states inside `computeTransitions` |
| `subset_construction.dfy` | `SubsetConstruction` | `computeTransitions` |
| `accept_states.dfy` | `AcceptStates` | `computeAcceptStates` |
| `fsa.dfy` | `Automata` | `FSA` and `convertToDFA` |
| `text_format.dfy` | `TextFormat` | the helpers of `Main` |

A `State` is a value over its name set. The Java class interns states in a
static cache, so two states built by `State.of` are the same object exactly
when their name sets are equal. `EMPTY` is the only state without names,
and `State.of` refuses the empty set. Reference identity in the source is
therefore value equality here.

The epsilon closure follows the Java stack search step by step. That
includes re-expanding a state that was pushed twice. The search terminates
because of a LIFO invariant: the unvisited epsilon successors of a visited
stack entry sit above it on the stack.

The breadth-first search is generic over its closing and destination
functions. It terminates because every state it finds has names drawn from
the finitely many names of the automaton.

## Model

| member | source | states |
|---|---|---|
| States.Of | State.java:18-32 | fails with `EmptyState` exactly when the name set is empty; otherwise the state holds exactly the given names and is never `EMPTY` |
| States.OfIsCanonical | State.java:23-31 | two successful `of` calls give the same state exactly when their name sets are equal, which is what the cache guarantees |
| States.OfName | State.java:35-39 | `of(name)` is the state `of` gives for the one-element set, with that one name, and is not `EMPTY` |
| States.OfNeverEmpty | State.java:13-21 | `of` never returns the sentinel, and it fails exactly on the sentinel's (empty) name set |
| States.Listing | State.java:43-46 | the names listed in the display name are each name of the set, each exactly once |
| States.DisplayName | State.java:43-46 | the display name is `{`, then the names in `Listing` order joined by `, `, then `}`; so every name of the set occurs between the braces, the braces hold nothing but the names and one `, ` between neighbouring names, and no names give `{}` |
| States.ToString | State.java:62-74 | a state displays as `EM` exactly when it is `EMPTY`; any other state displays as its brace-enclosed name list |
| States.SingletonDisplay | State.java:43-46 | a one-name state displays as its name between braces |
| States.CompareTo | State.java:76-84 | negative exactly when the first state has fewer names, or as many names and a display string that comes first lexicographically; zero exactly when both have as many names and the same display string |
| States.CompareToReflexive | State.java:77-84 | every state compares equal to itself |
| States.CompareToAntisymmetric | State.java:77-84 | swapping the operands negates the result; fewer names sort first; comparing equal means the same name count and the same display string |
| States.CompareToTransitive | State.java:77-84 | the order is transitive, so it is a total preorder that sorting can use |
| JavaStrings.CompareStrings | State.java:81 | `String.compareTo` is negative exactly when the first string comes first in the lexicographic order of character codes: it is a proper prefix of the second, or it has the smaller character at the first position where the two differ |
| JavaStrings.CompareAntisymmetric | State.java:81 | `String.compareTo` negates when its operands are swapped |
| JavaStrings.CompareZeroIffEqual | State.java:81 | `String.compareTo` is zero exactly on equal strings |
| JavaStrings.CompareTransitive | State.java:81 | `String.compareTo` is transitive |
| JavaStrings.TrimSpec | Main.java:93 | `trim` keeps the infix after the leading white space and drops only white space at the back |
| JavaStrings.TrimmedEnds | Main.java:93 | what `trim` keeps neither starts nor ends with white space |
| JavaStrings.TrimPadded | Main.java:93 | `trim` leaves unpadded text alone and strips one blank on each side of it |
| JavaStrings.TrimBlankPrefix | Main.java:93 | leading white space does not change what `trim` returns |
| JavaStrings.IndexOf | Main.java:54-55 | `indexOf` is -1 exactly when the character is absent; otherwise it is the position of the first occurrence |
| JavaStrings.JoinContents | State.java:45 | every piece occurs in the string `String.join` builds, and that string is exactly as long as the pieces plus one separator between each neighbouring pair |
| JavaStrings.SplitOn | Main.java:87-89 | the pieces of a split hold no separator, and joining them with the separator gives the line back |
| JavaStrings.SplitJoin | Main.java:87-89 | splitting a line joined from separator-free pieces gives the pieces back |
| Transitions.Matches | Transition.java:19-21 | `matches(from, input)` holds exactly when the transition is the one built from `from`, `input` and its own end state |
| StateSort.Sort | FSA.java:88-89 | `Collections.sort` gives a sorted permutation of its input |
| StateSort.SortStable | FSA.java:88-89 | `Collections.sort` is stable: the states that compare equal to any given state come out in the order they went in |
| StateSort.InsertTies | FSA.java:88-89 | inserting a state places it after every state it compares equal to |
| StateSort.SortedPairwise | FSA.java:88-89 | in a sorted list every state compares at most equal to every later one |
| BitCounter.AddOne | FSA.java:97-106 | `addOne` keeps the length of the array |
| BitCounter.AddOneIncrements | FSA.java:98-106 | `addOne` adds one to the big-endian number the bit array encodes, and wraps from all ones to all zeros |
| BitCounter.CountEncodes | FSA.java:70-76 | after `k < 2^N` calls of `addOne` from all false, the array encodes `k` |
| BitCounter.CountWrapsAround | FSA.java:70-76 | after `2^N` calls the array is all false again |
| BitCounter.Count | FSA.java:70-76 | the array keeps its `N` entries through every call of `addOne` |
| BitCounter.BitsInjective | FSA.java:98-106 | two arrays of one length that encode the same number are equal |
| BitCounter.NatToBitsToNat | FSA.java:98-106 | writing a number below `2^N` as N bits and reading it back gives the number |
| BitCounter.BitsToNatToBits | FSA.java:98-106 | reading N bits as a number and writing it back gives the bits |
| BitCounter.CountIsNatToBits | FSA.java:75-76 | below `2^N`, the counter after `k` calls holds the binary pattern of `k` |
| BitCounter.NonZeroHasSetBit | FSA.java:79-83 | a non-zero pattern sets at least one bit, so it selects at least one state |
| BitCounter.PowerOfTwoBits | FSA.java:79-83 | the pattern `2^m` sets exactly the bit of the state at index `N-1-m` |
| PowerSet.WrapInt32 | FSA.java:72 | the reduction to a Java `int` lands in the `int` range, differs from the exact value by a multiple of `2^32`, and leaves in-range values alone |
| PowerSet.IterationCountValue | FSA.java:72 | the Java expression for the iteration count evaluates to `2^(N mod 32) - 1` |
| PowerSet.IterateSucceeds | FSA.java:75-86 | the loop succeeds exactly when every state it builds is accepted by `State.of` |
| PowerSet.IterateValue | FSA.java:75-86 | when every step succeeds, the loop collects the state of each counter value, in order |
| PowerSet.IterateFailure | FSA.java:75-86 | a failing loop fails with the error of the first counter value whose state is rejected |
| PowerSet.SubsetStatesMeaning | FSA.java:75-86 | the loop succeeds exactly when every counter value selects a name; it then lists the union of the selected states' names for each counter value |
| PowerSet.PowerSetWith | FSA.java:64-95 | for a given iteration count: succeeds exactly when every counter value selects a name, and fails with `EmptyState` otherwise |
| PowerSet.PowerSetWithContents | FSA.java:64-95 | on success the list holds `EMPTY` and then, sorted, a permutation of the states of counter values `1 .. iterations` |
| PowerSet.ComputePowerSet | FSA.java:64-95 | the power set is built exactly when every input state has a name, and fails with `EmptyState` otherwise |
| PowerSet.ComputePowerSetContents | FSA.java:64-95 | the power set has `2^N` entries: `EMPTY`, then a sorted permutation of the states of the bit patterns `1 .. 2^N - 1` |
| PowerSet.CounterStatesArePatterns | FSA.java:75-86 | below `2^N`, the state built on the `k`-th pass is the one selected by the binary pattern of `k` |
| PowerSet.PatternsNonEmptyIff | FSA.java:79-85 | every non-zero pattern selects some name exactly when every input state has a name |
| PowerSet.NonEmptyStatesSelectSomething | FSA.java:79-85 | when every input state has a name, every non-zero pattern selects a name |
| PowerSet.EmptyStateSelectedAlone | FSA.java:79-85 | a nameless input state is selected alone by one pattern, whose union is then empty |
| PowerSet.ComputePowerSetAsWritten | FSA.java:64-95 | with the `int` iteration count: succeeds exactly when every counter value the loop visits selects a name, fails with `EmptyState` otherwise, and on success lists `EMPTY` and then, sorted, one state per loop pass |
| PowerSet.AsWrittenAgreesBelow32 | FSA.java:72-75 | below 32 states, the `int` iteration count gives the intended power set |
| PowerSet.LoopIterationsBelow32 | FSA.java:72-75 | below 32 states the loop runs `2^N - 1` times |
| PowerSet.AsWrittenWrapsAt32 | FSA.java:72-75 | with 32 states the loop runs zero times and the power set is just `[EMPTY]` |
| EpsilonClosure.ReachableStep | FSA.java:120-126 | an `EPS` edge out of a reachable state leads to a reachable state |
| EpsilonClosure.ClosedContainsAllReachable | FSA.java:110-132 | a set closed under `EPS` edges that holds `s` holds everything reachable from `s` |
| EpsilonClosure.Pushes | FSA.java:120-128 | one expansion pushes exactly the unvisited `EPS` successors, each an end state of some transition |
| EpsilonClosure.SearchStep | FSA.java:115-128 | one pop keeps the search invariant; popping a visited state changes nothing but the stack |
| EpsilonClosure.Search | FSA.java:115-131 | the search returns a superset of the visited states that holds the start, is closed under `EPS` edges and holds only reachable states |
| EpsilonClosure.Closure | FSA.java:110-132 | the closure holds the start, is closed under `EPS` edges, holds exactly the states reachable by `EPS` paths, and holds nothing but the start and end states of transitions |
| EpsilonClosure.ClosureIdempotent | FSA.java:110-132 | the closure of any member of a closure lies within that closure |
| Merging.DistinctStatesHaveNames | FSA.java:194-198 | two or more distinct states always have some name between them |
| Merging.MergeStates | FSA.java:189-199 | fails with `EmptyState` exactly on an empty collection; a single state is returned itself; otherwise the result holds the union of all names, and is `EMPTY` only when that union is empty |
| Destinations.StartState | FSA.java:144 | the state explored for a dequeued state holds the names of its epsilon closure, which include its own names and add only names of end states |
| Destinations.EndStatesMembers | FSA.java:150-163 | a state is collected for a symbol exactly when it is in the closure of the end of a transition on that symbol out of a name of the start state |
| Destinations.Destination | FSA.java:150-171 | the destination holds the union of the names of all collected states, and is `EMPTY` exactly when that union is empty |
| Destinations.DestinationNames | FSA.java:150-171 | a name is in the destination exactly when it belongs to a state epsilon-reachable from the end of a matching transition |
| Destinations.DestinationNameHasSource | FSA.java:150-171 | every name of a destination comes from a state epsilon-reachable from a matching transition's end |
| Destinations.ReachedNameInDestination | FSA.java:150-171 | every name of such a reachable state is in the destination |
| Destinations.DestinationWithoutMove | FSA.java:166-168 | with no matching transition the destination is `EMPTY` |
| Destinations.DestinationWithMove | FSA.java:169-171 | a matching transition into a named state makes the destination differ from `EMPTY` |
| Destinations.DestinationBounded | FSA.java:150-171 | destinations only ever hold names of end states of the original transitions |
| SubsetConstruction.RowOf | FSA.java:149-181 | the row of one explored state has one transition per alphabet symbol, in alphabet order, from that state to the destination on that symbol |
| SubsetConstruction.RowsLength | FSA.java:142-181 | the converter emits `|alphabet|` transitions per explored state |
| SubsetConstruction.RowsMembership | FSA.java:142-181 | a transition is emitted exactly when it leaves an explored state on an alphabet symbol towards that pair's destination |
| SubsetConstruction.RowsDeterministic | FSA.java:149-180 | emitted transitions with the same start and symbol are equal, and every explored state has a transition on every symbol |
| SubsetConstruction.EmitRow | FSA.java:149-181 | the symbol loop appends the row of the start state; it queues exactly the destinations not found before, each once, in symbol order, and records them as found |
| SubsetConstruction.QueueOrderStep | FSA.java:173-177 | one symbol extends the queue by its destination exactly when that destination was not found before |
| SubsetConstruction.Round | FSA.java:142-181 | one round of the search keeps the search invariant, including the queue history, and makes progress |
| SubsetConstruction.StepOrder | FSA.java:142-177 | one round dequeues the front entry and appends the new destinations of the explored state's row to the queue history |
| SubsetConstruction.EnqueuedPrefix | FSA.java:138-177 | exploring more states only appends to the queue history |
| SubsetConstruction.QueuedByEarlierRow | FSA.java:173-177 | every entry queued after the initial state is an end of the row of a state explored before that entry was dequeued |
| SubsetConstruction.FinishedOrder | FSA.java:142-177 | once the queue is empty, every dequeued entry after the initial one is an end of the rows emitted before its own round |
| SubsetConstruction.RecordIsFifoRun | FSA.java:138-177 | the search's record of dequeued and explored states is a complete first-in-first-out run |
| SubsetConstruction.FifoRunUnique | FSA.java:138-177 | there is only one complete first-in-first-out run, so the contract of the search determines the explored states |
| SubsetConstruction.Explore | FSA.java:135-185 | the search starts from the initial state and explores the closure of each dequeued state. It emits exactly the rows of the explored states. The dequeued entries are the first-in-first-out queue history: the initial state, then the new destinations of each row in turn. Every entry after the initial one is an end of a row emitted before its own round. No state is dequeued twice after the initial one, and the explored states form the unique complete first-in-first-out run |
| SubsetConstruction.ComputeTransitions | FSA.java:135-185 | the same, for the merged epsilon closure and the destination of the original transitions |
| AcceptStates.Accepting | FSA.java:209-222 | a state accepts exactly when it shares a name with the original accept states |
| AcceptStates.ComputeAcceptStates | FSA.java:201-227 | fails with `EmptyState` exactly when there are no accept states; otherwise the accept states are exactly the starts and ends of emitted transitions that share a name with an original accept state, and never `EMPTY` |
| Automata.ConvertToDfa | FSA.java:47-61 | a DFA is returned unchanged. Otherwise the conversion fails exactly when a state has no names or there is no accept state. On success the result is flagged DFA, keeps the alphabet, has the power set as its states and the merged closure of the initial state as its initial state, has one transition per explored state and symbol, is deterministic, and has the derived accept states. The explored states are the unique complete first-in-first-out run from the initial state, and each state explored after the first is the closure of an end of a transition emitted before it |
| TextFormat.ToState | Main.java:92-101 | a token is accepted exactly when, trimmed, it is longer than two characters and braced; a rejected token reports the trimmed token; an accepted one gives the state whose one name is the text between the braces of the trimmed token |
| TextFormat.ToStateOfDisplay | Main.java:92-101 | reading back the display of a one-name state gives the state back |
| TextFormat.ToStateRejectsEmpty | Main.java:96-98 | the display `EM` of the sentinel is rejected as a state token |
| TextFormat.ToStatePadded | Main.java:93 | a blank in front of a token does not change how it reads |
| TextFormat.ParseTransition | Main.java:54-60 | a line without a `,` or without a `=`, or whose first `=` does not come after its first `,`, is rejected; an accepted line gives a transition between one-name states |
| TextFormat.ParseParts | Main.java:63-67 | the pieces read succeed exactly when both state tokens read; the symbol is the trimmed middle piece; a bad start token is reported first |
| TextFormat.ParseAtSeparators | Main.java:54-65 | once the first `,` and the first `=` are found, the line reads as the text before, between and after them |
| TextFormat.ParseJoined | Main.java:54-65 | a line built from three pieces around a `,` and a `=` reads as those pieces when the first piece has no separator and the second no `=` |
| TextFormat.ParseTransitionRoundTrip | Transition.java:36-38 | the line `Transition.toString` writes for one-name states reads back as the same transition, given no `,` or `=` in the start name, no `=` in the symbol and no white space around the symbol |
| TextFormat.ReadTransitions | Main.java:48-71 | one transition per line from the fifth on, in order; the list fails exactly when one of those lines is rejected |
| TextFormat.ReadTransitionsFirstRejected | Main.java:52-60 | a rejected list reports the error of its first bad line |
| TextFormat.SplitByTabs | Main.java:87-89 | a line without a tab is its own single piece; otherwise the pieces between tabs with the trailing empty ones dropped; no piece holds a tab |
| TextFormat.ReadStates | Main.java:74-84 | the states succeed exactly when every token reads; the list is sorted and a permutation of the tokens' states |
| TextFormat.ReadNfa | Main.java:8-22 | fewer than five lines are rejected; a successful read takes each part from its own line, keeps the accept states as a set, and is not flagged DFA |
| TextFormat.ReadNfaSucceeds | Main.java:14-21 | with five lines or more, the read succeeds exactly when the states, the initial state, the accept states and the transitions all read |
| TextFormat.TabLine | Main.java:145-157 | the serialised line is the pieces joined by single tabs, with no trailing tab, and empty for no pieces |
| TextFormat.AlphabetToString | Main.java:145-157 | the alphabet line is the symbols joined by single tabs |
| TextFormat.StatesToString | Main.java:128-142 | the states line is the states' displays joined by single tabs |
| TextFormat.AlphabetRoundTrip | Main.java:145-157 | reading back a written alphabet gives it back when no symbol holds a tab and the last symbol is not empty |

## Left out

- File and console I/O (`readLines`, `writeOutputFromDFA`, `main`, `FSA.print`): the model reads from and writes to `seq<string>` lines and strings.
- The static `HashMap` cache of `State` and Java reference identity: states are values over their name sets, which is what the cache makes reference equality mean.
- `HashSet` iteration order: the display name lists the names in ascending `String.compareTo` order. The source's order is unspecified, and this is one admissible order. Every other set the source iterates (`endStates`, the closure, `foundStates`, the accept states) is a Dafny `set`, on which the order does not matter.
- StatesToString: takes the states as a sequence. The source's `Collection` iteration order is unspecified for the accept states it is called with.
- Java strings are sequences of UTF-16 code units and Dafny strings are sequences of `char`. `trim` and `compareTo` are modelled on the characters; surrogate pairs are not modelled.
- Exception types and messages: each throw site becomes one `Error` constructor, and the message text is not modelled.
- The getters of `Transition` are the datatype's destructors; a datatype value cannot change, so there is no separate member for them.
- Transitions.ToString: has no contract of its own. Its meaning is stated by `TextFormat.ParseTransitionRoundTrip`, which reads the line it writes.
- JavaStrings.Trim: states its meaning in the separate lemmas `TrimSpec`, `TrimmedEnds`, `TrimPadded` and `TrimBlankPrefix`, not in its own `ensures`.
- BitCounter.AddOne: its own `ensures` states only that the length is kept. The increment is stated by `AddOneIncrements`.
- BitCounter.Count: its own `ensures` states only the length. What the array encodes is stated by `CountEncodes`, `CountWrapsAround` and `CountIsNatToBits`.
- PowerSet.ComputePowerSetAsWritten: its own `ensures` does not state which states the list holds. `PowerSetWithContents` states that they are a permutation of the states of the counter values.
- Destinations.Destination: its own `ensures` states the names through the collected states. Which states are collected is stated by `EndStatesMembers` and `DestinationNames`.
- PowerSet.PowerSetWith: its own `ensures` states only when it succeeds. The contents of the list are stated by `PowerSetWithContents`.
- PowerSet.ComputePowerSet: its own `ensures` states only when it succeeds. The contents and the `2^N` size are stated by `ComputePowerSetContents`.
- PowerSet.ComputePowerSet: does not model the memory a list of `2^N` entries needs. For 31 states the source's loop count is right but the list cannot be built in practice.
- Automata.ConvertToDfa: uses the corrected iteration count `2^N - 1` of `PowerSet.ComputePowerSet`, not the source's `int` expression; see Findings. It returns the explored states and the dequeued queue entries as ghost values, so that its contract can describe the emitted transitions and the order of the search.

## Findings

| source | as written | input that shows it | evidently intended | confidence | as-written member | corrected member |
|---|---|---|---|---|---|---|
| FSA.java:72 | the loop count is the Java `int` value of one shifted left by the number of states, minus one, and Java takes the shift distance modulo 32 | any list of 32 states: the shift gives 1, the loop runs zero times and the power set is just `[EMPTY]`, where it should hold `2^32` entries | `2^N - 1` loop passes, giving all `2^N` subsets | not executed; the arithmetic is proved | PowerSet.AsWrittenWrapsAt32 | PowerSet.ComputePowerSetContents |
