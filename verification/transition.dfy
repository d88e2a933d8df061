/** A labelled edge between two states. Transitions are immutable values;
    the getters of the source are the datatype's destructors. */
module Transitions {
  import opened States

  /** The reserved label of an epsilon transition. */
  const EPSILON: string := "EPS"

  datatype Transition = Transition(start: State, symbol: string, end: State)

  /** `t.matches(from, input)`: `t` leaves `from` on `input`. A transition
      matches exactly the (start, symbol) pair it was built with: matching
      pins down every component except the end state. */
  predicate Matches(t: Transition, from: State, input: string): (r: bool)
    ensures r <==> t == Transition(from, input, t.end)
  {
    from == t.start && input == t.symbol
  }

  /** `toString`: "start, symbol = end". */
  function ToString(t: Transition): string
  {
    States.ToString(t.start) + ", " + t.symbol + " = " + States.ToString(t.end)
  }
}
