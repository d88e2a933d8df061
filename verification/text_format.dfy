/** The pure text helpers of `Main`: reading an automaton from the lines of
    its input file and writing the tab-separated lines of the output. */
module TextFormat {
  import opened Results
  import opened JavaStrings
  import opened States
  import opened StateSort
  import opened Transitions
  import opened Automata
  import opened Seqs

  const TAB: char := '\t'

  /** `toState`: a token that, once trimmed, is longer than two characters
      and enclosed in braces names the one-name state of the untrimmed text
      between the braces; any other token is rejected. */
  function ToState(token: string): (r: Result<State>)
    ensures r.Success? <==> var t := Trim(token); |t| > 2 && t[0] == '{' && t[|t| - 1] == '}'
    ensures r.Failure? ==> r.error == MalformedState(Trim(token))
    ensures r.Success? ==> |r.value.names| == 1
    ensures r.Success? ==> var t := Trim(token); r.value.names == {t[1..|t| - 1]}
  {
    Braced(Trim(token))
  }

  /** The state written as `{name}` with a non-empty `name`. */
  function Braced(t: string): Result<State>
  {
    if |t| <= 2 || t[0] != '{' || t[|t| - 1] != '}' then
      Failure(MalformedState(t))
    else
      Success(OfName(t[1..|t| - 1]))
  }

  /** Reading back the display of a one-name state gives the state back. */
  lemma ToStateOfDisplay(name: string)
    requires name != ""
    ensures ToState(States.ToString(OfName(name))) == Success(OfName(name))
  {
    SingletonDisplay(name);
    ToStateBraced(name);
  }

  lemma ToStateBraced(name: string)
    requires name != ""
    ensures ToState("{" + name + "}") == Success(OfName(name))
  {
    var t := "{" + name + "}";
    assert t[0] == '{' && t[|t| - 1] == '}';
    TrimPadded(t);
    assert t[1..|t| - 1] == name;
  }

  /** The display of the sentinel `EMPTY` is not a readable state token. */
  lemma ToStateRejectsEmpty()
    ensures ToState(States.ToString(EMPTY)) == Failure(MalformedState(EMPTY_NAME))
  {
    TrimPadded(EMPTY_NAME);
  }

  /** One line of `readTransitions`: "A, x = B" with the first comma before
      the first equals sign; the symbol is the trimmed text between them. */
  function ParseTransition(line: string): (r: Result<Transition>)
    ensures (',' !in line || '=' !in line) ==> r == Failure(MalformedTransition(line))
    ensures ',' in line && '=' in line && IndexOf(line, '=') <= IndexOf(line, ',') ==>
              r == Failure(MalformedTransition(line))
    ensures r.Success? ==> |r.value.start.names| == 1 && |r.value.end.names| == 1
  {
    ParseAt(line, IndexOf(line, ','), IndexOf(line, '='))
  }

  /** A transition line whose first ',' is at `comma` and whose first '='
      is at `eq` (each -1 when missing). */
  function ParseAt(line: string, comma: int, eq: int): (r: Result<Transition>)
    requires -1 <= comma < |line| && -1 <= eq < |line|
    ensures comma < 0 || eq < 0 || eq <= comma ==> r == Failure(MalformedTransition(line))
  {
    if comma < 0 || eq < 0 || eq <= comma then
      Failure(MalformedTransition(line))
    else
      ParseParts(line[..comma], line[comma + 1..eq], line[eq + 1..])
  }

  /** The three pieces of a transition line read in order: the start token,
      then the symbol, then the end token. */
  function ParseParts(startToken: string, symbolText: string, endToken: string): (r: Result<Transition>)
    ensures r.Success? <==> ToState(startToken).Success? && ToState(endToken).Success?
    ensures ToState(startToken).Failure? ==> r == Failure(ToState(startToken).error)
    ensures r.Success? ==> r.value == Transition(ToState(startToken).value, Trim(symbolText), ToState(endToken).value)
  {
    var start :- ToState(startToken);
    var symbol := Trim(symbolText);
    var end :- ToState(endToken);
    Success(Transition(start, symbol, end))
  }

  /** Once the separators are found, the line reads as its three pieces:
      the start token before the comma, the symbol between the comma and
      the equals sign, the end token after the equals sign. */
  lemma ParseAtSeparators(line: string, comma: int, eq: int)
    requires 0 <= comma < eq < |line|
    requires IndexOf(line, ',') == comma && IndexOf(line, '=') == eq
    ensures ParseTransition(line) == ParseParts(line[..comma], line[comma + 1..eq], line[eq + 1..])
  {
  }

  /** The line `Transition.toString` writes for a transition between
      one-name states reads back as that transition, provided the start name
      holds no ',' or '=', the symbol holds no '=' and is already trimmed. */
  lemma ParseTransitionRoundTrip(a: string, symbol: string, b: string)
    requires a != "" && b != ""
    requires ',' !in a && '=' !in a && '=' !in symbol
    requires symbol == [] || (!IsTrimmable(symbol[0]) && !IsTrimmable(symbol[|symbol| - 1]))
    ensures ParseTransition(Transitions.ToString(Transition(OfName(a), symbol, OfName(b))))
              == Success(Transition(OfName(a), symbol, OfName(b)))
  {
    SingletonDisplay(a);
    SingletonDisplay(b);
    var p1, p2, p3 := "{" + a + "}", [' '] + symbol + [' '], [' '] + ("{" + b + "}");
    WrittenPieces(p1, symbol, "{" + b + "}");
    ParseJoined(p1, p2, p3);
    ParseBracedParts(p1, p2, p3, a, symbol, b);
  }

  /** A line made of three pieces around a ',' and a '=' reads as those
      pieces, when the first piece holds neither separator and the second
      holds no '='. */
  lemma ParseJoined(p1: string, p2: string, p3: string)
    requires ',' !in p1 && '=' !in p1 && '=' !in p2
    ensures ParseTransition(p1 + [','] + p2 + ['='] + p3) == ParseParts(p1, p2, p3)
  {
    var line := p1 + [','] + p2 + ['='] + p3;
    var comma, eq := |p1|, |p1| + 1 + |p2|;
    SplitAtSeparators(p1, ',', p2, '=', p3);
    FirstAt(line, ',', p1, [','] + p2 + ['='] + p3);
    FirstAt(line, '=', p1 + [','] + p2, ['='] + p3);
    ParseAtSeparators(line, comma, eq);
  }

  /** The first `c` in `prefix + rest`, when `prefix` holds none and
      `rest` starts with one. */
  lemma FirstAt(line: string, c: char, prefix: string, rest: string)
    requires line == prefix + rest && c !in prefix && rest != [] && rest[0] == c
    ensures IndexOf(line, c) == |prefix|
  {
    assert line[..|prefix|] == prefix;
    assert line[|prefix|] == c;
  }

  /** A written line cut at its ',' and its '='. */
  lemma WrittenPieces(x: string, y: string, z: string)
    ensures x + ", " + y + " = " + z == x + [','] + ([' '] + y + [' ']) + ['='] + ([' '] + z)
  {
    assert ", " == [','] + [' '] && " = " == [' '] + ['='] + [' '];
  }

  /** The three pieces of a written line read as the transition. */
  lemma ParseBracedParts(p1: string, p2: string, p3: string, a: string, symbol: string, b: string)
    requires a != "" && b != ""
    requires symbol == [] || (!IsTrimmable(symbol[0]) && !IsTrimmable(symbol[|symbol| - 1]))
    requires p1 == "{" + a + "}" && p2 == [' '] + symbol + [' '] && p3 == [' '] + ("{" + b + "}")
    ensures ParseParts(p1, p2, p3) == Success(Transition(OfName(a), symbol, OfName(b)))
  {
    ToStateBraced(a);
    TrimPadded(symbol);
    ToStateBraced(b);
    ToStatePadded("{" + b + "}");
  }

  /** A blank in front of a token does not change how it reads. */
  lemma ToStatePadded(token: string)
    ensures ToState([' '] + token) == ToState(token)
  {
    TrimBlankPrefix(' ', token);
  }

  /** `readTransitions`: every line from the fifth on is a transition. */
  function ReadTransitions(lines: seq<string>): (r: Result<seq<Transition>>)
    ensures r.Success? ==> |r.value| == if |lines| < 4 then 0 else |lines| - 4
    ensures r.Success? ==> forall i :: 4 <= i < |lines| ==> ParseTransition(lines[i]) == Success(r.value[i - 4])
    ensures r.Failure? <==> exists i :: 4 <= i < |lines| && ParseTransition(lines[i]).Failure?
  {
    if |lines| < 4 then Success([])
    else
      var r := MapAll(ParseTransition, lines[4..]);
      assert forall i :: 4 <= i < |lines| ==> lines[i] == lines[4..][i - 4];
      r
  }

  /** A rejected rule list reports the first bad line from the fifth on. */
  lemma ReadTransitionsFirstRejected(lines: seq<string>)
    requires ReadTransitions(lines).Failure?
    ensures exists i :: FirstRejected(ParseTransition, lines[4..], i)
                        && ReadTransitions(lines).error == ParseTransition(lines[4 + i]).error
  {
    var rest := lines[4..];
    MapAllFirstRejected(ParseTransition, rest);
    var i :| FirstRejected(ParseTransition, rest, i) && MapAll(ParseTransition, rest).error == ParseTransition(rest[i]).error;
    assert rest[i] == lines[4 + i];
  }

  /** The pieces of `s` after dropping the trailing empty ones. */
  function DropTrailingEmpty(xs: seq<string>): (r: seq<string>)
    ensures |r| <= |xs| && r == xs[..|r|]
    ensures forall i :: |r| <= i < |xs| ==> xs[i] == ""
    ensures r == [] || r[|r| - 1] != ""
  {
    if xs == [] || xs[|xs| - 1] != "" then xs
    else DropTrailingEmpty(xs[..|xs| - 1])
  }

  /** `splitByTabs`, that is `line.split("\t")`: a line without a tab is
      its own single piece; otherwise the pieces between tabs, without the
      trailing empty ones. */
  function SplitByTabs(line: string): (r: seq<string>)
    ensures TAB !in line ==> r == [line]
    ensures TAB in line ==>
              var pieces := SplitOn(line, TAB);
              && |r| <= |pieces| && r == pieces[..|r|]
              && (forall i :: |r| <= i < |pieces| ==> pieces[i] == "")
              && (r == [] || r[|r| - 1] != "")
    ensures forall i :: 0 <= i < |r| ==> TAB !in r[i]
  {
    if TAB !in line then [line] else DropTrailingEmpty(SplitOn(line, TAB))
  }

  /** `readStates`: the tab-separated tokens of a line as states, sorted
      by `compareTo`. */
  function ReadStates(line: string): (r: Result<seq<State>>)
    ensures r.Success? <==> MapAll(ToState, SplitByTabs(line)).Success?
    ensures r.Success? ==> Sorted(r.value) && IsPermutation(r.value, MapAll(ToState, SplitByTabs(line)).value)
  {
    var states :- MapAll(ToState, SplitByTabs(line));
    Success(Sort(states))
  }

  /** `readNFAFromInput` over the lines of the input file: fewer than five
      lines are rejected; otherwise the states, alphabet, initial state,
      accept states and transitions are read from the lines in that order,
      the first failing read decides the error, and the result is not
      flagged as a DFA. */
  function ReadNfa(lines: seq<string>): (r: Result<Fsa>)
    ensures |lines| < 5 ==> r == Failure(TooFewLines)
    ensures r.Success? ==> |lines| >= 5 && !r.value.isDfa
    ensures r.Success? ==> r.value.alphabet == SplitByTabs(lines[1])
    ensures r.Success? ==> ToState(lines[2]) == Success(r.value.initial)
    ensures r.Success? ==> ReadStates(lines[0]) == Success(r.value.states)
    ensures r.Success? ==> ReadTransitions(lines) == Success(r.value.transitions)
    ensures r.Success? ==> ReadStates(lines[3]).Success?
                           && r.value.accept == set s | s in ReadStates(lines[3]).value
  {
    if |lines| < 5 then Failure(TooFewLines)
    else
      var states :- ReadStates(lines[0]);
      var alphabet := SplitByTabs(lines[1]);
      var initial :- ToState(lines[2]);
      var accept :- ReadStates(lines[3]);
      var transitions :- ReadTransitions(lines);
      var acceptSet := set s | s in accept;
      Success(Fsa(states, alphabet, initial, acceptSet, transitions, false))
  }

  /** With five lines or more, reading fails exactly when one of the parts
      does not read. */
  lemma ReadNfaSucceeds(lines: seq<string>)
    requires |lines| >= 5
    ensures ReadNfa(lines).Success? <==>
              && ReadStates(lines[0]).Success? && ToState(lines[2]).Success?
              && ReadStates(lines[3]).Success? && ReadTransitions(lines).Success?
  {
  }

  /** Every piece followed by a tab, the way the serialisers build their
      result before cutting the last character. */
  function Terminated(xs: seq<string>): (r: string)
  {
    if xs == [] then "" else xs[0] + [TAB] + Terminated(xs[1..])
  }

  lemma {:induction false} TerminatedJoin(xs: seq<string>)
    requires xs != []
    ensures Terminated(xs) == Join(xs, [TAB]) + [TAB]
  {
    if |xs| > 1 {
      TerminatedJoin(xs[1..]);
    }
  }

  /** A tab-separated line: the pieces joined by single tabs, without a
      trailing tab; no pieces give the empty line. */
  function TabLine(xs: seq<string>): (r: string)
    ensures r == Join(xs, [TAB])
  {
    var acc := Terminated(xs);
    if |acc| > 0 then
      TerminatedJoin(xs);
      acc[..|acc| - 1]
    else
      acc
  }

  /** `alphabetToString`. */
  function AlphabetToString(alphabet: seq<string>): (r: string)
    ensures r == Join(alphabet, [TAB])
  {
    TabLine(alphabet)
  }

  /** `statesToString`, for the states in the order the collection yields
      them. */
  function StatesToString(states: seq<State>): (r: string)
    ensures r == Join(Map(States.ToString, states), [TAB])
  {
    TabLine(Map(States.ToString, states))
  }

  /** Reading back a written alphabet gives it back, as long as no symbol
      holds a tab and the last symbol is not empty (which `split` would
      drop) unless it is the only one. */
  lemma AlphabetRoundTrip(alphabet: seq<string>)
    requires |alphabet| >= 1
    requires forall i :: 0 <= i < |alphabet| ==> TAB !in alphabet[i]
    requires |alphabet| == 1 || alphabet[|alphabet| - 1] != ""
    ensures SplitByTabs(AlphabetToString(alphabet)) == alphabet
  {
    var line := AlphabetToString(alphabet);
    if |alphabet| == 1 {
      assert line == alphabet[0];
    } else {
      SplitJoin(alphabet, TAB);
      assert line == alphabet[0] + [TAB] + Join(alphabet[1..], [TAB]);
      assert line[|alphabet[0]|] == TAB;
    }
  }
}
