/** The few `java.lang.String` operations the converter relies on, with Java's
    semantics written out: `compareTo`, `trim`, `indexOf`, `String.join` and a
    plain split on one character. */
module JavaStrings {

  /** `a.compareTo(b)`: the difference of the first pair of differing
      characters, or the difference of the lengths when one string is a
      prefix of the other. */
  function CompareStrings(a: string, b: string): (r: int)
    ensures r < 0 <==> LexLess(a, b)
    decreases |a|
  {
    if |a| == 0 || |b| == 0 then |a| - |b|
    else if a[0] != b[0] then
      LexLessFirst(a, b);
      a[0] as int - b[0] as int
    else
      LexLessCons(a, b);
      CompareStrings(a[1..], b[1..])
  }

  /** The lexicographic order on strings by character codes: `a` is a
      proper prefix of `b`, or the two agree up to a position where `a` has
      the smaller character. */
  predicate LexLess(a: string, b: string) {
    a < b || exists k :: 0 <= k < |a| && k < |b| && a[..k] == b[..k] && a[k] < b[k]
  }

  lemma LexLessFirst(a: string, b: string)
    requires |a| > 0 && |b| > 0 && a[0] != b[0]
    ensures LexLess(a, b) <==> a[0] < b[0]
  {
    if a[0] < b[0] {
      assert a[..0] == b[..0];
    }
    if exists k :: 0 <= k < |a| && k < |b| && a[..k] == b[..k] && a[k] < b[k] {
      var k :| 0 <= k < |a| && k < |b| && a[..k] == b[..k] && a[k] < b[k];
      if k > 0 {
        assert a[..k][0] == b[..k][0];
      }
    }
  }

  lemma LexLessCons(a: string, b: string)
    requires |a| > 0 && |b| > 0 && a[0] == b[0]
    ensures LexLess(a, b) <==> LexLess(a[1..], b[1..])
  {
    if LexLess(a, b) {
      LexLessDrop(a, b);
    }
    if LexLess(a[1..], b[1..]) {
      LexLessPrepend(a, b);
    }
  }

  lemma LexLessDrop(a: string, b: string)
    requires |a| > 0 && |b| > 0 && a[0] == b[0] && LexLess(a, b)
    ensures LexLess(a[1..], b[1..])
  {
    if !(a < b) {
      var k :| 0 <= k < |a| && k < |b| && a[..k] == b[..k] && a[k] < b[k];
      assert k > 0;
      assert a[1..][..k - 1] == a[..k][1..] && b[1..][..k - 1] == b[..k][1..];
      assert a[1..][k - 1] == a[k] && b[1..][k - 1] == b[k];
    }
  }

  lemma LexLessPrepend(a: string, b: string)
    requires |a| > 0 && |b| > 0 && a[0] == b[0] && LexLess(a[1..], b[1..])
    ensures LexLess(a, b)
  {
    if a[1..] < b[1..] {
      assert a == [a[0]] + a[1..] && b == [b[0]] + b[1..];
    } else {
      var k :| 0 <= k < |a| - 1 && k < |b| - 1 && a[1..][..k] == b[1..][..k] && a[1..][k] < b[1..][k];
      assert a[..k + 1] == [a[0]] + a[1..][..k] && b[..k + 1] == [b[0]] + b[1..][..k];
      assert a[k + 1] == a[1..][k] && b[k + 1] == b[1..][k];
    }
  }

  lemma {:induction false} CompareAntisymmetric(a: string, b: string)
    ensures CompareStrings(a, b) == -CompareStrings(b, a)
    decreases |a|
  {
    if |a| > 0 && |b| > 0 && a[0] == b[0] {
      CompareAntisymmetric(a[1..], b[1..]);
    }
  }

  lemma {:induction false} CompareZeroIffEqual(a: string, b: string)
    ensures CompareStrings(a, b) == 0 <==> a == b
    decreases |a|
  {
    if |a| > 0 && |b| > 0 && a[0] == b[0] {
      CompareZeroIffEqual(a[1..], b[1..]);
      assert a == [a[0]] + a[1..] && b == [b[0]] + b[1..];
    }
  }

  lemma {:induction false} CompareTransitive(a: string, b: string, c: string)
    requires CompareStrings(a, b) <= 0 && CompareStrings(b, c) <= 0
    ensures CompareStrings(a, c) <= 0
    decreases |a|
  {
    if |a| > 0 && |b| > 0 && |c| > 0 && a[0] == b[0] == c[0] {
      CompareTransitive(a[1..], b[1..], c[1..]);
    }
  }

  /** The quantified form of the three facts above, for callers that need
      `compareTo` as a total order. */
  lemma CompareIsTotalOrder()
    ensures forall a, b :: CompareStrings(a, b) == -CompareStrings(b, a)
    ensures forall a, b :: CompareStrings(a, b) == 0 <==> a == b
    ensures forall a, b, c :: CompareStrings(a, b) <= 0 && CompareStrings(b, c) <= 0 ==> CompareStrings(a, c) <= 0
  {
    forall a, b ensures CompareStrings(a, b) == -CompareStrings(b, a) {
      CompareAntisymmetric(a, b);
    }
    forall a, b ensures CompareStrings(a, b) == 0 <==> a == b {
      CompareZeroIffEqual(a, b);
    }
    forall a, b, c | CompareStrings(a, b) <= 0 && CompareStrings(b, c) <= 0
      ensures CompareStrings(a, c) <= 0
    {
      CompareTransitive(a, b, c);
    }
  }

  /** Java's notion of white space for `trim`: every code point up to U+0020. */
  predicate IsTrimmable(c: char) {
    c <= ' '
  }

  /** The number of white-space characters `s` starts with. */
  function Leading(s: string): (n: nat)
    ensures n <= |s|
    ensures forall k :: 0 <= k < n ==> IsTrimmable(s[k])
    ensures n < |s| ==> !IsTrimmable(s[n])
  {
    if |s| > 0 && IsTrimmable(s[0]) then 1 + Leading(s[1..]) else 0
  }

  /** The length of `s` without the white space it ends with. */
  function Trailing(s: string): (n: nat)
    ensures n <= |s|
    ensures forall k :: n <= k < |s| ==> IsTrimmable(s[k])
    ensures n > 0 ==> !IsTrimmable(s[n - 1])
  {
    if |s| > 0 && IsTrimmable(s[|s| - 1]) then Trailing(s[..|s| - 1]) else |s|
  }

  /** Only one position satisfies the contract of `Leading`. */
  lemma LeadingUnique(s: string, n: nat)
    requires n <= |s|
    requires forall k :: 0 <= k < n ==> IsTrimmable(s[k])
    requires n < |s| ==> !IsTrimmable(s[n])
    ensures n == Leading(s)
  {
  }

  /** Only one position satisfies the contract of `Trailing`. */
  lemma TrailingUnique(s: string, n: nat)
    requires n <= |s|
    requires forall k :: n <= k < |s| ==> IsTrimmable(s[k])
    requires n > 0 ==> !IsTrimmable(s[n - 1])
    ensures n == Trailing(s)
  {
  }

  /** `s.trim()`: `s` without the white space it starts and ends with; a
      string of white space only trims to the empty string. */
  function Trim(s: string): (r: string)
  {
    var i := Leading(s);
    if i == |s| then [] else s[i..Trailing(s)]
  }

  /** What `trim` keeps is the infix of `s` after its leading white space;
      what it drops at the back is white space. */
  lemma TrimSpec(s: string)
    ensures Leading(s) + |Trim(s)| <= |s|
    ensures Trim(s) == s[Leading(s)..Leading(s) + |Trim(s)|]
    ensures forall k :: Leading(s) + |Trim(s)| <= k < |s| ==> IsTrimmable(s[k])
  {
  }

  /** What `trim` keeps neither starts nor ends with white space. */
  lemma TrimmedEnds(s: string)
    ensures Trim(s) == [] || (!IsTrimmable(Trim(s)[0]) && !IsTrimmable(Trim(s)[|Trim(s)| - 1]))
  {
    var i := Leading(s);
    if i < |s| {
      var n := Trailing(s);
      assert i < n;
      assert Trim(s)[0] == s[i] && Trim(s)[|Trim(s)| - 1] == s[n - 1];
    }
  }

  /** Trimming a string that is already trimmed changes nothing, and neither
      does padding it with one blank on each side first. */
  lemma TrimPadded(s: string)
    requires s == [] || (!IsTrimmable(s[0]) && !IsTrimmable(s[|s| - 1]))
    ensures Trim(s) == s
    ensures Trim([' '] + s + [' ']) == s
  {
    LeadingUnique(s, 0);
    TrailingUnique(s, |s|);
    var p := [' '] + s + [' '];
    if s == [] {
      LeadingUnique(p, 2);
    } else {
      LeadingUnique(p, 1);
      TrailingUnique(p, |s| + 1);
      assert p[1..|s| + 1] == s;
    }
  }

  /** White space in front of a string does not change its trimmed form. */
  lemma TrimBlankPrefix(c: char, s: string)
    requires IsTrimmable(c)
    ensures Trim([c] + s) == Trim(s)
  {
    var p, i := [c] + s, Leading(s);
    LeadingCons(c, s);
    assert Leading(p) == i + 1 && |p| == |s| + 1;
    if i < |s| {
      var n := Trailing(s);
      TrailingCons(c, s, i);
      ConsSlice(c, s, i, n);
      assert Trim(s) == s[i..n];
      assert Trim(p) == p[i + 1..n + 1];
    } else {
      assert Trim(s) == [];
      assert Trim(p) == [];
    }
  }

  lemma LeadingCons(c: char, s: string)
    requires IsTrimmable(c)
    ensures Leading([c] + s) == Leading(s) + 1
  {
    assert ([c] + s)[1..] == s;
  }

  lemma {:induction false} TrailingCons(c: char, s: string, i: int)
    requires 0 <= i < |s| && !IsTrimmable(s[i])
    ensures Trailing([c] + s) == Trailing(s) + 1
  {
    var p := [c] + s;
    if IsTrimmable(s[|s| - 1]) {
      assert p[|p| - 1] == s[|s| - 1];
      assert p[..|p| - 1] == [c] + s[..|s| - 1];
      TrailingCons(c, s[..|s| - 1], i);
    } else {
      assert p[|p| - 1] == s[|s| - 1];
    }
  }

  lemma ConsSlice(c: char, s: string, a: int, b: int)
    requires 0 <= a <= b <= |s|
    ensures ([c] + s)[a + 1..b + 1] == s[a..b]
  {
  }

  /** `s.indexOf(c)`: the first position of `c` in `s`, or -1. */
  function IndexOf(s: string, c: char): (r: int)
    ensures r == -1 <==> c !in s
    ensures r != -1 ==> 0 <= r < |s| && s[r] == c && c !in s[..r]
  {
    if |s| == 0 then -1
    else if s[0] == c then 0
    else
      var i := IndexOf(s[1..], c);
      assert s[1..][..if i < 0 then 0 else i] == s[1..1 + if i < 0 then 0 else i];
      if i < 0 then -1 else i + 1
  }

  /** `s.contains(a)`: `a` starts at some position of `s`. */
  predicate Contains(s: string, a: string) {
    exists p :: 0 <= p <= |s| && a <= s[p..]
  }

  /** The summed lengths of the pieces. */
  function TotalLength(xs: seq<string>): nat {
    if xs == [] then 0 else |xs[0]| + TotalLength(xs[1..])
  }

  /** `String.join(sep, xs)`. */
  function Join(xs: seq<string>, sep: string): string
  {
    if |xs| == 0 then ""
    else if |xs| == 1 then xs[0]
    else xs[0] + sep + Join(xs[1..], sep)
  }

  /** Every piece occurs in the joined string, and the joined string is
      exactly as long as the pieces with one separator between each
      neighbouring pair. */
  lemma {:induction false} JoinContents(xs: seq<string>, sep: string)
    ensures forall i :: 0 <= i < |xs| ==> Contains(Join(xs, sep), xs[i])
    ensures |xs| >= 1 ==> |Join(xs, sep)| == TotalLength(xs) + (|xs| - 1) * |sep|
    ensures |xs| == 0 ==> Join(xs, sep) == ""
  {
    if |xs| == 1 {
      assert xs[0] <= xs[0][0..];
    } else if |xs| > 1 {
      var rest := Join(xs[1..], sep);
      JoinContents(xs[1..], sep);
      JoinedPieces(xs, sep, rest);
      assert (|xs| - 1) * |sep| == |sep| + (|xs| - 2) * |sep|;
    }
  }

  /** The first piece starts the joined string, and a piece the rest
      contains is contained after the first piece and the separator. */
  lemma JoinedPieces(xs: seq<string>, sep: string, rest: string)
    requires |xs| >= 2
    requires forall i :: 0 <= i < |xs| - 1 ==> Contains(rest, xs[1..][i])
    ensures forall i :: 0 <= i < |xs| ==> Contains(xs[0] + sep + rest, xs[i])
  {
    var r := xs[0] + sep + rest;
    assert xs[0] <= r[0..];
    forall i | 1 <= i < |xs| ensures Contains(r, xs[i]) {
      assert xs[i] == xs[1..][i - 1];
      var p :| 0 <= p <= |rest| && xs[i] <= rest[p..];
      assert r[|xs[0]| + |sep| + p..] == rest[p..];
    }
  }

  /** Cuts `s` at every occurrence of `c`, keeping empty pieces. */
  function SplitOn(s: string, c: char): (r: seq<string>)
    ensures |r| >= 1
    ensures Join(r, [c]) == s
    ensures forall i :: 0 <= i < |r| ==> c !in r[i]
    decreases |s|
  {
    var i := IndexOf(s, c);
    if i < 0 then [s]
    else
      var rest := SplitOn(s[i + 1..], c);
      assert s == s[..i] + [c] + s[i + 1..];
      [s[..i]] + rest
  }

  /** Joining pieces free of `c` with `c` and cutting at `c` again gives
      the pieces back. */
  lemma {:induction false} SplitJoin(xs: seq<string>, c: char)
    requires |xs| >= 1
    requires forall i :: 0 <= i < |xs| ==> c !in xs[i]
    ensures SplitOn(Join(xs, [c]), c) == xs
  {
    if |xs| > 1 {
      var s := Join(xs, [c]);
      assert s == xs[0] + [c] + Join(xs[1..], [c]);
      assert s[..|xs[0]|] == xs[0];
      assert s[|xs[0]|] == c;
      assert IndexOf(s, c) == |xs[0]|;
      assert s[|xs[0]| + 1..] == Join(xs[1..], [c]);
      SplitJoin(xs[1..], c);
    }
  }
}
