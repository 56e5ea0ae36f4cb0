/** The three regular expressions that `rest_tools/server/arghandler.py` uses
    to read argparse's error text, and what `re.search` captures with them.

    All three patterns are built from literal text and `.+`. A `.` matches any
    character except '\n', so a match lies inside one line, and the leftmost
    match is in the first line that has one. A leading `.+` is greedy, so of
    several places where the literal text could sit, the match uses the last.
 */
module ErrorPatterns {
  import opened Values
  import opened Strings

  // ---------------------------------------------------------------------------
  // Patterns of the form `.+<marker>(.+)`

  /** `.+: error: (the following arguments are required: .+)` */
  const RequiredMarker := ": error: the following arguments are required: "
  /** Group 1 of the pattern above starts after ": error: ". */
  const RequiredLead := "the following arguments are required: "

  /** `.+ error: (unrecognized arguments:) (.+)` */
  const UnrecognizedMarker := " error: unrecognized arguments: "

  /** `.+<marker>.+` matches `line` with `marker` placed at `i`: at least one
      character before it and at least one after it. */
  predicate MarkerAt(line: string, marker: string, i: nat)
  {
    1 <= i < |line| && i + |marker| < |line| && StartsWith(line[i..], marker)
  }

  /** Where the greedy leading `.+` leaves the marker: its last admissible place. */
  function LastMarker(line: string, marker: string): (r: Option<nat>)
    ensures r.Some? ==> MarkerAt(line, marker, r.value)
    ensures r.Some? ==> forall j: nat :: r.value < j ==> !MarkerAt(line, marker, j)
    ensures r.None? ==> forall j: nat :: !MarkerAt(line, marker, j)
  {
    var at := (j: nat) => MarkerAt(line, marker, j);
    assert forall j: nat :: at(j) == MarkerAt(line, marker, j);
    LastBelow(|line|, at)
  }

  predicate LineHasMarker(line: string, marker: string)
  {
    LastMarker(line, marker).Some?
  }

  /** No line of `text` matches `.+<marker>.+`. */
  predicate NoMarkedLine(text: string, marker: string)
  {
    forall k :: 0 <= k < |Lines(text)| ==> !LineHasMarker(Lines(text)[k], marker)
  }

  /** The first line that `.+<marker>.+` matches. */
  function FirstMarkedLine(lines: seq<string>, marker: string): (r: Option<nat>)
    ensures r.Some? ==> r.value < |lines| && LineHasMarker(lines[r.value], marker)
    ensures r.Some? ==> forall k :: 0 <= k < r.value ==> !LineHasMarker(lines[k], marker)
    ensures r.None? ==> forall k :: 0 <= k < |lines| ==> !LineHasMarker(lines[k], marker)
  {
    var marked := (k: nat) => k < |lines| && LineHasMarker(lines[k], marker);
    assert forall k: nat :: marked(k) == (k < |lines| && LineHasMarker(lines[k], marker));
    FirstFrom(0, |lines|, marked)
  }

  /** `re.search(".+<marker>(.+)", text)`: the captured text after the marker,
      or None when the pattern does not match. The capture runs to the end of
      its line and is never empty. */
  function CaptureAfter(text: string, marker: string): (r: Option<string>)
    ensures r.Some? ==> r.value != "" && '\n' !in r.value
    ensures r.None? <==> NoMarkedLine(text, marker)
  {
    var lines := Lines(text);
    match FirstMarkedLine(lines, marker)
    case None => None
    case Some(k) =>
      assert k < |lines| && LineHasMarker(lines[k], marker);
      var i := LastMarker(lines[k], marker).value;
      var line := lines[k];
      assert '\n' !in line;
      assert forall c :: c in line[i + |marker|..] ==> c in line;
      assert !NoMarkedLine(text, marker);
      Some(line[i + |marker|..])
  }

  /** Group 1 of ARGUMENTS_REQUIRED_PATTERN searched in `stderr`. */
  function RequiredClause(stderr: string): (r: Option<string>)
    ensures r.Some? ==> StartsWith(r.value, RequiredLead) && |r.value| > |RequiredLead|
  {
    match CaptureAfter(stderr, RequiredMarker)
    case None => None
    case Some(rest) => Some(RequiredLead + rest)
  }

  /** Group 2 of UNRECOGNIZED_ARGUMENTS_PATTERN searched in `stderr`: the text
      after "unrecognized arguments: ". */
  function UnrecognizedList(stderr: string): (r: Option<string>)
    ensures r.Some? ==> r.value != "" && '\n' !in r.value
    ensures r.None? <==> NoMarkedLine(stderr, UnrecognizedMarker)
  {
    CaptureAfter(stderr, UnrecognizedMarker)
  }

  // ---------------------------------------------------------------------------
  // INVALID_VALUE_PATTERN: `(argument .+: invalid) .+ value: '.+'`

  const ArgumentWord := "argument "
  const InvalidWord := ": invalid"
  const ValueQuote := " value: '"

  /** ` value: '.+'` matches `line` from `q` on. */
  predicate ValueQuoteAt(line: string, q: nat)
  {
    q + |ValueQuote| < |line| && line[q..q + |ValueQuote|] == ValueQuote && '\'' in line[q + |ValueQuote| + 1..]
  }

  /** ` .+ value: '.+'` matches `line` from `t` on. */
  predicate ValueTailAt(line: string, t: nat)
  {
    t < |line| && line[t] == ' ' && exists q: nat :: t + 2 <= q < |line| && ValueQuoteAt(line, q)
  }

  /** Group 1 can end with the ": invalid" at `p`. */
  predicate InvalidEndAt(line: string, p: nat)
  {
    p + |InvalidWord| <= |line| && line[p..p + |InvalidWord|] == InvalidWord && ValueTailAt(line, p + |InvalidWord|)
  }

  predicate ArgumentWordAt(line: string, s: nat)
  {
    s + |ArgumentWord| <= |line| && line[s..s + |ArgumentWord|] == ArgumentWord
  }

  /** Where group 1 ends: the greedy `.+` carries it to the last admissible
      ": invalid" of the line. */
  function LastInvalidEnd(line: string): (r: Option<nat>)
    ensures r.Some? ==> InvalidEndAt(line, r.value)
    ensures r.Some? ==> forall p: nat :: r.value < p ==> !InvalidEndAt(line, p)
    ensures r.None? ==> forall p: nat :: !InvalidEndAt(line, p)
  {
    var ends := (p: nat) => InvalidEndAt(line, p);
    assert forall p: nat :: ends(p) == InvalidEndAt(line, p);
    LastBelow(|line|, ends)
  }

  /** Where group 1 starts for an end at `p`: the first "argument " that
      leaves room for `.+` before `p`. */
  function FirstArgumentWord(line: string, p: nat): (r: Option<nat>)
    ensures r.Some? ==> ArgumentWordAt(line, r.value) && r.value + |ArgumentWord| + 1 <= p
    ensures r.Some? ==> forall s: nat :: s < r.value ==> !(ArgumentWordAt(line, s) && s + |ArgumentWord| + 1 <= p)
    ensures r.None? ==> forall s: nat :: !(ArgumentWordAt(line, s) && s + |ArgumentWord| + 1 <= p)
  {
    var starts := (s: nat) => ArgumentWordAt(line, s) && s + |ArgumentWord| + 1 <= p;
    assert forall s: nat :: starts(s) == (ArgumentWordAt(line, s) && s + |ArgumentWord| + 1 <= p);
    FirstFrom(0, |line|, starts)
  }

  /** Group 1 of the pattern in one line: a leftmost match starts at the first
      "argument " that some admissible ": invalid" follows, and ends at the
      last admissible one. */
  function InvalidGroupInLine(line: string): (r: Option<string>)
    ensures r.Some? ==> StartsWith(r.value, ArgumentWord) && EndsWith(r.value, InvalidWord)
    ensures r.Some? ==> |r.value| > |ArgumentWord| + |InvalidWord|
    ensures r.None? <==> forall p: nat, s: nat :: !(ArgumentWordAt(line, s) && s + |ArgumentWord| + 1 <= p && InvalidEndAt(line, p))
  {
    match LastInvalidEnd(line)
    case None => None
    case Some(p) =>
      match FirstArgumentWord(line, p)
      case None => None
      case Some(s) => Some(line[s..p + |InvalidWord|])
  }

  /** The first line in which the pattern matches. */
  function FirstInvalidLine(lines: seq<string>): (r: Option<nat>)
    ensures r.Some? ==> r.value < |lines| && InvalidGroupInLine(lines[r.value]).Some?
    ensures r.Some? ==> forall k :: 0 <= k < r.value ==> InvalidGroupInLine(lines[k]).None?
    ensures r.None? ==> forall k :: 0 <= k < |lines| ==> InvalidGroupInLine(lines[k]).None?
  {
    var matched := (k: nat) => k < |lines| && InvalidGroupInLine(lines[k]).Some?;
    assert forall k: nat :: matched(k) == (k < |lines| && InvalidGroupInLine(lines[k]).Some?);
    FirstFrom(0, |lines|, matched)
  }

  /** Group 1 of INVALID_VALUE_PATTERN searched in `text`. */
  function InvalidGroup(text: string): (r: Option<string>)
    ensures r.Some? ==> StartsWith(r.value, ArgumentWord) && EndsWith(r.value, InvalidWord)
  {
    var lines := Lines(text);
    match FirstInvalidLine(lines)
    case None => None
    case Some(k) => InvalidGroupInLine(lines[k])
  }
}
