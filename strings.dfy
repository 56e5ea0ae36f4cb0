/** The Python string operations the argument handler relies on, written out:
    `str.replace`, `str.split()`, `", ".join`, `startswith`, and the line
    structure that a regular expression's `.` cannot cross. */
module Strings {
  import opened Values

  predicate StartsWith(s: string, prefix: string)
  {
    |prefix| <= |s| && s[..|prefix|] == prefix
  }

  predicate EndsWith(s: string, suffix: string)
  {
    |suffix| <= |s| && s[|s| - |suffix|..] == suffix
  }

  lemma FirstOfPrefix(s: string, prefix: string)
    requires StartsWith(s, prefix) && prefix != ""
    ensures s != "" && s[0] == prefix[0]
  {
    assert s[..|prefix|][0] == s[0];
  }

  /** A string cannot start with two prefixes whose first characters differ. */
  lemma PrefixesDisagree(s: string, p: string, q: string)
    requires StartsWith(s, p) && p != "" && q != "" && p[0] != q[0]
    ensures !StartsWith(s, q)
  {
    FirstOfPrefix(s, p);
    if StartsWith(s, q) {
      FirstOfPrefix(s, q);
    }
  }

  /** One differing character rules out a prefix. */
  lemma DifferenceRulesOutPrefix(s: string, prefix: string, i: nat)
    requires i < |prefix| && (i >= |s| || s[i] != prefix[i])
    ensures !StartsWith(s, prefix)
  {
    if |prefix| <= |s| {
      assert s[..|prefix|][i] == s[i];
    }
  }

  // ---------------------------------------------------------------------------
  // str.replace

  /** `s.replace(target, replacement)`: every non-overlapping occurrence of
      `target`, scanning from the left, is replaced. */
  function ReplaceAll(s: string, target: string, replacement: string): (r: string)
    requires target != ""
    ensures |replacement| <= |target| ==> |r| <= |s|
    decreases |s|
  {
    if s == "" then ""
    else if StartsWith(s, target) then replacement + ReplaceAll(s[|target|..], target, replacement)
    else [s[0]] + ReplaceAll(s[1..], target, replacement)
  }

  /** An occurrence of `target` at the very start is replaced. */
  lemma ReplaceAllAtTarget(rest: string, target: string, replacement: string)
    requires target != ""
    ensures ReplaceAll(target + rest, target, replacement) == replacement + ReplaceAll(rest, target, replacement)
  {
    assert (target + rest)[..|target|] == target;
    assert (target + rest)[|target|..] == rest;
  }

  /** A prefix in which `target` cannot start is copied through unchanged. */
  lemma {:induction false} ReplaceAllKeepsPrefix(a: string, b: string, target: string, replacement: string)
    requires target != "" && target[0] !in a
    ensures ReplaceAll(a + b, target, replacement) == a + ReplaceAll(b, target, replacement)
  {
    if a != "" {
      var s := a + b;
      assert s[0] == a[0] && a[0] in a;
      DifferenceRulesOutPrefix(s, target, 0);
      assert ReplaceAll(s, target, replacement) == [s[0]] + ReplaceAll(s[1..], target, replacement);
      assert s[1..] == a[1..] + b;
      ReplaceAllKeepsPrefix(a[1..], b, target, replacement);
      assert a == [a[0]] + a[1..];
    } else {
      assert a + b == b;
    }
  }

  /** For a target whose second character is '-', a dash-free prefix that does
      not end in the target's first character is copied through unchanged,
      whatever follows it. */
  lemma {:induction false} ReplaceAllKeepsDashFreePrefix(a: string, b: string, target: string, replacement: string)
    requires |target| >= 2 && target[1] == '-'
    requires '-' !in a
    requires a == "" || a[|a| - 1] != target[0]
    ensures ReplaceAll(a + b, target, replacement) == a + ReplaceAll(b, target, replacement)
  {
    if a != "" {
      var s := a + b;
      if |a| >= 2 {
        assert s[1] == a[1] && a[1] in a;
        DifferenceRulesOutPrefix(s, target, 1);
      } else {
        assert s[0] == a[|a| - 1];
        DifferenceRulesOutPrefix(s, target, 0);
      }
      ReplaceAllSkipsHead(s, target, replacement);
      var tail := a[1..];
      assert s[1..] == tail + b;
      assert forall c :: c in tail ==> c in a;
      assert tail == "" || tail[|tail| - 1] == a[|a| - 1];
      ReplaceAllKeepsDashFreePrefix(tail, b, target, replacement);
      assert a == [a[0]] + tail;
    } else {
      assert a + b == b;
    }
  }

  /** Text in which the target's first character never occurs comes back
      unchanged. */
  lemma ReplaceAllWithoutTarget(s: string, target: string, replacement: string)
    requires target != "" && target[0] !in s
    ensures ReplaceAll(s, target, replacement) == s
  {
    ReplaceAllKeepsPrefix(s, "", target, replacement);
    assert s + "" == s;
  }

  /** Where `target` does not start, the first character is copied. */
  lemma ReplaceAllSkipsHead(s: string, target: string, replacement: string)
    requires target != "" && s != "" && !StartsWith(s, target)
    ensures ReplaceAll(s, target, replacement) == [s[0]] + ReplaceAll(s[1..], target, replacement)
  {
  }

  predicate NoDoubleDash(s: string)
  {
    forall i :: 0 <= i < |s| - 1 ==> !(s[i] == '-' && s[i + 1] == '-')
  }

  lemma NoDoubleDashAppend(a: string, b: string)
    requires NoDoubleDash(a) && NoDoubleDash(b)
    requires a == "" || b == "" || a[|a| - 1] != '-' || b[0] != '-'
    ensures NoDoubleDash(a + b)
  {
    forall i | 0 <= i < |a + b| - 1
      ensures !((a + b)[i] == '-' && (a + b)[i + 1] == '-')
    {
      if i + 1 < |a| {
        assert (a + b)[i] == a[i] && (a + b)[i + 1] == a[i + 1];
      } else if i + 1 == |a| {
        assert (a + b)[i] == a[|a| - 1] && (a + b)[i + 1] == b[0];
      } else {
        assert (a + b)[i] == b[i - |a|] && (a + b)[i + 1] == b[i - |a| + 1];
      }
    }
  }

  /** `k.replace("--", "")` leaves no "--" behind, so a stripped option name
      never keeps a doubled dash. */
  lemma {:induction false} StripDashesLeavesNoDoubleDash(s: string)
    ensures NoDoubleDash(ReplaceAll(s, "--", ""))
  {
    if s == "" {
    } else if StartsWith(s, "--") {
      StripDashesLeavesNoDoubleDash(s[2..]);
    } else {
      StripDashesLeavesNoDoubleDash(s[1..]);
      var rest := ReplaceAll(s[1..], "--", "");
      if s[0] == '-' && |s| >= 2 {
        assert s[..2] == [s[0], s[1]];
        assert !StartsWith(s[1..], "--");
        assert rest[0] == s[1];
      }
    }
  }

  /** With no "--" in it, `k.replace("--", "")` is `k` itself. */
  lemma {:induction false} StripDashesKeepsPlainText(k: string)
    requires NoDoubleDash(k)
    ensures ReplaceAll(k, "--", "") == k
  {
    if k != "" {
      if |k| >= 2 {
        assert !(k[0] == '-' && k[1] == '-');
        assert k[..2] == [k[0], k[1]];
      }
      assert !StartsWith(k, "--");
      assert NoDoubleDash(k[1..]) by {
        forall i | 0 <= i < |k[1..]| - 1
          ensures !(k[1..][i] == '-' && k[1..][i + 1] == '-')
        {
          assert k[1..][i] == k[i + 1] && k[1..][i + 1] == k[i + 2];
        }
      }
      StripDashesKeepsPlainText(k[1..]);
      assert k == [k[0]] + k[1..];
    }
  }

  /** Removing "--" from `word + "--" + plain` drops just those two dashes
      when neither side holds or borders on another "--". */
  lemma FlagLosesDashes(word: string, plain: string)
    requires '-' !in word && NoDoubleDash(plain)
    ensures ReplaceAll(word + "--" + plain, "--", "") == word + plain
  {
    var flag := "--" + plain;
    assert word == "" || word[|word| - 1] in word;
    assert word + "--" + plain == word + flag;
    ReplaceAllKeepsDashFreePrefix(word, flag, "--", "");
    assert ReplaceAll(word + flag, "--", "") == word + ReplaceAll(flag, "--", "");
    ReplaceAllAtTarget(plain, "--", "");
    assert ReplaceAll(flag, "--", "") == "" + ReplaceAll(plain, "--", "");
    StripDashesKeepsPlainText(plain);
    assert ReplaceAll(flag, "--", "") == plain;
  }

  // ---------------------------------------------------------------------------
  // str.split() and str.join

  /** The characters Python's `str.split()` treats as whitespace. */
  predicate IsSpace(c: char)
  {
    || c == ' '
    || ('\t' <= c <= '\r')
    || ('\U{1C}' <= c <= '\U{1F}')
    || c == '\U{85}' || c == '\U{A0}' || c == '\U{1680}'
    || ('\U{2000}' <= c <= '\U{200A}')
    || c == '\U{2028}' || c == '\U{2029}' || c == '\U{202F}' || c == '\U{205F}' || c == '\U{3000}'
  }

  predicate HasNoSpace(t: string)
  {
    forall i :: 0 <= i < |t| ==> !IsSpace(t[i])
  }

  /** Length of the run of non-whitespace characters that starts `s`. */
  function TokenLength(s: string): (n: nat)
    ensures n <= |s|
    ensures forall i :: 0 <= i < n ==> !IsSpace(s[i])
    ensures n < |s| ==> IsSpace(s[n])
    decreases |s|
  {
    if s == "" || IsSpace(s[0]) then 0 else 1 + TokenLength(s[1..])
  }

  /** `s.split()`: the maximal runs of non-whitespace characters, in order. */
  function SplitWhitespace(s: string): (tokens: seq<string>)
    ensures forall t :: t in tokens ==> t != "" && HasNoSpace(t)
    decreases |s|
  {
    if s == "" then []
    else if IsSpace(s[0]) then SplitWhitespace(s[1..])
    else
      var n := TokenLength(s);
      [s[..n]] + SplitWhitespace(s[n..])
  }

  /** Reference definition: the non-whitespace characters of `s`, in order. */
  function WithoutSpaces(s: string): string
    decreases |s|
  {
    if s == "" then ""
    else (if IsSpace(s[0]) then "" else [s[0]]) + WithoutSpaces(s[1..])
  }

  function Concat(parts: seq<string>): string
  {
    if parts == [] then "" else parts[0] + Concat(parts[1..])
  }

  lemma {:induction false} WithoutSpacesOfSpaceFreePrefix(a: string, b: string)
    requires HasNoSpace(a)
    ensures WithoutSpaces(a + b) == a + WithoutSpaces(b)
  {
    if a != "" {
      assert (a + b)[0] == a[0] && !IsSpace(a[0]);
      assert WithoutSpaces(a + b) == [a[0]] + WithoutSpaces((a + b)[1..]);
      assert (a + b)[1..] == a[1..] + b;
      WithoutSpacesOfSpaceFreePrefix(a[1..], b);
      assert a == [a[0]] + a[1..];
    } else {
      assert a + b == b;
    }
  }

  /** `split()` loses no non-whitespace character and reorders nothing: the
      tokens, glued back together, are the input with its whitespace removed. */
  lemma {:induction false} SplitWhitespaceKeepsText(s: string)
    ensures Concat(SplitWhitespace(s)) == WithoutSpaces(s)
  {
    if s == "" {
    } else if IsSpace(s[0]) {
      SplitWhitespaceKeepsText(s[1..]);
    } else {
      var n := TokenLength(s);
      SplitWhitespaceKeepsText(s[n..]);
      WithoutSpacesOfSpaceFreePrefix(s[..n], s[n..]);
      assert s == s[..n] + s[n..];
      assert ([s[..n]] + SplitWhitespace(s[n..]))[1..] == SplitWhitespace(s[n..]);
    }
  }

  /** `sep.join(parts)`. */
  function Join(parts: seq<string>, sep: string): (r: string)
    ensures sep == "" ==> r == Concat(parts)
  {
    if |parts| == 0 then ""
    else if |parts| == 1 then parts[0]
    else parts[0] + sep + Join(parts[1..], sep)
  }

  /** The token that starts `t + rest` ends where the space-free `t` does,
      as long as whitespace (or nothing) follows. */
  lemma TokenLengthOfSpaceFree(t: string, rest: string)
    requires HasNoSpace(t)
    requires rest == "" || IsSpace(rest[0])
    ensures TokenLength(t + rest) == |t|
  {
    assert forall i :: 0 <= i < |t| ==> (t + rest)[i] == t[i];
    assert rest != "" ==> (t + rest)[|t|] == rest[0];
  }

  /** `" ".join(tokens).split()` gives back the tokens when none of them is
      empty or holds whitespace. */
  lemma {:induction false} SplitJoinRoundTrip(tokens: seq<string>)
    requires forall t :: t in tokens ==> t != "" && HasNoSpace(t)
    ensures SplitWhitespace(Join(tokens, " ")) == tokens
  {
    if |tokens| == 1 {
      var t := tokens[0];
      assert t in tokens;
      TokenLengthOfSpaceFree(t, "");
      assert t + "" == t;
      assert t[|t|..] == "";
    } else if |tokens| >= 2 {
      var t := tokens[0];
      assert t in tokens;
      var tail := Join(tokens[1..], " ");
      var s := t + (" " + tail);
      assert Join(tokens, " ") == s;
      TokenLengthOfSpaceFree(t, " " + tail);
      assert s[0] == t[0];
      assert s[..|t|] == t;
      assert s[|t|..] == " " + tail;
      assert (" " + tail)[1..] == tail;
      assert forall u :: u in tokens[1..] ==> u in tokens;
      SplitJoinRoundTrip(tokens[1..]);
      assert tokens == [t] + tokens[1..];
    }
  }

  lemma JoinCons(parts: seq<string>, sep: string)
    requires |parts| >= 2
    ensures Join(parts, sep) == parts[0] + (sep + Join(parts[1..], sep))
  {
  }

  /** The ", " separator is a comma followed by a space. */
  lemma CommaThenSpace(j: string)
    ensures "," + (" " + j) == ", " + j
  {
    assert ", " == "," + " ";
    assert forall i :: 0 <= i < |j| + 2 ==> ("," + (" " + j))[i] == (", " + j)[i];
  }

  /** `s.split()` of every part, concatenated. */
  function SplitAll(parts: seq<string>): seq<string>
  {
    if parts == [] then [] else SplitWhitespace(parts[0]) + SplitAll(parts[1..])
  }

  lemma {:induction false} SplitAllAppend(a: seq<string>, b: seq<string>)
    ensures SplitAll(a + b) == SplitAll(a) + SplitAll(b)
  {
    if a == [] {
      assert a + b == b;
    } else {
      assert (a + b)[0] == a[0];
      assert (a + b)[1..] == a[1..] + b;
      SplitAllAppend(a[1..], b);
    }
  }

  /** Appending text after whitespace, or after a token already ended,
      leaves the first token as it was. */
  lemma TokenLengthStopsInside(a: string, rest: string)
    requires TokenLength(a) < |a| || rest == "" || IsSpace(rest[0])
    ensures TokenLength(a + rest) == TokenLength(a)
  {
    assert forall i :: 0 <= i < |a| ==> (a + rest)[i] == a[i];
    assert rest != "" ==> (a + rest)[|a|] == rest[0];
  }

  /** Splitting at a space splits the two sides separately. */
  lemma {:induction false} SplitAroundSpace(a: string, b: string)
    ensures SplitWhitespace(a + " " + b) == SplitWhitespace(a) + SplitWhitespace(b)
    decreases |a|
  {
    var s := a + " " + b;
    if a == "" {
      assert s == " " + b;
      assert s[1..] == b;
    } else if IsSpace(a[0]) {
      assert s[0] == a[0];
      assert s[1..] == a[1..] + " " + b;
      SplitAroundSpace(a[1..], b);
    } else {
      var n := TokenLength(a);
      TokenLengthStopsInside(a, " " + b);
      assert s == a + (" " + b);
      assert s[0] == a[0];
      assert s[..n] == a[..n];
      assert s[n..] == a[n..] + " " + b;
      SplitAroundSpace(a[n..], b);
    }
  }

  /** `" ".join(parts).split()` is the concatenation of every part's split. */
  lemma {:induction false} SplitJoin(parts: seq<string>)
    ensures SplitWhitespace(Join(parts, " ")) == SplitAll(parts)
  {
    if |parts| == 1 {
      assert parts[1..] == [];
      assert SplitAll(parts) == SplitWhitespace(parts[0]) + [];
    } else if |parts| >= 2 {
      var tail := Join(parts[1..], " ");
      JoinCons(parts, " ");
      assert parts[0] + (" " + tail) == parts[0] + " " + tail;
      SplitAroundSpace(parts[0], tail);
      SplitJoin(parts[1..]);
    }
  }

  // ---------------------------------------------------------------------------
  // Lines: a regular expression's `.` matches every character except '\n'

  /** Length of the text before the first '\n' of `s` (all of `s` if none). */
  function LineLength(s: string): (n: nat)
    ensures n <= |s|
    ensures forall i :: 0 <= i < n ==> s[i] != '\n'
    ensures n < |s| ==> s[n] == '\n'
    decreases |s|
  {
    if s == "" || s[0] == '\n' then 0 else 1 + LineLength(s[1..])
  }

  /** `s` cut at every '\n'; there is always at least one (possibly empty) line. */
  function Lines(s: string): (lines: seq<string>)
    ensures |lines| >= 1
    ensures forall k :: 0 <= k < |lines| ==> '\n' !in lines[k]
    decreases |s|
  {
    var n := LineLength(s);
    if n == |s| then [s] else [s[..n]] + Lines(s[n + 1..])
  }

  /** Text without a '\n' is one line. */
  lemma SingleLine(s: string)
    requires '\n' !in s
    ensures Lines(s) == [s]
  {
    assert forall i :: 0 <= i < |s| ==> s[i] != '\n';
  }

  /** Cutting into lines loses nothing: joining them with '\n' gives `s` back. */
  lemma {:induction false} LinesRoundTrip(s: string)
    ensures Join(Lines(s), "\n") == s
  {
    var n := LineLength(s);
    if n < |s| {
      var after := s[n + 1..];
      var rest := Lines(after);
      var lines := [s[..n]] + rest;
      assert Lines(s) == lines;
      LinesRoundTrip(after);
      assert lines[1..] == rest;
      JoinCons(lines, "\n");
      assert s == s[..n] + ("\n" + after);
    }
  }

  // ---------------------------------------------------------------------------
  // Bounded searches

  /** The largest `j < hi` at which `p` holds, if there is one. */
  function LastBelow(hi: nat, p: nat -> bool): (r: Option<nat>)
    ensures r.Some? ==> r.value < hi && p(r.value)
    ensures r.Some? ==> forall j: nat :: r.value < j < hi ==> !p(j)
    ensures r.None? ==> forall j: nat :: j < hi ==> !p(j)
    decreases hi
  {
    if hi == 0 then None
    else if p(hi - 1) then Some(hi - 1)
    else LastBelow(hi - 1, p)
  }

  /** The smallest `j` with `lo <= j < hi` at which `p` holds, if there is one. */
  function FirstFrom(lo: nat, hi: nat, p: nat -> bool): (r: Option<nat>)
    ensures r.Some? ==> lo <= r.value < hi && p(r.value)
    ensures r.Some? ==> forall j: nat :: lo <= j < r.value ==> !p(j)
    ensures r.None? ==> forall j: nat :: lo <= j < hi ==> !p(j)
    decreases hi - lo
  {
    if lo >= hi then None
    else if p(lo) then Some(lo)
    else FirstFrom(lo + 1, hi, p)
  }
}
