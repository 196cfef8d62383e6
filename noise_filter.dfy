/**
 * `ShellLogger.should_ignore`: sanitise the message, then report whether any
 * of the five ignore patterns occurs anywhere in the result
 * (`re.search`, unanchored). The patterns are configuration data, kept as an
 * ordered list; each is searched by a hand-written scan and described
 * independently by a declarative `Occurs`.
 */
module NoiseFilter {
  import opened Text
  import opened Sanitizer

  /** The ignore patterns, in the order the logger lists them. */
  datatype IgnorePattern =
    | PromptHeader        // ┌──\(kali㉿kali\)-\[.*?\]
    | PromptContinuation  // └─\$
    | SttyWarning         // stty: .*
    | BlankLine           // ^\s*$
    | ExecMarker          // \[.*?\] exec:.*

  const IgnorePatterns: seq<IgnorePattern> :=
    [PromptHeader, PromptContinuation, SttyWarning, BlankLine, ExecMarker]

  const PromptHeaderOpen: string := "┌──(kali㉿kali)-["
  const PromptHeaderClose: string := "]"
  const ContinuationMarker: string := "└─$"
  const SttyMarker: string := "stty: "
  const ExecOpen: string := "["
  const ExecClose: string := "] exec:"

  function StartsWith(s: string, w: string): bool {
    |w| <= |s| && s[..|w|] == w
  }

  /** `w` occurs somewhere in `s`. */
  function Contains(s: string, w: string): bool
    decreases |s|
  {
    StartsWith(s, w) || (s != [] && Contains(s[1..], w))
  }

  /** `close` occurs in `s` with no newline before it: what `.*?close`
      matches from the start of `s` (`.` does not match a newline). */
  function ClosesOnLine(s: string, close: string): bool
    decreases |s|
  {
    StartsWith(s, close) || (s != [] && s[0] != '\n' && ClosesOnLine(s[1..], close))
  }

  /** `open .*? close` occurs somewhere in `s`. */
  function ContainsBracketed(s: string, open: string, close: string): bool
    decreases |s|
  {
    (StartsWith(s, open) && ClosesOnLine(s[|open|..], close)) ||
    (s != [] && ContainsBracketed(s[1..], open, close))
  }

  /** `re.search(pattern, s) is not None`. For `^\s*$` (no MULTILINE), `^` is
      the start of `s` and the greedy `\s*` can reach `$` only when every
      character of `s` is whitespace. */
  function Search(p: IgnorePattern, s: string): bool {
    match p
    case PromptHeader => ContainsBracketed(s, PromptHeaderOpen, PromptHeaderClose)
    case PromptContinuation => Contains(s, ContinuationMarker)
    case SttyWarning => Contains(s, SttyMarker)
    case BlankLine => Span(s, IsSpace) == |s|
    case ExecMarker => ContainsBracketed(s, ExecOpen, ExecClose)
  }

  /** `any(re.search(p, s) for p in patterns)`, tried in list order. */
  function AnySearch(patterns: seq<IgnorePattern>, s: string): bool {
    patterns != [] && (Search(patterns[0], s) || AnySearch(patterns[1..], s))
  }

  lemma {:induction false} AnySearchIsExists(patterns: seq<IgnorePattern>, s: string)
    ensures AnySearch(patterns, s) <==> exists p :: p in patterns && Search(p, s)
    decreases |patterns|
  {
    if patterns != [] {
      AnySearchIsExists(patterns[1..], s);
      assert forall p :: p in patterns <==> p == patterns[0] || p in patterns[1..];
    }
  }

  /** `ShellLogger.should_ignore` */
  function ShouldIgnore(message: string): bool {
    AnySearch(IgnorePatterns, Clean(message))
  }

  // ---------------------------------------------------------------------------
  // Declarative meaning of the patterns

  ghost predicate OccursAt(s: string, w: string, i: int) {
    0 <= i && i + |w| <= |s| && s[i..i + |w|] == w
  }

  ghost predicate OccursBracketed(s: string, open: string, close: string) {
    exists i, j :: OccursAt(s, open, i) && OccursAt(s, close, j) &&
      i + |open| <= j && '\n' !in s[i + |open|..j]
  }

  ghost predicate Occurs(p: IgnorePattern, s: string) {
    match p
    case PromptHeader => OccursBracketed(s, PromptHeaderOpen, PromptHeaderClose)
    case PromptContinuation => exists i :: OccursAt(s, ContinuationMarker, i)
    case SttyWarning => exists i :: OccursAt(s, SttyMarker, i)
    case BlankLine => AllSpace(s)
    case ExecMarker => OccursBracketed(s, ExecOpen, ExecClose)
  }

  lemma SliceOfSlice(s: string, lo: nat, hi: nat, a: nat, b: nat)
    requires lo <= hi <= |s| && a <= b <= hi - lo
    ensures s[lo..hi][a..b] == s[lo + a..lo + b]
  {
    assert forall k :: 0 <= k < b - a ==> s[lo..hi][a..b][k] == s[lo + a + k];
  }

  lemma OccursAtShift(s: string, k: nat, w: string, i: nat)
    requires k <= |s|
    ensures OccursAt(s[k..], w, i) <==> OccursAt(s, w, i + k)
  {
    if i + |w| <= |s| - k {
      assert s[k..][i..i + |w|] == s[i + k..i + k + |w|];
    }
  }

  lemma {:induction false} ContainsIsOccurs(s: string, w: string)
    ensures Contains(s, w) <==> exists i :: OccursAt(s, w, i)
    decreases |s|
  {
    if s == [] {
      if w == [] {
        assert OccursAt(s, w, 0);
      }
      if exists i :: OccursAt(s, w, i) {
        var i :| OccursAt(s, w, i);
        assert w == s[i..i + |w|] == [];
        assert StartsWith(s, w);
      }
    } else {
      ContainsIsOccurs(s[1..], w);
      if Contains(s, w) {
        if StartsWith(s, w) {
          assert OccursAt(s, w, 0);
        } else {
          var i :| OccursAt(s[1..], w, i);
          OccursAtShift(s, 1, w, i);
        }
      }
      if exists i :: OccursAt(s, w, i) {
        var i :| OccursAt(s, w, i);
        if i > 0 {
          OccursAtShift(s, 1, w, i - 1);
        } else {
          assert StartsWith(s, w);
        }
      }
    }
  }

  lemma {:induction false} ClosesOnLineIsOccurs(s: string, close: string)
    ensures ClosesOnLine(s, close) <==> exists j :: OccursAt(s, close, j) && '\n' !in s[..j]
    decreases |s|
  {
    if ClosesOnLine(s, close) {
      if StartsWith(s, close) {
        assert OccursAt(s, close, 0) && s[..0] == [];
      } else {
        ClosesOnLineIsOccurs(s[1..], close);
        var j :| OccursAt(s[1..], close, j) && '\n' !in s[1..][..j];
        OccursAtShift(s, 1, close, j);
        assert s[..j + 1] == [s[0]] + s[1..][..j];
      }
    }
    if exists j :: OccursAt(s, close, j) && '\n' !in s[..j] {
      var j :| OccursAt(s, close, j) && '\n' !in s[..j];
      if j > 0 {
        assert s[0] == s[..j][0];
        OccursAtShift(s, 1, close, j - 1);
        assert s[1..][..j - 1] == s[1..j];
        ClosesOnLineIsOccurs(s[1..], close);
      } else {
        assert StartsWith(s, close);
      }
    }
  }

  /** An occurrence in the tail is an occurrence in the whole text. */
  lemma BracketedFromTail(s: string, open: string, close: string, i: nat, j: nat)
    requires s != [] && OccursAt(s[1..], open, i) && OccursAt(s[1..], close, j)
    requires i + |open| <= j && '\n' !in s[1..][i + |open|..j]
    ensures OccursBracketed(s, open, close)
  {
    OccursAtShift(s, 1, open, i);
    OccursAtShift(s, 1, close, j);
    assert s[1..][i + |open|..j] == s[i + 1 + |open|..j + 1];
  }

  /** An occurrence that does not start at the first character lies in the tail. */
  lemma BracketedToTail(s: string, open: string, close: string, i: nat, j: nat)
    requires i >= 1 && OccursAt(s, open, i) && OccursAt(s, close, j)
    requires i + |open| <= j && '\n' !in s[i + |open|..j]
    ensures OccursBracketed(s[1..], open, close)
  {
    var t := s[1..];
    OccursAtShift(s, 1, open, i - 1);
    OccursAtShift(s, 1, close, j - 1);
    assert t[i - 1 + |open|..j - 1] == s[i + |open|..j];
    assert OccursAt(t, open, i - 1) && OccursAt(t, close, j - 1);
  }

  lemma {:induction false} BracketedFound(s: string, open: string, close: string)
    requires ContainsBracketed(s, open, close)
    ensures OccursBracketed(s, open, close)
    decreases |s|
  {
    if StartsWith(s, open) && ClosesOnLine(s[|open|..], close) {
      var t := s[|open|..];
      ClosesOnLineIsOccurs(t, close);
      var j :| OccursAt(t, close, j) && '\n' !in t[..j];
      OccursAtShift(s, |open|, close, j);
      assert s[|open|..j + |open|] == t[..j];
      assert OccursAt(s, open, 0);
    } else {
      BracketedFound(s[1..], open, close);
      var i, j :| OccursAt(s[1..], open, i) && OccursAt(s[1..], close, j) &&
        i + |open| <= j && '\n' !in s[1..][i + |open|..j];
      BracketedFromTail(s, open, close, i, j);
    }
  }

  lemma {:induction false} BracketedSearched(s: string, open: string, close: string)
    requires OccursBracketed(s, open, close)
    ensures ContainsBracketed(s, open, close)
    decreases |s|
  {
    var i, j :| OccursAt(s, open, i) && OccursAt(s, close, j) &&
      i + |open| <= j && '\n' !in s[i + |open|..j];
    if i == 0 {
      var t := s[|open|..];
      OccursAtShift(s, |open|, close, j - |open|);
      assert t[..j - |open|] == s[|open|..j];
      ClosesOnLineIsOccurs(t, close);
      assert StartsWith(s, open);
    } else {
      BracketedToTail(s, open, close, i, j);
      BracketedSearched(s[1..], open, close);
    }
  }

  lemma ContainsBracketedIsOccurs(s: string, open: string, close: string)
    ensures ContainsBracketed(s, open, close) <==> OccursBracketed(s, open, close)
  {
    if ContainsBracketed(s, open, close) {
      BracketedFound(s, open, close);
    }
    if OccursBracketed(s, open, close) {
      BracketedSearched(s, open, close);
    }
  }

  /** Each hand-written scan finds exactly what its pattern describes. */
  lemma SearchIsOccurs(p: IgnorePattern, s: string)
    ensures Search(p, s) <==> Occurs(p, s)
  {
    match p
    case PromptHeader => ContainsBracketedIsOccurs(s, PromptHeaderOpen, PromptHeaderClose);
    case PromptContinuation => ContainsIsOccurs(s, ContinuationMarker);
    case SttyWarning => ContainsIsOccurs(s, SttyMarker);
    case BlankLine =>
    case ExecMarker => ContainsBracketedIsOccurs(s, ExecOpen, ExecClose);
  }

  /** `should_ignore(m)` holds exactly when some ignore pattern occurs in the
      sanitised message. */
  lemma ShouldIgnoreIsOccurs(message: string)
    ensures ShouldIgnore(message) <==>
            exists p :: p in IgnorePatterns && Occurs(p, Clean(message))
  {
    AnySearchIsExists(IgnorePatterns, Clean(message));
    forall p ensures Search(p, Clean(message)) <==> Occurs(p, Clean(message)) {
      SearchIsOccurs(p, Clean(message));
    }
  }

  // ---------------------------------------------------------------------------
  // Consequences

  /** A message that is whitespace once sanitised is ignored. */
  lemma BlankIsIgnored(message: string)
    requires AllSpace(Clean(message))
    ensures ShouldIgnore(message)
  {
    assert Search(BlankLine, Clean(message));
    assert BlankLine in IgnorePatterns;
    AnySearchIsExists(IgnorePatterns, Clean(message));
  }

  /** A whitespace-only message is ignored: sanitising only deletes characters. */
  lemma WhitespaceMessageIsIgnored(message: string)
    requires AllSpace(message)
    ensures ShouldIgnore(message)
  {
    CleanOnlyDeletes(message);
    forall k | 0 <= k < |Clean(message)| ensures IsSpace(Clean(message)[k]) {
      SubsequenceElements(Clean(message), message, k);
    }
    BlankIsIgnored(message);
  }

  /** A message in whose sanitised form one of the patterns occurs is ignored. */
  lemma OccurrenceIsIgnored(message: string, p: IgnorePattern)
    requires p in IgnorePatterns && Occurs(p, Clean(message))
    ensures ShouldIgnore(message)
  {
    SearchIsOccurs(p, Clean(message));
    AnySearchIsExists(IgnorePatterns, Clean(message));
  }

  lemma KaliPromptHeaderOccurs(prompt: string)
    requires prompt == "┌──(kali㉿kali)-[~]"
    ensures Clean(prompt) == prompt && Occurs(PromptHeader, prompt)
  {
    hide Clean;
    CleanKeepsPlainText(prompt);
    var n := |PromptHeaderOpen|;
    assert prompt[..n] == PromptHeaderOpen;
    assert prompt[n + 1..n + 2] == PromptHeaderClose;
    assert prompt[n..n + 1] == "~";
    assert OccursAt(prompt, PromptHeaderOpen, 0) && OccursAt(prompt, PromptHeaderClose, n + 1);
  }

  /** The decorated Kali prompt is ignored. */
  lemma KaliPromptIsIgnored(prompt: string)
    requires prompt == "┌──(kali㉿kali)-[~]"
    ensures ShouldIgnore(prompt)
  {
    KaliPromptHeaderOccurs(prompt);
    OccurrenceIsIgnored(prompt, PromptHeader);
  }

  /** `should_ignore` looks at the sanitised message before it is stripped,
      so trailing whitespace can complete a pattern: `stty: ` is ignored,
      although the line `log` would write for it, `stty:`, is not blank and
      holds no pattern. */
  lemma IgnoredBeforeStrip(message: string)
    requires message == "stty: "
    ensures ShouldIgnore(message)
    ensures Strip(Clean(message)) == "stty:"
    ensures forall p :: p in IgnorePatterns ==> !Occurs(p, Strip(Clean(message)))
  {
    CleanKeepsPlainText(message);
    hide *;
    SttyIgnored(message);
    SttyTrimmed(message);
    forall p | p in IgnorePatterns ensures !Occurs(p, Strip(Clean(message))) {
      TrimmedSttyHoldsNoPattern("stty:", p);
    }
  }

  lemma SttyIgnored(message: string)
    requires message == "stty: " && Clean(message) == message
    ensures ShouldIgnore(message)
  {
    hide Clean;
    assert OccursAt(message, SttyMarker, 0);
    OccurrenceIsIgnored(message, SttyWarning);
  }

  lemma SttyTrimmed(message: string)
    requires message == "stty: "
    ensures Strip(message) == "stty:"
  {
    assert Span(message, IsSpace) == 0;
    assert LStrip(message) == message;
    assert !IsSpace(message[..5][4]) && TrailingSpaces(message[..5]) == 0;
    assert TrailingSpaces(message) == 1;
  }

  lemma TrimmedSttyHoldsNoPattern(line: string, p: IgnorePattern)
    requires line == "stty:" && p in IgnorePatterns
    ensures !Occurs(p, line)
  {
    match p
    case PromptHeader =>
      assert forall i :: !OccursAt(line, PromptHeaderOpen, i);
    case PromptContinuation =>
      forall i: int ensures !OccursAt(line, ContinuationMarker, i) {
        if 0 <= i && i + |ContinuationMarker| <= |line| {
          assert line[i..i + |ContinuationMarker|][0] == line[i] != '└';
        }
      }
    case SttyWarning =>
    case BlankLine =>
      assert !IsSpace(line[0]);
    case ExecMarker =>
      assert forall i :: 0 <= i < |line| ==> line[i] != '[';
  }

  /** The patterns that are searched for (all but the blank-line one) still
      occur in any text that contains a slice in which they occur. */
  lemma OccursInSlice(p: IgnorePattern, s: string, lo: nat, hi: nat)
    requires lo <= hi <= |s| && p != BlankLine
    ensures Occurs(p, s[lo..hi]) ==> Occurs(p, s)
  {
    if Occurs(p, s[lo..hi]) {
      match p
      case PromptHeader => BracketedInSlice(s, lo, hi, PromptHeaderOpen, PromptHeaderClose);
      case PromptContinuation =>
        var i :| OccursAt(s[lo..hi], ContinuationMarker, i);
        OccursAtInSlice(s, lo, hi, ContinuationMarker, i);
      case SttyWarning =>
        var i :| OccursAt(s[lo..hi], SttyMarker, i);
        OccursAtInSlice(s, lo, hi, SttyMarker, i);
      case ExecMarker => BracketedInSlice(s, lo, hi, ExecOpen, ExecClose);
    }
  }

  lemma OccursAtInSlice(s: string, lo: nat, hi: nat, w: string, i: int)
    requires lo <= hi <= |s| && OccursAt(s[lo..hi], w, i)
    ensures OccursAt(s, w, i + lo)
  {
    SliceOfSlice(s, lo, hi, i, i + |w|);
  }

  lemma BracketedInSlice(s: string, lo: nat, hi: nat, open: string, close: string)
    requires lo <= hi <= |s| && OccursBracketed(s[lo..hi], open, close)
    ensures OccursBracketed(s, open, close)
  {
    var t := s[lo..hi];
    var i, j :| OccursAt(t, open, i) && OccursAt(t, close, j) &&
      i + |open| <= j && '\n' !in t[i + |open|..j];
    OccursAtInSlice(s, lo, hi, open, i);
    OccursAtInSlice(s, lo, hi, close, j);
    SliceOfSlice(s, lo, hi, i + |open|, j);
  }

  lemma OccursInSuffix(a: string, x: string, w: string, i: int)
    requires OccursAt(a + x, w, i) && i >= |a|
    ensures OccursAt(x, w, i - |a|)
  {
    var s := a + x;
    SliceOfSlice(s, |a|, |s|, i - |a|, i - |a| + |w|);
    assert s[|a|..] == x;
  }

  /** An occurrence of `w` in `a + x` lies wholly in `x` when `a` does not
      hold the first character of `w`. */
  lemma OccursBehindPrefixAt(a: string, x: string, w: string, i: int)
    requires OccursAt(a + x, w, i) && |w| > 0
    requires forall k :: 0 <= k < |a| ==> a[k] != w[0]
    ensures i >= |a| && OccursAt(x, w, i - |a|)
  {
    var s := a + x;
    assert s[i] == s[i..i + |w|][0];
    OccursInSuffix(a, x, w, i);
  }

  lemma BracketedBehindPrefix(a: string, x: string, open: string, close: string)
    requires |open| > 0 && forall k :: 0 <= k < |a| ==> a[k] != open[0]
    requires OccursBracketed(a + x, open, close)
    ensures OccursBracketed(x, open, close)
  {
    var s := a + x;
    var i, j :| OccursAt(s, open, i) && OccursAt(s, close, j) &&
      i + |open| <= j && '\n' !in s[i + |open|..j];
    OccursBehindPrefixAt(a, x, open, i);
    OccursInSuffix(a, x, close, j);
    SliceOfSlice(s, |a|, |s|, i - |a| + |open|, j - |a|);
    assert s[|a|..] == x;
    assert OccursAt(x, open, i - |a|) && OccursAt(x, close, j - |a|);
  }

  /** Text whose characters start no ignore pattern, and that is not all
      whitespace, adds no pattern occurrence when prepended. */
  lemma OccursBehindPrefix(p: IgnorePattern, a: string, x: string)
    requires forall k :: 0 <= k < |a| ==> a[k] != '┌' && a[k] != '└' && a[k] != '[' && a[k] != 's'
    requires !AllSpace(a)
    ensures Occurs(p, a + x) ==> Occurs(p, x)
  {
    if p == BlankLine {
      var k :| 0 <= k < |a| && !IsSpace(a[k]);
      assert (a + x)[k] == a[k];
    } else if Occurs(p, a + x) {
      match p
      case PromptHeader =>
        BracketedBehindPrefix(a, x, PromptHeaderOpen, PromptHeaderClose);
      case PromptContinuation =>
        var i :| OccursAt(a + x, ContinuationMarker, i);
        OccursBehindPrefixAt(a, x, ContinuationMarker, i);
      case SttyWarning =>
        var i :| OccursAt(a + x, SttyMarker, i);
        OccursBehindPrefixAt(a, x, SttyMarker, i);
      case ExecMarker =>
        BracketedBehindPrefix(a, x, ExecOpen, ExecClose);
    }
  }
}
