/**
 * `ShellLogger.clean_ansi`: five regular-expression deletion passes applied
 * in a fixed order. Each pass behaves as Python's `re.sub(pattern, '', text)`:
 * scan left to right and delete the leftmost non-overlapping matches. None of
 * the five patterns matches the empty string, and each is prefix-free (a match
 * that starts at a position is the only prefix there in the pattern's
 * language), so the scan is: at each position either a match of length n > 0
 * starts there and is deleted, or one character is kept.
 */
module Sanitizer {
  import opened Text

  const ESC: char := '\U{1B}'
  /** SHIFT IN, written `\x0f` in the source. */
  const SI: char := '\U{0F}'
  const CR: char := '\r'

  /** The passes, in the order `clean_ansi` applies them. */
  datatype Pass =
    | OscPass         // ESC ] [0-9;]* ;* [a-zA-Z]
    | CsiPass         // ESC [ [?0-9;]* [a-zA-Z]
    | RenditionPass   // ESC [ [?0-9;]* [mK]
    | Ecma48Pass      // ESC ( [@-Z\\-_] | [ [0-?]* [ -/]* [@-~] )
    | ControlPass     // \x0f | ESC[H | ESC[2J | ESC[K | \r

  predicate IsLetter(c: char) { 'a' <= c <= 'z' || 'A' <= c <= 'Z' }
  predicate OscParam(c: char) { '0' <= c <= '9' || c == ';' }
  predicate CsiParam(c: char) { c == '?' || OscParam(c) }
  /** ECMA-48 parameter bytes 0x30-0x3F. */
  predicate ParamByte(c: char) { '0' <= c <= '?' }
  /** ECMA-48 intermediate bytes 0x20-0x2F. */
  predicate IntermediateByte(c: char) { ' ' <= c <= '/' }
  /** ECMA-48 final bytes 0x40-0x7E. */
  predicate FinalByte(c: char) { '@' <= c <= '~' }
  /** The class `[@-Z\\-_]`: 0x40-0x5A and 0x5C-0x5F (so not `[`). */
  predicate FeByte(c: char) { '@' <= c <= 'Z' || '\\' <= c <= '_' }

  /** The characters a match of pass `p` can start with. */
  predicate Introduces(p: Pass, c: char) {
    if p == ControlPass then c == SI || c == ESC || c == CR else c == ESC
  }

  /** Every character of `w` in `[lo, hi)` satisfies `p`. */
  ghost predicate Every(w: string, lo: nat, hi: nat, p: char -> bool)
    requires lo <= hi <= |w|
  {
    forall i :: lo <= i < hi ==> p(w[i])
  }

  /** The language of each pass's pattern, written as the regular expression
      reads, independently of how `MatchLen` scans for it. */
  ghost predicate InPattern(p: Pass, w: string) {
    match p
    case OscPass =>
      // `[0-9;]*` up to some j, then `;*` up to the letter
      |w| >= 3 && w[0] == ESC && w[1] == ']' && IsLetter(w[|w| - 1]) &&
      exists j :: 2 <= j <= |w| - 1 && Every(w, 2, j, OscParam) && Every(w, j, |w| - 1, c => c == ';')
    case CsiPass =>
      |w| >= 3 && w[0] == ESC && w[1] == '[' && IsLetter(w[|w| - 1]) &&
      Every(w, 2, |w| - 1, CsiParam)
    case RenditionPass =>
      |w| >= 3 && w[0] == ESC && w[1] == '[' && w[|w| - 1] in "mK" &&
      Every(w, 2, |w| - 1, CsiParam)
    case Ecma48Pass =>
      (|w| == 2 && w[0] == ESC && FeByte(w[1])) ||
      (|w| >= 3 && w[0] == ESC && w[1] == '[' && FinalByte(w[|w| - 1]) &&
       exists j :: 2 <= j <= |w| - 1 && Every(w, 2, j, ParamByte) && Every(w, j, |w| - 1, IntermediateByte))
    case ControlPass =>
      w == [SI] || w == [ESC, '[', 'H'] || w == [ESC, '[', '2', 'J'] ||
      w == [ESC, '[', 'K'] || w == [CR]
  }

  /** Length of the match of pass `p` at the start of `s`, 0 when there is none. */
  function MatchLen(p: Pass, s: string): (n: nat)
    ensures n <= |s|
    ensures n > 0 ==> Introduces(p, s[0])
  {
    match p
    case OscPass =>
      if 2 <= |s| && s[0] == ESC && s[1] == ']' then
        var k := 2 + Span(s[2..], OscParam);
        if k < |s| && IsLetter(s[k]) then k + 1 else 0
      else 0
    case CsiPass =>
      if 2 <= |s| && s[0] == ESC && s[1] == '[' then
        var k := 2 + Span(s[2..], CsiParam);
        if k < |s| && IsLetter(s[k]) then k + 1 else 0
      else 0
    case RenditionPass =>
      if 2 <= |s| && s[0] == ESC && s[1] == '[' then
        var k := 2 + Span(s[2..], CsiParam);
        if k < |s| && s[k] in "mK" then k + 1 else 0
      else 0
    case Ecma48Pass =>
      if 2 <= |s| && s[0] == ESC && FeByte(s[1]) then 2
      else if 2 <= |s| && s[0] == ESC && s[1] == '[' then
        var j := 2 + Span(s[2..], ParamByte);
        var k := j + Span(s[j..], IntermediateByte);
        if k < |s| && FinalByte(s[k]) then k + 1 else 0
      else 0
    case ControlPass =>
      if s == [] then 0
      else if s[0] == SI || s[0] == CR then 1
      else if |s| >= 3 && s[..3] == [ESC, '[', 'H'] then 3
      else if |s| >= 4 && s[..4] == [ESC, '[', '2', 'J'] then 4
      else if |s| >= 3 && s[..3] == [ESC, '[', 'K'] then 3
      else 0
  }

  /** `re.sub(pattern, '', s)` for the pattern of pass `p`. */
  function Sub(p: Pass, s: string): (r: string)
    ensures |r| <= |s|
    decreases |s|
  {
    if s == [] then []
    else
      var n := MatchLen(p, s);
      if n > 0 then Sub(p, s[n..]) else [s[0]] + Sub(p, s[1..])
  }

  /** `ShellLogger.clean_ansi` */
  function Clean(s: string): string {
    Sub(ControlPass, Sub(Ecma48Pass, Sub(RenditionPass, Sub(CsiPass, Sub(OscPass, s)))))
  }

  // ---------------------------------------------------------------------------
  // MatchLen finds exactly the match the regular expression describes

  /** A run of `p` in `[lo, hi)` that stops at `hi` is what `Span` measures. */
  lemma SpanOfRun(s: string, lo: nat, hi: nat, p: char -> bool)
    requires lo <= hi < |s| && Every(s, lo, hi, p) && !p(s[hi])
    ensures Span(s[lo..], p) == hi - lo
  {
    var t := s[lo..];
    assert forall i :: 0 <= i < hi - lo ==> t[i] == s[lo + i];
    assert t[hi - lo] == s[hi];
    assert Span(t, p) <= hi - lo;
  }

  lemma RunOfSpan(s: string, lo: nat, p: char -> bool)
    requires lo <= |s|
    ensures lo + Span(s[lo..], p) <= |s| && Every(s, lo, lo + Span(s[lo..], p), p)
  {
    var t := s[lo..];
    assert forall i :: 0 <= i < Span(t, p) ==> t[i] == s[lo + i];
  }

  lemma EveryOfPrefix(s: string, n: nat, lo: nat, hi: nat, p: char -> bool)
    requires lo <= hi <= n <= |s|
    ensures Every(s[..n], lo, hi, p) <==> Every(s, lo, hi, p)
  {
    assert forall i :: lo <= i < hi ==> s[..n][i] == s[i];
  }

  lemma OscMatchIsThePattern(s: string)
    ensures MatchLen(OscPass, s) > 0 ==> InPattern(OscPass, s[..MatchLen(OscPass, s)])
    ensures forall n :: 0 < n <= |s| && InPattern(OscPass, s[..n]) ==> n == MatchLen(OscPass, s)
  {
    var n := MatchLen(OscPass, s);
    if n > 0 {
      var k := n - 1;
      RunOfSpan(s, 2, OscParam);
      EveryOfPrefix(s, n, 2, k, OscParam);
      assert Every(s[..n], k, k, c => c == ';');
    }
    forall m | 0 < m <= |s| && InPattern(OscPass, s[..m])
      ensures m == n
    {
      var w := s[..m];
      var j :| 2 <= j <= m - 1 && Every(w, 2, j, OscParam) && Every(w, j, m - 1, c => c == ';');
      assert Every(w, 2, m - 1, OscParam);
      EveryOfPrefix(s, m, 2, m - 1, OscParam);
      assert s[m - 1] == w[m - 1];
      SpanOfRun(s, 2, m - 1, OscParam);
    }
  }

  lemma CsiMatchIsThePattern(s: string)
    ensures MatchLen(CsiPass, s) > 0 ==> InPattern(CsiPass, s[..MatchLen(CsiPass, s)])
    ensures forall n :: 0 < n <= |s| && InPattern(CsiPass, s[..n]) ==> n == MatchLen(CsiPass, s)
  {
    var n := MatchLen(CsiPass, s);
    if n > 0 {
      RunOfSpan(s, 2, CsiParam);
      EveryOfPrefix(s, n, 2, n - 1, CsiParam);
    }
    forall m | 0 < m <= |s| && InPattern(CsiPass, s[..m])
      ensures m == n
    {
      EveryOfPrefix(s, m, 2, m - 1, CsiParam);
      assert s[m - 1] == s[..m][m - 1];
      SpanOfRun(s, 2, m - 1, CsiParam);
    }
  }

  lemma RenditionMatchIsThePattern(s: string)
    ensures MatchLen(RenditionPass, s) > 0 ==> InPattern(RenditionPass, s[..MatchLen(RenditionPass, s)])
    ensures forall n :: 0 < n <= |s| && InPattern(RenditionPass, s[..n]) ==> n == MatchLen(RenditionPass, s)
  {
    var n := MatchLen(RenditionPass, s);
    if n > 0 {
      RunOfSpan(s, 2, CsiParam);
      EveryOfPrefix(s, n, 2, n - 1, CsiParam);
    }
    forall m | 0 < m <= |s| && InPattern(RenditionPass, s[..m])
      ensures m == n
    {
      EveryOfPrefix(s, m, 2, m - 1, CsiParam);
      assert s[m - 1] == s[..m][m - 1];
      SpanOfRun(s, 2, m - 1, CsiParam);
    }
  }

  lemma Ecma48MatchInPattern(s: string)
    ensures MatchLen(Ecma48Pass, s) > 0 ==> InPattern(Ecma48Pass, s[..MatchLen(Ecma48Pass, s)])
  {
    var n := MatchLen(Ecma48Pass, s);
    if n > 2 {
      var j := 2 + Span(s[2..], ParamByte);
      RunOfSpan(s, 2, ParamByte);
      RunOfSpan(s, j, IntermediateByte);
      EveryOfPrefix(s, n, 2, j, ParamByte);
      EveryOfPrefix(s, n, j, n - 1, IntermediateByte);
      assert s[..n][n - 1] == s[n - 1];
    }
  }

  lemma Ecma48PatternIsMatch(s: string, m: nat)
    requires 0 < m <= |s| && InPattern(Ecma48Pass, s[..m])
    ensures m == MatchLen(Ecma48Pass, s)
  {
    var w := s[..m];
    assert w[0] == s[0] && w[1] == s[1];
    if m > 2 {
      var j :| 2 <= j <= m - 1 && Every(w, 2, j, ParamByte) && Every(w, j, m - 1, IntermediateByte);
      EveryOfPrefix(s, m, 2, j, ParamByte);
      EveryOfPrefix(s, m, j, m - 1, IntermediateByte);
      assert w[j] == s[j] && w[m - 1] == s[m - 1];
      SpanOfRun(s, 2, j, ParamByte);
      SpanOfRun(s, j, m - 1, IntermediateByte);
    }
  }

  lemma Ecma48MatchIsThePattern(s: string)
    ensures MatchLen(Ecma48Pass, s) > 0 ==> InPattern(Ecma48Pass, s[..MatchLen(Ecma48Pass, s)])
    ensures forall n :: 0 < n <= |s| && InPattern(Ecma48Pass, s[..n]) ==> n == MatchLen(Ecma48Pass, s)
  {
    Ecma48MatchInPattern(s);
    forall m | 0 < m <= |s| && InPattern(Ecma48Pass, s[..m])
      ensures m == MatchLen(Ecma48Pass, s)
    {
      Ecma48PatternIsMatch(s, m);
    }
  }

  lemma ControlMatchIsThePattern(s: string)
    ensures MatchLen(ControlPass, s) > 0 ==> InPattern(ControlPass, s[..MatchLen(ControlPass, s)])
    ensures forall n :: 0 < n <= |s| && InPattern(ControlPass, s[..n]) ==> n == MatchLen(ControlPass, s)
  {
    forall m | 0 < m <= |s| && InPattern(ControlPass, s[..m])
      ensures m == MatchLen(ControlPass, s)
    {
      var w := s[..m];
      assert w[0] == s[0];
      if m == 3 {
        assert s[..3] == w;
        if w == [ESC, '[', 'K'] {
          assert |s| >= 4 ==> s[..4][2] == 'K';
        }
      } else if m == 4 {
        assert s[..4] == w;
        assert s[..3][2] == '2';
      }
    }
  }

  /** For every pass, the length `MatchLen` reports is the length of the one
      prefix of `s` that the pass's pattern matches, and 0 when none does. */
  lemma MatchLenIsThePattern(p: Pass, s: string)
    ensures MatchLen(p, s) > 0 ==> InPattern(p, s[..MatchLen(p, s)])
    ensures forall n :: 0 < n <= |s| && InPattern(p, s[..n]) ==> n == MatchLen(p, s)
  {
    match p
    case OscPass => OscMatchIsThePattern(s);
    case CsiPass => CsiMatchIsThePattern(s);
    case RenditionPass => RenditionMatchIsThePattern(s);
    case Ecma48Pass => Ecma48MatchIsThePattern(s);
    case ControlPass => ControlMatchIsThePattern(s);
  }

  // ---------------------------------------------------------------------------
  // Properties of the passes and of clean_ansi

  lemma {:induction false} SubOnlyDeletes(p: Pass, s: string)
    ensures IsSubsequence(Sub(p, s), s)
    decreases |s|
  {
    if s != [] {
      var n := MatchLen(p, s);
      if n > 0 {
        SubOnlyDeletes(p, s[n..]);
        SubsequenceOfSuffix(Sub(p, s[n..]), s, n);
      } else {
        SubOnlyDeletes(p, s[1..]);
        var r := Sub(p, s);
        assert r[0] == s[0] && r[1..] == Sub(p, s[1..]);
      }
    }
  }

  /** `clean_ansi` only deletes characters. */
  lemma CleanOnlyDeletes(s: string)
    ensures IsSubsequence(Clean(s), s)
  {
    var s1 := Sub(OscPass, s);
    var s2 := Sub(CsiPass, s1);
    var s3 := Sub(RenditionPass, s2);
    var s4 := Sub(Ecma48Pass, s3);
    SubOnlyDeletes(OscPass, s);
    SubOnlyDeletes(CsiPass, s1);
    SubOnlyDeletes(RenditionPass, s2);
    SubOnlyDeletes(Ecma48Pass, s3);
    SubOnlyDeletes(ControlPass, s4);
    SubsequenceTransitive(s2, s1, s);
    SubsequenceTransitive(s3, s2, s);
    SubsequenceTransitive(s4, s3, s);
    SubsequenceTransitive(Clean(s), s4, s);
  }

  /** A pass leaves alone a prefix that holds no character its pattern starts with. */
  lemma {:induction false} SubKeepsPlainPrefix(p: Pass, a: string, s: string)
    requires forall i :: 0 <= i < |a| ==> !Introduces(p, a[i])
    ensures Sub(p, a + s) == a + Sub(p, s)
    decreases |a|
  {
    hide Sub;
    if a != [] {
      SubKeepsPlainPrefix(p, a[1..], s);
      SubKeepsPlainHead(p, a[0], a[1..], s, Sub(p, s));
      HeadTail(a, s);
    } else {
      assert a + s == s;
    }
  }

  /** One more kept character in front of a prefix the pass leaves alone. */
  lemma SubKeepsPlainHead(p: Pass, c: char, b: string, s: string, rest: string)
    requires !Introduces(p, c)
    requires Sub(p, b + s) == b + rest
    ensures Sub(p, [c] + (b + s)) == [c] + (b + rest)
  {
    var t := [c] + (b + s);
    assert t[0] == c && t[1..] == b + s;
    SubKeepsUnmatched(p, t);
  }

  /** A character at which no match starts is kept. */
  lemma SubKeepsUnmatched(p: Pass, t: string)
    requires t != [] && MatchLen(p, t) == 0
    ensures Sub(p, t) == [t[0]] + Sub(p, t[1..])
  {
  }

  /** A match is deleted and the scan resumes after it. */
  lemma SubDeletesMatch(p: Pass, t: string)
    requires MatchLen(p, t) > 0
    ensures Sub(p, t) == Sub(p, t[MatchLen(p, t)..])
  {
  }

  /** Text in which no pass can start a match is returned unchanged. */
  lemma CleanKeepsPlainText(s: string)
    requires ESC !in s && SI !in s && CR !in s
    ensures Clean(s) == s
  {
    forall p: Pass ensures Sub(p, s) == s {
      SubKeepsPlainPrefix(p, s, []);
      assert s + [] == s;
    }
  }

  /** `clean_ansi` commutes with prepending text that holds no ESC, SI or CR. */
  lemma CleanPlainPrefix(a: string, s: string)
    requires ESC !in a && SI !in a && CR !in a
    ensures Clean(a + s) == a + Clean(s)
  {
    var s1 := Sub(OscPass, s);
    var s2 := Sub(CsiPass, s1);
    var s3 := Sub(RenditionPass, s2);
    var s4 := Sub(Ecma48Pass, s3);
    SubKeepsPlainPrefix(OscPass, a, s);
    SubKeepsPlainPrefix(CsiPass, a, s1);
    SubKeepsPlainPrefix(RenditionPass, a, s2);
    SubKeepsPlainPrefix(Ecma48Pass, a, s3);
    SubKeepsPlainPrefix(ControlPass, a, s4);
  }

  /** `s` with every carriage return removed. */
  function WithoutCR(s: string): (r: string) {
    if s == [] then [] else (if s[0] == CR then [] else [s[0]]) + WithoutCR(s[1..])
  }

  /** Without ESC and SI in the input, the only thing `clean_ansi` deletes is
      carriage returns. */
  lemma {:induction false} CleanWithoutEscapesOnlyDropsCR(s: string)
    requires ESC !in s && SI !in s
    ensures Clean(s) == WithoutCR(s)
  {
    forall p: Pass | p != ControlPass ensures Sub(p, s) == s {
      SubKeepsPlainPrefix(p, s, []);
      assert s + [] == s;
    }
    ControlPassOnPlainText(s);
  }

  lemma {:induction false} ControlPassOnPlainText(s: string)
    requires ESC !in s && SI !in s
    ensures Sub(ControlPass, s) == WithoutCR(s)
    decreases |s|
  {
    if s != [] {
      assert s[1..] == s[1..];
      ControlPassOnPlainText(s[1..]);
    }
  }

  /** The control pass removes every SI and every carriage return. */
  lemma {:induction false} ControlPassRemovesAll(s: string)
    ensures CR !in Sub(ControlPass, s) && SI !in Sub(ControlPass, s)
    decreases |s|
  {
    if s != [] {
      var n := MatchLen(ControlPass, s);
      if n > 0 {
        ControlPassRemovesAll(s[n..]);
      } else {
        ControlPassRemovesAll(s[1..]);
      }
    }
  }

  /** The output of `clean_ansi` holds no carriage return and no SI, because
      the control pass runs last. */
  lemma CleanRemovesCROrSI(s: string)
    ensures CR !in Clean(s) && SI !in Clean(s)
  {
    ControlPassRemovesAll(Sub(Ecma48Pass, Sub(RenditionPass, Sub(CsiPass, Sub(OscPass, s)))));
  }

  lemma SubKeepsPlain(p: Pass, s: string)
    requires forall i :: 0 <= i < |s| ==> !Introduces(p, s[i])
    ensures Sub(p, s) == s
  {
    SubKeepsPlainPrefix(p, s, []);
    assert s + [] == s;
  }

  lemma ColourResetPasses(b: string)
    requires b == [ESC] + "[0m\n"
    ensures Sub(OscPass, b) == b && Sub(CsiPass, b) == "\n"
  {
    hide Sub;
    assert MatchLen(OscPass, b) == 0;
    SubKeepsUnmatched(OscPass, b);
    assert b[1..] == "[0m\n";
    SubKeepsPlain(OscPass, "[0m\n");
    CsiMatchEndsAt(b, 3);
    SubDeletesMatch(CsiPass, b);
    assert b[4..] == "\n";
    SubKeepsPlain(CsiPass, "\n");
  }

  lemma ColouredWordOsc(b: string, s: string)
    requires b == [ESC] + "[0m\n" && s == [ESC] + "[31mERROR" + b
    ensures Sub(OscPass, s) == s
  {
    hide Sub;
    ColourResetPasses(b);
    assert MatchLen(OscPass, s) == 0;
    SubKeepsUnmatched(OscPass, s);
    assert s[1..] == "[31mERROR" + b;
    SubKeepsPlainPrefix(OscPass, "[31mERROR", b);
  }

  /** A control sequence introducer, parameter bytes up to `k`, and a letter at `k`. */
  lemma CsiMatchEndsAt(s: string, k: nat)
    requires 2 <= k < |s| && s[0] == ESC && s[1] == '['
    requires Every(s, 2, k, CsiParam) && IsLetter(s[k]) && !CsiParam(s[k])
    ensures MatchLen(CsiPass, s) == k + 1
  {
    SpanOfRun(s, 2, k, CsiParam);
  }

  lemma ColouredWordCsi(b: string, s: string)
    requires b == [ESC] + "[0m\n" && s == [ESC] + "[31mERROR" + b
    ensures Sub(CsiPass, s) == "ERROR\n"
  {
    hide Sub;
    ColourResetPasses(b);
    assert s[0] == ESC && s[1] == '[' && s[2] == '3' && s[3] == '1' && s[4] == 'm';
    CsiMatchEndsAt(s, 4);
    SubDeletesMatch(CsiPass, s);
    assert s[5..] == "ERROR" + b;
    SubKeepsPlainPrefix(CsiPass, "ERROR", b);
  }

  lemma LastPassesKeepPlain(e: string)
    requires ESC !in e && SI !in e && CR !in e
    ensures Sub(ControlPass, Sub(Ecma48Pass, Sub(RenditionPass, e))) == e
  {
    SubKeepsPlain(RenditionPass, e);
    SubKeepsPlain(Ecma48Pass, e);
    SubKeepsPlain(ControlPass, e);
  }

  /** Colour codes around a word are removed, the newline kept. */
  lemma CleanColouredWord(s: string)
    requires s == [ESC] + "[31mERROR" + [ESC] + "[0m\n"
    ensures Clean(s) == "ERROR\n"
  {
    var b := [ESC] + "[0m\n";
    assert s == [ESC] + "[31mERROR" + b;
    ColouredWordOsc(b, s);
    ColouredWordCsi(b, s);
    var e := Sub(CsiPass, Sub(OscPass, s));
    LastPassesKeepPlain(e);
  }

  /** `clean_ansi` is not idempotent: removing a carriage return in the last
      pass can join an ESC to the text after it into a new colour code. */
  lemma CleanNotIdempotent()
    ensures Clean([ESC, CR] + "[31m") == [ESC] + "[31m"
    ensures Clean([ESC] + "[31m") == []
  {
    EscCrCleaned([ESC, CR] + "[31m");
    ColourCodeCleaned([ESC] + "[31m");
  }

  /** Not every escape sequence is removed: ESC ( B, which selects a character
      set (an nF sequence of ECMA-35), matches none of the five passes, since
      `(` is neither a Fe byte nor `[`. */
  lemma CharsetDesignationKept(s: string)
    requires s == [ESC] + "(Bok"
    ensures Clean(s) == s
  {
    hide Sub;
    assert s[1..] == "(Bok";
    forall p: Pass ensures Sub(p, s) == s {
      assert MatchLen(p, s) == 0;
      SubKeepsUnmatched(p, s);
      SubKeepsPlain(p, "(Bok");
    }
  }

  lemma EscCrCleaned(s: string)
    requires s == [ESC, CR] + "[31m"
    ensures Clean(s) == [ESC] + "[31m"
  {
    hide Sub;
    assert s[1..] == [CR] + "[31m" && s[1..][1..] == "[31m";
    forall p: Pass | p != ControlPass ensures Sub(p, s) == s {
      assert MatchLen(p, s) == 0;
      SubKeepsUnmatched(p, s);
      SubKeepsPlain(p, [CR] + "[31m");
    }
    assert s[..3][1] == CR && s[..4][1] == CR;
    assert MatchLen(ControlPass, s) == 0;
    SubKeepsUnmatched(ControlPass, s);
    assert MatchLen(ControlPass, s[1..]) == 1;
    SubDeletesMatch(ControlPass, s[1..]);
    SubKeepsPlain(ControlPass, "[31m");
  }

  lemma ColourCodeCleaned(t: string)
    requires t == [ESC] + "[31m"
    ensures Clean(t) == []
  {
    hide Sub;
    assert MatchLen(OscPass, t) == 0;
    SubKeepsUnmatched(OscPass, t);
    assert t[1..] == "[31m";
    SubKeepsPlain(OscPass, "[31m");
    assert t[2] == '3' && t[3] == '1' && t[4] == 'm';
    CsiMatchEndsAt(t, 4);
    SubDeletesMatch(CsiPass, t);
    assert t[5..] == [];
    forall p: Pass ensures Sub(p, []) == [] {
      SubKeepsPlain(p, []);
    }
  }
}
