/**
 * Character and string helpers that Python's `str` gives the logger for free:
 * the whitespace class behind `\s` and `str.strip()`, `strip`, `lower`, and
 * the "only deletes characters" relation used to describe the sanitiser.
 */
module Text {

  /** Python's `str.isspace()` / regex `\s` on `str` patterns: the characters
      whose bidirectional class is WS, B or S, or whose category is Zs. */
  predicate IsSpace(c: char) {
    ('\t' <= c <= '\r') || ('\U{1C}' <= c <= '\U{1F}') || c == ' ' ||
    c == '\U{85}' || c == '\U{A0}' || c == '\U{1680}' ||
    ('\U{2000}' <= c <= '\U{200A}') || c == '\U{2028}' || c == '\U{2029}' ||
    c == '\U{202F}' || c == '\U{205F}' || c == '\U{3000}'
  }

  ghost predicate AllSpace(s: string) {
    forall k :: 0 <= k < |s| ==> IsSpace(s[k])
  }

  /** Length of the longest prefix of `s` whose characters all satisfy `p`. */
  function Span(s: string, p: char -> bool): (n: nat)
    ensures n <= |s|
    ensures forall k :: 0 <= k < n ==> p(s[k])
    ensures n < |s| ==> !p(s[n])
  {
    if s != [] && p(s[0]) then 1 + Span(s[1..], p) else 0
  }

  /** Length of the longest suffix of `s` whose characters are all whitespace. */
  function TrailingSpaces(s: string): (n: nat)
    ensures n <= |s|
    ensures forall k :: |s| - n <= k < |s| ==> IsSpace(s[k])
    ensures n < |s| ==> !IsSpace(s[|s| - 1 - n])
  {
    if s != [] && IsSpace(s[|s| - 1]) then 1 + TrailingSpaces(s[..|s| - 1]) else 0
  }

  /** `str.lstrip()` */
  function LStrip(s: string): string {
    s[Span(s, IsSpace)..]
  }

  /** `str.rstrip()` */
  function RStrip(s: string): string {
    s[..|s| - TrailingSpaces(s)]
  }

  /** `str.strip()`: `s` without its leading and trailing whitespace. */
  function Strip(s: string): string {
    RStrip(LStrip(s))
  }

  /** Text as `str.strip()` leaves it when something is left: not empty, and
      no whitespace at either end. */
  predicate Trimmed(s: string) {
    s != [] && !IsSpace(s[0]) && !IsSpace(s[|s| - 1])
  }

  /** `strip` leaves nothing exactly when the text is all whitespace, and what
      it leaves neither starts nor ends with whitespace. */
  lemma StripTrims(s: string)
    ensures Strip(s) == [] <==> AllSpace(s)
    ensures Strip(s) != [] ==> Trimmed(Strip(s))
  {
    assert AllSpace(s) ==> Span(s, IsSpace) == |s|;
  }

  /** Text that neither starts nor ends with whitespace is left as it is. */
  lemma StripOfTrimmed(s: string)
    requires Trimmed(s)
    ensures Strip(s) == s
  {
    assert Span(s, IsSpace) == 0;
    assert LStrip(s) == s;
  }

  /** What `strip` keeps is one contiguous slice of the text, right after its
      leading whitespace. */
  lemma StripIsSlice(s: string)
    ensures Span(s, IsSpace) + |Strip(s)| <= |s|
    ensures Strip(s) == s[Span(s, IsSpace)..Span(s, IsSpace) + |Strip(s)|]
  {
  }

  /** Appending text that is not all whitespace to `a` leaves `a` untouched by `rstrip`. */
  lemma RStripAppend(a: string, x: string)
    requires !AllSpace(x)
    ensures RStrip(a + x) == a + RStrip(x)
  {
    var n := TrailingSpaces(x);
    var k :| 0 <= k < |x| && !IsSpace(x[k]);
    assert n < |x|;
    assert (a + x)[|a + x| - 1 - n] == x[|x| - 1 - n];
    assert forall i :: |a + x| - n <= i < |a + x| ==> (a + x)[i] == x[i - |a|];
    var m := TrailingSpaces(a + x);
    assert m == n;
  }

  /** The results of `f` on each element of `xs`, concatenated in order. */
  function FlatMap<T, U>(f: T -> seq<U>, xs: seq<T>): seq<U> {
    if xs == [] then [] else f(xs[0]) + FlatMap(f, xs[1..])
  }

  lemma {:induction false} FlatMapAppend<T, U>(f: T -> seq<U>, a: seq<T>, b: seq<T>)
    ensures FlatMap(f, a + b) == FlatMap(f, a) + FlatMap(f, b)
    decreases |a|
  {
    if a == [] {
      assert a + b == b;
    } else {
      assert (a + b)[1..] == a[1..] + b;
      FlatMapAppend(f, a[1..], b);
    }
  }

  lemma FlatMapOne<T, U>(f: T -> seq<U>, x: T)
    ensures FlatMap(f, [x]) == f(x)
  {
    assert [x][1..] == [];
  }

  /** Extending the prefix by one element appends that element's result. */
  lemma FlatMapPrefix<T, U>(f: T -> seq<U>, xs: seq<T>, i: nat)
    requires i < |xs|
    ensures FlatMap(f, xs[..i + 1]) == FlatMap(f, xs[..i]) + f(xs[i])
  {
    assert xs[..i + 1] == xs[..i] + [xs[i]];
    FlatMapAppend(f, xs[..i], [xs[i]]);
    FlatMapOne(f, xs[i]);
  }

  /** Appending `x` after `o + a` is appending `a + x` after `o`. */
  lemma AppendAfter<T>(o: seq<T>, a: seq<T>, x: seq<T>)
    ensures (o + a) + x == o + (a + x)
  {
  }

  lemma TakeAll<T>(xs: seq<T>)
    ensures xs[..|xs|] == xs
  {
  }

  /** A non-empty sequence is its head followed by its tail. */
  lemma HeadTail<T>(a: seq<T>, s: seq<T>)
    requires a != []
    ensures a == [a[0]] + a[1..] && a + s == [a[0]] + (a[1..] + s)
  {
  }

  function LowerChar(c: char): char {
    if 'A' <= c <= 'Z' then (c as int + 32) as char else c
  }

  /** `str.lower()` restricted to ASCII letters. */
  function Lower(s: string): string {
    seq(|s|, i requires 0 <= i < |s| => LowerChar(s[i]))
  }

  /** `a` is obtained from `b` by deleting zero or more characters. */
  ghost predicate IsSubsequence(a: string, b: string)
    decreases |b|
  {
    if b == [] then a == []
    else (a != [] && a[0] == b[0] && IsSubsequence(a[1..], b[1..])) || IsSubsequence(a, b[1..])
  }

  lemma {:induction false} SubsequenceReflexive(s: string)
    ensures IsSubsequence(s, s)
    decreases |s|
  {
    if s != [] {
      SubsequenceReflexive(s[1..]);
    }
  }

  lemma {:induction false} SubsequenceOfSuffix(a: string, b: string, n: nat)
    requires n <= |b| && IsSubsequence(a, b[n..])
    ensures IsSubsequence(a, b)
    decreases n
  {
    if n > 0 {
      assert b[1..][n - 1..] == b[n..];
      SubsequenceOfSuffix(a, b[1..], n - 1);
    }
  }

  lemma {:induction false} SubsequenceTransitive(a: string, b: string, c: string)
    requires IsSubsequence(a, b) && IsSubsequence(b, c)
    ensures IsSubsequence(a, c)
    decreases |c|
  {
    if c != [] {
      if b != [] && b[0] == c[0] && IsSubsequence(b[1..], c[1..]) {
        if a != [] && a[0] == b[0] && IsSubsequence(a[1..], b[1..]) {
          SubsequenceTransitive(a[1..], b[1..], c[1..]);
        } else {
          SubsequenceTransitive(a, b[1..], c[1..]);
        }
      } else {
        SubsequenceTransitive(a, b, c[1..]);
      }
    }
  }

  /** Deleting characters never introduces one. */
  lemma {:induction false} SubsequenceElements(a: string, b: string, k: nat)
    requires IsSubsequence(a, b) && k < |a|
    ensures a[k] in b
    decreases |b|
  {
    if b != [] {
      if a != [] && a[0] == b[0] && IsSubsequence(a[1..], b[1..]) {
        if k > 0 {
          SubsequenceElements(a[1..], b[1..], k - 1);
        }
      } else {
        SubsequenceElements(a, b[1..], k);
      }
    }
  }
}
