/**
 Character classes and elementary string operations used by the slug and
 markup code. Strings are `seq<char>`; the Unicode library functions the
 source calls (case mapping, canonical decomposition) are not defined here:
 they are passed in as per-character maps of type `CaseMap`.
 */
module Text {

  /** A per-character text transformation supplied by a Unicode library,
      such as full lower-case mapping or canonical (NFD) decomposition.
      One character may map to several (for example U+0130 lower-cases to
      two code points). */
  type CaseMap = char -> string

  predicate IsAsciiLower(c: char) { 'a' <= c <= 'z' }

  predicate IsDigit(c: char) { '0' <= c <= '9' }

  predicate IsAsciiUpper(c: char) { 'A' <= c <= 'Z' }

  /** The ASCII letters and digits a slug word is made of. */
  predicate IsAlnum(c: char) { IsAsciiLower(c) || IsDigit(c) }

  /** The slug alphabet: lower-case ASCII letters, digits and the hyphen. */
  predicate IsSlugChar(c: char) { IsAlnum(c) || c == '-' }

  /** Python's `\s` for `str` patterns, which is also the set `str.strip()`
      removes: the characters for which `str.isspace()` holds. */
  predicate IsPyWhitespace(c: char) {
    var n := c as int;
    (0x09 <= n <= 0x0D) || (0x1C <= n <= 0x20) || n == 0x85 || n == 0xA0
    || n == 0x1680 || (0x2000 <= n <= 0x200A) || n == 0x2028 || n == 0x2029
    || n == 0x202F || n == 0x205F || n == 0x3000
  }

  /** JavaScript's `\s`, which is also the set `String.prototype.trim`
      removes: WhiteSpace and LineTerminator code points. */
  predicate IsJsWhitespace(c: char) {
    var n := c as int;
    (0x09 <= n <= 0x0D) || n == 0x20 || n == 0xA0 || n == 0x1680
    || (0x2000 <= n <= 0x200A) || n == 0x2028 || n == 0x2029 || n == 0x202F
    || n == 0x205F || n == 0x3000 || n == 0xFEFF
  }

  /** The combining diacritical marks U+0300..U+036F, which both JavaScript
      slug functions delete after canonical decomposition. */
  predicate IsCombiningMark(c: char) { 0x300 <= c as int <= 0x36F }

  predicate IsNotMark(c: char) { !IsCombiningMark(c) }

  /** Every character of `s` satisfies `p`. */
  predicate AllChars(p: char -> bool, s: string) {
    forall i :: 0 <= i < |s| ==> p(s[i])
  }

  /** `c` occurs in `s`. */
  predicate Occurs(c: char, s: string) {
    exists i :: 0 <= i < |s| && s[i] == c
  }

  /** `pat` occurs in `text` at position `i`. */
  predicate OccursAt(pat: string, text: string, i: nat) {
    i + |pat| <= |text| && text[i..i + |pat|] == pat
  }

  /** `pre` is a prefix of `s`. */
  predicate IsPrefix(pre: string, s: string) {
    |pre| <= |s| && s[..|pre|] == pre
  }

  /** The concatenation of `f(c)` over the characters `c` of `s`. */
  function MapChars(f: CaseMap, s: string): (r: string)
    ensures |s| == 1 ==> r == f(s[0])
  {
    if s == [] then [] else f(s[0]) + MapChars(f, s[1..])
  }

  lemma {:induction false} MapCharsAppend(f: CaseMap, a: string, b: string)
    ensures MapChars(f, a + b) == MapChars(f, a) + MapChars(f, b)
  {
    if a == [] {
      assert a + b == b;
    } else {
      assert (a + b)[0] == a[0];
      assert (a + b)[1..] == a[1..] + b;
      MapCharsAppend(f, a[1..], b);
    }
  }

  /** Mapping twice is mapping once with the composed map. */
  lemma {:induction false} MapCharsCompose(f: CaseMap, g: CaseMap, s: string)
    ensures MapChars(g, MapChars(f, s)) == MapChars(c => MapChars(g, f(c)), s)
  {
    if s != [] {
      MapCharsAppend(g, f(s[0]), MapChars(f, s[1..]));
      MapCharsCompose(f, g, s[1..]);
    }
  }

  /** Maps that agree on the characters of `s` agree on `s`. */
  lemma {:induction false} MapCharsPointwise(f: CaseMap, g: CaseMap, s: string)
    requires forall i :: 0 <= i < |s| ==> f(s[i]) == g(s[i])
    ensures MapChars(f, s) == MapChars(g, s)
  {
    if s != [] {
      MapCharsPointwise(f, g, s[1..]);
    }
  }

  /** A map that sends every character of `s` to itself leaves `s` unchanged. */
  lemma {:induction false} MapCharsFixes(f: CaseMap, s: string)
    requires forall i :: 0 <= i < |s| ==> f(s[i]) == [s[i]]
    ensures MapChars(f, s) == s
  {
    if s != [] {
      MapCharsFixes(f, s[1..]);
    }
  }

  /** The characters of `s` that satisfy `p`, in order (a regular-expression
      replacement of a negated character class by the empty string). */
  function Keep(p: char -> bool, s: string): (r: string)
    ensures AllChars(p, r)
    ensures |r| <= |s|
    ensures AllChars(p, s) ==> r == s
  {
    if s == [] then []
    else if p(s[0]) then [s[0]] + Keep(p, s[1..])
    else Keep(p, s[1..])
  }

  /** A character survives `Keep` only if it was in the input. */
  lemma {:induction false} KeepSubset(p: char -> bool, q: char -> bool, s: string)
    requires AllChars(q, s)
    ensures AllChars(q, Keep(p, s))
  {
    if s != [] {
      KeepSubset(p, q, s[1..]);
    }
  }

  /** `s` without its longest prefix of characters satisfying `p`. */
  function DropWhile(p: char -> bool, s: string): (r: string)
    ensures |r| <= |s| && r == s[|s| - |r|..]
    ensures r == [] || !p(r[0])
    ensures AllChars(p, s[..|s| - |r|])
  {
    if s == [] || !p(s[0]) then s
    else
      var r := DropWhile(p, s[1..]);
      DropWhileStep(p, s, r);
      r
  }

  /** A separator in front of `s[1..]` joins the dropped prefix. */
  lemma DropWhileStep(p: char -> bool, s: string, r: string)
    requires s != [] && p(s[0])
    requires |r| <= |s| - 1 && r == s[1..][|s| - 1 - |r|..]
    requires AllChars(p, s[1..][..|s| - 1 - |r|])
    ensures r == s[|s| - |r|..] && AllChars(p, s[..|s| - |r|])
  {
    var k := |s| - |r|;
    forall i | 0 <= i < k ensures p(s[..k][i]) {
      if i > 0 {
        assert s[..k][i] == s[1..][..k - 1][i - 1];
      }
    }
  }

  /** `s` without its longest suffix of characters satisfying `p`. */
  function DropWhileEnd(p: char -> bool, s: string): (r: string)
    ensures |r| <= |s| && r == s[..|r|]
    ensures r == [] || !p(r[|r| - 1])
    ensures AllChars(p, s[|r|..])
  {
    if s == [] || !p(s[|s| - 1]) then s
    else
      var r := DropWhileEnd(p, s[..|s| - 1]);
      assert s[|r|..] == s[..|s| - 1][|r|..] + [s[|s| - 1]];
      r
  }

  /** `s` without the characters satisfying `p` at either end (Python's
      `strip`, JavaScript's `trim`). */
  function TrimEnds(p: char -> bool, s: string): (r: string)
    ensures AllChars(p, s) <==> r == []
    ensures |s| > 0 && !p(s[0]) && !p(s[|s| - 1]) ==> r == s
  {
    var d := DropWhile(p, s);
    var r := DropWhileEnd(p, d);
    assert r == [] ==> AllChars(p, s) by {
      if r == [] {
        assert s == s[..|s| - |d|] + d;
        assert d == d[|r|..];
      }
    }
    r
  }

  /** Trimmed text neither starts nor ends with a trimmed character. */
  lemma TrimEndsEdges(p: char -> bool, s: string)
    ensures var r := TrimEnds(p, s); r == [] || (!p(r[0]) && !p(r[|r| - 1]))
  {
  }

  /** Trimming keeps a middle part of the text, so it keeps its alphabet. */
  lemma TrimEndsChars(p: char -> bool, q: char -> bool, s: string)
    requires AllChars(q, s)
    ensures AllChars(q, TrimEnds(p, s))
  {
    var d := DropWhile(p, s);
    SuffixChars(q, s, |s| - |d|);
    PrefixChars(q, d, |DropWhileEnd(p, d)|);
  }

  /** A suffix keeps the alphabet of the text. */
  lemma SuffixChars(q: char -> bool, s: string, k: nat)
    requires AllChars(q, s) && k <= |s|
    ensures AllChars(q, s[k..])
  {
    forall i | 0 <= i < |s| - k ensures q(s[k..][i]) {
      assert s[k..][i] == s[k + i];
    }
  }

  /** A prefix keeps the alphabet of the text. */
  lemma PrefixChars(q: char -> bool, s: string, k: nat)
    requires AllChars(q, s) && k <= |s|
    ensures AllChars(q, s[..k])
  {
    forall i | 0 <= i < k ensures q(s[..k][i]) {
      assert s[..k][i] == s[i];
    }
  }

  /** Dropping a leading run stops at the first character outside it. */
  lemma {:induction false} DropWhileAfterRun(p: char -> bool, a: string, x: string)
    requires AllChars(p, a)
    requires x == [] || !p(x[0])
    ensures DropWhile(p, a + x) == x
  {
    if a != [] {
      assert (a + x)[1..] == a[1..] + x;
      DropWhileAfterRun(p, a[1..], x);
    } else {
      assert a + x == x;
    }
  }

  /** Dropping a trailing run stops at the last character outside it. */
  lemma {:induction false} DropWhileEndBeforeRun(p: char -> bool, x: string, b: string)
    requires AllChars(p, b)
    requires x == [] || !p(x[|x| - 1])
    ensures DropWhileEnd(p, x + b) == x
  {
    if b != [] {
      var s := x + b;
      assert s[..|s| - 1] == x + b[..|b| - 1];
      DropWhileEndBeforeRun(p, x, b[..|b| - 1]);
    } else {
      assert x + b == x;
    }
  }

  /** Trimming removes exactly the runs around a core that starts and ends
      outside them. */
  lemma TrimEndsAround(p: char -> bool, a: string, x: string, b: string)
    requires AllChars(p, a) && AllChars(p, b)
    requires x != [] && !p(x[0]) && !p(x[|x| - 1])
    ensures TrimEnds(p, a + x + b) == x
  {
    assert a + x + b == a + (x + b);
    DropWhileAfterRun(p, a, x + b);
    DropWhileEndBeforeRun(p, x, b);
  }

  /** The index of the last occurrence of `c` in `s`, or -1 (Python's
      `rfind`). */
  function LastIndexOf(s: string, c: char): (r: int)
    ensures -1 <= r < |s|
    ensures r >= 0 ==> s[r] == c
    ensures forall k :: r < k < |s| ==> s[k] != c
  {
    if s == [] then -1
    else if s[|s| - 1] == c then |s| - 1
    else LastIndexOf(s[..|s| - 1], c)
  }

  /** A case map that leaves the slug alphabet alone, as every Unicode
      lower-case mapping does. */
  predicate FixesSlugChars(lower: CaseMap) {
    forall c :: IsSlugChar(c) ==> lower(c) == [c]
  }

  /** A case map that lower-cases ASCII letters and leaves the slug
      alphabet alone, as every Unicode lower-case mapping does. */
  predicate LowersAscii(lower: CaseMap) {
    && FixesSlugChars(lower)
    && forall c :: IsAsciiUpper(c) ==> lower(c) == [(c as int + 32) as char]
  }

  /** The ASCII part of the Unicode lower-case mapping, identity elsewhere:
      a concrete `CaseMap` showing that `LowersAscii` can be met. */
  function AsciiLower(c: char): string {
    if IsAsciiUpper(c) then [(c as int + 32) as char] else [c]
  }

  lemma AsciiLowerLowersAscii()
    ensures LowersAscii(AsciiLower)
  {
  }

  /** The decimal digits of `n`, as Python's `str` writes an `int`. */
  function Decimal(n: nat): (r: string)
    ensures |r| >= 1 && AllChars(IsDigit, r)
    ensures n < 10 <==> |r| == 1
  {
    if n < 10 then [('0' as int + n) as char]
    else Decimal(n / 10) + [('0' as int + n % 10) as char]
  }
}
