/**
 Splitting text at separator characters, joining pieces, and collapsing runs
 of separators: the three shapes the slug variants and the directory's rubro
 cleaner are built from. `Words` is the reference definition the collapsing
 regular expressions are proved against.
 */
module Pieces {
  import opened Text

  /** Number of characters of `s` satisfying `p`. */
  function Count(p: char -> bool, s: string): nat {
    if s == [] then 0 else (if p(s[0]) then 1 else 0) + Count(p, s[1..])
  }

  /** JavaScript's `s.split(sep)` for a one-character separator, generalised to
      a class of separator characters: the maximal separator-free pieces
      between separators, empty pieces included. */
  function SplitBy(p: char -> bool, s: string): (r: seq<string>)
    ensures |r| == Count(p, s) + 1
  {
    if s == [] then [""]
    else
      var rest := SplitBy(p, s[1..]);
      if p(s[0]) then [""] + rest
      else [[s[0]] + rest[0]] + rest[1..]
  }

  /** The pieces, with the empty ones dropped (`filter(Boolean)`). */
  function NonEmpty(xs: seq<string>): (r: seq<string>)
    ensures |r| <= |xs|
    ensures forall i :: 0 <= i < |r| ==> r[i] != []
  {
    if xs == [] then []
    else if xs[0] == [] then NonEmpty(xs[1..])
    else [xs[0]] + NonEmpty(xs[1..])
  }

  /** `xs` joined with `sep` between consecutive elements. */
  function Join(xs: seq<string>, sep: string): (r: string)
    ensures xs == [] ==> r == []
    ensures |xs| == 1 ==> r == xs[0]
  {
    if xs == [] then []
    else if |xs| == 1 then xs[0]
    else xs[0] + sep + Join(xs[1..], sep)
  }

  /** The words of `s`: its maximal non-empty runs of non-separators. */
  function Words(p: char -> bool, s: string): seq<string> {
    NonEmpty(SplitBy(p, s))
  }

  /** A regular-expression replacement of every maximal run of separators
      (`[\s-]+`, `\s+`) by one hyphen, scanning left to right. */
  function CollapseRuns(p: char -> bool, s: string): (r: string)
    decreases |s|
  {
    if s == [] then []
    else if p(s[0]) then "-" + CollapseRuns(p, DropWhile(p, s))
    else [s[0]] + CollapseRuns(p, s[1..])
  }

  // ---------------------------------------------------------------------
  // Algebra of split, filter and join

  /** Splitting at a separator splits the pieces. */
  lemma {:induction false} SplitByAppend(p: char -> bool, a: string, d: char, b: string)
    requires p(d)
    ensures SplitBy(p, a + [d] + b) == SplitBy(p, a) + SplitBy(p, b)
  {
    if a == [] {
      assert a + [d] + b == [d] + b;
      assert ([d] + b)[1..] == b;
    } else {
      assert (a + [d] + b)[0] == a[0];
      assert (a + [d] + b)[1..] == a[1..] + [d] + b;
      SplitByAppend(p, a[1..], d, b);
    }
  }

  /** Text with no separator is one piece. */
  lemma {:induction false} SplitByNone(p: char -> bool, s: string)
    requires AllChars(c => !p(c), s)
    ensures SplitBy(p, s) == [s]
  {
    if s != [] {
      assert !p(s[0]);
      assert AllChars(c => !p(c), s[1..]) by {
        forall i | 0 <= i < |s[1..]| ensures !p(s[1..][i]) {
          assert s[1..][i] == s[i + 1];
        }
      }
      SplitByNone(p, s[1..]);
      assert [s[0]] + s[1..] == s;
    }
  }

  /** No piece contains a separator. */
  lemma {:induction false} SplitBySeparatorFree(p: char -> bool, s: string)
    ensures forall i :: 0 <= i < |SplitBy(p, s)| ==> AllChars(c => !p(c), SplitBy(p, s)[i])
  {
    if s != [] {
      SplitBySeparatorFree(p, s[1..]);
      var rest := SplitBy(p, s[1..]);
      if !p(s[0]) {
        var first := [s[0]] + rest[0];
        assert AllChars(c => !p(c), first) by {
          forall k | 0 <= k < |first| ensures !p(first[k]) {
            if k > 0 {
              assert first[k] == rest[0][k - 1];
            }
          }
        }
      }
    }
  }

  /** Every character of a piece is a character of the text. */
  lemma {:induction false} SplitByChars(p: char -> bool, q: char -> bool, s: string)
    requires AllChars(q, s)
    ensures forall i :: 0 <= i < |SplitBy(p, s)| ==> AllChars(q, SplitBy(p, s)[i])
  {
    if s != [] {
      SplitByChars(p, q, s[1..]);
    }
  }

  lemma {:induction false} NonEmptyAppend(xs: seq<string>, ys: seq<string>)
    ensures NonEmpty(xs + ys) == NonEmpty(xs) + NonEmpty(ys)
  {
    if xs == [] {
      assert xs + ys == ys;
    } else {
      assert (xs + ys)[0] == xs[0];
      assert (xs + ys)[1..] == xs[1..] + ys;
      NonEmptyAppend(xs[1..], ys);
    }
  }

  lemma {:induction false} NonEmptyKeepsNonEmpty(xs: seq<string>)
    requires forall i :: 0 <= i < |xs| ==> xs[i] != []
    ensures NonEmpty(xs) == xs
  {
    if xs != [] {
      NonEmptyKeepsNonEmpty(xs[1..]);
    }
  }

  /** Filtering keeps exactly the non-empty elements, so it is empty only
      when every element is. */
  lemma {:induction false} NonEmptyEmpty(xs: seq<string>)
    ensures NonEmpty(xs) == [] <==> forall i :: 0 <= i < |xs| ==> xs[i] == []
  {
    if xs != [] {
      NonEmptyEmpty(xs[1..]);
      if xs[0] == [] {
        assert forall i :: 1 <= i < |xs| ==> xs[i] == xs[1..][i - 1];
      }
    }
  }

  /** Every element the filter keeps is one of the input's. */
  lemma {:induction false} NonEmptyFrom(xs: seq<string>)
    ensures forall i :: 0 <= i < |NonEmpty(xs)| ==> NonEmpty(xs)[i] in xs
  {
    if xs != [] {
      NonEmptyFrom(xs[1..]);
    }
  }

  /** Gluing a character onto the first element of a join. */
  lemma JoinConsChar(c: char, xs: seq<string>, sep: string)
    requires xs != []
    ensures [c] + Join(xs, sep) == Join([[c] + xs[0]] + xs[1..], sep)
  {
    var ys := [[c] + xs[0]] + xs[1..];
    assert ys[1..] == xs[1..];
  }

  lemma JoinCons(x: string, xs: seq<string>, sep: string)
    requires xs != []
    ensures Join([x] + xs, sep) == x + sep + Join(xs, sep)
  {
    assert ([x] + xs)[1..] == xs;
  }

  /** Splitting at `d` and joining with `d` gives the text back when `d` is
      the only separator that occurs. */
  lemma {:induction false} JoinSplitBy(p: char -> bool, d: char, s: string)
    requires forall i :: 0 <= i < |s| && p(s[i]) ==> s[i] == d
    ensures Join(SplitBy(p, s), [d]) == s
  {
    if s != [] {
      JoinSplitBy(p, d, s[1..]);
      var rest := SplitBy(p, s[1..]);
      if p(s[0]) {
        JoinCons("", rest, [d]);
      } else {
        JoinConsChar(s[0], rest, [d]);
      }
    }
  }

  // ---------------------------------------------------------------------
  // Words

  lemma WordsSkipSeparator(p: char -> bool, s: string)
    requires s != [] && p(s[0])
    ensures Words(p, s) == Words(p, s[1..])
  {
  }

  /** Leading separators do not change the words. */
  lemma {:induction false} WordsDropWhile(p: char -> bool, s: string)
    ensures Words(p, DropWhile(p, s)) == Words(p, s)
  {
    if s != [] && p(s[0]) {
      WordsDropWhile(p, s[1..]);
    }
  }

  /** A trailing separator does not change the words. */
  lemma WordsSnocSeparator(p: char -> bool, s: string, d: char)
    requires p(d)
    ensures Words(p, s + [d]) == Words(p, s)
  {
    SplitByAppend(p, s, d, []);
    assert s + [d] + [] == s + [d];
    NonEmptyAppend(SplitBy(p, s), [""]);
  }

  /** Trailing separators do not change the words. */
  lemma {:induction false} WordsDropWhileEnd(p: char -> bool, s: string)
    ensures Words(p, DropWhileEnd(p, s)) == Words(p, s)
    decreases |s|
  {
    if s != [] && p(s[|s| - 1]) {
      var t := s[..|s| - 1];
      assert s == t + [s[|s| - 1]];
      WordsSnocSeparator(p, t, s[|s| - 1]);
      WordsDropWhileEnd(p, t);
    }
  }

  /** Trimming separators does not change the words. */
  lemma WordsTrimEnds(p: char -> bool, s: string)
    ensures Words(p, TrimEnds(p, s)) == Words(p, s)
  {
    WordsDropWhile(p, s);
    WordsDropWhileEnd(p, DropWhile(p, s));
  }

  /** A word starts at the first character exactly when that character is
      not a separator. */
  lemma FirstPieceEmpty(p: char -> bool, s: string)
    ensures SplitBy(p, s)[0] == [] <==> (s == [] || p(s[0]))
  {
  }

  /** The hyphen `CollapseRuns` writes for a leading separator run. */
  function Lead(p: char -> bool, s: string): string {
    if s != [] && p(s[0]) then "-" else ""
  }

  /** The hyphen `CollapseRuns` writes for a trailing separator run that
      follows a word. */
  function Trail(p: char -> bool, s: string): string {
    if s != [] && p(s[|s| - 1]) && Words(p, s) != [] then "-" else ""
  }

  /** Collapsing separator runs is joining the words with hyphens, plus a
      hyphen for a leading run and one for a trailing run. */
  lemma {:induction false} CollapseRunsIsJoin(p: char -> bool, s: string)
    ensures CollapseRuns(p, s) == Lead(p, s) + Join(Words(p, s), "-") + Trail(p, s)
    decreases |s|, 1
  {
    if s == [] {
    } else if p(s[0]) {
      CollapseLeadingRun(p, s);
    } else if |s| == 1 {
      CollapseLastChar(p, s);
    } else if !p(s[1]) {
      CollapseInsideWord(p, s);
    } else {
      CollapseWordEnd(p, s);
    }
  }

  lemma {:induction false} CollapseLeadingRun(p: char -> bool, s: string)
    requires s != [] && p(s[0])
    ensures CollapseRuns(p, s) == Lead(p, s) + Join(Words(p, s), "-") + Trail(p, s)
    decreases |s|, 0
  {
    CollapseLeadingStep(p, s);
    CollapseRunsIsJoin(p, DropWhile(p, s));
    DropWhileJoinParts(p, s);
    LeadingAssemble(CollapseRuns(p, s), CollapseRuns(p, DropWhile(p, s)), Join(Words(p, s), "-"), Trail(p, s));
  }

  /** The regrouping of the leading hyphen and the rest of the collapse. */
  lemma LeadingAssemble(c: string, cd: string, j: string, t: string)
    requires c == "-" + cd && cd == "" + j + t
    ensures c == "-" + j + t
  {
    assert "" + j + t == j + t;
  }

  /** A leading separator run becomes one hyphen. */
  lemma CollapseLeadingStep(p: char -> bool, s: string)
    requires s != [] && p(s[0])
    ensures |DropWhile(p, s)| < |s|
    ensures CollapseRuns(p, s) == "-" + CollapseRuns(p, DropWhile(p, s))
  {
  }

  /** Dropping the leading separators keeps the words and the trailing
      hyphen and removes the leading one. */
  lemma DropWhileJoinParts(p: char -> bool, s: string)
    ensures Lead(p, DropWhile(p, s)) == ""
    ensures Words(p, DropWhile(p, s)) == Words(p, s)
    ensures Trail(p, DropWhile(p, s)) == Trail(p, s)
  {
    var d := DropWhile(p, s);
    WordsDropWhile(p, s);
    if d != [] {
      assert d[|d| - 1] == s[|s| - 1];
    }
  }

  /** The pieces of a text starting with a non-separator: the first piece
      grows by that character. */
  lemma SplitByWordStart(p: char -> bool, s: string)
    requires s != [] && !p(s[0])
    ensures SplitBy(p, s) == [[s[0]] + SplitBy(p, s[1..])[0]] + SplitBy(p, s[1..])[1..]
    ensures Words(p, s) == [[s[0]] + SplitBy(p, s[1..])[0]] + NonEmpty(SplitBy(p, s[1..])[1..])
  {
  }

  lemma {:induction false} CollapseLastChar(p: char -> bool, s: string)
    requires |s| == 1 && !p(s[0])
    ensures CollapseRuns(p, s) == Lead(p, s) + Join(Words(p, s), "-") + Trail(p, s)
  {
    SplitByWordStart(p, s);
    assert s[1..] == [];
    assert [s[0]] + "" == s;
    assert Words(p, s) == [s];
  }

  lemma {:induction false} CollapseInsideWord(p: char -> bool, s: string)
    requires |s| > 1 && !p(s[0]) && !p(s[1])
    ensures CollapseRuns(p, s) == Lead(p, s) + Join(Words(p, s), "-") + Trail(p, s)
    decreases |s|, 0
  {
    var t := s[1..];
    CollapseRunsIsJoin(p, t);
    TrailInsideWord(p, s);
    JoinInsideWord(p, s);
    assert CollapseRuns(p, s) == [s[0]] + CollapseRuns(p, t);
  }

  lemma TrailInsideWord(p: char -> bool, s: string)
    requires |s| > 1 && !p(s[0]) && !p(s[1])
    ensures Trail(p, s[1..]) == Trail(p, s)
  {
    var t := s[1..];
    assert s[|s| - 1] == t[|t| - 1];
    SplitByWordStart(p, s);
    SplitByWordStart(p, t);
  }

  lemma JoinInsideWord(p: char -> bool, s: string)
    requires |s| > 1 && !p(s[0]) && !p(s[1])
    ensures Join(Words(p, s), "-") == [s[0]] + Join(Words(p, s[1..]), "-")
  {
    var t := s[1..];
    var rest := SplitBy(p, t);
    SplitByWordStart(p, s);
    SplitByWordStart(p, t);
    assert rest == [rest[0]] + rest[1..];
    JoinConsChar(s[0], Words(p, t), "-");
  }

  lemma WordsAtWordEnd(p: char -> bool, s: string)
    requires |s| > 1 && !p(s[0]) && p(s[1])
    ensures Words(p, s) == [[s[0]]] + Words(p, s[1..])
  {
    var t := s[1..];
    var rest := SplitBy(p, t);
    assert rest == [""] + SplitBy(p, t[1..]);
    SplitByWordStart(p, s);
    assert [s[0]] + rest[0] == [s[0]];
    assert rest[1..] == SplitBy(p, t[1..]);
  }

  lemma TrailAtWordEnd(p: char -> bool, s: string)
    requires |s| > 1 && !p(s[0]) && p(s[1])
    ensures Words(p, s[1..]) == [] ==> Trail(p, s) == "-" && Trail(p, s[1..]) == ""
    ensures Words(p, s[1..]) != [] ==> Trail(p, s) == Trail(p, s[1..])
  {
    var t := s[1..];
    WordsAtWordEnd(p, s);
    assert s[|s| - 1] == t[|t| - 1];
    if Words(p, t) == [] && !p(t[|t| - 1]) {
      WordsNonEmptyAtEnd(p, t);
    }
  }

  lemma {:induction false} CollapseWordEnd(p: char -> bool, s: string)
    requires |s| > 1 && !p(s[0]) && p(s[1])
    ensures CollapseRuns(p, s) == Lead(p, s) + Join(Words(p, s), "-") + Trail(p, s)
    decreases |s|, 0
  {
    var t := s[1..];
    var c := [s[0]] + CollapseRuns(p, t);
    assert CollapseRuns(p, s) == c;
    WordsAtWordEnd(p, s);
    TrailAtWordEnd(p, s);
    CollapseRunsIsJoin(p, t);
    if Words(p, t) == [] {
      LastWordThenRun(s[0], CollapseRuns(p, t), Words(p, s), Trail(p, s));
    } else {
      WordThenRun(s[0], CollapseRuns(p, t), Words(p, t), Words(p, s), Trail(p, s));
    }
  }

  lemma LastWordThenRun(c: char, ct: string, ws: seq<string>, tr: string)
    requires ct == "-" + Join([], "-") + ""
    requires ws == [[c]] + [] && tr == "-"
    ensures [c] + ct == "" + Join(ws, "-") + tr
  {
    assert ws == [[c]];
  }

  lemma WordThenRun(c: char, ct: string, wt: seq<string>, ws: seq<string>, tr: string)
    requires wt != []
    requires ct == "-" + Join(wt, "-") + tr
    requires ws == [[c]] + wt
    ensures [c] + ct == "" + Join(ws, "-") + tr
  {
    JoinCons([c], wt, "-");
  }

  /** Text ending in a non-separator has a last word. */
  lemma {:induction false} WordsNonEmptyAtEnd(p: char -> bool, s: string)
    requires s != [] && !p(s[|s| - 1])
    ensures Words(p, s) != []
  {
    var pieces := SplitBy(p, s);
    LastPieceNonEmpty(p, s);
    NonEmptyEmpty(pieces);
    assert pieces[|pieces| - 1] != [];
  }

  lemma {:induction false} LastPieceNonEmpty(p: char -> bool, s: string)
    requires s != [] && !p(s[|s| - 1])
    ensures SplitBy(p, s)[|SplitBy(p, s)| - 1] != []
  {
    var r := SplitBy(p, s);
    var rest := SplitBy(p, s[1..]);
    if |s| > 1 {
      assert s[1..][|s[1..]| - 1] == s[|s| - 1];
      LastPieceNonEmpty(p, s[1..]);
      LastOfCons(p, s);
      assert r[|r| - 1] == rest[|rest| - 1] || r[|r| - 1] == [s[0]] + rest[0];
    } else {
      assert s[1..] == [] && rest == [""];
    }
  }

  /** The last piece of `s` is the last piece of `s[1..]`, extended by
      `s[0]` when that is the only piece and `s[0]` is no separator. */
  lemma LastOfCons(p: char -> bool, s: string)
    requires s != []
    ensures var r := SplitBy(p, s); var rest := SplitBy(p, s[1..]);
      r[|r| - 1] == rest[|rest| - 1] || r[|r| - 1] == [s[0]] + rest[0]
  {
  }

  /** Splitting a join at its separator gives the joined pieces back, when
      no piece holds a separator. */
  lemma {:induction false} SplitByJoin(p: char -> bool, d: char, xs: seq<string>)
    requires p(d) && xs != []
    requires forall i :: 0 <= i < |xs| ==> AllChars(c => !p(c), xs[i])
    ensures SplitBy(p, Join(xs, [d])) == xs
    decreases |xs|
  {
    SplitByNone(p, xs[0]);
    if |xs| > 1 {
      SplitByAppend(p, xs[0], d, Join(xs[1..], [d]));
      assert forall i :: 0 <= i < |xs[1..]| ==> xs[1..][i] == xs[i + 1];
      SplitByJoin(p, d, xs[1..]);
      assert [xs[0]] + xs[1..] == xs;
    }
  }

  /** A text has no words exactly when it is all separators. */
  lemma {:induction false} WordsEmptyIff(p: char -> bool, s: string)
    ensures Words(p, s) == [] <==> AllChars(p, s)
    decreases |s|
  {
    if s != [] {
      if p(s[0]) {
        WordsSkipSeparator(p, s);
        WordsEmptyIff(p, s[1..]);
        assert AllChars(p, s) <==> AllChars(p, s[1..]) by {
          assert forall i :: 1 <= i < |s| ==> s[i] == s[1..][i - 1];
        }
      } else {
        SplitByWordStart(p, s);
      }
    }
  }

  /** The words are non-empty, free of separators, and made of the text's
      characters. */
  lemma WordsChars(p: char -> bool, q: char -> bool, s: string)
    requires AllChars(q, s)
    ensures forall i :: 0 <= i < |Words(p, s)| ==>
      Words(p, s)[i] != [] && AllChars(q, Words(p, s)[i]) && AllChars(c => !p(c), Words(p, s)[i])
  {
    var pieces := SplitBy(p, s);
    SplitBySeparatorFree(p, s);
    SplitByChars(p, q, s);
    NonEmptyFrom(pieces);
    forall i | 0 <= i < |Words(p, s)|
      ensures AllChars(q, Words(p, s)[i]) && AllChars(c => !p(c), Words(p, s)[i])
    {
      var k :| 0 <= k < |pieces| && pieces[k] == Words(p, s)[i];
    }
  }

  /** Python's order: collapse every run of separators (the hyphen among
      them) into one hyphen, then strip hyphens from both ends. The result
      is the words joined with single hyphens. */
  lemma CollapseThenStripHyphens(p: char -> bool, s: string)
    requires p('-')
    ensures TrimEnds(c => c == '-', CollapseRuns(p, s)) == Join(Words(p, s), "-")
  {
    CollapseRunsIsJoin(p, s);
    if Words(p, s) == [] {
      assert AllChars(c => c == '-', CollapseRuns(p, s));
    } else {
      StripAroundJoin(p, s);
    }
  }

  /** With at least one word, stripping hyphens from the collapsed text
      removes exactly the leading and trailing hyphens. */
  lemma StripAroundJoin(p: char -> bool, s: string)
    requires p('-') && Words(p, s) != []
    ensures TrimEnds(c => c == '-', Lead(p, s) + Join(Words(p, s), "-") + Trail(p, s))
         == Join(Words(p, s), "-")
  {
    WordsChars(p, c => true, s);
    JoinedWordsEnds(p, Words(p, s));
    TrimEndsAround(c => c == '-', Lead(p, s), Join(Words(p, s), "-"), Trail(p, s));
  }

  /** Words free of separators, joined with hyphens, neither start nor end
      with a hyphen when the hyphen is a separator. */
  lemma JoinedWordsEnds(p: char -> bool, ws: seq<string>)
    requires p('-') && ws != []
    requires forall i :: 0 <= i < |ws| ==> ws[i] != [] && AllChars(c => !p(c), ws[i])
    ensures Join(ws, "-") != [] && Join(ws, "-")[0] != '-'
    ensures Join(ws, "-")[|Join(ws, "-")| - 1] != '-'
  {
    JoinEnds(ws, "-");
    var last := ws[|ws| - 1];
    assert AllChars(c => !p(c), ws[0]) && AllChars(c => !p(c), last);
    assert !p(ws[0][0]) && !p(last[|last| - 1]);
  }

  /** JavaScript's order: trim separators from both ends, then collapse
      every remaining run of separators into one hyphen. The result is the
      words joined with single hyphens. */
  lemma TrimThenCollapse(p: char -> bool, s: string)
    ensures CollapseRuns(p, TrimEnds(p, s)) == Join(Words(p, s), "-")
  {
    var u := TrimEnds(p, s);
    WordsTrimEnds(p, s);
    CollapseRunsIsJoin(p, u);
    assert Lead(p, u) == "" && Trail(p, u) == "";
  }

  /** A join of non-empty elements starts with the first element's first
      character and ends with the last element's last character. */
  lemma {:induction false} JoinEnds(xs: seq<string>, sep: string)
    requires xs != [] && forall i :: 0 <= i < |xs| ==> xs[i] != []
    ensures Join(xs, sep) != []
    ensures Join(xs, sep)[0] == xs[0][0]
    ensures Join(xs, sep)[|Join(xs, sep)| - 1] == xs[|xs| - 1][|xs[|xs| - 1]| - 1]
  {
    if |xs| > 1 {
      JoinEnds(xs[1..], sep);
      var r := Join(xs[1..], sep);
      assert Join(xs, sep) == xs[0] + sep + r;
    }
  }

  // ---------------------------------------------------------------------
  // Slug shape

  /** The shape every Python slug has: slug alphabet only, no hyphen at
      either end, never two hyphens in a row. */
  predicate WellShaped(s: string) {
    && AllChars(IsSlugChar, s)
    && (s != [] ==> s[0] != '-' && s[|s| - 1] != '-')
    && (forall i :: 0 <= i < |s| - 1 ==> !(s[i] == '-' && s[i + 1] == '-'))
  }

  /** Joining pieces and a separator drawn from one alphabet stays in it. */
  lemma {:induction false} JoinChars(q: char -> bool, xs: seq<string>, sep: string)
    requires forall i :: 0 <= i < |xs| ==> AllChars(q, xs[i])
    requires AllChars(q, sep)
    ensures AllChars(q, Join(xs, sep))
    decreases |xs|
  {
    if |xs| > 1 {
      JoinChars(q, xs[1..], sep);
      var rest := Join(xs[1..], sep);
      var r := xs[0] + sep + rest;
      forall i | 0 <= i < |r| ensures q(r[i]) {
        if i < |xs[0]| {
          assert r[i] == xs[0][i];
        } else if i < |xs[0]| + |sep| {
          assert r[i] == sep[i - |xs[0]|];
        } else {
          assert r[i] == rest[i - |xs[0]| - |sep|];
        }
      }
    }
  }

  /** Collapsing changes nothing when every separator is a lone hyphen. */
  lemma {:induction false} CollapseRunsLoneHyphens(p: char -> bool, s: string)
    requires forall i :: 0 <= i < |s| && p(s[i]) ==> s[i] == '-'
    requires forall i :: 0 <= i < |s| - 1 ==> !(p(s[i]) && p(s[i + 1]))
    ensures CollapseRuns(p, s) == s
  {
    if s != [] {
      if p(s[0]) {
        assert DropWhile(p, s) == s[1..] by {
          if |s| > 1 {
            assert !p(s[1]);
            assert DropWhile(p, s[1..]) == s[1..];
          }
        }
      }
      CollapseRunsLoneHyphens(p, s[1..]);
    }
  }

  /** A well-shaped slug is its own collapsed and hyphen-stripped form. */
  lemma WellShapedCollapse(p: char -> bool, s: string)
    requires WellShaped(s)
    requires forall c :: IsSlugChar(c) ==> (p(c) <==> c == '-')
    ensures TrimEnds(c => c == '-', CollapseRuns(p, s)) == s
  {
    CollapseRunsLoneHyphens(p, s);
  }

  /** Non-empty words of letters and digits joined with hyphens are well
      shaped. */
  lemma {:induction false} JoinWordsWellShaped(ws: seq<string>)
    requires forall i :: 0 <= i < |ws| ==> ws[i] != [] && AllChars(IsAlnum, ws[i])
    ensures WellShaped(Join(ws, "-"))
  {
    if |ws| > 1 {
      JoinWordsWellShaped(ws[1..]);
      var j := Join(ws[1..], "-");
      var r := ws[0] + "-" + j;
      assert r == Join(ws, "-");
      forall i | 0 <= i < |r| - 1
        ensures !(r[i] == '-' && r[i + 1] == '-')
      {
        if i < |ws[0]| - 1 {
          assert r[i] == ws[0][i];
        } else if i == |ws[0]| - 1 {
          assert r[i] == ws[0][i];
        } else if i == |ws[0]| {
          assert r[i + 1] == j[0];
        } else {
          assert r[i] == j[i - |ws[0]| - 1];
          assert r[i + 1] == j[i + 1 - |ws[0]| - 1];
        }
      }
      forall i | 0 <= i < |r|
        ensures IsSlugChar(r[i])
      {
        if i < |ws[0]| {
          assert r[i] == ws[0][i];
        } else if i > |ws[0]| {
          assert r[i] == j[i - |ws[0]| - 1];
        }
      }
    }
  }

  /** A joined sequence of words is empty only if there are no words. */
  lemma JoinEmpty(ws: seq<string>, sep: string)
    requires forall i :: 0 <= i < |ws| ==> ws[i] != []
    ensures Join(ws, sep) == [] <==> ws == []
  {
    if |ws| > 1 {
      assert |Join(ws, sep)| >= |ws[0]|;
    }
  }
}
