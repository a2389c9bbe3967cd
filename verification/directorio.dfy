/**
 directorio.js: the company directory's search filter, the cleaning of the
 `rubro` (line of business) text, and the "Estado" column that
 `agregarEstadoYLimpiarRubros` adds to the table. The DOM is modelled as
 sequences: a header row is a sequence of header texts, a body row a
 sequence of cells.
 */
module Directorio {
  import opened Wrappers
  import opened Text
  import opened Pieces
  import opened Records
  import Batch

  // ---------------------------------------------------------------------
  // Cleaning the rubro text

  predicate IsSemicolon(c: char) { c == ';' }

  /** The characters the cleaning throws away: `;` and JavaScript `\s`. */
  predicate IsBlank(c: char) { IsJsWhitespace(c) || c == ';' }

  /** The length of the `^\s*;+` match at the start of `s`, or 0 when that
      alternative does not match. */
  function LeadEnd(s: string): (a: nat)
    ensures a <= |s| && LeadShape(s, a)
  {
    var a := RunsEnd(IsJsWhitespace, IsSemicolon, s);
    BlankLead(s, a);
    a
  }

  /** `s[..a]` is blank and, unless empty, ends in a semicolon. */
  predicate LeadShape(s: string, a: nat)
    requires a <= |s|
  {
    AllChars(IsBlank, s[..a]) && (a > 0 ==> s[a - 1] == ';')
  }

  lemma BlankLead(s: string, a: nat)
    requires a <= |s|
    requires forall i :: 0 <= i < a ==> IsJsWhitespace(s[i]) || IsSemicolon(s[i])
    requires a > 0 ==> IsSemicolon(s[a - 1])
    ensures LeadShape(s, a)
  {
  }

  /** The length of the match of `p*q+` at the start of `s`, or 0. */
  function RunsEnd(p: char -> bool, q: char -> bool, s: string): (a: nat)
    ensures a <= |s|
    ensures forall i :: 0 <= i < a ==> p(s[i]) || q(s[i])
    ensures a > 0 ==> q(s[a - 1])
  {
    var w := DropWhile(p, s);
    var k := DropWhile(q, w);
    if |k| < |w| then
      LeadRunParts(p, q, s, w, k);
      |s| - |k|
    else 0
  }

  lemma LeadRunParts(p: char -> bool, q: char -> bool, s: string, w: string, k: string)
    requires |w| <= |s| && w == s[|s| - |w|..] && AllChars(p, s[..|s| - |w|])
    requires |k| < |w| && k == w[|w| - |k|..] && AllChars(q, w[..|w| - |k|])
    ensures forall i :: 0 <= i < |s| - |k| ==> p(s[i]) || q(s[i])
    ensures q(s[|s| - |k| - 1])
  {
    var a := |s| - |k|;
    var m := |s| - |w|;
    forall i | 0 <= i < a ensures p(s[i]) || q(s[i]) {
      if i < m {
        assert s[i] == s[..m][i];
      } else {
        assert s[i] == w[..|w| - |k|][i - m];
      }
    }
    assert s[a - 1] == w[..|w| - |k|][|w| - |k| - 1];
  }

  /** `s[p..]` matches `;+\s*$`. */
  predicate TailAt(s: string, p: nat)
    requires p <= |s|
  {
    p < |s| && s[p] == ';' && AllChars(IsJsWhitespace, DropWhile(IsSemicolon, s[p..]))
  }

  /** Where the scan for the `;+\s*$` alternative first succeeds at or after
      `p`, or `|s|` when it never does. */
  function TailStart(s: string, p: nat): (b: nat)
    requires p <= |s|
    ensures p <= b <= |s|
    ensures b < |s| ==> TailAt(s, b)
    ensures forall i :: p <= i < b ==> !TailAt(s, i)
    decreases |s| - p
  {
    if p == |s| then p
    else if TailAt(s, p) then p
    else TailStart(s, p + 1)
  }

  /** `replace(/^\s*;+|;+\s*$/g, '')`: the leading match is tried at the
      start only, the trailing one from where the leading one ended. */
  function StripEdges(s: string): string {
    var a := LeadEnd(s);
    s[a..TailStart(s, a)]
  }

  /** `split(';').map(r => r.trim()).filter(Boolean)`. */
  function Items(s: string): (r: seq<string>)
    ensures forall i :: 0 <= i < |r| ==> r[i] != []
  {
    NonEmpty(TrimAll(SplitBy(IsSemicolon, s)))
  }

  /** `r.trim()`. */
  function Trim(s: string): string { TrimEnds(IsJsWhitespace, s) }

  /** `map(r => r.trim())`. */
  function TrimAll(xs: seq<string>): seq<string> { Batch.Each(Trim, xs) }

  const Comma: string := ", "

  /** The whole cleaning pipeline of lines 39-45 (and 108-113). */
  function CleanText(s: string): string {
    Join(Items(StripEdges(s)), Comma)
  }

  /** `value || ''` for a text field. */
  function OrEmpty(f: Field): string {
    if Truthy(f) then f.text else ""
  }

  /** `empresa.rubro || ''` followed by the cleaning: the record's items
      joined with ", ", nothing for a missing or blank rubro, never a `;`. */
  function CleanRubro(rubro: Field): (r: string)
    ensures r == "" <==> !Truthy(rubro) || AllChars(IsBlank, rubro.text)
    ensures Truthy(rubro) ==> r == Join(Items(rubro.text), Comma)
    ensures AllChars(NotSemicolon, r)
  {
    var s := OrEmpty(rubro);
    CleanTextIsItems(s);
    CleanTextEmptyIff(s);
    CleanTextNoSemicolon(s);
    CleanText(s)
  }

  /** A `;` splits the items. */
  lemma ItemsSplitAt(x: string, y: string)
    ensures Items(x + ";" + y) == Items(x) + Items(y)
  {
    SplitByAppend(IsSemicolon, x, ';', y);
    Batch.EachAppend(Trim, SplitBy(IsSemicolon, x), SplitBy(IsSemicolon, y));
    NonEmptyAppend(TrimAll(SplitBy(IsSemicolon, x)), TrimAll(SplitBy(IsSemicolon, y)));
  }

  /** Text yields no item exactly when it is only `;` and whitespace. */
  lemma ItemsEmptyIff(x: string)
    ensures Items(x) == [] <==> AllChars(IsBlank, x)
  {
    ItemsEmptyIffPieces(x);
    if AllChars(IsBlank, x) {
      PiecesBlank(x);
    }
    if AllBlank(SplitBy(IsSemicolon, x)) {
      BlankFromPieces(x);
    }
  }

  /** No item survives exactly when every piece of the split is blank. */
  lemma ItemsEmptyIffPieces(x: string)
    ensures Items(x) == [] <==> AllBlank(SplitBy(IsSemicolon, x))
  {
    var ps := SplitBy(IsSemicolon, x);
    forall i | 0 <= i < |ps| ensures Trim(ps[i]) == [] <==> AllChars(IsJsWhitespace, ps[i]) {
      TrimEmptyIff(ps[i]);
    }
    EachAllEmpty(Trim, IsJsWhitespace, ps);
  }

  /** Every piece is whitespace only. */
  predicate AllBlank(ps: seq<string>) {
    forall i :: 0 <= i < |ps| ==> AllChars(IsJsWhitespace, ps[i])
  }

  /** Trimming and filtering leaves nothing exactly when every piece is
      made of trimmed characters. */
  lemma EachAllEmpty(t: string -> string, p: char -> bool, ps: seq<string>)
    requires forall i :: 0 <= i < |ps| ==> (t(ps[i]) == [] <==> AllChars(p, ps[i]))
    ensures NonEmpty(Batch.Each(t, ps)) == [] <==> forall i :: 0 <= i < |ps| ==> AllChars(p, ps[i])
  {
    NonEmptyEmpty(Batch.Each(t, ps));
  }

  lemma TrimEmptyIff(p: string)
    ensures Trim(p) == [] <==> AllChars(IsJsWhitespace, p)
  {
  }

  /** Blank text splits into pieces of whitespace. */
  lemma PiecesBlank(x: string)
    requires AllChars(IsBlank, x)
    ensures AllBlank(SplitBy(IsSemicolon, x))
  {
    var ps := SplitBy(IsSemicolon, x);
    SplitByChars(IsSemicolon, IsBlank, x);
    SplitBySeparatorFree(IsSemicolon, x);
    forall i | 0 <= i < |ps| ensures AllChars(IsJsWhitespace, ps[i]) {
      PieceBlank(ps[i]);
    }
  }

  lemma PieceBlank(p: string)
    requires AllChars(IsBlank, p) && AllChars(c => !IsSemicolon(c), p)
    ensures AllChars(IsJsWhitespace, p)
  {
    forall i | 0 <= i < |p| ensures IsJsWhitespace(p[i]) {
      assert IsBlank(p[i]) && !IsSemicolon(p[i]);
    }
  }

  /** Pieces of whitespace joined by `;` are blank text. */
  lemma BlankFromPieces(x: string)
    requires AllBlank(SplitBy(IsSemicolon, x))
    ensures AllChars(IsBlank, x)
  {
    var ps := SplitBy(IsSemicolon, x);
    JoinSplitBy(IsSemicolon, ';', x);
    forall i | 0 <= i < |ps| ensures AllChars(IsBlank, ps[i]) {
      WhitespaceBlank(ps[i]);
    }
    JoinChars(IsBlank, ps, ";");
  }

  lemma WhitespaceBlank(p: string)
    requires AllChars(IsJsWhitespace, p)
    ensures AllChars(IsBlank, p)
  {
    forall i | 0 <= i < |p| ensures IsBlank(p[i]) {
      assert IsJsWhitespace(p[i]);
    }
  }

  /** What the trailing alternative removes is a `;` followed by `;` and
      whitespace only. */
  lemma TailBlank(s: string, b: nat)
    requires b < |s| && TailAt(s, b)
    ensures s[b] == ';' && AllChars(IsBlank, s[b + 1..])
  {
    var t := s[b..];
    var k := DropWhile(IsSemicolon, t);
    forall i | b + 1 <= i < |s| ensures IsBlank(s[i]) {
      var j := i - b;
      assert s[i] == t[j];
      if j < |t| - |k| {
        assert t[j] == t[..|t| - |k|][j];
      } else {
        assert t[j] == k[j - (|t| - |k|)];
      }
    }
    var u := s[b + 1..];
    forall i | 0 <= i < |u| ensures IsBlank(u[i]) {
      assert u[i] == s[b + 1 + i];
    }
  }

  /** Dropping the blank run before a `;` does not change the items. */
  lemma ItemsAfterLead(s: string, a: nat, m: string)
    requires a <= |s| && AllChars(IsBlank, s[..a]) && (a > 0 ==> s[a - 1] == ';')
    ensures Items(s[..a] + m) == Items(m)
  {
    if a == 0 {
      assert s[..a] + m == m;
    } else {
      var x := s[..a - 1];
      assert s[..a] == x + ";";
      assert AllChars(IsBlank, x) by {
        assert forall i :: 0 <= i < |x| ==> x[i] == s[..a][i];
      }
      ItemsEmptyIff(x);
      ItemsSplitAt(x, m);
    }
  }

  /** Dropping a `;` and the blank run after it does not change the items. */
  lemma ItemsBeforeTail(m: string, t: string)
    requires t == [] || (t[0] == ';' && AllChars(IsBlank, t[1..]))
    ensures Items(m + t) == Items(m)
  {
    if t == [] {
      assert m + t == m;
    } else {
      assert t == ";" + t[1..];
      assert m + t == m + ";" + t[1..];
      ItemsEmptyIff(t[1..]);
      ItemsSplitAt(m, t[1..]);
    }
  }

  /** The edge replacement is redundant: cleaning is the trimmed, non-empty
      `;`-separated items of the text, in order, joined with ", ". */
  lemma CleanTextIsItems(s: string)
    ensures CleanText(s) == Join(Items(s), Comma)
  {
    StripEdgesItems(s);
  }

  /** Removing the edge matches keeps the items. */
  lemma StripEdgesItems(s: string)
    ensures Items(StripEdges(s)) == Items(s)
  {
    var a := LeadEnd(s);
    var b := TailStart(s, a);
    TailItems(s, a, b);
    ItemsAfterLead(s, a, s[a..b] + s[b..]);
    Reassemble(s, a, b);
  }

  /** What the trailing match removes carries no item. */
  lemma TailItems(s: string, a: nat, b: nat)
    requires a <= b <= |s| && (b < |s| ==> TailAt(s, b))
    ensures Items(s[a..b] + s[b..]) == Items(s[a..b])
  {
    var t := s[b..];
    if b < |s| {
      TailBlank(s, b);
      assert t[1..] == s[b + 1..];
    }
    ItemsBeforeTail(s[a..b], t);
  }

  lemma Reassemble(s: string, a: nat, b: nat)
    requires a <= b <= |s|
    ensures s[..a] + (s[a..b] + s[b..]) == s
  {
  }

  predicate NotSemicolon(c: char) { c != ';' }

  /** Text without `;` and without whitespace at its ends. */
  predicate CleanPiece(t: string) {
    AllChars(NotSemicolon, t) && (t != [] ==> !IsJsWhitespace(t[0]) && !IsJsWhitespace(t[|t| - 1]))
  }

  /** Trimming a piece of the split leaves a clean piece. */
  lemma TrimmedPiece(p: string)
    requires AllChars(NotSemicolon, p)
    ensures CleanPiece(Trim(p))
  {
    TrimEndsChars(IsJsWhitespace, NotSemicolon, p);
    TrimEndsEdges(IsJsWhitespace, p);
  }

  /** Every item is free of `;` and has no whitespace at either end. */
  lemma ItemsShape(x: string)
    ensures forall i :: 0 <= i < |Items(x)| ==> CleanPiece(Items(x)[i])
  {
    var ps := SplitBy(IsSemicolon, x);
    var ts := TrimAll(ps);
    SplitBySeparatorFree(IsSemicolon, x);
    forall j | 0 <= j < |ts| ensures CleanPiece(ts[j]) {
      assert AllChars(NotSemicolon, ps[j]) by {
        assert AllChars(c => !IsSemicolon(c), ps[j]);
      }
      TrimmedPiece(ps[j]);
    }
    NonEmptyFrom(ts);
    var it := Items(x);
    forall i | 0 <= i < |it| ensures CleanPiece(it[i]) {
      assert it[i] in ts;
    }
  }

  /** The cleaned text contains no `;`. */
  lemma CleanTextNoSemicolon(s: string)
    ensures AllChars(NotSemicolon, CleanText(s))
  {
    CleanTextIsItems(s);
    JoinedItemsNoSemicolon(s);
  }

  lemma JoinedItemsNoSemicolon(x: string)
    ensures AllChars(NotSemicolon, Join(Items(x), Comma))
  {
    ItemsShape(x);
    JoinedNoSemicolon(Items(x));
  }

  /** Clean pieces joined with ", " hold no `;`. */
  lemma JoinedNoSemicolon(it: seq<string>)
    requires forall i :: 0 <= i < |it| ==> CleanPiece(it[i])
    ensures AllChars(NotSemicolon, Join(it, Comma))
  {
    forall i | 0 <= i < |it| ensures AllChars(NotSemicolon, it[i]) {
      assert CleanPiece(it[i]);
    }
    JoinChars(NotSemicolon, it, Comma);
  }

  /** The cleaned text is empty exactly when the input is only `;` and
      whitespace. */
  lemma CleanTextEmptyIff(s: string)
    ensures CleanText(s) == "" <==> AllChars(IsBlank, s)
  {
    CleanTextIsItems(s);
    JoinEmpty(Items(s), Comma);
    ItemsEmptyIff(s);
  }

  /** Cleaning text that is already clean changes nothing: the second pass
      over the Rubro cell leaves the text loaded from JSON as it is. */
  lemma CleanTextIdempotent(s: string)
    ensures CleanText(CleanText(s)) == CleanText(s)
  {
    CleanTextIsItems(s);
    CleanTextIsItems(CleanText(s));
    JoinedItemsClean(s);
  }

  /** Joined items are their own only item. */
  lemma JoinedItemsClean(x: string)
    ensures Join(Items(Join(Items(x), Comma)), Comma) == Join(Items(x), Comma)
  {
    if Items(x) == [] {
      ItemsEmptyIff("");
    } else {
      ItemsShape(x);
      JoinedItemsSingle(Items(x));
    }
  }

  lemma JoinedItemsSingle(it: seq<string>)
    requires it != []
    requires forall i :: 0 <= i < |it| ==> it[i] != [] && CleanPiece(it[i])
    ensures Items(Join(it, Comma)) == [Join(it, Comma)]
  {
    JoinedEnds(it);
    JoinedNoSemicolon(it);
    SingleItem(Join(it, Comma));
  }

  /** Clean pieces joined with ", " neither start nor end with whitespace. */
  lemma JoinedEnds(it: seq<string>)
    requires it != []
    requires forall i :: 0 <= i < |it| ==> it[i] != [] && CleanPiece(it[i])
    ensures var out := Join(it, Comma);
      out != [] && !IsJsWhitespace(out[0]) && !IsJsWhitespace(out[|out| - 1])
  {
    JoinEnds(it, Comma);
    assert CleanPiece(it[0]) && CleanPiece(it[|it| - 1]);
  }

  lemma SingleItem(s: string)
    requires s != [] && AllChars(NotSemicolon, s)
    requires !IsJsWhitespace(s[0]) && !IsJsWhitespace(s[|s| - 1])
    ensures Items(s) == [s]
  {
    assert AllChars(c => !IsSemicolon(c), s);
    SplitByNone(IsSemicolon, s);
    assert TrimAll([s]) == [s];
  }

  // ---------------------------------------------------------------------
  // The search filter

  /** `t` occurs in `s` as a contiguous block (`s.includes(t)`). */
  predicate Contains(s: string, t: string) {
    exists i: nat :: i <= |s| && OccursAt(t, s, i)
  }

  /** `s.includes(t)`, scanning start positions from the left. */
  function Includes(s: string, t: string): (r: bool)
    ensures r <==> Contains(s, t)
    decreases |s|
  {
    if IsPrefix(t, s) then
      assert OccursAt(t, s, 0);
      true
    else if s == [] then false
    else
      var r := Includes(s[1..], t);
      IncludesStep(s, t);
      r
  }

  /** A block of `s` that is not a prefix is a block of `s[1..]`. */
  lemma IncludesStep(s: string, t: string)
    requires s != [] && !IsPrefix(t, s)
    ensures Contains(s, t) <==> Contains(s[1..], t)
  {
    if Contains(s, t) {
      var i: nat :| i <= |s| && OccursAt(t, s, i);
      assert i != 0;
      assert s[1..][i - 1..i - 1 + |t|] == s[i..i + |t|];
      assert OccursAt(t, s[1..], i - 1);
    }
    if Contains(s[1..], t) {
      var i: nat :| i <= |s[1..]| && OccursAt(t, s[1..], i);
      assert s[i + 1..i + 1 + |t|] == s[1..][i..i + |t|];
      assert OccursAt(t, s, i + 1);
    }
  }

  /** JavaScript's `toLowerCase` on a whole string. Its Final_Sigma rule
      lowers `Σ` to `ς` or `σ` depending on the letters around it, so the
      search filter, which compares lowered text with no filter after it,
      takes the mapping of whole strings rather than of single characters. */
  type TextLower = string -> string

  /** No per-character map lowers as `toLowerCase` does: that gives "ας"
      for "ΑΣ", with the final sigma, and "σα" for "ΣΑ". */
  lemma FinalSigmaNotPerChar(lower: CaseMap)
    ensures MapChars(lower, "ΑΣ") == "ας" ==> MapChars(lower, "ΣΑ") != "σα"
  {
    MapCharsAppend(lower, "Α", "Σ");
    MapCharsAppend(lower, "Σ", "Α");
    assert "ΑΣ" == "Α" + "Σ" && "ΣΑ" == "Σ" + "Α";
    var a, s := lower('Α'), lower('Σ');
    assert MapChars(lower, "ΑΣ") == a + s && MapChars(lower, "ΣΑ") == s + a;
    if a + s == "ας" {
      if |a| == 0 {
        assert s == a + s;
        assert (s + a)[1] == 'ς';
      } else if |a| == 1 {
        assert s[0] == (a + s)[1] == 'ς';
        assert (s + a)[0] == 'ς';
      } else {
        assert a == a + s;
        assert (s + a)[1] == 'ς';
      }
    }
  }

  /** `(document.getElementById('q')?.value || '').toLowerCase()`: a missing
      search box reads as the empty query. */
  function Query(toLower: TextLower, input: Option<string>): string {
    toLower(input.GetOr(""))
  }

  /** Whether a row stays displayed: its lower-cased text contains the
      lower-cased query. */
  function Visible(toLower: TextLower, input: Option<string>, rowText: string): (r: bool)
    ensures r <==> Contains(toLower(rowText), Query(toLower, input))
    ensures Query(toLower, input) == "" ==> r
  {
    assert OccursAt("", toLower(rowText), 0);
    Includes(toLower(rowText), Query(toLower, input))
  }

  /** `filtrarDirectorio`: for each row in order, whether it is shown
      (`display = ''`) or hidden (`display = 'none'`). */
  function FilterRows(toLower: TextLower, input: Option<string>, rows: seq<string>): (shown: seq<bool>)
    ensures |shown| == |rows|
    ensures forall i :: 0 <= i < |rows| ==>
      (shown[i] <==> Contains(toLower(rows[i]), Query(toLower, input)))
    ensures Query(toLower, input) == "" ==> forall i :: 0 <= i < |rows| ==> shown[i]
  {
    Batch.Each(rowText => Visible(toLower, input, rowText), rows)
  }

  /** Under a lowering that keeps the empty text empty, as `toLowerCase`
      does, a missing or empty search box shows every row. */
  lemma EmptyQueryShowsAll(toLower: TextLower, input: Option<string>, rows: seq<string>)
    requires toLower("") == ""
    requires input.GetOr("") == ""
    ensures forall i :: 0 <= i < |rows| ==> FilterRows(toLower, input, rows)[i]
  {
    assert Query(toLower, input) == "";
  }

  /** A row hidden for a query stays hidden for any longer query that
      extends it, when the lowering works text by text on the query's
      ends, as it does away from a final sigma. */
  lemma LongerQueryHides(toLower: TextLower, a: string, b: string, rowText: string)
    requires toLower(a + b) == toLower(a) + toLower(b)
    requires !Visible(toLower, Some(a), rowText)
    ensures !Visible(toLower, Some(a + b), rowText)
  {
    var s := toLower(rowText);
    var qa := toLower(a);
    var q := toLower(a + b);
    if Contains(s, q) {
      var i: nat :| i <= |s| && OccursAt(q, s, i);
      assert s[i..i + |qa|] == q[..|qa|];
      assert OccursAt(qa, s, i);
    }
  }

  // ---------------------------------------------------------------------
  // The Estado column

  const EstadoKey: string := "estado"
  const RubroKey: string := "rubro"
  const EstadoTitle: string := "Estado"
  const HabilitadoText: string := "Habilitado"

  /** `th.textContent.trim().toLowerCase()`. */
  function Key(lower: CaseMap, h: string): string {
    MapChars(lower, TrimEnds(IsJsWhitespace, h))
  }

  predicate HasKey(lower: CaseMap, hs: seq<string>, k: string) {
    exists i :: 0 <= i < |hs| && Key(lower, hs[i]) == k
  }

  /** Where `ths.find` finds the first header that reads `key`, or `|hs|`
      when there is none. */
  function FindKey(lower: CaseMap, hs: seq<string>, key: string): (k: nat)
    ensures k <= |hs|
    ensures forall j :: 0 <= j < k ==> Key(lower, hs[j]) != key
    ensures k < |hs| ==> Key(lower, hs[k]) == key
  {
    Batch.FirstWith(h => Key(lower, h), hs, key)
  }

  /** The Rubro header's position, or `|hs|` when there is none. */
  function RubroColumn(lower: CaseMap, hs: seq<string>): nat {
    FindKey(lower, hs, RubroKey)
  }

  /** Step 1: an "Estado" header before the Rubro header, or at the end,
      unless some header already reads "estado". */
  function AddEstadoHeader(lower: CaseMap, hs: seq<string>): (r: seq<string>)
    ensures HasKey(lower, hs, EstadoKey) ==> r == hs
    ensures !HasKey(lower, hs, EstadoKey) ==>
      var k := RubroColumn(lower, hs);
      && |r| == |hs| + 1 && r[..k] == hs[..k] && r[k] == EstadoTitle && r[k + 1..] == hs[k..]
      && (forall j :: 0 <= j < k ==> Key(lower, r[j]) != RubroKey)
      && (k < |hs| ==> Key(lower, r[k + 1]) == RubroKey)
  {
    if HasKey(lower, hs, EstadoKey) then hs
    else
      var k := RubroColumn(lower, hs);
      InsertedAt(hs, k, EstadoTitle);
      hs[..k] + [EstadoTitle] + hs[k..]
  }

  /** Inserting `x` at `k` keeps what comes before and shifts what comes
      after by one. */
  lemma InsertedAt<T>(xs: seq<T>, k: nat, x: T)
    requires k <= |xs|
    ensures |xs[..k] + [x] + xs[k..]| == |xs| + 1
    ensures (xs[..k] + [x] + xs[k..])[..k] == xs[..k]
    ensures (xs[..k] + [x] + xs[k..])[k] == x
    ensures (xs[..k] + [x] + xs[k..])[k + 1..] == xs[k..]
    ensures forall j :: 0 <= j < k ==> (xs[..k] + [x] + xs[k..])[j] == xs[j]
    ensures k < |xs| ==> (xs[..k] + [x] + xs[k..])[k + 1] == xs[k]
  {
  }

  /** A lower-casing map reads the inserted header as "estado". */
  lemma EstadoTitleKey(lower: CaseMap)
    requires LowersAscii(lower)
    ensures Key(lower, EstadoTitle) == EstadoKey
  {
    EstadoTitleTrimmed();
    EstadoTitleLowered(lower);
  }

  lemma EstadoTitleTrimmed()
    ensures TrimEnds(IsJsWhitespace, EstadoTitle) == EstadoTitle
  {
    assert EstadoTitle[0] == 'E' && EstadoTitle[5] == 'o';
  }

  lemma EstadoTitleLowered(lower: CaseMap)
    requires LowersAscii(lower)
    ensures MapChars(lower, EstadoTitle) == EstadoKey
  {
    LowerStado(lower);
    assert lower('E') == ['e'];
    assert EstadoTitle == "E" + "stado";
    MapCharsAppend(lower, "E", "stado");
  }

  lemma LowerStado(lower: CaseMap)
    requires LowersAscii(lower)
    ensures MapChars(lower, "stado") == "stado"
  {
    var u := "stado";
    assert forall i :: 0 <= i < |u| ==> IsAsciiLower(u[i]) by {
      assert u[0] == 's' && u[1] == 't' && u[2] == 'a' && u[3] == 'd' && u[4] == 'o';
    }
    MapCharsFixes(lower, u);
  }

  /** After step 1 some header reads "estado", and a second run adds
      nothing. */
  lemma AddEstadoHeaderIdempotent(lower: CaseMap, hs: seq<string>)
    requires LowersAscii(lower)
    ensures HasKey(lower, AddEstadoHeader(lower, hs), EstadoKey)
    ensures AddEstadoHeader(lower, AddEstadoHeader(lower, hs)) == AddEstadoHeader(lower, hs)
  {
    var r := AddEstadoHeader(lower, hs);
    if !HasKey(lower, hs, EstadoKey) {
      EstadoTitleKey(lower);
      var k := RubroColumn(lower, hs);
      assert Key(lower, r[k]) == EstadoKey;
    }
  }

  /** A body cell: its text and its `data-col` attribute, if any. */
  datatype Cell = Cell(text: string, col: Option<string>)

  predicate IsEstadoCell(c: Cell) { c.col == Some(EstadoKey) }

  /** `celdas.some(td => td.dataset.col === 'estado')`. */
  predicate HasEstadoCell(row: seq<Cell>) {
    exists i :: 0 <= i < |row| && IsEstadoCell(row[i])
  }

  /** How many cells of the row are Estado cells. */
  function EstadoCount(row: seq<Cell>): (n: nat)
    ensures n > 0 <==> HasEstadoCell(row)
    ensures n <= |row|
  {
    if row == [] then 0
    else
      assert forall i :: 1 <= i < |row| ==> row[i] == row[1..][i - 1];
      (if IsEstadoCell(row[0]) then 1 else 0) + EstadoCount(row[1..])
  }

  lemma {:induction false} EstadoCountAppend(a: seq<Cell>, b: seq<Cell>)
    ensures EstadoCount(a + b) == EstadoCount(a) + EstadoCount(b)
  {
    if a == [] {
      assert a + b == b;
    } else {
      assert (a + b)[0] == a[0];
      assert (a + b)[1..] == a[1..] + b;
      EstadoCountAppend(a[1..], b);
    }
  }

  const Habilitado: Cell := Cell(HabilitadoText, Some(EstadoKey))

  /** Step 2: a row without an Estado cell gets one, placed right before its
      last cell (the Rubro cell), or as its only cell when it is empty. */
  function AddEstadoCell(row: seq<Cell>): (r: seq<Cell>)
    ensures HasEstadoCell(row) ==> r == row
    ensures !HasEstadoCell(row) ==> |r| == |row| + 1 && EstadoCount(r) == 1
    ensures !HasEstadoCell(row) && row != [] ==>
      r[..|row| - 1] == row[..|row| - 1] && r[|row| - 1] == Habilitado && r[|row|] == row[|row| - 1]
    ensures !HasEstadoCell(row) && row == [] ==> r == [Habilitado]
  {
    if HasEstadoCell(row) then row
    else if row == [] then [Habilitado]
    else
      var n := |row| - 1;
      var r := row[..n] + [Habilitado] + [row[n]];
      EstadoCountAppend(row[..n] + [Habilitado], [row[n]]);
      EstadoCountAppend(row[..n], [Habilitado]);
      assert row == row[..n] + [row[n]];
      EstadoCountAppend(row[..n], [row[n]]);
      r
  }

  /** Step 3 on one cell: an Estado cell is left alone, any other gets its
      text cleaned. */
  function CleanCell(c: Cell): (r: Cell)
    ensures r.col == c.col
    ensures IsEstadoCell(c) ==> r == c
  {
    if IsEstadoCell(c) then c else Cell(CleanText(c.text), c.col)
  }

  /** Any other cell's text becomes its items joined with ", ". */
  lemma CleanCellIsItems(c: Cell)
    requires !IsEstadoCell(c)
    ensures CleanCell(c).text == Join(Items(c.text), Comma)
  {
    CleanTextIsItems(c.text);
  }

  lemma CleanCellIdempotent(c: Cell)
    ensures CleanCell(CleanCell(c)) == CleanCell(c)
  {
    if !IsEstadoCell(c) {
      CleanTextIdempotent(c.text);
    }
  }

  /** Step 3: `tr.lastElementChild` is cleaned, the other cells are left
      alone. */
  function CleanLastCell(row: seq<Cell>): (r: seq<Cell>)
    ensures |r| == |row|
    ensures row != [] ==> r[..|row| - 1] == row[..|row| - 1] && r[|row| - 1] == CleanCell(row[|row| - 1])
  {
    if row == [] then row else row[..|row| - 1] + [CleanCell(row[|row| - 1])]
  }

  /** Steps 2 and 3 on one body row. */
  function FixRow(row: seq<Cell>): seq<Cell> {
    CleanLastCell(AddEstadoCell(row))
  }

  /** A fixed row has exactly as many Estado cells as before, plus one when
      it had none, and one cell more only in that case. */
  lemma FixRowShape(row: seq<Cell>)
    ensures HasEstadoCell(FixRow(row))
    ensures |FixRow(row)| == |row| + (if HasEstadoCell(row) then 0 else 1)
    ensures EstadoCount(FixRow(row)) == EstadoCount(row) + (if HasEstadoCell(row) then 0 else 1)
  {
    var a := AddEstadoCell(row);
    if a != [] {
      var c := CleanCell(a[|a| - 1]);
      assert FixRow(row) == a[..|a| - 1] + [c];
      CountLastReplaced(a, c);
    }
  }

  /** Replacing the last cell by one of the same kind keeps the count. */
  lemma CountLastReplaced(a: seq<Cell>, c: Cell)
    requires a != [] && (IsEstadoCell(c) <==> IsEstadoCell(a[|a| - 1]))
    ensures EstadoCount(a[..|a| - 1] + [c]) == EstadoCount(a)
  {
    var n := |a| - 1;
    assert a == a[..n] + [a[n]];
    EstadoCountAppend(a[..n], [a[n]]);
    EstadoCountAppend(a[..n], [c]);
  }

  /** Running steps 2 and 3 twice gives the same row as running them once. */
  lemma FixRowIdempotent(row: seq<Cell>)
    ensures FixRow(FixRow(row)) == FixRow(row)
  {
    var a := AddEstadoCell(row);
    FixRowShape(row);
    assert AddEstadoCell(FixRow(row)) == CleanLastCell(a);
    CleanLastCellIdempotent(a);
  }

  lemma CleanLastCellIdempotent(row: seq<Cell>)
    ensures CleanLastCell(CleanLastCell(row)) == CleanLastCell(row)
  {
    if row != [] {
      var n := |row| - 1;
      var r := CleanLastCell(row);
      CleanCellIdempotent(row[n]);
      assert r == r[..n] + [r[n]];
    }
  }

  /** The directory table: the texts of the first header row and the rows
      of the first body, each absent when the page has none. */
  datatype Table = Table(head: Option<seq<string>>, body: Option<seq<seq<Cell>>>)

  /** `agregarEstadoYLimpiarRubros` on a table that exists: step 1 on the
      header row, steps 2 and 3 on every body row, in order. */
  function AgregarEstado(lower: CaseMap, t: Table): (r: Table)
    ensures r.head.Some? == t.head.Some? && r.body.Some? == t.body.Some?
    ensures t.head.Some? ==> r.head.value == AddEstadoHeader(lower, t.head.value)
    ensures r.body.Some? ==> |r.body.value| == |t.body.value|
    ensures r.body.Some? ==> forall i :: 0 <= i < |r.body.value| ==> r.body.value[i] == FixRow(t.body.value[i])
    ensures r.body.Some? ==> forall i :: 0 <= i < |r.body.value| ==> HasEstadoCell(r.body.value[i])
  {
    var head := if t.head.Some? then Some(AddEstadoHeader(lower, t.head.value)) else None;
    var body := if t.body.Some? then Some(FixRows(t.body.value)) else None;
    Table(head, body)
  }

  /** Steps 2 and 3 on every body row, in order. */
  function FixRows(rows: seq<seq<Cell>>): (r: seq<seq<Cell>>)
    ensures |r| == |rows|
    ensures forall i :: 0 <= i < |rows| ==> r[i] == FixRow(rows[i])
    ensures forall i :: 0 <= i < |rows| ==> HasEstadoCell(r[i])
  {
    var r := Batch.Each(FixRow, rows);
    forall i | 0 <= i < |rows| ensures HasEstadoCell(r[i]) {
      FixRowShape(rows[i]);
    }
    r
  }

  /** With a lower-casing map the header row ends up with an Estado header,
      and running the whole procedure again changes nothing. */
  lemma AgregarEstadoIdempotent(lower: CaseMap, t: Table)
    requires LowersAscii(lower)
    ensures var r := AgregarEstado(lower, t); r.head.Some? ==> HasKey(lower, r.head.value, EstadoKey)
    ensures AgregarEstado(lower, AgregarEstado(lower, t)) == AgregarEstado(lower, t)
  {
    if t.head.Some? {
      AddEstadoHeaderIdempotent(lower, t.head.value);
    }
    if t.body.Some? {
      FixRowsIdempotent(t.body.value);
    }
  }

  lemma {:induction false} FixRowsIdempotent(rows: seq<seq<Cell>>)
    ensures FixRows(FixRows(rows)) == FixRows(rows)
  {
    var r := FixRows(rows);
    assert r == Batch.Each(FixRow, rows);
    forall i | 0 <= i < |rows| ensures FixRow(r[i]) == r[i] {
      FixRowIdempotent(rows[i]);
    }
    assert FixRows(r) == Batch.Each(FixRow, r);
  }

  // ---------------------------------------------------------------------
  // Rows as `cargarEmpresasDesdeJSON` builds them

  /** A record of `/data/empresas.json`. */
  datatype Empresa = Empresa(id: Field, empresa: Field, resolucion: Field, fecha: Field, rubro: Field)

  /** A cell without a `data-col` attribute. */
  function Plain(text: string): Cell {
    Cell(text, None)
  }

  /** The five cells of the row built for a record, in column order; none
      carries a `data-col` attribute. */
  function LoadedRow(e: Empresa): (r: seq<Cell>)
    ensures |r| == 5 && !HasEstadoCell(r)
  {
    var t := CellTexts(e);
    PlainRow(t);
    Batch.Each(Plain, t)
  }

  lemma PlainRow(t: seq<string>)
    ensures !HasEstadoCell(Batch.Each(Plain, t))
  {
    var r := Batch.Each(Plain, t);
    assert forall i :: 0 <= i < |r| ==> r[i].col.None?;
  }

  /** The texts of the five cells: `${empresa.id || ''}` and so on, and the
      cleaned rubro last. */
  function CellTexts(e: Empresa): (t: seq<string>)
    ensures |t| == 5
  {
    [OrEmpty(e.id), OrEmpty(e.empresa), OrEmpty(e.resolucion), OrEmpty(e.fecha), CleanRubro(e.rubro)]
  }

  /** On a freshly loaded row, steps 2 and 3 add the Habilitado cell as the
      fifth column and leave the already-cleaned Rubro text as it is. */
  lemma LoadedRowFixed(e: Empresa)
    ensures FixRow(LoadedRow(e)) == LoadedRow(e)[..4] + [Habilitado] + [LoadedRow(e)[4]]
  {
    var row := LoadedRow(e);
    assert CleanCell(row[4]) == row[4] by {
      assert row[4] == Plain(CleanRubro(e.rubro));
      CleanTextIdempotent(OrEmpty(e.rubro));
    }
    FixCleanRow(row);
  }

  /** A row without an Estado cell whose last cell is already clean gets
      the Habilitado cell before that last cell and nothing else. */
  lemma FixCleanRow(row: seq<Cell>)
    requires row != [] && !HasEstadoCell(row)
    requires CleanCell(row[|row| - 1]) == row[|row| - 1]
    ensures FixRow(row) == row[..|row| - 1] + [Habilitado] + [row[|row| - 1]]
  {
    var n := |row| - 1;
    var a := AddEstadoCell(row);
    assert a == row[..n] + [Habilitado] + [row[n]];
    assert a[..n + 1] == row[..n] + [Habilitado];
    assert FixRow(row) == a[..n + 1] + [CleanCell(a[n + 1])];
    assert a[n + 1] == row[n];
  }
}
