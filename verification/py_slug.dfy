/**
 The slug deriver of generar_noticias_estaticas.py (`slugify`): lower-case
 and strip, an ordered table of character replacements, removal of
 everything outside `[a-z0-9\s-]`, collapsing of `[\s-]+` runs into one
 hyphen, stripping of edge hyphens, the "noticia" fallback and the 60
 character cap with back-off to the last hyphen.
 */
module PySlug {
  import opened Wrappers
  import opened Text
  import opened Pieces

  /** The replacement dictionary, as (key, value) pairs in insertion order,
      which is the order `str.replace` is applied in. */
  type Table = seq<(char, string)>

  // The dictionary literal, one constant per source line.
  const Line26: Table := [('á', "a"), ('é', "e"), ('í', "i"), ('ó', "o"), ('ú', "u")]
  const Line27: Table := [('ñ', "n"), ('ü', "u")]
  const Line28: Table := [('à', "a"), ('è', "e"), ('ì', "i"), ('ò', "o"), ('ù', "u")]
  const Line29: Table := [('â', "a"), ('ê', "e"), ('î', "i"), ('ô', "o"), ('û', "u")]
  const Line30: Table := [('ä', "a"), ('ë', "e"), ('ï', "i"), ('ö', "o")]
  const Line31: Table := [('ç', "c")]
  const Line32: Table := [('¿', ""), ('?', ""), ('¡', ""), ('!', "")]
  const Line33: Table := [('´', ""), ('`', ""), ('\'', ""), ('"', "")]
  const Line34: Table := [('(', ""), (')', ""), ('[', ""), (']', ""), ('{', ""), ('}', "")]
  const Line35: Table := [('*', ""), ('+', "-"), ('=', "-"), ('$', ""), ('%', "")]
  const Line36: Table := [('&', "y"), ('@', ""), ('#', ""), (';', ""), (':', "")]
  const Line37: Table := [(',', ""), ('.', ""), ('<', ""), ('>', ""), ('/', "-"), ('\\', "-")]
  const Line38: Table := [('º', ""), ('ª', ""), ('·', "-")]

  const Replacements: Table :=
    Line26 + Line27 + Line28 + Line29 + Line30 + Line31 + Line32 + Line33
    + Line34 + Line35 + Line36 + Line37 + Line38

  /** The fallback slug. */
  const Placeholder: string := "noticia"

  /** The length cap for GitHub Pages file names. */
  const MaxLength: nat := 60

  /** `s.replace(key, value)` for a one-character key. */
  function ReplaceEvery(s: string, key: char, value: string): string {
    MapChars(c => if c == key then value else [c], s)
  }

  /** The loop `for old, new in replacements.items(): text = text.replace(old, new)`. */
  function ApplyTable(t: Table, s: string): string
    decreases |t|
  {
    if t == [] then s else ApplyTable(t[1..], ReplaceEvery(s, t[0].0, t[0].1))
  }

  /** What the table does to one character: the value of its first entry
      for `c`, or `c` itself when `c` is not a key. */
  function Lookup(t: Table, c: char): string {
    if t == [] then [c] else if t[0].0 == c then t[0].1 else Lookup(t[1..], c)
  }

  /** Characters `re.sub(r'[^a-z0-9\s-]', '', text)` keeps. */
  predicate IsKept(c: char) { IsAlnum(c) || IsPyWhitespace(c) || c == '-' }

  /** Characters in the class `[\s-]`. */
  predicate IsSeparator(c: char) { IsPyWhitespace(c) || c == '-' }

  /** `text.lower().strip()` followed by the replacement table and the
      removal of characters outside `[a-z0-9\s-]`. */
  function Filtered(lower: CaseMap, text: string): string {
    var lowered := TrimEnds(IsPyWhitespace, MapChars(lower, text));
    Keep(IsKept, ApplyTable(Replacements, lowered))
  }

  /** The text after `re.sub(r'[\s-]+', '-', text)` and `text.strip('-')`. */
  function Cleaned(lower: CaseMap, text: string): string {
    TrimEnds(c => c == '-', CollapseRuns(IsSeparator, Filtered(lower, text)))
  }

  /** `text[:60].rsplit('-', 1)[0]` when the text is longer than 60. */
  function Truncate(s: string): (r: string)
    ensures IsPrefix(r, s)
    ensures |s| <= MaxLength ==> r == s
    ensures |s| > MaxLength && !Occurs('-', s[..MaxLength]) ==> r == s[..MaxLength]
    ensures |s| > MaxLength && Occurs('-', s[..MaxLength]) ==>
      |r| < MaxLength && s[|r|] == '-' && !Occurs('-', s[|r| + 1..MaxLength])
  {
    if |s| <= MaxLength then s
    else
      var cut := s[..MaxLength];
      var j := LastIndexOf(cut, '-');
      if j < 0 then cut else cut[..j]
  }

  /** `slugify(text)`; `None` is Python's `None`. */
  function Slugify(lower: CaseMap, text: Option<string>): (r: string)
    ensures WellShaped(r)
    ensures 1 <= |r| <= MaxLength
  {
    if text == None || text == Some("") then Placeholder
    else
      var cleaned := Cleaned(lower, text.value);
      if cleaned == "" then Placeholder
      else
        CleanedWellShaped(lower, text.value);
        TruncateWellShaped(cleaned);
        Truncate(cleaned)
  }

  // ---------------------------------------------------------------------
  // Shape

  /** After cleaning, the text is the words of the filtered text joined with
      single hyphens. */
  lemma CleanedIsJoinedWords(lower: CaseMap, text: string)
    ensures Cleaned(lower, text) == Join(Words(IsSeparator, Filtered(lower, text)), "-")
  {
    CollapseThenStripHyphens(IsSeparator, Filtered(lower, text));
  }

  /** The cleaned text is well shaped. */
  lemma CleanedWellShaped(lower: CaseMap, text: string)
    ensures WellShaped(Cleaned(lower, text))
  {
    CleanedIsJoinedWords(lower, text);
    KeptWordsWellShaped(Filtered(lower, text));
  }

  lemma KeptWordsWellShaped(f: string)
    requires AllChars(IsKept, f)
    ensures WellShaped(Join(Words(IsSeparator, f), "-"))
  {
    WordsChars(IsSeparator, IsKept, f);
    var ws := Words(IsSeparator, f);
    forall i | 0 <= i < |ws|
      ensures ws[i] != [] && AllChars(IsAlnum, ws[i])
    {
      assert AllChars(IsKept, ws[i]) && AllChars(c => !IsSeparator(c), ws[i]);
    }
    JoinWordsWellShaped(ws);
  }

  /** Cleaning leaves nothing exactly when the filtered text has no ASCII
      letter or digit, so punctuation-only titles fall back to "noticia". */
  lemma CleanedEmptyIff(lower: CaseMap, text: string)
    ensures Cleaned(lower, text) == [] <==> !exists i :: 0 <= i < |Filtered(lower, text)| && IsAlnum(Filtered(lower, text)[i])
  {
    CleanedIsJoinedWords(lower, text);
    KeptWordsEmptyIff(Filtered(lower, text));
  }

  lemma KeptWordsEmptyIff(f: string)
    requires AllChars(IsKept, f)
    ensures Join(Words(IsSeparator, f), "-") == [] <==> !exists i :: 0 <= i < |f| && IsAlnum(f[i])
  {
    WordsChars(IsSeparator, IsKept, f);
    JoinEmpty(Words(IsSeparator, f), "-");
    WordsEmptyIff(IsSeparator, f);
  }

  /** The cap keeps a well-shaped text well shaped. */
  lemma TruncateWellShaped(s: string)
    requires WellShaped(s) && s != []
    ensures WellShaped(Truncate(s)) && 1 <= |Truncate(s)| <= MaxLength
  {
    if |s| > MaxLength {
      var cut := s[..MaxLength];
      var j := LastIndexOf(cut, '-');
      if j >= 0 {
        assert j > 0;
        assert cut[j - 1] != '-' by {
          assert s[j - 1] == cut[j - 1] && s[j] == cut[j];
        }
      } else {
        assert cut[MaxLength - 1] != '-';
      }
    }
  }

  /** A non-empty result that is not the fallback is a prefix of the cleaned
      text, equal to it when that fits in 60 characters; the fallback is
      taken for a missing or empty title and for one with no letter or digit
      left after filtering. */
  lemma SlugifyCases(lower: CaseMap, text: string)
    ensures text == "" ==> Slugify(lower, Some(text)) == Placeholder
    ensures text != "" && Cleaned(lower, text) == "" ==> Slugify(lower, Some(text)) == Placeholder
    ensures text != "" && Cleaned(lower, text) != "" ==> IsPrefix(Slugify(lower, Some(text)), Cleaned(lower, text))
    ensures text != "" && 0 < |Cleaned(lower, text)| <= MaxLength ==> Slugify(lower, Some(text)) == Cleaned(lower, text)
  {
    if text != "" && Cleaned(lower, text) != "" {
      SlugifyTruncates(lower, text);
    } else {
      SlugifyFallback(lower, text);
    }
  }

  lemma SlugifyTruncates(lower: CaseMap, text: string)
    requires text != "" && Cleaned(lower, text) != ""
    ensures Slugify(lower, Some(text)) == Truncate(Cleaned(lower, text))
  {
  }

  lemma SlugifyFallback(lower: CaseMap, text: string)
    requires text == "" || Cleaned(lower, text) == ""
    ensures Slugify(lower, Some(text)) == Placeholder
  {
  }

  /** A well-shaped slug of at most 60 characters is its own slug, given a
      lower-casing that fixes lower-case letters, digits and the hyphen. */
  lemma SlugifyFixpoint(lower: CaseMap, s: string)
    requires FixesSlugChars(lower)
    requires WellShaped(s) && 1 <= |s| <= MaxLength
    ensures Slugify(lower, Some(s)) == s
  {
    CleanedFixes(lower, s);
  }

  /** Cleaning leaves a well-shaped slug as it is. */
  lemma CleanedFixes(lower: CaseMap, s: string)
    requires FixesSlugChars(lower) && WellShaped(s)
    ensures Cleaned(lower, s) == s
  {
    FilteredFixes(lower, s);
    CollapseKeepsSlug(s);
  }

  /** Collapsing `[\s-]+` runs and stripping edge hyphens leave a
      well-shaped slug as it is. */
  lemma CollapseKeepsSlug(s: string)
    requires WellShaped(s)
    ensures TrimEnds(c => c == '-', CollapseRuns(IsSeparator, s)) == s
  {
    SeparatorOnSlug();
    WellShapedCollapse(IsSeparator, s);
  }

  /** Among slug characters only the hyphen is a separator. */
  lemma SeparatorOnSlug()
    ensures forall c :: IsSlugChar(c) ==> (IsSeparator(c) <==> c == '-')
  {
  }

  /** Lower-casing, stripping, the table and the character filter leave
      a well-shaped slug as it is. */
  lemma FilteredFixes(lower: CaseMap, s: string)
    requires FixesSlugChars(lower) && AllChars(IsSlugChar, s)
    ensures Filtered(lower, s) == s
  {
    MapCharsFixes(lower, s);
    FilterStagesKeepSlug(s);
  }

  /** The stages after lower-casing leave slug characters alone. */
  lemma FilterStagesKeepSlug(s: string)
    requires AllChars(IsSlugChar, s)
    ensures Keep(IsKept, ApplyTable(Replacements, TrimEnds(IsPyWhitespace, s))) == s
  {
    StripKeepsSlug(s);
    ApplyTableFixes(s);
    assert AllChars(IsKept, s);
  }

  /** `strip()` leaves a text of slug characters alone. */
  lemma StripKeepsSlug(s: string)
    requires AllChars(IsSlugChar, s)
    ensures TrimEnds(IsPyWhitespace, s) == s
  {
    if s == [] {
      assert AllChars(IsPyWhitespace, s);
    } else {
      SlugCharNotSpace(s[0]);
      SlugCharNotSpace(s[|s| - 1]);
    }
  }

  lemma SlugCharNotSpace(c: char)
    requires IsSlugChar(c)
    ensures !IsPyWhitespace(c)
  {
  }

  /** The replacement table leaves slug characters alone. */
  lemma ApplyTableFixes(s: string)
    requires AllChars(IsSlugChar, s)
    ensures ApplyTable(Replacements, s) == s
  {
    ReplacementsSlugValued();
    ApplyTableIsLookup(Replacements, s);
    forall i | 0 <= i < |s| ensures Lookup(Replacements, s[i]) == [s[i]] {
      LookupSlugChar(Replacements, s[i]);
    }
    MapCharsFixes(c => Lookup(Replacements, c), s);
  }

  /** Slugifying a slug changes nothing. */
  lemma SlugifyIdempotent(lower: CaseMap, text: Option<string>)
    requires FixesSlugChars(lower)
    ensures Slugify(lower, Some(Slugify(lower, text))) == Slugify(lower, text)
  {
    SlugifyFixpoint(lower, Slugify(lower, text));
  }

  /** A record without a title is named after `noticia-<index>`, which
      survives slugifying unchanged while it fits in 60 characters. */
  lemma MissingTitleSlug(lower: CaseMap, index: nat)
    requires FixesSlugChars(lower)
    ensures |Decimal(index)| <= MaxLength - 8 ==>
      Slugify(lower, Some(Placeholder + "-" + Decimal(index))) == Placeholder + "-" + Decimal(index)
  {
    if |Decimal(index)| <= MaxLength - 8 {
      DigitsNameWellShaped(Decimal(index));
      SlugifyFixpoint(lower, Placeholder + "-" + Decimal(index));
    }
  }

  /** "noticia-" followed by digits is well shaped. */
  lemma DigitsNameWellShaped(d: string)
    requires d != [] && AllChars(IsDigit, d)
    ensures WellShaped(Placeholder + "-" + d)
  {
    var s := Placeholder + "-" + d;
    forall i | 0 <= i < |s| ensures IsSlugChar(s[i]) && (i < 7 || IsDigit(s[i]) ==> s[i] != '-') {
      if i >= 8 {
        assert s[i] == d[i - 8];
      }
    }
  }

  // ---------------------------------------------------------------------
  // The replacement table

  /** Applying the dictionary entry by entry, in order, is one per-character
      substitution: no value produces a character a later key matches. */
  lemma {:induction false} ApplyTableIsLookup(t: Table, s: string)
    requires SlugValued(t)
    ensures ApplyTable(t, s) == MapChars(c => Lookup(t, c), s)
    decreases |t|
  {
    if t == [] {
      MapCharsFixes(c => Lookup(t, c), s);
    } else {
      var rest := t[1..];
      var step: CaseMap := c => if c == t[0].0 then t[0].1 else [c];
      assert SlugValued(rest) by {
        forall i | 0 <= i < |rest| ensures !IsSlugChar(rest[i].0) && AllChars(IsSlugChar, rest[i].1) {
          assert rest[i] == t[i + 1];
        }
      }
      ApplyTableIsLookup(rest, ReplaceEvery(s, t[0].0, t[0].1));
      MapCharsCompose(step, c => Lookup(rest, c), s);
      forall i | 0 <= i < |s|
        ensures MapChars(c => Lookup(rest, c), step(s[i])) == Lookup(t, s[i])
      {
        if s[i] == t[0].0 {
          var v := t[0].1;
          forall j | 0 <= j < |v| ensures Lookup(rest, v[j]) == [v[j]] {
            LookupSlugChar(rest, v[j]);
          }
          MapCharsFixes(c => Lookup(rest, c), v);
        }
      }
      MapCharsPointwise(c => MapChars(c' => Lookup(rest, c'), step(c)), c => Lookup(t, c), s);
    }
  }

  /** The dictionary leaves slug characters alone. */
  lemma {:induction false} LookupSlugChar(t: Table, c: char)
    requires SlugValued(t) && IsSlugChar(c)
    ensures Lookup(t, c) == [c]
    decreases |t|
  {
    if t != [] {
      assert t[0].0 != c;
      assert SlugValued(t[1..]) by {
        forall i | 0 <= i < |t[1..]| ensures !IsSlugChar(t[1..][i].0) && AllChars(IsSlugChar, t[1..][i].1) {
          assert t[1..][i] == t[i + 1];
        }
      }
      LookupSlugChar(t[1..], c);
    }
  }

  /** Every key lies outside the slug alphabet and every value inside it. */
  predicate SlugValued(t: Table) {
    forall i :: 0 <= i < |t| ==> !IsSlugChar(t[i].0) && AllChars(IsSlugChar, t[i].1)
  }

  lemma SlugValuedAppend(a: Table, b: Table)
    requires SlugValued(a) && SlugValued(b)
    ensures SlugValued(a + b)
  {
    forall i | 0 <= i < |a + b|
      ensures !IsSlugChar((a + b)[i].0) && AllChars(IsSlugChar, (a + b)[i].1)
    {
      if i < |a| {
        assert (a + b)[i] == a[i];
      } else {
        assert (a + b)[i] == b[i - |a|];
      }
    }
  }

  /** Every entry of the dictionary maps a non-slug character to slug
      characters or to nothing. */
  lemma ReplacementsSlugValued()
    ensures SlugValued(Replacements)
  {
    Line26SlugValued();
    Line27SlugValued();
    Line28SlugValued();
    Line29SlugValued();
    Line30SlugValued();
    Line31SlugValued();
    Line32SlugValued();
    Line33SlugValued();
    Line34SlugValued();
    Line35SlugValued();
    Line36SlugValued();
    Line37SlugValued();
    Line38SlugValued();
    var acc := Line26;
    SlugValuedAppend(acc, Line27); acc := acc + Line27;
    SlugValuedAppend(acc, Line28); acc := acc + Line28;
    SlugValuedAppend(acc, Line29); acc := acc + Line29;
    SlugValuedAppend(acc, Line30); acc := acc + Line30;
    SlugValuedAppend(acc, Line31); acc := acc + Line31;
    SlugValuedAppend(acc, Line32); acc := acc + Line32;
    SlugValuedAppend(acc, Line33); acc := acc + Line33;
    SlugValuedAppend(acc, Line34); acc := acc + Line34;
    SlugValuedAppend(acc, Line35); acc := acc + Line35;
    SlugValuedAppend(acc, Line36); acc := acc + Line36;
    SlugValuedAppend(acc, Line37); acc := acc + Line37;
    SlugValuedAppend(acc, Line38); acc := acc + Line38;
  }

  lemma Line26SlugValued()
    ensures SlugValued(Line26)
  {
    forall i | 0 <= i < |Line26| ensures !IsSlugChar(Line26[i].0) && AllChars(IsSlugChar, Line26[i].1) {
      assert i == 0 || i == 1 || i == 2 || i == 3 || i == 4;
    }
  }

  lemma Line27SlugValued()
    ensures SlugValued(Line27)
  {
    forall i | 0 <= i < |Line27| ensures !IsSlugChar(Line27[i].0) && AllChars(IsSlugChar, Line27[i].1) {
      assert i == 0 || i == 1;
    }
  }

  lemma Line28SlugValued()
    ensures SlugValued(Line28)
  {
    forall i | 0 <= i < |Line28| ensures !IsSlugChar(Line28[i].0) && AllChars(IsSlugChar, Line28[i].1) {
      assert i == 0 || i == 1 || i == 2 || i == 3 || i == 4;
    }
  }

  lemma Line29SlugValued()
    ensures SlugValued(Line29)
  {
    forall i | 0 <= i < |Line29| ensures !IsSlugChar(Line29[i].0) && AllChars(IsSlugChar, Line29[i].1) {
      assert i == 0 || i == 1 || i == 2 || i == 3 || i == 4;
    }
  }

  lemma Line30SlugValued()
    ensures SlugValued(Line30)
  {
    forall i | 0 <= i < |Line30| ensures !IsSlugChar(Line30[i].0) && AllChars(IsSlugChar, Line30[i].1) {
      assert i == 0 || i == 1 || i == 2 || i == 3;
    }
  }

  lemma Line31SlugValued()
    ensures SlugValued(Line31)
  {
    forall i | 0 <= i < |Line31| ensures !IsSlugChar(Line31[i].0) && AllChars(IsSlugChar, Line31[i].1) {
      assert i == 0;
    }
  }

  lemma Line32SlugValued()
    ensures SlugValued(Line32)
  {
    forall i | 0 <= i < |Line32| ensures !IsSlugChar(Line32[i].0) && AllChars(IsSlugChar, Line32[i].1) {
      assert i == 0 || i == 1 || i == 2 || i == 3;
    }
  }

  lemma Line33SlugValued()
    ensures SlugValued(Line33)
  {
    forall i | 0 <= i < |Line33| ensures !IsSlugChar(Line33[i].0) && AllChars(IsSlugChar, Line33[i].1) {
      assert i == 0 || i == 1 || i == 2 || i == 3;
    }
  }

  lemma Line34SlugValued()
    ensures SlugValued(Line34)
  {
    forall i | 0 <= i < |Line34| ensures !IsSlugChar(Line34[i].0) && AllChars(IsSlugChar, Line34[i].1) {
      assert i == 0 || i == 1 || i == 2 || i == 3 || i == 4 || i == 5;
    }
  }

  lemma Line35SlugValued()
    ensures SlugValued(Line35)
  {
    forall i | 0 <= i < |Line35| ensures !IsSlugChar(Line35[i].0) && AllChars(IsSlugChar, Line35[i].1) {
      assert i == 0 || i == 1 || i == 2 || i == 3 || i == 4;
    }
  }

  lemma Line36SlugValued()
    ensures SlugValued(Line36)
  {
    forall i | 0 <= i < |Line36| ensures !IsSlugChar(Line36[i].0) && AllChars(IsSlugChar, Line36[i].1) {
      assert i == 0 || i == 1 || i == 2 || i == 3 || i == 4;
    }
  }

  lemma Line37SlugValued()
    ensures SlugValued(Line37)
  {
    forall i | 0 <= i < |Line37| ensures !IsSlugChar(Line37[i].0) && AllChars(IsSlugChar, Line37[i].1) {
      assert i == 0 || i == 1 || i == 2 || i == 3 || i == 4 || i == 5;
    }
  }

  lemma Line38SlugValued()
    ensures SlugValued(Line38)
  {
    forall i | 0 <= i < |Line38| ensures !IsSlugChar(Line38[i].0) && AllChars(IsSlugChar, Line38[i].1) {
      assert i == 0 || i == 1 || i == 2;
    }
  }
}
