/**
 generar-noticias.js: `generarSlug`, the share image URL, and the file and
 `og:url` each record's page is written under.
 */
module NoticiasJs {
  import opened Wrappers
  import opened Text
  import opened Pieces
  import opened Records
  import Batch

  /** The scheme prefix `startsWith('http')` looks for. */
  const Http: string := "http"
  const BaseUrl: string := Http + "s://sintraspappy2025.github.io/sintraspap.github.io"
  const NoticiasDir: string := "noticias"

  /** Characters `/[^a-z0-9 ]/g` keeps: no hyphen, no tab, only the space. */
  predicate IsKept(c: char) { IsAlnum(c) || c == ' ' }

  /** The title after `toLowerCase`, `normalize("NFD")` and both filters. */
  function Folded(lower: CaseMap, nfd: CaseMap, s: string): string {
    Keep(IsKept, Keep(IsNotMark, MapChars(nfd, MapChars(lower, s))))
  }

  /** `generarSlug(texto)` for a string: trim, then `/\s+/g` to `-`. */
  function SlugText(lower: CaseMap, nfd: CaseMap, s: string): (r: string)
    ensures WellShaped(r)
  {
    var f := Folded(lower, nfd, s);
    TrimThenCollapse(IsJsWhitespace, f);
    KeptWordsWellShaped(f);
    CollapseRuns(IsJsWhitespace, TrimEnds(IsJsWhitespace, f))
  }

  /** Words of letters and digits separated by spaces join into a
      well-shaped slug. */
  lemma KeptWordsWellShaped(f: string)
    requires AllChars(IsKept, f)
    ensures WellShaped(Join(Words(IsJsWhitespace, f), "-"))
  {
    var ws := Words(IsJsWhitespace, f);
    WordsChars(IsJsWhitespace, IsKept, f);
    forall i | 0 <= i < |ws| ensures ws[i] != [] && AllChars(IsAlnum, ws[i]) {
      assert AllChars(IsKept, ws[i]) && AllChars(c => !IsJsWhitespace(c), ws[i]);
    }
    JoinWordsWellShaped(ws);
  }

  predicate IsSpace(c: char) { c == ' ' }

  /** The slug is the space-separated words of the filtered title joined
      with `-`: hyphens, tabs and every other character outside `[a-z0-9 ]`
      were deleted before, so only spaces separate words. */
  lemma SlugTextIsJoinedWords(lower: CaseMap, nfd: CaseMap, s: string)
    ensures SlugText(lower, nfd, s) == Join(Words(IsSpace, Folded(lower, nfd, s)), "-")
    ensures forall i :: 0 <= i < |Folded(lower, nfd, s)| ==> IsKept(Folded(lower, nfd, s)[i])
  {
    var f := Folded(lower, nfd, s);
    TrimThenCollapse(IsJsWhitespace, f);
    KeptWhitespaceIsSpace(f);
    WordsAgree(IsJsWhitespace, IsSpace, f);
  }

  /** On kept characters, JavaScript whitespace is the space. */
  lemma KeptWhitespaceIsSpace(f: string)
    requires AllChars(IsKept, f)
    ensures forall i :: 0 <= i < |f| ==> (IsJsWhitespace(f[i]) <==> IsSpace(f[i]))
  {
    forall i | 0 <= i < |f| ensures IsJsWhitespace(f[i]) <==> IsSpace(f[i]) {
      assert IsKept(f[i]);
    }
  }

  /** Separator classes that agree on the text's characters cut it into the
      same words. */
  lemma {:induction false} WordsAgree(p: char -> bool, q: char -> bool, s: string)
    requires forall i :: 0 <= i < |s| ==> (p(s[i]) <==> q(s[i]))
    ensures Words(p, s) == Words(q, s)
  {
    SplitByAgree(p, q, s);
  }

  lemma {:induction false} SplitByAgree(p: char -> bool, q: char -> bool, s: string)
    requires forall i :: 0 <= i < |s| ==> (p(s[i]) <==> q(s[i]))
    ensures SplitBy(p, s) == SplitBy(q, s)
  {
    if s != [] {
      SplitByAgree(p, q, s[1..]);
    }
  }

  /** The slug is empty exactly when no letter or digit survives the
      filters. */
  lemma SlugTextEmptyIff(lower: CaseMap, nfd: CaseMap, s: string)
    ensures SlugText(lower, nfd, s) == "" <==> AllChars(IsSpace, Folded(lower, nfd, s))
  {
    var f := Folded(lower, nfd, s);
    SlugTextIsJoinedWords(lower, nfd, s);
    WordsChars(IsSpace, IsKept, f);
    JoinEmpty(Words(IsSpace, f), "-");
    WordsEmptyIff(IsSpace, f);
  }

  /** `generarSlug(noticia.titulo)`: without a default parameter, a missing
      or `null` title throws. */
  function GenerarSlug(lower: CaseMap, nfd: CaseMap, titulo: Field): (r: Result<string, string>)
    ensures r.Success? <==> titulo.Str?
    ensures r.Success? ==> WellShaped(r.value)
  {
    match titulo
    case Str(s) => Success(SlugText(lower, nfd, s))
    case _ => Failure("TypeError")
  }

  /** `imagen.startsWith('http') ? imagen : `${baseUrl}/${imagen}``; a
      missing or `null` image throws. */
  function ImageUrl(imagen: Field): (r: Result<string, string>)
    ensures r.Success? <==> imagen.Str?
    ensures r.Success? ==> IsPrefix(Http, r.value)
    ensures r.Success? && IsPrefix(Http, imagen.text) ==> r.value == imagen.text
    ensures r.Success? && !IsPrefix(Http, imagen.text) ==>
      IsPrefix(BaseUrl + "/", r.value) && r.value[|BaseUrl| + 1..] == imagen.text
  {
    match imagen
    case Str(s) =>
      if IsPrefix(Http, s) then Success(s)
      else
        var u := BaseUrl + "/" + s;
        assert BaseUrl[..4] == Http;
        assert u[..|BaseUrl|] == BaseUrl;
        assert u[..4] == u[..|BaseUrl|][..4];
        assert u[|BaseUrl| + 1..] == s;
        Success(u)
    case _ => Failure("TypeError")
  }

  /** `path.join(noticiasDir, `${slug}.html`)`. */
  function OutputPath(slug: string): string {
    NoticiasDir + "/" + slug + ".html"
  }

  /** The slug an output path names: the text between `noticias/` and the
      `.html` suffix. */
  function SlugOfPath(path: string): (r: Option<string>)
    ensures r.Some? ==> OutputPath(r.value) == path
  {
    var pre := NoticiasDir + "/";
    if |path| >= |pre| + 5 && path[..|pre|] == pre && path[|path| - 5..] == ".html" then
      var slug := path[|pre|..|path| - 5];
      assert path == pre + slug + ".html";
      Some(slug)
    else None
  }

  /** The slug can be read back from the path, so two records share a file
      exactly when their slugs are equal. */
  lemma SlugOfOutputPath(slug: string)
    ensures SlugOfPath(OutputPath(slug)) == Some(slug)
  {
    var path := OutputPath(slug);
    var pre := NoticiasDir + "/";
    assert path[..|pre|] == pre;
    assert path[|path| - 5..] == ".html";
    assert path[|pre|..|path| - 5] == slug;
  }

  /** The `og:url` of the page. */
  function OgUrl(slug: string): (r: string)
    ensures r == BaseUrl + "/" + OutputPath(slug)
  {
    BaseUrl + "/noticias/" + slug + ".html"
  }

  /** What one record contributes: the file written and its `og:url`, or the
      `TypeError` that ends the script. */
  datatype Output = Output(path: string, ogUrl: string, imageUrl: string)

  /** One record: its page is written under its title's slug, the page's
      `og:url` is that file under the site, and its share image is the
      record's image, prefixed with the site unless it already starts with
      "http". */
  function RecordOutput(lower: CaseMap, nfd: CaseMap, n: Noticia): (r: Result<Output, string>)
    ensures r.Success? <==> n.titulo.Str? && n.imagen.Str?
    ensures r.Success? ==> SlugOfPath(r.value.path) == Some(SlugText(lower, nfd, n.titulo.text))
    ensures r.Success? ==> r.value.ogUrl == BaseUrl + "/" + r.value.path
    ensures r.Success? && IsPrefix(Http, n.imagen.text) ==> r.value.imageUrl == n.imagen.text
    ensures r.Success? && !IsPrefix(Http, n.imagen.text) ==> r.value.imageUrl == BaseUrl + "/" + n.imagen.text
  {
    var slug :- GenerarSlug(lower, nfd, n.titulo);
    var image :- ImageUrl(n.imagen);
    SlugOfOutputPath(slug);
    Success(Output(OutputPath(slug), OgUrl(slug), image))
  }

  /** The script's `forEach`: outputs in input order until the first record
      that throws, which stops the script (nothing catches it). */
  method GenerateAll(lower: CaseMap, nfd: CaseMap, records: seq<Noticia>) returns (outputs: seq<Output>, completed: bool)
    ensures |outputs| <= |records|
    ensures forall i :: 0 <= i < |outputs| ==> RecordOutput(lower, nfd, records[i]) == Success(outputs[i])
    ensures completed <==> |outputs| == |records|
    ensures !completed ==> !records[|outputs|].titulo.Str? || !records[|outputs|].imagen.Str?
  {
    outputs, completed := Batch.UntilFailure(n => RecordOutput(lower, nfd, n), records);
  }
}
