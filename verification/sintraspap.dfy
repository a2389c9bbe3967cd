/**
 generador-sintraspap.js: `normalizar`, the per-record URLs and HTML
 fragments, the page built by the placeholder chain, the page loop that
 stops at the first record it cannot render, and the index of links.
 */
module Sintraspap {
  import opened Wrappers
  import opened Text
  import opened Pieces
  import opened Records
  import opened HtmlEscape
  import opened Template
  import Batch

  const BaseUrl: string := "https://sintraspappy2025.github.io/sintraspap.github.io"
  const OutputDir: string := "./n"
  const LogoPath: string := "images/logo-sintraspap.png"

  // ---------------------------------------------------------------------
  // normalizar

  /** Characters `/[^a-z0-9\s-]/g` keeps. */
  predicate IsKept(c: char) { IsAlnum(c) || IsJsWhitespace(c) || c == '-' }

  /** The title after `toLowerCase`, `normalize("NFD")` and both filters. */
  function Folded(lower: CaseMap, nfd: CaseMap, s: string): string {
    Keep(IsKept, Keep(IsNotMark, MapChars(nfd, MapChars(lower, s))))
  }

  /** `normalizar(texto)` for a string: trim, then `/\s+/g` to `-`. */
  function NormalizeText(lower: CaseMap, nfd: CaseMap, s: string): (r: string)
    ensures AllChars(IsSlugChar, r)
  {
    var f := Folded(lower, nfd, s);
    TrimThenCollapse(IsJsWhitespace, f);
    KeptWordsSlugChars(f);
    CollapseRuns(IsJsWhitespace, TrimEnds(IsJsWhitespace, f))
  }

  /** The words of kept text, joined with hyphens, are slug characters. */
  lemma KeptWordsSlugChars(f: string)
    requires AllChars(IsKept, f)
    ensures AllChars(IsSlugChar, Join(Words(IsJsWhitespace, f), "-"))
  {
    var ws := Words(IsJsWhitespace, f);
    WordsChars(IsJsWhitespace, IsKept, f);
    forall i | 0 <= i < |ws| ensures AllChars(IsSlugChar, ws[i]) {
      assert AllChars(IsKept, ws[i]) && AllChars(c => !IsJsWhitespace(c), ws[i]);
    }
    JoinChars(IsSlugChar, ws, "-");
  }

  /** `normalizar(noticia.titulo)`: the default parameter turns a missing
      title into `""`; `null.toLowerCase` throws. */
  function Normalizar(lower: CaseMap, nfd: CaseMap, titulo: Field): (r: Result<string, string>)
    ensures r.Failure? <==> titulo == Null
    ensures r.Success? ==> AllChars(IsSlugChar, r.value)
  {
    match titulo
    case Absent => NormalizeEmpty(lower, nfd, ""); Success(NormalizeText(lower, nfd, ""))
    case Null => Failure("TypeError")
    case Str(s) => NormalizeEmpty(lower, nfd, s); Success(NormalizeText(lower, nfd, s))
  }

  /** A missing or empty title names the page `""`. */
  lemma NormalizarEmpty(lower: CaseMap, nfd: CaseMap, titulo: Field)
    ensures titulo == Absent || titulo == Str("") ==> Normalizar(lower, nfd, titulo) == Success("")
  {
    NormalizeEmpty(lower, nfd, "");
  }

  lemma NormalizeEmpty(lower: CaseMap, nfd: CaseMap, s: string)
    ensures s == "" ==> NormalizeText(lower, nfd, s) == ""
  {
  }

  /** Each whitespace run inside the trimmed text becomes one hyphen: the
      result is the whitespace-separated words of the filtered text joined
      with `-`. Hyphens of the text are words' characters and are kept, so
      `a - b` gives `a---b`. */
  lemma NormalizeIsJoinedWords(lower: CaseMap, nfd: CaseMap, s: string)
    ensures NormalizeText(lower, nfd, s) == Join(Words(IsJsWhitespace, Folded(lower, nfd, s)), "-")
  {
    TrimThenCollapse(IsJsWhitespace, Folded(lower, nfd, s));
  }

  /** The slug is empty exactly when no letter, digit or hyphen survives the
      filters; there is no fallback. */
  lemma NormalizeEmptyIff(lower: CaseMap, nfd: CaseMap, s: string)
    ensures NormalizeText(lower, nfd, s) == "" <==> AllChars(IsJsWhitespace, Folded(lower, nfd, s))
  {
    var f := Folded(lower, nfd, s);
    NormalizeIsJoinedWords(lower, nfd, s);
    WordsChars(IsJsWhitespace, IsKept, f);
    JoinEmpty(Words(IsJsWhitespace, f), "-");
    WordsEmptyIff(IsJsWhitespace, f);
  }

  /** Filtered text without whitespace is the slug as it is, hyphen runs
      and edge hyphens included. */
  lemma NormalizeKeepsHyphens(lower: CaseMap, nfd: CaseMap, s: string)
    requires Folded(lower, nfd, s) != []
    requires forall i :: 0 <= i < |Folded(lower, nfd, s)| ==> !IsJsWhitespace(Folded(lower, nfd, s)[i])
    ensures NormalizeText(lower, nfd, s) == Folded(lower, nfd, s)
  {
    var f := Folded(lower, nfd, s);
    NormalizeIsJoinedWords(lower, nfd, s);
    SplitByNone(IsJsWhitespace, f);
    assert Words(IsJsWhitespace, f) == [f];
  }

  // ---------------------------------------------------------------------
  // URLs and fragments of one record

  /** The page's file name, `${slug}.html`. */
  function FileName(slug: string): string { slug + ".html" }

  /** The page URL: `${baseUrl}/${outputDir}/${fileName}`. */
  function PageUrl(slug: string): (r: string)
    ensures IsPrefix(BaseUrl + "/" + OutputDir + "/", r)
    ensures r[|BaseUrl| + |OutputDir| + 2..] == FileName(slug)
  {
    BaseUrl + "/" + OutputDir + "/" + FileName(slug)
  }

  /** The slug a share URL names: the text between the site's `./n/`
      prefix and the `.html` suffix. */
  function SlugOfShareUrl(url: string): (r: Option<string>)
    ensures r.Some? ==> PageUrl(r.value) == url
  {
    var pre := BaseUrl + "/" + OutputDir + "/";
    if |url| >= |pre| + 5 && url[..|pre|] == pre && url[|url| - 5..] == ".html" then
      var slug := url[|pre|..|url| - 5];
      assert url == pre + slug + ".html";
      Some(slug)
    else None
  }

  /** The slug can be read back from its share URL, so distinct slugs are
      shared under distinct URLs. */
  lemma ShareUrlReadBack(slug: string)
    ensures SlugOfShareUrl(PageUrl(slug)) == Some(slug)
  {
    var url := PageUrl(slug);
    var pre := BaseUrl + "/" + OutputDir + "/";
    assert url == pre + slug + ".html";
    assert url[..|pre|] == pre;
    assert url[|url| - 5..] == ".html";
    assert url[|pre|..|url| - 5] == slug;
  }

  /** The share image: the record's image under the site, or the logo. */
  function ImageUrl(imagen: Field): (r: string)
    ensures IsPrefix(BaseUrl + "/", r)
    ensures Truthy(imagen) ==> r[|BaseUrl| + 1..] == imagen.text
    ensures !Truthy(imagen) ==> r[|BaseUrl| + 1..] == LogoPath
  {
    if Truthy(imagen) then BaseUrl + "/" + imagen.text else BaseUrl + "/" + LogoPath
  }

  const FechaOpen: string := "<p class=\"muted\">"
  const FechaClose: string := "</p>"

  /** The date paragraph, empty when the record has no date. */
  function FechaHtml(fecha: Field): (r: string)
    ensures r == "" <==> !Truthy(fecha)
    ensures Truthy(fecha) ==> r == FechaOpen + Escape(fecha.text) + FechaClose
    ensures Truthy(fecha) ==> |r| >= |FechaOpen| + |FechaClose|
    ensures Truthy(fecha) ==> Unescape(r[|FechaOpen|..|r| - |FechaClose|]) == fecha.text
  {
    if Truthy(fecha) then
      var e := Escape(fecha.text);
      var r := FechaOpen + e + FechaClose;
      UnescapeEscape(fecha.text);
      assert r[|FechaOpen|..|r| - |FechaClose|] == e;
      r
    else ""
  }

  const ImgSrc: string := "<img src=\""
  const ImgAlt: string := "\" alt=\""
  const ImgEnd: string := "\">"

  /** The image element, empty when the record has no image; its `alt`
      escapes the title, which throws when the title is missing. */
  function ImagenHtml(imagen: Field, titulo: Field): (r: Result<string, string>)
    ensures r.Failure? <==> Truthy(imagen) && !titulo.Str?
    ensures r.Success? ==> (r.value == "" <==> !Truthy(imagen))
    ensures r.Success? && Truthy(imagen) ==>
      r.value == ImgSrc + Escape(imagen.text) + ImgAlt + Escape(titulo.text) + ImgEnd
  {
    if Truthy(imagen) then
      match titulo
      case Str(t) => Success(ImgSrc + Escape(imagen.text) + ImgAlt + Escape(t) + ImgEnd)
      case _ => Failure("TypeError")
    else Success("")
  }

  /** `String(noticia.cuerpo)`, which `replace` inserts unescaped. */
  function CuerpoText(cuerpo: Field): string {
    match cuerpo
    case Absent => "undefined"
    case Null => "null"
    case Str(s) => s
  }

  // ---------------------------------------------------------------------
  // The page

  /** A generated file. */
  datatype Page = Page(path: string, html: string)

  /** The placeholders of the chain, in the order of its `.replace` calls. */
  const Placeholders: seq<string> :=
    ["TITULO", "RESUMEN", "IMAGE_URL", "PAGE_URL", "SLUG", "FECHA_HTML", "IMAGEN_HTML", "CUERPO"]

  /** The values the chain inserts for a record, one per placeholder, or the
      `TypeError` computing one of them throws. */
  function Values(lower: CaseMap, nfd: CaseMap, n: Noticia): (r: Result<seq<string>, string>)
    ensures r.Success? <==> n.titulo.Str? && n.resumen.Str?
    ensures r.Success? ==> |r.value| == |Placeholders|
    ensures r.Success? ==> r.value[0] == Escape(n.titulo.text) && r.value[1] == Escape(n.resumen.text)
    ensures r.Success? ==> r.value[2] == ImageUrl(n.imagen)
    ensures r.Success? ==> r.value[3] == PageUrl(r.value[4]) && Normalizar(lower, nfd, n.titulo) == Success(r.value[4])
    ensures r.Success? ==> r.value[5] == FechaHtml(n.fecha) && ImagenHtml(n.imagen, n.titulo) == Success(r.value[6])
    ensures r.Success? ==> r.value[7] == CuerpoText(n.cuerpo)
  {
    var slug :- Normalizar(lower, nfd, n.titulo);
    var imagen :- ImagenHtml(n.imagen, n.titulo);
    var titulo :- EscapeField(n.titulo);
    var resumen :- EscapeField(n.resumen);
    assert titulo == Escape(n.titulo.text) && resumen == Escape(n.resumen.text);
    Success(Eight(titulo, resumen, ImageUrl(n.imagen), PageUrl(slug), slug,
                  FechaHtml(n.fecha), imagen, CuerpoText(n.cuerpo)))
  }

  /** Eight values in placeholder order. */
  function Eight(a: string, b: string, c: string, d: string, e: string, f: string, g: string, h: string): (r: seq<string>)
    ensures |r| == 8
    ensures r[0] == a && r[1] == b && r[2] == c && r[3] == d
    ensures r[4] == e && r[5] == f && r[6] == g && r[7] == h
  {
    [a, b, c, d, e, f, g, h]
  }

  /** Each placeholder paired with its value. */
  function Bind(values: seq<string>): (r: seq<(string, string)>)
    requires |values| == |Placeholders|
    ensures |r| == |Placeholders|
    ensures forall i :: 0 <= i < |r| ==> r[i] == (Placeholders[i], values[i])
  {
    seq(|Placeholders|, i requires 0 <= i < |Placeholders| => (Placeholders[i], values[i]))
  }

  /** The slug a rendered record's page is named after. */
  function SlugOf(lower: CaseMap, nfd: CaseMap, n: Noticia): string
    requires n.titulo.Str?
  {
    NormalizeText(lower, nfd, n.titulo.text)
  }

  /** Text without braces cannot form or complete a marker. */
  predicate NoBrace(s: string) { forall i :: 0 <= i < |s| ==> s[i] != '{' }

  /** One record's page: the template through the replace chain, written
      to `${outputDir}/${slug}.html`. */
  function RenderPage(lower: CaseMap, nfd: CaseMap, template: seq<Part>, n: Noticia): (r: Result<Page, string>)
    ensures r.Success? <==> n.titulo.Str? && n.resumen.Str?
    ensures r.Success? ==> r.value.path == OutputDir + "/" + FileName(SlugOf(lower, nfd, n))
  {
    var values :- Values(lower, nfd, n);
    Success(Page(OutputDir + "/" + FileName(NormalizeText(lower, nfd, n.titulo.text)), Chain(Render(template), Bind(values))))
  }

  /** The URL the page shares (`{{PAGE_URL}}`) is the file it is written
      to, under the base URL. */
  lemma ShareUrlNamesFile(lower: CaseMap, nfd: CaseMap, template: seq<Part>, n: Noticia)
    requires n.titulo.Str? && n.resumen.Str?
    ensures Values(lower, nfd, n).value[3] == BaseUrl + "/" + RenderPage(lower, nfd, template, n).value.path
  {
    NormalizarTitle(lower, nfd, n);
    ShareUrlUnderBase(SlugOf(lower, nfd, n));
  }

  /** A string title normalises to the slug its page is named after. */
  lemma NormalizarTitle(lower: CaseMap, nfd: CaseMap, n: Noticia)
    requires n.titulo.Str?
    ensures Normalizar(lower, nfd, n.titulo) == Success(SlugOf(lower, nfd, n))
  {
  }

  /** The share URL is the page's path under the base URL. */
  lemma ShareUrlUnderBase(slug: string)
    ensures PageUrl(slug) == BaseUrl + "/" + (OutputDir + "/" + FileName(slug))
  {
  }

  /** When no inserted value before the body holds a brace, every
      placeholder of a well-formed template receives exactly its record's
      value, as a one-pass filling would give: the escaped title, the page
      URL, the slug and so on, and the body unescaped. */
  lemma RenderPageFills(lower: CaseMap, nfd: CaseMap, template: seq<Part>, n: Noticia, values: seq<string>)
    requires WellFormed(template)
    requires Values(lower, nfd, n) == Success(values)
    requires forall i :: 0 <= i < |values| - 1 ==> NoBrace(values[i])
    ensures RenderPage(lower, nfd, template, n) == Success(Page(OutputDir + "/" + FileName(SlugOf(lower, nfd, n)), Substitute(template, Bind(values))))
  {
    BoundChainFills(template, values);
  }

  /** The replace chain over brace-free bound values is the one-pass
      filling. */
  lemma BoundChainFills(template: seq<Part>, values: seq<string>)
    requires WellFormed(template) && |values| == |Placeholders|
    requires forall i :: 0 <= i < |values| - 1 ==> NoBrace(values[i])
    ensures Chain(Render(template), Bind(values)) == Substitute(template, Bind(values))
  {
    PlaceholderNames();
    var bs := Bind(values);
    forall i | 0 <= i < |bs| - 1 ensures Inert(bs[i].1) {
    }
    ChainIsSubstitute(template, bs);
  }

  /** The chain's placeholders are well named. */
  lemma PlaceholderNames()
    ensures forall i :: 0 <= i < |Placeholders| ==> IsName(Placeholders[i])
  {
    NameFacts();
    forall i | 0 <= i < |Placeholders| ensures IsName(Placeholders[i]) {
      assert i == 0 || i == 1 || i == 2 || i == 3 || i == 4 || i == 5 || i == 6 || i == 7;
    }
  }

  /** The page loop: pages are written in input order until the first
      record that throws, which ends the run (the `catch` around it). */
  method GeneratePages(lower: CaseMap, nfd: CaseMap, template: seq<Part>, records: seq<Noticia>)
    returns (pages: seq<Page>, completed: bool)
    ensures |pages| <= |records|
    ensures forall i :: 0 <= i < |pages| ==> RenderPage(lower, nfd, template, records[i]) == Success(pages[i])
    ensures completed <==> |pages| == |records|
    ensures !completed ==> RenderPage(lower, nfd, template, records[|pages|]).Failure?
  {
    pages, completed := Batch.UntilFailure(n => RenderPage(lower, nfd, template, n), records);
  }

  // ---------------------------------------------------------------------
  // The index

  const IndexHead: string :=
    "<!DOCTYPE html>\n<html lang=\"es\">\n<head>\n  <meta charset=\"UTF-8\">\n"
    + "  <title>Noticias SINTRASPAP - Índice</title>\n</head>\n<body>\n"
    + "  <h1>Noticias Generadas - SINTRASPAP</h1>\n  <ul>"

  const IndexTail: string :=
    "\n  </ul>\n  <p><a href=\"../index.html\">← Volver al sitio principal</a></p>\n</body>\n</html>"

  const ItemOpen: string := "\n    <li>\n      <a href=\""
  const ItemHrefEnd: string := ".html\">"
  const ItemDate: string := "</a>\n      <br><small>"
  const ItemShare: string := " - Para compartir: "
  const ItemClose: string := "</small>\n    </li>"

  /** One `<li>` of the index from the slug and the escaped title and date. */
  function Item(slug: string, titulo: string, fecha: string): string {
    ItemOpen + slug + ItemHrefEnd + titulo + ItemDate + fecha + ItemShare + PageUrl(slug) + ItemClose
  }

  /** An entry ends with the share URL of the page it links to. */
  lemma ItemEndsWithShareUrl(slug: string, titulo: string, fecha: string)
    ensures var e := Item(slug, titulo, fecha); var u := PageUrl(slug) + ItemClose;
      |u| <= |e| && e[|e| - |u|..] == u
  {
    var h := ItemOpen + slug + ItemHrefEnd + titulo + ItemDate + fecha + ItemShare;
    assert Item(slug, titulo, fecha) == h + (PageUrl(slug) + ItemClose);
  }

  /** The index entry as written: `escapeHtml(noticia.fecha)` throws for a
      record without a date. */
  function ItemAsWritten(lower: CaseMap, nfd: CaseMap, n: Noticia): (r: Result<string, string>)
    ensures r.Success? <==> n.titulo.Str? && n.fecha.Str?
  {
    var slug :- Normalizar(lower, nfd, n.titulo);
    var titulo :- EscapeField(n.titulo);
    var fecha :- EscapeField(n.fecha);
    Success(Item(slug, titulo, fecha))
  }

  /** The index entry with the date treated as optional, as the page's
      `fechaHtml` treats it: a missing date prints as nothing. */
  function IndexItem(lower: CaseMap, nfd: CaseMap, n: Noticia): (r: Result<string, string>)
    ensures r.Success? <==> n.titulo.Str?
    ensures r.Success? ==> IsPrefix(ItemOpen + SlugOf(lower, nfd, n) + ItemHrefEnd + Escape(n.titulo.text) + ItemDate, r.value)
  {
    var slug :- Normalizar(lower, nfd, n.titulo);
    var titulo :- EscapeField(n.titulo);
    var fecha := if n.fecha.Str? then Escape(n.fecha.text) else "";
    ItemStart(slug, titulo, fecha);
    Success(Item(slug, titulo, fecha))
  }

  /** An entry starts with the link to the page, the title and the opening
      of the date. */
  lemma ItemStart(slug: string, titulo: string, fecha: string)
    ensures IsPrefix(ItemOpen + slug + ItemHrefEnd + titulo + ItemDate, Item(slug, titulo, fecha))
  {
    PrefixOfAppends(ItemOpen + slug + ItemHrefEnd + titulo + ItemDate, fecha, ItemShare, PageUrl(slug), ItemClose);
  }

  lemma PrefixOfAppends(h: string, a: string, b: string, c: string, d: string)
    ensures IsPrefix(h, h + a + b + c + d)
  {
    assert h + a + b + c + d == h + (a + b + c + d);
    assert (h + (a + b + c + d))[..|h|] == h;
  }

  /** The index entry of a titled record ends with the URL its page
      shares, which `ShareUrlNamesFile` ties to the page's file. */
  lemma IndexItemSharesPage(lower: CaseMap, nfd: CaseMap, n: Noticia)
    requires n.titulo.Str?
    ensures var e := IndexItem(lower, nfd, n).value; var u := PageUrl(SlugOf(lower, nfd, n)) + ItemClose;
      |u| <= |e| && e[|e| - |u|..] == u
  {
    var fecha := IndexItemIs(lower, nfd, n);
    ItemEndsWithShareUrl(SlugOf(lower, nfd, n), Escape(n.titulo.text), fecha);
  }

  /** The entry of a titled record, with its date text. */
  lemma IndexItemIs(lower: CaseMap, nfd: CaseMap, n: Noticia) returns (fecha: string)
    requires n.titulo.Str?
    ensures IndexItem(lower, nfd, n) == Success(Item(SlugOf(lower, nfd, n), Escape(n.titulo.text), fecha))
  {
    NormalizarTitle(lower, nfd, n);
    fecha := if n.fecha.Str? then Escape(n.fecha.text) else "";
  }

  /** A record with a title and a summary but no date gets its page, yet
      its index entry throws, which abandons the whole index; the optional
      date of `IndexItem` keeps the entry. */
  lemma MissingFechaAbandonsIndex(lower: CaseMap, nfd: CaseMap, template: seq<Part>, n: Noticia)
    requires n.titulo.Str? && n.resumen.Str? && !n.fecha.Str?
    ensures RenderPage(lower, nfd, template, n).Success?
    ensures ItemAsWritten(lower, nfd, n).Failure?
    ensures IndexItem(lower, nfd, n).Success?
  {
  }

  /** With a date present the two entries agree. */
  lemma IndexItemAgrees(lower: CaseMap, nfd: CaseMap, n: Noticia)
    requires n.fecha.Str?
    ensures IndexItem(lower, nfd, n) == ItemAsWritten(lower, nfd, n)
  {
    assert EscapeField(n.fecha) == Success(Escape(n.fecha.text));
    if n.titulo.Str? {
      assert Normalizar(lower, nfd, n.titulo) == Success(SlugOf(lower, nfd, n));
      assert EscapeField(n.titulo) == Success(Escape(n.titulo.text));
    }
  }

  /** The concatenation of the entries. */
  function Concat(xs: seq<string>): string {
    if xs == [] then [] else xs[0] + Concat(xs[1..])
  }

  /** The index loop: one entry per record, in input order, each linking to
      its record's slug and showing its escaped title, between the fixed
      head and tail. It fails exactly when a record has no title, so every
      run whose pages all render also gets its index. */
  method BuildIndex(lower: CaseMap, nfd: CaseMap, records: seq<Noticia>) returns (index: Result<string, string>, items: seq<string>)
    ensures index.Success? <==> forall i :: 0 <= i < |records| ==> records[i].titulo.Str?
    ensures index.Success? ==> |items| == |records| && index.value == IndexHead + Concat(items) + IndexTail
    ensures index.Success? ==> forall i :: 0 <= i < |records| ==> IndexItem(lower, nfd, records[i]) == Success(items[i])
    ensures index.Success? ==> forall i :: 0 <= i < |records| ==>
      IsPrefix(ItemOpen + SlugOf(lower, nfd, records[i]) + ItemHrefEnd + Escape(records[i].titulo.text) + ItemDate, items[i])
  {
    var completed;
    items, completed := Batch.UntilFailure(n => IndexItem(lower, nfd, n), records);
    if completed {
      index := Success(IndexHead + Concat(items) + IndexTail);
    } else {
      index := Failure("TypeError");
    }
  }

  /** The index loop as written: `escapeHtml(noticia.fecha)` throws for the
      first record without a date, the `catch` swallows it, and no index is
      written, although every page may have been. */
  method BuildIndexAsWritten(lower: CaseMap, nfd: CaseMap, records: seq<Noticia>) returns (index: Result<string, string>, items: seq<string>)
    ensures index.Success? <==> forall i :: 0 <= i < |records| ==> records[i].titulo.Str? && records[i].fecha.Str?
    ensures index.Success? ==> |items| == |records| && index.value == IndexHead + Concat(items) + IndexTail
    ensures index.Success? ==> forall i :: 0 <= i < |records| ==> ItemAsWritten(lower, nfd, records[i]) == Success(items[i])
  {
    var completed;
    items, completed := Batch.UntilFailure(n => ItemAsWritten(lower, nfd, n), records);
    if completed {
      index := Success(IndexHead + Concat(items) + IndexTail);
    } else {
      index := Failure("TypeError");
    }
  }

  /** When every record has a date, the entries of the loop as written are
      exactly those of the corrected loop, so both write the same index. */
  lemma IndexesAgree(lower: CaseMap, nfd: CaseMap, records: seq<Noticia>, items: seq<string>)
    requires |items| == |records|
    requires forall i :: 0 <= i < |records| ==> records[i].fecha.Str?
    ensures (forall i :: 0 <= i < |records| ==> ItemAsWritten(lower, nfd, records[i]) == Success(items[i]))
        <==> (forall i :: 0 <= i < |records| ==> IndexItem(lower, nfd, records[i]) == Success(items[i]))
  {
    forall i | 0 <= i < |records|
      ensures ItemAsWritten(lower, nfd, records[i]) == IndexItem(lower, nfd, records[i])
    {
      IndexItemAgrees(lower, nfd, records[i]);
    }
  }
}
