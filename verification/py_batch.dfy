/**
 The slug and URL part of generar_noticias_estaticas.py: the slug of each
 record, the file it is written to, the URL `generar_pagina_noticia`
 returns, and the list of URLs `main` collects and joins into the sitemap.
 */
module PyBatch {
  import opened Wrappers
  import opened Text
  import opened Pieces
  import opened Records
  import PySlug

  const SiteUrl: string := "https://sintraspap.github.io"

  /** The text `slugify` receives: `noticia.get('titulo', f'noticia-{index}')`. */
  function TitleArgument(n: Noticia, index: nat): Option<string> {
    match n.titulo
    case Absent => Some(PySlug.Placeholder + "-" + Decimal(index))
    case Null => None
    case Str(s) => Some(s)
  }

  /** The slug of the `index`-th record. */
  function SlugFor(lower: CaseMap, n: Noticia, index: nat): (r: string)
    ensures WellShaped(r) && 1 <= |r| <= PySlug.MaxLength
  {
    PySlug.Slugify(lower, TitleArgument(n, index))
  }

  /** A record without a title is named `noticia-<index>` while that fits
      in 60 characters; a `null` or empty title falls back to "noticia". */
  lemma SlugForDefaults(lower: CaseMap, n: Noticia, index: nat)
    requires FixesSlugChars(lower)
    ensures n.titulo == Absent && |Decimal(index)| <= PySlug.MaxLength - 8 ==>
      SlugFor(lower, n, index) == PySlug.Placeholder + "-" + Decimal(index)
    ensures n.titulo == Null || n.titulo == Str("") ==> SlugFor(lower, n, index) == PySlug.Placeholder
  {
    PySlug.MissingTitleSlug(lower, index);
  }

  /** The file the page is written to, `os.path.join(OUTPUT_DIR, f"{slug}.html")`. */
  function OutputFile(slug: string): string {
    "./" + slug + ".html"
  }

  /** The URL `generar_pagina_noticia` returns. */
  function PageUrl(slug: string): string {
    SiteUrl + "/" + slug + ".html"
  }

  /** The slug a page URL names: the text between the site prefix and the
      `.html` suffix. */
  function SlugOfUrl(url: string): (r: Option<string>)
    ensures r.Some? ==> PageUrl(r.value) == url
  {
    var pre := SiteUrl + "/";
    if |url| >= |pre| + 5 && url[..|pre|] == pre && url[|url| - 5..] == ".html" then
      var slug := url[|pre|..|url| - 5];
      assert url == pre + slug + ".html";
      Some(slug)
    else None
  }

  /** The slug can be read back from the URL, so distinct slugs give
      distinct URLs and equal slugs (no collision handling) equal ones. */
  lemma SlugOfPageUrl(slug: string)
    ensures SlugOfUrl(PageUrl(slug)) == Some(slug)
  {
    var url := PageUrl(slug);
    var pre := SiteUrl + "/";
    assert url[..|pre|] == pre;
    assert url[|url| - 5..] == ".html";
    assert url[|pre|..|url| - 5] == slug;
  }

  /** Two records overwrite the same file exactly when they are given the
      same URL: both name the slug and nothing else. */
  lemma SameFileSameUrl(a: string, b: string)
    ensures OutputFile(a) == OutputFile(b) <==> PageUrl(a) == PageUrl(b)
  {
    if OutputFile(a) == OutputFile(b) {
      assert OutputFile(a)[2..|OutputFile(a)| - 5] == a;
      assert OutputFile(b)[2..|OutputFile(b)| - 5] == b;
    }
    if PageUrl(a) == PageUrl(b) {
      SlugOfPageUrl(a);
      SlugOfPageUrl(b);
    }
  }

  /** A page URL holds no line break. */
  lemma PageUrlOneLine(slug: string)
    requires AllChars(IsSlugChar, slug)
    ensures AllChars(c => !IsNewline(c), PageUrl(slug))
  {
    var url := PageUrl(slug);
    forall i | 0 <= i < |url| ensures !IsNewline(url[i]) {
      if |SiteUrl| + 1 <= i < |SiteUrl| + 1 + |slug| {
        assert url[i] == slug[i - |SiteUrl| - 1];
      }
    }
  }

  predicate IsNewline(c: char) { c == '\n' }

  /** The first `|urls|` URLs are the pages of the first records, in
      order, each named by `name` from the record and its position. */
  predicate UrlsOfRecords<T>(name: (T, nat) -> string, records: seq<T>, urls: seq<string>) {
    |urls| <= |records| &&
    forall k :: 0 <= k < |urls| ==> SlugOfUrl(urls[k]) == Some(name(records[k], k))
  }

  predicate AllOneLine(urls: seq<string>) {
    forall k :: 0 <= k < |urls| ==> AllChars(c => !IsNewline(c), urls[k])
  }

  /** One turn of the loop of `main` keeps both facts about the URLs so far. */
  lemma NextUrl<T>(name: (T, nat) -> string, records: seq<T>, urls: seq<string>)
    requires |urls| < |records| && UrlsOfRecords(name, records, urls) && AllOneLine(urls)
    requires AllChars(IsSlugChar, name(records[|urls|], |urls|))
    ensures var u := urls + [PageUrl(name(records[|urls|], |urls|))];
      UrlsOfRecords(name, records, u) && AllOneLine(u)
  {
    var slug := name(records[|urls|], |urls|);
    SlugOfPageUrl(slug);
    NextUrlNamesSlug(name, records, urls, slug);
    PageUrlOneLine(slug);
    NextUrlOneLine(urls, PageUrl(slug));
  }

  lemma NextUrlNamesSlug<T>(name: (T, nat) -> string, records: seq<T>, urls: seq<string>, slug: string)
    requires |urls| < |records| && UrlsOfRecords(name, records, urls)
    requires slug == name(records[|urls|], |urls|)
    requires SlugOfUrl(PageUrl(slug)) == Some(slug)
    ensures UrlsOfRecords(name, records, urls + [PageUrl(slug)])
  {
    var u := urls + [PageUrl(slug)];
    forall k | 0 <= k < |u| ensures SlugOfUrl(u[k]) == Some(name(records[k], k)) {
      if k < |urls| {
        assert u[k] == urls[k];
      }
    }
  }

  lemma NextUrlOneLine(urls: seq<string>, url: string)
    requires AllOneLine(urls) && AllChars(c => !IsNewline(c), url)
    ensures AllOneLine(urls + [url])
  {
    var u := urls + [url];
    forall k | 0 <= k < |u| ensures AllChars(c => !IsNewline(c), u[k]) {
      if k < |urls| {
        assert u[k] == urls[k];
      }
    }
  }

  /** The loop of `main` and the sitemap it writes: one URL per record, in
      input order, one per line. */
  method GenerateSitemap(lower: CaseMap, records: seq<Noticia>) returns (urls: seq<string>, sitemap: string)
    ensures |urls| == |records|
    ensures forall i :: 0 <= i < |records| ==>
      SlugOfUrl(urls[i]) == Some(SlugFor(lower, records[i], i))
    ensures records == [] ==> sitemap == ""
    ensures records != [] ==> SplitBy(IsNewline, sitemap) == urls
  {
    var name := (n: Noticia, k: nat) => SlugFor(lower, n, k);
    urls := [];
    var i := 0;
    while i < |records|
      invariant i == |urls| <= |records|
      invariant UrlsOfRecords(name, records, urls) && AllOneLine(urls)
    {
      NextUrl(name, records, urls);
      urls := urls + [PageUrl(name(records[i], i))];
      i := i + 1;
    }
    sitemap := Join(urls, "\n");
    if records != [] {
      SplitByJoin(IsNewline, '\n', urls);
    }
  }
}
