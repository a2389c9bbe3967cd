# SINTRASPAP news slugs and markup, in Dafny

The SINTRASPAP site publishes union news from a JSON file of records (`titulo`,
`fecha`, `imagen`, `resumen`, `cuerpo`). Three scripts turn each record into a
static page that social networks can preview, and a fourth tidies the
company directory table in the browser. Their logic is all string and
sequence work, and that is what this project models:

- `generar_noticias_estaticas.py`: `slugify` (lower-case, strip, an ordered
  replacement table, a character filter, collapsing separator runs, the
  `"noticia"` fallback, and the 60-character cap that backs up to the last
  hyphen), the default title `noticia-<index>`, the page URL each record
  gets, and the newline-joined sitemap (modules `PySlug` and `PyBatch`).
- `generador-sintraspap.js`: `normalizar`, `escapeHtml`, the page URL, the
  image URL with its logo fallback, the optional date and image fragments,
  the chain of `{{NAME}}` replacements that fills the page template, and the
  `index.html` entry loop (modules `HtmlEscape`, `Template` and
  `Sintraspap`).
- `generar-noticias.js`: `generarSlug`, the image URL that keeps absolute
  URLs and prefixes relative ones, and the output file and `og:url` of each
  page (module `NoticiasJs`).
- `directorio.js`: the search filter, the `rubro` cleaning pipeline, and the
  Estado header and cells that `agregarEstadoYLimpiarRubros` inserts
  (module `Directorio`).

Shared pieces: `Wrappers` (`Option`, `Result`), `Text` (character classes,
trimming, per-character maps), `Pieces` (`split`, `filter(Boolean)`, `join`
and the collapse of separator runs, with a reference definition "the words
joined by hyphens"), `Records` (a JSON member is `Absent`, `Null` or a
string) and `Batch` (the `forEach` that stops at the first exception, and a
plain `map`).

The Unicode case mapping and the NFD decomposition are parameters. In the
slug functions they are per-character maps (`CaseMap = char -> string`), and
every slug property holds for any such map, because the later filters throw
away every character outside the ASCII slug alphabet. The one rule of
`toLowerCase` that depends on context, the final sigma, only chooses between
two Greek letters that those filters delete, and that cannot make a header
read as "estado" or "rubro" either. The directory search filter compares
lowered text with nothing after it, so it takes the lowering of whole strings
instead (`TextLower = string -> string`); `Directorio.FinalSigmaNotPerChar`
shows that no per-character map would do there. Where a property needs ASCII
behaviour (idempotence, reading the "Estado" header back), a `requires` names
exactly that.

## Model

| member | source | states |
|---|---|---|
| PySlug.Slugify | generar_noticias_estaticas.py:19-62 | for every text, including a missing one, the slug uses only `a-z`, `0-9` and `-`, never starts or ends with `-`, never has `--`, and has 1 to 60 characters |
| PySlug.SlugifyCases | generar_noticias_estaticas.py:21-60 | an empty title, or one where nothing survives cleaning, gives `"noticia"`; otherwise the slug is a prefix of the cleaned text, equal to it when that has at most 60 characters |
| PySlug.Truncate | generar_noticias_estaticas.py:57-60 | the result is a prefix of the input; up to 60 characters nothing is cut; a longer text is cut to 60 when those 60 have no hyphen, otherwise to the part before the last hyphen among them |
| PySlug.TruncateWellShaped | generar_noticias_estaticas.py:57-60 | cutting a well-shaped slug keeps it well-shaped and between 1 and 60 characters |
| PySlug.CleanedIsJoinedWords | generar_noticias_estaticas.py:48-50 | collapsing `[\s-]+` to `-` and stripping `-` equals joining the filtered text's words with single hyphens |
| PySlug.CleanedWellShaped | generar_noticias_estaticas.py:48-50 | the cleaned text is well-shaped before any fallback or cut |
| PySlug.CleanedEmptyIff | generar_noticias_estaticas.py:48-54 | the cleaned text is empty exactly when no ASCII letter or digit is left after filtering, which is when the fallback applies |
| PySlug.ApplyTableIsLookup | generar_noticias_estaticas.py:44-45 | applying the replacements one after another equals mapping each character through its first table entry, provided every key lies outside the slug alphabet and every value inside it |
| PySlug.ReplacementsSlugValued | generar_noticias_estaticas.py:25-39 | every key of the dictionary lies outside `[a-z0-9-]` and every value is empty or made of those characters, so no replacement feeds a later one |
| PySlug.SlugifyFixpoint | generar_noticias_estaticas.py:19-62 | a well-shaped text of 1 to 60 characters is its own slug |
| PySlug.SlugifyIdempotent | generar_noticias_estaticas.py:19-62 | slugifying a slug gives it back |
| PySlug.MissingTitleSlug | generar_noticias_estaticas.py:68 | the default title `noticia-<index>` is its own slug |
| PyBatch.SlugFor | generar_noticias_estaticas.py:68 | the slug of any record, with or without a title, is well-shaped and 1 to 60 characters long |
| PyBatch.SlugForDefaults | generar_noticias_estaticas.py:68 | a record with no `titulo` key gets the slug `noticia-<index>`; a `null` or empty title gets `"noticia"` |
| PyBatch.SlugOfUrl | generar_noticias_estaticas.py:161 | the slug read back from a URL rebuilds that URL |
| PyBatch.SlugOfPageUrl | generar_noticias_estaticas.py:161 | reading back the URL of a slug gives that slug, so the URL determines the page |
| PyBatch.SameFileSameUrl | generar_noticias_estaticas.py:69-161 | two records are written to the same file exactly when they are given the same URL |
| PyBatch.PageUrlOneLine | generar_noticias_estaticas.py:161 | a page URL contains no newline, so joining URLs with newlines keeps them apart |
| PyBatch.GenerateSitemap | generar_noticias_estaticas.py:175-183 | one URL per record in input order, each naming that record's slug; the sitemap is empty for no records and otherwise splits at newlines into exactly the URLs |
| Sintraspap.NormalizeText | generador-sintraspap.js:15-18 | `normalizar` produces only `a-z`, `0-9` and `-`, whatever the case map and the decomposition do |
| Sintraspap.NormalizeIsJoinedWords | generador-sintraspap.js:17-18 | the result is the whitespace-separated words of the filtered title joined with one `-` each, so no whitespace is left and every inner run became one hyphen |
| Sintraspap.NormalizeKeepsHyphens | generador-sintraspap.js:17-18 | a filtered title with no whitespace comes out unchanged, literal hyphens included (so `--` and edge hyphens survive) |
| Sintraspap.NormalizeEmptyIff | generador-sintraspap.js:14-18 | the result is empty exactly when the filtered title is all whitespace; there is no fallback name |
| Sintraspap.Normalizar | generador-sintraspap.js:14-19 | a `null` title throws and nothing else does; a result uses only slug characters |
| Sintraspap.NormalizarEmpty | generador-sintraspap.js:14-19 | a missing or empty title gives `""`: the default parameter turns a missing title into the empty text |
| HtmlEscape.Escape | generador-sintraspap.js:22-32 | the escaped text contains none of `<`, `>`, `"`, `'` and is at least as long as the input |
| HtmlEscape.UnescapeEscape | generador-sintraspap.js:22-32 | decoding the five entities recovers the input exactly |
| HtmlEscape.EscapeInjective | generador-sintraspap.js:22-32 | different texts escape differently |
| HtmlEscape.EscapePlain | generador-sintraspap.js:23 | a text without `& < > " '` is left unchanged |
| HtmlEscape.EscapeField | generador-sintraspap.js:22-23 | escaping succeeds exactly for a string value (a missing or `null` one throws) and the result decodes back to it |
| Sintraspap.SlugOfShareUrl | generador-sintraspap.js:136 | the slug read back from a share URL rebuilds that URL |
| Sintraspap.ShareUrlReadBack | generador-sintraspap.js:136 | reading back the share URL of a slug gives that slug, so distinct slugs are shared under distinct URLs |
| Sintraspap.ShareUrlNamesFile | generador-sintraspap.js:131-161 | the URL a page shares as `{{PAGE_URL}}` is the file it is written to, under the base URL |
| Sintraspap.IndexItemSharesPage | generador-sintraspap.js:172-182 | the index entry of a titled record ends with the share URL of its page, the same URL the page itself shares |
| Sintraspap.ImageUrl | generador-sintraspap.js:137-139 | the image URL starts with the base URL and a slash, followed by the image path when it is non-empty and by the logo path otherwise |
| Sintraspap.FechaHtml | generador-sintraspap.js:142-144 | the date fragment is empty exactly when the date is falsy; otherwise it is `<p class="muted">`, the escaped date and `</p>`, and its content decodes back to the date |
| Sintraspap.ImagenHtml | generador-sintraspap.js:145-147 | the image fragment is empty exactly when the image is falsy; it throws exactly when there is an image but the title is not a string; otherwise it is the `img` element with the escaped image path as `src` and the escaped title as `alt` |
| Sintraspap.Values | generador-sintraspap.js:131-158 | the eight replacement values exist exactly when `titulo` and `resumen` are strings (escaping either one otherwise throws); in placeholder order they are the escaped title, the escaped summary, the image URL, the page URL of the slug, the slug `normalizar` gives, the date fragment, the image fragment and the body as text |
| Sintraspap.RenderPage | generador-sintraspap.js:131-161 | a page is produced exactly when `titulo` and `resumen` are strings, and it is written to `./n/` plus the slug's file name |
| Sintraspap.RenderPageFills | generador-sintraspap.js:150-158 | when no value before the body contains `{`, the replace chain equals filling every placeholder of the template once with its value |
| Sintraspap.PlaceholderNames | generador-sintraspap.js:151-158 | the eight names the chain replaces are made of upper-case letters and underscores, so their markers contain no brace besides the outer pairs |
| Sintraspap.GeneratePages | generador-sintraspap.js:130-163 | pages are produced in input order up to the first record that throws; that record is the one that stops the loop |
| Sintraspap.ItemAsWritten | generador-sintraspap.js:176-182 | an index entry as written succeeds exactly when `titulo` and `fecha` are strings |
| Sintraspap.IndexItem | generador-sintraspap.js:176-182 | an index entry succeeds exactly when `titulo` is a string and links `normalizar(titulo).html` followed by the escaped title |
| Sintraspap.BuildIndex | generador-sintraspap.js:166-191 | the corrected index loop of "## Findings", with the date optional: the index exists exactly when every title is a string; it then has one entry per record, in input order, each the record's corrected entry linking to its slug |
| Sintraspap.BuildIndexAsWritten | generador-sintraspap.js:166-191 | the index loop as written: the index exists exactly when every record has a string `titulo` and a string `fecha`, and then holds each record's entry in input order |
| Sintraspap.IndexesAgree | generador-sintraspap.js:176-182 | when every record has a date, a sequence of entries is the as-written one exactly when it is the corrected one, so both loops write the same index |
| Template.ChainIsSubstitute | generador-sintraspap.js:150-158 | replacing the markers one name after another equals a single pass that fills each placeholder with the value of its first binding, when no value but the last contains `{{` or ends in `{` |
| Template.ChainRefillsValues | generador-sintraspap.js:150-158 | a value that itself contains a later marker is filled again, so the chain and the single pass differ in general |
| Template.ReplaceAllRender | generador-sintraspap.js:151 | replacing one marker everywhere in the rendered template fills exactly the placeholders with that name |
| NoticiasJs.SlugText | generar-noticias.js:15-20 | `generarSlug` produces only `a-z`, `0-9` and `-`, never starts or ends with `-` and never has `--` |
| NoticiasJs.SlugTextIsJoinedWords | generar-noticias.js:17-19 | the slug is the space-separated words of the filtered title joined with `-`; hyphens, tabs and every other character outside `[a-z0-9 ]` were deleted, not turned into separators |
| NoticiasJs.SlugTextEmptyIff | generar-noticias.js:16-19 | the slug is empty exactly when no ASCII letter or digit survives the filters |
| NoticiasJs.GenerarSlug | generar-noticias.js:15-20 | a slug exists exactly for a string title (a missing or `null` one throws) and it is well-shaped |
| NoticiasJs.ImageUrl | generar-noticias.js:23-28 | an image starting with `http` is kept as it is, any other is put after the base URL and a slash; the result always starts with `http`; a missing or `null` image throws |
| NoticiasJs.RecordOutput | generar-noticias.js:26-107 | a record yields a page exactly when `titulo` and `imagen` are strings; the page is written to `noticias/<slug>.html` with the slug of its own title, its `og:url` is that file under the base URL, and its share image is the record's image, kept when it starts with `http` and put after the base URL otherwise |
| NoticiasJs.SlugOfPath | generar-noticias.js:107 | the slug read back from an output path rebuilds that path |
| NoticiasJs.SlugOfOutputPath | generar-noticias.js:107 | reading back the path of a slug gives that slug, so two records share a file exactly when their slugs are equal |
| NoticiasJs.GenerateAll | generar-noticias.js:26-109 | pages are written in input order up to the first record that throws, and that record lacks a string title or image |
| Directorio.CleanRubro | directorio.js:37-45 | the cleaned rubro is empty exactly when the field is missing, empty, or only `;` and whitespace; otherwise it is the trimmed non-empty `;`-separated items joined with ", "; it never contains `;` |
| Directorio.CleanTextIsItems | directorio.js:39-45 | removing `;` runs at the edges first changes nothing: the result is the trimmed, non-empty `;`-separated items in order, joined with ", " |
| Directorio.ItemsSplitAt | directorio.js:41-44 | a `;` in the text splits its items into the items before and the items after |
| Directorio.ItemsEmptyIff | directorio.js:41-44 | a text yields no item exactly when it is only `;` and whitespace |
| Directorio.CleanTextNoSemicolon | directorio.js:39-45 | the cleaned text contains no `;` |
| Directorio.CleanTextEmptyIff | directorio.js:39-45 | the cleaned text is empty exactly when the input is only `;` and whitespace |
| Directorio.CleanTextIdempotent | directorio.js:104-114 | cleaning cleaned text changes nothing, so the second pass over the Rubro cell is harmless |
| Directorio.Includes | directorio.js:5 | `includes` scanning from the left is true exactly when the query occurs as a block of the text |
| Directorio.Visible | directorio.js:3-5 | a row is shown exactly when its lower-cased text contains the lower-cased query, both lowered as whole strings; a query that lowers to nothing shows the row |
| Directorio.FilterRows | directorio.js:2-7 | one visibility per row, in order, by the same rule |
| Directorio.EmptyQueryShowsAll | directorio.js:3-5 | with a missing or empty search box every row is shown, since lowering keeps the empty text empty |
| Directorio.LongerQueryHides | directorio.js:3-5 | a row hidden for a query stays hidden when more text is typed after it, wherever lowering the longer query lowers its two parts separately |
| Directorio.FinalSigmaNotPerChar | directorio.js:4-5 | no per-character lower-casing gives both "ας" for "ΑΣ" and "σα" for "ΣΑ", as `toLowerCase` does, so the filter's lowering is a map of whole strings |
| Directorio.FindKey | directorio.js:78 | the position found is the first header that reads as the key after trimming and lower-casing, or the end when none does |
| Directorio.AddEstadoHeader | directorio.js:75-83 | when no header reads "estado", "Estado" is inserted right before the first Rubro header, or at the end when there is none, and nothing else moves; otherwise the headers are unchanged |
| Directorio.AddEstadoHeaderIdempotent | directorio.js:75-83 | with a lower-casing map some header reads "estado" afterwards and a second run adds nothing |
| Directorio.EstadoCount | directorio.js:93 | the number of Estado cells is positive exactly when the row has one |
| Directorio.AddEstadoCell | directorio.js:92-101 | a row without an Estado cell gets exactly one, right before its previously last cell, or as its only cell when it was empty; a row that has one is unchanged |
| Directorio.CleanCell | directorio.js:105-115 | the column attribute is kept and an Estado cell is left alone |
| Directorio.CleanCellIsItems | directorio.js:105-115 | any other last cell gets its `;`-separated items joined with ", " |
| Directorio.FixRowShape | directorio.js:90-116 | after steps 2 and 3 a row has an Estado cell; it gained one cell, and one Estado cell, only if it had none |
| Directorio.FixRowIdempotent | directorio.js:90-116 | running steps 2 and 3 twice gives the same row as running them once |
| Directorio.AgregarEstado | directorio.js:68-117 | a missing header row or body stays missing, the header row becomes the result of step 1 on it, and each body row, in order, becomes the result of steps 2 and 3 on it, so every row has an Estado cell |
| Directorio.AgregarEstadoIdempotent | directorio.js:68-117 | with a lower-casing map the header row gets an Estado header, and running the whole procedure again changes nothing |
| Directorio.LoadedRowFixed | directorio.js:33-115 | on a row just built from a record, the Habilitado cell becomes the fifth column and the already-cleaned Rubro text stays as it is |

## Left out

- File and JSON reading, directory creation, file writing and console output in all three generators, and their `try`/`except` or `try`/`catch` reporting. A record's page is a value; which files exist after a run follows from `GenerateSitemap`, `GeneratePages`, `BuildIndexAsWritten` and `GenerateAll`.
- The literal page templates and the browser scripts inside them (crawler detection, redirect, Facebook SDK). The page template of generador-sintraspap.js is a parameter of `Sintraspap.RenderPage`, a sequence of literal text and `{{NAME}}` placeholders. The page markup of the Python script and of generar-noticias.js is not modelled beyond the slug, the file path and the URLs.
- Unicode case mapping and NFD decomposition are parameters, as said above. JavaScript strings are UTF-16 code units, while a Dafny `char` is a Unicode scalar value, so lone surrogates are not modelled.
- Special `$` patterns in `String.prototype.replace` replacement strings: each replacement value is inserted literally.
- JSON values that are neither strings nor `null` (numbers, arrays, objects) in any record field.
- The DOM: `fetch`, `innerHTML`, event wiring and the loading and error messages of `cargarEmpresasDesdeJSON`. A row's `innerText` and a header's `textContent` are given as strings. `LoadedRow` assumes the interpolated cell text contains no markup, so that the cell's text is that string.
- generador_noticias.py (random choice and the current date) and eleventy.js (build configuration) are not part of this model.
- No date sorting of the index and no handling of slug collisions, because the code has neither: duplicate slugs give duplicate URLs and overwrite each other's files.
- PySlug.SlugifyIdempotent: requires that the case map leaves `a-z`, `0-9` and `-` unchanged, which every Unicode lower-case mapping does.
- PySlug.SlugifyFixpoint: requires the same case-map property.
- PySlug.MissingTitleSlug: holds only for indices of at most 52 digits, so that `noticia-<index>` fits in 60 characters.
- PyBatch.SlugForDefaults: the default title is its own slug only for indices of at most 52 digits.
- Template.ChainIsSubstitute: holds only when no value before the last contains `{{` or ends in `{`; `Template.ChainRefillsValues` shows why.
- Sintraspap.RenderPageFills: requires that none of the seven values before the body contains `{`.
- Directorio.AddEstadoHeaderIdempotent: requires a case map that lower-cases ASCII letters, so that "Estado" reads as "estado".
- Directorio.AgregarEstadoIdempotent: the same case-map requirement.

## Findings

| source | as written | input that shows it | evidently intended | confidence | as-written member | corrected member |
|---|---|---|---|---|---|---|
| generador-sintraspap.js:181 | each index entry calls `escapeHtml(noticia.fecha)` unconditionally, which throws for a record without a `fecha` string; the `catch` at lines 206-208 then swallows it, so `index.html` is never written, although every page was | a record with string `titulo` and `resumen` and no `fecha` | the date is optional, as it is for the page (lines 142-144): the entry is written without a date | medium, not executed | Sintraspap.ItemAsWritten, used by Sintraspap.BuildIndexAsWritten (Sintraspap.MissingFechaAbandonsIndex shows the failure) | Sintraspap.IndexItem, used by Sintraspap.BuildIndex (Sintraspap.IndexItemAgrees and Sintraspap.IndexesAgree show both agree when every date is present) |
