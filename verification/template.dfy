/**
 The placeholder replace chain of generador-sintraspap.js: the page
 template is filled by one global replacement per placeholder, in a fixed
 order, each pass scanning the text the previous passes produced.
 */
module Template {
  import opened Wrappers
  import opened Text

  /** `text.replace(/pat/g, value)` for a literal pattern and a replacement
      taken literally: leftmost non-overlapping occurrences, scanned left to
      right, each replaced by `value`. */
  function ReplaceAll(text: string, pat: string, value: string): string
    requires pat != []
    decreases |text|
  {
    if |text| < |pat| then text
    else if text[..|pat|] == pat then value + ReplaceAll(text[|pat|..], pat, value)
    else [text[0]] + ReplaceAll(text[1..], pat, value)
  }

  /** Without an occurrence of the pattern the text is left as it is. */
  lemma {:induction false} ReplaceAllAbsent(text: string, pat: string, value: string)
    requires pat != []
    requires forall i: nat :: !OccursAt(pat, text, i)
    ensures ReplaceAll(text, pat, value) == text
    decreases |text|
  {
    if |text| >= |pat| {
      assert !OccursAt(pat, text, 0);
      forall i: nat ensures !OccursAt(pat, text[1..], i) {
        assert !OccursAt(pat, text, i + 1);
        if i + |pat| <= |text[1..]| {
          assert text[1..][i..i + |pat|] == text[i + 1..i + 1 + |pat|];
        }
      }
      ReplaceAllAbsent(text[1..], pat, value);
    }
  }

  /** One piece of a template: literal text or a `{{NAME}}` placeholder. */
  datatype Part = Lit(text: string) | Hole(name: string)

  /** Placeholder names are upper-case letters and underscores. */
  predicate IsNameChar(c: char) { IsAsciiUpper(c) || c == '_' }

  predicate IsName(name: string) {
    name != [] && forall c | c in name :: IsNameChar(c)
  }

  /** The marker text of a placeholder. */
  function Marker(name: string): string {
    "{{" + name + "}}"
  }

  /** Text in which no marker can start: no `{{`, and no `{` at the end
      where a following `{` could complete one. */
  predicate Inert(s: string) {
    forall i :: 0 <= i < |s| && s[i] == '{' ==> i + 1 < |s| && s[i + 1] != '{'
  }

  /** Literal pieces are inert and placeholders are well named. */
  predicate WellFormed(parts: seq<Part>) {
    forall i :: 0 <= i < |parts| ==>
      match parts[i]
      case Lit(s) => Inert(s)
      case Hole(n) => IsName(n)
  }

  /** The template text. */
  function Render(parts: seq<Part>): string {
    if parts == [] then []
    else
      (match parts[0] case Lit(s) => s case Hole(n) => Marker(n)) + Render(parts[1..])
  }

  /** The replace chain: one global replacement per binding, in order. */
  function Chain(text: string, bindings: seq<(string, string)>): string
    decreases |bindings|
  {
    if bindings == [] then text
    else Chain(ReplaceAll(text, Marker(bindings[0].0), bindings[0].1), bindings[1..])
  }

  /** The value bound to `name` by its first binding, if any. */
  function Lookup(bindings: seq<(string, string)>, name: string): (r: Option<string>)
    ensures r.Some? <==> exists i :: 0 <= i < |bindings| && bindings[i].0 == name
  {
    if bindings == [] then None
    else if bindings[0].0 == name then Some(bindings[0].1)
    else Lookup(bindings[1..], name)
  }

  /** The intended filling: every placeholder of the template replaced by
      its value in one pass, unbound placeholders left as they are. */
  function Substitute(parts: seq<Part>, bindings: seq<(string, string)>): string {
    if parts == [] then []
    else
      (match parts[0]
       case Lit(s) => s
       case Hole(n) => match Lookup(bindings, n) case Some(v) => v case None => Marker(n))
      + Substitute(parts[1..], bindings)
  }

  /** The template with the placeholders named `name` replaced by the
      literal `value`. */
  function Fill(parts: seq<Part>, name: string, value: string): (r: seq<Part>)
    ensures |r| == |parts|
  {
    if parts == [] then []
    else [if parts[0] == Hole(name) then Lit(value) else parts[0]] + Fill(parts[1..], name, value)
  }

  /** Inert text passes through a marker replacement untouched. */
  lemma {:induction false} ReplaceAllSkipsInert(s: string, rest: string, name: string, value: string)
    requires Inert(s)
    ensures ReplaceAll(s + rest, Marker(name), value) == s + ReplaceAll(rest, Marker(name), value)
    decreases |s|
  {
    if s != [] {
      if |s + rest| >= |Marker(name)| {
        InertStartMismatch(s, rest, name);
      }
      ConsRegroup(s, rest);
      ReplaceAllKeepsFirst(s + rest, s[0], s[1..] + rest, Marker(name), value);
      InertTail(s);
      ReplaceAllSkipsInert(s[1..], rest, name, value);
      ConsRegroup(s, ReplaceAll(rest, Marker(name), value));
    } else {
      assert s + rest == rest;
    }
  }

  /** A non-empty text is its first character followed by the rest. */
  lemma ConsRegroup(s: string, x: string)
    requires s != []
    ensures s + x == [s[0]] + (s[1..] + x)
  {
  }

  /** Dropping the first character keeps a text inert. */
  lemma InertTail(s: string)
    requires Inert(s) && s != []
    ensures Inert(s[1..])
  {
    forall i | 0 <= i < |s[1..]| && s[1..][i] == '{' ensures i + 1 < |s[1..]| && s[1..][i + 1] != '{' {
      assert s[i + 1] == '{';
    }
  }

  /** No marker starts at the first character of an inert text. */
  lemma InertStartMismatch(s: string, rest: string, name: string)
    requires Inert(s) && s != [] && |s + rest| >= |Marker(name)|
    ensures (s + rest)[..|Marker(name)|] != Marker(name)
  {
    var t := s + rest;
    var m := Marker(name);
    if s[0] == '{' {
      assert t[1] == s[1] && s[1] != '{' && m[1] == '{';
      assert t[..|m|][1] != m[1];
    } else {
      assert t[..|m|][0] != m[0];
    }
  }

  /** A marker is replaced by the value of its own name. */
  lemma ReplaceAllOwnMarker(name: string, rest: string, value: string)
    ensures ReplaceAll(Marker(name) + rest, Marker(name), value) == value + ReplaceAll(rest, Marker(name), value)
  {
    var t := Marker(name) + rest;
    assert t[..|Marker(name)|] == Marker(name);
    assert t[|Marker(name)|..] == rest;
  }

  /** The marker of a different name does not match at its own start. */
  lemma OtherMarkerMismatch(m: string, n: string, rest: string)
    requires IsName(m) && IsName(n) && m != n
    requires |Marker(m) + rest| >= |Marker(n)|
    ensures (Marker(m) + rest)[..|Marker(n)|] != Marker(n)
  {
    var t := Marker(m) + rest;
    var pat := Marker(n);
    if |m| < |n| {
      assert t[2 + |m|] == '}' && pat[2 + |m|] == n[|m|] && n[|m|] in n;
      assert t[..|pat|][2 + |m|] != pat[2 + |m|];
    } else if |m| > |n| {
      assert t[2 + |n|] == m[|n|] && pat[2 + |n|] == '}' && m[|n|] in m;
      assert t[..|pat|][2 + |n|] != pat[2 + |n|];
    } else {
      assert exists j :: 0 <= j < |m| && m[j] != n[j];
      var j :| 0 <= j < |m| && m[j] != n[j];
      assert t[2 + j] == m[j] && pat[2 + j] == n[j];
      assert t[..|pat|][2 + j] != pat[2 + j];
    }
  }

  /** A marker of another name passes through a replacement untouched. */
  lemma ReplaceAllOtherMarker(m: string, n: string, rest: string, value: string)
    requires IsName(m) && IsName(n) && m != n
    ensures ReplaceAll(Marker(m) + rest, Marker(n), value) == Marker(m) + ReplaceAll(rest, Marker(n), value)
  {
    var tail := "{" + m + "}}";
    if |Marker(m) + rest| >= |Marker(n)| {
      OtherMarkerMismatch(m, n, rest);
    }
    MarkerSplit(m, rest);
    ReplaceAllKeepsFirst(Marker(m) + rest, '{', tail + rest, Marker(n), value);
    MarkerTailInert(m);
    ReplaceAllSkipsInert(tail, rest, n, value);
    MarkerSplit(m, ReplaceAll(rest, Marker(n), value));
  }

  /** Where the pattern does not match at the start, the first character
      is kept and the scan goes on from the second. */
  lemma ReplaceAllKeepsFirst(t: string, c: char, u: string, pat: string, value: string)
    requires t == [c] + u && pat != []
    requires |t| >= |pat| ==> t[..|pat|] != pat
    ensures ReplaceAll(t, pat, value) == [c] + ReplaceAll(u, pat, value)
  {
    assert t[1..] == u;
    if |t| < |pat| {
      assert |u| < |pat|;
    }
  }

  /** A marker is its first brace followed by the rest of it. */
  lemma MarkerSplit(m: string, x: string)
    ensures Marker(m) + x == ['{'] + (("{" + m + "}}") + x)
  {
  }

  /** After its first brace a marker holds no brace that could open another. */
  lemma MarkerTailInert(m: string)
    requires IsName(m)
    ensures Inert("{" + m + "}}")
  {
    var tail := "{" + m + "}}";
    forall i | 0 < i < |tail| ensures tail[i] != '{' {
      if i <= |m| {
        assert tail[i] == m[i - 1] && m[i - 1] in m;
      } else {
        assert tail[i] == '}';
      }
    }
    assert tail[1] == m[0] && m[0] in m;
  }

  /** One pass of the chain fills exactly the placeholders of its name;
      the inserted value itself is not scanned. */
  lemma {:induction false} ReplaceAllRender(parts: seq<Part>, name: string, value: string)
    requires WellFormed(parts) && IsName(name)
    ensures ReplaceAll(Render(parts), Marker(name), value) == Render(Fill(parts, name, value))
    decreases |parts|
  {
    if parts != [] {
      var rest := Render(parts[1..]);
      assert WellFormed(parts[1..]) by {
        forall i | 0 <= i < |parts[1..]| ensures parts[1..][i] == parts[i + 1] { }
      }
      ReplaceAllRender(parts[1..], name, value);
      assert Fill(parts, name, value)[1..] == Fill(parts[1..], name, value);
      match parts[0] {
        case Lit(s) =>
          ReplaceAllSkipsInert(s, rest, name, value);
        case Hole(m) =>
          if m == name {
            ReplaceAllOwnMarker(name, rest, value);
          } else {
            ReplaceAllOtherMarker(m, name, rest, value);
          }
      }
    }
  }

  /** Filling a placeholder with an inert value keeps the template well
      formed, so a later pass sees the value as literal text. */
  lemma {:induction false} FillWellFormed(parts: seq<Part>, name: string, value: string)
    requires WellFormed(parts) && Inert(value)
    ensures WellFormed(Fill(parts, name, value))
    decreases |parts|
  {
    if parts != [] {
      assert WellFormed(parts[1..]) by {
        forall i | 0 <= i < |parts[1..]| ensures parts[1..][i] == parts[i + 1] { }
      }
      FillWellFormed(parts[1..], name, value);
      var f := Fill(parts, name, value);
      forall i | 0 <= i < |f| ensures f[i].Lit? ==> Inert(f[i].text) ensures f[i].Hole? ==> IsName(f[i].name) {
        if i > 0 {
          assert f[i] == Fill(parts[1..], name, value)[i - 1];
        }
      }
    }
  }

  /** Filling one name first and the rest afterwards is filling all at once,
      when the first binding of that name is the one filled. */
  lemma {:induction false} SubstituteFill(parts: seq<Part>, name: string, value: string, rest: seq<(string, string)>)
    ensures Substitute(Fill(parts, name, value), rest) == Substitute(parts, [(name, value)] + rest)
    decreases |parts|
  {
    if parts != [] {
      SubstituteFill(parts[1..], name, value, rest);
      var bs := [(name, value)] + rest;
      assert bs[1..] == rest;
    }
  }

  /** With inert values the chain is the intended one-pass filling: every
      placeholder gets the value of its first binding. The last value is
      never scanned again and may be anything. */
  lemma {:induction false} ChainIsSubstitute(parts: seq<Part>, bindings: seq<(string, string)>)
    requires WellFormed(parts)
    requires forall i :: 0 <= i < |bindings| ==> IsName(bindings[i].0)
    requires forall i :: 0 <= i < |bindings| - 1 ==> Inert(bindings[i].1)
    ensures Chain(Render(parts), bindings) == Substitute(parts, bindings)
    decreases |bindings|
  {
    if bindings == [] {
      SubstituteUnbound(parts);
    } else {
      var (n, v) := bindings[0];
      var rest := bindings[1..];
      ReplaceAllRender(parts, n, v);
      SubstituteFill(parts, n, v, rest);
      assert [(n, v)] + rest == bindings;
      if rest == [] {
        SubstituteUnbound(Fill(parts, n, v));
      } else {
        FillWellFormed(parts, n, v);
        assert forall i :: 0 <= i < |rest| ==> rest[i] == bindings[i + 1];
        ChainIsSubstitute(Fill(parts, n, v), rest);
      }
    }
  }

  /** Without bindings nothing is filled. */
  lemma {:induction false} SubstituteUnbound(parts: seq<Part>)
    ensures Substitute(parts, []) == Render(parts)
    decreases |parts|
  {
    if parts != [] {
      SubstituteUnbound(parts[1..]);
    }
  }

  /** The chain differs from one-pass filling when a value holds the marker
      of a later placeholder: the value is filled too. */
  lemma ChainRefillsValues()
    ensures var parts := [Hole("TITULO"), Lit(" "), Hole("CUERPO")];
            var bindings := [("TITULO", Marker("CUERPO")), ("CUERPO", "x")];
            Chain(Render(parts), bindings) == "x x" &&
            Substitute(parts, bindings) == "{{CUERPO}} x"
  {
    var parts := [Hole("TITULO"), Lit(" "), Hole("CUERPO")];
    var bindings := [("TITULO", Marker("CUERPO")), ("CUERPO", "x")];
    var again := [Hole("CUERPO"), Lit(" "), Hole("CUERPO")];
    RefillFirstPass();
    RefillSecondPass();
    assert Chain(Render(parts), bindings) == "x x" by {
      assert bindings[1..][1..] == [];
    }
    RefillSubstitute();
  }

  /** The first pass writes the marker of the later placeholder. */
  lemma RefillFirstPass()
    ensures ReplaceAll(Render([Hole("TITULO"), Lit(" "), Hole("CUERPO")]), Marker("TITULO"), Marker("CUERPO"))
      == Render([Hole("CUERPO"), Lit(" "), Hole("CUERPO")])
  {
    var parts := [Hole("TITULO"), Lit(" "), Hole("CUERPO")];
    var v := Marker("CUERPO");
    NameFacts();
    assert Render(parts) == Marker("TITULO") + (" " + (Marker("CUERPO") + ""));
    ReplaceAllOwnMarker("TITULO", " " + (Marker("CUERPO") + ""), v);
    ReplaceAllSkipsInert(" ", Marker("CUERPO") + "", "TITULO", v);
    ReplaceAllOtherMarker("CUERPO", "TITULO", "", v);
  }

  /** The second pass fills both markers. */
  lemma RefillSecondPass()
    ensures ReplaceAll(Render([Hole("CUERPO"), Lit(" "), Hole("CUERPO")]), Marker("CUERPO"), "x") == "x x"
  {
    var again := [Hole("CUERPO"), Lit(" "), Hole("CUERPO")];
    var filled := [Lit("x"), Lit(" "), Lit("x")];
    NameFacts();
    assert WellFormed(again) by { assert Inert(" "); }
    ReplaceAllRender(again, "CUERPO", "x");
    assert Fill(again, "CUERPO", "x") == filled;
    assert Render(filled) == "x x";
  }

  /** One-pass filling leaves the inserted marker as it is. */
  lemma RefillSubstitute()
    ensures Substitute([Hole("TITULO"), Lit(" "), Hole("CUERPO")], [("TITULO", Marker("CUERPO")), ("CUERPO", "x")])
      == "{{CUERPO}} x"
  {
    var parts := [Hole("TITULO"), Lit(" "), Hole("CUERPO")];
    var bindings := [("TITULO", Marker("CUERPO")), ("CUERPO", "x")];
    assert Lookup(bindings, "TITULO") == Some(Marker("CUERPO"));
    assert Lookup(bindings, "CUERPO") == Some("x");
    assert Substitute(parts[2..], bindings) == "x";
    assert Substitute(parts[1..], bindings) == " x";
  }

  /** The names the page template uses are placeholder names. */
  lemma NameFacts()
    ensures IsName("TITULO") && IsName("RESUMEN") && IsName("IMAGE_URL") && IsName("PAGE_URL")
    ensures IsName("SLUG") && IsName("FECHA_HTML") && IsName("IMAGEN_HTML") && IsName("CUERPO")
  {
    NameFacts1();
    NameFacts2();
  }

  lemma NameFacts1()
    ensures IsName("TITULO") && IsName("RESUMEN") && IsName("IMAGE_URL") && IsName("PAGE_URL")
  {
    assert forall c | c in "TITULO" :: IsNameChar(c);
    assert forall c | c in "RESUMEN" :: IsNameChar(c);
    assert forall c | c in "IMAGE_URL" :: IsNameChar(c);
    assert forall c | c in "PAGE_URL" :: IsNameChar(c);
  }

  lemma NameFacts2()
    ensures IsName("SLUG") && IsName("FECHA_HTML") && IsName("IMAGEN_HTML") && IsName("CUERPO")
  {
    assert forall c | c in "SLUG" :: IsNameChar(c);
    assert forall c | c in "FECHA_HTML" :: IsNameChar(c);
    assert forall c | c in "IMAGEN_HTML" :: IsNameChar(c);
    assert forall c | c in "CUERPO" :: IsNameChar(c);
  }
}
