/**
 `escapeHtml` of generador-sintraspap.js: the five markup-significant
 characters become entities, everything else is copied.
 */
module HtmlEscape {
  import opened Wrappers
  import opened Text
  import opened Records

  /** The characters `/[&<>"']/g` matches. */
  predicate IsSpecial(c: char) {
    c == '&' || c == '<' || c == '>' || c == '"' || c == '\''
  }

  /** The characters that can close an element or an attribute value. */
  predicate IsDelimiter(c: char) {
    c == '<' || c == '>' || c == '"' || c == '\''
  }

  /** The entity map of the replacement callback. */
  function Entity(c: char): string {
    match c
    case '&' => "&amp;"
    case '<' => "&lt;"
    case '>' => "&gt;"
    case '"' => "&quot;"
    case '\'' => "&#039;"
    case _ => [c]
  }

  /** `escapeHtml(text)` for a string argument. */
  function Escape(s: string): (r: string)
    ensures forall i :: 0 <= i < |r| ==> !IsDelimiter(r[i])
    ensures |r| >= |s|
  {
    if s == [] then []
    else
      var rest := Escape(s[1..]);
      var e := Entity(s[0]);
      assert forall i :: 0 <= i < |e + rest| ==> (e + rest)[i] == (if i < |e| then e[i] else rest[i - |e|]);
      e + rest
  }

  /** The decoder of the five entities. */
  function Unescape(s: string): (r: string)
    ensures |r| <= |s|
  {
    if s == [] then []
    else if IsPrefix("&amp;", s) then "&" + Unescape(s[5..])
    else if IsPrefix("&lt;", s) then "<" + Unescape(s[4..])
    else if IsPrefix("&gt;", s) then ">" + Unescape(s[4..])
    else if IsPrefix("&quot;", s) then "\"" + Unescape(s[6..])
    else if IsPrefix("&#039;", s) then "'" + Unescape(s[6..])
    else [s[0]] + Unescape(s[1..])
  }

  /** Decoding an escaped text recovers it. */
  lemma {:induction false} UnescapeEscape(s: string)
    ensures Unescape(Escape(s)) == s
  {
    if s != [] {
      UnescapeEscape(s[1..]);
      UnescapeEntity(s[0], Escape(s[1..]));
    }
  }

  /** The decoder reads one entity back as its character. */
  lemma UnescapeEntity(c: char, rest: string)
    ensures Unescape(Entity(c) + rest) == [c] + Unescape(rest)
  {
    match c
    case '&' => UnescapeAmp(rest);
    case '<' => UnescapeLt(rest);
    case '>' => UnescapeGt(rest);
    case '"' => UnescapeQuot(rest);
    case '\'' => UnescapeApos(rest);
    case _ => UnescapeOther(c, rest);
  }

  /** A character other than `&` starts no entity and is copied. */
  lemma UnescapeOther(c: char, rest: string)
    requires c != '&'
    ensures Unescape([c] + rest) == [c] + Unescape(rest)
  {
    var t := [c] + rest;
    NoEntityAt(c, rest);
    assert t != [] && t[0] == c && t[1..] == rest;
  }

  lemma NoEntityAt(c: char, rest: string)
    requires c != '&'
    ensures var t := [c] + rest;
      !IsPrefix("&amp;", t) && !IsPrefix("&lt;", t) && !IsPrefix("&gt;", t)
      && !IsPrefix("&quot;", t) && !IsPrefix("&#039;", t)
  {
    var t := [c] + rest;
    assert t[0] == c;
  }

  lemma UnescapeAmp(rest: string)
    ensures Unescape("&amp;" + rest) == "&" + Unescape(rest)
  {
    var t := "&amp;" + rest;
    assert IsPrefix("&amp;", t) && t[5..] == rest;
  }

  lemma UnescapeLt(rest: string)
    ensures Unescape("&lt;" + rest) == "<" + Unescape(rest)
  {
    var t := "&lt;" + rest;
    assert t[1] == 'l' && (|t| >= 5 ==> t[..5][1] == 'l');
    assert IsPrefix("&lt;", t) && t[4..] == rest;
  }

  lemma UnescapeGt(rest: string)
    ensures Unescape("&gt;" + rest) == ">" + Unescape(rest)
  {
    var t := "&gt;" + rest;
    assert t[1] == 'g' && (|t| >= 5 ==> t[..5][1] == 'g') && (|t| >= 4 ==> t[..4][1] == 'g');
    assert IsPrefix("&gt;", t) && t[4..] == rest;
  }

  lemma UnescapeQuot(rest: string)
    ensures Unescape("&quot;" + rest) == "\"" + Unescape(rest)
  {
    var t := "&quot;" + rest;
    assert t[1] == 'q' && (|t| >= 5 ==> t[..5][1] == 'q') && (|t| >= 4 ==> t[..4][1] == 'q');
    assert IsPrefix("&quot;", t) && t[6..] == rest;
  }

  lemma UnescapeApos(rest: string)
    ensures Unescape("&#039;" + rest) == "'" + Unescape(rest)
  {
    var t := "&#039;" + rest;
    assert t[1] == '#' && (|t| >= 5 ==> t[..5][1] == '#') && (|t| >= 4 ==> t[..4][1] == '#') && (|t| >= 6 ==> t[..6][1] == '#');
    assert IsPrefix("&#039;", t) && t[6..] == rest;
  }

  /** Escaping is one-to-one. */
  lemma EscapeInjective(a: string, b: string)
    requires Escape(a) == Escape(b)
    ensures a == b
  {
    UnescapeEscape(a);
    UnescapeEscape(b);
  }

  /** Text without special characters is copied unchanged. */
  lemma {:induction false} EscapePlain(s: string)
    requires forall i :: 0 <= i < |s| ==> !IsSpecial(s[i])
    ensures Escape(s) == s
  {
    if s != [] {
      EscapePlain(s[1..]);
    }
  }

  /** `escapeHtml(value)` where the value may be missing: `undefined.replace`
      and `null.replace` throw a `TypeError`. */
  function EscapeField(f: Field): (r: Result<string, string>)
    ensures r.Success? <==> f.Str?
    ensures r.Success? ==> Unescape(r.value) == f.text
  {
    match f
    case Str(s) => UnescapeEscape(s); Success(Escape(s))
    case _ => Failure("TypeError")
  }
}
