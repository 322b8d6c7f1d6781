/** The RSS 2.0 feed of `src/app/rss.xml/route.ts`: XML escaping of the five predefined
    entities (section 4.6 of the XML 1.0 specification), CDATA wrapping (section 2.7), and
    the layout of one `<item>`. Date formatting is a parameter. */
module Rss {
  import opened Wrappers
  import opened Text
  import opened Articles

  const DefaultSiteUrl: string := "https://www.yysuni.com"
  const FeedPath: string := "/rss.xml"

  /** `SITE_URL.replace(/\/$/, '')`, where `SITE_URL` is the environment value when it is
      non-empty: one trailing `/` is dropped. */
  function SiteOrigin(siteUrlEnv: Option<string>): (origin: string)
    ensures var url := if siteUrlEnv.Some? && siteUrlEnv.value != [] then siteUrlEnv.value else DefaultSiteUrl;
            if url[|url| - 1] == '/' then origin + "/" == url else origin == url
  {
    var url := if siteUrlEnv.Some? && siteUrlEnv.value != [] then siteUrlEnv.value else DefaultSiteUrl;
    if url[|url| - 1] == '/' then url[..|url| - 1] else url
  }

  predicate Special(c: char) {
    c == '&' || c == '<' || c == '>' || c == '"' || c == '\''
  }

  /** The replacement of one character by `escapeXml`. */
  function EscapeChar(c: char): string {
    if c == '&' then "&amp;"
    else if c == '<' then "&lt;"
    else if c == '>' then "&gt;"
    else if c == '"' then "&quot;"
    else if c == '\'' then "&apos;"
    else [c]
  }

  /** Character-by-character escaping: the reference `escapeXml` is checked against. */
  function EscapeEach(v: string): string {
    if v == [] then [] else EscapeChar(v[0]) + EscapeEach(v[1..])
  }

  /** `s.replace(/c/g, rep)`. */
  function ReplaceChar(s: string, c: char, rep: string): string {
    if s == [] then [] else (if s[0] == c then rep else [s[0]]) + ReplaceChar(s[1..], c, rep)
  }

  /** `escapeXml`: five global replacements, `&` first. */
  function EscapeXml(v: string): string {
    ReplaceChar(ReplaceChar(ReplaceChar(ReplaceChar(ReplaceChar(v, '&', "&amp;"), '<', "&lt;"), '>', "&gt;"), '"', "&quot;"), '\'', "&apos;")
  }

  lemma {:induction false} ReplaceCharAppend(a: string, b: string, c: char, rep: string)
    ensures ReplaceChar(a + b, c, rep) == ReplaceChar(a, c, rep) + ReplaceChar(b, c, rep)
  {
    if a == [] {
      assert a + b == b;
    } else {
      assert (a + b)[0] == a[0] && (a + b)[1..] == a[1..] + b;
      ReplaceCharAppend(a[1..], b, c, rep);
    }
  }

  /** Because `&` is replaced first, the chain of replacements escapes each character on its
      own: the entities introduced by one step are untouched by the later ones. */
  lemma {:induction false} EscapeXmlIsEscapeEach(v: string)
    ensures EscapeXml(v) == EscapeEach(v)
  {
    if v != [] {
      var c := v[0];
      var rest := v[1..];
      assert v == [c] + rest;
      ReplaceCharAppend([c], rest, '&', "&amp;");
      var s1 := ReplaceChar([c], '&', "&amp;");
      ReplaceCharAppend(s1, ReplaceChar(rest, '&', "&amp;"), '<', "&lt;");
      var s2 := ReplaceChar(s1, '<', "&lt;");
      ReplaceCharAppend(s2, ReplaceChar(ReplaceChar(rest, '&', "&amp;"), '<', "&lt;"), '>', "&gt;");
      var s3 := ReplaceChar(s2, '>', "&gt;");
      ReplaceCharAppend(s3, ReplaceChar(ReplaceChar(ReplaceChar(rest, '&', "&amp;"), '<', "&lt;"), '>', "&gt;"), '"', "&quot;");
      var s4 := ReplaceChar(s3, '"', "&quot;");
      ReplaceCharAppend(s4, ReplaceChar(ReplaceChar(ReplaceChar(ReplaceChar(rest, '&', "&amp;"), '<', "&lt;"), '>', "&gt;"), '"', "&quot;"), '\'', "&apos;");
      var s5 := ReplaceChar(s4, '\'', "&apos;");
      assert s5 == EscapeChar(c) by {
        EscapeCharChain(c);
      }
      EscapeXmlIsEscapeEach(rest);
    }
  }

  lemma EscapeCharChain(c: char)
    ensures EscapeXml([c]) == EscapeChar(c)
  {
    if c == '&' {
      ChainAmp(c);
    } else if c == '<' {
      ChainLt(c);
    } else if c == '>' {
      ChainGt(c);
    } else if c == '"' {
      ChainQuot(c);
    } else if c == '\'' {
      ChainApos(c);
    } else {
      ChainPlain(c);
    }
  }

  lemma ChainAmp(c: char)
    requires c == '&'
    ensures EscapeXml([c]) == "&amp;"
  {
    ReplaceSingle(c, '&', "&amp;");
    AmpSurvives();
  }

  /** The later replacements leave `&amp;` alone. */
  lemma AmpSurvives()
    ensures ReplaceChar(ReplaceChar(ReplaceChar(ReplaceChar("&amp;", '<', "&lt;"), '>', "&gt;"), '"', "&quot;"), '\'', "&apos;") == "&amp;"
  {
    var s := "&amp;";
    assert s[0] == '&' && s[1] == 'a' && s[2] == 'm' && s[3] == 'p' && s[4] == ';';
    LaterReplacementsFree(s);
  }

  /** A string with none of `<`, `>`, `"`, `'` passes the last four replacements unchanged. */
  lemma LaterReplacementsFree(s: string)
    requires '<' !in s && '>' !in s && '"' !in s && '\'' !in s
    ensures ReplaceChar(ReplaceChar(ReplaceChar(ReplaceChar(s, '<', "&lt;"), '>', "&gt;"), '"', "&quot;"), '\'', "&apos;") == s
  {
    ReplaceFree(s, '<', "&lt;");
    ReplaceFree(s, '>', "&gt;");
    ReplaceFree(s, '"', "&quot;");
    ReplaceFree(s, '\'', "&apos;");
  }

  lemma ChainLt(c: char)
    requires c == '<'
    ensures EscapeXml([c]) == "&lt;"
  {
    assert ReplaceChar([c], '&', "&amp;") == [c] by { ReplaceSingle(c, '&', "&amp;"); }
    assert ReplaceChar([c], '<', "&lt;") == "&lt;" by { ReplaceSingle(c, '<', "&lt;"); }
    assert ReplaceChar("&lt;", '>', "&gt;") == "&lt;" by { ReplaceFree("&lt;", '>', "&gt;"); }
    assert ReplaceChar("&lt;", '"', "&quot;") == "&lt;" by { ReplaceFree("&lt;", '"', "&quot;"); }
    assert ReplaceChar("&lt;", '\'', "&apos;") == "&lt;" by { ReplaceFree("&lt;", '\'', "&apos;"); }
  }

  lemma ChainGt(c: char)
    requires c == '>'
    ensures EscapeXml([c]) == "&gt;"
  {
    assert ReplaceChar([c], '&', "&amp;") == [c] by { ReplaceSingle(c, '&', "&amp;"); }
    assert ReplaceChar([c], '<', "&lt;") == [c] by { ReplaceSingle(c, '<', "&lt;"); }
    assert ReplaceChar([c], '>', "&gt;") == "&gt;" by { ReplaceSingle(c, '>', "&gt;"); }
    assert ReplaceChar("&gt;", '"', "&quot;") == "&gt;" by { ReplaceFree("&gt;", '"', "&quot;"); }
    assert ReplaceChar("&gt;", '\'', "&apos;") == "&gt;" by { ReplaceFree("&gt;", '\'', "&apos;"); }
  }

  lemma ChainQuot(c: char)
    requires c == '"'
    ensures EscapeXml([c]) == "&quot;"
  {
    assert ReplaceChar([c], '&', "&amp;") == [c] by { ReplaceSingle(c, '&', "&amp;"); }
    assert ReplaceChar([c], '<', "&lt;") == [c] by { ReplaceSingle(c, '<', "&lt;"); }
    assert ReplaceChar([c], '>', "&gt;") == [c] by { ReplaceSingle(c, '>', "&gt;"); }
    assert ReplaceChar([c], '"', "&quot;") == "&quot;" by { ReplaceSingle(c, '"', "&quot;"); }
    assert ReplaceChar("&quot;", '\'', "&apos;") == "&quot;" by { ReplaceFree("&quot;", '\'', "&apos;"); }
  }

  lemma ChainApos(c: char)
    requires c == '\''
    ensures EscapeXml([c]) == "&apos;"
  {
    assert ReplaceChar([c], '&', "&amp;") == [c] by { ReplaceSingle(c, '&', "&amp;"); }
    assert ReplaceChar([c], '<', "&lt;") == [c] by { ReplaceSingle(c, '<', "&lt;"); }
    assert ReplaceChar([c], '>', "&gt;") == [c] by { ReplaceSingle(c, '>', "&gt;"); }
    assert ReplaceChar([c], '"', "&quot;") == [c] by { ReplaceSingle(c, '"', "&quot;"); }
    assert ReplaceChar([c], '\'', "&apos;") == "&apos;" by { ReplaceSingle(c, '\'', "&apos;"); }
  }

  lemma ChainPlain(c: char)
    requires !Special(c)
    ensures EscapeXml([c]) == [c]
  {
    ReplaceSingle(c, '&', "&amp;");
    ReplaceSingle(c, '<', "&lt;");
    ReplaceSingle(c, '>', "&gt;");
    ReplaceSingle(c, '"', "&quot;");
    ReplaceSingle(c, '\'', "&apos;");
  }

  lemma ReplaceSingle(c: char, d: char, rep: string)
    ensures ReplaceChar([c], d, rep) == if c == d then rep else [c]
  {
    assert [c][0] == c && [c][1..] == [];
    var head := if c == d then rep else [c];
    assert head + [] == head;
  }

  /** Replacing a character that does not occur changes nothing. */
  lemma {:induction false} ReplaceFree(s: string, c: char, rep: string)
    requires c !in s
    ensures ReplaceChar(s, c, rep) == s
  {
    if s != [] {
      assert s[0] != c;
      ReplaceFree(s[1..], c, rep);
      assert s == [s[0]] + s[1..];
    }
  }

  /** `s[i..]` begins with one of the five predefined entities. */
  predicate EntityAt(s: string, i: nat)
    requires i <= |s|
  {
    var t := s[i..];
    StartsWith(t, "&amp;") || StartsWith(t, "&lt;") || StartsWith(t, "&gt;")
    || StartsWith(t, "&quot;") || StartsWith(t, "&apos;")
  }

  /** Well-formed escaped text: no `<`, `>`, `"` or `'`, and every `&` begins an entity. */
  predicate EscapedText(s: string) {
    forall i :: 0 <= i < |s| ==> s[i] != '<' && s[i] != '>' && s[i] != '"' && s[i] != '\'' && (s[i] == '&' ==> EntityAt(s, i))
  }

  lemma EscapedTextAppend(a: string, b: string)
    requires EscapedText(a) && EscapedText(b)
    ensures EscapedText(a + b)
  {
    var s := a + b;
    forall i | 0 <= i < |s| && s[i] == '&'
      ensures EntityAt(s, i)
    {
      if i < |a| {
        assert a[i] == '&' && EntityAt(a, i);
        assert s[i..] == a[i..] + b;
      } else {
        assert b[i - |a|] == '&' && EntityAt(b, i - |a|);
        assert s[i..] == b[i - |a|..];
      }
    }
  }

  /** `escapeXml` output is well-formed escaped text. */
  lemma {:induction false} EscapeXmlEscaped(v: string)
    ensures EscapedText(EscapeXml(v))
  {
    EscapeXmlIsEscapeEach(v);
    EscapeEachEscaped(v);
  }

  lemma {:induction false} EscapeEachEscaped(v: string)
    ensures EscapedText(EscapeEach(v))
  {
    if v != [] {
      EscapeEachEscaped(v[1..]);
      var e := EscapeChar(v[0]);
      assert EscapedText(e) by {
        if v[0] == '&' {
          assert EntityAt(e, 0) by { assert e[0..] == "&amp;"; }
        } else if v[0] == '<' {
          assert EntityAt(e, 0) by { assert e[0..] == "&lt;"; }
        } else if v[0] == '>' {
          assert EntityAt(e, 0) by { assert e[0..] == "&gt;"; }
        } else if v[0] == '"' {
          assert EntityAt(e, 0) by { assert e[0..] == "&quot;"; }
        } else if v[0] == '\'' {
          assert EntityAt(e, 0) by { assert e[0..] == "&apos;"; }
        }
      }
      EscapedTextAppend(e, EscapeEach(v[1..]));
    }
  }

  /** Entity decoding as an XML parser does it: each predefined entity becomes its
      character, everything else is copied. */
  function Unescape(s: string): string
    decreases |s|
  {
    if s == [] then []
    else if s[0] != '&' then [s[0]] + Unescape(s[1..])
    else if StartsWith(s, "&lt;") then "<" + Unescape(s[4..])
    else if StartsWith(s, "&gt;") then ">" + Unescape(s[4..])
    else if StartsWith(s, "&quot;") then "\"" + Unescape(s[6..])
    else if StartsWith(s, "&apos;") then "'" + Unescape(s[6..])
    else if StartsWith(s, "&amp;") then "&" + Unescape(s[5..])
    else [s[0]] + Unescape(s[1..])
  }

  lemma UnescapeChar(c: char, rest: string)
    ensures Unescape(EscapeChar(c) + rest) == [c] + Unescape(rest)
  {
    var s := EscapeChar(c) + rest;
    if c == '&' {
      assert s[..5] == "&amp;" && s[5..] == rest;
      assert s[1] == 'a' && s[..4] != "&lt;" && s[..4] != "&gt;";
      assert |s| < 6 || (s[..6] != "&quot;" && s[..6] != "&apos;");
    } else if c == '<' {
      assert s[..4] == "&lt;" && s[4..] == rest;
    } else if c == '>' {
      assert s[..4] == "&gt;" && s[4..] == rest;
      assert s[1] == 'g' && s[..4] != "&lt;";
    } else if c == '"' {
      assert s[..6] == "&quot;" && s[6..] == rest;
      assert s[1] == 'q' && s[..4] != "&lt;" && s[..4] != "&gt;";
    } else if c == '\'' {
      assert s[..6] == "&apos;" && s[6..] == rest;
      assert s[1] == 'a' && s[..4] != "&lt;" && s[..4] != "&gt;" && s[..6] != "&quot;";
    } else {
      assert s[0] == c && s[1..] == rest;
    }
  }

  /** Decoding the entities of `escapeXml(v)` gives `v` back exactly. */
  lemma {:induction false} UnescapeEscapeXml(v: string)
    ensures Unescape(EscapeXml(v)) == v
  {
    EscapeXmlIsEscapeEach(v);
    UnescapeEscapeEach(v);
  }

  lemma {:induction false} UnescapeEscapeEach(v: string)
    ensures Unescape(EscapeEach(v)) == v
  {
    if v != [] {
      UnescapeChar(v[0], EscapeEach(v[1..]));
      UnescapeEscapeEach(v[1..]);
      assert v == [v[0]] + v[1..];
    }
  }

  /** `escapeXml` leaves a string unchanged exactly when it holds none of the five
      characters; other characters are always copied in order. */
  lemma {:induction false} EscapeXmlUnchanged(v: string)
    ensures EscapeXml(v) == v <==> forall i :: 0 <= i < |v| ==> !Special(v[i])
  {
    EscapeXmlIsEscapeEach(v);
    EscapeEachUnchanged(v);
  }

  lemma {:induction false} EscapeEachUnchanged(v: string)
    ensures |EscapeEach(v)| >= |v|
    ensures EscapeEach(v) == v <==> forall i :: 0 <= i < |v| ==> !Special(v[i])
  {
    if v != [] {
      EscapeEachUnchanged(v[1..]);
      assert v == [v[0]] + v[1..];
      if Special(v[0]) {
        assert |EscapeChar(v[0])| >= 4;
      } else {
        assert EscapeEach(v) == [v[0]] + EscapeEach(v[1..]);
        assert (forall i :: 0 <= i < |v| ==> !Special(v[i])) <==> (forall i :: 0 <= i < |v[1..]| ==> !Special(v[1..][i])) by {
          assert forall i :: 1 <= i < |v| ==> v[i] == v[1..][i - 1];
        }
      }
    }
  }

  const CdataOpen: string := "<![CDATA["
  const CdataClose: string := "]]>"

  /** `wrapCdata`: the text is put in a CDATA section as it is. */
  function WrapCdata(v: string): string {
    CdataOpen + v + CdataClose
  }

  /** What an XML parser reads out of a CDATA section at the start of `s`: the text up to
      the first `]]>`. */
  function CdataText(s: string): Option<string> {
    if !StartsWith(s, CdataOpen) then None
    else
      match IndexOf(s[|CdataOpen|..], CdataClose)
      case None => None
      case Some(k) => Some(s[|CdataOpen|..][..k])
  }

  /** The CDATA section gives back exactly the wrapped text if and only if the text holds
      no `]]>`; a summary that does ends the section early. */
  lemma WrapCdataRecovers(v: string)
    ensures CdataText(WrapCdata(v)) == Some(v) <==> !Contains(v, CdataClose)
  {
    var t := v + CdataClose;
    CdataTextOfWrap(v);
    var k := IndexOf(t, CdataClose).value;
    if Contains(v, CdataClose) {
      FoundEarly(v, CdataClose);
      assert |t[..k]| < |v|;
    } else {
      forall j | 0 <= j < |v|
        ensures !StartsWith(t[j..], CdataClose)
      {
        NoEarlyClose(v, j);
      }
      assert StartsWith(t[k..], CdataClose);
      assert k == |v|;
      assert t[..k] == v;
    }
  }

  /** The section read out of `wrapCdata(v)` is `v + "]]>"` up to the first `]]>`. */
  lemma CdataTextOfWrap(v: string)
    ensures IndexOf(v + CdataClose, CdataClose).Some?
    ensures IndexOf(v + CdataClose, CdataClose).value <= |v|
    ensures CdataText(WrapCdata(v)) == Some((v + CdataClose)[..IndexOf(v + CdataClose, CdataClose).value])
  {
    FoundAtSuffix(v, CdataClose);
    var t := v + CdataClose;
    assert WrapCdata(v) == CdataOpen + t;
    SplitAfter(CdataOpen, t);
  }

  lemma SplitAfter(a: string, b: string)
    ensures StartsWith(a + b, a) && (a + b)[|a|..] == b
  {
    assert (a + b)[..|a|] == a;
  }

  /** In `v + p` the first `p` starts at or before the end of `v`. */
  lemma FoundAtSuffix(v: string, p: string)
    ensures IndexOf(v + p, p).Some? && IndexOf(v + p, p).value <= |v|
  {
    var t := v + p;
    assert t[|v|..|v| + |p|] == p;
    ContainsAt(t, p, |v|);
    assert t[|v|..][..|p|] == p;
  }

  /** A `p` inside `v` is found before the end of `v`. */
  lemma FoundEarly(v: string, p: string)
    requires Contains(v, p) && p != []
    ensures IndexOf(v + p, p).Some? && IndexOf(v + p, p).value < |v|
  {
    var j := IndexOf(v, p).value;
    assert (v + p)[j..j + |p|] == v[j..j + |p|];
    FirstIndexAtMost(v + p, p, j);
  }

  /** An occurrence of `p` at `j` bounds the first one. */
  lemma FirstIndexAtMost(t: string, p: string, j: nat)
    requires j + |p| <= |t| && t[j..j + |p|] == p
    ensures IndexOf(t, p).Some? && IndexOf(t, p).value <= j
  {
    ContainsAt(t, p, j);
    assert t[j..][..|p|] == p;
    assert StartsWith(t[j..], p);
  }

  /** A CDATA section around text free of `]]>` does not close before the text ends. */
  lemma NoEarlyClose(v: string, j: nat)
    requires !Contains(v, CdataClose) && j < |v|
    ensures !StartsWith((v + CdataClose)[j..], CdataClose)
  {
    if j + 3 <= |v| {
      NotFoundInside(v, CdataClose, j);
    } else {
      StraddleNoClose(v, j);
    }
  }

  /** A match starting in the last two characters of `v` would need a `>` where `]]>` puts a
      `]`. */
  lemma StraddleNoClose(v: string, j: nat)
    requires j < |v| < j + 3
    ensures !StartsWith((v + CdataClose)[j..], CdataClose)
  {
    var t := v + CdataClose;
    assert t[j + 2] == CdataClose[j + 2 - |v|] == ']';
    assert t[j..][2] == t[j + 2];
  }

  /** An occurrence of `p` in `v + p` that lies wholly inside `v` is one in `v`. */
  lemma NotFoundInside(v: string, p: string, j: nat)
    requires !Contains(v, p) && j + |p| <= |v|
    ensures !StartsWith((v + p)[j..], p)
  {
    assert (v + p)[j..][..|p|] == v[j..j + |p|];
    if v[j..j + |p|] == p {
      ContainsAt(v, p, j);
    }
  }

  /** `(tags || []).filter(Boolean)`. */
  function NonEmptyTags(tags: seq<string>): (r: seq<string>)
    ensures |r| <= |tags|
    ensures forall i :: 0 <= i < |r| ==> r[i] != []
  {
    if tags == [] then []
    else if tags[0] == [] then NonEmptyTags(tags[1..])
    else [tags[0]] + NonEmptyTags(tags[1..])
  }

  function CategoryElement(tag: string): string {
    "<category>" + EscapeXml(tag) + "</category>"
  }

  /** The `<category>` elements of an item, in tag order, empty tags dropped. */
  function Categories(tags: seq<string>): string {
    Concat(CategoryElements(NonEmptyTags(tags)))
  }

  function CategoryElements(tags: seq<string>): (r: seq<string>)
    ensures |r| == |tags|
    ensures forall i :: 0 <= i < |r| ==> r[i] == CategoryElement(tags[i])
  {
    if tags == [] then [] else [CategoryElement(tags[0])] + CategoryElements(tags[1..])
  }

  /** A reader of a run of `<category>` elements: each element's text, entity-decoded. */
  function ParseCategories(s: string): Option<seq<string>>
    decreases |s|
  {
    if s == [] then Some([])
    else if !StartsWith(s, "<category>") then None
    else
      var body := s[10..];
      var k := FirstOf(body, '<');
      var after := body[k..];
      if !StartsWith(after, "</category>") then None
      else
        match ParseCategories(after[11..])
        case None => None
        case Some(more) => Some([Unescape(body[..k])] + more)
  }

  lemma ParseCategoryElement(tag: string, rest: string)
    ensures ParseCategories(CategoryElement(tag) + rest) ==
            match ParseCategories(rest)
            case None => None
            case Some(more) => Some([tag] + more)
  {
    var e := EscapeXml(tag);
    var s := CategoryElement(tag) + rest;
    assert s[..10] == "<category>";
    var body := s[10..];
    assert body == e + ("</category>" + rest);
    EscapeXmlEscaped(tag);
    assert '<' !in e;
    var k := FirstOf(body, '<');
    assert body[|e|] == '<';
    assert forall j :: 0 <= j < |e| ==> body[j] == e[j];
    assert k == |e|;
    assert body[..k] == e;
    assert body[k..] == "</category>" + rest;
    assert body[k..][11..] == rest;
    UnescapeEscapeXml(tag);
  }

  /** The categories of an item read back as exactly its non-empty tags, in order: one
      element per non-empty tag. */
  lemma {:induction false} CategoriesRoundTrip(tags: seq<string>)
    ensures ParseCategories(Categories(tags)) == Some(NonEmptyTags(tags))
  {
    ElementsRoundTrip(NonEmptyTags(tags));
  }

  lemma {:induction false} ElementsRoundTrip(tags: seq<string>)
    ensures ParseCategories(Concat(CategoryElements(tags))) == Some(tags)
  {
    if tags != [] {
      assert CategoryElements(tags)[1..] == CategoryElements(tags[1..]);
      ElementsRoundTrip(tags[1..]);
      ParseCategoryElement(tags[0], Concat(CategoryElements(tags[1..])));
      assert tags == [tags[0]] + tags[1..];
    }
  }

  /** The `<item>` element of the item template, between the whitespace `.trim()` removes. */
  function ItemElement(title: string, link: string, description: string, pubDate: string, categories: string): string {
    "<item>" + ItemBody(title, link, description, pubDate, categories) + "</item>"
  }

  function ItemBody(title: string, link: string, description: string, pubDate: string, categories: string): string {
    "\n\t\t\t<title>" + title + "</title>\n\t\t\t<link>" + link
    + "</link>\n\t\t\t<guid isPermaLink=\"false\">" + EscapeXml(link)
    + "</guid>\n\t\t\t<description>" + description
    + "</description>\n\t\t\t<pubDate>" + pubDate + "</pubDate>\n\t\t\t" + categories + "\n\t\t"
  }

  /** `item.title || item.slug`. */
  function ItemTitle(item: Article): string {
    if item.title != [] then item.title else item.slug
  }

  function ItemLink(item: Article, origin: string): string {
    origin + "/blog/" + item.slug
  }

  /** `item.publishedAt || item.createdAt`. */
  function ItemDate(item: Article): Timestamp {
    if item.publishedAt.Some? && item.publishedAt.value != [] then item.publishedAt.value else item.createdAt
  }

  function ItemSummary(item: Article): string {
    if item.summary.Some? then item.summary.value else ""
  }

  /** `serializeItem`: `formatUtc` stands for `new Date(...).toUTCString()`. */
  function SerializeItem(item: Article, origin: string, formatUtc: string -> string): string {
    Trim("\n\t\t" + ItemElement(EscapeXml(ItemTitle(item)), ItemLink(item, origin), WrapCdata(ItemSummary(item)),
                                 formatUtc(ItemDate(item)), Categories(item.tags)))
  }

  /** The item's parts: exactly the `<item>` element; its title decodes to `title || slug`;
      its link is the article URL and its guid that URL escaped; the summary is in a CDATA
      section; the date is the publication time, else the creation time; and the
      categories read back as the non-empty tags. */
  lemma SerializeItemParts(item: Article, origin: string, formatUtc: string -> string)
    ensures var title := EscapeXml(ItemTitle(item));
            var link := ItemLink(item, origin);
            var categories := Categories(item.tags);
            && SerializeItem(item, origin, formatUtc) == ItemElement(title, link, WrapCdata(ItemSummary(item)), formatUtc(ItemDate(item)), categories)
            && Unescape(title) == ItemTitle(item)
            && Unescape(EscapeXml(link)) == link
            && ParseCategories(categories) == Some(NonEmptyTags(item.tags))
  {
    var core := ItemElement(EscapeXml(ItemTitle(item)), ItemLink(item, origin), WrapCdata(ItemSummary(item)),
                            formatUtc(ItemDate(item)), Categories(item.tags));
    var body := ItemBody(EscapeXml(ItemTitle(item)), ItemLink(item, origin), WrapCdata(ItemSummary(item)),
                         formatUtc(ItemDate(item)), Categories(item.tags));
    assert core == "<item>" + body + "</item>";
    assert core[0] == '<';
    assert core[|core| - 1] == '>';
    assert "\n\t\t" + core == "\n\t\t" + core + "";
    TrimExact("\n\t\t", core, "");
    UnescapeEscapeXml(ItemTitle(item));
    UnescapeEscapeXml(ItemLink(item, origin));
    CategoriesRoundTrip(item.tags);
  }

  /** The site metadata the feed reads (`siteContent.meta`). */
  datatype SiteMeta = SiteMeta(title: Option<string>, description: Option<string>)

  function OrDefault(x: Option<string>, default: string): (r: string)
    ensures x.Some? && x.value != [] ==> r == x.value
    ensures x.None? || x.value == [] ==> r == default
  {
    if x.Some? && x.value != [] then x.value else default
  }

  const DefaultTitle := "2025 Blog"
  const DefaultDescription := "Latest updates from 2025 Blog"

  /** The channel up to and including the tabs before the items, over the escaped title and
      description. */
  function ChannelHead(title: string, description: string, origin: string, nowUtc: string): string {
    "<?xml version=\"1.0\" encoding=\"UTF-8\"?>\n<rss version=\"2.0\">\n\t<channel xmlns:atom=\"http://www.w3.org/2005/Atom\">\n\t\t<title>"
    + title + "</title>\n\t\t<link>" + origin
    + "</link>\n\t\t<atom:link href=\"" + origin + FeedPath + "\" rel=\"self\" type=\"application/rss+xml\" />\n\t\t<description>"
    + description
    + "</description>\n\t\t<language>zh-CN</language>\n\t\t<docs>https://www.rssboard.org/rss-specification</docs>\n\t\t<ttl>60</ttl>\n\t\t<lastBuildDate>"
    + nowUtc + "</lastBuildDate>\n\t\t"
  }

  const ChannelFoot := "\n\t</channel>\n</rss>"

  /** The `GET` response body over the result of `getArticles('published')`: the channel
      header and the articles' items in listing order. */
  function Feed(meta: SiteMeta, origin: string, published: seq<Article>, nowUtc: string, formatUtc: string -> string): string {
    ChannelHead(ChannelTitle(meta), ChannelDescription(meta), origin, nowUtc) + Concat(Items(published, origin, formatUtc)) + ChannelFoot
  }

  /** `escapeXml(siteContent.meta?.title || '2025 Blog')`. */
  function ChannelTitle(meta: SiteMeta): string {
    EscapeXml(OrDefault(meta.title, DefaultTitle))
  }

  /** `escapeXml(siteContent.meta?.description || 'Latest updates from 2025 Blog')`. */
  function ChannelDescription(meta: SiteMeta): string {
    EscapeXml(OrDefault(meta.description, DefaultDescription))
  }

  /** The channel title and description are well-escaped and decode to the site's values or
      their defaults. The first clause only unfolds `Feed` into its header, items and footer,
      so that callers see those parts; `ItemsParts` says what the items are. */
  lemma FeedParts(meta: SiteMeta, origin: string, published: seq<Article>, nowUtc: string, formatUtc: string -> string)
    ensures Feed(meta, origin, published, nowUtc, formatUtc) == ChannelHead(ChannelTitle(meta), ChannelDescription(meta), origin, nowUtc) + Concat(Items(published, origin, formatUtc)) + ChannelFoot
    ensures EscapedText(ChannelTitle(meta)) && Unescape(ChannelTitle(meta)) == OrDefault(meta.title, DefaultTitle)
    ensures EscapedText(ChannelDescription(meta)) && Unescape(ChannelDescription(meta)) == OrDefault(meta.description, DefaultDescription)
  {
    ChannelText(meta.title, DefaultTitle);
    ChannelText(meta.description, DefaultDescription);
  }

  /** A channel text is escaped well and decodes to the site's value or its default. */
  lemma ChannelText(x: Option<string>, default: string)
    ensures EscapedText(EscapeXml(OrDefault(x, default))) && Unescape(EscapeXml(OrDefault(x, default))) == OrDefault(x, default)
  {
    EscapeXmlEscaped(OrDefault(x, default));
    UnescapeEscapeXml(OrDefault(x, default));
  }

  /** Each serialised item is the `<item>` element of its article's parts. */
  lemma ItemsParts(published: seq<Article>, origin: string, formatUtc: string -> string)
    ensures |Items(published, origin, formatUtc)| == |published|
    ensures forall i :: 0 <= i < |published| ==>
              var item := published[i];
              && Items(published, origin, formatUtc)[i] == ItemElement(EscapeXml(ItemTitle(item)), ItemLink(item, origin), WrapCdata(ItemSummary(item)), formatUtc(ItemDate(item)), Categories(item.tags))
              && Unescape(EscapeXml(ItemTitle(item))) == ItemTitle(item)
              && ParseCategories(Categories(item.tags)) == Some(NonEmptyTags(item.tags))
  {
    forall i | 0 <= i < |published|
      ensures var item := published[i];
              && Items(published, origin, formatUtc)[i] == ItemElement(EscapeXml(ItemTitle(item)), ItemLink(item, origin), WrapCdata(ItemSummary(item)), formatUtc(ItemDate(item)), Categories(item.tags))
              && Unescape(EscapeXml(ItemTitle(item))) == ItemTitle(item)
              && ParseCategories(Categories(item.tags)) == Some(NonEmptyTags(item.tags))
    {
      SerializeItemParts(published[i], origin, formatUtc);
    }
  }

  /** `published.map(serializeItem)`. */
  function Items(published: seq<Article>, origin: string, formatUtc: string -> string): seq<string> {
    seq(|published|, i requires 0 <= i < |published| => SerializeItem(published[i], origin, formatUtc))
  }
}
