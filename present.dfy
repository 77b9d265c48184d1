/** `create_google_search_link` and `format_response`: the Markdown text
    shown for an accepted reply. */
module Present {
  import opened Results
  import opened Strings
  import Utf8
  import opened Percent

  const SearchPrefix := "https://www.google.com/search?q="

  /** The query term searched for a saint called `name`. */
  function SearchTerm(name: string): string
  {
    "Saint " + name
  }

  /** A Google search URL holding no parenthesis, bracket or space that could
      end a Markdown link target early; `SearchLinkDecodes` gives its query. */
  function SearchLink(name: string): (r: string)
    ensures HasPrefix(r, SearchPrefix)
    ensures '(' !in r && ')' !in r && ']' !in r && ' ' !in r
  {
    var query := Quote(SearchTerm(name));
    NoLinkDelimiters(query);
    SearchPrefix + query
  }

  /** The query of the link percent-decodes to the UTF-8 bytes of
      `Saint <name>`, and from there to that text. */
  lemma SearchLinkDecodes(name: string)
    ensures var r := SearchLink(name);
      && PercentDecode(r[|SearchPrefix|..]) == Some(Utf8.Encode(SearchTerm(name)))
      && Utf8.Decode(Utf8.Encode(SearchTerm(name))) == Some(SearchTerm(name))
  {
    var query := Quote(SearchTerm(name));
    QuoteRoundTrip(SearchTerm(name));
    assert (SearchPrefix + query)[|SearchPrefix|..] == query;
  }

  /** Neither the URL prefix nor a quoted query holds a Markdown delimiter. */
  lemma NoLinkDelimiters(query: string)
    requires forall i :: 0 <= i < |query| ==> IsSafe(query[i]) || query[i] == '%'
    ensures var r := SearchPrefix + query; '(' !in r && ')' !in r && ']' !in r && ' ' !in r
  {
    var r := SearchPrefix + query;
    forall i | 0 <= i < |r| ensures r[i] != '(' && r[i] != ')' && r[i] != ']' && r[i] != ' ' {
      if i >= |SearchPrefix| {
        assert r[i] == query[i - |SearchPrefix|];
      } else {
        assert r[i] == SearchPrefix[i];
      }
    }
  }

  /** The introduction, a blank line, the prayer in Markdown emphasis, a
      blank line, and a link to a search for the saint; the link target is
      exactly the search link. */
  function FormatResponse(name: string, intro: string, prayer: string): (r: string)
    ensures LinkTarget(r) == Some(SearchLink(name))
  {
    var link := SearchLink(name);
    LinkTargetOf(intro + "\n\n*" + prayer + "*\n\n", "Learn more about Saint " + name, link);
    intro + "\n\n*" + prayer + "*\n\n" + MarkdownLink("Learn more about Saint " + name, link)
  }

  /** The Markdown inline link `[text](target)`. */
  function MarkdownLink(text: string, target: string): string
  {
    "[" + text + "](" + target + ")"
  }

  /** The whole text: the introduction verbatim, then a blank line and the
      prayer between emphasis marks, then another blank line, then the link
      `[Learn more about Saint <name>](<search link>)`. */
  lemma FormatLayout(name: string, intro: string, prayer: string)
    ensures var r := FormatResponse(name, intro, prayer);
      var p := |intro| + 3;
      && |r| > p + |prayer| + 3
      && r[..|intro|] == intro
      && r[|intro|..p] == "\n\n*"
      && r[p..p + |prayer|] == prayer
      && r[p + |prayer|..p + |prayer| + 3] == "*\n\n"
      && r[p + |prayer| + 3..] == "[Learn more about Saint " + name + "](" + SearchLink(name) + ")"
  {
    FormatHead(name, intro, prayer);
    FormatTail(name, intro, prayer);
  }

  /** The introduction and the emphasised prayer open the text. */
  lemma FormatHead(name: string, intro: string, prayer: string)
    ensures var r := FormatResponse(name, intro, prayer);
      var p := |intro| + 3;
      && |r| > p + |prayer| + 3
      && r[..|intro|] == intro
      && r[|intro|..p] == "\n\n*"
      && r[p..p + |prayer|] == prayer
      && r[p + |prayer|..p + |prayer| + 3] == "*\n\n"
  {
    var rest := MarkdownLink("Learn more about Saint " + name, SearchLink(name));
    assert rest[0] == '[';
    FourParts(intro, "\n\n*", prayer, "*\n\n", rest, FormatResponse(name, intro, prayer));
  }

  /** The labelled search link closes the text. */
  lemma FormatTail(name: string, intro: string, prayer: string)
    ensures var r := FormatResponse(name, intro, prayer);
      && |r| >= |intro| + |prayer| + 6
      && r[|intro| + |prayer| + 6..] == "[Learn more about Saint " + name + "](" + SearchLink(name) + ")"
  {
    var head := intro + "\n\n*" + prayer + "*\n\n";
    var rest := MarkdownLink("Learn more about Saint " + name, SearchLink(name));
    assert |head| == |intro| + |prayer| + 6;
    assert (head + rest)[|head|..] == rest;
    LabelledLink("[", "Learn more about Saint ", "[Learn more about Saint ", name, SearchLink(name));
  }

  /** Where the parts of a concatenation of four texts, the second and the
      fourth three characters long, and a tail lie. */
  lemma FourParts(a: string, b: string, c: string, d: string, e: string, r: string)
    requires |b| == 3 && |d| == 3
    requires r == a + b + c + d + e
    ensures var p := |a| + 3;
      && |r| == p + |c| + 3 + |e|
      && r[..|a|] == a
      && r[|a|..p] == b
      && r[p..p + |c|] == c
      && r[p + |c|..p + |c| + 3] == d
  {
  }

  /** The link whose label is `caption` followed by the name, written with
      the opening bracket joined to the caption; the literals are parameters
      so that the solver joins them once, as sequences. */
  lemma LabelledLink(bracket: string, caption: string, openCaption: string, name: string, target: string)
    requires bracket == "[" && caption == "Learn more about Saint "
    requires openCaption == "[Learn more about Saint "
    ensures MarkdownLink(caption + name, target) == openCaption + name + "](" + target + ")"
  {
    assert openCaption == bracket + caption;
  }

  /** The target of the Markdown link `[...](target)` that ends `md`, taken
      from the last `(` before the closing `)`. */
  function LinkTarget(md: string): (r: Option<string>)
  {
    if |md| >= 1 && md[|md| - 1] == ')' then
      var k := FindLast(md[..|md| - 1], '(');
      if k >= 1 && md[k - 1] == ']' then Some(md[k + 1..|md| - 1]) else None
    else None
  }

  /** The saint a search link of this shape is about: its query decoded
      from percent-encoding and UTF-8, less the leading `Saint `. */
  function SaintOfLink(link: string): (r: Option<string>)
  {
    if !HasPrefix(link, SearchPrefix) then None
    else
      match PercentDecode(link[|SearchPrefix|..])
      case None => None
      case Some(bytes) =>
        match Utf8.Decode(bytes)
        case None => None
        case Some(term) => if HasPrefix(term, "Saint ") then Some(term[6..]) else None
  }

  /** A text ending in a Markdown link whose target holds no `(` yields
      that target. */
  lemma LinkTargetOf(pre: string, text: string, target: string)
    requires '(' !in target
    ensures LinkTarget(pre + MarkdownLink(text, target)) == Some(target)
  {
    var head := pre + "[" + text + "]";
    assert pre + MarkdownLink(text, target) == head + "(" + target + ")";
    TrailingTarget(head, target);
  }

  /** After a text ending in `]`, a parenthesised target holding no `(` is
      the link target. */
  lemma TrailingTarget(head: string, target: string)
    requires |head| >= 1 && head[|head| - 1] == ']'
    requires '(' !in target
    ensures LinkTarget(head + "(" + target + ")") == Some(target)
  {
    var body := head + "(" + target;
    var md := body + ")";
    assert md == head + "(" + target + ")";
    assert md[..|md| - 1] == body && md[|md| - 1] == ')';
    var k := |head|;
    assert body[k] == '(' && body[k + 1..] == target;
    FindLastAt(body, '(', k);
    assert FindLast(md[..|md| - 1], '(') == k;
    assert md[k - 1] == ']';
    assert md[k + 1..|md| - 1] == target;
  }

  /** The link's query names the saint: decoding it gives back `name`. */
  lemma SaintOfSearchLink(name: string)
    ensures SaintOfLink(SearchLink(name)) == Some(name)
  {
    SearchLinkDecodes(name);
    assert SearchTerm(name)[6..] == name;
  }

  /** The saint can be read back from the displayed text: the trailing link
      target is the search link, and it names `name`, whatever `name`,
      `intro` and `prayer` contain. */
  lemma FormatRecoversSaint(name: string, intro: string, prayer: string)
    ensures LinkTarget(FormatResponse(name, intro, prayer)).Some?
    ensures SaintOfLink(LinkTarget(FormatResponse(name, intro, prayer)).value) == Some(name)
  {
    SaintOfSearchLink(name);
  }

  /** The query always opens with `Saint%20`, then the quoted name. */
  lemma SearchLinkShape(name: string)
    ensures SearchLink(name) == SearchPrefix + "Saint%20" + Quote(name)
  {
    assert SearchTerm(name) == "Saint" + " " + name;
    QuoteSpaced("Saint", name);
  }

  // The worked names below are parameters fixed by `requires name == ...`
  // rather than literals in the `ensures`: with the literal inside the
  // function application the solver unfolds the whole string and runs out
  // of resource.

  /** Spaces become `%20` and unreserved characters stay: the name
      `Anthony of Padua` gives the query `Saint%20Anthony%20of%20Padua`. */
  lemma AnthonyOfPaduaLink(name: string)
    requires name == "Anthony of Padua"
    ensures SearchLink(name) == "https://www.google.com/search?q=Saint%20Anthony%20of%20Padua"
  {
    SearchLinkShape(name);
    QuoteAnthonyOfPadua(name);
    JoinAnthonyLink(SearchPrefix, "Saint%20", Quote(name), SearchLink(name));
  }

  /** The URL of the Anthony of Padua search, joined from its three parts. */
  lemma JoinAnthonyLink(prefix: string, saint: string, query: string, link: string)
    requires prefix == "https://www.google.com/search?q=" && saint == "Saint%20"
    requires query == "Anthony%20of%20Padua" && link == prefix + saint + query
    ensures link == "https://www.google.com/search?q=Saint%20Anthony%20of%20Padua"
  {
  }

  /** The quoted name alone: three safe words joined by `%20`. */
  lemma QuoteAnthonyOfPadua(name: string)
    requires name == "Anthony of Padua"
    ensures Quote(name) == "Anthony%20of%20Padua"
  {
    assert name == "Anthony" + " " + "of" + " " + "Padua";
    QuoteWords("Anthony", "of", "Padua");
  }

  /** A name outside ASCII is sent as percent-encoded UTF-8: `Thérèse` gives
      the query `Saint%20Th%C3%A9r%C3%A8se`. */
  lemma ThereseLink(name: string)
    requires name == "Th\U{E9}r\U{E8}se"
    ensures SearchLink(name) == "https://www.google.com/search?q=Saint%20Th%C3%A9r%C3%A8se"
  {
    SearchLinkShape(name);
    QuoteTherese(name);
    JoinThereseLink(SearchPrefix, "Saint%20", Quote(name), SearchLink(name));
  }

  /** The URL of the Thérèse search, joined from its three parts. */
  lemma JoinThereseLink(prefix: string, saint: string, query: string, link: string)
    requires prefix == "https://www.google.com/search?q=" && saint == "Saint%20"
    requires query == "Th%C3%A9r%C3%A8se" && link == prefix + saint + query
    ensures link == "https://www.google.com/search?q=Saint%20Th%C3%A9r%C3%A8se"
  {
  }

  /** The quoted name alone: `Th`, `r` and `se` kept, each accent escaped. */
  lemma QuoteTherese(name: string)
    requires name == "Th\U{E9}r\U{E8}se"
    ensures Quote(name) == "Th%C3%A9r%C3%A8se"
  {
    ThereseParts(name);
    var th, e1, r, e2, se := name[..2], name[2..3], name[3..4], name[4..5], name[5..];
    QuoteFive(th, e1, r, e2, se);
    QuoteSafeString(th);
    QuoteSafeString(r);
    QuoteSafeString(se);
    QuoteAccents(e1, e2);
    JoinTherese(Quote(th), Quote(e1), Quote(r), Quote(e2), Quote(se));
  }

  /** `Thérèse` cut into its safe runs and its two accented letters, with
      the UTF-8 bytes of each accented letter. */
  lemma ThereseParts(name: string)
    requires name == "Th\U{E9}r\U{E8}se"
    ensures name == name[..2] + name[2..3] + name[3..4] + name[4..5] + name[5..]
    ensures name[..2] == "Th" && name[3..4] == "r" && name[5..] == "se"
    ensures |name[2..3]| == 1 && Utf8.EncodeChar(name[2..3][0]) == [0xC3, 0xA9]
    ensures |name[4..5]| == 1 && Utf8.EncodeChar(name[4..5][0]) == [0xC3, 0xA8]
  {
    assert |name| == 7 && name[5] == 's' && name[6] == 'e';
  }

  /** `é` and `è` quote as the escapes of their two UTF-8 bytes. */
  lemma QuoteAccents(e1: string, e2: string)
    requires |e1| == 1 && Utf8.EncodeChar(e1[0]) == [0xC3, 0xA9]
    requires |e2| == 1 && Utf8.EncodeChar(e2[0]) == [0xC3, 0xA8]
    ensures Quote(e1) == "%C3%A9" && Quote(e2) == "%C3%A8"
  {
    QuoteTwoByteChar(e1, 0xC3, 0xA9);
    QuoteTwoByteChar(e2, 0xC3, 0xA8);
    Escapes();
  }

  /** The five quoted pieces of `Thérèse` joined into its query. */
  lemma JoinTherese(a: string, b: string, c: string, d: string, e: string)
    requires a == "Th" && b == "%C3%A9" && c == "r" && d == "%C3%A8" && e == "se"
    ensures a + b + c + d + e == "Th%C3%A9r%C3%A8se"
  {
  }

  /** The escapes of the three bytes the accented letters of `Thérèse` use. */
  lemma Escapes()
    ensures QuoteByte(0xC3) == "%C3" && QuoteByte(0xA9) == "%A9" && QuoteByte(0xA8) == "%A8"
  {
  }
}
