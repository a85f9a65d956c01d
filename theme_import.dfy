/** The theme importer (`PddTrainer.ThemeImport`): decode the theme list page, read one theme per
    link under `div.b-withPddLegacyIcon`, and clean its title of the trailing question count. */
module ThemeImport {
  import opened Wrappers
  import opened Search
  import opened Text
  import opened Dom
  import opened PageDecoding

  /** `ThemeDto`. */
  datatype ThemeDto = ThemeDto(title: string, sourceUrl: string)

  function IsOpenParen(): char -> bool {
    (c: char) => c == '('
  }

  /** The title of a theme link: the trimmed text, cut before its first `(` and trimmed again
      when that `(` is not the first character ("Дорожные знаки (127 вопросов)" becomes
      "Дорожные знаки"). The title is always a prefix of the trimmed text. */
  function CleanTitle(u: CharClasses, raw: string): (r: string)
    ensures |r| <= |Trim(u, raw)| && r == Trim(u, raw)[..|r|]
  {
    var text := Trim(u, raw);
    match FirstIndex(text, IsOpenParen())
    case Some(idx) =>
      if idx > 0 then
        TrimIsPrefix(u, text[..idx]);
        Trim(u, text[..idx])
      else text
    case None => text
  }

  /** The cleaned title is a trimmed prefix of the trimmed text, empty only when that text is.
      With no `(`, or one at the very start, the trimmed text is kept whole; otherwise the title
      is shorter and holds no `(`. */
  lemma CleanTitleShape(u: CharClasses, raw: string)
    ensures var text := Trim(u, raw);
            var r := CleanTitle(u, raw);
            && |r| <= |text| && r == text[..|r|]
            && IsTrimmed(u, r)
            && (r == "" <==> text == "")
            && ('(' !in text || text[0] == '(' ==> r == text)
            && ('(' in text && text[0] != '(' ==> |r| < |text| && '(' !in r)
  {
    var text := Trim(u, raw);
    TrimIsTrimmed(u, raw);
    match FirstIndex(text, IsOpenParen())
    case None =>
      assert forall i :: 0 <= i < |text| ==> text[i] != '(';
    case Some(idx) =>
      if idx > 0 {
        CutTitleShape(u, text, idx);
      }
  }

  /** Cutting a trimmed text before a `(` that is not its first character and trimming again
      leaves a non-empty, trimmed, strictly shorter prefix free of `(`. */
  lemma CutTitleShape(u: CharClasses, text: string, idx: nat)
    requires IsTrimmed(u, text)
    requires 0 < idx < |text| && text[idx] == '('
    requires forall i :: 0 <= i < idx ==> text[i] != '('
    ensures var r := Trim(u, text[..idx]);
            && |r| < |text| && r == text[..|r|] && r != ""
            && IsTrimmed(u, r) && '(' !in r
  {
    var head := text[..idx];
    TrimIsPrefix(u, head);
    TrimIsTrimmed(u, head);
    var r := Trim(u, head);
    assert |r| <= |head|;
    assert r == text[..|r|];
    assert forall i :: 0 <= i < |r| ==> r[i] != '(';
  }

  /** The theme one link yields: the cleaned `InnerText` and the trimmed `href` (empty when
      absent), not resolved against the page's address. */
  function ThemeFor(u: CharClasses, n: Node): ThemeDto {
    ThemeDto(CleanTitle(u, InnerText(n)), Trim(u, Attr(n, "href")))
  }

  function ThemeOf(u: CharClasses): Node -> ThemeDto {
    (n: Node) => ThemeFor(u, n)
  }

  /** The themes `Main` collects, one per link in document order; none when the selection
      matches nothing (`SelectNodes` returns null and the `if (nodes != null)` guard skips the
      loop). */
  function ThemesOf(u: CharClasses, nodes: Option<seq<Node>>): seq<ThemeDto> {
    match nodes
    case None => []
    case Some(ns) => Map(ns, ThemeOf(u))
  }

  /** The `foreach` over `SelectNodes("//div[@class='b-withPddLegacyIcon']/a")`, appending a
      theme per link. */
  method ExtractThemes(u: CharClasses, nodes: Option<seq<Node>>) returns (themes: seq<ThemeDto>)
    ensures themes == ThemesOf(u, nodes)
  {
    themes := [];
    if nodes.None? {
      return;
    }
    var ns := nodes.value;
    for i := 0 to |ns|
      invariant themes == Map(ns[..i], ThemeOf(u))
    {
      MapSnoc(ns, ThemeOf(u), i);
      var title := CleanTitle(u, InnerText(ns[i]));
      var url := Trim(u, Attr(ns[i], "href"));
      themes := themes + [ThemeDto(title, url)];
    }
    assert ns[..|ns|] == ns;
  }

  /** Each selected link yields exactly one theme, in order: its title is the cleaned link text,
      trimmed and free of the trailing `(…)` count, and its address is the trimmed `href`. */
  lemma ThemesOfLinks(u: CharClasses, ns: seq<Node>, i: nat)
    requires i < |ns|
    ensures var r := ThemesOf(u, Some(ns));
            && |r| == |ns|
            && r[i].title == CleanTitle(u, InnerText(ns[i]))
            && r[i].sourceUrl == Trim(u, Attr(ns[i], "href"))
            && IsTrimmed(u, r[i].title) && IsTrimmed(u, r[i].sourceUrl)
            && (r[i].title == "" <==> IsBlank(u, InnerText(ns[i])))
  {
    var raw := InnerText(ns[i]);
    CleanTitleShape(u, raw);
    TrimIsTrimmed(u, raw);
    TrimIsTrimmed(u, Attr(ns[i], "href"));
  }

  /** Lines 54-70: the page text, from the declared charset when it is not blank and decoding
      with it does not throw, else from `TryDecodeWithFallbacks`. */
  method DecodeThemesPage(u: CharClasses, c: Codecs, decodeWith: (string, seq<byte>) -> Option<string>,
                          charset: Option<string>, bytes: seq<byte>) returns (html: string)
    ensures html == ThemesPageText(u, c, decodeWith, charset, bytes)
  {
    if !IsNullOrWhiteSpace(u, charset) {
      var decoded := decodeWith(charset.value, bytes);
      if decoded.Some? {
        return decoded.value;
      }
    }
    html := TryDecodeWithFallbacks(u, c, bytes);
  }

  /** What `Main` posts: nothing when the page download throws; otherwise the themes read from
      the decoded page. `select` is HtmlAgilityPack's parse and link selection. */
  function ImportedThemes(u: CharClasses, c: Codecs, decodeWith: (string, seq<byte>) -> Option<string>,
                          select: string -> Option<seq<Node>>, page: Option<seq<byte>>, charset: Option<string>): seq<ThemeDto>
  {
    match page
    case None => []
    case Some(bytes) => ThemesOf(u, select(ThemesPageText(u, c, decodeWith, charset, bytes)))
  }

  /** `Main` up to the posting loop. */
  method ImportThemes(u: CharClasses, c: Codecs, decodeWith: (string, seq<byte>) -> Option<string>,
                      select: string -> Option<seq<Node>>, page: Option<seq<byte>>, charset: Option<string>)
    returns (themes: seq<ThemeDto>)
    ensures themes == ImportedThemes(u, c, decodeWith, select, page, charset)
  {
    if page.None? {
      return [];
    }
    var html := DecodeThemesPage(u, c, decodeWith, charset, page.value);
    themes := ExtractThemes(u, select(html));
  }
}
