/**
 * The older entry point index.js, kept beside the rewrite: its own `wiki`
 * action, `wiki.link`, a middleware that follows only the first link and the
 * first template of a message, and the URL resolution of `wiki.parse`. Its
 * endpoint links go through util/getUrl.js, which encodes with `qs`.
 */
module Legacy {
  import opened Wrappers
  import opened Strings
  import opened Lists
  import opened Brackets
  import opened Wikilinks
  import opened Endpoint
  import opened Bindings
  import opened Resolution
  import WikiCommand
  import Middleware

  /** The extract limit of the legacy action. */
  const LEGACY_INTRO_LIMIT: nat := 150

  const NOT_LINKED := "本群未连接到 MediaWiki 网站，请使用“wiki.link <api网址>”进行连接。"

  // ---------------------------------------------------------------------------
  // The `wiki [title]` action (index.js:32-109)
  // ---------------------------------------------------------------------------

  /** The reply when the query gave no result: the request's error, if any, after a colon. */
  function FailureText(error: string): (r: string)
    ensures StartsWith(r, "出现了亿点问题") && EndsWith(r, "。")
    ensures error == "" <==> |r| == |"出现了亿点问题。"|
    ensures error != "" ==> r == "出现了亿点问题：" + error + "。"
  {
    "出现了亿点问题" + (if error != "" then "：" + error else "") + "。"
  }

  /** The redirect line: unlike the rewrite, it never shows the target fragment. */
  function LegacyRedirectLine(rd: Redirect): string {
    "重定向：[" + rd.from + "] → [" + rd.to + "]"
  }

  /**
   * `getUrl(mwApi, { curid: pageid })`: `qs` drops a key whose value is
   * undefined, so a page without an id links to the bare script and `?`.
   */
  function LegacyPageUrl(host: Host, mwApi: string, page: PageInfo): (r: string)
    ensures page.pageid.Some? ==> r == GetUrlQs(host, mwApi, [("curid", NumberString(page.pageid.value))], None)
    ensures page.pageid.None? ==> r == Rewrite(mwApi, None) + "?"
  {
    match page.pageid
    case Some(id) => GetUrlQs(host, mwApi, [("curid", NumberString(id))], None)
    case None => Rewrite(mwApi, None) + "?"
  }

  /** The header and, when the query followed a redirect, the redirect line. */
  function LegacyHead(q: QueryResult): seq<string>
    requires q.pages != []
  {
    [WikiCommand.HeaderLine(Some(q.pages[0]))]
    + (if q.redirects != [] then [LegacyRedirectLine(q.redirects[0])] else [])
  }

  /** The line of the first branch that holds: invalid, then missing, then the page link. */
  function LegacyBranchLine(host: Host, mwApi: string, page: PageInfo): string {
    if page.invalid then "页面名称不合法：" + (if page.invalidreason != "" then page.invalidreason else "原因未知")
    else if page.missing then WikiCommand.EditUrlText(page) + " (页面不存在)"
    else LegacyPageUrl(host, mwApi, page)
  }

  /** The extract line, if any: the trimmed paragraph text, cut at 150 characters. */
  function LegacyIntro(text: string): seq<string> {
    if Trim(text) != "" then [WikiCommand.Truncate(Trim(text), LEGACY_INTRO_LIMIT)] else []
  }

  /**
   * The lines of the reply to a query result. `pages` is in the order
   * `Object.keys` lists them; `parsed` is the text of the page's top-level
   * paragraphs, or `None` when the parse request gave no `parse` object, in
   * which case the logging line reads `parse.text` and throws. An empty
   * `pages` makes the destructuring of `thisPage` throw.
   */
  function LegacyLines(host: Host, mwApi: string, q: QueryResult, details: bool, parsed: Option<string>)
    : Result<seq<string>>
  {
    if q.interwiki != [] then Ok(["跨语言链接：" + q.interwiki[0].url])
    else if q.pages == [] then Thrown("TypeError: thisPage is undefined")
    else
      var page := q.pages[0];
      var lines := LegacyHead(q) + [LegacyBranchLine(host, mwApi, page)];
      if page.invalid || page.missing || !details then Ok(lines)
      else if parsed.None? then Thrown("TypeError: parse is undefined")
      else Ok(lines + LegacyIntro(parsed.value))
  }

  /**
   * The shape of a legacy reply about a page: the header, the redirect line
   * exactly when there was a redirect, the line of the first branch among
   * invalid, missing and normal, and an extract of at most 153 characters
   * only for a normal page asked with `-d`.
   */
  lemma LegacyLinesShape(host: Host, mwApi: string, q: QueryResult, details: bool, parsed: Option<string>)
    requires q.interwiki == [] && q.pages != []
    requires LegacyLines(host, mwApi, q, details, parsed).Ok?
    ensures var lines := LegacyLines(host, mwApi, q, details, parsed).value;
      var page := q.pages[0];
      var k := if q.redirects != [] then 2 else 1;
      && |lines| > k
      && lines[0] == "您要的“" + WikiCommand.TitleText(Some(page)) + "”："
      && (q.redirects != [] ==> lines[1] == "重定向：[" + q.redirects[0].from + "] → [" + q.redirects[0].to + "]")
      && (page.invalid ==> lines[k] == "页面名称不合法：" + (if page.invalidreason != "" then page.invalidreason else "原因未知"))
      && (!page.invalid && page.missing ==> lines[k] == WikiCommand.EditUrlText(page) + " (页面不存在)")
      && (!page.invalid && !page.missing ==> lines[k] == LegacyPageUrl(host, mwApi, page))
      && |lines| <= k + 2
      && (|lines| == k + 2 <==> !page.invalid && !page.missing && details && Trim(parsed.value) != "")
      && (|lines| == k + 2 ==> |lines[k + 1]| <= LEGACY_INTRO_LIMIT + 3 && lines[k + 1] != "")
  {
    var lines := LegacyLines(host, mwApi, q, details, parsed).value;
    var head := LegacyHead(q);
    var k := if q.redirects != [] then 2 else 1;
    assert |head| == k;
    var page := q.pages[0];
    var line := LegacyBranchLine(host, mwApi, page);
    var tail := if page.invalid || page.missing || !details then [] else LegacyIntro(parsed.value);
    assert lines == head + [line] + tail;
    assert lines[0] == head[0];
    assert lines[k] == line;
    if tail != [] {
      assert lines[k + 1] == tail[0];
      WikiCommand.PageIntroEmptyIff(Ok(parsed.value), LEGACY_INTRO_LIMIT);
    }
  }

  /** A normal page asked with `-d` and a parse request that gave nothing makes the legacy action throw. */
  lemma MissingParseThrows(host: Host, mwApi: string, q: QueryResult)
    requires q.interwiki == [] && q.pages != [] && !q.pages[0].invalid && !q.pages[0].missing
    ensures LegacyLines(host, mwApi, q, true, None).Thrown?
    ensures LegacyLines(host, mwApi, q, false, None).Ok?
  {
  }

  /**
   * The legacy `wiki [title]` action. `query` is the `query` field of the
   * response (`None` when absent) and `error` its `error` field as printed
   * (`""` when absent); the reply is the quote segment and the lines.
   */
  method LegacyWiki(host: Host, mwApi: string, title: string, quiet: bool, details: bool,
                    query: Option<QueryResult>, error: string, parsed: Option<string>, quote: string)
    returns (r: Result<Reply>, lines: seq<string>)
    ensures mwApi == "" ==> r == Ok(if quiet then Say("") else Execute("wiki.link"))
    ensures mwApi != "" && title == "" ==> r == Ok(Say(GetUrlQs(host, mwApi, [], None)))
    ensures mwApi != "" && title != "" && query.None? ==> r == Ok(Say(FailureText(error)))
    ensures mwApi != "" && title != "" && query.Some? ==>
      match LegacyLines(host, mwApi, query.value, details, parsed)
      case Thrown(e) => r == Thrown(e)
      case Ok(ls) => lines == ls && r == Ok(Say(quote + Join(lines, "\n")))
  {
    lines := [];
    if mwApi == "" {
      return Ok(if quiet then Say("") else Execute("wiki.link")), lines;
    }
    if title == "" {
      return Ok(Say(GetUrlQs(host, mwApi, [], None))), lines;
    }
    if query.None? {
      return Ok(Say(FailureText(error))), lines;
    }
    var q := query.value;
    if q.interwiki != [] {
      lines := lines + ["跨语言链接：" + q.interwiki[0].url];
    } else {
      if q.pages == [] {
        return Thrown("TypeError: thisPage is undefined"), lines;
      }
      var thisPage := q.pages[0];
      lines := lines + ["您要的“" + WikiCommand.TitleText(Some(thisPage)) + "”："];
      if q.redirects != [] {
        lines := lines + ["重定向：[" + q.redirects[0].from + "] → [" + q.redirects[0].to + "]"];
      }
      assert lines == LegacyHead(q);
      if thisPage.invalid {
        var reason := if thisPage.invalidreason != "" then thisPage.invalidreason else "原因未知";
        lines := lines + ["页面名称不合法：" + reason];
      } else if thisPage.missing {
        lines := lines + [WikiCommand.EditUrlText(thisPage) + " (页面不存在)"];
      } else {
        lines := lines + [LegacyPageUrl(host, mwApi, thisPage)];
        if details {
          if parsed.None? {
            return Thrown("TypeError: parse is undefined"), lines;
          }
          var extract := Trim(parsed.value);
          if extract != "" {
            lines := lines + [WikiCommand.Truncate(extract, LEGACY_INTRO_LIMIT)];
          }
        }
      }
    }
    r := Ok(Say(quote + Join(lines, "\n")));
  }

  // ---------------------------------------------------------------------------
  // `wiki.link [api]` (index.js:111-130)
  // ---------------------------------------------------------------------------

  /**
   * The legacy `wiki.link` on a channel: without an argument it reports the
   * binding; a valid endpoint becomes the binding and the command reruns
   * itself; anything else is rejected and the binding stays as it was.
   */
  method LegacyLink(host: Host, channel: Chat, api: string) returns (reply: Reply)
    modifies channel
    ensures channel.mwFlag == old(channel.mwFlag)
    ensures api == "" ==> channel.mwApi == old(channel.mwApi) && reply == Say(
      if old(channel.mwApi) != "" then "本群已与 " + old(channel.mwApi) + " 连接。" else NOT_LINKED)
    ensures api != "" && IsValidApi(host, api) ==> channel.mwApi == api && reply == Execute("wiki.link")
    ensures api != "" && !IsValidApi(host, api) ==> channel.mwApi == old(channel.mwApi) && reply == Say(INVALID_API)
  {
    if api == "" {
      reply := Say(if channel.mwApi != "" then "本群已与 " + channel.mwApi + " 连接。" else NOT_LINKED);
    } else if IsValidApi(host, api) {
      channel.mwApi := api;
      reply := Execute("wiki.link");
    } else {
      reply := Say(INVALID_API);
    }
  }

  // ---------------------------------------------------------------------------
  // The shortcut middleware (index.js:170-182)
  // ---------------------------------------------------------------------------

  /** Exchanges `{` with `[` and `}` with `]`. */
  function SwapChar(c: char): char {
    if c == '{' then '[' else if c == '[' then '{'
    else if c == '}' then ']' else if c == ']' then '}'
    else c
  }

  function SwapBraces(s: string): (r: string)
    ensures |r| == |s|
    ensures forall i :: 0 <= i < |s| ==> r[i] == SwapChar(s[i])
  {
    seq(|s|, i requires 0 <= i < |s| => SwapChar(s[i]))
  }

  /** The swap undoes itself. */
  lemma SwapBracesTwice(s: string)
    ensures SwapBraces(SwapBraces(s)) == s
  {
  }

  /**
   * The captures of `{{(.+?)(?:\|.*)?}}`. That expression is the link
   * expression with its delimiters exchanged, and the exchange leaves `|` and
   * the line terminators alone, so its captures in `s` are the link captures
   * in the swapped text, swapped back.
   */
  function TemplateCaptures(s: string): (r: seq<string>)
    ensures |r| == |PipedCaptures(SwapBraces(s))|
    ensures forall i :: 0 <= i < |r| ==> r[i] != [] && SwapBraces(r[i]) == PipedCaptures(SwapBraces(s))[i]
  {
    var caps := PipedCaptures(SwapBraces(s));
    seq(|caps|, i requires 0 <= i < |caps| => SwapBraces(caps[i]))
  }

  /**
   * The commands the legacy middleware runs for a message: one for the first
   * link, then one with `--details` for the first template.
   */
  function LegacyShortcut(content: string): (r: seq<string>)
    ensures var links := PipedCaptures(ResolveBrackets(content));
      var templates := TemplateCaptures(ResolveBrackets(content));
      && |r| == (if links != [] then 1 else 0) + (if templates != [] then 1 else 0)
      && (links != [] ==> r[0] == "wiki --quiet " + links[0])
      && (templates != [] ==> r[|r| - 1] == "wiki --quiet --details " + templates[0])
  {
    var s := ResolveBrackets(content);
    var links := PipedCaptures(s);
    var templates := TemplateCaptures(s);
    (if links != [] then ["wiki --quiet " + links[0]] else [])
    + (if templates != [] then ["wiki --quiet --details " + templates[0]] else [])
  }

  /** A text without `[` has no link. */
  lemma {:induction false} NoOpenNoLinks(s: string)
    requires '[' !in s
    ensures PipedCaptures(s) == []
    decreases |s|
  {
    if |s| >= 2 {
      assert s[0] != OPEN[0];
      NoOpenNoLinks(s[1..]);
    }
  }

  /** The first title of the current middleware is its first capture. */
  lemma FirstTitleIsFirstCapture(content: string)
    requires Middleware.ShortcutTitles(content) != []
    ensures Middleware.ShortcutTitles(content)[0] == PipedCaptures(ResolveBrackets(content))[0]
  {
    var r := Middleware.ShortcutTitles(content);
    var caps := PipedCaptures(ResolveBrackets(content));
    assert r[0] in caps;
    assert caps[0] in caps;
    var j :| 0 <= j < |r| && r[j] == caps[0];
    assert FirstIndex(caps, r[j]) == 0;
    assert FirstIndex(caps, r[0]) <= FirstIndex(caps, r[j]);
  }

  /**
   * Without templates, the legacy middleware queries only the first of the
   * titles the current middleware queries.
   */
  lemma LegacyFollowsFirstTitle(content: string)
    requires '{' !in ResolveBrackets(content)
    ensures var titles := Middleware.ShortcutTitles(content);
      LegacyShortcut(content) == (if titles == [] then [] else ["wiki --quiet " + titles[0]])
  {
    var s := ResolveBrackets(content);
    assert '[' !in SwapBraces(s);
    NoOpenNoLinks(SwapBraces(s));
    var titles := Middleware.ShortcutTitles(content);
    var r := LegacyShortcut(content);
    if titles != [] {
      FirstTitleIsFirstCapture(content);
      assert r == [r[0]];
    } else {
      var caps := PipedCaptures(s);
      assert forall t :: t in caps <==> t in titles;
      assert caps == [];
    }
  }

  /** A template with a parameter, followed by another on its line: only the first template's name is queried, with `--details`. */
  lemma PipedTemplateSwallowsLaterTemplates(a: char, b: char, c: char)
    requires Plain(a) && Plain(b) && Plain(c)
    requires a !in "{}&" && b !in "{}&" && c !in "{}&"
    ensures LegacyShortcut(['{', '{', a, '|', b, '}', '}', ' ', '{', '{', c, '}', '}']) == ["wiki --quiet --details " + [a]]
  {
    var s := ['{', '{', a, '|', b, '}', '}', ' ', '{', '{', c, '}', '}'];
    Middleware.NoAmpersandNoEntity(s);
    ResolveBracketsPlain(s);
    assert '[' !in s;
    NoOpenNoLinks(s);
    TemplateExample(a, b, c);
  }

  /** The template captures of a piped template followed by another: the first template's name alone. */
  lemma TemplateExample(a: char, b: char, c: char)
    requires Plain(a) && Plain(b) && Plain(c)
    requires a !in "{}" && b !in "{}" && c !in "{}"
    ensures TemplateCaptures(['{', '{', a, '|', b, '}', '}', ' ', '{', '{', c, '}', '}']) == [[a]]
  {
    var s := ['{', '{', a, '|', b, '}', '}', ' ', '{', '{', c, '}', '}'];
    SwappedExample(a, b, c);
    PipedLinkSwallowsLaterLinks(a, b, c);
    var templates := TemplateCaptures(s);
    SwapBracesTwice(templates[0]);
    assert SwapBraces([a]) == [a];
  }

  /** Exchanging the delimiters of two templates gives two links. */
  lemma SwappedExample(a: char, b: char, c: char)
    requires Plain(a) && Plain(b) && Plain(c)
    requires a !in "{}" && b !in "{}" && c !in "{}"
    ensures SwapBraces(['{', '{', a, '|', b, '}', '}', ' ', '{', '{', c, '}', '}'])
         == ['[', '[', a, '|', b, ']', ']', ' ', '[', '[', c, ']', ']']
  {
  }

  // ---------------------------------------------------------------------------
  // `resolveUrl` in `wiki.parse` (index.js:231-253)
  // ---------------------------------------------------------------------------

  function Upper(s: string): (r: string)
    ensures |r| == |s| && forall i :: 0 <= i < |s| ==> r[i] == UpperChar(s[i])
  {
    seq(|s|, i requires 0 <= i < |s| => UpperChar(s[i]))
  }

  /** `/^(https?:)?\/\//i`: `//`, or `http://` or `https://` in any letter case, at the start. */
  predicate IsAbsoluteUrl(s: string) {
    StartsWith(s, "//")
    || (|s| >= 7 && Upper(s[..7]) == "HTTP://")
    || (|s| >= 8 && Upper(s[..8]) == "HTTPS://")
  }

  /**
   * `d` is the directory of `path`: it ends with `/` and, when `path` holds a
   * `/`, it is the prefix of `path` up to and including its last `/`;
   * otherwise it is `/` alone.
   */
  predicate IsDirectoryOf(d: string, path: string) {
    EndsWith(d, "/")
    && ('/' in path ==> StartsWith(path, d) && '/' !in path[|d|..])
    && ('/' !in path ==> d == "/")
  }

  /** Joining with one more piece puts the separator in front of it. */
  lemma {:induction false} JoinSnoc(xs: seq<string>, y: string, sep: string)
    requires xs != []
    ensures Join(xs + [y], sep) == Join(xs, sep) + sep + y
    decreases |xs|
  {
    if |xs| > 1 {
      assert (xs + [y])[1..] == xs[1..] + [y];
      JoinSnoc(xs[1..], y, sep);
    }
  }

  /**
   * The directory of a pathname as the source computes it: a path ending in
   * `/` is kept; otherwise its last `/`-piece is popped and the rest joined
   * back, followed by `/`.
   */
  function Directory(path: string): (d: string)
    ensures IsDirectoryOf(d, path)
  {
    if EndsWith(path, "/") then
      assert path[|path| - 1..][0] == '/';
      path
    else
      var pieces := Split(path, "/");
      var n := |pieces|;
      var d := Join(pieces[..n - 1], "/") + "/";
      SplitJoin(path, "/");
      SplitPiecesFree(path, "/");
      var last := pieces[n - 1];
      CharContains(last, '/');
      if n == 1 then
        assert path == last;
        d
      else
        assert pieces == pieces[..n - 1] + [last];
        JoinSnoc(pieces[..n - 1], last, "/");
        assert path == d + last;
        assert path[..|d|] == d && path[|d|..] == last;
        d
  }

  /** The pieces of `origin + d + url` are where the relative branch of `resolveUrl` put them. */
  lemma RelativeParts(origin: string, d: string, url: string)
    ensures var s := origin + d + url;
      |s| >= |origin| + |url| && StartsWith(s, origin) && EndsWith(s, url) && s[|origin|..|s| - |url|] == d
  {
    var s := origin + d + url;
    assert s[..|origin|] == origin;
    assert s[|s| - |url|..] == url;
    assert s[|origin|..|s| - |url|] == d;
  }

  /**
   * The legacy `resolveUrl`: the address of the blank special page is parsed
   * first (and its failure throws); an absolute or scheme-relative URL is
   * kept, a root-relative one gets the site's origin, and any other gets the
   * origin and the directory of the blank page's path.
   */
  method ResolveUrl(host: Host, mwApi: string, url: string) returns (r: Result<string>)
    ensures var page := host.parseUrl(GetUrlQs(host, mwApi, [("title", "special:blankpage")], None));
      && (page.None? ==> r.Thrown?)
      && (page.Some? && IsAbsoluteUrl(url) ==> r == Ok(url))
      && (page.Some? && !IsAbsoluteUrl(url) && StartsWith(url, "/") ==> r == Ok(page.value.origin + url))
      && (page.Some? && !IsAbsoluteUrl(url) && !StartsWith(url, "/") ==>
            && r.Ok?
            && |r.value| >= |page.value.origin| + |url|
            && StartsWith(r.value, page.value.origin)
            && EndsWith(r.value, url)
            && IsDirectoryOf(r.value[|page.value.origin|..|r.value| - |url|], page.value.pathname))
  {
    var thisUrl := host.parseUrl(GetUrlQs(host, mwApi, [("title", "special:blankpage")], None));
    if thisUrl.None? {
      return Thrown("TypeError: Invalid URL");
    }
    var origin := thisUrl.value.origin;
    var newOne := url;
    if !IsAbsoluteUrl(url) {
      if StartsWith(url, "/") {
        newOne := origin + url;
      } else {
        var path := Directory(thisUrl.value.pathname);
        newOne := origin + path + url;
        RelativeParts(origin, path, url);
      }
    }
    r := Ok(newOne);
  }
}
