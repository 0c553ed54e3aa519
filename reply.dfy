/**
 * The `wiki` command of src/index.ts once the page has been looked up: the
 * choice of reply branch, the anchor, the fallback search, and the page
 * intro with its truncation. The lookup itself (`getPageSafe`) and the intro
 * text extracted from the rendered page are inputs.
 */
module WikiCommand {
  import opened Wrappers
  import opened Strings
  import opened Endpoint
  import opened Bindings
  import opened Resolution

  /** The `-d`, `-q` and `-s` options; an absent `-s` is `None`. */
  datatype WikiOptions = WikiOptions(details: bool, quiet: bool, search: Option<bool>)

  /**
   * What the command does: the reply, whether the search results follow it
   * (the missing-page fallback), and the page whose infobox is shot in the
   * background.
   */
  datatype WikiOutcome = WikiOutcome(reply: Reply, searchAfter: bool, infoboxUrl: Option<string>)

  /** The line after the header and the redirect line. */
  datatype Branch = InvalidTitle | SpecialPage | MissingPage | NormalPage

  /** The default `limit` of `getPageIntro`. */
  const INTRO_LIMIT: nat := 150

  const ERROR_REPLY := "出现了亿点问题。"

  /**
   * `text.length > limit ? text.slice(0, limit) + '...' : text`: a text over
   * the limit keeps its first `limit` characters and gains `...`.
   */
  function Truncate(text: string, limit: nat): (r: string)
    ensures |r| <= limit + 3
    ensures |text| <= limit ==> r == text
    ensures |text| > limit ==> |r| == limit + 3 && r[..limit] == text[..limit] && r[limit..] == "..."
  {
    if |text| > limit then text[..limit] + "..." else text
  }

  /**
   * A truncated text equals the original exactly when the original was within
   * the limit, or when it was three characters over and those three were `...`.
   */
  lemma TruncateUnchangedIff(text: string, limit: nat)
    ensures Truncate(text, limit) == text <==> |text| <= limit || (|text| == limit + 3 && text[limit..] == "...")
  {
    var r := Truncate(text, limit);
    if |text| > limit && r == text {
      assert text[limit..] == r[limit..];
    }
    if |text| == limit + 3 && text[limit..] == "..." {
      assert text == text[..limit] + text[limit..];
    }
  }

  /** Truncating twice at the same limit truncates once, unless the first cut left a text still over the limit. */
  lemma TruncateKeepsShort(text: string, limit: nat)
    ensures |text| <= limit ==> Truncate(Truncate(text, limit), limit) == text
    ensures Truncate(text, limit) != text ==> |text| > limit && StartsWith(Truncate(text, limit), text[..limit])
  {
  }

  /**
   * `getPageIntro`: the trimmed text of the page's top-level paragraphs,
   * truncated; `""` when the parse request or the extraction throws.
   */
  function PageIntro(extracted: Result<string>, limit: nat): (r: string)
    ensures extracted.Thrown? ==> r == ""
    ensures extracted.Ok? ==> r == Truncate(Trim(extracted.value), limit)
  {
    match extracted
    case Thrown(_) => ""
    case Ok(text) => Truncate(Trim(text), limit)
  }

  /** A blank extraction gives no intro; any other gives a non-empty one of at most `limit + 3` characters. */
  lemma PageIntroEmptyIff(extracted: Result<string>, limit: nat)
    ensures PageIntro(extracted, limit) == "" <==> extracted.Thrown? || Trim(extracted.value) == ""
    ensures |PageIntro(extracted, limit)| <= limit + 3
  {
  }

  /** `${page?.title}`: the title, or `undefined` when there is no page or no title. */
  function TitleText(page: Option<PageInfo>): string {
    if page.Some? && page.value.title.Some? then page.value.title.value else "undefined"
  }

  /** `${page.editurl}`: the edit link, or `undefined` when the page has none. */
  function EditUrlText(page: PageInfo): string {
    if page.editurl.Some? then page.editurl.value else "undefined"
  }

  /** `page?.pageid` as `URLSearchParams` prints it. */
  function PageIdText(page: Option<PageInfo>): string {
    if page.Some? && page.value.pageid.Some? then NumberString(page.value.pageid.value) else "undefined"
  }

  /** The branch is the first of invalid, special and missing that the page has, else normal. */
  function BranchOf(page: Option<PageInfo>): (b: Branch)
    ensures b == InvalidTitle <==> page.Some? && page.value.invalid
    ensures b == SpecialPage <==> page.Some? && !page.value.invalid && page.value.special
    ensures b == MissingPage <==> page.Some? && !page.value.invalid && !page.value.special && page.value.missing
    ensures b == NormalPage <==> page.None? || (!page.value.invalid && !page.value.special && !page.value.missing)
  {
    if page.Some? && page.value.invalid then InvalidTitle
    else if page.Some? && page.value.special then SpecialPage
    else if page.Some? && page.value.missing then MissingPage
    else NormalPage
  }

  /** The anchor the title asks for: `#` and the encoded text between its first and second `#`, if it has a `#`. */
  function TitleAnchor(host: Host, title: string): string {
    var pieces := Split(title, "#");
    if |pieces| > 1 then "#" + host.encodeUri(pieces[1]) else ""
  }

  /** The anchor of the reply: a redirect's target fragment replaces the title's own. */
  function Anchor(host: Host, titleAnchor: string, redirect: Option<Redirect>): (r: string)
    ensures redirect.Some? && redirect.value.tofragment != "" ==> r == "#" + host.encodeUri(redirect.value.tofragment)
    ensures redirect.None? || redirect.value.tofragment == "" ==> r == titleAnchor
  {
    if redirect.Some? && redirect.value.tofragment != "" then "#" + host.encodeUri(redirect.value.tofragment)
    else titleAnchor
  }

  /** Whether a missing page triggers the search: the `-s` option when given, else the search bit of the flag. */
  function GoSearch(options: WikiOptions, mwFlag: int): (b: bool)
    ensures options.search.Some? ==> b == options.search.value
    ensures options.search.None? ==> b == HasFlag(mwFlag, SEARCH_NON_EXIST)
  {
    match options.search
    case Some(s) => s
    case None => HasFlag(mwFlag, SEARCH_NON_EXIST)
  }

  function HeaderLine(page: Option<PageInfo>): string {
    "您要的“" + TitleText(page) + "”："
  }

  function RedirectLine(rd: Redirect): string {
    "重定向：[" + rd.from + "] → [" + rd.to + (if rd.tofragment != "" then "#" + rd.tofragment else "") + "]"
  }

  function InterwikiLine(iw: Interwiki, anchor: string): string {
    "跨语言链接：" + iw.url + anchor
  }

  /** The link to a page by its id. */
  function PageUrl(host: Host, mwApi: string, page: Option<PageInfo>): string {
    GetUrlForm(host, mwApi, [("curid", PageIdText(page))], None)
  }

  /** The line of each branch. */
  function BranchLine(host: Host, mwApi: string, page: Option<PageInfo>, anchor: string, goSearch: bool): string {
    match BranchOf(page)
    case InvalidTitle =>
      "页面名称不合法：" + (if page.value.invalidreason != "" then page.value.invalidreason else "原因未知")
    case SpecialPage =>
      GetUrlForm(host, mwApi, [("title", TitleText(page))], None) + anchor
      + " (" + (if page.value.missing then "不存在的" else "") + "特殊页面)"
    case MissingPage =>
      EditUrlText(page.value) + (if goSearch then " (页面不存在，以下是搜索结果)" else " (页面不存在)")
    case NormalPage =>
      PageUrl(host, mwApi, page) + anchor
  }

  /** The reply text: the lines joined by newlines, after the quote of the message in a group. */
  function Assemble(lines: seq<string>, quote: string): string {
    quote + Join(lines, "\n")
  }

  /**
   * The lines of the reply about a page: the header, the redirect line when
   * there was a redirect, the branch line and, for a normal page with `-d`,
   * the intro when there is one.
   */
  function PageLines(host: Host, mwApi: string, mwFlag: int, titleAnchor: string, options: WikiOptions,
                     redirect: Option<Redirect>, page: Option<PageInfo>, intro: string): seq<string>
  {
    [HeaderLine(page)]
    + (if redirect.Some? then [RedirectLine(redirect.value)] else [])
    + [BranchLine(host, mwApi, page, Anchor(host, titleAnchor, redirect), GoSearch(options, mwFlag))]
    + (if BranchOf(page) == NormalPage && options.details && intro != "" then [intro] else [])
  }

  /** The lines of the reply to a completed lookup: a single line for an interwiki, else the page lines. */
  function QueryLines(host: Host, mwApi: string, mwFlag: int, title: string, options: WikiOptions,
                      lk: Lookup, intro: string): seq<string>
  {
    if lk.interwiki.Some? then [InterwikiLine(lk.interwiki.value, TitleAnchor(host, title))]
    else PageLines(host, mwApi, mwFlag, TitleAnchor(host, title), options, lk.redirect, lk.page, intro)
  }

  /**
   * The shape of the page lines: the header comes first, the redirect line
   * second exactly when there was a redirect, then the one branch line, and
   * only a normal page with `-d` and an intro adds a line after it.
   */
  lemma PageLinesShape(host: Host, mwApi: string, mwFlag: int, titleAnchor: string, options: WikiOptions,
                       redirect: Option<Redirect>, page: Option<PageInfo>, intro: string)
    ensures var lines := PageLines(host, mwApi, mwFlag, titleAnchor, options, redirect, page, intro);
      var k := if redirect.Some? then 2 else 1;
      && |lines| > k
      && lines[0] == HeaderLine(page)
      && (redirect.Some? ==> lines[1] == RedirectLine(redirect.value))
      && lines[k] == BranchLine(host, mwApi, page, Anchor(host, titleAnchor, redirect), GoSearch(options, mwFlag))
      && lines[k + 1..] == (if BranchOf(page) == NormalPage && options.details && intro != "" then [intro] else [])
  {
    var head: seq<string> := [HeaderLine(page)] + (if redirect.Some? then [RedirectLine(redirect.value)] else []);
    var line := BranchLine(host, mwApi, page, Anchor(host, titleAnchor, redirect), GoSearch(options, mwFlag));
    var tail: seq<string> := if BranchOf(page) == NormalPage && options.details && intro != "" then [intro] else [];
    var k := if redirect.Some? then 2 else 1;
    assert |head| == k;
    var lines := head + [line] + tail;
    assert lines == PageLines(host, mwApi, mwFlag, titleAnchor, options, redirect, page, intro);
    assert lines[..k] == head;
    assert lines[k] == line;
    assert lines[k + 1..] == tail;
  }

  /**
   * The part of the action that answers about a page (src/index.ts:279-311):
   * it pushes the header and the redirect line, lets a target fragment
   * replace the anchor, and pushes the line of the first branch that holds.
   */
  method AnswerPage(host: Host, mwApi: string, mwFlag: int, titleAnchor: string, options: WikiOptions,
                    redirect: Option<Redirect>, page: Option<PageInfo>, extracted: Result<string>, puppeteer: bool)
    returns (lines: seq<string>, fullbackSearch: bool, infobox: Option<string>)
    ensures lines == PageLines(host, mwApi, mwFlag, titleAnchor, options, redirect, page, PageIntro(extracted, INTRO_LIMIT))
    ensures fullbackSearch <==> BranchOf(page) == MissingPage && GoSearch(options, mwFlag)
    ensures infobox.Some? <==> BranchOf(page) == NormalPage && options.details && HasFlag(mwFlag, INFOBOX_DETAILS) && puppeteer
    ensures infobox.Some? ==> infobox.value == PageUrl(host, mwApi, page)
  {
    var anchor := titleAnchor;
    fullbackSearch := false;
    infobox := None;
    lines := [HeaderLine(page)];
    if redirect.Some? {
      lines := lines + [RedirectLine(redirect.value)];
      if redirect.value.tofragment != "" {
        anchor := "#" + host.encodeUri(redirect.value.tofragment);
      }
    }
    assert anchor == Anchor(host, titleAnchor, redirect);
    ghost var head := lines;
    var goSearch := GoSearch(options, mwFlag);
    var intro := PageIntro(extracted, INTRO_LIMIT);
    ghost var line := BranchLine(host, mwApi, page, anchor, goSearch);
    ghost var tail: seq<string> := if BranchOf(page) == NormalPage && options.details && intro != "" then [intro] else [];
    if page.Some? && page.value.invalid {
      var reason := if page.value.invalidreason != "" then page.value.invalidreason else "原因未知";
      lines := lines + ["页面名称不合法：" + reason];
    } else if page.Some? && page.value.special {
      var url := GetUrlForm(host, mwApi, [("title", TitleText(page))], None);
      lines := lines + [url + anchor + " (" + (if page.value.missing then "不存在的" else "") + "特殊页面)"];
    } else if page.Some? && page.value.missing {
      if !goSearch {
        lines := lines + [EditUrlText(page.value) + " (页面不存在)"];
      } else {
        lines := lines + [EditUrlText(page.value) + " (页面不存在，以下是搜索结果)"];
        fullbackSearch := true;
      }
    } else {
      var pageUrl := PageUrl(host, mwApi, page);
      lines := lines + [pageUrl + anchor];
      assert lines == head + [line];
      if options.details {
        if intro != "" {
          lines := lines + [intro];
        }
        if HasFlag(mwFlag, INFOBOX_DETAILS) && puppeteer {
          infobox := Some(pageUrl);
        }
      }
    }
    assert head == [HeaderLine(page)] + (if redirect.Some? then [RedirectLine(redirect.value)] else []);
    assert lines == head + [line] + tail;
  }

  /**
   * The `wiki [title]` action after the endpoint and flag of the chat are
   * known. `lookup` is what `getPageSafe` gave or threw, `extracted` is the
   * paragraph text of the page for the intro, `puppeteer` whether the
   * screenshot service is present, and `quote` the quote segment of the
   * message (`""` outside groups or without a message id).
   */
  method WikiAction(host: Host, mwApi: string, mwFlag: int, title: string, options: WikiOptions,
                    lookup: Result<Lookup>, extracted: Result<string>, puppeteer: bool, quote: string)
    returns (out: WikiOutcome, lines: seq<string>)
    ensures mwApi == "" ==> out == WikiOutcome(if options.quiet then Say("") else Execute("wiki.link"), false, None)
    ensures mwApi != "" && title == "" ==> out == WikiOutcome(Say(GetUrlForm(host, mwApi, [], None)), false, None)
    ensures mwApi != "" && title != "" && lookup.Thrown? ==> out == WikiOutcome(Say(ERROR_REPLY), false, None)
    ensures mwApi != "" && title != "" && lookup.Ok? ==> out.reply == Say(Assemble(lines, quote))
    ensures mwApi != "" && title != "" && lookup.Ok? ==>
      var lk := lookup.value;
      var branch := BranchOf(lk.page);
      && lines == QueryLines(host, mwApi, mwFlag, title, options, lk, PageIntro(extracted, INTRO_LIMIT))
      && (out.searchAfter <==> lk.interwiki.None? && branch == MissingPage && GoSearch(options, mwFlag))
      && (out.infoboxUrl.Some? <==>
            lk.interwiki.None? && branch == NormalPage && options.details && HasFlag(mwFlag, INFOBOX_DETAILS) && puppeteer)
      && (out.infoboxUrl.Some? ==> out.infoboxUrl.value == PageUrl(host, mwApi, lk.page))
  {
    lines := [];
    if mwApi == "" {
      out := WikiOutcome(if options.quiet then Say("") else Execute("wiki.link"), false, None);
      return;
    }
    if title == "" {
      out := WikiOutcome(Say(GetUrlForm(host, mwApi, [], None)), false, None);
      return;
    }
    var anchor := "";
    if |Split(title, "#")| > 1 {
      anchor := "#" + host.encodeUri(Split(title, "#")[1]);
    }
    var fullbackSearch := false;
    var infobox: Option<string> := None;
    if lookup.Thrown? {
      out := WikiOutcome(Say(ERROR_REPLY), false, None);
      return;
    }
    var redirect, page, interwiki := lookup.value.redirect, lookup.value.page, lookup.value.interwiki;
    if interwiki.Some? {
      lines := [InterwikiLine(interwiki.value, anchor)];
    } else {
      lines, fullbackSearch, infobox := AnswerPage(host, mwApi, mwFlag, anchor, options, redirect, page, extracted, puppeteer);
    }
    out := WikiOutcome(Say(Assemble(lines, quote)), fullbackSearch, infobox);
  }

  /** The reply about a masked redirect: the header and the special-page line for the redirect source. */
  lemma MaskedRedirectLines(host: Host, mwApi: string, mwFlag: int, title: string, options: WikiOptions,
                            from: string, intro: string)
    ensures QueryLines(host, mwApi, mwFlag, title, options, Lookup(None, Some(SpecialStub(from)), None), intro)
      == [HeaderLine(Some(SpecialStub(from))),
          GetUrlForm(host, mwApi, [("title", from)], None) + TitleAnchor(host, title) + " (特殊页面)"]
  {
    var page := Some(SpecialStub(from));
    var anchor := TitleAnchor(host, title);
    PageLinesShape(host, mwApi, mwFlag, anchor, options, None, page, intro);
    assert BranchOf(page) == SpecialPage && TitleText(page) == from;
    assert Anchor(host, anchor, None) == anchor;
    assert " (" + "" + "特殊页面)" == " (特殊页面)";
    var line := BranchLine(host, mwApi, page, anchor, GoSearch(options, mwFlag));
    assert line == GetUrlForm(host, mwApi, [("title", from)], None) + anchor + " (特殊页面)";
    var lines := PageLines(host, mwApi, mwFlag, anchor, options, None, page, intro);
    assert lines == [lines[0], lines[1]];
    assert QueryLines(host, mwApi, mwFlag, title, options, Lookup(None, page, None), intro) == lines;
  }

  /**
   * The action from the query result on: `getPageSafe` first, then the reply.
   * A redirect from a dangerous special page (`Special:Mypage`, bare or with a
   * `/` or `:` after it) never reaches the reply, which then shows the
   * special-page line for the redirect source.
   */
  method WikiFromQuery(host: Host, mwApi: string, mwFlag: int, title: string, options: WikiOptions,
                       site: SiteInfo, res: QueryResult, extracted: Result<string>, puppeteer: bool, quote: string)
    returns (out: WikiOutcome, lines: seq<string>)
    requires mwApi != "" && title != ""
    ensures res.interwiki == [] && SPECIAL_NS !in site.namespaces ==> out == WikiOutcome(Say(ERROR_REPLY), false, None)
    ensures res.interwiki == [] && res.redirects != [] && DangerCheck(res.redirects[0].from, site) == Ok(true) ==>
      var from := res.redirects[0].from;
      && lines == [HeaderLine(Some(SpecialStub(from))),
                   GetUrlForm(host, mwApi, [("title", from)], None) + TitleAnchor(host, title) + " (特殊页面)"]
      && !out.searchAfter && out.infoboxUrl.None?
    ensures && res.interwiki == [] && res.redirects != [] && SPECIAL_NS in site.namespaces
            && ':' !in site.namespaces[SPECIAL_NS] && DangerousSource(res.redirects[0].from, site)
      ==>
      var from := res.redirects[0].from;
      && lines == [HeaderLine(Some(SpecialStub(from))),
                   GetUrlForm(host, mwApi, [("title", from)], None) + TitleAnchor(host, title) + " (特殊页面)"]
      && !out.searchAfter && out.infoboxUrl.None?
  {
    var lookup := GetPageSafe(site, res);
    out, lines := WikiAction(host, mwApi, mwFlag, title, options, lookup, extracted, puppeteer, quote);
    if res.interwiki == [] && res.redirects != [] && SPECIAL_NS in site.namespaces && ':' !in site.namespaces[SPECIAL_NS] {
      DangerCheckIff(site, res.redirects[0].from);
    }
    if res.interwiki == [] && res.redirects != [] && DangerCheck(res.redirects[0].from, site) == Ok(true) {
      MaskedRedirectLines(host, mwApi, mwFlag, title, options, res.redirects[0].from, PageIntro(extracted, INTRO_LIMIT));
    }
  }
}
