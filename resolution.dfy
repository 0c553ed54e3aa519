/**
 * `getPageSafe` of src/index.ts without its two requests: the site
 * information and the query result are inputs. Redirects through the
 * special pages Mypage and Mytalk would expose the server, so such a
 * redirect is masked as a plain special page.
 */
module Resolution {
  import opened Wrappers
  import opened Strings

  /**
   * The fields of a queried page the plugin reads. An absent string that is
   * only tested is `""`, an absent flag `false`; the printed `editurl` and the
   * id and title are `Option`s.
   */
  datatype PageInfo = PageInfo(
    ns: int,
    pageid: Option<int>,
    title: Option<string>,
    missing: bool,
    invalid: bool,
    invalidreason: string,
    special: bool,
    editurl: Option<string>)

  datatype Redirect = Redirect(from: string, to: string, tofragment: string)

  datatype Interwiki = Interwiki(title: string, url: string)

  /** One entry of `specialpagealiases`. */
  datatype SpecialPageAlias = SpecialPageAlias(realname: string, aliases: seq<string>)

  /** The site information: the special page aliases and the local name of each namespace. */
  datatype SiteInfo = SiteInfo(specialpagealiases: seq<SpecialPageAlias>, namespaces: map<int, string>)

  /** The `redirects`, `pages` and `interwiki` lists of the query. */
  datatype QueryResult = QueryResult(redirects: seq<Redirect>, pages: seq<PageInfo>, interwiki: seq<Interwiki>)

  /** What `getPageSafe` returns. */
  datatype Lookup = Lookup(redirect: Option<Redirect>, page: Option<PageInfo>, interwiki: Option<Interwiki>)

  const SPECIAL_NS: int := -1

  /** The canonical names of the dangerous special pages. */
  const DANGER_PAGE_NAMES: seq<string> := ["Mypage", "Mytalk"]

  function First<T>(s: seq<T>): (r: Option<T>)
    ensures r.Some? <==> s != []
    ensures r.Some? ==> r.value == s[0]
  {
    if s == [] then None else Some(s[0])
  }

  /** `a` is an alias of Mypage or Mytalk in the list. */
  predicate IsDangerAlias(entries: seq<SpecialPageAlias>, a: string) {
    exists i :: 0 <= i < |entries| && entries[i].realname in DANGER_PAGE_NAMES && a in entries[i].aliases
  }

  /** Every alias of a dangerous special page, in list order. */
  function DangerPages(entries: seq<SpecialPageAlias>): (r: seq<string>)
    ensures forall a :: a in r <==> IsDangerAlias(entries, a)
  {
    if entries == [] then []
    else
      var rest := DangerPages(entries[1..]);
      var head := if entries[0].realname in DANGER_PAGE_NAMES then entries[0].aliases else [];
      forall a ensures a in head + rest <==> IsDangerAlias(entries, a) {
        if IsDangerAlias(entries, a) {
          var i :| 0 <= i < |entries| && entries[i].realname in DANGER_PAGE_NAMES && a in entries[i].aliases;
          if i > 0 {
            assert entries[1..][i - 1] == entries[i];
          }
        }
        if a in rest {
          var i :| 0 <= i < |entries[1..]| && entries[1..][i].realname in DANGER_PAGE_NAMES && a in entries[1..][i].aliases;
          assert entries[i + 1] == entries[1..][i];
        }
      }
      head + rest
  }

  /**
   * Whether a redirect source is a dangerous special page: its text before the
   * first `:` is the local name of namespace -1, and its text between the first
   * and the second `:` has, before any `/`, an alias of Mypage or Mytalk.
   * Throws when the site lacks namespace -1, and when the source is exactly the
   * namespace name, since the title part is then undefined.
   */
  function DangerCheck(from: string, site: SiteInfo): Result<bool> {
    if SPECIAL_NS !in site.namespaces then Thrown("TypeError: namespaces['-1'] is undefined")
    else
      var pieces := Split(from, ":");
      if pieces[0] != site.namespaces[SPECIAL_NS] then Ok(false)
      else if |pieces| < 2 then Thrown("TypeError: redirectTitle is undefined")
      else Ok(Split(pieces[1], "/")[0] in DangerPages(site.specialpagealiases))
  }

  /** The page a masked redirect is replaced by. */
  function SpecialStub(from: string): PageInfo {
    PageInfo(SPECIAL_NS, None, Some(from), false, false, "", true, None)
  }

  /**
   * `getPageSafe`: the first redirect, page and interwiki of the query; without
   * an interwiki, a redirect from a dangerous special page is dropped and the
   * page becomes exactly `{ns: -1, title: from, special: true}`.
   */
  method GetPageSafe(site: SiteInfo, res: QueryResult) returns (r: Result<Lookup>)
    ensures res.interwiki != [] ==> r == Ok(Lookup(First(res.redirects), First(res.pages), First(res.interwiki)))
    ensures res.interwiki == [] && SPECIAL_NS !in site.namespaces ==> r.Thrown?
    ensures res.interwiki == [] && SPECIAL_NS in site.namespaces && res.redirects == [] ==>
      r == Ok(Lookup(None, First(res.pages), None))
    ensures res.interwiki == [] && res.redirects != [] ==>
      match DangerCheck(res.redirects[0].from, site)
      case Thrown(e) => r == Thrown(e)
      case Ok(danger) => r == Ok(
        if danger then Lookup(None, Some(SpecialStub(res.redirects[0].from)), None)
        else Lookup(First(res.redirects), First(res.pages), None))
  {
    var redirect := First(res.redirects);
    var page := First(res.pages);
    var interwiki := First(res.interwiki);
    if interwiki.None? {
      var dangerPages := DangerPages(site.specialpagealiases);
      if SPECIAL_NS !in site.namespaces {
        return Thrown("TypeError: namespaces['-1'] is undefined");
      }
      var specialNsName := site.namespaces[SPECIAL_NS];
      if redirect.Some? {
        var pieces := Split(redirect.value.from, ":");
        var redirectNs := pieces[0];
        if redirectNs == specialNsName {
          if |pieces| < 2 {
            return Thrown("TypeError: redirectTitle is undefined");
          }
          var redirectTitle := pieces[1];
          if Split(redirectTitle, "/")[0] in dangerPages {
            page := Some(SpecialStub(redirect.value.from));
            redirect := None;
          }
        }
      }
    }
    r := Ok(Lookup(redirect, page, interwiki));
  }

  /** Splitting `x:t` at `:` when `x` holds no `:`. */
  lemma SplitAfterName(x: string, t: string)
    requires ':' !in x
    ensures Split(x + ":" + t, ":") == [x] + Split(t, ":")
  {
    assert x + ":" + t == x + ([':'] + t);
    SplitPrefix(x, [':'] + t, ':');
    SplitLeadingSeparator(t, ':');
    var r := Split([':'] + t, [':']);
    assert r[0] == [] && r[1..] == Split(t, ":");
    assert x + r[0] == x;
  }

  /** The first `/`-piece of `alias/u` when `alias` holds no `/`. */
  lemma FirstSegment(alias: string, u: string)
    requires '/' !in alias
    ensures Split(alias + "/" + u, "/")[0] == alias
  {
    assert alias + "/" + u == alias + (['/'] + u);
    SplitPrefix(alias, ['/'] + u, '/');
    SplitLeadingSeparator(u, '/');
  }

  /**
   * The text between the first and the second `:` of `ns:alias` followed by
   * nothing, by `/` or by `:`, and the first `/`-piece of that text.
   */
  lemma RedirectTitleOf(ns: string, alias: string, rest: string)
    requires ':' !in ns && ':' !in alias && '/' !in alias
    requires rest == [] || rest[0] == '/' || rest[0] == ':'
    ensures var pieces := Split(ns + ":" + alias + rest, ":");
      |pieces| >= 2 && pieces[0] == ns && Split(pieces[1], "/")[0] == alias
  {
    var tail := alias + rest;
    assert ns + ":" + alias + rest == ns + ":" + tail;
    SplitAfterName(ns, tail);
    SplitHead(tail, ':');
    PrefixBeforeAppend(alias, rest, ':');
    var q := PrefixBefore(rest, ':');
    assert PrefixBefore(q, '/') == [] by {
      if rest != [] && rest[0] == '/' {
        assert q[0] == '/';
      }
    }
    SplitHead(alias + q, '/');
    PrefixBeforeAppend(alias, q, '/');
    assert alias + [] == alias;
  }

  /** The text of `t` before its first `:` or `/`. */
  function SegmentOf(t: string): (r: string)
    ensures StartsWith(t, r) && ':' !in r && '/' !in r
    ensures r == t || t[|r|] == ':' || t[|r|] == '/'
  {
    if t == [] || t[0] == ':' || t[0] == '/' then [] else [t[0]] + SegmentOf(t[1..])
  }

  /**
   * A redirect source is dangerous when it starts with the local name of
   * namespace -1 and a `:`, and what follows, up to the next `:` or `/`, is an
   * alias of Mypage or Mytalk.
   */
  predicate DangerousSource(from: string, site: SiteInfo)
    requires SPECIAL_NS in site.namespaces
  {
    var ns := site.namespaces[SPECIAL_NS];
    StartsWith(from, ns + ":") && SegmentOf(from[|ns| + 1..]) in DangerPages(site.specialpagealiases)
  }

  /** Taking the text before the first `:` and then before the first `/` stops at whichever comes first. */
  lemma {:induction false} SegmentIsPrefixBefore(t: string)
    ensures SegmentOf(t) == PrefixBefore(PrefixBefore(t, ':'), '/')
    decreases |t|
  {
    if t != [] && t[0] != ':' {
      var q := PrefixBefore(t[1..], ':');
      assert PrefixBefore(t, ':') == [t[0]] + q;
      if t[0] != '/' {
        SegmentIsPrefixBefore(t[1..]);
        assert ([t[0]] + q)[1..] == q;
      }
    }
  }

  /**
   * Every redirect of the form `<namespace -1>:<alias>` with an alias of
   * Mypage or Mytalk is masked, bare or followed by `/…` or `:…`.
   */
  lemma DangerousRedirectsAreMasked(site: SiteInfo, alias: string, rest: string)
    requires SPECIAL_NS in site.namespaces && ':' !in site.namespaces[SPECIAL_NS]
    requires alias in DangerPages(site.specialpagealiases) && ':' !in alias && '/' !in alias
    requires rest == [] || rest[0] == '/' || rest[0] == ':'
    ensures DangerCheck(site.namespaces[SPECIAL_NS] + ":" + alias + rest, site) == Ok(true)
  {
    RedirectTitleOf(site.namespaces[SPECIAL_NS], alias, rest);
  }

  /** What the check reads from a masked source `ns:t`: the text of `t` before any `:` and then any `/`. */
  lemma MaskedSourceParts(site: SiteInfo, from: string) returns (t: string)
    requires DangerCheck(from, site) == Ok(true)
    ensures SPECIAL_NS in site.namespaces
    ensures from == site.namespaces[SPECIAL_NS] + ":" + t
    ensures PrefixBefore(PrefixBefore(t, ':'), '/') in DangerPages(site.specialpagealiases)
  {
    var ns := site.namespaces[SPECIAL_NS];
    var pieces := Split(from, ":");
    SplitFirstIsPrefix(from, ":");
    SplitPiecesFree(from, ":");
    CharContains(ns, ':');
    t := from[|ns| + 1..];
    assert from == ns + ":" + t;
    SplitAfterName(ns, t);
    SplitHead(t, ':');
    SplitHead(pieces[1], '/');
  }

  /** Exactly the dangerous sources are masked, once the site names namespace -1 without a `:` in it. */
  lemma DangerCheckIff(site: SiteInfo, from: string)
    requires SPECIAL_NS in site.namespaces && ':' !in site.namespaces[SPECIAL_NS]
    ensures DangerCheck(from, site) == Ok(true) <==> DangerousSource(from, site)
  {
    var ns := site.namespaces[SPECIAL_NS];
    if DangerCheck(from, site) == Ok(true) {
      var t := MaskedSourceParts(site, from);
      assert from[|ns| + 1..] == t;
      SegmentIsPrefixBefore(t);
    }
    if DangerousSource(from, site) {
      var t := from[|ns| + 1..];
      assert from == ns + ":" + t;
      SplitAfterName(ns, t);
      SplitHead(t, ':');
      SplitHead(PrefixBefore(t, ':'), '/');
      SegmentIsPrefixBefore(t);
    }
  }

  /** A redirect source that does not start with the local name of namespace -1 and a `:` is never masked. */
  lemma OtherRedirectsAreKept(site: SiteInfo, from: string)
    requires SPECIAL_NS in site.namespaces
    requires !StartsWith(from, site.namespaces[SPECIAL_NS] + ":")
    requires from != site.namespaces[SPECIAL_NS]
    ensures DangerCheck(from, site) == Ok(false)
  {
    SplitFirstIsPrefix(from, ":");
    SplitJoin(from, ":");
    var pieces := Split(from, ":");
    if |pieces| == 1 {
      assert from == pieces[0];
    }
  }
}
