/**
 * The choice of infobox selector in `getInfobox` (src/index.ts): the
 * selectors registered for a suffix of the page's host are tried in table
 * order, and the first one present on the page is used. Loading the page
 * and taking the screenshot are left to the browser; whether a selector
 * matches something on the page is an input.
 */
module Infobox {
  import opened Wrappers
  import opened Strings
  import opened Endpoint

  datatype InfoboxSelector = InfoboxSelector(host: string, selector: string)

  const INFOBOX_SELECTORS: seq<InfoboxSelector> := [
    InfoboxSelector("minecraft.fandom.com", ".notaninfobox"),
    InfoboxSelector("minecraft.fandom.com", ".portable-infobox"),
    InfoboxSelector("minecraft.fandom.com", ".infobox"),
    InfoboxSelector("minecraft.fandom.com", ".tpl-infobox"),
    InfoboxSelector("minecraft.fandom.com", ".infoboxtable"),
    InfoboxSelector("minecraft.fandom.com", ".infotemplatebox"),
    InfoboxSelector("minecraft.fandom.com", ".skin-infobox"),
    InfoboxSelector("minecraft.fandom.com", ".arcaeabox"),
    InfoboxSelector("fandom.com", "aside.portable-infobox"),
    InfoboxSelector("huijiwiki.com", "table.infobox")
  ]

  const MISSING_SELECTOR := "Missing infobox selector"

  /** `infoboxSelectors.filter((s) => host.endsWith(s.host))`. */
  function ForHost(table: seq<InfoboxSelector>, pageHost: string): (r: seq<InfoboxSelector>)
    ensures |r| <= |table|
    ensures forall i :: 0 <= i < |r| ==> EndsWith(pageHost, r[i].host)
  {
    if table == [] then []
    else
      var rest := ForHost(table[1..], pageHost);
      if EndsWith(pageHost, table[0].host) then [table[0]] + rest else rest
  }

  /** An entry is a candidate exactly when it is in the table and its host is a suffix of the page's host. */
  lemma {:induction false} ForHostMembers(table: seq<InfoboxSelector>, pageHost: string, e: InfoboxSelector)
    ensures e in ForHost(table, pageHost) <==> e in table && EndsWith(pageHost, e.host)
    decreases |table|
  {
    if table != [] {
      ForHostMembers(table[1..], pageHost, e);
      assert e in table <==> e == table[0] || e in table[1..];
    }
  }

  /** `a` occurs in `table` at an earlier position than `b`. */
  predicate Before(table: seq<InfoboxSelector>, a: InfoboxSelector, b: InfoboxSelector) {
    exists i, j :: 0 <= i < j < |table| && table[i] == a && table[j] == b
  }

  /** The first selector of the list that is present on the page. */
  function FirstPresent(cands: seq<InfoboxSelector>, present: string -> bool): (r: Option<nat>)
    ensures r.Some? ==> r.value < |cands| && present(cands[r.value].selector)
    ensures r.Some? ==> forall j :: 0 <= j < r.value ==> !present(cands[j].selector)
    ensures r.None? ==> forall j :: 0 <= j < |cands| ==> !present(cands[j].selector)
  {
    if cands == [] then None
    else if present(cands[0].selector) then Some(0)
    else
      match FirstPresent(cands[1..], present)
      case None => None
      case Some(k) => Some(k + 1)
  }

  /**
   * The selector `getInfobox` settles on for `url`: a URL that does not parse
   * throws, as does a page on which no candidate selector is present. (The
   * source's `if (!selectors)` test on the filtered array never fires, since an
   * array is always truthy; the empty case ends in the same throw after the loop.)
   */
  method ChooseSelector(host: Host, url: string, present: string -> bool) returns (r: Result<string>)
    ensures host.parseUrl(url).None? ==> r.Thrown?
    ensures host.parseUrl(url).Some? ==>
      var cands := ForHost(INFOBOX_SELECTORS, host.parseUrl(url).value.host);
      match FirstPresent(cands, present)
      case None => r == Thrown(MISSING_SELECTOR)
      case Some(k) => r == Ok(cands[k].selector)
  {
    var parsed := host.parseUrl(url);
    if parsed.None? {
      return Thrown("TypeError: Invalid URL");
    }
    var selectors := ForHost(INFOBOX_SELECTORS, parsed.value.host);
    var selector: Option<string> := None;
    var i := 0;
    while i < |selectors|
      invariant 0 <= i <= |selectors|
      invariant forall j :: 0 <= j < i ==> !present(selectors[j].selector)
      invariant selector.None?
    {
      if present(selectors[i].selector) {
        selector := Some(selectors[i].selector);
        break;
      }
      i := i + 1;
    }
    if selector.None? {
      return Thrown(MISSING_SELECTOR);
    }
    FirstPresentIs(selectors, present, i);
    r := Ok(selector.value);
  }

  /** The first present selector is at the index where every earlier one is absent and this one is present. */
  lemma {:induction false} FirstPresentIs(cands: seq<InfoboxSelector>, present: string -> bool, i: nat)
    requires i < |cands| && present(cands[i].selector)
    requires forall j :: 0 <= j < i ==> !present(cands[j].selector)
    ensures FirstPresent(cands, present) == Some(i)
    decreases i
  {
    if i > 0 {
      FirstPresentIs(cands[1..], present, i - 1);
    }
  }

  /** Filtering keeps the table's order. */
  lemma {:induction false} ForHostKeepsOrder(table: seq<InfoboxSelector>, pageHost: string, a: nat, b: nat)
    requires a < b < |ForHost(table, pageHost)|
    ensures Before(table, ForHost(table, pageHost)[a], ForHost(table, pageHost)[b])
    decreases |table|
  {
    var r := ForHost(table, pageHost);
    var rest := ForHost(table[1..], pageHost);
    if EndsWith(pageHost, table[0].host) {
      assert r == [table[0]] + rest;
      if a == 0 {
        ForHostMembers(table[1..], pageHost, r[b]);
        assert r[b] in rest;
        var j :| 0 <= j < |table[1..]| && table[1..][j] == r[b];
        assert table[0] == r[a] && table[j + 1] == r[b];
      } else {
        ForHostKeepsOrder(table[1..], pageHost, a - 1, b - 1);
        var i, j :| 0 <= i < j < |table[1..]| && table[1..][i] == rest[a - 1] && table[1..][j] == rest[b - 1];
        assert table[i + 1] == r[a] && table[j + 1] == r[b];
      }
    } else {
      ForHostKeepsOrder(table[1..], pageHost, a, b);
      var i, j :| 0 <= i < j < |table[1..]| && table[1..][i] == rest[a] && table[1..][j] == rest[b];
      assert table[i + 1] == r[a] && table[j + 1] == r[b];
    }
  }

  /** A page whose host ends with none of the table's hosts has no candidate, so the choice always throws. */
  lemma UnknownHostHasNoSelector(pageHost: string)
    requires forall e :: e in INFOBOX_SELECTORS ==> !EndsWith(pageHost, e.host)
    ensures ForHost(INFOBOX_SELECTORS, pageHost) == []
  {
    var r := ForHost(INFOBOX_SELECTORS, pageHost);
    if r != [] {
      ForHostMembers(INFOBOX_SELECTORS, pageHost, r[0]);
    }
  }
}
