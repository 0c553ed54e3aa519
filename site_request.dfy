/**
 * `getWiki` of src/index.ts: the request settings for one endpoint are the
 * global ones, overlaid by the plugin's own, overlaid by every per-site rule
 * whose `url` occurs in the endpoint, in list order.
 */
module SiteRequest {
  import opened Wrappers
  import opened Strings

  /** The part of a request configuration `getWiki` reads; an absent proxy is `""`. */
  datatype RequestConfig = RequestConfig(proxyAgent: string, headers: map<string, string>)

  /** One entry of `siteRequest`. */
  datatype SiteRule = SiteRule(url: string, request: RequestConfig)

  /** The proxy (`""` for none) and the headers the request manager is built with. */
  datatype WikiRequest = WikiRequest(proxy: string, headers: map<string, string>)

  /** `api.includes(rule.url)`. */
  predicate Matches(api: string, rule: SiteRule) {
    Contains(api, rule.url)
  }

  /** The settings before the rules: the plugin's proxy or else the global one; the global headers overlaid by the plugin's. */
  function BaseRequest(global: RequestConfig, plugin: RequestConfig): (r: WikiRequest)
    ensures r.proxy == if plugin.proxyAgent != "" then plugin.proxyAgent else global.proxyAgent
    ensures forall k :: k in r.headers <==> k in global.headers || k in plugin.headers
    ensures forall k :: k in plugin.headers ==> r.headers[k] == plugin.headers[k]
    ensures forall k :: k in global.headers && k !in plugin.headers ==> r.headers[k] == global.headers[k]
  {
    WikiRequest(if plugin.proxyAgent != "" then plugin.proxyAgent else global.proxyAgent,
                global.headers + plugin.headers)
  }

  /** One pass of the loop body. */
  function ApplyRule(api: string, cur: WikiRequest, rule: SiteRule): WikiRequest {
    if Matches(api, rule) then
      WikiRequest(if rule.request.proxyAgent != "" then rule.request.proxyAgent else cur.proxy,
                  cur.headers + rule.request.headers)
    else cur
  }

  /** The state after the loop has visited `rules`. */
  function FoldRules(api: string, base: WikiRequest, rules: seq<SiteRule>): WikiRequest
    decreases |rules|
  {
    if rules == [] then base
    else ApplyRule(api, FoldRules(api, base, rules[..|rules| - 1]), rules[|rules| - 1])
  }

  /** `getWiki` without the client construction: the loop over `siteRequest`. */
  method GetWikiRequest(api: string, global: RequestConfig, plugin: RequestConfig, rules: seq<SiteRule>)
    returns (req: WikiRequest)
    ensures req == FoldRules(api, BaseRequest(global, plugin), rules)
  {
    var proxyUrl := if plugin.proxyAgent != "" then plugin.proxyAgent else global.proxyAgent;
    var requestHeaders := global.headers + plugin.headers;
    var i := 0;
    while i < |rules|
      invariant 0 <= i <= |rules|
      invariant WikiRequest(proxyUrl, requestHeaders) == FoldRules(api, BaseRequest(global, plugin), rules[..i])
    {
      var rule := rules[i];
      if Contains(api, rule.url) {
        proxyUrl := if rule.request.proxyAgent != "" then rule.request.proxyAgent else proxyUrl;
        requestHeaders := requestHeaders + rule.request.headers;
      }
      assert rules[..i + 1][..i] == rules[..i];
      i := i + 1;
    }
    assert rules[..i] == rules;
    req := WikiRequest(proxyUrl, requestHeaders);
  }

  /** The last rule that matches and sets a proxy. */
  function LastProxyRule(api: string, rules: seq<SiteRule>): (r: Option<nat>)
    ensures r.Some? ==> r.value < |rules| && Matches(api, rules[r.value]) && rules[r.value].request.proxyAgent != ""
    ensures r.Some? ==> forall j :: r.value < j < |rules| ==> !(Matches(api, rules[j]) && rules[j].request.proxyAgent != "")
    ensures r.None? ==> forall j :: 0 <= j < |rules| ==> !(Matches(api, rules[j]) && rules[j].request.proxyAgent != "")
    decreases |rules|
  {
    if rules == [] then None
    else
      var last := rules[|rules| - 1];
      if Matches(api, last) && last.request.proxyAgent != "" then Some(|rules| - 1)
      else
        var r := LastProxyRule(api, rules[..|rules| - 1]);
        assert forall j :: 0 <= j < |rules| - 1 ==> rules[..|rules| - 1][j] == rules[j];
        r
  }

  /** The last rule that matches and sets header `key`. */
  function LastHeaderRule(api: string, rules: seq<SiteRule>, key: string): (r: Option<nat>)
    ensures r.Some? ==> r.value < |rules| && Matches(api, rules[r.value]) && key in rules[r.value].request.headers
    ensures r.Some? ==> forall j :: r.value < j < |rules| ==> !(Matches(api, rules[j]) && key in rules[j].request.headers)
    ensures r.None? ==> forall j :: 0 <= j < |rules| ==> !(Matches(api, rules[j]) && key in rules[j].request.headers)
    decreases |rules|
  {
    if rules == [] then None
    else
      var last := rules[|rules| - 1];
      if Matches(api, last) && key in last.request.headers then Some(|rules| - 1)
      else
        var r := LastHeaderRule(api, rules[..|rules| - 1], key);
        assert forall j :: 0 <= j < |rules| - 1 ==> rules[..|rules| - 1][j] == rules[j];
        r
  }

  /** The proxy is that of the last matching rule that sets one, and otherwise the base proxy. */
  lemma {:induction false} ProxyFromLastMatch(api: string, base: WikiRequest, rules: seq<SiteRule>)
    ensures FoldRules(api, base, rules).proxy ==
      match LastProxyRule(api, rules)
      case Some(i) => rules[i].request.proxyAgent
      case None => base.proxy
    decreases |rules|
  {
    if rules != [] {
      ProxyFromLastMatch(api, base, rules[..|rules| - 1]);
    }
  }

  /**
   * A header comes from the last matching rule that sets it, so a later rule
   * overrides an earlier one on the same key; a header no matching rule sets
   * is the base header, and absent when the base lacks it.
   */
  lemma {:induction false} HeaderFromLastMatch(api: string, base: WikiRequest, rules: seq<SiteRule>, key: string)
    ensures var h := FoldRules(api, base, rules).headers;
      match LastHeaderRule(api, rules, key)
      case Some(i) => key in h && h[key] == rules[i].request.headers[key]
      case None => (key in h <==> key in base.headers) && (key in base.headers ==> h[key] == base.headers[key])
    decreases |rules|
  {
    if rules != [] {
      HeaderFromLastMatch(api, base, rules[..|rules| - 1], key);
    }
  }

  /** Rules whose `url` does not occur in the endpoint change nothing. */
  lemma {:induction false} NonMatchingRulesIgnored(api: string, base: WikiRequest, rules: seq<SiteRule>, extra: seq<SiteRule>)
    requires forall j :: 0 <= j < |extra| ==> !Matches(api, extra[j])
    ensures FoldRules(api, base, rules + extra) == FoldRules(api, base, rules)
    decreases |extra|
  {
    if extra != [] {
      var e := extra[..|extra| - 1];
      assert (rules + extra)[..|rules + extra| - 1] == rules + e;
      NonMatchingRulesIgnored(api, base, rules, e);
    } else {
      assert rules + extra == rules;
    }
  }
}
