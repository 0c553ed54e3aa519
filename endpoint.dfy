/**
 * The endpoint helpers `getUrl` and `isValidApi`, which exist three times in
 * the repository (src/utils/wiki.ts, src/utils.ts, util/getUrl.js) and differ
 * only in the query serializer.
 */
module Endpoint {
  import opened Wrappers
  import opened Strings

  /** The parts of a parsed URL the plugin reads. */
  datatype Url = Url(protocol: string, host: string, origin: string, pathname: string)

  /** The own enumerable properties of a parameter object, in insertion order. */
  type Params = seq<(string, string)>

  /**
   * The library functions the plugin calls but does not define: the URL
   * parser (None where `new URL` throws), the two query serializers and
   * `encodeURI`. Every property below holds for every choice of them.
   */
  datatype Host = Host(
    parseUrl: string -> Option<Url>,
    formEncode: Params -> string,
    qsStringify: Params -> string,
    encodeUri: string -> string)

  const API_PHP := "/api.php"

  /**
   * `script ? script.trim() : 'index'`. `None` is an omitted argument, which
   * takes the default `'index'`; that default is its own trim.
   */
  function ScriptName(script: Option<string>): (r: string)
    ensures script.None? || script.value == [] ==> r == "index"
    ensures script.Some? && script.value != [] ==> r == Trim(script.value)
  {
    match script
    case None => "index"
    case Some(s) => if s == [] then "index" else Trim(s)
  }

  /** `base.replace('/api.php', '/<script>.php')`. */
  function Rewrite(base: string, script: Option<string>): string {
    ReplaceFirst(base, API_PHP, "/" + ScriptName(script) + ".php")
  }

  /** `getUrl(base, params, script)` with `encode` as the query serializer. */
  function GetUrl(base: string, params: Params, script: Option<string>, encode: Params -> string): (r: string)
    ensures params == [] ==> r == Rewrite(base, script)
    ensures params != [] ==> r == Rewrite(base, script) + "?" + encode(params)
  {
    var query := if |params| > 0 then "?" + encode(params) else "";
    Rewrite(base, script) + query
  }

  /** src/utils/wiki.ts and src/utils.ts serialize with `URLSearchParams`. */
  function GetUrlForm(host: Host, base: string, params: Params, script: Option<string>): string {
    GetUrl(base, params, script, host.formEncode)
  }

  /** util/getUrl.js serializes with `qs.stringify`. */
  function GetUrlQs(host: Host, base: string, params: Params, script: Option<string>): string {
    GetUrl(base, params, script, host.qsStringify)
  }

  /** A pattern whose head does not recur in it is first found right after a prefix free of it. */
  lemma FirstOccurrenceAfter(a: string, p: string, b: string)
    requires p != [] && p[0] !in p[1..] && !Contains(a, p)
    ensures IndexOf(a + p + b, p) == Some(|a|)
  {
    var s := a + p + b;
    assert s[|a|..|a| + |p|] == p;
    forall k | 0 <= k < |a| ensures !OccursAt(s, p, k) {
      if k + |p| <= |a| {
        assert a[k..k + |p|] == s[k..k + |p|];
        assert !OccursAt(a, p, k);
      } else if k + |p| <= |s| {
        assert s[k..k + |p|][|a| - k] == s[|a|] == p[0];
        assert p[|a| - k] == p[1..][|a| - k - 1];
      }
    }
    assert OccursAt(s, p, |a|);
    assert Contains(s, p);
    var i := IndexOf(s, p);
    assert i.Some? && i.value <= |a|;
  }

  /** Trimming only removes characters. */
  lemma TrimKeepsOut(s: string, c: char)
    requires c !in s
    ensures c !in Trim(s)
  {
    var d := DropWhile(s, IsSpace);
    assert forall j :: 0 <= j < |d| ==> d[j] == s[|s| - |d| + j];
    var t := DropWhileEnd(d, IsSpace);
    assert forall j :: 0 <= j < |t| ==> t[j] == d[j];
  }

  /** Replacing the first `/api.php` by a text free of `$` after a prefix free of `/api.php`. */
  lemma ReplaceApiPhp(a: string, b: string, rep: string)
    requires !Contains(a, API_PHP)
    requires '$' !in rep
    ensures ReplaceFirst(a + API_PHP + b, API_PHP, rep) == a + rep + b
  {
    var s := a + API_PHP + b;
    FirstOccurrenceAfter(a, API_PHP, b);
    assert s[..|a|] == a && s[|a| + |API_PHP|..] == b;
    SubstitutionPlain(rep, API_PHP, a, b);
  }

  /** Only the first `/api.php` is rewritten, to the trimmed script name; what precedes and follows it is kept. */
  lemma RewriteFirstOnly(a: string, b: string, script: string)
    requires !Contains(a, API_PHP)
    requires script != [] && '$' !in script
    ensures Rewrite(a + API_PHP + b, Some(script)) == a + "/" + Trim(script) + ".php" + b
  {
    TrimKeepsOut(script, '$');
    RewriteAt(a, b, Some(script));
  }

  /** The first `/api.php` after a prefix free of it becomes the script's page, when the script name has no `$`. */
  lemma RewriteAt(a: string, b: string, script: Option<string>)
    requires !Contains(a, API_PHP)
    requires '$' !in ScriptName(script)
    ensures Rewrite(a + API_PHP + b, script) == a + "/" + ScriptName(script) + ".php" + b
  {
    var name := ScriptName(script);
    DollarFreeScript(name);
    ReplaceApiPhp(a, b, "/" + name + ".php");
    ScriptPathAssoc(a, name, b);
  }

  /** The script path regroups inside the rewritten base. */
  lemma ScriptPathAssoc(a: string, name: string, b: string)
    ensures a + ("/" + name + ".php") + b == a + "/" + name + ".php" + b
  {
  }

  /** A script name free of `$` gives a replacement free of `$`. */
  lemma DollarFreeScript(name: string)
    requires '$' !in name
    ensures '$' !in "/" + name + ".php"
  {
  }

  /** An omitted or empty script rewrites the first `/api.php` to `/index.php`. */
  lemma RewriteDefaultScript(a: string, b: string, script: Option<string>)
    requires !Contains(a, API_PHP)
    requires script.None? || script.value == []
    ensures Rewrite(a + API_PHP + b, script) == a + "/index.php" + b
  {
    assert "/" + ScriptName(script) + ".php" == "/index.php";
    ReplaceApiPhp(a, b, "/index.php");
  }

  /** A base without `/api.php` is kept verbatim. */
  lemma RewriteWithoutApiPhp(base: string, script: Option<string>)
    requires !Contains(base, API_PHP)
    ensures Rewrite(base, script) == base
  {
  }

  /** `isValidApi`: the URL parses, its protocol starts with `http` and its pathname ends with `/api.php`; a parse failure is `false`. */
  function IsValidApi(host: Host, api: string): (b: bool)
    ensures b <==> host.parseUrl(api).Some?
                   && StartsWith(host.parseUrl(api).value.protocol, "http")
                   && EndsWith(host.parseUrl(api).value.pathname, API_PHP)
  {
    match host.parseUrl(api)
    case None => false
    case Some(u) => StartsWith(u.protocol, "http") && EndsWith(u.pathname, API_PHP)
  }
}
