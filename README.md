# koishi-plugin-mediawiki in Dafny

A model of the MediaWiki plugin for the Koishi chat bot framework.

The plugin links a group chat or a private chat to the `api.php` endpoint of a MediaWiki site. It then answers three kinds of request:

- `wiki <title>`, with a link to the page and optionally its intro;
- `wiki.link`, which reports or changes the binding;
- `wiki.flag`, which shows or toggles two per-chat settings: searching when a page is missing, and an infobox screenshot.

A message middleware turns every `[[title]]` in a chat message into a quiet `wiki` query.

The model covers the following, each as a Dafny module:

- **Strings.** The JavaScript string operations the plugin relies on: `trim`, `split`, `join`, `indexOf`, and `replace` with a string pattern, including its `$` substitution patterns.
- **Lists.** `[...new Set(xs)]` and `filter((m) => m)`.
- **Brackets.** `resolveBrackets`, which turns the `&#91;` and `&#93;` entities back into brackets.
- **Titles.** `getWikiTitleDBKey` and `getWikiDisplayTitle`.
- **Wikilinks.** The two wikilink regular expressions, as scanners that follow ECMAScript backtracking order.
- **LinkTitles.** `parseTitlesFromText`.
- **Endpoint.** `getUrl` in its three copies (`URLSearchParams` in src, `qs` in util) and `isValidApi`.
- **SiteRequest.** The per-site request rules of `getWiki`.
- **Bindings.** The endpoint binding (`getMwApi`), the flag arithmetic, and the `wiki.link` and `wiki.flag` actions. User and channel records are a class whose fields these actions update.
- **Resolution.** `getPageSafe`, which masks redirects through the Mypage and Mytalk special pages because they would expose the server.
- **WikiCommand.** The `wiki` action: branch order, anchor, search fallback, infobox trigger, and the 150-character intro.
- **Middleware.** The shortcut middleware and its delivery of the answers.
- **Infobox.** The choice of infobox selector.
- **Legacy.** The older entry point `index.js`:
  - its `wiki` action;
  - `wiki.link`;
  - a middleware that follows only the first link and the first template of a message;
  - `resolveUrl` of `wiki.parse`.

Library calls the plugin makes but does not define are fields of a `Host` value that every operation takes as a parameter:

- `new URL`;
- `URLSearchParams`;
- `qs.stringify`;
- `encodeURI`.

Every property holds for every such host.

An optional string that the source only tests for truthiness is `""` when absent. An optional value that the source prints is an `Option`, and `None` prints as `undefined`; a page's `editurl` is one of these. An exception is the `Thrown` case of a `Result`.

The modules `util/isValidApi.js` and `util/resolveBrackets.js`, which `index.js` requires, are not part of this model. The legacy operations use the `isValidApi` and `resolveBrackets` of `src/utils.ts` in their place.

## Model

| member | source | states |
|---|---|---|
| Strings.Trim | src/utils/wiki.ts:31 | the input with only its leading and trailing whitespace removed: a slice of the input with whitespace on both sides of it, no whitespace at either end, and empty exactly when the input is all whitespace |
| Strings.Split | src/index.ts:269 | at least one piece |
| Strings.SplitHead | src/index.ts:666 | the first piece of a split at one character is the text up to the first occurrence of that character |
| Strings.PrefixBefore | src/index.ts:672 | the longest prefix free of the character: a prefix of the text, without the character, followed by the character or by the end |
| Strings.PrefixBeforeAppend | src/index.ts:666-672 | a text free of the character passes whole into the prefix before it |
| Strings.ReplaceFirst | src/utils/wiki.ts:55-58 | `replace` with a string pattern: without an occurrence the text is kept; otherwise the text before the first occurrence and the text after it are kept around the substitution |
| Strings.ReplaceAll | src/utils/resolveBrackets.ts:3-4 | `replace(new RegExp(pat, 'g'), rep)` for a pattern without metacharacters; its properties are stated by the `ResolveBrackets` rows |
| Lists.Dedupe | src/index.ts:449 | `[...new Set(s)]`: no duplicates, exactly the elements of `s`, in first-occurrence order |
| Lists.DedupeConstant | src/index.ts:449 | a list of one repeated element dedupes to that element |
| Lists.NonEmpty | src/index.ts:465 | `filter((m) => m)`: exactly the non-empty strings, and empty exactly when every string is empty |
| Lists.NonEmptyAppend | src/index.ts:465 | the filter distributes over concatenation, and keeps a single string exactly when it is non-empty, so it keeps the non-empty strings in their order |
| Brackets.ResolveBrackets | src/utils/resolveBrackets.ts:1-5 | the result holds neither `&#91;` nor `&#93;` |
| Brackets.ResolveBracketsPlain | src/utils/resolveBrackets.ts:1-5 | a text holding neither entity comes back unchanged |
| Brackets.ResolveBracketsIdempotent | src/utils.ts:36-40 | resolving twice is resolving once |
| Brackets.ResolveBracketsLength | src/utils/resolveBrackets.ts:3-4 | each replaced entity shortens the text by four characters |
| Brackets.ResolveBracketsKeepsText | src/utils/resolveBrackets.ts:3-4 | each pass cuts its input at the entity into entity-free pieces that join back to the input, and joins those pieces with the bracket |
| Brackets.UnescapeOpenSkipsClose | src/utils/resolveBrackets.ts:3 | the first pass leaves a `&#93;` at the front untouched |
| Brackets.EscapedOpenIsLiteral | src/utils/resolveBrackets.ts:1-5 | an escaped `[` resolves exactly like a literal one, whatever surrounds it |
| Brackets.EscapedCloseIsLiteral | src/utils/resolveBrackets.ts:1-5 | an escaped `]` resolves exactly like a literal one, whatever surrounds it |
| Titles.CollapseRuns | src/utils/wiki.ts:30 | `replace(/[class]+/g, rep)`: never longer; every class character left is `rep`; no two class characters are adjacent; the first character is `rep` exactly when the input starts in the class. Its content is fixed by the two rows below |
| Titles.CollapseRunsAppend | src/utils/wiki.ts:30 | collapsing distributes over a concatenation that does not join two class characters |
| Titles.CollapseRunsUnits | src/utils/wiki.ts:30 | a non-empty run of class characters becomes one `rep`, and a single other character is kept |
| Titles.DropWhileAppend | src/utils/wiki.ts:30 | a run at the front of `x + y` ends inside `x`, or runs through all of `x` into `y` |
| Titles.MapClass | src/utils/wiki.ts:32 | one-for-one replacement of the class characters, the rest kept |
| Titles.CollapseSingletons | src/utils/wiki.ts:32 | on a text without adjacent class characters, collapsing runs is replacing characters one for one |
| Titles.CollapseBlank | src/utils/wiki.ts:30 | the collapsed text is all class characters exactly when the input was |
| Titles.SpacedSingle | src/utils/wiki.ts:36 | after collapsing and trimming, the only separator left is a lone space |
| Titles.SpacedEnds | src/utils/wiki.ts:36 | the trimmed text neither starts nor ends with a space or `_` |
| Titles.SpacedEmpty | src/utils/wiki.ts:36 | the trimmed text is empty exactly when the input holds only whitespace and `_` |
| Titles.TitleThrowsOnBlank | src/utils/wiki.ts:28-38 | both title forms throw (`title[0]` is undefined) exactly when the input is blank |
| Titles.DisplayTitle | src/utils/wiki.ts:35-38 | `getWikiDisplayTitle`: the collapsed and trimmed text with its first character raised, or the `TypeError` of `title[0]`; its properties are stated by the `Spaced` rows and `TitleThrowsOnBlank` |
| Titles.DBKey | src/utils/wiki.ts:28-34 | `getWikiTitleDBKey`: the same text with whitespace runs written as `_`; its properties are stated by `TitleThrowsOnBlank` and the `DBKey` rows |
| Titles.DBKeyShape | src/utils/wiki.ts:28-34 | a key has no whitespace, no `_` at either end, no two `_` in a row, and an upper-cased head |
| Titles.DBKeyIsDisplayUnderscored | src/utils/wiki.ts:28-38 | the key is the display title with every space written as `_`, and the two throw together |
| Titles.SpacedOfKey | src/utils/wiki.ts:35-37 | normalising a key only turns each `_` into a space |
| Titles.DBKeyFixesKeys | src/utils/wiki.ts:28-34 | a text of key shape is its own key |
| Titles.DBKeyIdempotent | src/utils/wiki.ts:28-34 | normalising a key again changes nothing |
| Wikilinks.RunLength | src/utils/wiki.ts:41 | `.` matches up to the first line terminator and no further |
| Wikilinks.LazyFrom | src/utils/wiki.ts:41 | lazy `(.+?)]]` stops at the first `]]` on the line, and finds none when the line has none |
| Wikilinks.LazyCaptures | src/utils/wiki.ts:41-44 | every capture of the lazy expression is non-empty and on one line |
| Wikilinks.LastCloseUpTo | src/index.ts:446 | greedy `.*]]` ends at the last `]]` within reach, and finds none when there is none |
| Wikilinks.LineEnd | src/index.ts:446 | the end of the line after a position: no line terminator before it, and a terminator or the end of the text at it |
| Wikilinks.PipedTail | src/index.ts:446 | after a pipe with a `]]` later on its line, the optional group `(?:\|.*)?` runs to the LAST `]]` on the line; otherwise the capture can end only with `]]` right there |
| Wikilinks.PipedFrom | src/index.ts:446 | the capture is the shortest one after which the rest of the expression matches |
| Wikilinks.PipedCaptures | src/index.ts:446-448 | every capture of the piped expression is non-empty and on one line |
| Wikilinks.PipedTailAtEnd | src/index.ts:446 | a pipe whose line ends in `]]` has its tail at the end of the line |
| Wikilinks.PipedFromFirst | src/index.ts:446 | the scan returns the first position at which the rest of the expression matches |
| Wikilinks.PipedFromAtPipe | src/index.ts:446 | a capture of plain characters followed by a pipe whose line ends in `]]` ends at the pipe, and the match runs to the end of the line |
| Wikilinks.PipedCapturesAtPipe | src/index.ts:446-448 | such a match captures the text before the pipe, and the search resumes at the end of the line |
| Wikilinks.PipedLinkSwallowsLine | src/index.ts:446-448 | for every piped link `[[x|m]]` whose line ends with it, the captures are `x` followed by the captures of the following lines: whatever else is on the line, later links included, is swallowed |
| Wikilinks.PipedLinkSwallowsLaterLinks | src/index.ts:446-448 | a piped link `a`, pipe, `b` followed by the link `c` on its line has the single capture `a`: the greedy `.*` swallows the later link |
| Wikilinks.LazyFirstLink | src/utils/wiki.ts:41 | in a piped link followed by a second link, the lazy expression stops at the first `]]` |
| Wikilinks.LazySecondLink | src/utils/wiki.ts:41-44 | the search resumes after a match and finds the next link |
| Wikilinks.LazyFindsEveryLink | src/utils/wiki.ts:41-44 | a piped link `a`, pipe, `b` followed by the link `c` gives two lazy captures: the whole first link text and `c` |
| LinkTitles.LinkTarget | src/utils/wiki.ts:45 | `split('|')[0]`: a prefix of the capture without a pipe, which is the whole capture or is followed by a pipe |
| LinkTitles.MapThrowing | src/utils/wiki.ts:45-46 | a `map` with a throwing function succeeds exactly when every element succeeds, and then maps element by element |
| LinkTitles.NonEmptyKeepsAll | src/utils/wiki.ts:48 | filtering out empty strings keeps a list that holds none |
| LinkTitles.CaptureKeysShape | src/utils/wiki.ts:45-46 | every key of a successful map has key shape |
| LinkTitles.DedupeOfMap | src/utils/wiki.ts:43-46 | deduplicating the mapped keys lists each key once, each from some capture, in first-occurrence order |
| LinkTitles.ParseTitlesOrder | src/utils/wiki.ts:39-49 | a successful parse lists each key once, in the order in which the link targets first occur |
| LinkTitles.ParseTitlesAreKeys | src/utils/wiki.ts:39-49 | every parsed title has key shape |
| LinkTitles.ParseTitlesAreTargets | src/utils/wiki.ts:39-49 | a successful parse holds the key of every link target and nothing else |
| LinkTitles.ParseTitlesThrows | src/utils/wiki.ts:39-49 | the parse throws exactly when some link target is blank |
| LinkTitles.ParseTitlesFromText | src/utils/wiki.ts:39-49 | `parseTitlesFromText` as written: resolve the entities, key every lazy capture, dedupe, filter; its properties are stated by the `ParseTitles` rows |
| LinkTitles.EscapedBracketsAreLiteral | src/utils/wiki.ts:40 | parsing a text is parsing its resolved form |
| LinkTitles.FilterIsDead | src/utils/wiki.ts:48 | the final `filter((i) => !!i)` never removes anything |
| LinkTitles.KeepSucceeding | src/utils/wiki.ts:45-48 | the values of the elements that do not throw, and only those |
| LinkTitles.Outcomes | src/utils/wiki.ts:45-46 | the outcome of the key function on each capture, in order |
| LinkTitles.KeepSucceedingMembers | src/utils/wiki.ts:45-48 | a value is kept exactly when some capture maps to it without throwing |
| LinkTitles.KeepSucceedingOrder | src/utils/wiki.ts:45-48 | two kept values are in the order in which their successful outcomes first occur |
| LinkTitles.KeepSucceedingAppend | src/utils/wiki.ts:45-48 | keeping the successes distributes over concatenation, and keeps one element exactly when it succeeds |
| LinkTitles.TitlesFromText | src/utils/wiki.ts:39-49 | corrected parse: no duplicates, and every title is the key of some capture |
| LinkTitles.TitlesFromTextOrder | src/utils/wiki.ts:39-49 | the corrected parse holds exactly the keys of the captures that do not throw, in the order in which they first occur |
| LinkTitles.TitleIsKey | src/utils/wiki.ts:39-49 | each title of the corrected parse has key shape |
| LinkTitles.TitlesFromTextAreKeys | src/utils/wiki.ts:39-49 | every title of the corrected parse has key shape |
| LinkTitles.TitlesFromTextKeepsValid | src/utils/wiki.ts:39-49 | the corrected parse holds the key of every link whose target is not blank |
| LinkTitles.KeepSucceedingAgrees | src/utils/wiki.ts:45-46 | where the map as written succeeds, keeping the successes keeps everything |
| LinkTitles.TitlesFromTextAgrees | src/utils/wiki.ts:39-49 | where the parse as written succeeds, the corrected parse gives the same list |
| LinkTitles.BlankLinkCaptured | src/utils/wiki.ts:41-44 | `[[ ]]` and `[[_]]` are captured |
| LinkTitles.BlankLinkThrows | src/utils/wiki.ts:39-49 | `[[ ]]` makes the parse as written throw, and the corrected parse returns no title |
| Endpoint.ScriptName | src/utils/wiki.ts:57 | an absent or empty script is `index`; any other script is trimmed |
| Endpoint.GetUrl | src/utils/wiki.ts:51-59 | without parameters, the rewritten base alone; with parameters, the rewritten base, `?` and the encoded parameters |
| Endpoint.GetUrlForm | src/utils/wiki.ts:51-59 | `getUrl` of src, serializing with `URLSearchParams`; its properties are those of `GetUrl` |
| Endpoint.GetUrlQs | util/getUrl.js:1-12 | `getUrl` of util, serializing with `qs.stringify`; its properties are those of `GetUrl` |
| Endpoint.Rewrite | src/utils/wiki.ts:55-58 | the base with its first `/api.php` replaced by the script path; its properties are stated by the `Rewrite` rows |
| Endpoint.FirstOccurrenceAfter | src/utils.ts:16-17 | the first `/api.php` of `a + "/api.php" + b` is the one after `a` when `a` holds none |
| Endpoint.ReplaceApiPhp | src/utils.ts:16-19 | only the first `/api.php` is replaced |
| Endpoint.RewriteFirstOnly | src/utils.ts:16-19 | a given script replaces the first `/api.php` with `/<trimmed script>.php`, and the rest of the base is kept |
| Endpoint.RewriteDefaultScript | util/getUrl.js:8-11 | an omitted or empty script gives `/index.php` |
| Endpoint.RewriteWithoutApiPhp | src/utils/wiki.ts:55-58 | a base without `/api.php` is kept as it is |
| Endpoint.IsValidApi | src/utils.ts:22-34 | valid exactly when the URL parses, its protocol starts with `http` and its path ends with `/api.php` |
| Endpoint.TrimKeepsOut | src/utils.ts:18 | trimming adds no character |
| SiteRequest.BaseRequest | src/index.ts:147-151 | the plugin's proxy, else the global one; the global headers overlaid by the plugin's |
| SiteRequest.GetWikiRequest | src/index.ts:146-160 | the loop over `siteRequest` ends in the fold of every rule over the base settings |
| SiteRequest.FoldRules | src/index.ts:152-159 | the settings after the loop has visited a prefix of the rules; the rows below state what they hold |
| SiteRequest.LastProxyRule | src/index.ts:152-154 | the last rule that matches the endpoint and sets a proxy |
| SiteRequest.LastHeaderRule | src/index.ts:152-158 | the last rule that matches the endpoint and sets a given header |
| SiteRequest.ProxyFromLastMatch | src/index.ts:152-154 | the proxy is that of the last matching rule that sets one, else the base proxy |
| SiteRequest.HeaderFromLastMatch | src/index.ts:155-158 | each header comes from the last matching rule that sets it; otherwise it is the base header, and absent when the base lacks it |
| SiteRequest.NonMatchingRulesIgnored | src/index.ts:152-153 | rules whose `url` does not occur in the endpoint change nothing |
| Bindings.GetMwApi | src/index.ts:170-183 | the user's binding in a private chat, the channel's in a group, the default of the kind when unbound and allowed; nothing in other chats |
| Bindings.GetMwApiDefaultOnlyWhenUnbound | src/index.ts:174-181 | the default is used only when no binding exists, and never when defaults are not allowed |
| Bindings.SanitizeDefaults | src/index.ts:129-140 | an invalid configured default is dropped; a valid one is kept |
| Bindings.Int32 | src/index.ts:421-424 | the XOR result as a signed 32-bit integer: in range and congruent modulo 2^32 |
| Bindings.DefaultFlags | src/index.ts:142-144 | the search bit is set exactly when `searchNonExist` is configured, and the infobox bit exactly when `infoboxDetails` is |
| Bindings.FlagFromChat | src/index.ts:185-191 | the stored number, else the defaults |
| Bindings.GetMwFlag | src/index.ts:193-199 | the flag of the user in a private chat, of the channel in a group, else the defaults |
| Bindings.HasFlag | src/index.ts:301 | `(flag & bit) !== 0` for one of the two bits; `FlagBitsMod4` states which remainders set it |
| Bindings.Toggle | src/index.ts:420-425 | `flag ^ bit` as a signed 32-bit value; `ToggleSearchBit`, `ToggleInfoboxBit` and `ToggleTwice` state its effect |
| Bindings.FlagReport | src/index.ts:413-418 | the report of the two settings of a flag, each `true` or `false` |
| Bindings.IsRemoveWord | src/index.ts:377 | the four arguments of `wiki.link` that remove a binding |
| Bindings.Int32KeepsBits | src/index.ts:301 | reducing to 32 bits keeps both flag bits |
| Bindings.FlagBitsMod4 | src/index.ts:301 | the two bit tests read the flag modulo 4 |
| Bindings.ToggleSearchBit | src/index.ts:423-425 | toggling the search bit flips it and keeps the infobox bit |
| Bindings.ToggleInfoboxBit | src/index.ts:420-422 | toggling the infobox bit flips it and keeps the search bit |
| Bindings.Int32Identity | src/index.ts:421 | a value already in 32-bit range is kept |
| Bindings.FlipStaysInt32 | src/index.ts:421-424 | flipping one bit of an in-range flag stays in range |
| Bindings.ToggleTwice | src/index.ts:420-425 | toggling the same bit twice restores the flag |
| Bindings.Chat.Link | src/index.ts:367-389 | without an argument: reports the binding, else the default, else the hint. A remove word clears an existing binding. A valid endpoint becomes the binding and reruns the command. Anything else is rejected with the binding unchanged. The flag is never touched |
| Bindings.Chat.Flag | src/index.ts:409-426 | without options: the report of the current flag. `-s` toggles the search bit and `-i` the infobox bit. With both, the second assignment starts from the same current flag, so the infobox bit ends up unchanged. The binding is never touched |
| Bindings.LinkCommand | src/index.ts:354-390 | other chat kinds and a missing record throw. Otherwise the record of the chat kind is linked with the kind's name and default, with every outcome of `Chat.Link` stated for that record: the report, the cleared binding, the new binding with a rerun, or the rejection, and the flag untouched |
| Bindings.FlagCommand | src/index.ts:398-427 | other chat kinds and a missing record throw. Otherwise the record of the chat kind gets every outcome of `Chat.Flag`: the report of the current flag, or the toggled bit and a rerun, and the binding untouched |
| Resolution.DangerPages | src/index.ts:658-663 | exactly the aliases of Mypage and Mytalk |
| Resolution.GetPageSafe | src/index.ts:646-684 | with an interwiki: the first redirect, page and interwiki. Without one: throws when namespace -1 is missing, and throws when a redirect source is exactly that namespace's name. A redirect from a dangerous alias is dropped and the page becomes a plain special page for the source. Any other redirect is kept |
| Resolution.SplitAfterName | src/index.ts:666 | splitting `x:t` at `:` gives `x` and the pieces of `t` when `x` holds no `:` |
| Resolution.FirstSegment | src/index.ts:672 | the first `/`-piece of `alias/u` is `alias` |
| Resolution.RedirectTitleOf | src/index.ts:666-672 | for `ns:alias` followed by nothing, by `/` or by `:`, the namespace piece is `ns` and the first `/`-piece of the title piece is `alias` |
| Resolution.DangerousRedirectsAreMasked | src/index.ts:664-682 | every redirect `<namespace -1>:<dangerous alias>`, bare or followed by `/` or `:` and anything, is masked |
| Resolution.DangerCheck | src/index.ts:664-672 | the masking condition of `getPageSafe`; `DangerCheckIff` states it in full |
| Resolution.SegmentOf | src/index.ts:666-672 | the text up to the first `:` or `/`: a prefix free of both, followed by one of them or by the end |
| Resolution.SegmentIsPrefixBefore | src/index.ts:666-672 | the title piece up to `:`, then up to `/`, is the segment up to the first `:` or `/` |
| Resolution.DangerCheckIff | src/index.ts:664-673 | when the local name of namespace -1 holds no `:`, a redirect is masked exactly when its source is that name, a `:`, and a dangerous alias ended by `:`, `/` or the end |
| Resolution.MaskedSourceParts | src/index.ts:664-673 | a masked source is the namespace name, `:`, and a text whose segment before `:` and then `/` is a dangerous alias |
| Resolution.OtherRedirectsAreKept | src/index.ts:666-673 | a redirect source that does not start with the namespace name and `:` is never masked |
| WikiCommand.Truncate | src/index.ts:705 | at most limit + 3 characters; a text within the limit is kept; a longer one keeps its first `limit` characters and ends in `...` |
| WikiCommand.TruncateUnchangedIff | src/index.ts:705 | truncation leaves the text unchanged exactly when it is within the limit, or is three characters over and those are `...` |
| WikiCommand.TruncateKeepsShort | src/index.ts:705 | truncating a short text twice is the identity; a changed text was over the limit and keeps its prefix |
| WikiCommand.PageIntro | src/index.ts:687-710 | a thrown request gives `""`; otherwise the trimmed paragraph text, truncated |
| WikiCommand.PageIntroEmptyIff | src/index.ts:701-708 | the intro is empty exactly when the request threw or the text is blank, and it is never over limit + 3 characters |
| WikiCommand.BranchOf | src/index.ts:291-308 | invalid, then special, then missing, else normal, each an if-and-only-if |
| WikiCommand.Anchor | src/index.ts:268-288 | a redirect's target fragment replaces the title's anchor |
| WikiCommand.GoSearch | src/index.ts:299-302 | the `-s` option when given, else the search bit of the flag |
| WikiCommand.PageLinesShape | src/index.ts:279-315 | the header first; the redirect line second exactly when there was a redirect; the branch line; an intro line only for a normal page with `-d` and a non-empty intro |
| WikiCommand.PageLines | src/index.ts:279-315 | the lines about a page; `PageLinesShape` states their shape |
| WikiCommand.QueryLines | src/index.ts:277-315 | one line for an interwiki, else the page lines; `WikiAction` states the reply built from them |
| WikiCommand.EditUrlText | src/index.ts:303-305 | `${page.editurl}`: the edit link, or `undefined` when the page has none |
| WikiCommand.AnswerPage | src/index.ts:279-331 | the page lines. The search fallback happens exactly for a missing page with the search on. The infobox is shot exactly for a normal page with `-d`, the infobox bit and the screenshot service, and then of the page's `curid` URL |
| WikiCommand.WikiAction | src/index.ts:260-346 | no endpoint: empty (`-q`) or `wiki.link`. No title: the script URL. A thrown lookup: the error text. Otherwise the quote and the lines, with the search and infobox rules, and an interwiki answered by its URL and the anchor alone |
| WikiCommand.MaskedRedirectLines | src/index.ts:291-297 | a masked redirect is answered by the header and the special-page line for the redirect source |
| WikiCommand.WikiFromQuery | src/index.ts:274-297 | without namespace -1 the reply is the error text. A dangerous redirect, in the sense of `DangerousSource`, never reaches the reply, which shows the special-page line, no search and no infobox |
| Middleware.ShortcutTitles | src/index.ts:445-449 | the distinct captures of the piped expression in the resolved content, non-empty, in first-occurrence order |
| Middleware.CommandsFor | src/index.ts:461-463 | one `wiki -q` command per title, in order |
| Middleware.ShortcutCommands | src/index.ts:440-464 | nothing unless the content is non-empty, the event is a message, and the chat is a group or private chat; otherwise one command per title, each starting `wiki -q ` and ending with the title |
| Middleware.CommandShape | src/index.ts:462 | each command starts with `wiki -q ` and ends with a space and the title |
| Middleware.SearchOptionRule | src/index.ts:458-462 | `-s` exactly when there is one title and the flag's search bit is set; otherwise the option slot is empty |
| Middleware.SearchOption | src/index.ts:458-459 | the option slot of the shortcut commands; `SearchOptionRule` states it |
| Middleware.NoAmpersandNoEntity | src/index.ts:445 | a text without `&` holds neither bracket entity |
| Middleware.SingleCaptureTitle | src/index.ts:448-449 | a single repeated capture gives a single query |
| Middleware.PipedLinkHidesLaterTitles | src/index.ts:445-449 | a message with a piped link `a`, pipe, `b` followed by the link `c` runs one query, for `a` |
| Middleware.PipedLinkHidesLine | src/index.ts:445-449 | for every message that is one piped link `[[x|m]]` with no `&`, one query runs, for `x`: the piped part is never queried |
| Middleware.DeliveryAsWritten | src/index.ts:465-466 | as written: a message is always sent, holding the non-empty answers joined by the separator |
| Middleware.Delivery | src/index.ts:465-466 | as intended: nothing is sent exactly when every answer is empty; otherwise the joined non-empty answers, which are non-empty |
| Middleware.JoinNonEmpty | src/index.ts:466 | a join whose first element is non-empty is non-empty |
| Middleware.EmptyAnswersStillSent | src/index.ts:465-466 | with only empty answers the code as written sends an empty message and the intended delivery sends none |
| Middleware.DeliveriesAgree | src/index.ts:465-466 | with some non-empty answer both deliveries send the same text |
| Infobox.ForHost | src/index.ts:566 | the filtered selectors are entries whose host is a suffix of the page's host |
| Infobox.ForHostMembers | src/index.ts:566 | an entry is a candidate exactly when it is in the table and its host is a suffix of the page's host |
| Infobox.FirstPresent | src/index.ts:572-578 | the first candidate present on the page; none when no candidate is present |
| Infobox.ChooseSelector | src/index.ts:562-579 | a URL that does not parse throws; otherwise the first candidate present on the page, in table order, else the missing-selector error |
| Infobox.FirstPresentIs | src/index.ts:573-578 | the loop's break index is the first present candidate |
| Infobox.ForHostKeepsOrder | src/index.ts:566 | filtering keeps the table order |
| Infobox.UnknownHostHasNoSelector | src/index.ts:566-579 | a host that matches no table entry has no candidate |
| Legacy.FailureText | index.js:52 | the error text: `出现了亿点问题`, then `：` and the request's error when there is one, then `。` |
| Legacy.LegacyPageUrl | index.js:80 | the `curid` link through `qs`; without a page id, `qs` drops the key and the link is the script and `?` |
| Legacy.LegacyLinesShape | index.js:57-105 | the header; the redirect line exactly when `redirects` is non-empty, without a fragment; then invalid, missing or the page link, in that order; an extract of at most 153 characters only for a normal page with `-d` and a non-blank text |
| Legacy.LegacyLines | index.js:57-105 | the lines of the legacy reply, or the exception they throw; `LegacyLinesShape` states their shape |
| Legacy.MissingParseThrows | index.js:83-98 | with `-d`, a parse response without `parse` makes the action throw; without `-d` it does not |
| Legacy.LegacyWiki | index.js:32-109 | no endpoint: empty (`-q`) or `wiki.link`. No title: the script URL. No `query`: the error text. Otherwise the quote and the lines, or the exception the lines throw |
| Legacy.LegacyLink | index.js:117-129 | without an argument: reports the binding or the hint. A valid endpoint becomes the binding and reruns the command. Anything else is rejected with the binding unchanged |
| Legacy.SwapBraces | index.js:175 | the text with `{`/`[` and `}`/`]` exchanged, character by character |
| Legacy.SwapBracesTwice | index.js:175 | the exchange undoes itself |
| Legacy.TemplateCaptures | index.js:175 | the captures of the template expression, each non-empty, as the link captures of the exchanged text exchanged back |
| Legacy.LegacyShortcut | index.js:170-182 | one command for the first link, then one with `--details` for the first template |
| Legacy.NoOpenNoLinks | index.js:174 | a text without `[` has no link |
| Legacy.FirstTitleIsFirstCapture | src/index.ts:448-449 | the first deduplicated title is the first capture |
| Legacy.LegacyFollowsFirstTitle | index.js:173-178 | without templates, the legacy middleware queries only the first of the titles the current middleware queries |
| Legacy.PipedTemplateSwallowsLaterTemplates | index.js:175-181 | a piped template `a`, pipe, `b` followed by the template `c` runs a single `--details` query, for `a` |
| Legacy.Upper | index.js:235 | ASCII upper-casing, character by character |
| Legacy.JoinSnoc | index.js:245-247 | joining with one more piece puts the separator in front of it |
| Strings.CharContains | index.js:244-247 | a character is in a text exactly when it occurs there as a one-character text |
| Legacy.Directory | index.js:242-248 | the directory ends with `/` and is the pathname up to and including its last `/`, or `/` alone when the pathname has none |
| Legacy.RelativeParts | index.js:249 | the origin, the directory and the URL are where the relative branch put them |
| Legacy.ResolveUrl | index.js:231-253 | the blank-page URL must parse, or the call throws. Then an `http://`, `https://` or `//` URL in any letter case is kept; a root-relative one gets the origin; any other gets the origin and the directory of the blank page's path |

## Left out

- Koishi plumbing is not modelled: command registration, option parsing, user and channel observation, database writes (`$update`, `_update`) and message sending. The model's methods return what would be sent or executed.
- Asynchrony is not modelled: `await`, `Promise.all` over the middleware's commands, the detached infobox screenshot, and the order in which replies arrive.
- The network requests are inputs, not calls: site info, queries, parse requests, the page fetch of the infobox, and the search behind `searchWiki`.
- The `searchWiki` dialogue and the `wiki.search`, `wiki.parse` rendering and `wiki.shot` commands are not modelled, except `resolveUrl`. They are prompts, network calls and a headless browser.
- The DOM work is not modelled: the cheerio extraction of the intro paragraphs, pruning the infobox's siblings, and the screenshot. The paragraph text, and whether a selector matches, are inputs.
- `useApi` and its mock-header interceptor are not modelled (src/utils/wiki.ts:14-26). It only builds a client.
- The rest of `getWiki` is not modelled: the `Wiki` and `RequestManager` construction and `ProxyAgent`.
- Header order is not modelled. Headers are a `map`, so the key order of the object spread is not kept.
- `new URL`, `URLSearchParams`, `qs.stringify` and `encodeURI` are arbitrary functions of the `Host` parameter. Their own behaviour, including `encodeURI` throwing on lone surrogates, is not modelled.
- Strings are sequences of characters, while JavaScript strings are UTF-16 code units. Lengths and the 150-character cut are counted in characters.
- `toUpperCase` raises ASCII letters only. Other scripts are left unchanged.
- Whitespace (`\s`, `trim`) follows the ECMAScript set.
- Flags are whole numbers. A stored non-integer number is not modelled.
- The message's quote segment is an input string.
- The `pages` object of a query is a sequence in the order `Object.keys` lists it.
- Legacy.LegacyWiki: a rejected parse request is not modelled separately. Only a response without `parse` throws.

## Findings

| source | as written | input that shows it | evidently intended | confidence | as-written member | corrected member |
|---|---|---|---|---|---|---|
| src/utils/wiki.ts:39-49 | every capture's target is passed to `getWikiTitleDBKey`, which throws on a blank target, so the whole parse throws and the final `filter((i) => !!i)` never sees an empty title | the text `[[ ]]` | drop links with a blank target and keep the others, as the filter suggests | not executed | LinkTitles.BlankLinkThrows | LinkTitles.TitlesFromText |
| src/index.ts:465-466 | `msg.filter(...)` returns an array, and an array is always truthy, so `if (msg)` always holds | two titles whose `wiki -q` answers are both `""` | send nothing when no answer is left | not executed | Middleware.EmptyAnswersStillSent | Middleware.Delivery |
