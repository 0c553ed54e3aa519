/**
 * Per-chat state of src/index.ts: the endpoint a user or channel is bound to
 * (`mwApi`), its option bits (`mwFlag`), the configured defaults, and the
 * `wiki.link` and `wiki.flag` commands that change them.
 */
module Bindings {
  import opened Wrappers
  import opened Strings
  import opened Endpoint

  /** `session.subtype`. */
  datatype Subtype = Private | Group | OtherSubtype

  /** `config.defaultApi`; an absent default is `""`. */
  datatype DefaultApi = DefaultApi(group: string, private: string)

  /** The default for a chat kind. */
  function DefaultFor(defaults: DefaultApi, subtype: Subtype): string {
    match subtype
    case Private => defaults.private
    case Group => defaults.group
    case OtherSubtype => ""
  }

  /**
   * `getMwApi(session, useDefault)`: the user binding in a private chat, the
   * channel binding in a group, else `""` (undefined); an empty binding falls
   * back to the configured default only when `useDefault` holds.
   */
  function GetMwApi(subtype: Subtype, userApi: string, channelApi: string, defaults: DefaultApi, useDefault: bool): (r: string)
    ensures subtype == OtherSubtype ==> r == ""
    ensures subtype == Private && userApi != "" ==> r == userApi
    ensures subtype == Group && channelApi != "" ==> r == channelApi
  {
    match subtype
    case Private => if userApi == "" && useDefault then defaults.private else userApi
    case Group => if channelApi == "" && useDefault then defaults.group else channelApi
    case OtherSubtype => ""
  }

  /** A binding always wins; the default is used exactly when there is no binding and `useDefault` holds. */
  lemma GetMwApiDefaultOnlyWhenUnbound(subtype: Subtype, userApi: string, channelApi: string, defaults: DefaultApi)
    ensures var bound := GetMwApi(subtype, userApi, channelApi, defaults, false);
      && (bound != "" ==> GetMwApi(subtype, userApi, channelApi, defaults, true) == bound)
      && (bound == "" ==> GetMwApi(subtype, userApi, channelApi, defaults, true) == DefaultFor(defaults, subtype))
      && (subtype == Private ==> bound == userApi)
      && (subtype == Group ==> bound == channelApi)
  {
  }

  /** The start-up check: a configured default that is not a valid endpoint is dropped. */
  function SanitizeDefaults(host: Host, d: DefaultApi): (r: DefaultApi)
    ensures r.private == d.private || r.private == ""
    ensures r.group == d.group || r.group == ""
    ensures r.private != "" ==> IsValidApi(host, r.private)
    ensures r.group != "" ==> IsValidApi(host, r.group)
    ensures IsValidApi(host, d.private) ==> r.private == d.private
    ensures IsValidApi(host, d.group) ==> r.group == d.group
  {
    DefaultApi(
      if d.group != "" && !IsValidApi(host, d.group) then "" else d.group,
      if d.private != "" && !IsValidApi(host, d.private) then "" else d.private)
  }

  /** `Flags.searchNonExist` and `Flags.infoboxDetails`. */
  const SEARCH_NON_EXIST: int := 1
  const INFOBOX_DETAILS: int := 2

  /** ECMAScript ToInt32 of an integer: the value modulo 2^32, read as signed. */
  function Int32(n: int): (r: int)
    ensures -0x8000_0000 <= r < 0x8000_0000
    ensures (r - n) % 0x1_0000_0000 == 0
  {
    (n + 0x8000_0000) % 0x1_0000_0000 - 0x8000_0000
  }

  /**
   * `(flag & bit) !== 0` for one of the two flag bits. The low bits of
   * ToInt32(flag) are those of `flag` modulo 4, which Euclidean `%` gives
   * for negative values too.
   */
  predicate HasFlag(flag: int, bit: int)
    requires bit == SEARCH_NON_EXIST || bit == INFOBOX_DETAILS
  {
    (flag % (2 * bit)) / bit == 1
  }

  /** `defaultFlags`: bit 2 from `infoboxDetails`, bit 1 from `searchNonExist`; the two bits are disjoint, so `|` adds. */
  function DefaultFlags(infoboxDetails: bool, searchNonExist: bool): (r: int)
    ensures 0 <= r <= 3
    ensures HasFlag(r, SEARCH_NON_EXIST) <==> searchNonExist
    ensures HasFlag(r, INFOBOX_DETAILS) <==> infoboxDetails
  {
    (if infoboxDetails then INFOBOX_DETAILS else 0) + (if searchNonExist then SEARCH_NON_EXIST else 0)
  }

  /** `getMwFlagFromChat`: the stored flag when it is a number, else the defaults. */
  function FlagFromChat(stored: Option<int>, defaultFlags: int): (r: int)
    ensures stored.Some? ==> r == stored.value
    ensures stored.None? ==> r == defaultFlags
  {
    match stored
    case Some(f) => f
    case None => defaultFlags
  }

  /** `flag ^ bit` for one of the two flag bits: the bit is cleared when set and set when clear, in 32 bits. */
  function Toggle(flag: int, bit: int): int
    requires bit == SEARCH_NON_EXIST || bit == INFOBOX_DETAILS
  {
    Int32(if HasFlag(flag, bit) then flag - bit else flag + bit)
  }

  /** Reducing modulo 2^32 keeps both flag bits. */
  lemma Int32KeepsBits(n: int)
    ensures HasFlag(Int32(n), SEARCH_NON_EXIST) == HasFlag(n, SEARCH_NON_EXIST)
    ensures HasFlag(Int32(n), INFOBOX_DETAILS) == HasFlag(n, INFOBOX_DETAILS)
  {
    var q := (Int32(n) - n) / 0x1_0000_0000;
    assert Int32(n) == n + 4 * (0x4000_0000 * q);
    AddFourfold(n, 0x4000_0000 * q);
    FlagBitsMod4(n);
    FlagBitsMod4(Int32(n));
  }

  /** Adding a multiple of four leaves the remainder modulo four. */
  lemma AddFourfold(n: int, k: int)
    ensures (n + 4 * k) % 4 == n % 4
  {
    var d := n / 4;
    assert n == 4 * d + n % 4;
    assert n + 4 * k == 4 * (d + k) + n % 4;
  }

  /** The two flag bits of `flag` are those of `flag % 4`. */
  lemma FlagBitsMod4(flag: int)
    ensures HasFlag(flag, SEARCH_NON_EXIST) <==> flag % 4 == 1 || flag % 4 == 3
    ensures HasFlag(flag, INFOBOX_DETAILS) <==> flag % 4 == 2 || flag % 4 == 3
  {
    var r := flag % 4;
    var q := flag / 4;
    assert flag == r + 2 * (2 * q);
    AddTwofold(r, 2 * q);
  }

  /** Adding an even number leaves the remainder modulo two. */
  lemma AddTwofold(n: int, k: int)
    ensures (n + 2 * k) % 2 == n % 2
  {
    var d := n / 2;
    assert n == 2 * d + n % 2;
    assert n + 2 * k == 2 * (d + k) + n % 2;
  }

  /** Toggling the search bit flips it and keeps the infobox bit. */
  lemma ToggleSearchBit(flag: int)
    ensures HasFlag(Toggle(flag, SEARCH_NON_EXIST), SEARCH_NON_EXIST) == !HasFlag(flag, SEARCH_NON_EXIST)
    ensures HasFlag(Toggle(flag, SEARCH_NON_EXIST), INFOBOX_DETAILS) == HasFlag(flag, INFOBOX_DETAILS)
  {
    var n := if HasFlag(flag, SEARCH_NON_EXIST) then flag - 1 else flag + 1;
    Int32KeepsBits(n);
    FlagBitsMod4(flag);
    FlagBitsMod4(n);
    assert n % 4 == (if flag % 4 == 1 then 0 else if flag % 4 == 3 then 2 else if flag % 4 == 0 then 1 else 3) by {
      var q := flag / 4;
      assert flag == 4 * q + flag % 4;
    }
  }

  /** Toggling the infobox bit flips it and keeps the search bit. */
  lemma ToggleInfoboxBit(flag: int)
    ensures HasFlag(Toggle(flag, INFOBOX_DETAILS), INFOBOX_DETAILS) == !HasFlag(flag, INFOBOX_DETAILS)
    ensures HasFlag(Toggle(flag, INFOBOX_DETAILS), SEARCH_NON_EXIST) == HasFlag(flag, SEARCH_NON_EXIST)
  {
    var n := if HasFlag(flag, INFOBOX_DETAILS) then flag - 2 else flag + 2;
    Int32KeepsBits(n);
    FlagBitsMod4(flag);
    FlagBitsMod4(n);
    assert n % 4 == (flag % 4 + 2) % 4 by {
      var q := flag / 4;
      assert flag == 4 * q + flag % 4;
    }
  }

  /** On 32-bit values ToInt32 is the identity. */
  lemma Int32Identity(n: int)
    requires -0x8000_0000 <= n < 0x8000_0000
    ensures Int32(n) == n
  {
  }

  /** Flipping a flag bit of a 32-bit value stays within 32 bits. */
  lemma FlipStaysInt32(flag: int, bit: int)
    requires bit == SEARCH_NON_EXIST || bit == INFOBOX_DETAILS
    requires -0x8000_0000 <= flag < 0x8000_0000
    ensures var n := if HasFlag(flag, bit) then flag - bit else flag + bit; -0x8000_0000 <= n < 0x8000_0000
  {
    var m := 2 * bit;
    var q := flag / m;
    assert flag == m * q + flag % m;
    if bit == 1 {
      assert flag == 2 * q + flag % 2;
    } else {
      assert flag == 4 * q + flag % 4;
    }
  }

  /** On a 32-bit value, toggling the same bit twice restores the flag. */
  lemma ToggleTwice(flag: int, bit: int)
    requires bit == SEARCH_NON_EXIST || bit == INFOBOX_DETAILS
    requires -0x8000_0000 <= flag < 0x8000_0000
    ensures Toggle(Toggle(flag, bit), bit) == flag
  {
    var once := if HasFlag(flag, bit) then flag - bit else flag + bit;
    FlipStaysInt32(flag, bit);
    Int32Identity(once);
    ToggleSearchBit(flag);
    ToggleInfoboxBit(flag);
    assert HasFlag(once, bit) == !HasFlag(flag, bit);
    Int32Identity(flag);
  }

  /** What a command hands back to the chat host: a text to send, or another command to run. */
  datatype Reply = Say(text: string) | Execute(command: string)

  /** The chat kind as the replies name it. */
  function Here(subtype: Subtype): string {
    match subtype
    case Group => "本群"
    case _ => "您的查询"
  }

  /** The arguments of `wiki.link` that remove a binding. */
  predicate IsRemoveWord(api: string) {
    api == "r" || api == "remove" || api == "none" || api == "null"
  }

  const LINK_HINT := "请使用“wiki.link <api网址>”进行连接。"
  const INVALID_API := "输入的不是合法 api.php 网址。"

  /** `"true"` or `"false"`, as a template literal prints a boolean. */
  function BoolText(b: bool): string {
    if b then "true" else "false"
  }

  /** The reply of `wiki.flag` without options. */
  function FlagReport(flag: int): string {
    "当前设置：" + "    自动搜索：" + BoolText(HasFlag(flag, SEARCH_NON_EXIST))
    + "    信息框：" + BoolText(HasFlag(flag, INFOBOX_DETAILS))
  }

  /** A user or a channel record: its endpoint binding (`""` when unbound) and its stored flag. */
  class Chat {
    var mwApi: string
    var mwFlag: Option<int>

    constructor(mwApi: string, mwFlag: Option<int>)
      ensures this.mwApi == mwApi && this.mwFlag == mwFlag
    {
      this.mwApi := mwApi;
      this.mwFlag := mwFlag;
    }

    /**
     * `wiki.link [api]` on this record; `fallback` is the configured default
     * for the chat kind. Without an argument it only reports; a remove word
     * clears an existing binding; a valid endpoint becomes the binding and the
     * command reruns itself to report it; anything else is rejected.
     */
    method Link(host: Host, here: string, api: string, fallback: string) returns (reply: Reply)
      modifies this
      ensures mwFlag == old(mwFlag)
      ensures api == "" ==> mwApi == old(mwApi) && reply == Say(
        if old(mwApi) != "" then here + "已与 " + old(mwApi) + " 连接。"
        else if fallback != "" then here + "已与默认站点 " + fallback + " 连接。" + LINK_HINT
        else here + "未连接到 MediaWiki 网站。" + LINK_HINT)
      ensures api != "" && IsRemoveWord(api) && old(mwApi) == "" ==>
        mwApi == "" && reply == Say(here + "未连接到 MediaWiki 网站。")
      ensures api != "" && IsRemoveWord(api) && old(mwApi) != "" ==>
        mwApi == "" && reply == Say(here + "已清除与 " + old(mwApi) + " 的连接")
      ensures api != "" && !IsRemoveWord(api) && IsValidApi(host, api) ==>
        mwApi == api && reply == Execute("wiki.link")
      ensures api != "" && !IsRemoveWord(api) && !IsValidApi(host, api) ==>
        mwApi == old(mwApi) && reply == Say(INVALID_API)
    {
      if api == "" {
        var mwApiSet := mwApi;
        var shown := if mwApiSet != "" then mwApiSet else fallback;
        if mwApiSet != "" {
          reply := Say(here + "已与 " + mwApiSet + " 连接。");
        } else {
          var msg := if shown != "" then here + "已与默认站点 " + shown + " 连接。" else here + "未连接到 MediaWiki 网站。";
          reply := Say(msg + LINK_HINT);
        }
      } else if IsRemoveWord(api) {
        var oldApi := mwApi;
        if oldApi == "" {
          reply := Say(here + "未连接到 MediaWiki 网站。");
        } else {
          mwApi := "";
          reply := Say(here + "已清除与 " + oldApi + " 的连接");
        }
      } else if IsValidApi(host, api) {
        mwApi := api;
        reply := Execute("wiki.link");
      } else {
        reply := Say(INVALID_API);
      }
    }

    /**
     * `wiki.flag [-i] [-s]` on this record. Both toggles start from the same
     * current flag, so with both options only the search bit ends up toggled.
     */
    method Flag(defaultFlags: int, infobox: bool, search: bool) returns (reply: Reply)
      modifies this
      ensures mwApi == old(mwApi)
      ensures var current := FlagFromChat(old(mwFlag), defaultFlags);
        && (!infobox && !search ==> mwFlag == old(mwFlag) && reply == Say(FlagReport(current)))
        && (search ==> mwFlag == Some(Toggle(current, SEARCH_NON_EXIST)) && reply == Execute("wiki.flag"))
        && (infobox && !search ==> mwFlag == Some(Toggle(current, INFOBOX_DETAILS)) && reply == Execute("wiki.flag"))
        && (infobox && search ==> HasFlag(mwFlag.value, INFOBOX_DETAILS) == HasFlag(current, INFOBOX_DETAILS))
    {
      var currentFlag := FlagFromChat(mwFlag, defaultFlags);
      if !infobox && !search {
        reply := Say(FlagReport(currentFlag));
        return;
      }
      if infobox {
        mwFlag := Some(Toggle(currentFlag, INFOBOX_DETAILS));
      }
      if search {
        mwFlag := Some(Toggle(currentFlag, SEARCH_NON_EXIST));
        ToggleSearchBit(currentFlag);
      }
      reply := Execute("wiki.flag");
    }
  }

  /** The record a command acts on: the user in a private chat, the channel in a group. */
  function ChatOf(subtype: Subtype, user: Chat?, channel: Chat?): Chat? {
    match subtype
    case Private => user
    case Group => channel
    case OtherSubtype => null
  }

  /**
   * The `wiki.link` action: other chat kinds and a missing record throw;
   * otherwise the record of the chat kind is linked, with the kind's default
   * as fallback.
   */
  method LinkCommand(host: Host, subtype: Subtype, user: Chat?, channel: Chat?, defaults: DefaultApi, api: string)
    returns (r: Result<Reply>)
    modifies ChatOf(subtype, user, channel)
    ensures subtype == OtherSubtype ==> r == Thrown("Should stopped by the checker.")
    ensures subtype != OtherSubtype && ChatOf(subtype, user, channel) == null ==> r == Thrown("Missing channel or user in session")
    ensures r.Ok? ==> ChatOf(subtype, user, channel) != null
    ensures subtype != OtherSubtype && ChatOf(subtype, user, channel) != null ==>
      var chat, here, fallback := ChatOf(subtype, user, channel), Here(subtype), DefaultFor(defaults, subtype);
      && r.Ok? && chat.mwFlag == old(chat.mwFlag)
      && (api == "" ==> chat.mwApi == old(chat.mwApi) && r.value == Say(
            if old(chat.mwApi) != "" then here + "已与 " + old(chat.mwApi) + " 连接。"
            else if fallback != "" then here + "已与默认站点 " + fallback + " 连接。" + LINK_HINT
            else here + "未连接到 MediaWiki 网站。" + LINK_HINT))
      && (api != "" && IsRemoveWord(api) ==> chat.mwApi == "" && r.value == Say(
            if old(chat.mwApi) == "" then here + "未连接到 MediaWiki 网站。"
            else here + "已清除与 " + old(chat.mwApi) + " 的连接"))
      && (api != "" && !IsRemoveWord(api) && IsValidApi(host, api) ==>
            chat.mwApi == api && r.value == Execute("wiki.link"))
      && (api != "" && !IsRemoveWord(api) && !IsValidApi(host, api) ==>
            chat.mwApi == old(chat.mwApi) && r.value == Say(INVALID_API))
  {
    if subtype == OtherSubtype {
      return Thrown("Should stopped by the checker.");
    }
    var chat := ChatOf(subtype, user, channel);
    if chat == null {
      return Thrown("Missing channel or user in session");
    }
    var reply := chat.Link(host, Here(subtype), api, DefaultFor(defaults, subtype));
    r := Ok(reply);
  }

  /** The `wiki.flag` action, with the same guards as `wiki.link`. */
  method FlagCommand(subtype: Subtype, user: Chat?, channel: Chat?, defaultFlags: int, infobox: bool, search: bool)
    returns (r: Result<Reply>)
    modifies ChatOf(subtype, user, channel)
    ensures subtype == OtherSubtype || ChatOf(subtype, user, channel) == null ==> r == Thrown("Should stopped by the checker.")
    ensures r.Ok? ==> ChatOf(subtype, user, channel) != null
    ensures subtype != OtherSubtype && ChatOf(subtype, user, channel) != null ==>
      var chat := ChatOf(subtype, user, channel);
      var current := FlagFromChat(old(chat.mwFlag), defaultFlags);
      && r.Ok? && chat.mwApi == old(chat.mwApi)
      && (!infobox && !search ==> chat.mwFlag == old(chat.mwFlag) && r.value == Say(FlagReport(current)))
      && (search ==> chat.mwFlag == Some(Toggle(current, SEARCH_NON_EXIST)) && r.value == Execute("wiki.flag"))
      && (infobox && !search ==> chat.mwFlag == Some(Toggle(current, INFOBOX_DETAILS)) && r.value == Execute("wiki.flag"))
  {
    var chat := ChatOf(subtype, user, channel);
    if subtype == OtherSubtype || chat == null {
      return Thrown("Should stopped by the checker.");
    }
    var reply := chat.Flag(defaultFlags, infobox, search);
    r := Ok(reply);
  }

  /** `getMwFlag(session)`: the flag of the chat kind's record, else the defaults. */
  function GetMwFlag(subtype: Subtype, userFlag: Option<Option<int>>, channelFlag: Option<Option<int>>, defaultFlags: int): (r: int)
    ensures subtype == Private && userFlag.Some? && userFlag.value.Some? ==> r == userFlag.value.value
    ensures subtype == Group && channelFlag.Some? && channelFlag.value.Some? ==> r == channelFlag.value.value
    ensures (!(subtype == Private && userFlag.Some? && userFlag.value.Some?)
             && !(subtype == Group && channelFlag.Some? && channelFlag.value.Some?)) ==> r == defaultFlags
  {
    var chat := match subtype case Private => userFlag case Group => channelFlag case OtherSubtype => None;
    match chat
    case Some(stored) => FlagFromChat(stored, defaultFlags)
    case None => defaultFlags
  }
}
