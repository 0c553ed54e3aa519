/**
 * The shortcut middleware of src/index.ts: every `[[title]]` in a chat
 * message runs a quiet `wiki` query, and the non-empty answers are sent back
 * as one message. Running the commands is the chat host's business; their
 * answers are an input of the delivery step.
 */
module Middleware {
  import opened Wrappers
  import opened Strings
  import opened Lists
  import opened Brackets
  import opened Wikilinks
  import opened Bindings

  const REPLY_SEPARATOR := "\n----\n"

  /** The middleware only looks at non-empty content of a message event in a group or a private chat. */
  predicate Applies(content: string, isMessage: bool, subtype: Subtype) {
    content != "" && isMessage && subtype != OtherSubtype
  }

  /**
   * The titles: the captures of `[[(.+?)(?:\|.*)?]]` in the content with its
   * escaped brackets resolved, each kept at its first occurrence.
   */
  function ShortcutTitles(content: string): (r: seq<string>)
    ensures NoDuplicates(r)
    ensures forall t :: t in r <==> t in PipedCaptures(ResolveBrackets(content))
    ensures forall i :: 0 <= i < |r| ==> r[i] != []
    ensures var caps := PipedCaptures(ResolveBrackets(content));
      forall i, j :: 0 <= i < j < |r| ==> FirstIndex(caps, r[i]) < FirstIndex(caps, r[j])
  {
    var caps := PipedCaptures(ResolveBrackets(content));
    var r := Dedupe(caps);
    forall t ensures t in r <==> t in caps {
      if t in caps {
        var i :| 0 <= i < |caps| && caps[i] == t;
      }
    }
    r
  }

  /** `'-s'` when there is exactly one title and the search bit of the chat's flag is set. */
  function SearchOption(count: nat, flag: int): string {
    if count == 1 && HasFlag(flag, SEARCH_NON_EXIST) then "-s" else ""
  }

  /** The command run for one title. */
  function ShortcutCommand(option: string, title: string): string {
    "wiki -q " + option + " " + title
  }

  /** The command of each title, in order. */
  function CommandsFor(titles: seq<string>, option: string): (r: seq<string>)
    ensures |r| == |titles|
    ensures forall i :: 0 <= i < |r| ==> r[i] == ShortcutCommand(option, titles[i])
  {
    if titles == [] then [] else [ShortcutCommand(option, titles[0])] + CommandsFor(titles[1..], option)
  }

  /**
   * The commands the middleware runs for a message; `stored` is the flag
   * stored on the channel (group) or the user (private chat).
   */
  function ShortcutCommands(content: string, isMessage: bool, subtype: Subtype, stored: Option<int>, defaultFlags: int)
    : (r: seq<string>)
    ensures !Applies(content, isMessage, subtype) ==> r == []
    ensures Applies(content, isMessage, subtype) ==> |r| == |ShortcutTitles(content)|
    ensures Applies(content, isMessage, subtype) ==>
      forall i :: 0 <= i < |r| ==>
        StartsWith(r[i], "wiki -q ") && EndsWith(r[i], " " + ShortcutTitles(content)[i])
  {
    if !Applies(content, isMessage, subtype) then []
    else
      var titles := ShortcutTitles(content);
      var r := CommandsFor(titles, SearchOption(|titles|, FlagFromChat(stored, defaultFlags)));
      forall i | 0 <= i < |r|
        ensures StartsWith(r[i], "wiki -q ") && EndsWith(r[i], " " + titles[i])
      {
        CommandShape(SearchOption(|titles|, FlagFromChat(stored, defaultFlags)), titles[i]);
      }
      r
  }

  lemma CommandShape(option: string, title: string)
    ensures StartsWith(ShortcutCommand(option, title), "wiki -q ")
    ensures EndsWith(ShortcutCommand(option, title), " " + title)
  {
    var c := ShortcutCommand(option, title);
    assert c == "wiki -q " + (option + " " + title);
    assert c == ("wiki -q " + option) + (" " + title);
  }

  /**
   * `-s` is added exactly when the message names one title and the effective
   * flag has the search bit; otherwise the option slot is empty.
   */
  lemma SearchOptionRule(content: string, isMessage: bool, subtype: Subtype, stored: Option<int>, defaultFlags: int)
    requires Applies(content, isMessage, subtype)
    ensures var r := ShortcutCommands(content, isMessage, subtype, stored, defaultFlags);
      var titles := ShortcutTitles(content);
      var flag := FlagFromChat(stored, defaultFlags);
      && (|titles| == 1 && HasFlag(flag, SEARCH_NON_EXIST) ==> r == ["wiki -q -s " + titles[0]])
      && (!(|titles| == 1 && HasFlag(flag, SEARCH_NON_EXIST)) ==>
            forall i :: 0 <= i < |r| ==> r[i] == "wiki -q  " + titles[i])
  {
    var r := ShortcutCommands(content, isMessage, subtype, stored, defaultFlags);
    var titles := ShortcutTitles(content);
    var flag := FlagFromChat(stored, defaultFlags);
    if |titles| == 1 && HasFlag(flag, SEARCH_NON_EXIST) {
      assert r[0] == ShortcutCommand("-s", titles[0]);
      assert "wiki -q " + "-s" + " " == "wiki -q -s ";
      assert r == [r[0]];
    } else {
      forall i | 0 <= i < |r| ensures r[i] == "wiki -q  " + titles[i] {
        assert r[i] == ShortcutCommand("", titles[i]);
        assert "wiki -q " + "" + " " == "wiki -q  ";
      }
    }
  }

  /** A message without an `&` holds neither bracket entity. */
  lemma NoAmpersandNoEntity(s: string)
    requires '&' !in s
    ensures !Contains(s, OPEN_ENTITY) && !Contains(s, CLOSE_ENTITY)
  {
    forall k: nat | k <= |s| ensures !OccursAt(s, OPEN_ENTITY, k) && !OccursAt(s, CLOSE_ENTITY, k) {
      if k + 5 <= |s| {
        assert s[k..k + 5][0] == s[k];
      }
    }
  }

  /** A message with a single capture, however often repeated, gives that one title. */
  lemma SingleCaptureTitle(content: string, x: string)
    requires forall t :: t in PipedCaptures(ResolveBrackets(content)) <==> t == x
    ensures ShortcutTitles(content) == [x]
  {
    var caps := PipedCaptures(ResolveBrackets(content));
    assert x in caps;
    assert forall i :: 0 <= i < |caps| ==> caps[i] in caps;
    DedupeConstant(caps, x);
  }

  /**
   * A piped link swallows the later links on its line: `[[a|b]] [[c]]` runs a
   * single query, for `a`.
   */
  lemma PipedLinkHidesLaterTitles(a: char, b: char, c: char)
    requires Plain(a) && Plain(b) && Plain(c) && a != '&' && b != '&' && c != '&'
    ensures ShortcutTitles(['[', '[', a, '|', b, ']', ']', ' ', '[', '[', c, ']', ']']) == [[a]]
  {
    var s := ['[', '[', a, '|', b, ']', ']', ' ', '[', '[', c, ']', ']'];
    NoAmpersandNoEntity(s);
    ResolveBracketsPlain(s);
    PipedLinkSwallowsLaterLinks(a, b, c);
    SingleCaptureTitle(s, [a]);
  }

  /**
   * The same on every input: a message that is one piped link `[[x|m]]`
   * runs a single query, for `x`, whatever links `m` holds after the pipe.
   */
  lemma PipedLinkHidesLine(x: string, m: string)
    requires x != [] && forall i :: 0 <= i < |x| ==> Plain(x[i])
    requires OneLine(m) && '&' !in x && '&' !in m
    ensures ShortcutTitles(OPEN + x + "|" + m + CLOSE) == [x]
  {
    var s := OPEN + x + "|" + m + CLOSE;
    assert s == OPEN + x + "|" + m + CLOSE + [];
    assert '&' !in s by {
      forall i | 0 <= i < |s|
        ensures s[i] != '&'
      {
        if 2 <= i < 2 + |x| {
          assert s[i] == x[i - 2];
        } else if 3 + |x| <= i < 3 + |x| + |m| {
          assert s[i] == m[i - 3 - |x|];
        }
      }
    }
    NoAmpersandNoEntity(s);
    ResolveBracketsPlain(s);
    PipedLinkSwallowsLine(x, m, []);
    assert PipedCaptures([]) == [];
    SingleCaptureTitle(s, x);
  }

  /**
   * The delivery as written: `msg.filter(m => m)` gives an array, and an
   * array is always truthy, so a message is sent even when every answer was
   * empty.
   */
  function DeliveryAsWritten(answers: seq<string>): (r: Option<string>)
    requires answers != []
    ensures r.Some?
    ensures r.value == Join(NonEmpty(answers), REPLY_SEPARATOR)
  {
    var msg := NonEmpty(answers);
    Some(Join(msg, REPLY_SEPARATOR))
  }

  /** The delivery evidently intended: the non-empty answers joined by the separator, and nothing when there is none. */
  function Delivery(answers: seq<string>): (r: Option<string>)
    ensures r.None? <==> forall i :: 0 <= i < |answers| ==> answers[i] == ""
    ensures r.Some? ==> r.value == Join(NonEmpty(answers), REPLY_SEPARATOR) && r.value != ""
  {
    var msg := NonEmpty(answers);
    if msg == [] then None
    else
      assert msg[0] in msg;
      JoinNonEmpty(msg, REPLY_SEPARATOR);
      Some(Join(msg, REPLY_SEPARATOR))
  }

  /** Joining a list whose first element is non-empty gives a non-empty text. */
  lemma JoinNonEmpty(xs: seq<string>, sep: string)
    requires xs != [] && xs[0] != []
    ensures Join(xs, sep) != []
  {
    if |xs| > 1 {
      assert Join(xs, sep) == xs[0] + sep + Join(xs[1..], sep);
    }
  }

  /** When every answer is empty, the code as written still sends an empty message; the intended delivery sends nothing. */
  lemma EmptyAnswersStillSent(answers: seq<string>)
    requires answers != []
    requires forall i :: 0 <= i < |answers| ==> answers[i] == ""
    ensures DeliveryAsWritten(answers) == Some("")
    ensures Delivery(answers).None?
  {
  }

  /** Whenever some answer is non-empty, both deliveries send the same text. */
  lemma DeliveriesAgree(answers: seq<string>)
    requires exists i :: 0 <= i < |answers| && answers[i] != ""
    ensures Delivery(answers) == DeliveryAsWritten(answers)
  {
  }
}
