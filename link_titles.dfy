/** `parseTitlesFromText` of src/utils/wiki.ts: database keys of the `[[...]]` links of a text. */
module LinkTitles {
  import opened Wrappers
  import opened Strings
  import opened Lists
  import opened Brackets
  import opened Titles
  import opened Wikilinks

  /** `capture.split('|')[0]`: the link target without its label. */
  function LinkTarget(capture: string): (r: string)
    ensures StartsWith(capture, r) && !Contains(r, "|")
    ensures r == capture || (|r| < |capture| && capture[|r|] == '|')
  {
    SplitFirstIsPrefix(capture, "|");
    SplitPiecesFree(capture, "|");
    SplitHead(capture, '|');
    Split(capture, "|")[0]
  }

  /** `getWikiTitleDBKey` of the target of a capture. */
  function TargetKey(capture: string): Result<string> {
    DBKey(LinkTarget(capture))
  }

  /** `xs.map(f)` with an `f` that may throw: the first element that throws aborts the map. */
  function MapThrowing(xs: seq<string>, f: string -> Result<string>): (r: Result<seq<string>>)
    ensures r.Ok? <==> forall i :: 0 <= i < |xs| ==> f(xs[i]).Ok?
    ensures r.Ok? ==> |r.value| == |xs|
    ensures r.Ok? ==> forall i :: 0 <= i < |xs| ==> r.value[i] == f(xs[i]).value
  {
    if xs == [] then Ok([])
    else
      match f(xs[0])
      case Thrown(e) => Thrown(e)
      case Ok(k) =>
        match MapThrowing(xs[1..], f)
        case Thrown(e) => Thrown(e)
        case Ok(ks) => Ok([k] + ks)
  }

  /** The captures of the lazy link expression in a text with its entities resolved. */
  function Captures(str: string): seq<string> {
    LazyCaptures(ResolveBrackets(str))
  }

  /** `parseTitlesFromText`, as written: resolve entities, take the lazy captures, key them, dedupe, drop empties. */
  function ParseTitlesFromText(str: string): Result<seq<string>> {
    match MapThrowing(Captures(str), TargetKey)
    case Thrown(e) => Thrown(e)
    case Ok(ks) => Ok(NonEmpty(Dedupe(ks)))
  }

  /** The keys of the captures, in capture order. */
  function CaptureKeys(str: string): seq<string>
    requires MapThrowing(Captures(str), TargetKey).Ok?
  {
    MapThrowing(Captures(str), TargetKey).value
  }

  /** Filtering out empty strings keeps a list that holds none. */
  lemma {:induction false} NonEmptyKeepsAll(xs: seq<string>)
    requires forall i :: 0 <= i < |xs| ==> xs[i] != []
    ensures NonEmpty(xs) == xs
  {
    if xs != [] {
      NonEmptyKeepsAll(xs[1..]);
    }
  }

  /** Every key of a successful map has key shape. */
  lemma CaptureKeysShape(str: string)
    requires MapThrowing(Captures(str), TargetKey).Ok?
    ensures forall j :: 0 <= j < |CaptureKeys(str)| ==> IsDBKey(CaptureKeys(str)[j])
  {
    var caps := Captures(str);
    forall j | 0 <= j < |caps| ensures IsDBKey(CaptureKeys(str)[j]) {
      DBKeyShape(LinkTarget(caps[j]));
    }
  }

  /** Deduplicating a successful map: each value once, each from some element, in first-occurrence order. */
  lemma DedupeOfMap(xs: seq<string>, f: string -> Result<string>)
    requires MapThrowing(xs, f).Ok?
    ensures var ks := MapThrowing(xs, f).value; var r := Dedupe(ks);
      && (forall i :: 0 <= i < |r| ==> exists j :: 0 <= j < |xs| && f(xs[j]) == Ok(r[i]))
      && (forall j :: 0 <= j < |xs| ==> f(xs[j]).value in r)
  {
    var ks := MapThrowing(xs, f).value;
    var r := Dedupe(ks);
    forall i | 0 <= i < |r| ensures exists j :: 0 <= j < |xs| && f(xs[j]) == Ok(r[i]) {
      var j := FirstIndex(ks, r[i]);
      assert f(xs[j]) == Ok(ks[j]);
    }
  }

  /** A successful parse lists each key once, in the order in which the link targets first occur. */
  lemma ParseTitlesOrder(str: string, keys: seq<string>)
    requires MapThrowing(Captures(str), TargetKey) == Ok(keys)
    ensures ParseTitlesFromText(str).Ok?
    ensures var r := ParseTitlesFromText(str).value;
      && NoDuplicates(r)
      && (forall i :: 0 <= i < |r| ==> r[i] in keys)
      && (forall i, j :: 0 <= i < j < |r| ==> FirstIndex(keys, r[i]) < FirstIndex(keys, r[j]))
  {
    FilterIsDead(str);
  }

  /** Every title of a successful parse has key shape. */
  lemma ParseTitlesAreKeys(str: string)
    requires ParseTitlesFromText(str).Ok?
    ensures forall i :: 0 <= i < |ParseTitlesFromText(str).value| ==> IsDBKey(ParseTitlesFromText(str).value[i])
  {
    FilterIsDead(str);
    CaptureKeysShape(str);
  }

  /** A successful parse holds the key of every link target and nothing else. */
  lemma ParseTitlesAreTargets(str: string)
    requires ParseTitlesFromText(str).Ok?
    ensures var r, caps := ParseTitlesFromText(str).value, Captures(str);
      && (forall i :: 0 <= i < |r| ==> exists j :: 0 <= j < |caps| && TargetKey(caps[j]) == Ok(r[i]))
      && (forall j :: 0 <= j < |caps| ==> TargetKey(caps[j]).value in r)
  {
    FilterIsDead(str);
    DedupeOfMap(Captures(str), TargetKey);
  }

  /** The parse throws exactly when some link target is empty or blank. */
  lemma ParseTitlesThrows(str: string)
    ensures var caps := Captures(str);
      ParseTitlesFromText(str).Thrown? <==> exists j :: 0 <= j < |caps| && AllIn(LinkTarget(caps[j]), IsSep)
  {
    var caps := Captures(str);
    forall j | 0 <= j < |caps| ensures TargetKey(caps[j]).Thrown? <==> AllIn(LinkTarget(caps[j]), IsSep) {
      TitleThrowsOnBlank(LinkTarget(caps[j]));
    }
  }

  /** Escaped brackets behave like literal ones: parsing a text is parsing its resolved form. */
  lemma EscapedBracketsAreLiteral(str: string)
    ensures ParseTitlesFromText(ResolveBrackets(str)) == ParseTitlesFromText(str)
  {
    ResolveBracketsIdempotent(str);
  }

  /** `.filter((i) => !!i)` never removes anything: every key is non-empty. */
  lemma FilterIsDead(str: string)
    requires MapThrowing(Captures(str), TargetKey).Ok?
    ensures ParseTitlesFromText(str) == Ok(Dedupe(CaptureKeys(str)))
  {
    CaptureKeysShape(str);
    NonEmptyKeepsAll(Dedupe(CaptureKeys(str)));
  }

  /** The values of the elements on which `f` succeeds, in order; the others are skipped. */
  function KeepSucceeding(xs: seq<string>, f: string -> Result<string>): (r: seq<string>)
    ensures forall i :: 0 <= i < |r| ==> exists j :: 0 <= j < |xs| && f(xs[j]) == Ok(r[i])
    ensures forall j :: 0 <= j < |xs| && f(xs[j]).Ok? ==> f(xs[j]).value in r
  {
    if xs == [] then []
    else
      var rest := KeepSucceeding(xs[1..], f);
      assert forall i :: 0 <= i < |rest| ==> exists j :: 0 <= j < |xs| && f(xs[j]) == Ok(rest[i]) by {
        forall i | 0 <= i < |rest| ensures exists j :: 0 <= j < |xs| && f(xs[j]) == Ok(rest[i]) {
          var j :| 0 <= j < |xs[1..]| && f(xs[1..][j]) == Ok(rest[i]);
          assert xs[1..][j] == xs[j + 1];
        }
      }
      match f(xs[0])
      case Thrown(_) => rest
      case Ok(k) => [k] + rest
  }

  /**
   * `parseTitlesFromText` as its `filter((i) => !!i)` shows it was meant: a link
   * with a blank target is dropped instead of aborting the whole parse.
   */
  function TitlesFromText(str: string): (r: seq<string>)
    ensures NoDuplicates(r)
    ensures forall i :: 0 <= i < |r| ==> exists j :: 0 <= j < |Captures(str)| && TargetKey(Captures(str)[j]) == Ok(r[i])
  {
    var ks := KeepSucceeding(Captures(str), TargetKey);
    Dedupe(ks)
  }

  /** Every title of the corrected parse has key shape. */
  lemma TitlesFromTextAreKeys(str: string)
    ensures forall i :: 0 <= i < |TitlesFromText(str)| ==> IsDBKey(TitlesFromText(str)[i])
  {
    var r := TitlesFromText(str);
    forall i | 0 <= i < |r| ensures IsDBKey(r[i]) {
      TitleIsKey(str, r, i);
    }
  }

  /** One title of the corrected parse has key shape. */
  lemma TitleIsKey(str: string, r: seq<string>, i: nat)
    requires r == TitlesFromText(str) && i < |r|
    ensures IsDBKey(r[i])
  {
    var caps := Captures(str);
    var j :| 0 <= j < |caps| && TargetKey(caps[j]) == Ok(r[i]);
    KeyOfCapture(caps[j], r[i]);
  }

  /** What `f` gives for each element, in order. */
  function Outcomes(xs: seq<string>, f: string -> Result<string>): (r: seq<Result<string>>)
    ensures |r| == |xs| && forall i :: 0 <= i < |xs| ==> r[i] == f(xs[i])
  {
    if xs == [] then [] else [f(xs[0])] + Outcomes(xs[1..], f)
  }

  /** A value is kept exactly when some element succeeds with it. */
  lemma KeepSucceedingMembers(xs: seq<string>, f: string -> Result<string>, a: string)
    ensures a in KeepSucceeding(xs, f) <==> Ok(a) in Outcomes(xs, f)
  {
    var o := Outcomes(xs, f);
    if Ok(a) in o {
      var j :| 0 <= j < |o| && o[j] == Ok(a);
      assert f(xs[j]).value == a;
    }
  }

  /**
   * Keeping the successes keeps their order: of two kept values, the one
   * first kept is the one whose first success comes first.
   */
  lemma {:induction false} KeepSucceedingOrder(xs: seq<string>, f: string -> Result<string>, a: string, b: string)
    requires a in KeepSucceeding(xs, f) && b in KeepSucceeding(xs, f)
    ensures Ok(a) in Outcomes(xs, f) && Ok(b) in Outcomes(xs, f)
    ensures FirstIndex(KeepSucceeding(xs, f), a) < FirstIndex(KeepSucceeding(xs, f), b)
        <==> FirstIndex(Outcomes(xs, f), Ok(a)) < FirstIndex(Outcomes(xs, f), Ok(b))
  {
    KeepSucceedingMembers(xs, f, a);
    KeepSucceedingMembers(xs, f, b);
    var h, rest := f(xs[0]), xs[1..];
    var ks, o := KeepSucceeding(rest, f), Outcomes(rest, f);
    KeepSucceedingStep(xs, f);
    if h.Thrown? {
      KeepSucceedingOrder(rest, f, a, b);
      FirstIndexCons(h, o, Ok(a));
      FirstIndexCons(h, o, Ok(b));
    } else if a != h.value && b != h.value {
      KeepSucceedingOrder(rest, f, a, b);
      FirstIndexCons(h.value, ks, a);
      FirstIndexCons(h.value, ks, b);
      FirstIndexCons(h, o, Ok(a));
      FirstIndexCons(h, o, Ok(b));
    } else {
      FirstIndexCons(h.value, ks, a);
      FirstIndexCons(h.value, ks, b);
      FirstIndexCons(h, o, Ok(a));
      FirstIndexCons(h, o, Ok(b));
    }
  }

  /** Keeping the successes and listing the outcomes, one element at a time. */
  lemma KeepSucceedingStep(xs: seq<string>, f: string -> Result<string>)
    requires xs != []
    ensures f(xs[0]).Thrown? ==> KeepSucceeding(xs, f) == KeepSucceeding(xs[1..], f)
    ensures f(xs[0]).Ok? ==> KeepSucceeding(xs, f) == [f(xs[0]).value] + KeepSucceeding(xs[1..], f)
    ensures Outcomes(xs, f) == [f(xs[0])] + Outcomes(xs[1..], f)
  {
  }

  /** The key of one capture has key shape. */
  lemma KeyOfCapture(capture: string, k: string)
    requires TargetKey(capture) == Ok(k)
    ensures IsDBKey(k)
  {
    DBKeyShape(LinkTarget(capture));
  }

  /** The corrected parse never throws, and it holds the key of every link whose target is not blank. */
  lemma TitlesFromTextKeepsValid(str: string)
    ensures var caps := Captures(str);
      forall j :: 0 <= j < |caps| && !AllIn(LinkTarget(caps[j]), IsSep) ==> TargetKey(caps[j]).value in TitlesFromText(str)
  {
    var caps := Captures(str);
    forall j | 0 <= j < |caps| && !AllIn(LinkTarget(caps[j]), IsSep) ensures TargetKey(caps[j]).value in TitlesFromText(str) {
      TitleThrowsOnBlank(LinkTarget(caps[j]));
    }
  }

  /**
   * The corrected parse lists each successful key once, and in the order in
   * which the links that yield it first occur.
   */
  lemma TitlesFromTextOrder(str: string)
    ensures var r, outs := TitlesFromText(str), Outcomes(Captures(str), TargetKey);
      && (forall t :: t in r <==> Ok(t) in outs)
      && (forall i, j :: 0 <= i < j < |r| ==> Ok(r[i]) in outs && Ok(r[j]) in outs && FirstIndex(outs, Ok(r[i])) < FirstIndex(outs, Ok(r[j])))
  {
    var caps := Captures(str);
    assert TitlesFromText(str) == Dedupe(KeepSucceeding(caps, TargetKey));
    DedupeSuccessesMembers(caps, TargetKey);
    DedupeSuccessesOrder(caps, TargetKey);
  }

  /** The distinct successes are the values of the successful outcomes. */
  lemma DedupeSuccessesMembers(xs: seq<string>, f: string -> Result<string>)
    ensures forall t :: t in Dedupe(KeepSucceeding(xs, f)) <==> Ok(t) in Outcomes(xs, f)
  {
    var ks := KeepSucceeding(xs, f);
    forall t ensures t in Dedupe(ks) <==> Ok(t) in Outcomes(xs, f) {
      KeepSucceedingMembers(xs, f, t);
      if t in ks {
        var i :| 0 <= i < |ks| && ks[i] == t;
      }
    }
  }

  /** The distinct successes come in the order of their first successful outcome. */
  lemma DedupeSuccessesOrder(xs: seq<string>, f: string -> Result<string>)
    ensures var r, outs := Dedupe(KeepSucceeding(xs, f)), Outcomes(xs, f);
      forall i, j :: 0 <= i < j < |r| ==> Ok(r[i]) in outs && Ok(r[j]) in outs && FirstIndex(outs, Ok(r[i])) < FirstIndex(outs, Ok(r[j]))
  {
    var r, outs := Dedupe(KeepSucceeding(xs, f)), Outcomes(xs, f);
    forall i, j | 0 <= i < j < |r|
      ensures Ok(r[i]) in outs && Ok(r[j]) in outs && FirstIndex(outs, Ok(r[i])) < FirstIndex(outs, Ok(r[j]))
    {
      KeepSucceedingOrder(xs, f, r[i], r[j]);
    }
  }

  /** Keeping the successes distributes over concatenation, one element at a time. */
  lemma {:induction false} KeepSucceedingAppend(xs: seq<string>, ys: seq<string>, f: string -> Result<string>)
    ensures KeepSucceeding(xs + ys, f) == KeepSucceeding(xs, f) + KeepSucceeding(ys, f)
    ensures forall x :: KeepSucceeding([x], f) == if f(x).Ok? then [f(x).value] else []
    decreases |xs|
  {
    if xs == [] {
      assert xs + ys == ys;
    } else {
      assert (xs + ys)[1..] == xs[1..] + ys;
      KeepSucceedingAppend(xs[1..], ys, f);
    }
    KeepSucceedingSingles(f);
  }

  /** A single element is kept exactly when it does not throw. */
  lemma KeepSucceedingSingles(f: string -> Result<string>)
    ensures forall x :: KeepSucceeding([x], f) == if f(x).Ok? then [f(x).value] else []
  {
    forall x ensures KeepSucceeding([x], f) == if f(x).Ok? then [f(x).value] else [] {
      assert [x][1..] == [];
    }
  }

  /** Where the map as written succeeds, keeping the successes keeps everything. */
  lemma {:induction false} KeepSucceedingAgrees(xs: seq<string>, f: string -> Result<string>)
    requires MapThrowing(xs, f).Ok?
    ensures KeepSucceeding(xs, f) == MapThrowing(xs, f).value
  {
    if xs != [] {
      KeepSucceedingAgrees(xs[1..], f);
    }
  }

  /** Where the parse as written succeeds, the corrected one gives the same list. */
  lemma TitlesFromTextAgrees(str: string)
    requires ParseTitlesFromText(str).Ok?
    ensures TitlesFromText(str) == ParseTitlesFromText(str).value
  {
    KeepSucceedingAgrees(Captures(str), TargetKey);
    FilterIsDead(str);
  }

  lemma BlankLinkCaptured(w: char)
    requires w == ' ' || w == '_'
    ensures Captures(['[', '[', w, ']', ']']) == [[w]]
  {
    var s := ['[', '[', w, ']', ']'];
    assert s[0] != OPEN_ENTITY[0] && s[0] != CLOSE_ENTITY[0];
    assert !Contains(s, OPEN_ENTITY) && !Contains(s, CLOSE_ENTITY);
    ResolveBracketsPlain(s);
    var t := s[2..];
    assert t == [w, ']', ']'];
    assert RunLength(t[3..]) == 0;
    assert RunLength(t) == 3;
    assert t[1..3] == CLOSE;
    assert LazyFrom(t, 1) == Some(1);
    assert s[..2] == OPEN;
    assert t[3..] == [];
    assert t[..1] == [w];
    assert LazyCaptures(s) == [t[..1]] + LazyCaptures([]);
  }

  /**
   * A single blank link `[[ ]]` (or `[[_]]`) makes the parse as written throw,
   * so its `filter((i) => !!i)` never sees an empty title; the corrected parse
   * returns no titles.
   */
  lemma BlankLinkThrows(w: char)
    requires w == ' ' || w == '_'
    ensures ParseTitlesFromText(['[', '[', w, ']', ']']).Thrown?
    ensures TitlesFromText(['[', '[', w, ']', ']']) == []
  {
    var s := ['[', '[', w, ']', ']'];
    BlankLinkCaptured(w);
    var caps := Captures(s);
    assert LinkTarget([w]) == [w] by {
      assert StartsWith([w], LinkTarget([w]));
      assert !StartsWith([w], "|") && !StartsWith([], "|");
      assert Split([], "|") == [[]];
      assert [w][1..] == [];
      assert Split([w][1..], "|") == [[]];
      assert [w] + [] == [w];
      assert Split([w], "|") == [[w]];
    }
    assert AllIn(LinkTarget(caps[0]), IsSep);
    ParseTitlesThrows(s);
    TitleThrowsOnBlank([w]);
    assert KeepSucceeding(caps, TargetKey) == [];
  }
}
