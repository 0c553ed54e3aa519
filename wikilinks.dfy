/**
 * The two wikilink regular expressions of the plugin, as explicit scanners
 * that follow the backtracking order of an ECMAScript `matchAll`:
 *   lazy   `/\[\[(.+?)\]\]/g`            (src/utils/wiki.ts)
 *   piped  `/\[\[(.+?)(?:\|.*)?\]\]/g`    (the message middleware)
 * A scanner is handed the text `t` right after an opening `[[`.
 */
module Wikilinks {
  import opened Wrappers
  import opened Strings

  const OPEN := "[["
  const CLOSE := "]]"

  /** How many leading characters a `.` can match: up to the first line terminator. */
  function RunLength(t: string): (n: nat)
    ensures n <= |t|
    ensures forall i :: 0 <= i < n ==> !IsLineTerminator(t[i])
    ensures n == |t| || IsLineTerminator(t[n])
  {
    if t == [] || IsLineTerminator(t[0]) then 0 else 1 + RunLength(t[1..])
  }

  /** Lazy `(.+?)\]\]`, capture lengths from `k` on: the first `]]` at or after `k` within the run. */
  function LazyFrom(t: string, k: nat): (r: Option<nat>)
    ensures r.Some? ==> k <= r.value <= RunLength(t) && OccursAt(t, CLOSE, r.value)
    ensures r.Some? ==> forall j :: k <= j < r.value ==> !OccursAt(t, CLOSE, j)
    ensures r.None? ==> forall j :: k <= j <= RunLength(t) ==> !OccursAt(t, CLOSE, j)
    decreases RunLength(t) - k
  {
    if k > RunLength(t) then None
    else if OccursAt(t, CLOSE, k) then Some(k)
    else LazyFrom(t, k + 1)
  }

  /** Every capture of the lazy expression, left to right, each search resuming after the previous match. */
  function LazyCaptures(s: string): (r: seq<string>)
    ensures forall i :: 0 <= i < |r| ==> r[i] != [] && AllIn(r[i], c => !IsLineTerminator(c))
    decreases |s|
  {
    if |s| < 2 then []
    else if StartsWith(s, OPEN) && LazyFrom(s[2..], 1).Some? then
      var t, k := s[2..], LazyFrom(s[2..], 1).value;
      [t[..k]] + LazyCaptures(t[k + 2..])
    else LazyCaptures(s[1..])
  }

  /** Greedy `.*` before `]]`: the largest `j <= m` with `]]` at `j`. */
  function LastCloseUpTo(u: string, m: nat): (r: Option<nat>)
    ensures r.Some? ==> r.value <= m && OccursAt(u, CLOSE, r.value)
    ensures r.Some? ==> forall j :: r.value < j <= m ==> !OccursAt(u, CLOSE, j)
    ensures r.None? ==> forall j :: 0 <= j <= m ==> !OccursAt(u, CLOSE, j)
  {
    if OccursAt(u, CLOSE, m) then Some(m)
    else if m == 0 then None
    else LastCloseUpTo(u, m - 1)
  }

  /** Where the `.*` of a `\|.*` begun at the pipe `t[k]` must stop: the end of that line. */
  function LineEnd(t: string, k: nat): (e: nat)
    requires k < |t|
    ensures k + 1 <= e <= |t|
    ensures forall i :: k + 1 <= i < e ==> !IsLineTerminator(t[i])
    ensures e == |t| || IsLineTerminator(t[e])
  {
    var u := t[k + 1..];
    assert forall i :: k + 1 <= i < |t| ==> t[i] == u[i - (k + 1)];
    k + 1 + RunLength(u)
  }

  /** A `]]` starts somewhere after the pipe `t[k]` on its line. */
  predicate CloseAfterPipe(t: string, k: nat)
    requires k < |t|
  {
    exists j :: k + 1 <= j <= LineEnd(t, k) && OccursAt(t, CLOSE, j)
  }

  /**
   * One way for capture length `k` to finish: the optional `\|.*` group first,
   * then `]]` alone. After a pipe the greedy `.*` takes the last `]]` on the line.
   */
  function PipedTail(t: string, k: nat): (r: Option<nat>)
    requires k <= |t|
    ensures r.Some? ==> k + 2 <= r.value <= |t| && t[r.value - 2..r.value] == CLOSE
    ensures k < |t| && t[k] == '|' && CloseAfterPipe(t, k) ==>
      && r.Some? && k + 1 <= r.value - 2 <= LineEnd(t, k) && OccursAt(t, CLOSE, r.value - 2)
      && forall j :: r.value - 2 < j <= LineEnd(t, k) ==> !OccursAt(t, CLOSE, j)
    ensures !(k < |t| && t[k] == '|' && CloseAfterPipe(t, k)) ==>
      r == if OccursAt(t, CLOSE, k) then Some(k + 2) else None
  {
    if k < |t| && t[k] == '|' then
      var u := t[k + 1..];
      LastCloseShift(t, k);
      if LastCloseUpTo(u, RunLength(u)).Some? then Some(k + 1 + LastCloseUpTo(u, RunLength(u)).value + 2)
      else if OccursAt(t, CLOSE, k) then Some(k + 2)
      else None
    else if OccursAt(t, CLOSE, k) then Some(k + 2)
    else None
  }

  /** A `]]` in the text after position `d` is one in the whole text, `d` further on. */
  lemma OccursShift(t: string, d: nat, j: nat)
    requires d <= |t|
    ensures OccursAt(t[d..], CLOSE, j) <==> OccursAt(t, CLOSE, d + j)
  {
    if d + j + 2 <= |t| {
      assert t[d..][j..j + 2] == t[d + j..d + j + 2];
    }
  }

  /** The greedy search after a pipe, read in the coordinates of the whole text. */
  lemma LastCloseShift(t: string, k: nat)
    requires k < |t|
    ensures var u := t[k + 1..]; var c := LastCloseUpTo(u, RunLength(u));
      && (c.Some? <==> CloseAfterPipe(t, k))
      && (c.Some? ==> k + 1 + c.value <= LineEnd(t, k) && OccursAt(t, CLOSE, k + 1 + c.value))
      && (c.Some? ==> forall j :: k + 1 + c.value < j <= LineEnd(t, k) ==> !OccursAt(t, CLOSE, j))
  {
    var u := t[k + 1..];
    var c := LastCloseUpTo(u, RunLength(u));
    var e := LineEnd(t, k);
    if c.Some? {
      OccursShift(t, k + 1, c.value);
      forall j | k + 1 + c.value < j <= e
        ensures !OccursAt(t, CLOSE, j)
      {
        OccursShift(t, k + 1, j - (k + 1));
      }
    } else {
      forall j | k + 1 <= j <= e
        ensures !OccursAt(t, CLOSE, j)
      {
        OccursShift(t, k + 1, j - (k + 1));
      }
    }
  }

  /** Piped `(.+?)(?:\|.*)?\]\]`, capture lengths from `k` on: the capture length and where the match ends. */
  function PipedFrom(t: string, k: nat): (r: Option<(nat, nat)>)
    ensures r.Some? ==> k <= r.value.0 <= RunLength(t) && PipedTail(t, r.value.0) == Some(r.value.1)
    ensures r.Some? ==> forall j :: k <= j < r.value.0 ==> PipedTail(t, j).None?
    ensures r.None? ==> forall j :: k <= j <= RunLength(t) ==> PipedTail(t, j).None?
    decreases RunLength(t) - k
  {
    if k > RunLength(t) then None
    else if PipedTail(t, k).Some? then Some((k, PipedTail(t, k).value))
    else PipedFrom(t, k + 1)
  }

  /** Every capture of the piped expression, left to right. */
  function PipedCaptures(s: string): (r: seq<string>)
    ensures forall i :: 0 <= i < |r| ==> r[i] != [] && AllIn(r[i], c => !IsLineTerminator(c))
    decreases |s|
  {
    if |s| < 2 then []
    else if StartsWith(s, OPEN) && PipedFrom(s[2..], 1).Some? then
      var t, m := s[2..], PipedFrom(s[2..], 1).value;
      [t[..m.0]] + PipedCaptures(t[m.1..])
    else PipedCaptures(s[1..])
  }

  /** A character with no part in either expression's syntax. */
  predicate Plain(c: char) {
    !IsLineTerminator(c) && c != '[' && c != ']' && c != '|'
  }

  /** No character of `s` ends a line. */
  predicate OneLine(s: string) {
    forall i :: 0 <= i < |s| ==> !IsLineTerminator(s[i])
  }

  /** `.` stops exactly at `n` when `t[..n]` is one line and `t[n]` ends it (or `t` ends there). */
  lemma RunLengthIs(t: string, n: nat)
    requires n <= |t| && (forall i :: 0 <= i < n ==> !IsLineTerminator(t[i]))
    requires n == |t| || IsLineTerminator(t[n])
    ensures RunLength(t) == n
  {
  }

  /** The same for the line that follows a pipe. */
  lemma LineEndIs(t: string, k: nat, n: nat)
    requires k < n <= |t| && (forall i :: k + 1 <= i < n ==> !IsLineTerminator(t[i]))
    requires n == |t| || IsLineTerminator(t[n])
    ensures LineEnd(t, k) == n
  {
  }

  /** After the pipe `t[k]`, a `]]` ending exactly where the line ends is the one the greedy group takes. */
  lemma PipedTailAtEnd(t: string, k: nat, n: nat)
    requires k < |t| && t[k] == '|' && k + 3 <= n <= |t|
    requires LineEnd(t, k) == n && t[n - 2..n] == CLOSE
    requires n == |t| || IsLineTerminator(t[n])
    ensures PipedTail(t, k) == Some(n)
  {
    assert OccursAt(t, CLOSE, n - 2);
    assert CloseAfterPipe(t, k);
    assert !OccursAt(t, CLOSE, n - 1) by {
      if n + 1 <= |t| {
        assert t[n - 1..n + 1][1] == t[n];
      }
    }
    assert !OccursAt(t, CLOSE, n) by {
      if n + 2 <= |t| {
        assert t[n..n + 2][0] == t[n];
      }
    }
    var r := PipedTail(t, k);
    assert r.Some?;
    assert r.value - 2 >= n - 2;
  }

  /** No capture length from `k` up to `n` can finish. */
  predicate NoTailBetween(t: string, k: nat, n: nat)
    requires n <= |t|
  {
    forall j :: k <= j < n ==> PipedTail(t, j).None?
  }

  /** Over plain characters no capture length can finish: there is neither a pipe nor a `]]`. */
  lemma NoTailInside(t: string, p: nat)
    requires p <= |t| && forall i :: 0 <= i < p ==> Plain(t[i])
    ensures NoTailBetween(t, 1, p)
  {
    forall j | 1 <= j < p
      ensures PipedTail(t, j).None?
    {
      if j + 2 <= |t| {
        assert t[j..j + 2][0] == t[j];
      }
    }
  }

  /** The piped scan from length `k` settles on the first length whose tail matches. */
  lemma {:induction false} PipedFromFirst(t: string, k: nat, n: nat, e: nat)
    requires k <= n <= RunLength(t) && PipedTail(t, n) == Some(e)
    requires NoTailBetween(t, k, n)
    ensures PipedFrom(t, k) == Some((n, e))
    decreases n - k
  {
    if k < n {
      NoTailBetweenStep(t, k, n);
      PipedFromSkip(t, k);
      PipedFromFirst(t, k + 1, n, e);
    }
  }

  /** The first length of a stretch without a finishing tail has none, and the rest of the stretch has none. */
  lemma NoTailBetweenStep(t: string, k: nat, n: nat)
    requires k < n <= |t| && NoTailBetween(t, k, n)
    ensures PipedTail(t, k).None? && NoTailBetween(t, k + 1, n)
  {
  }

  /** A capture length whose tail cannot match is passed over. */
  lemma PipedFromSkip(t: string, k: nat)
    requires k <= RunLength(t) && PipedTail(t, k).None?
    ensures PipedFrom(t, k) == PipedFrom(t, k + 1)
  {
  }

  /**
   * A plain target `t[..p]`, a pipe at `p`, and a line that ends right after a
   * `]]` at `n`: the piped scan captures the target and ends its match at `n`.
   */
  lemma PipedFromAtPipe(t: string, p: nat, n: nat)
    requires 1 <= p && p + 3 <= n <= |t| && t[p] == '|' && t[n - 2..n] == CLOSE
    requires forall i :: 0 <= i < p ==> Plain(t[i])
    requires forall i :: p < i < n ==> !IsLineTerminator(t[i])
    requires n == |t| || IsLineTerminator(t[n])
    ensures PipedFrom(t, 1) == Some((p, n))
  {
    RunLengthIs(t, n);
    LineEndIs(t, p, n);
    PipedTailAtEnd(t, p, n);
    NoTailInside(t, p);
    PipedFromFirst(t, 1, p, n);
  }

  /** Where the parts of `[[x|m]]w` sit, once the opening `[[` is consumed. */
  lemma LinkParts(x: string, m: string, w: string)
    ensures var t := x + "|" + m + CLOSE + w; var n := |x| + |m| + 3;
      && (OPEN + x + "|" + m + CLOSE + w)[..2] == OPEN
      && (OPEN + x + "|" + m + CLOSE + w)[2..] == t
      && |t| == n + |w| && t[..|x|] == x && t[|x|] == '|' && t[n..] == w
      && t[n - 2..n] == CLOSE && (w != [] ==> t[n] == w[0])
      && (forall i :: 0 <= i < |x| ==> t[i] == x[i])
      && (forall i :: |x| < i < n - 2 ==> t[i] == m[i - |x| - 1])
  {
  }

  /** One step of the piped scan at an opening `[[` followed by a piped link that ends its line. */
  lemma PipedCapturesAtPipe(s: string, t: string, p: nat, n: nat)
    requires |s| >= 2 && s[..2] == OPEN && s[2..] == t
    requires 1 <= p && p + 3 <= n <= |t| && t[p] == '|' && t[n - 2..n] == CLOSE
    requires forall i :: 0 <= i < p ==> Plain(t[i])
    requires forall i :: p < i < n ==> !IsLineTerminator(t[i])
    requires n == |t| || IsLineTerminator(t[n])
    ensures PipedCaptures(s) == [t[..p]] + PipedCaptures(t[n..])
  {
    PipedFromAtPipe(t, p, n);
  }

  /**
   * Because `(?:\|.*)?` is greedy, a piped link swallows everything after it
   * on its line, later links included: `[[x|m]]` followed by the end of the
   * line yields `x` alone, whatever `m` holds.
   */
  lemma PipedLinkSwallowsLine(x: string, m: string, w: string)
    requires x != [] && forall i :: 0 <= i < |x| ==> Plain(x[i])
    requires OneLine(m)
    requires w == [] || IsLineTerminator(w[0])
    ensures PipedCaptures(OPEN + x + "|" + m + CLOSE + w) == [x] + PipedCaptures(w)
  {
    var t := x + "|" + m + CLOSE + w;
    var n := |x| + |m| + 3;
    LinkParts(x, m, w);
    forall i | |x| < i < n
      ensures !IsLineTerminator(t[i])
    {
      if i < n - 2 {
        assert t[i] == m[i - |x| - 1];
      } else {
        assert t[i] == CLOSE[i - (n - 2)];
      }
    }
    PipedCapturesAtPipe(OPEN + x + "|" + m + CLOSE + w, t, |x|, n);
  }

  /** `[[a|b]] [[c]]` yields only `a`: the second link is part of the first one's tail. */
  lemma PipedLinkSwallowsLaterLinks(a: char, b: char, c: char)
    requires Plain(a) && Plain(b) && Plain(c)
    ensures PipedCaptures(['[', '[', a, '|', b, ']', ']', ' ', '[', '[', c, ']', ']']) == [[a]]
  {
    var s := ['[', '[', a, '|', b, ']', ']', ' ', '[', '[', c, ']', ']'];
    var t := [a, '|', b, ']', ']', ' ', '[', '[', c, ']', ']'];
    assert s == OPEN + t;
    assert s[..2] == OPEN;
    assert s[2..] == t;
    assert t[9..11] == CLOSE;
    PipedCapturesAtPipe(s, t, 1, 11);
    assert t[..1] == [a] && t[11..] == [];
  }

  lemma LazyFirstLink(a: char, b: char, c: char)
    requires Plain(a) && Plain(b) && Plain(c)
    ensures LazyFrom([a, '|', b, ']', ']', ' ', '[', '[', c, ']', ']'], 1) == Some(3)
  {
    var t := [a, '|', b, ']', ']', ' ', '[', '[', c, ']', ']'];
    RunLengthIs(t, 11);
    assert t[1..3] == ['|', b] && t[2..4] == [b, ']'] && t[3..5] == CLOSE;
    LazyFromStep(t, 3);
    LazyFromStep(t, 2);
    LazyFromStep(t, 1);
  }

  /** One step of the lazy scan: a `]]` at `k` within the run ends the capture there, any other length is passed over. */
  lemma LazyFromStep(t: string, k: nat)
    requires k <= RunLength(t)
    ensures OccursAt(t, CLOSE, k) ==> LazyFrom(t, k) == Some(k)
    ensures !OccursAt(t, CLOSE, k) ==> LazyFrom(t, k) == LazyFrom(t, k + 1)
  {
  }

  lemma LazySecondLink(c: char)
    requires Plain(c)
    ensures LazyCaptures([' ', '[', '[', c, ']', ']']) == [[c]]
  {
    var s := [' ', '[', '[', c, ']', ']'];
    var s1 := s[1..];
    var t := [c, ']', ']'];
    assert s1[2..] == t && s1[..2] == OPEN;
    assert RunLength(t[3..]) == 0;
    assert RunLength(t) == 3;
    assert t[1..3] == CLOSE;
    assert LazyFrom(t, 1) == Some(1);
    assert t[3..] == [];
    assert LazyCaptures(s1) == [t[..1]];
    assert t[..1] == [c];
    assert s[0] == ' ' && OPEN[0] == '[';
    assert !StartsWith(s, OPEN);
    assert LazyCaptures(s) == LazyCaptures(s1);
  }

  /** The lazy expression stops at the first `]]` and so finds both links: `[[a|b]] [[c]]` yields `a|b` and `c`. */
  lemma LazyFindsEveryLink(a: char, b: char, c: char)
    requires Plain(a) && Plain(b) && Plain(c)
    ensures LazyCaptures(['[', '[', a, '|', b, ']', ']', ' ', '[', '[', c, ']', ']']) == [[a, '|', b], [c]]
  {
    var s := ['[', '[', a, '|', b, ']', ']', ' ', '[', '[', c, ']', ']'];
    var t := [a, '|', b, ']', ']', ' ', '[', '[', c, ']', ']'];
    assert s[2..] == t;
    assert s[..2] == OPEN;
    LazyFirstLink(a, b, c);
    LazySecondLink(c);
    assert t[5..] == [' ', '[', '[', c, ']', ']'];
    assert t[..3] == [a, '|', b];
    assert LazyCaptures(s) == [t[..3]] + LazyCaptures(t[5..]);
  }
}
