/**
 * The JavaScript string operations the plugin relies on: `\s`, `trim`,
 * `startsWith`/`endsWith`/`includes`, `indexOf`, `split`/`join` with a string
 * separator, and `replace` with a string pattern (first occurrence) or a
 * global pattern (every non-overlapping occurrence, left to right).
 */
module Strings {
  import opened Wrappers

  /** ECMAScript WhiteSpace and LineTerminator: what `\s` matches and `trim` removes. */
  predicate IsSpace(c: char) {
    var n := c as int;
    n == 0x09 || n == 0x0A || n == 0x0B || n == 0x0C || n == 0x0D || n == 0x20 || n == 0xA0
    || n == 0x1680 || (0x2000 <= n <= 0x200A) || n == 0x2028 || n == 0x2029 || n == 0x202F
    || n == 0x205F || n == 0x3000 || n == 0xFEFF
  }

  /** The characters a regular-expression `.` does not match. */
  predicate IsLineTerminator(c: char) {
    c == '\n' || c == '\r' || c as int == 0x2028 || c as int == 0x2029
  }

  /** `toUpperCase` on one character, for the ASCII letters. */
  function UpperChar(c: char): (u: char)
    ensures !('a' <= c <= 'z') ==> u == c
    ensures 'a' <= c <= 'z' ==> 'A' <= u <= 'Z'
  {
    if 'a' <= c <= 'z' then (c as int - 32) as char else c
  }

  predicate AllIn(s: string, p: char -> bool) {
    forall i :: 0 <= i < |s| ==> p(s[i])
  }

  predicate StartsWith(s: string, p: string) {
    |p| <= |s| && s[..|p|] == p
  }

  predicate EndsWith(s: string, p: string) {
    |p| <= |s| && s[|s| - |p|..] == p
  }

  predicate OccursAt(s: string, p: string, k: nat) {
    k + |p| <= |s| && s[k..k + |p|] == p
  }

  /** `s.includes(p)`. */
  predicate Contains(s: string, p: string) {
    exists k: nat :: k <= |s| && OccursAt(s, p, k)
  }

  /** Drops the longest prefix whose characters all satisfy `p`. */
  function DropWhile(s: string, p: char -> bool): (r: string)
    ensures |r| <= |s| && r == s[|s| - |r|..]
    ensures r == [] || !p(r[0])
    ensures forall i :: 0 <= i < |s| - |r| ==> p(s[i])
    decreases |s|
  {
    if s != [] && p(s[0]) then
      var r := DropWhile(s[1..], p);
      assert s[1..][|s| - 1 - |r|..] == s[|s| - |r|..];
      r
    else s
  }

  /** Drops the longest suffix whose characters all satisfy `p`. */
  function DropWhileEnd(s: string, p: char -> bool): (r: string)
    ensures |r| <= |s| && r == s[..|r|]
    ensures r == [] || !p(r[|r| - 1])
    ensures forall i :: |r| <= i < |s| ==> p(s[i])
    decreases |s|
  {
    if s != [] && p(s[|s| - 1]) then DropWhileEnd(s[..|s| - 1], p) else s
  }

  /** `r` is the slice of `s` at offset `a`, with only characters satisfying `p` on either side of it. */
  predicate SliceBetween(s: string, r: string, a: nat, p: char -> bool) {
    a + |r| <= |s| && r == s[a..a + |r|] && AllIn(s[..a], p) && AllIn(s[a + |r|..], p)
  }

  /** `s.trim()`: the slice of `s` left when its leading and trailing whitespace is removed. */
  function Trim(s: string): (r: string)
    ensures r == [] || (!IsSpace(r[0]) && !IsSpace(r[|r| - 1]))
    ensures r == [] <==> AllIn(s, IsSpace)
    ensures exists a: nat :: SliceBetween(s, r, a, IsSpace)
  {
    DropBothIsSlice(s, IsSpace);
    DropBothEmpty(s, IsSpace);
    DropWhileEnd(DropWhile(s, IsSpace), IsSpace)
  }

  /** Nothing is left after dropping from both ends exactly when every character satisfies `p`. */
  lemma DropBothEmpty(s: string, p: char -> bool)
    ensures DropWhileEnd(DropWhile(s, p), p) == [] <==> AllIn(s, p)
  {
    var a := DropWhile(s, p);
    var r := DropWhileEnd(a, p);
    if r == [] {
      DroppedAllIsEmpty(s, p);
    } else {
      var i := |s| - |a| + |r| - 1;
      assert s[i] == a[|r| - 1] == r[|r| - 1];
    }
  }

  /** When the rest after the leading run is all `p`, the leading run was everything. */
  lemma DroppedAllIsEmpty(s: string, p: char -> bool)
    requires AllIn(DropWhile(s, p), p)
    ensures DropWhile(s, p) == [] && AllIn(s, p)
  {
  }

  /** Dropping the leading, then the trailing characters that satisfy `p` leaves a slice with such characters on either side. */
  lemma DropBothIsSlice(s: string, p: char -> bool)
    ensures exists a: nat :: SliceBetween(s, DropWhileEnd(DropWhile(s, p), p), a, p)
  {
    var a := DropWhile(s, p);
    var r := DropWhileEnd(a, p);
    var off := |s| - |a|;
    assert r == s[off..off + |r|] by {
      assert r == a[..|r|];
      assert a == s[off..];
    }
    assert AllIn(s[..off], p) by {
      forall i | 0 <= i < off ensures p(s[..off][i]) {
        assert s[..off][i] == s[i];
      }
    }
    var tail := s[off + |r|..];
    assert AllIn(tail, p) by {
      forall i | 0 <= i < |tail| ensures p(tail[i]) {
        assert tail[i] == a[|r| + i];
      }
    }
    assert SliceBetween(s, r, off, p);
  }

  /** `s.indexOf(p)`, or None for -1. */
  function IndexOf(s: string, p: string): (r: Option<nat>)
    ensures r.Some? ==> OccursAt(s, p, r.value) && forall k :: 0 <= k < r.value ==> !OccursAt(s, p, k)
    ensures r.None? ==> !Contains(s, p)
  {
    IndexFrom(s, p, 0)
  }

  function IndexFrom(s: string, p: string, i: nat): (r: Option<nat>)
    ensures r.Some? ==> i <= r.value && OccursAt(s, p, r.value)
    ensures r.Some? ==> forall k :: i <= k < r.value ==> !OccursAt(s, p, k)
    ensures r.None? ==> forall k: nat :: i <= k ==> !OccursAt(s, p, k)
    decreases |s| + 1 - i
  {
    if i + |p| > |s| then None
    else if s[i..i + |p|] == p then Some(i)
    else IndexFrom(s, p, i + 1)
  }

  /**
   * The replacement text of `replace` with a string pattern: `$$`, `$&`,
   * `` $` `` and `$'` are expanded; a string pattern has no captures, so
   * every other `$` is literal.
   */
  function Substitution(rep: string, matched: string, before: string, after: string): string
    decreases |rep|
  {
    if rep == [] then []
    else if rep[0] == '$' && |rep| >= 2 && rep[1] in "$&`'" then
      (if rep[1] == '$' then "$" else if rep[1] == '&' then matched else if rep[1] == '`' then before else after)
      + Substitution(rep[2..], matched, before, after)
    else [rep[0]] + Substitution(rep[1..], matched, before, after)
  }

  lemma {:induction false} SubstitutionPlain(rep: string, matched: string, before: string, after: string)
    requires '$' !in rep
    ensures Substitution(rep, matched, before, after) == rep
    decreases |rep|
  {
    if rep != [] {
      assert rep[0] != '$';
      SubstitutionPlain(rep[1..], matched, before, after);
    }
  }

  /** `s.replace(pat, rep)` with a string `pat`: only the first occurrence is replaced. */
  function ReplaceFirst(s: string, pat: string, rep: string): (r: string)
    ensures IndexOf(s, pat).None? ==> r == s
    ensures IndexOf(s, pat).Some? ==>
      var i := IndexOf(s, pat).value;
      StartsWith(r, s[..i]) && EndsWith(r, s[i + |pat|..])
  {
    match IndexOf(s, pat)
    case None => s
    case Some(i) =>
      var before, after := s[..i], s[i + |pat|..];
      var r := before + Substitution(rep, pat, before, after) + after;
      assert r[..i] == before;
      assert r[|r| - |after|..] == after;
      r
  }

  /** `s.replace(new RegExp(pat, 'g'), rep)` for a pattern without metacharacters. */
  function ReplaceAll(s: string, pat: string, rep: string): (r: string)
    requires pat != []
    decreases |s|
  {
    if StartsWith(s, pat) then rep + ReplaceAll(s[|pat|..], pat, rep)
    else if s == [] then []
    else [s[0]] + ReplaceAll(s[1..], pat, rep)
  }

  /** The number of occurrences a global `replace` rewrites. */
  function Count(s: string, pat: string): nat
    requires pat != []
    decreases |s|
  {
    if StartsWith(s, pat) then 1 + Count(s[|pat|..], pat)
    else if s == [] then 0
    else Count(s[1..], pat)
  }

  /** Every occurrence a global replace rewrites changes the length by `|rep| - |pat|`. */
  lemma {:induction false} ReplaceAllLength(s: string, pat: string, rep: string)
    requires pat != []
    ensures |ReplaceAll(s, pat, rep)| == |s| + Count(s, pat) * (|rep| - |pat|)
    decreases |s|
  {
    var d := |rep| - |pat|;
    if StartsWith(s, pat) {
      var t := s[|pat|..];
      ReplaceAllLength(t, pat, rep);
      assert |ReplaceAll(s, pat, rep)| == |rep| + |ReplaceAll(t, pat, rep)|;
      assert Count(s, pat) == 1 + Count(t, pat);
      OneMore(Count(t, pat), d);
    } else if s != [] {
      ReplaceAllLength(s[1..], pat, rep);
      assert Count(s, pat) == Count(s[1..], pat);
    }
  }

  /** One more occurrence adds one more change. */
  lemma OneMore(c: nat, d: int)
    ensures (1 + c) * d == d + c * d
  {
  }

  /** `s.split(sep)` for a non-empty string separator. */
  function Split(s: string, sep: string): (r: seq<string>)
    requires sep != []
    ensures |r| >= 1
    decreases |s|
  {
    if StartsWith(s, sep) then [[]] + Split(s[|sep|..], sep)
    else if s == [] then [[]]
    else
      var t := Split(s[1..], sep);
      [[s[0]] + t[0]] + t[1..]
  }

  /** `xs.join(sep)`. */
  function Join(xs: seq<string>, sep: string): string
    decreases |xs|
  {
    if xs == [] then []
    else if |xs| == 1 then xs[0]
    else xs[0] + sep + Join(xs[1..], sep)
  }

  /** Joining the pieces of a split with the same separator gives the string back. */
  lemma {:induction false} SplitJoin(s: string, sep: string)
    requires sep != []
    ensures Join(Split(s, sep), sep) == s
    decreases |s|
  {
    if StartsWith(s, sep) {
      SplitJoin(s[|sep|..], sep);
      JoinSplitAtPattern(s, sep, sep);
      assert s == sep + s[|sep|..];
    } else if s != [] {
      SplitJoin(s[1..], sep);
      JoinSplitPastChar(s, sep, sep);
      assert s == [s[0]] + s[1..];
    }
  }

  /** Putting a character before the first piece puts it before the join. */
  lemma JoinConsHead(c: char, t: seq<string>, sep: string)
    requires t != []
    ensures Join([[c] + t[0]] + t[1..], sep) == [c] + Join(t, sep)
  {
    var u := [[c] + t[0]] + t[1..];
    if |t| > 1 {
      assert u[1..] == t[1..];
    }
  }

  /** The first piece of a split is a prefix of the string, and so is every join of a prefix of the pieces. */
  lemma SplitFirstIsPrefix(s: string, sep: string)
    requires sep != []
    ensures StartsWith(s, Split(s, sep)[0])
    ensures |Split(s, sep)| > 1 ==> StartsWith(s, Split(s, sep)[0] + sep)
    ensures |Split(s, sep)| == 1 ==> Split(s, sep)[0] == s
  {
    SplitJoin(s, sep);
    var r := Split(s, sep);
    if |r| > 1 {
      assert s == r[0] + sep + Join(r[1..], sep);
      assert s[..|r[0] + sep|] == r[0] + sep;
    } else {
      assert s == r[0];
    }
  }

  /** No piece of a split contains the separator. */
  lemma {:induction false} SplitPiecesFree(s: string, sep: string)
    requires sep != []
    ensures forall i :: 0 <= i < |Split(s, sep)| ==> !Contains(Split(s, sep)[i], sep)
    decreases |s|
  {
    if StartsWith(s, sep) {
      SplitPiecesFree(s[|sep|..], sep);
      var t := Split(s[|sep|..], sep);
      assert Split(s, sep) == [[]] + t;
      forall i | 0 <= i < |Split(s, sep)| ensures !Contains(Split(s, sep)[i], sep) {
        if i == 0 {
          assert forall k: nat :: !OccursAt([], sep, k);
        } else {
          assert Split(s, sep)[i] == t[i - 1];
        }
      }
    } else if s != [] {
      SplitPiecesFree(s[1..], sep);
      var t := Split(s[1..], sep);
      SplitFirstIsPrefix(s[1..], sep);
      var p := [s[0]] + t[0];
      ConsPieceFree(s, sep, t[0]);
      assert Split(s, sep) == [p] + t[1..];
      forall i | 0 <= i < |Split(s, sep)| ensures !Contains(Split(s, sep)[i], sep) {
        if i > 0 { assert Split(s, sep)[i] == t[i]; }
      }
    } else {
      assert forall k: nat :: !OccursAt([], sep, k);
    }
  }

  /** The first character of a string not starting with the separator, put before a separator-free prefix of the rest, gives a separator-free text. */
  lemma ConsPieceFree(s: string, sep: string, t0: string)
    requires sep != [] && s != [] && !StartsWith(s, sep)
    requires StartsWith(s[1..], t0) && !Contains(t0, sep)
    ensures !Contains([s[0]] + t0, sep)
  {
    var p := [s[0]] + t0;
    forall k: nat | k <= |p| ensures !OccursAt(p, sep, k) {
      if k == 0 {
        if |sep| <= |p| {
          assert p[..|sep|] == s[..|sep|];
        }
      } else {
        if k + |sep| <= |p| {
          assert p[k..k + |sep|] == t0[k - 1..k - 1 + |sep|];
        }
        assert !OccursAt(t0, sep, k - 1);
      }
    }
  }

  /** A global replace rewrites exactly the separators of a split: the text between occurrences is kept, in order. */
  lemma {:induction false} ReplaceAllIsSplitJoin(s: string, pat: string, rep: string)
    requires pat != []
    ensures ReplaceAll(s, pat, rep) == Join(Split(s, pat), rep)
    decreases |s|
  {
    if StartsWith(s, pat) {
      ReplaceAllIsSplitJoin(s[|pat|..], pat, rep);
      JoinSplitAtPattern(s, pat, rep);
    } else if s != [] {
      ReplaceAllIsSplitJoin(s[1..], pat, rep);
      JoinSplitPastChar(s, pat, rep);
    }
  }

  /** Joining the pieces of a string that starts with the pattern: `rep`, then the join of the rest's pieces. */
  lemma JoinSplitAtPattern(s: string, pat: string, rep: string)
    requires pat != [] && StartsWith(s, pat)
    ensures Join(Split(s, pat), rep) == rep + Join(Split(s[|pat|..], pat), rep)
  {
    var u := Split(s[|pat|..], pat);
    assert Split(s, pat) == [[]] + u;
    assert Join([[]] + u, rep) == [] + rep + Join(u, rep);
  }

  /** Joining the pieces of a string that does not start with the pattern: its first character, then the join of the rest's pieces. */
  lemma JoinSplitPastChar(s: string, pat: string, rep: string)
    requires pat != [] && s != [] && !StartsWith(s, pat)
    ensures Join(Split(s, pat), rep) == [s[0]] + Join(Split(s[1..], pat), rep)
  {
    var t := Split(s[1..], pat);
    assert Split(s, pat) == [[s[0]] + t[0]] + t[1..];
    JoinConsHead(s[0], t, rep);
  }

  /** A string without the pattern is left unchanged by a global replace. */
  lemma {:induction false} ReplaceAllAbsent(s: string, pat: string, rep: string)
    requires pat != [] && !Contains(s, pat)
    ensures ReplaceAll(s, pat, rep) == s
    decreases |s|
  {
    assert !OccursAt(s, pat, 0);
    if s != [] {
      assert !Contains(s[1..], pat) by {
        forall k: nat | k <= |s[1..]| ensures !OccursAt(s[1..], pat, k) {
          assert !OccursAt(s, pat, k + 1);
          if k + |pat| <= |s[1..]| {
            assert s[1..][k..k + |pat|] == s[k + 1..k + 1 + |pat|];
          }
        }
      }
      ReplaceAllAbsent(s[1..], pat, rep);
    }
  }

  /** One character that cannot start the pattern is copied unchanged. */
  lemma ReplaceAllCons(c: char, s: string, pat: string, rep: string)
    requires pat != [] && c != pat[0]
    ensures ReplaceAll([c] + s, pat, rep) == [c] + ReplaceAll(s, pat, rep)
  {
    assert ([c] + s)[1..] == s;
  }

  /**
   * A global replace distributes over a concatenation when no occurrence can
   * straddle the boundary: the right part does not begin with a character
   * that occurs after the first position of the pattern.
   */
  lemma {:induction false} ReplaceAllAppend(a: string, x: string, pat: string, rep: string)
    requires pat != []
    requires x == [] || x[0] !in pat[1..]
    ensures ReplaceAll(a + x, pat, rep) == ReplaceAll(a, pat, rep) + ReplaceAll(x, pat, rep)
    decreases |a|
  {
    if a == [] {
      assert a + x == x;
    } else if StartsWith(a, pat) {
      PatternStartsAppend(a, x, pat);
      ReplaceAllAppend(a[|pat|..], x, pat, rep);
      ReplaceAllJoin(a, x, |pat|, rep, pat, rep);
    } else {
      NoPatternStartsAppend(a, x, pat);
      ReplaceAllAppend(a[1..], x, pat, rep);
      ReplaceAllJoin(a, x, 1, [a[0]], pat, rep);
    }
  }

  /** The step of `ReplaceAllAppend`: `a` and `a + x` both emit `out` for their first `n` characters, then continue alike. */
  lemma ReplaceAllJoin(a: string, x: string, n: nat, out: string, pat: string, rep: string)
    requires pat != [] && n <= |a| && (a + x)[n..] == a[n..] + x
    requires ReplaceAll(a + x, pat, rep) == out + ReplaceAll((a + x)[n..], pat, rep)
    requires ReplaceAll(a, pat, rep) == out + ReplaceAll(a[n..], pat, rep)
    requires ReplaceAll(a[n..] + x, pat, rep) == ReplaceAll(a[n..], pat, rep) + ReplaceAll(x, pat, rep)
    ensures ReplaceAll(a + x, pat, rep) == ReplaceAll(a, pat, rep) + ReplaceAll(x, pat, rep)
  {
    var p, q := ReplaceAll(a[n..], pat, rep), ReplaceAll(x, pat, rep);
    assert out + (p + q) == (out + p) + q;
  }

  /** A pattern at the start of `a` is at the start of `a + x`, and what follows it is the rest of `a`, then `x`. */
  lemma PatternStartsAppend(a: string, x: string, pat: string)
    requires StartsWith(a, pat)
    ensures StartsWith(a + x, pat) && (a + x)[|pat|..] == a[|pat|..] + x
  {
    assert (a + x)[..|pat|] == a[..|pat|];
  }

  /**
   * When the pattern does not start `a` and `x` does not begin with a
   * character from the pattern's tail, it does not start `a + x` either.
   */
  lemma NoPatternStartsAppend(a: string, x: string, pat: string)
    requires pat != [] && a != [] && !StartsWith(a, pat)
    requires x == [] || x[0] !in pat[1..]
    ensures !StartsWith(a + x, pat) && (a + x)[0] == a[0] && (a + x)[1..] == a[1..] + x
  {
    var ax := a + x;
    if |pat| <= |a| {
      assert ax[..|pat|] == a[..|pat|];
    } else if |pat| <= |ax| {
      assert pat[1..][|a| - 1] == pat[|a|];
      assert ax[..|pat|][|a|] == x[0];
    }
  }

  /** How a global replace begins: with `rep` where the pattern starts the input, else with the first character. */
  lemma ReplaceAllStep(t: string, pat: string, rep: string)
    requires pat != []
    ensures StartsWith(t, pat) ==> ReplaceAll(t, pat, rep) == rep + ReplaceAll(t[|pat|..], pat, rep)
    ensures !StartsWith(t, pat) && t != [] ==> ReplaceAll(t, pat, rep) == [t[0]] + ReplaceAll(t[1..], pat, rep)
    ensures StartsWith(t, pat) && rep != [] ==> ReplaceAll(t, pat, rep)[0] == rep[0]
  {
  }

  /** If a prefix of the output holds no character of `rep`, the input begins with that same prefix. */
  lemma {:induction false} ReplaceAllPrefix(t: string, pat: string, rep: string, m: nat)
    requires pat != [] && rep != []
    requires m <= |ReplaceAll(t, pat, rep)|
    requires forall i :: 0 <= i < m ==> ReplaceAll(t, pat, rep)[i] !in rep
    ensures m <= |t| && t[..m] == ReplaceAll(t, pat, rep)[..m]
    decreases |t|
  {
    var r := ReplaceAll(t, pat, rep);
    if m > 0 {
      ReplaceAllStep(t, pat, rep);
      assert rep[0] in rep && r[0] !in rep;
      assert !StartsWith(t, pat);
      {
        var r' := ReplaceAll(t[1..], pat, rep);
        assert r == [t[0]] + r';
        forall i | 0 <= i < m - 1 ensures r'[i] !in rep {
          assert r'[i] == r[i + 1];
        }
        ReplaceAllPrefix(t[1..], pat, rep, m - 1);
        assert t[..m] == [t[0]] + t[1..][..m - 1];
      }
    }
  }

  /** An occurrence past a prefix is an occurrence in the rest. */
  lemma OccursAfterPrefix(p: string, s: string, q: string, k: nat)
    requires |p| <= k
    ensures OccursAt(p + s, q, k) <==> OccursAt(s, q, k - |p|)
  {
    if k + |q| <= |p + s| {
      assert (p + s)[k..k + |q|] == s[k - |p|..k - |p| + |q|];
    }
  }

  /** An occurrence at `k` begins with the first character of `q`. */
  lemma OccursAtHead(s: string, q: string, k: nat)
    requires q != []
    ensures OccursAt(s, q, k) ==> s[k] == q[0]
  {
    if OccursAt(s, q, k) {
      assert s[k..k + |q|][0] == s[k];
    }
  }

  /** An occurrence of `q` at the very start of the output was already at the start of the input. */
  lemma ReplaceAllKeepsLeading(t: string, pat: string, rep: string, q: string)
    requires pat != [] && rep != []
    requires forall c :: c in rep ==> c !in q
    ensures OccursAt(ReplaceAll(t, pat, rep), q, 0) ==> OccursAt(t, q, 0)
  {
    var r := ReplaceAll(t, pat, rep);
    if OccursAt(r, q, 0) {
      forall i | 0 <= i < |q| ensures r[i] !in rep {
        assert r[i] == q[i];
        assert q[i] in q;
      }
      ReplaceAllPrefix(t, pat, rep, |q|);
    }
  }

  /** A suffix of a string holds no more occurrences than the string. */
  lemma SuffixKeepsAbsence(t: string, d: nat, q: string)
    requires d <= |t| && !Contains(t, q)
    ensures !Contains(t[d..], q)
  {
    forall k: nat | k <= |t[d..]| ensures !OccursAt(t[d..], q, k) {
      assert t == t[..d] + t[d..];
      OccursAfterPrefix(t[..d], t[d..], q, k + d);
    }
  }

  /**
   * After a global replace whose replacement shares no character with `q`, the
   * output holds `q` nowhere, provided `q` is the pattern itself or the input
   * did not hold `q` either.
   */
  lemma {:induction false} ReplaceAllLeavesNo(t: string, pat: string, rep: string, q: string)
    requires pat != [] && rep != [] && q != []
    requires forall c :: c in rep ==> c !in q
    requires q == pat || !Contains(t, q)
    ensures !Contains(ReplaceAll(t, pat, rep), q)
    decreases |t|
  {
    var r := ReplaceAll(t, pat, rep);
    ReplaceAllStep(t, pat, rep);
    if StartsWith(t, pat) {
      var t' := t[|pat|..];
      if q != pat { SuffixKeepsAbsence(t, |pat|, q); }
      ReplaceAllLeavesNo(t', pat, rep, q);
      var r' := ReplaceAll(t', pat, rep);
      forall k: nat | k <= |r| ensures !OccursAt(r, q, k) {
        if k < |rep| {
          OccursAtHead(r, q, k);
          assert r[k] == rep[k];
          assert rep[k] in rep;
        } else {
          OccursAfterPrefix(rep, r', q, k);
        }
      }
    } else if t != [] {
      var t' := t[1..];
      if q != pat { SuffixKeepsAbsence(t, 1, q); }
      ReplaceAllLeavesNo(t', pat, rep, q);
      var r' := ReplaceAll(t', pat, rep);
      forall k: nat | k <= |r| ensures !OccursAt(r, q, k) {
        if k == 0 {
          ReplaceAllKeepsLeading(t, pat, rep, q);
          assert !OccursAt(t, q, 0);
        } else {
          OccursAfterPrefix([t[0]], r', q, k);
        }
      }
    } else {
      assert forall k: nat :: !OccursAt([], q, k);
    }
  }

  /** The decimal digits of `n`, most significant first, as `String(n)` writes a non-negative integer. */
  function Digits(n: nat): (r: string)
    ensures r != [] && forall i :: 0 <= i < |r| ==> '0' <= r[i] <= '9'
  {
    var d := ['0' + (n % 10) as char];
    if n < 10 then d else Digits(n / 10) + d
  }

  /** The value of a string of decimal digits. */
  function DigitsValue(s: string): nat
    requires forall i :: 0 <= i < |s| ==> '0' <= s[i] <= '9'
  {
    if s == [] then 0 else 10 * DigitsValue(s[..|s| - 1]) + (s[|s| - 1] - '0') as nat
  }

  lemma {:induction false} DigitsRoundTrip(n: nat)
    ensures DigitsValue(Digits(n)) == n
  {
    if n >= 10 {
      DigitsRoundTrip(n / 10);
      var r := Digits(n);
      assert r[..|r| - 1] == Digits(n / 10);
    }
  }

  /** `String(n)` for an integer: an optional `-` and the decimal digits of its magnitude. */
  function NumberString(n: int): string {
    if n < 0 then "-" + Digits(-n) else Digits(n)
  }

  /** Text free of a one-character separator joins the first piece of what follows it. */
  lemma {:induction false} SplitPrefix(x: string, y: string, c: char)
    requires c !in x
    ensures Split(x + y, [c]) == [x + Split(y, [c])[0]] + Split(y, [c])[1..]
    decreases |x|
  {
    if x != [] {
      var xy := x + y;
      assert xy[1..] == x[1..] + y;
      assert !StartsWith(xy, [c]) by {
        assert xy[0] == x[0];
      }
      SplitPrefix(x[1..], y, c);
      assert [x[0]] + (x[1..] + Split(y, [c])[0]) == x + Split(y, [c])[0];
    } else {
      var r := Split(y, [c]);
      assert x + y == y && x + r[0] == r[0];
      assert r == [r[0]] + r[1..];
    }
  }

  /** The text before the first `c`, or all of `s` when it holds none. */
  function PrefixBefore(s: string, c: char): (r: string)
    ensures StartsWith(s, r) && c !in r
    ensures r == s || s[|r|] == c
  {
    if s == [] || s[0] == c then [] else [s[0]] + PrefixBefore(s[1..], c)
  }

  /** Text free of `c` is passed over whole before the first `c`. */
  lemma {:induction false} PrefixBeforeAppend(a: string, b: string, c: char)
    requires c !in a
    ensures PrefixBefore(a + b, c) == a + PrefixBefore(b, c)
    decreases |a|
  {
    if a == [] {
      assert a + b == b;
    } else {
      assert (a + b)[1..] == a[1..] + b;
      PrefixBeforeAppend(a[1..], b, c);
      assert a == [a[0]] + a[1..];
    }
  }

  /** The first piece of a split at a one-character separator is the text before its first occurrence. */
  lemma {:induction false} SplitHead(s: string, c: char)
    ensures Split(s, [c])[0] == PrefixBefore(s, c)
    decreases |s|
  {
    if s != [] && s[0] != c {
      SplitHead(s[1..], c);
      assert !StartsWith(s, [c]);
    } else if s != [] {
      assert StartsWith(s, [c]);
    }
  }

  /** A character is in a text exactly when the one-character text occurs in it. */
  lemma CharContains(s: string, c: char)
    ensures c in s <==> Contains(s, [c])
  {
    if c in s {
      var k :| 0 <= k < |s| && s[k] == c;
      assert OccursAt(s, [c], k);
    }
    if Contains(s, [c]) {
      var k: nat :| k <= |s| && OccursAt(s, [c], k);
      assert s[k] == s[k..k + 1][0];
    }
  }

  /** A leading one-character separator ends an empty first piece. */
  lemma SplitLeadingSeparator(y: string, c: char)
    ensures Split([c] + y, [c]) == [[]] + Split(y, [c])
  {
    var s := [c] + y;
    assert StartsWith(s, [c]);
    assert s[1..] == y;
  }
}
