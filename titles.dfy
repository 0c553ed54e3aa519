/**
 * MediaWiki title normalisation as src/utils/wiki.ts does it: runs of
 * whitespace and underscores collapse to one space, the ends are trimmed,
 * and the first character is upper-cased; the database key then writes
 * spaces as underscores.
 */
module Titles {
  import opened Wrappers
  import opened Strings

  /** No two neighbouring characters both satisfy `p`. */
  predicate NoAdjacent(s: string, p: char -> bool) {
    forall i, j :: 0 <= i < |s| && 0 <= j < |s| && j == i + 1 ==> !(p(s[i]) && p(s[j]))
  }

  /** The class `[\s_]`. */
  predicate IsSep(c: char) {
    IsSpace(c) || c == '_'
  }

  /** `s.replace(/[class]+/g, rep)`: every maximal run of class characters becomes one `rep`. */
  function CollapseRuns(s: string, inClass: char -> bool, rep: char): (r: string)
    ensures |r| <= |s|
    ensures forall i :: 0 <= i < |r| && inClass(r[i]) ==> r[i] == rep
    ensures NoAdjacent(r, inClass)
    ensures s != [] ==> r != [] && r[0] == (if inClass(s[0]) then rep else s[0])
    decreases |s|
  {
    if s == [] then []
    else if inClass(s[0]) then
      var rest := DropWhile(s, inClass);
      [rep] + CollapseRuns(rest, inClass, rep)
    else [s[0]] + CollapseRuns(s[1..], inClass, rep)
  }

  /** Dropping a prefix of `x + y`: whatever `x` leaves, followed by `y`, or what `y` leaves when `x` is dropped entirely. */
  lemma {:induction false} DropWhileAppend(x: string, y: string, p: char -> bool)
    ensures DropWhile(x + y, p) == if DropWhile(x, p) == [] then DropWhile(y, p) else DropWhile(x, p) + y
    decreases |x|
  {
    if x == [] {
      assert x + y == y;
    } else if p(x[0]) {
      assert (x + y)[1..] == x[1..] + y;
      DropWhileAppend(x[1..], y, p);
    }
  }

  /** A non-empty run of class characters collapses to one `rep`; a character outside the class is kept. */
  lemma CollapseRunsUnits(s: string, inClass: char -> bool, rep: char)
    ensures s != [] && AllIn(s, inClass) ==> CollapseRuns(s, inClass, rep) == [rep]
    ensures |s| == 1 && !inClass(s[0]) ==> CollapseRuns(s, inClass, rep) == s
  {
    if s != [] && AllIn(s, inClass) {
      assert DropWhile(s, inClass) == [];
    }
  }

  /**
   * Collapsing splits at any point where a run of class characters does not
   * continue across: with `CollapseRunsUnits` this fixes the result of every
   * input, run by run.
   */
  lemma {:induction false} CollapseRunsAppend(x: string, y: string, inClass: char -> bool, rep: char)
    requires x == [] || y == [] || !inClass(x[|x| - 1]) || !inClass(y[0])
    ensures CollapseRuns(x + y, inClass, rep) == CollapseRuns(x, inClass, rep) + CollapseRuns(y, inClass, rep)
    decreases |x|, 1
  {
    if x == [] {
      assert x + y == y;
    } else if inClass(x[0]) {
      CollapseAppendRun(x, y, inClass, rep);
    } else {
      CollapseAppendKept(x, y, inClass, rep);
    }
  }

  /** `CollapseRunsAppend` when `x` starts with a class character. */
  lemma {:induction false} CollapseAppendRun(x: string, y: string, inClass: char -> bool, rep: char)
    requires x != [] && inClass(x[0])
    requires y == [] || !inClass(x[|x| - 1]) || !inClass(y[0])
    ensures CollapseRuns(x + y, inClass, rep) == CollapseRuns(x, inClass, rep) + CollapseRuns(y, inClass, rep)
    decreases |x|, 0
  {
    var d := DropWhile(x, inClass);
    DropWhileAppend(x, y, inClass);
    if d == [] {
      assert inClass(x[|x| - 1]);
      if y != [] {
        assert DropWhile(y, inClass) == y;
      }
      CollapseJoinWholeRun(x, y, inClass, rep);
    } else {
      assert d[|d| - 1] == x[|x| - 1];
      CollapseRunsAppend(d, y, inClass, rep);
      CollapseJoinRun(x, y, d, inClass, rep);
    }
  }

  /** `CollapseRunsAppend` when `x` starts with a character outside the class. */
  lemma {:induction false} CollapseAppendKept(x: string, y: string, inClass: char -> bool, rep: char)
    requires x != [] && !inClass(x[0])
    requires y == [] || !inClass(x[|x| - 1]) || !inClass(y[0])
    ensures CollapseRuns(x + y, inClass, rep) == CollapseRuns(x, inClass, rep) + CollapseRuns(y, inClass, rep)
    decreases |x|, 0
  {
    var t := x[1..];
    assert (x + y)[1..] == t + y;
    if t != [] {
      assert t[|t| - 1] == x[|x| - 1];
    }
    CollapseRunsAppend(t, y, inClass, rep);
    CollapseJoinKept(x, y, inClass, rep);
  }

  /** `CollapseRunsAppend` when `x` is one run of class characters. */
  lemma CollapseJoinWholeRun(x: string, y: string, inClass: char -> bool, rep: char)
    requires x != [] && inClass(x[0]) && DropWhile(x, inClass) == []
    requires DropWhile(x + y, inClass) == y
    requires y == [] || !inClass(y[0])
    ensures CollapseRuns(x + y, inClass, rep) == CollapseRuns(x, inClass, rep) + CollapseRuns(y, inClass, rep)
  {
    CollapseStep(x + y, inClass, rep);
    CollapseStep(x, inClass, rep);
  }

  /** `CollapseRunsAppend` when `x` starts with a run that stops inside `x`, at `d`. */
  lemma CollapseJoinRun(x: string, y: string, d: string, inClass: char -> bool, rep: char)
    requires x != [] && inClass(x[0]) && d == DropWhile(x, inClass)
    requires DropWhile(x + y, inClass) == d + y
    requires CollapseRuns(d + y, inClass, rep) == CollapseRuns(d, inClass, rep) + CollapseRuns(y, inClass, rep)
    ensures CollapseRuns(x + y, inClass, rep) == CollapseRuns(x, inClass, rep) + CollapseRuns(y, inClass, rep)
  {
    CollapseStep(x + y, inClass, rep);
    CollapseStep(x, inClass, rep);
    ConsAppend(rep, CollapseRuns(d, inClass, rep), CollapseRuns(y, inClass, rep));
  }

  /** `CollapseRunsAppend` when `x` starts with a character outside the class. */
  lemma CollapseJoinKept(x: string, y: string, inClass: char -> bool, rep: char)
    requires x != [] && !inClass(x[0]) && (x + y)[1..] == x[1..] + y
    requires CollapseRuns(x[1..] + y, inClass, rep) == CollapseRuns(x[1..], inClass, rep) + CollapseRuns(y, inClass, rep)
    ensures CollapseRuns(x + y, inClass, rep) == CollapseRuns(x, inClass, rep) + CollapseRuns(y, inClass, rep)
  {
    CollapseStep(x + y, inClass, rep);
    CollapseStep(x, inClass, rep);
    ConsAppend(x[0], CollapseRuns(x[1..], inClass, rep), CollapseRuns(y, inClass, rep));
  }

  /** Concatenation regroups around a leading character. */
  lemma ConsAppend(c: char, p: string, q: string)
    ensures [c] + (p + q) == ([c] + p) + q
  {
  }

  /** One step of collapsing: a leading run becomes `rep`, a leading character outside the class is kept. */
  lemma CollapseStep(s: string, inClass: char -> bool, rep: char)
    requires s != []
    ensures inClass(s[0]) ==> CollapseRuns(s, inClass, rep) == [rep] + CollapseRuns(DropWhile(s, inClass), inClass, rep)
    ensures !inClass(s[0]) ==> CollapseRuns(s, inClass, rep) == [s[0]] + CollapseRuns(s[1..], inClass, rep)
  {
  }

  /** Every class character replaced by `rep`, one for one. */
  function MapClass(s: string, inClass: char -> bool, rep: char): (r: string)
    ensures |r| == |s|
    ensures forall i :: 0 <= i < |s| ==> r[i] == if inClass(s[i]) then rep else s[i]
  {
    if s == [] then [] else [if inClass(s[0]) then rep else s[0]] + MapClass(s[1..], inClass, rep)
  }

  /** Without two class characters side by side, collapsing runs is replacing characters. */
  lemma {:induction false} CollapseSingletons(s: string, inClass: char -> bool, rep: char)
    requires NoAdjacent(s, inClass)
    ensures CollapseRuns(s, inClass, rep) == MapClass(s, inClass, rep)
    decreases |s|
  {
    if s != [] {
      CollapseSingletons(s[1..], inClass, rep);
      if inClass(s[0]) {
        assert DropWhile(s, inClass) == DropWhile(s[1..], inClass);
        assert s[1..] == [] || !inClass(s[1..][0]);
      }
      assert MapClass(s, inClass, rep) == [MapClass(s, inClass, rep)[0]] + MapClass(s[1..], inClass, rep);
    }
  }

  /** No separator other than a space, and never two in a row. */
  predicate SingleSpaced(t: string) {
    && (forall i :: 0 <= i < |t| && IsSep(t[i]) ==> t[i] == ' ')
    && NoAdjacent(t, IsSep)
  }

  lemma SingleSpacedSlice(c: string, lo: nat, hi: nat)
    requires SingleSpaced(c) && lo <= hi <= |c|
    ensures SingleSpaced(c[lo..hi])
  {
    var t := c[lo..hi];
    assert forall i :: 0 <= i < |t| ==> t[i] == c[lo + i];
  }

  /** In a single-spaced string, whitespace and separators are the same characters. */
  lemma SingleSpacedBlank(c: string)
    requires SingleSpaced(c)
    ensures AllIn(c, IsSpace) <==> AllIn(c, IsSep)
  {
  }

  lemma {:induction false} CollapseBlank(s: string, inClass: char -> bool, rep: char)
    requires inClass(rep)
    ensures AllIn(CollapseRuns(s, inClass, rep), inClass) <==> AllIn(s, inClass)
    decreases |s|
  {
    if s != [] {
      if inClass(s[0]) {
        var rest := DropWhile(s, inClass);
        CollapseBlank(rest, inClass, rep);
        var r := CollapseRuns(rest, inClass, rep);
        var rr := [rep] + r;
        assert rr[1..] == r;
        assert AllIn(rr, inClass) <==> AllIn(r, inClass) by {
          assert forall i :: 0 <= i < |r| ==> rr[i + 1] == r[i];
        }
        assert AllIn(s, inClass) <==> AllIn(rest, inClass) by {
          assert forall i :: |s| - |rest| <= i < |s| ==> s[i] == rest[i - (|s| - |rest|)];
        }
      }
    }
  }

  /** `raw.replace(/[\s_]+/g, ' ').trim()`: the part the display title and the key share. */
  function Spaced(raw: string): string {
    Trim(CollapseRuns(raw, IsSep, ' '))
  }

  /** Trimming keeps a slice of the input. */
  lemma TrimSlice(c: string) returns (off: nat)
    ensures off + |Trim(c)| <= |c| && Trim(c) == c[off..off + |Trim(c)|]
  {
    var d := DropWhile(c, IsSpace);
    off := |c| - |d|;
  }

  lemma SpacedSingle(raw: string)
    ensures SingleSpaced(Spaced(raw))
  {
    var c := CollapseRuns(raw, IsSep, ' ');
    var off := TrimSlice(c);
    SingleSpacedSlice(c, off, off + |Trim(c)|);
  }

  /** A single-spaced string with no whitespace at its ends has no separator there either. */
  lemma SingleSpacedEnds(t: string)
    requires SingleSpaced(t)
    requires t == [] || (!IsSpace(t[0]) && !IsSpace(t[|t| - 1]))
    ensures t == [] || (!IsSep(t[0]) && !IsSep(t[|t| - 1]))
  {
  }

  lemma SpacedEnds(raw: string)
    ensures var t := Spaced(raw); t == [] || (!IsSep(t[0]) && !IsSep(t[|t| - 1]))
  {
    SpacedSingle(raw);
    SingleSpacedEnds(Spaced(raw));
  }

  lemma SpacedEmpty(raw: string)
    ensures Spaced(raw) == [] <==> AllIn(raw, IsSep)
  {
    var c := CollapseRuns(raw, IsSep, ' ');
    SingleSpacedBlank(c);
    CollapseBlank(raw, IsSep, ' ');
  }

  function UpperFirst(t: string): string
    requires t != []
  {
    [UpperChar(t[0])] + t[1..]
  }

  /** `getWikiDisplayTitle`: throws when `title[0]` is undefined. */
  function DisplayTitle(raw: string): Result<string> {
    var t := Spaced(raw);
    if t == [] then Thrown("TypeError: title[0] is undefined") else Ok(UpperFirst(t))
  }

  /** `getWikiTitleDBKey`: throws when `title[0]` is undefined. */
  function DBKey(raw: string): Result<string> {
    var t := CollapseRuns(Spaced(raw), IsSpace, '_');
    if t == [] then Thrown("TypeError: title[0] is undefined") else Ok(UpperFirst(t))
  }

  /** The shape of every database key. */
  predicate IsDBKey(k: string) {
    && k != []
    && (forall i :: 0 <= i < |k| ==> !IsSpace(k[i]))
    && k[0] != '_' && k[|k| - 1] != '_'
    && NoAdjacent(k, c => c == '_')
    && UpperChar(k[0]) == k[0]
  }

  /** In a single-spaced string `/\s+/g` meets only lone spaces, so it rewrites them one for one. */
  lemma SingleSpacedUnderscored(t: string)
    requires SingleSpaced(t)
    ensures CollapseRuns(t, IsSpace, '_') == MapClass(t, IsSpace, '_')
  {
    CollapseSingletons(t, IsSpace, '_');
  }

  /** One character of a single-spaced string, with whitespace written as `_`. */
  lemma UnderscoreChar(c: char)
    requires IsSep(c) ==> c == ' '
    ensures var m := if IsSpace(c) then '_' else c; (m == '_' <==> IsSep(c)) && !IsSpace(m)
  {
  }

  /** Raising an ASCII letter yields no separator, and raising twice is raising once. */
  lemma UpperCharFacts(c: char)
    requires !IsSep(c)
    ensures !IsSep(UpperChar(c)) && UpperChar(UpperChar(c)) == UpperChar(c)
  {
  }

  /** Writing the spaces of a single-spaced, trimmed string as `_` and raising its head gives a key. */
  lemma KeyOfSpaced(t: string)
    requires SingleSpaced(t) && t != [] && !IsSep(t[0]) && !IsSep(t[|t| - 1])
    ensures IsDBKey(UpperFirst(MapClass(t, IsSpace, '_')))
  {
    var k := UpperFirst(MapClass(t, IsSpace, '_'));
    KeyChars(t);
    UnderscoresOfSeps(t, k);
    UpperCharFacts(t[0]);
  }

  /** Each character of the key is `_` exactly where the string has a separator, and is no whitespace. */
  lemma KeyChars(t: string)
    requires SingleSpaced(t) && t != [] && !IsSep(t[0])
    ensures var k := UpperFirst(MapClass(t, IsSpace, '_'));
      |k| == |t| && forall i :: 0 <= i < |k| ==> (k[i] == '_' <==> IsSep(t[i])) && !IsSpace(k[i])
  {
    var m := MapClass(t, IsSpace, '_');
    var k := UpperFirst(m);
    forall i | 0 <= i < |k| ensures (k[i] == '_' <==> IsSep(t[i])) && !IsSpace(k[i]) {
      if i == 0 {
        UpperCharFacts(t[0]);
      } else {
        assert k[i] == m[i];
        UnderscoreChar(t[i]);
      }
    }
  }

  /** `_` sits where a string without adjacent separators has one, so no two `_` are adjacent. */
  lemma UnderscoresOfSeps(t: string, k: string)
    requires NoAdjacent(t, IsSep) && |k| == |t|
    requires forall i :: 0 <= i < |k| ==> (k[i] == '_' <==> IsSep(t[i]))
    ensures NoAdjacent(k, c => c == '_')
  {
  }

  /** The spaced form with its spaces written as `_`, which is what `DBKey` raises the head of. */
  lemma DBKeyUnfold(raw: string)
    ensures DBKey(raw) == if Spaced(raw) == [] then Thrown("TypeError: title[0] is undefined")
                          else Ok(UpperFirst(MapClass(Spaced(raw), IsSpace, '_')))
  {
    SpacedSingle(raw);
    SingleSpacedUnderscored(Spaced(raw));
  }

  /** Both forms throw exactly when the input is empty or holds only whitespace and underscores. */
  lemma TitleThrowsOnBlank(raw: string)
    ensures DBKey(raw).Thrown? <==> AllIn(raw, IsSep)
    ensures DisplayTitle(raw).Thrown? <==> AllIn(raw, IsSep)
  {
    DBKeyUnfold(raw);
    SpacedEmpty(raw);
  }

  /** A key holds no whitespace, does not begin or end with `_`, never has two `_` in a row and starts upper-cased. */
  lemma DBKeyShape(raw: string)
    ensures DBKey(raw).Ok? ==> IsDBKey(DBKey(raw).value)
  {
    DBKeyUnfold(raw);
    SpacedSingle(raw);
    SpacedEnds(raw);
    if Spaced(raw) != [] {
      KeyOfSpaced(Spaced(raw));
    }
  }

  /** Raising the head commutes with writing spaces as `_` when the head is not a space. */
  lemma UnderscoreDisplay(t: string)
    requires t != [] && !IsSep(t[0]) && SingleSpaced(t)
    ensures UpperFirst(MapClass(t, IsSpace, '_')) == MapClass(UpperFirst(t), c => c == ' ', '_')
  {
    var a, b := UpperFirst(MapClass(t, IsSpace, '_')), MapClass(UpperFirst(t), c => c == ' ', '_');
    assert |a| == |b|;
    forall i | 0 <= i < |a| ensures a[i] == b[i] {
      if i > 0 {
        assert IsSpace(t[i]) <==> t[i] == ' ';
      }
    }
  }

  /** The key is the display title with every space written as `_`, and the two throw together. */
  lemma DBKeyIsDisplayUnderscored(raw: string)
    ensures DBKey(raw).Thrown? == DisplayTitle(raw).Thrown?
    ensures DBKey(raw).Ok? ==> DBKey(raw).value == MapClass(DisplayTitle(raw).value, c => c == ' ', '_')
  {
    DBKeyUnfold(raw);
    SpacedSingle(raw);
    SpacedEnds(raw);
    if Spaced(raw) != [] {
      UnderscoreDisplay(Spaced(raw));
    }
  }

  /** A key has no whitespace, so its spaced form only turns each `_` into a space. */
  lemma SpacedOfKey(k: string)
    requires IsDBKey(k)
    ensures Spaced(k) == MapClass(k, IsSep, ' ')
  {
    assert NoAdjacent(k, IsSep);
    CollapseSingletons(k, IsSep, ' ');
    var c := MapClass(k, IsSep, ' ');
    assert DropWhile(c, IsSpace) == c;
    assert DropWhileEnd(c, IsSpace) == c;
  }

  /** A string of key shape is its own key. */
  lemma DBKeyFixesKeys(k: string)
    requires IsDBKey(k)
    ensures DBKey(k) == Ok(k)
  {
    SpacedOfKey(k);
    DBKeyUnfold(k);
    var c := MapClass(k, IsSep, ' ');
    var m := MapClass(c, IsSpace, '_');
    forall i | 0 <= i < |k| ensures m[i] == k[i] {
      assert IsSep(k[i]) <==> k[i] == '_';
    }
    assert m == k;
    assert Spaced(k) != [];
    assert UpperFirst(k) == k;
  }

  /** Normalising a key again changes nothing. */
  lemma DBKeyIdempotent(raw: string)
    requires DBKey(raw).Ok?
    ensures DBKey(DBKey(raw).value) == DBKey(raw)
  {
    DBKeyShape(raw);
    DBKeyFixesKeys(DBKey(raw).value);
  }
}
