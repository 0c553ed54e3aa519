/** Sequence helpers for `new Set(...)` spreads and `filter`. */
module Lists {

  predicate NoDuplicates<T(==)>(s: seq<T>) {
    forall i, j :: 0 <= i < j < |s| ==> s[i] != s[j]
  }

  /** Where `x` first occurs in `s`. */
  function FirstIndex<T(==)>(s: seq<T>, x: T): (k: nat)
    requires x in s
    ensures k < |s| && s[k] == x && x !in s[..k]
  {
    if s[0] == x then 0 else 1 + FirstIndex(s[1..], x)
  }

  lemma {:induction false} FirstIndexAppend<T>(p: seq<T>, q: seq<T>, x: T)
    requires x in p
    ensures FirstIndex(p + q, x) == FirstIndex(p, x)
  {
    if p[0] != x {
      assert (p + q)[1..] == p[1..] + q;
      FirstIndexAppend(p[1..], q, x);
    }
  }

  /** Where `x` first occurs after a leading element `h`. */
  lemma FirstIndexCons<T>(h: T, s: seq<T>, x: T)
    requires x in [h] + s
    ensures FirstIndex([h] + s, x) == if h == x then 0 else 1 + FirstIndex(s, x)
  {
    if h != x {
      assert ([h] + s)[1..] == s;
    }
  }

  /** `[...new Set(s)]`: the distinct elements of `s`, in the order of their first occurrence. */
  function Dedupe<T(==)>(s: seq<T>): (r: seq<T>)
    ensures NoDuplicates(r)
    ensures forall i :: 0 <= i < |r| ==> r[i] in s
    ensures forall i :: 0 <= i < |s| ==> s[i] in r
    ensures forall i, j :: 0 <= i < j < |r| ==> FirstIndex(s, r[i]) < FirstIndex(s, r[j])
    decreases |s|
  {
    if s == [] then []
    else
      var d := Dedupe(s[..|s| - 1]);
      DedupeSnoc(s, s[..|s| - 1], d);
      if s[|s| - 1] in d then d else d + [s[|s| - 1]]
  }

  /** The step of `Dedupe`: a deduplication of all but the last element extends to one of `s`. */
  lemma DedupeSnoc<T>(s: seq<T>, p: seq<T>, d: seq<T>)
    requires s != [] && p == s[..|s| - 1] && NoDuplicates(d)
    requires forall i :: 0 <= i < |d| ==> d[i] in p
    requires forall i :: 0 <= i < |p| ==> p[i] in d
    requires forall i, j :: 0 <= i < j < |d| ==> FirstIndex(p, d[i]) < FirstIndex(p, d[j])
    ensures var r := if s[|s| - 1] in d then d else d + [s[|s| - 1]];
      && NoDuplicates(r)
      && (forall i :: 0 <= i < |r| ==> r[i] in s)
      && (forall i :: 0 <= i < |s| ==> s[i] in r)
      && (forall i, j :: 0 <= i < j < |r| ==> FirstIndex(s, r[i]) < FirstIndex(s, r[j]))
  {
    var x := s[|s| - 1];
    assert s == p + [x];
    FirstIndexSnoc(p, x, d);
    if x in d {
      DedupeSnocKnown(p, x, d);
    } else {
      DedupeSnocNew(p, x, d);
    }
  }

  /** Appending an element leaves where the elements of `p` first occur. */
  lemma FirstIndexSnoc<T>(p: seq<T>, x: T, d: seq<T>)
    requires forall i :: 0 <= i < |d| ==> d[i] in p
    ensures forall i :: 0 <= i < |d| ==> d[i] in p + [x] && FirstIndex(p + [x], d[i]) == FirstIndex(p, d[i]) < |p|
  {
    forall i | 0 <= i < |d| ensures d[i] in p + [x] && FirstIndex(p + [x], d[i]) == FirstIndex(p, d[i]) < |p| {
      FirstIndexAppend(p, [x], d[i]);
    }
  }

  /** `DedupeSnoc` when `x` was seen before: the deduplication stays. */
  lemma DedupeSnocKnown<T>(p: seq<T>, x: T, d: seq<T>)
    requires x in d
    requires forall i :: 0 <= i < |d| ==> d[i] in p
    requires forall i :: 0 <= i < |p| ==> p[i] in d
    requires forall i, j :: 0 <= i < j < |d| ==> FirstIndex(p, d[i]) < FirstIndex(p, d[j])
    requires forall i :: 0 <= i < |d| ==> d[i] in p + [x] && FirstIndex(p + [x], d[i]) == FirstIndex(p, d[i]) < |p|
    ensures forall i :: 0 <= i < |p + [x]| ==> (p + [x])[i] in d
    ensures forall i, j :: 0 <= i < j < |d| ==> FirstIndex(p + [x], d[i]) < FirstIndex(p + [x], d[j])
  {
    forall i | 0 <= i < |p + [x]| ensures (p + [x])[i] in d {
      if i < |p| { assert (p + [x])[i] == p[i]; }
    }
  }

  /** `DedupeSnoc` when `x` is new: it goes last, after every earlier element. */
  lemma DedupeSnocNew<T>(p: seq<T>, x: T, d: seq<T>)
    requires x !in d && NoDuplicates(d)
    requires forall i :: 0 <= i < |d| ==> d[i] in p
    requires forall i :: 0 <= i < |p| ==> p[i] in d
    requires forall i, j :: 0 <= i < j < |d| ==> FirstIndex(p, d[i]) < FirstIndex(p, d[j])
    requires forall i :: 0 <= i < |d| ==> d[i] in p + [x] && FirstIndex(p + [x], d[i]) == FirstIndex(p, d[i]) < |p|
    ensures NoDuplicates(d + [x])
    ensures forall i :: 0 <= i < |d + [x]| ==> (d + [x])[i] in p + [x]
    ensures forall i :: 0 <= i < |p + [x]| ==> (p + [x])[i] in d + [x]
    ensures forall i, j :: 0 <= i < j < |d + [x]| ==> FirstIndex(p + [x], (d + [x])[i]) < FirstIndex(p + [x], (d + [x])[j])
  {
    var s, r := p + [x], d + [x];
    assert x !in p;
    assert FirstIndex(s, x) == |p| by {
      assert s[..|p|] == p;
    }
    forall i | 0 <= i < |r| ensures r[i] in s {
      if i < |d| { assert r[i] == d[i]; }
    }
    forall i | 0 <= i < |s| ensures s[i] in r {
      if i < |p| { assert s[i] == p[i]; }
    }
  }

  /** A non-empty sequence of one repeated element dedupes to that element alone. */
  lemma {:induction false} DedupeConstant<T>(s: seq<T>, x: T)
    requires s != [] && forall i :: 0 <= i < |s| ==> s[i] == x
    ensures Dedupe(s) == [x]
    decreases |s|
  {
    var p := s[..|s| - 1];
    if p != [] {
      DedupeConstant(p, x);
    }
  }

  /** `xs.filter((m) => m)` on strings: the non-empty ones, in order. */
  function NonEmpty(xs: seq<string>): (r: seq<string>)
    ensures forall m :: m in r <==> m in xs && m != []
    ensures |r| <= |xs|
    ensures r == [] <==> forall i :: 0 <= i < |xs| ==> xs[i] == []
  {
    if xs == [] then []
    else if xs[0] == [] then NonEmpty(xs[1..])
    else [xs[0]] + NonEmpty(xs[1..])
  }

  /** Filtering distributes over concatenation: `filter` keeps the order and the repeats of what it keeps. */
  lemma {:induction false} NonEmptyAppend(xs: seq<string>, ys: seq<string>)
    ensures NonEmpty(xs + ys) == NonEmpty(xs) + NonEmpty(ys)
    ensures forall x :: NonEmpty([x]) == if x == [] then [] else [x]
    decreases |xs|
  {
    if xs == [] {
      assert xs + ys == ys;
    } else {
      NonEmptyAppend(xs[1..], ys);
      NonEmptyConsAppend(xs, ys);
    }
    NonEmptySingles();
  }

  /** The step of `NonEmptyAppend`: the head of `xs` is decided alike in `xs` and in `xs + ys`. */
  lemma NonEmptyConsAppend(xs: seq<string>, ys: seq<string>)
    requires xs != [] && NonEmpty(xs[1..] + ys) == NonEmpty(xs[1..]) + NonEmpty(ys)
    ensures NonEmpty(xs + ys) == NonEmpty(xs) + NonEmpty(ys)
  {
    var t := xs[1..];
    assert (xs + ys)[1..] == t + ys && (xs + ys)[0] == xs[0];
    NonEmptyStep(xs + ys);
    NonEmptyStep(xs);
    Assoc(if xs[0] == [] then [] else [xs[0]], NonEmpty(t), NonEmpty(ys));
  }

  /** One step of the filter: the head is kept when non-empty, then the rest is filtered. */
  lemma NonEmptyStep(zs: seq<string>)
    requires zs != []
    ensures NonEmpty(zs) == (if zs[0] == [] then [] else [zs[0]]) + NonEmpty(zs[1..])
  {
  }

  lemma Assoc<T>(a: seq<T>, b: seq<T>, c: seq<T>)
    ensures a + (b + c) == (a + b) + c
  {
  }

  /** A single string is kept exactly when it is non-empty. */
  lemma NonEmptySingles()
    ensures forall x :: NonEmpty([x]) == if x == [] then [] else [x]
  {
    forall x ensures NonEmpty([x]) == if x == [] then [] else [x] {
      assert [x][1..] == [];
    }
  }
}
