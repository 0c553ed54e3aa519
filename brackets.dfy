/**
 * `resolveBrackets` (src/utils/resolveBrackets.ts, and its copy in
 * src/utils.ts): chat platforms deliver `[` and `]` as the HTML entities
 * `&#91;` and `&#93;`; two global replaces turn them back.
 */
module Brackets {
  import opened Strings

  const OPEN_ENTITY := "&#91;"
  const CLOSE_ENTITY := "&#93;"

  /** The first of the two replaces. */
  function UnescapeOpen(s: string): string {
    ReplaceAll(s, OPEN_ENTITY, "[")
  }

  /** Every `&#91;` becomes `[`, then every `&#93;` becomes `]`; neither entity is left. */
  function ResolveBrackets(s: string): (r: string)
    ensures !Contains(r, OPEN_ENTITY) && !Contains(r, CLOSE_ENTITY)
  {
    var half := UnescapeOpen(s);
    ReplaceAllLeavesNo(s, OPEN_ENTITY, "[", OPEN_ENTITY);
    ReplaceAllLeavesNo(half, CLOSE_ENTITY, "]", CLOSE_ENTITY);
    ReplaceAllLeavesNo(half, CLOSE_ENTITY, "]", OPEN_ENTITY);
    ReplaceAll(half, CLOSE_ENTITY, "]")
  }

  /** Text holding neither entity comes back unchanged. */
  lemma ResolveBracketsPlain(s: string)
    requires !Contains(s, OPEN_ENTITY) && !Contains(s, CLOSE_ENTITY)
    ensures ResolveBrackets(s) == s
  {
    ReplaceAllAbsent(s, OPEN_ENTITY, "[");
    ReplaceAllAbsent(s, CLOSE_ENTITY, "]");
  }

  /** Resolving twice is resolving once. */
  lemma ResolveBracketsIdempotent(s: string)
    ensures ResolveBrackets(ResolveBrackets(s)) == ResolveBrackets(s)
  {
    ResolveBracketsPlain(ResolveBrackets(s));
  }

  /** Each of the replacements shortens the text by four characters. */
  lemma ResolveBracketsLength(s: string)
    ensures |ResolveBrackets(s)| == |s| - 4 * (Count(s, OPEN_ENTITY) + Count(UnescapeOpen(s), CLOSE_ENTITY))
  {
    ReplaceAllLength(s, OPEN_ENTITY, "[");
    ReplaceAllLength(UnescapeOpen(s), CLOSE_ENTITY, "]");
  }

  /**
   * The text between entities is kept, in order: each pass cuts its input at
   * the entity (the pieces join back to the input and hold no entity) and
   * joins the same pieces with the bracket.
   */
  lemma ResolveBracketsKeepsText(s: string)
    ensures var ps := Split(s, OPEN_ENTITY);
      && Join(ps, OPEN_ENTITY) == s
      && UnescapeOpen(s) == Join(ps, "[")
      && forall i :: 0 <= i < |ps| ==> !Contains(ps[i], OPEN_ENTITY)
    ensures var qs := Split(UnescapeOpen(s), CLOSE_ENTITY);
      && Join(qs, CLOSE_ENTITY) == UnescapeOpen(s)
      && ResolveBrackets(s) == Join(qs, "]")
      && forall i :: 0 <= i < |qs| ==> !Contains(qs[i], CLOSE_ENTITY)
  {
    SplitJoin(s, OPEN_ENTITY);
    ReplaceAllIsSplitJoin(s, OPEN_ENTITY, "[");
    SplitPiecesFree(s, OPEN_ENTITY);
    SplitJoin(UnescapeOpen(s), CLOSE_ENTITY);
    ReplaceAllIsSplitJoin(UnescapeOpen(s), CLOSE_ENTITY, "]");
    SplitPiecesFree(UnescapeOpen(s), CLOSE_ENTITY);
  }

  /** The first pass copies the four characters after `&` of the closing entity. */
  lemma UnescapeOpenSkipsClose(b: string)
    ensures UnescapeOpen(CLOSE_ENTITY + b) == CLOSE_ENTITY + UnescapeOpen(b)
  {
    var x := CLOSE_ENTITY + b;
    assert x[..5] != OPEN_ENTITY by { assert x[3] != OPEN_ENTITY[3]; }
    ReplaceAllStep(x, OPEN_ENTITY, "[");
    assert x[1..] == ['#'] + (['9'] + (['3'] + ([';'] + b)));
    ReplaceAllCons('#', ['9'] + (['3'] + ([';'] + b)), OPEN_ENTITY, "[");
    ReplaceAllCons('9', ['3'] + ([';'] + b), OPEN_ENTITY, "[");
    ReplaceAllCons('3', [';'] + b, OPEN_ENTITY, "[");
    ReplaceAllCons(';', b, OPEN_ENTITY, "[");
    assert CLOSE_ENTITY + UnescapeOpen(b) == ['&'] + (['#'] + (['9'] + (['3'] + ([';'] + UnescapeOpen(b)))));
  }

  /** An escaped `[` is resolved exactly as a literal one, whatever surrounds it. */
  lemma EscapedOpenIsLiteral(a: string, b: string)
    ensures ResolveBrackets(a + OPEN_ENTITY + b) == ResolveBrackets(a + "[" + b)
  {
    assert a + OPEN_ENTITY + b == a + (OPEN_ENTITY + b);
    assert a + "[" + b == a + ("[" + b);
    ReplaceAllAppend(a, OPEN_ENTITY + b, OPEN_ENTITY, "[");
    ReplaceAllStep(OPEN_ENTITY + b, OPEN_ENTITY, "[");
    assert (OPEN_ENTITY + b)[5..] == b;
    ReplaceAllAppend(a, "[" + b, OPEN_ENTITY, "[");
    ReplaceAllCons('[', b, OPEN_ENTITY, "[");
    assert UnescapeOpen(a + OPEN_ENTITY + b) == UnescapeOpen(a + "[" + b);
  }

  /** An escaped `]` is resolved exactly as a literal one, whatever surrounds it. */
  lemma EscapedCloseIsLiteral(a: string, b: string)
    ensures ResolveBrackets(a + CLOSE_ENTITY + b) == ResolveBrackets(a + "]" + b)
  {
    assert a + CLOSE_ENTITY + b == a + (CLOSE_ENTITY + b);
    assert a + "]" + b == a + ("]" + b);
    ReplaceAllAppend(a, CLOSE_ENTITY + b, OPEN_ENTITY, "[");
    UnescapeOpenSkipsClose(b);
    ReplaceAllAppend(a, "]" + b, OPEN_ENTITY, "[");
    ReplaceAllCons(']', b, OPEN_ENTITY, "[");
    var ua, ub := UnescapeOpen(a), UnescapeOpen(b);
    assert ua + (CLOSE_ENTITY + ub) == ua + CLOSE_ENTITY + ub;
    ReplaceAllAppend(ua, CLOSE_ENTITY + ub, CLOSE_ENTITY, "]");
    ReplaceAllStep(CLOSE_ENTITY + ub, CLOSE_ENTITY, "]");
    assert (CLOSE_ENTITY + ub)[5..] == ub;
    ReplaceAllAppend(ua, "]" + ub, CLOSE_ENTITY, "]");
    ReplaceAllCons(']', ub, CLOSE_ENTITY, "]");
  }
}
