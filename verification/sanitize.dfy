/**
  `sanitizeString` over ASCII: script and style blocks, then tags, are removed by global regular
  expression replacement, and white space is collapsed and optionally trimmed. Unicode normalisation
  is the identity on ASCII.
 */
module Sanitize {
  import opened Regex
  import opened TextRuns

  const SPACES: set<char> := {'\t', '\n', '\U{0B}', '\U{0C}', '\r', ' '}
  const NOT_LT := One(NotIn({'<'}))
  const TEXT := NotIn(SPACES)

  /** `</name>` with the `i` flag. */
  function CloseTag(name: string): string {
    "</" + name + ">"
  }

  function Close(name: string): Regex {
    Literal(CloseTag(name), true)
  }

  /** `(?!</name>)<[^<]*` */
  function Body(name: string): Regex {
    Cat(NotAhead(Close(name)), Cat(One(In({'<'})), Star(NOT_LT)))
  }

  /** `(?:(?!</name>)<[^<]*)*</name>` */
  function Tail(name: string): Regex {
    Cat(Star(Body(name)), Close(name))
  }

  /** `<name\b[^<]*(?:(?!</name>)<[^<]*)*</name>` with the `i` flag. */
  function Block(name: string): Regex {
    Cat(Literal("<" + name, true), Cat(Test(WordBoundary), Cat(Star(NOT_LT), Tail(name))))
  }

  /** `<[^>]*>` */
  const TAG := Cat(One(In({'<'})), Cat(Star(One(NotIn({'>'}))), One(In({'>'}))))

  /** `\s+` */
  const GAP := Plus(One(In(SPACES)))

  function TrimFront(s: string): string {
    if s != "" && s[0] in SPACES then TrimFront(s[1..]) else s
  }

  function TrimBack(s: string): string {
    if s != "" && s[|s| - 1] in SPACES then TrimBack(s[..|s| - 1]) else s
  }

  function StripTags(data: string): string {
    var noScript := ReplaceAll(Block("script"), data, 0, "");
    var noStyle := ReplaceAll(Block("style"), noScript, 0, "");
    ReplaceAll(TAG, noStyle, 0, "")
  }

  function SanitizeString(data: string, trim: bool): string {
    var result := ReplaceAll(GAP, StripTags(data), 0, " ");
    if trim then TrimBack(TrimFront(result)) else result
  }

  // ----- the unrolled block pattern

  /** The first occurrence of `w`, up to ASCII case, at or after `i`; -1 when there is none. */
  function FirstAt(w: string, s: string, i: nat): (k: int)
    requires i <= |s| && w != ""
    ensures k == -1 || (i <= k && k + |w| <= |s|)
    decreases |s| - i
  {
    if OccursAt(w, true, s, i) then i
    else if i == |s| then -1
    else FirstAt(w, s, i + 1)
  }

  lemma {:induction false} FirstAtIsFirst(w: string, s: string, i: nat)
    requires i <= |s| && w != ""
    ensures var k := FirstAt(w, s, i);
      && (k >= 0 ==> OccursAt(w, true, s, k))
      && (forall j: nat | i <= j && OccursAt(w, true, s, j) :: 0 <= k <= j)
    decreases |s| - i
  {
    if !OccursAt(w, true, s, i) && i < |s| {
      FirstAtIsFirst(w, s, i + 1);
    }
  }

  /** Where the block opened at `i` ends: just after the first closing tag; -1 when nothing matches. */
  function BlockEnd(name: string, s: string, i: nat): (e: int)
    requires i <= |s|
    ensures e == -1 || i < e <= |s|
  {
    var open := i + 1 + |name|;
    if OccursAt("<" + name, true, s, i) && (open == |s| || !IsWordChar(s[open])) then
      var k := FirstAt(CloseTag(name), s, open);
      if k < 0 then -1 else k + |CloseTag(name)|
    else -1
  }

  predicate TagName(name: string) {
    name != "" && forall k | 0 <= k < |name| :: name[k] in LOWER
  }

  lemma CloseStartsWithLt(name: string, s: string, i: nat)
    requires OccursAt(CloseTag(name), true, s, i)
    ensures i < |s| && s[i] == '<'
    ensures s[i + |CloseTag(name)| - 1] == '>'
  {
    var w := CloseTag(name);
    assert CharClass(w[0], true).Has(s[i + 0]);
    assert CharClass(w[|w| - 1], true).Has(s[i + (|w| - 1)]);
  }

  lemma TailNeedsLt(name: string, s: string, i: nat)
    requires i <= |s|
    requires i < |s| ==> s[i] != '<'
    ensures Ends(Tail(name), s, i) == []
  {
    LiteralEnds(CloseTag(name), true, s, i);
    if OccursAt(CloseTag(name), true, s, i) {
      CloseStartsWithLt(name, s, i);
    }
    BodyNeedsLt(name, s, i);
    SkipLoop(Body(name), Close(name), s, i);
  }

  lemma BodyNeedsLt(name: string, s: string, i: nat)
    requires i <= |s|
    requires i < |s| ==> s[i] != '<'
    ensures Ends(Body(name), s, i) == []
  {
    LiteralEnds(CloseTag(name), true, s, i);
    if OccursAt(CloseTag(name), true, s, i) {
      CloseStartsWithLt(name, s, i);
    }
    CatOne(NotAhead(Close(name)), Cat(One(In({'<'})), Star(NOT_LT)), s, i, i);
    assert Ends(One(In({'<'})), s, i) == [];
  }

  lemma TailAtClose(name: string, s: string, i: nat)
    requires OccursAt(CloseTag(name), true, s, i)
    ensures Ends(Tail(name), s, i) == [i + |CloseTag(name)|]
  {
    LiteralEnds(CloseTag(name), true, s, i);
    BodyStopsAtClose(name, s, i);
    SkipLoop(Body(name), Close(name), s, i);
  }

  lemma BodyStopsAtClose(name: string, s: string, i: nat)
    requires i <= |s| && Ends(Close(name), s, i) != []
    ensures Ends(Body(name), s, i) == []
  {
    assert Ends(NotAhead(Close(name)), s, i) == [];
  }

  lemma {:induction false} LaterAll(ks: seq<nat>, i: nat, hi: nat)
    requires Within(ks, i + 1, hi)
    ensures Later(ks, i, hi) == ks
  {
    if ks != [] {
      LaterAll(ks[1..], i, hi);
    }
  }

  /** At a `<` that does not close the block, the loop goes on behind it. */
  lemma TailSkips(name: string, s: string, i: nat)
    requires i < |s| && s[i] == '<' && !OccursAt(CloseTag(name), true, s, i)
    ensures Ends(Tail(name), s, i) == Ends(Cat(Star(NOT_LT), Tail(name)), s, i + 1)
  {
    var body, close := Body(name), Close(name);
    var ks := Ends(Star(NOT_LT), s, i + 1);
    LiteralEnds(CloseTag(name), true, s, i);
    BodyAtLt(name, s, i);
    LaterAll(ks, i, |s|);
    StarUnfold(body, s, i, ks);
    var more := EndsEach(ks, Star(body), s, i + 1);
    CatLast(Star(body), close, s, i, more);
    EndsEachBound(more, close, s, i, i + 1);
    EndsEachCat(ks, Star(body), close, s, i + 1);
  }

  lemma BodyAtLt(name: string, s: string, i: nat)
    requires i < |s| && s[i] == '<' && Ends(Close(name), s, i) == []
    ensures Ends(Body(name), s, i) == Ends(Star(NOT_LT), s, i + 1)
  {
    CatOne(NotAhead(Close(name)), Cat(One(In({'<'})), Star(NOT_LT)), s, i, i);
    CatOne(One(In({'<'})), Star(NOT_LT), s, i, i + 1);
  }

  lemma {:induction false} FirstAtSkips(name: string, s: string, i: nat, m: nat)
    requires i <= m <= |s|
    requires forall k | i <= k < m :: s[k] != '<'
    ensures FirstAt(CloseTag(name), s, i) == FirstAt(CloseTag(name), s, m)
    decreases m - i
  {
    if i < m {
      if OccursAt(CloseTag(name), true, s, i) {
        CloseStartsWithLt(name, s, i);
      }
      FirstAtSkips(name, s, i + 1, m);
    }
  }

  /** The end of the block whose body starts at `i`, as a list of match ends. */
  function CloseEnds(name: string, s: string, i: nat): seq<nat>
    requires i <= |s|
  {
    var k := FirstAt(CloseTag(name), s, i);
    if k < 0 then [] else [k + |CloseTag(name)|]
  }

  lemma CloseLater(name: string, s: string, i: nat)
    requires i < |s| && !OccursAt(CloseTag(name), true, s, i)
    ensures CloseEnds(name, s, i) == CloseEnds(name, s, i + 1)
  {
  }

  lemma LoopReachesLt(name: string, s: string, i: nat)
    requires i <= |s|
    ensures Ends(Cat(Star(NOT_LT), Tail(name)), s, i) == Ends(Tail(name), s, RunEnd(NotIn({'<'}), s, i))
  {
    forall k | i <= k < |s| && NotIn({'<'}).Has(s[k]) ensures Ends(Tail(name), s, k) == [] {
      TailNeedsLt(name, s, k);
    }
    ForcedRun(NotIn({'<'}), Tail(name), s, i);
  }

  /** At `k` the loop goes to the next `<`; there it ends at a closing tag, and goes on behind any other. */
  predicate LoopStep(name: string, loop: Matcher, tail: Matcher, s: string, k: nat)
    requires k <= |s|
  {
    && loop(k) == tail(RunEnd(NotIn({'<'}), s, k))
    && (k < |s| && s[k] == '<' && !OccursAt(CloseTag(name), true, s, k) ==> tail(k) == loop(k + 1))
    && (k == |s| || OccursAt(CloseTag(name), true, s, k) ==> tail(k) == CloseEnds(name, s, k))
  }

  lemma CloseSkips(name: string, s: string, i: nat)
    requires i <= |s|
    ensures CloseEnds(name, s, i) == CloseEnds(name, s, RunEnd(NotIn({'<'}), s, i))
  {
    FirstAtSkips(name, s, i, RunEnd(NotIn({'<'}), s, i));
  }

  lemma LoopAtLt(name: string, loop: Matcher, tail: Matcher, s: string, m: nat)
    requires m <= |s| && LoopStep(name, loop, tail, s, m)
    requires m < |s| ==> s[m] == '<' && loop(m + 1) == CloseEnds(name, s, m + 1)
    ensures tail(m) == CloseEnds(name, s, m)
  {
    if m < |s| && !OccursAt(CloseTag(name), true, s, m) {
      CloseLater(name, s, m);
    }
  }

  lemma {:induction false} LoopEnds(name: string, loop: Matcher, tail: Matcher, s: string, i: nat)
    requires i <= |s| && forall k | 0 <= k <= |s| :: LoopStep(name, loop, tail, s, k)
    ensures loop(i) == CloseEnds(name, s, i)
    decreases |s| - i
  {
    var m := RunEnd(NotIn({'<'}), s, i);
    assert LoopStep(name, loop, tail, s, i) && LoopStep(name, loop, tail, s, m);
    CloseSkips(name, s, i);
    if m < |s| {
      LoopEnds(name, loop, tail, s, m + 1);
    }
    LoopAtLt(name, loop, tail, s, m);
  }

  lemma LoopSteps(name: string, s: string, k: nat)
    requires k <= |s|
    ensures LoopStep(name, MatcherOf(Cat(Star(NOT_LT), Tail(name)), s), MatcherOf(Tail(name), s), s, k)
  {
    LoopReachesLt(name, s, k);
    if k == |s| || OccursAt(CloseTag(name), true, s, k) {
      LoopStops(name, s, k);
    } else if s[k] == '<' {
      TailSkips(name, s, k);
    }
  }

  /** After the opening tag the loop can end in one place only: the first closing tag. */
  lemma UnrolledLoop(name: string, s: string, i: nat)
    requires i <= |s|
    ensures Ends(Cat(Star(NOT_LT), Tail(name)), s, i) == CloseEnds(name, s, i)
  {
    var loop, tail := MatcherOf(Cat(Star(NOT_LT), Tail(name)), s), MatcherOf(Tail(name), s);
    forall k | 0 <= k <= |s| ensures LoopStep(name, loop, tail, s, k) {
      LoopSteps(name, s, k);
    }
    LoopEnds(name, loop, tail, s, i);
  }

  lemma LoopStops(name: string, s: string, m: nat)
    requires m <= |s|
    requires m == |s| || OccursAt(CloseTag(name), true, s, m)
    ensures Ends(Tail(name), s, m) == CloseEnds(name, s, m)
  {
    if OccursAt(CloseTag(name), true, s, m) {
      TailAtClose(name, s, m);
    } else {
      TailNeedsLt(name, s, m);
    }
  }

  /**
    The unrolled regular expression matches exactly from an opening tag at a word boundary to the end
    of the first following closing tag; no backtracking alternative ends anywhere else.
   */
  lemma BlockEnds(name: string, s: string, i: nat)
    requires TagName(name) && i <= |s|
    ensures var e := BlockEnd(name, s, i);
      Ends(Block(name), s, i) == if e < 0 then [] else [e]
  {
    if OccursAt("<" + name, true, s, i) {
      BlockOpened(name, s, i);
      OpenEndsInWord(name, s, i);
      AfterOpen(name, s, i + 1 + |name|);
    } else {
      BlockUnopened(name, s, i);
    }
  }

  lemma BlockOpened(name: string, s: string, i: nat)
    requires OccursAt("<" + name, true, s, i)
    ensures Ends(Block(name), s, i) ==
      Ends(Cat(Test(WordBoundary), Cat(Star(NOT_LT), Tail(name))), s, i + 1 + |name|)
  {
    assert Ends(Literal("<" + name, true), s, i) == [i + 1 + |name|] by {
      LiteralEnds("<" + name, true, s, i);
    }
    CatOne(Literal("<" + name, true), Cat(Test(WordBoundary), Cat(Star(NOT_LT), Tail(name))), s, i, i + 1 + |name|);
  }

  lemma BlockUnopened(name: string, s: string, i: nat)
    requires i <= |s| && !OccursAt("<" + name, true, s, i)
    ensures Ends(Block(name), s, i) == []
  {
    LiteralEnds("<" + name, true, s, i);
    CatNone(Literal("<" + name, true), Cat(Test(WordBoundary), Cat(Star(NOT_LT), Tail(name))), s, i);
  }

  lemma BoundaryThen(rest: Regex, s: string, j: nat)
    requires 0 < j <= |s| && IsWordChar(s[j - 1])
    ensures Ends(Cat(Test(WordBoundary), rest), s, j) == if j == |s| || !IsWordChar(s[j]) then Ends(rest, s, j) else []
  {
    if j == |s| || !IsWordChar(s[j]) {
      CatOne(Test(WordBoundary), rest, s, j, j);
    }
  }

  lemma OpenEndsInWord(name: string, s: string, i: nat)
    requires TagName(name) && OccursAt("<" + name, true, s, i)
    ensures IsWordChar(s[i + |name|])
  {
    var open := "<" + name;
    assert name[|name| - 1] == open[|name|];
    assert CharClass(open[|name|], true).Has(s[i + |name|]);
  }

  lemma AfterOpen(name: string, s: string, j: nat)
    requires 0 < j <= |s| && IsWordChar(s[j - 1])
    ensures Ends(Cat(Test(WordBoundary), Cat(Star(NOT_LT), Tail(name))), s, j)
         == if j == |s| || !IsWordChar(s[j]) then CloseEnds(name, s, j) else []
  {
    BoundaryThen(Cat(Star(NOT_LT), Tail(name)), s, j);
    UnrolledLoop(name, s, j);
  }
}
