/**
  What the removal passes cut out, piece by piece from the front of a text: plain text stays, a script
  or style block goes with its content, a tag goes.
 */
module SanitizeCuts {
  import opened Regex
  import opened TextRuns
  import opened Sanitize
  import opened SanitizeTheorems

  type Finder = nat -> int

  function Shift(e: int, d: nat): int {
    if e < 0 then -1 else d + e
  }

  /** Removing, from position `i` on, the pieces that `end` finds. */
  function CutAll(end: Finder, s: string, i: nat): string
    requires i <= |s|
    decreases |s| - i
  {
    if i < end(i) <= |s| then CutAll(end, s, end(i))
    else if i == |s| then ""
    else [s[i]] + CutAll(end, s, i + 1)
  }

  /** `end` finds exactly the matches of `m` in `s`. */
  ghost predicate Finds(end: Finder, m: Matcher, s: string) {
    forall i | 0 <= i <= |s| :: FindsAt(end, m, s, i)
  }

  predicate FindsAt(end: Finder, m: Matcher, s: string, i: nat) {
    && (end(i) < 0 || i < end(i) <= |s|)
    && m(i) == if end(i) < 0 then [] else [end(i)]
  }

  lemma CutStep(end: Finder, m: Matcher, s: string, i: nat, next: nat)
    requires i < next <= |s| && FindsAt(end, m, s, i)
    requires next == if end(i) < 0 then i + 1 else end(i)
    requires ReplaceWith(m, s, next, "") == CutAll(end, s, next)
    ensures ReplaceWith(m, s, i, "") == CutAll(end, s, i)
  {
    var rest := ReplaceWith(m, s, next, "");
    assert "" + rest == rest && "" + [s[i]] + rest == [s[i]] + rest;
  }

  lemma {:induction false} ReplaceIsCut(end: Finder, m: Matcher, s: string, i: nat)
    requires i <= |s| && Finds(end, m, s)
    ensures ReplaceWith(m, s, i, "") == CutAll(end, s, i)
    decreases |s| - i
  {
    assert FindsAt(end, m, s, i);
    if i < |s| {
      var next := if end(i) < 0 then i + 1 else end(i);
      ReplaceIsCut(end, m, s, next);
      CutStep(end, m, s, i, next);
    }
  }

  /** What `whole` finds in `pre + s`, from `s` on, is what `end` finds in `s`. */
  ghost predicate Shifted(end: Finder, whole: Finder, pre: nat, n: nat) {
    forall i | 0 <= i <= n :: ShiftedAt(end, whole, pre, n, i)
  }

  predicate ShiftedAt(end: Finder, whole: Finder, pre: nat, n: nat, i: nat) {
    end(i) <= n && whole(pre + i) == Shift(end(i), pre)
  }

  lemma CutFound(end: Finder, s: string, i: nat)
    requires i < end(i) <= |s|
    ensures CutAll(end, s, i) == CutAll(end, s, end(i))
  {
  }

  lemma CutCopied(end: Finder, s: string, i: nat)
    requires i < |s| && end(i) <= i
    ensures CutAll(end, s, i) == [s[i]] + CutAll(end, s, i + 1)
  {
  }

  lemma BothFound(end: Finder, s: string, i: nat, whole: Finder, u: string, j: nat)
    requires i < end(i) <= |s| && j < whole(j) <= |u|
    requires CutAll(whole, u, whole(j)) == CutAll(end, s, end(i))
    ensures CutAll(whole, u, j) == CutAll(end, s, i)
  {
    CutFound(end, s, i);
    CutFound(whole, u, j);
  }

  lemma BothCopied(end: Finder, s: string, i: nat, whole: Finder, u: string, j: nat)
    requires i < |s| && end(i) <= i && j < |u| && whole(j) <= j && u[j] == s[i]
    requires CutAll(whole, u, j + 1) == CutAll(end, s, i + 1)
    ensures CutAll(whole, u, j) == CutAll(end, s, i)
  {
    CutCopied(end, s, i);
    CutCopied(whole, u, j);
  }

  lemma {:induction false} CutShift(end: Finder, whole: Finder, pre: string, s: string, i: nat)
    requires Shifted(end, whole, |pre|, |s|) && i <= |s|
    ensures CutAll(whole, pre + s, |pre| + i) == CutAll(end, s, i)
    decreases |s| - i
  {
    assert ShiftedAt(end, whole, |pre|, |s|, i);
    if i < end(i) {
      CutShift(end, whole, pre, s, end(i));
      BothFound(end, s, i, whole, pre + s, |pre| + i);
    } else if i < |s| {
      CutShift(end, whole, pre, s, i + 1);
      BothCopied(end, s, i, whole, pre + s, |pre| + i);
    }
  }

  lemma {:induction false} CutCopies(end: Finder, s: string, i: nat, k: nat)
    requires i <= k <= |s| && forall j | i <= j < k :: end(j) < 0
    ensures CutAll(end, s, i) == s[i..k] + CutAll(end, s, k)
    decreases k - i
  {
    if i < k {
      CutCopies(end, s, i + 1, k);
      CopyOne(s, i, k, CutAll(end, s, k));
    } else {
      assert s[i..k] == "";
    }
  }

  /** A piece in which nothing is found is kept. */
  lemma PieceKept(end: Finder, whole: Finder, t: string, s: string)
    requires Shifted(end, whole, |t|, |s|) && forall i | 0 <= i < |t| :: whole(i) < 0
    ensures CutAll(whole, t + s, 0) == t + CutAll(end, s, 0)
  {
    CutCopies(whole, t + s, 0, |t|);
    CutShift(end, whole, t, s, 0);
    assert (t + s)[0..|t|] == t;
  }

  /** A piece that is found as a whole is removed. */
  lemma PieceCut(end: Finder, whole: Finder, t: string, s: string)
    requires t != "" && Shifted(end, whole, |t|, |s|) && whole(0) == |t|
    ensures CutAll(whole, t + s, 0) == CutAll(end, s, 0)
  {
    CutShift(end, whole, t, s, 0);
  }

  // ----- the patterns are local

  lemma OccursShift(w: string, pre: string, s: string, i: nat)
    ensures OccursAt(w, true, pre + s, |pre| + i) <==> OccursAt(w, true, s, i)
  {
    if OccursAt(w, true, pre + s, |pre| + i) {
      forall k | 0 <= k < |w| ensures CharClass(w[k], true).Has(s[i + k]) {
        assert CharClass(w[k], true).Has((pre + s)[|pre| + i + k]);
      }
    }
    if OccursAt(w, true, s, i) {
      forall k | 0 <= k < |w| ensures CharClass(w[k], true).Has((pre + s)[|pre| + i + k]) {
        assert CharClass(w[k], true).Has(s[i + k]);
      }
    }
  }

  lemma {:induction false} FirstAtShift(w: string, pre: string, s: string, i: nat)
    requires i <= |s| && w != ""
    ensures FirstAt(w, pre + s, |pre| + i) == Shift(FirstAt(w, s, i), |pre|)
    decreases |s| - i
  {
    OccursShift(w, pre, s, i);
    if !OccursAt(w, true, s, i) && i < |s| {
      FirstAtShift(w, pre, s, i + 1);
    }
  }

  lemma BlockEndShift(name: string, pre: string, s: string, i: nat)
    requires i <= |s|
    ensures BlockEnd(name, pre + s, |pre| + i) == Shift(BlockEnd(name, s, i), |pre|)
  {
    var open := i + 1 + |name|;
    OccursShift("<" + name, pre, s, i);
    if OccursAt("<" + name, true, s, i) {
      assert open < |s| ==> (pre + s)[|pre| + open] == s[open];
      FirstAtShift(CloseTag(name), pre, s, open);
    }
  }

  function BlockFinder(name: string, s: string): Finder {
    (i: nat) => if i <= |s| then BlockEnd(name, s, i) else -1
  }

  lemma BlockPass(name: string, s: string)
    requires TagName(name)
    ensures ReplaceAll(Block(name), s, 0, "") == CutAll(BlockFinder(name, s), s, 0)
  {
    var end := BlockFinder(name, s);
    forall i | 0 <= i <= |s| ensures FindsAt(end, MatcherOf(Block(name), s), s, i) {
      BlockEnds(name, s, i);
    }
    ReplaceIsCut(end, MatcherOf(Block(name), s), s, 0);
  }

  lemma BlockShifted(name: string, pre: string, s: string)
    ensures Shifted(BlockFinder(name, s), BlockFinder(name, pre + s), |pre|, |s|)
  {
    var end, whole := BlockFinder(name, s), BlockFinder(name, pre + s);
    forall i | 0 <= i <= |s| ensures ShiftedAt(end, whole, |pre|, |s|, i) {
      BlockFoundShifted(name, pre, s, i);
    }
  }

  lemma BlockFoundShifted(name: string, pre: string, s: string, i: nat)
    requires i <= |s|
    ensures BlockFinder(name, s)(i) <= |s|
    ensures BlockFinder(name, pre + s)(|pre| + i) == Shift(BlockFinder(name, s)(i), |pre|)
  {
    BlockEndShift(name, pre, s, i);
  }

  /** Where the tag at `i` ends; -1 when none starts there. */
  function TagEnd(s: string, i: nat): (e: int)
    requires i <= |s|
  {
    if i < |s| && s[i] == '<' && RunEnd(NotIn({'>'}), s, i + 1) < |s| then RunEnd(NotIn({'>'}), s, i + 1) + 1 else -1
  }

  function TagFinder(s: string): Finder {
    (i: nat) => if i <= |s| then TagEnd(s, i) else -1
  }

  lemma TagFound(s: string, i: nat)
    requires i <= |s|
    ensures FindsAt(TagFinder(s), MatcherOf(TAG, s), s, i)
  {
    TagEnds(s, i);
  }

  lemma TagPass(s: string)
    ensures ReplaceAll(TAG, s, 0, "") == CutAll(TagFinder(s), s, 0)
  {
    var end := TagFinder(s);
    forall i | 0 <= i <= |s| ensures FindsAt(end, MatcherOf(TAG, s), s, i) {
      TagFound(s, i);
    }
    ReplaceIsCut(end, MatcherOf(TAG, s), s, 0);
  }

  lemma TagEndShift(pre: string, s: string, i: nat)
    requires i <= |s|
    ensures TagEnd(pre + s, |pre| + i) == Shift(TagEnd(s, i), |pre|)
  {
    if i < |s| {
      assert (pre + s)[|pre| + i] == s[i];
      RunEndShift(NotIn({'>'}), pre, s, i + 1);
    }
  }

  lemma TagShifted(pre: string, s: string)
    ensures Shifted(TagFinder(s), TagFinder(pre + s), |pre|, |s|)
  {
    var end, whole := TagFinder(s), TagFinder(pre + s);
    forall i | 0 <= i <= |s| ensures ShiftedAt(end, whole, |pre|, |s|, i) {
      TagEndShift(pre, s, i);
    }
  }

  // ----- one pass on a piece and the rest

  predicate NoLt(t: string, from: nat) {
    forall i | from <= i < |t| :: t[i] != '<'
  }

  lemma BlockNeedsLt(name: string, s: string, i: nat)
    requires i < |s| && s[i] != '<'
    ensures BlockEnd(name, s, i) == -1
  {
    if BlockEnd(name, s, i) >= 0 {
      BlockHasTag(name, s, i);
    }
  }

  /** The block pass keeps a piece whose every `<` opens no block. */
  lemma BlockPassKeeps(name: string, t: string, s: string)
    requires TagName(name)
    requires forall i | 0 <= i < |t| && t[i] == '<' :: BlockEnd(name, t + s, i) == -1
    ensures ReplaceAll(Block(name), t + s, 0, "") == t + ReplaceAll(Block(name), s, 0, "")
  {
    var whole := BlockFinder(name, t + s);
    forall i | 0 <= i < |t| ensures whole(i) < 0 {
      assert (t + s)[i] == t[i];
      if t[i] != '<' {
        BlockNeedsLt(name, t + s, i);
      }
    }
    BlockPass(name, t + s);
    BlockPass(name, s);
    BlockShifted(name, t, s);
    PieceKept(BlockFinder(name, s), whole, t, s);
  }

  lemma BlockPassCuts(name: string, t: string, s: string)
    requires TagName(name) && t != "" && BlockEnd(name, t + s, 0) == |t|
    ensures ReplaceAll(Block(name), t + s, 0, "") == ReplaceAll(Block(name), s, 0, "")
  {
    BlockPass(name, t + s);
    BlockPass(name, s);
    BlockShifted(name, t, s);
    PieceCut(BlockFinder(name, s), BlockFinder(name, t + s), t, s);
  }

  lemma TagPassKeeps(t: string, s: string)
    requires NoLt(t, 0)
    ensures ReplaceAll(TAG, t + s, 0, "") == t + ReplaceAll(TAG, s, 0, "")
  {
    var whole := TagFinder(t + s);
    forall i | 0 <= i < |t| ensures whole(i) < 0 {
      assert (t + s)[i] == t[i];
    }
    TagPass(t + s);
    TagPass(s);
    TagShifted(t, s);
    PieceKept(TagFinder(s), whole, t, s);
  }

  /** A tag: `<`, anything without `>`, `>`. */
  predicate IsTag(t: string) {
    && |t| >= 2 && t[0] == '<' && t[|t| - 1] == '>'
    && forall i | 0 < i < |t| - 1 :: t[i] != '>'
  }

  lemma TagPassCuts(t: string, s: string)
    requires IsTag(t)
    ensures ReplaceAll(TAG, t + s, 0, "") == ReplaceAll(TAG, s, 0, "")
  {
    var u := t + s;
    RunEndAt(NotIn({'>'}), u, 1, |t| - 1);
    assert TagEnd(u, 0) == |t|;
    TagPass(u);
    TagPass(s);
    TagShifted(t, s);
    PieceCut(TagFinder(s), TagFinder(u), t, s);
  }

  // ----- the three passes together

  predicate IsBlock(name: string, t: string) {
    t != "" && BlockEnd(name, t, 0) == |t|
  }

  const NAME_CHARS: string := "abcdefghijklmnopqrstuvwxyz0123456789_"

  /**
    A block in any mixture of cases: `<name` that no letter, digit or underscore continues, anything in
    which `</name>` does not start, and `</name>`.
   */
  predicate SpellsBlock(name: string, t: string) {
    SpelledParts(name, "</" + name + ">", t)
  }

  predicate SpelledParts(name: string, close: string, t: string) {
    var open := 1 + |name|;
    && open + |close| <= |t| && close != ""
    && Spelled("<" + name, t, 0) && LowerChar(t[open]) !in NAME_CHARS
    && Spelled(close, t, |t| - |close|)
    && forall i | open <= i < |t| - |close| :: !Spelled(close, t, i)
  }

  lemma NameChars(c: char)
    ensures IsWordChar(c) <==> LowerChar(c) in NAME_CHARS
  {
    Alphabet(LowerChar(c));
  }

  lemma Alphabet(c: char)
    requires c !in UPPER
    ensures IsWordChar(c) <==> c in NAME_CHARS
  {
  }

  lemma FirstIsSpelled(close: string, t: string, open: nat, last: nat)
    requires close != "" && open <= last == |t| - |close| && forall k | 0 <= k < |close| :: close[k] !in UPPER
    ensures FirstAt(close, t, open) == last <==>
      Spelled(close, t, last) && forall i | open <= i < last :: !Spelled(close, t, i)
  {
    FirstAtIsFirst(close, t, open);
    forall i: nat ensures OccursAt(close, true, t, i) <==> Spelled(close, t, i) {
      FoldIgnoresCase(close, t, i);
    }
  }

  /** The parts of a block that `BlockEnd` looks for. */
  predicate BlockParts(name: string, close: string, t: string) {
    var open := 1 + |name|;
    && open + |close| <= |t| && close != ""
    && OccursAt("<" + name, true, t, 0) && !IsWordChar(t[open])
    && FirstAt(close, t, open) == |t| - |close|
  }

  lemma BlockHasParts(name: string, t: string)
    requires TagName(name)
    ensures IsBlock(name, t) <==> BlockParts(name, CloseTag(name), t)
  {
  }

  lemma OpenIsSpelled(name: string, t: string, rest: bool)
    requires TagName(name) && 1 + |name| < |t|
    ensures OccursAt("<" + name, true, t, 0) && !IsWordChar(t[1 + |name|]) && rest <==>
      Spelled("<" + name, t, 0) && LowerChar(t[1 + |name|]) !in NAME_CHARS && rest
  {
    FoldIgnoresCase("<" + name, t, 0);
    NameChars(t[1 + |name|]);
  }

  lemma PartsAreSpelled(name: string, close: string, t: string)
    requires TagName(name) && close != "" && forall k | 0 <= k < |close| :: close[k] !in UPPER
    ensures BlockParts(name, close, t) <==> SpelledParts(name, close, t)
  {
    if 1 + |name| + |close| <= |t| {
      OpenIsSpelled(name, t, FirstAt(close, t, 1 + |name|) == |t| - |close|);
      FirstIsSpelled(close, t, 1 + |name|, |t| - |close|);
    }
  }

  /** These are exactly the texts that the pattern matches as a whole. */
  lemma BlocksAreSpelled(name: string, t: string)
    requires TagName(name)
    ensures IsBlock(name, t) <==> SpellsBlock(name, t)
  {
    BlockHasParts(name, t);
    PartsAreSpelled(name, "</" + name + ">", t);
  }

  lemma {:induction false} FirstAtFound(w: string, t: string, s: string, i: nat)
    requires i <= |t| && w != "" && FirstAt(w, t, i) >= 0
    ensures FirstAt(w, t + s, i) == FirstAt(w, t, i)
    decreases |t| - i
  {
    OccursInFront(w, t, s, i);
    if !OccursAt(w, true, t, i) && i < |t| {
      FirstAtFound(w, t, s, i + 1);
      FirstAtIsFirst(w, t, i);
      FirstAtIsFirst(w, t + s, i + 1);
      FirstNotEarlier(w, t, s, i);
    }
  }

  lemma OccursInFront(w: string, t: string, s: string, i: nat)
    ensures OccursAt(w, true, t, i) ==> OccursAt(w, true, t + s, i)
    ensures i + |w| <= |t| && OccursAt(w, true, t + s, i) ==> OccursAt(w, true, t, i)
  {
    if i + |w| <= |t| {
      forall k | 0 <= k < |w|
        ensures CharClass(w[k], true).Has((t + s)[i + k]) <==> CharClass(w[k], true).Has(t[i + k])
      {
      }
    }
  }

  /** An occurrence reaching beyond `t` starts later than one inside `t` of the same word. */
  lemma FirstNotEarlier(w: string, t: string, s: string, i: nat)
    requires i < |t| && w != "" && FirstAt(w, t, i) >= 0 && !OccursAt(w, true, t, i)
    ensures !OccursAt(w, true, t + s, i)
  {
    FirstAtIsFirst(w, t, i);
    assert i + |w| <= |t|;
    OccursInFront(w, t, s, i);
  }

  lemma BlockInFront(name: string, t: string, s: string)
    requires IsBlock(name, t)
    ensures BlockEnd(name, t + s, 0) == |t|
  {
    var open := 1 + |name|;
    OccursInFront("<" + name, t, s, 0);
    FirstAtFound(CloseTag(name), t, s, open);
  }

  /** What the pattern finds is found in the same place if the text ends there. */
  lemma BlockAlone(name: string, t: string, s: string)
    requires BlockEnd(name, t + s, 0) == |t| && t != ""
    ensures IsBlock(name, t)
  {
    var open, close := 1 + |name|, CloseTag(name);
    OccursInFront("<" + name, t, s, 0);
    FirstAtIsFirst(close, t + s, open);
    FirstAtIsFirst(close, t, open);
    OccursInFront(close, t, s, |t| - |close|);
    if FirstAt(close, t, open) < |t| - |close| {
      OccursInFront(close, t, s, FirstAt(close, t, open));
    }
  }

  lemma BlockBetween(name: string, pre: string, t: string, tail: string)
    requires t != ""
    ensures BlockEnd(name, pre + (t + tail), |pre|) == |pre| + |t| <==> IsBlock(name, t)
  {
    BlockEndShift(name, pre, t + tail, 0);
    if IsBlock(name, t) {
      BlockInFront(name, t, tail);
    } else if BlockEnd(name, t + tail, 0) == |t| {
      BlockAlone(name, t, tail);
    }
  }

  lemma FoundIsBlock(name: string, s: string, i: nat, e: nat)
    requires i < e <= |s|
    ensures BlockEnd(name, s, i) == e <==> IsBlock(name, s[i..e])
  {
    assert s == s[..i] + (s[i..e] + s[e..]);
    BlockBetween(name, s[..i], s[i..e], s[e..]);
  }

  /** The pattern matches from `i` to `e`, and in no other way from `i`, exactly if a block is spelled there. */
  lemma BlockIsSpelled(name: string, s: string, i: nat, e: nat)
    requires TagName(name) && i < e <= |s|
    ensures Ends(Block(name), s, i) == [e] <==> SpellsBlock(name, s[i..e])
  {
    assert Ends(Block(name), s, i) == [e] <==> BlockEnd(name, s, i) == e by {
      BlockEnds(name, s, i);
    }
    assert IsBlock(name, s[i..e]) <==> SpellsBlock(name, s[i..e]) by {
      BlocksAreSpelled(name, s[i..e]);
    }
    FoundIsBlock(name, s, i, e);
  }

  /** Text in front of the first `<` stays. */
  lemma TextKept(t: string, s: string)
    requires NoLt(t, 0)
    ensures StripTags(t + s) == t + StripTags(s)
  {
    NamesAreTagNames();
    var a := ReplaceAll(Block("script"), s, 0, "");
    var b := ReplaceAll(Block("style"), a, 0, "");
    BlockPassKeeps("script", t, s);
    BlockPassKeeps("style", t, a);
    TagPassKeeps(t, b);
  }

  /** A script block in front goes, whatever its content and however its tags are spelled. */
  lemma ScriptCut(t: string, s: string)
    requires SpellsBlock("script", t)
    ensures StripTags(t + s) == StripTags(s)
  {
    NamesAreTagNames();
    BlocksAreSpelled("script", t);
    BlockInFront("script", t, s);
    BlockPassCuts("script", t, s);
  }

  /** A style block in front goes, if its content opens no script block. */
  lemma StyleCut(t: string, s: string)
    requires SpellsBlock("style", t)
    requires forall i | 0 <= i < |t| && t[i] == '<' :: BlockEnd("script", t + s, i) == -1
    ensures StripTags(t + s) == StripTags(s)
  {
    NamesAreTagNames();
    BlocksAreSpelled("style", t);
    var a := ReplaceAll(Block("script"), s, 0, "");
    BlockPassKeeps("script", t, s);
    BlockInFront("style", t, a);
    BlockPassCuts("style", t, a);
  }

  /** `<name` occurs nowhere in `t`, in any mixture of cases. */
  predicate OpensNone(name: string, t: string) {
    forall i | 0 <= i < |t| :: !Spelled("<" + name, t, i)
  }

  /** Nor does it start in a tag and end behind it, because the tag ends in `>`. */
  lemma NotOpened(name: string, t: string, s: string, i: nat)
    requires TagName(name) && IsTag(t) && OpensNone(name, t) && i < |t| && t[i] == '<'
    ensures BlockEnd(name, t + s, i) == -1
  {
    var open, last := "<" + name, |t| - 1 - i;
    OccursInFront(open, t, s, i);
    FoldIgnoresCase(open, t, i);
    if |t| < i + |open| {
      assert open[last] == name[last - 1] && (t + s)[i + last] == '>';
      assert !CharClass(open[last], true).Has((t + s)[i + last]);
    }
  }

  lemma TagSurvives(name: string, t: string, s: string)
    requires TagName(name) && IsTag(t) && OpensNone(name, t)
    ensures ReplaceAll(Block(name), t + s, 0, "") == t + ReplaceAll(Block(name), s, 0, "")
  {
    forall i | 0 <= i < |t| && t[i] == '<' ensures BlockEnd(name, t + s, i) == -1 {
      NotOpened(name, t, s, i);
    }
    BlockPassKeeps(name, t, s);
  }

  /** Any other tag in front goes and leaves what follows it, also with a further `<` inside. */
  lemma TagCut(t: string, s: string)
    requires IsTag(t) && OpensNone("script", t) && OpensNone("style", t)
    ensures StripTags(t + s) == StripTags(s)
  {
    NamesAreTagNames();
    var a := ReplaceAll(Block("script"), s, 0, "");
    var b := ReplaceAll(Block("style"), a, 0, "");
    TagSurvives("script", t, s);
    TagSurvives("style", t, a);
    TagPassCuts(t, b);
  }
}
