/**
  Splitting a string into the maximal runs of a character class and joining them again: the reading
  that both string helpers give to "replace every run of other characters by a separator".
 */
module TextRuns {
  import opened Regex

  /** The maximal runs of characters of `cls` in `s[i..]`, in order. */
  function Words(cls: Class, s: string, i: nat): (ws: seq<string>)
    requires i <= |s|
    decreases |s| - i
  {
    if i == |s| then []
    else if cls.Has(s[i]) then [s[i..RunEnd(cls, s, i)]] + Words(cls, s, RunEnd(cls, s, i))
    else Words(cls, s, i + 1)
  }

  function Join(ws: seq<string>, sep: string): string {
    if ws == [] then ""
    else if |ws| == 1 then ws[0]
    else ws[0] + sep + Join(ws[1..], sep)
  }

  predicate Word(cls: Class, w: string) {
    w != "" && forall k | 0 <= k < |w| :: cls.Has(w[k])
  }

  predicate AllWords(cls: Class, ws: seq<string>) {
    forall j | 0 <= j < |ws| :: Word(cls, ws[j])
  }

  /** No character of `sep` belongs to `cls`. */
  predicate Separates(cls: Class, sep: string) {
    forall k | 0 <= k < |sep| :: !cls.Has(sep[k])
  }

  lemma {:induction false} WordsAreWords(cls: Class, s: string, i: nat)
    requires i <= |s|
    ensures AllWords(cls, Words(cls, s, i))
    decreases |s| - i
  {
    if i < |s| {
      if cls.Has(s[i]) {
        WordsAreWords(cls, s, RunEnd(cls, s, i));
      } else {
        WordsAreWords(cls, s, i + 1);
      }
    }
  }

  lemma {:induction false} NoWordsNoChars(cls: Class, s: string, i: nat)
    requires i <= |s|
    ensures Words(cls, s, i) == [] <==> forall k | i <= k < |s| :: !cls.Has(s[k])
    decreases |s| - i
  {
    if i < |s| && !cls.Has(s[i]) {
      NoWordsNoChars(cls, s, i + 1);
    }
  }

  lemma {:induction false} SkipGap(cls: Class, s: string, i: nat, e: nat)
    requires i <= e <= |s|
    requires forall k | i <= k < e :: !cls.Has(s[k])
    ensures Words(cls, s, i) == Words(cls, s, e)
    decreases e - i
  {
    if i < e {
      SkipGap(cls, s, i + 1, e);
    }
  }

  /** What replacing the gaps between words by `sub` should give for `s[i..]`. */
  function Collapsed(cls: Class, s: string, i: nat, sub: string): string
    requires i <= |s|
  {
    var ws := Words(cls, s, i);
    if i == |s| then ""
    else if ws == [] then sub
    else (if cls.Has(s[i]) then "" else sub) + (Join(ws, sub) + (if cls.Has(s[|s| - 1]) then "" else sub))
  }

  lemma JoinHead(c: char, w: string, rest: seq<string>, sub: string)
    ensures Join([[c] + w] + rest, sub) == [c] + Join([w] + rest, sub)
  {
    if rest == [] {
      assert [[c] + w] + rest == [[c] + w] && [w] + rest == [w];
    } else {
      assert ([[c] + w] + rest)[1..] == rest && ([w] + rest)[1..] == rest;
      assert ([c] + w) + sub + Join(rest, sub) == [c] + (w + sub + Join(rest, sub));
    }
  }

  /** At `i` the matcher finds the gap that starts there, if any. */
  predicate FindsGap(cls: Class, m: Matcher, s: string, i: nat)
    requires i <= |s|
  {
    if i < |s| && !cls.Has(s[i]) then m(i) != [] && m(i)[0] == RunEnd(cls.Complement(), s, i) else m(i) == []
  }

  lemma {:induction false} ReplacedGaps(cls: Class, m: Matcher, s: string, i: nat, sub: string)
    requires i <= |s| && forall k | 0 <= k <= |s| :: FindsGap(cls, m, s, k)
    ensures ReplaceWith(m, s, i, sub) == Collapsed(cls, s, i, sub)
    decreases |s| - i
  {
    assert FindsGap(cls, m, s, i);
    if i < |s| && !cls.Has(s[i]) {
      var e := RunEnd(cls.Complement(), s, i);
      ReplacedGaps(cls, m, s, e, sub);
      SkipGap(cls, s, i, e);
      CollapseGap(cls, s, i, e, sub);
      ReplacedMatch(m, s, i, sub, e);
    } else if i < |s| {
      ReplacedGaps(cls, m, s, i + 1, sub);
      CollapseChar(cls, s, i, sub);
      ReplacedCopy(m, s, i, sub);
    }
  }

  lemma ReplacedMatch(m: Matcher, s: string, i: nat, sub: string, e: nat)
    requires i < e <= |s| && m(i) != [] && m(i)[0] == e
    ensures ReplaceWith(m, s, i, sub) == sub + ReplaceWith(m, s, e, sub)
  {
  }

  lemma ReplacedCopy(m: Matcher, s: string, i: nat, sub: string)
    requires i < |s| && m(i) == []
    ensures ReplaceWith(m, s, i, sub) == [s[i]] + ReplaceWith(m, s, i + 1, sub)
  {
    assert "" + [s[i]] == [s[i]];
  }

  /** The global replacement of `[^...]+` by `sub` keeps exactly the words, with `sub` in each gap. */
  lemma CollapseIsJoin(cls: Class, s: string, i: nat, sub: string)
    requires i <= |s|
    ensures ReplaceAll(Plus(One(cls.Complement())), s, i, sub) == Collapsed(cls, s, i, sub)
  {
    var gap := cls.Complement();
    var m := MatcherOf(Plus(One(gap)), s);
    forall k | 0 <= k <= |s| ensures FindsGap(cls, m, s, k) {
      PlusRun(gap, s, k);
    }
    ReplacedGaps(cls, m, s, i, sub);
  }

  lemma CollapseGap(cls: Class, s: string, i: nat, e: nat, sub: string)
    requires i < e <= |s| && !cls.Has(s[i])
    requires e < |s| ==> cls.Has(s[e])
    requires Words(cls, s, i) == Words(cls, s, e)
    ensures Collapsed(cls, s, i, sub) == sub + Collapsed(cls, s, e, sub)
  {
    var ws := Words(cls, s, i);
    var tail := if cls.Has(s[|s| - 1]) then "" else sub;
    if e < |s| {
      assert ws != [];
      var kept := Join(ws, sub) + tail;
      assert Collapsed(cls, s, i, sub) == sub + kept;
      assert Collapsed(cls, s, e, sub) == "" + kept;
      assert "" + kept == kept;
    } else {
      assert sub + "" == sub;
    }
  }

  lemma CollapseChar(cls: Class, s: string, i: nat, sub: string)
    requires i < |s| && cls.Has(s[i])
    ensures Collapsed(cls, s, i, sub) == [s[i]] + Collapsed(cls, s, i + 1, sub)
  {
    if i + 1 < |s| && cls.Has(s[i + 1]) {
      CollapseInsideWord(cls, s, i, sub);
    } else {
      CollapseWordEnd(cls, s, i, sub);
    }
  }

  lemma CollapseInsideWord(cls: Class, s: string, i: nat, sub: string)
    requires i + 1 < |s| && cls.Has(s[i]) && cls.Has(s[i + 1])
    ensures Collapsed(cls, s, i, sub) == [s[i]] + Collapsed(cls, s, i + 1, sub)
  {
    var e := RunEnd(cls, s, i);
    var rest := Words(cls, s, e);
    var tail := if cls.Has(s[|s| - 1]) then "" else sub;
    var j := Join([s[i + 1..e]] + rest, sub);
    assert s[i..e] == [s[i]] + s[i + 1..e];
    JoinHead(s[i], s[i + 1..e], rest, sub);
    assert Words(cls, s, i + 1) == [s[i + 1..e]] + rest;
    assert "" + (([s[i]] + j) + tail) == [s[i]] + ("" + (j + tail));
  }

  lemma CollapseWordEnd(cls: Class, s: string, i: nat, sub: string)
    requires i < |s| && cls.Has(s[i])
    requires i + 1 < |s| ==> !cls.Has(s[i + 1])
    ensures Collapsed(cls, s, i, sub) == [s[i]] + Collapsed(cls, s, i + 1, sub)
  {
    var rest := Words(cls, s, i + 1);
    var tail := if cls.Has(s[|s| - 1]) then "" else sub;
    RunEndAt(cls, s, i, i + 1);
    assert s[i..i + 1] == [s[i]];
    assert Words(cls, s, i) == [[s[i]]] + rest;
    NoWordsNoChars(cls, s, i + 1);
    if rest != [] {
      assert ([[s[i]]] + rest)[1..] == rest;
      assert "" + (([s[i]] + sub + Join(rest, sub)) + tail) == [s[i]] + (sub + (Join(rest, sub) + tail));
    } else {
      assert [[s[i]]] + rest == [[s[i]]];
      assert Join([[s[i]]], sub) == [s[i]];
    }
  }

  // ----- words of a joined string

  lemma {:induction false} RunEndShift(cls: Class, pre: string, s: string, i: nat)
    requires i <= |s|
    ensures RunEnd(cls, pre + s, |pre| + i) == |pre| + RunEnd(cls, s, i)
    decreases |s| - i
  {
    if i < |s| {
      assert (pre + s)[|pre| + i] == s[i];
      if cls.Has(s[i]) {
        RunEndShift(cls, pre, s, i + 1);
      }
    }
  }

  lemma {:induction false} WordsShift(cls: Class, pre: string, s: string, i: nat)
    requires i <= |s|
    ensures Words(cls, pre + s, |pre| + i) == Words(cls, s, i)
    decreases |s| - i
  {
    if i < |s| {
      assert (pre + s)[|pre| + i] == s[i];
      if cls.Has(s[i]) {
        RunEndShift(cls, pre, s, i);
        var e := RunEnd(cls, s, i);
        assert (pre + s)[|pre| + i..|pre| + e] == s[i..e];
        WordsShift(cls, pre, s, e);
      } else {
        WordsShift(cls, pre, s, i + 1);
      }
    }
  }

  lemma {:induction false} RunEndAt(cls: Class, s: string, i: nat, e: nat)
    requires i <= e <= |s|
    requires forall k | i <= k < e :: cls.Has(s[k])
    requires e < |s| ==> !cls.Has(s[e])
    ensures RunEnd(cls, s, i) == e
    decreases e - i
  {
    if i < e {
      RunEndAt(cls, s, i + 1, e);
    }
  }

  lemma WordsAfterWord(cls: Class, w: string, rest: string)
    requires Word(cls, w)
    requires rest != "" ==> !cls.Has(rest[0])
    ensures Words(cls, w + rest, 0) == [w] + Words(cls, rest, 0)
  {
    var s := w + rest;
    assert cls.Has(s[0]);
    RunEndAt(cls, s, 0, |w|);
    assert s[0..|w|] == w;
    WordsShift(cls, w, rest, 0);
  }

  lemma WordsAfterGap(cls: Class, gap: string, rest: string)
    requires Separates(cls, gap)
    ensures Words(cls, gap + rest, 0) == Words(cls, rest, 0)
  {
    SkipGap(cls, gap + rest, 0, |gap|);
    WordsShift(cls, gap, rest, 0);
  }

  lemma WordsOfLast(cls: Class, w: string, tail: string)
    requires Word(cls, w) && Separates(cls, tail)
    ensures Words(cls, w + tail, 0) == [w]
  {
    WordsAfterWord(cls, w, tail);
    assert tail == tail + "";
    WordsAfterGap(cls, tail, "");
  }

  lemma WordsOfFirst(cls: Class, w: string, sep: string, rest: string)
    requires Word(cls, w) && sep != "" && Separates(cls, sep)
    ensures Words(cls, w + sep + rest, 0) == [w] + Words(cls, rest, 0)
  {
    assert w + sep + rest == w + (sep + rest);
    WordsAfterWord(cls, w, sep + rest);
    WordsAfterGap(cls, sep, rest);
  }

  /** Splitting undoes joining, whatever gap follows. */
  lemma {:induction false} WordsOfJoin(cls: Class, ws: seq<string>, sep: string, tail: string)
    requires AllWords(cls, ws) && sep != "" && Separates(cls, sep) && Separates(cls, tail)
    ensures Words(cls, Join(ws, sep) + tail, 0) == ws
  {
    if ws == [] {
      assert "" + tail == tail + "";
      WordsAfterGap(cls, tail, "");
    } else if |ws| == 1 {
      WordsOfLast(cls, ws[0], tail);
    } else {
      var rest := Join(ws[1..], sep) + tail;
      assert Join(ws, sep) + tail == ws[0] + sep + rest;
      WordsOfFirst(cls, ws[0], sep, rest);
      WordsOfJoin(cls, ws[1..], sep, tail);
    }
  }

  /** A joined string starts and ends with characters of words. */
  lemma {:induction false} JoinEdges(cls: Class, ws: seq<string>, sep: string)
    requires AllWords(cls, ws) && ws != []
    ensures var j := Join(ws, sep); j != "" && cls.Has(j[0]) && cls.Has(j[|j| - 1])
  {
    assert Word(cls, ws[0]);
    if |ws| > 1 {
      JoinEdges(cls, ws[1..], sep);
    }
  }
}
