/**
  What `sanitizeString` guarantees for every input: no tag survives, white space is single blanks
  between the words of the text, and a second application changes nothing.
 */
module SanitizeTheorems {
  import opened Regex
  import opened TextRuns
  import opened Sanitize

  /** No `<` has a `>` anywhere after it, from position `i` on. */
  predicate NoTag(s: string, i: nat) {
    forall a, b | i <= a < b < |s| :: !(s[a] == '<' && s[b] == '>')
  }

  predicate Appears(c: char, s: string, i: nat) {
    exists k :: i <= k < |s| && s[k] == c
  }

  lemma CharFromMatch(m: Matcher, s: string, i: nat, sub: string, c: char, e: nat)
    requires i < e <= |s| && m(i) != [] && m(i)[0] == e
    requires c in ReplaceWith(m, s, i, sub) && c !in sub
    ensures c in ReplaceWith(m, s, e, sub)
  {
    assert ReplaceWith(m, s, i, sub) == sub + ReplaceWith(m, s, e, sub);
  }

  lemma CharFromCopy(m: Matcher, s: string, i: nat, sub: string, c: char)
    requires i < |s| && !(m(i) != [] && i < m(i)[0] <= |s|)
    requires c in ReplaceWith(m, s, i, sub) && c !in sub && c != s[i]
    ensures c in ReplaceWith(m, s, i + 1, sub)
  {
    var pre := if m(i) != [] then sub else "";
    assert ReplaceWith(m, s, i, sub) == pre + [s[i]] + ReplaceWith(m, s, i + 1, sub);
  }

  /** Replacement invents no characters of its own. */
  lemma {:induction false} ReplaceChars(m: Matcher, s: string, i: nat, sub: string, c: char)
    requires i <= |s|
    requires c in ReplaceWith(m, s, i, sub) && c !in sub
    ensures Appears(c, s, i)
    decreases |s| - i
  {
    if m(i) != [] && i < m(i)[0] <= |s| {
      CharFromMatch(m, s, i, sub, c, m(i)[0]);
      ReplaceChars(m, s, m(i)[0], sub, c);
    } else if i < |s| && c != s[i] {
      CharFromCopy(m, s, i, sub, c);
      ReplaceChars(m, s, i + 1, sub, c);
    }
  }

  lemma NoTagCons(c: char, t: string, pre: string)
    requires NoTag(t, 0) && '<' !in pre && '>' !in pre
    requires c == '<' ==> '>' !in t
    ensures NoTag(pre + [c] + t, 0)
  {
    var u := pre + [c] + t;
    forall a, b | 0 <= a < b < |u| ensures !(u[a] == '<' && u[b] == '>') {
      if a > |pre| {
        assert u[a] == t[a - |pre| - 1] && u[b] == t[b - |pre| - 1];
      } else if a == |pre| {
        assert u[b] == t[b - |pre| - 1];
      } else {
        assert u[a] in pre;
      }
    }
  }

  lemma NoTagAfter(t: string, pre: string)
    requires NoTag(t, 0) && '<' !in pre && '>' !in pre
    ensures NoTag(pre + t, 0)
  {
    var u := pre + t;
    forall a, b | 0 <= a < b < |u| ensures !(u[a] == '<' && u[b] == '>') {
      if a >= |pre| {
        assert u[a] == t[a - |pre|] && u[b] == t[b - |pre|];
      } else {
        assert u[a] in pre;
      }
    }
  }

  lemma NoTagByMatch(m: Matcher, s: string, i: nat, sub: string, e: nat)
    requires i < e <= |s| && '<' !in sub && '>' !in sub
    requires m(i) != [] && m(i)[0] == e && NoTag(ReplaceWith(m, s, e, sub), 0)
    ensures NoTag(ReplaceWith(m, s, i, sub), 0)
  {
    NoTagAfter(ReplaceWith(m, s, e, sub), sub);
  }

  /** A copied `<` opens no tag if no `>` appears behind it. */
  lemma NoTagByCopy(m: Matcher, s: string, i: nat, sub: string)
    requires i < |s| && '<' !in sub && '>' !in sub
    requires !(m(i) != [] && i < m(i)[0] <= |s|)
    requires s[i] == '<' ==> !Appears('>', s, i + 1)
    requires NoTag(ReplaceWith(m, s, i + 1, sub), 0)
    ensures NoTag(ReplaceWith(m, s, i, sub), 0)
  {
    var rest := ReplaceWith(m, s, i + 1, sub);
    if s[i] == '<' && '>' in rest {
      ReplaceChars(m, s, i + 1, sub, '>');
    }
    var pre := if m(i) != [] then sub else "";
    NoTagCons(s[i], rest, pre);
    assert ReplaceWith(m, s, i, sub) == pre + [s[i]] + rest;
  }

  /** A replacement text without angle brackets cannot create a tag. */
  lemma {:induction false} ReplaceKeepsNoTag(m: Matcher, s: string, i: nat, sub: string)
    requires i <= |s| && NoTag(s, i) && '<' !in sub && '>' !in sub
    ensures NoTag(ReplaceWith(m, s, i, sub), 0)
    decreases |s| - i
  {
    if m(i) != [] && i < m(i)[0] <= |s| {
      ReplaceKeepsNoTag(m, s, m(i)[0], sub);
      NoTagByMatch(m, s, i, sub, m(i)[0]);
    } else if i < |s| {
      ReplaceKeepsNoTag(m, s, i + 1, sub);
      NoTagByCopy(m, s, i, sub);
    }
  }

  /** `<[^>]*>` matches from a `<` to the first `>` behind it, and in no other way. */
  lemma TagEnds(s: string, i: nat)
    requires i <= |s|
    ensures Ends(TAG, s, i) ==
            if i < |s| && s[i] == '<' && RunEnd(NotIn({'>'}), s, i + 1) < |s|
            then [RunEnd(NotIn({'>'}), s, i + 1) + 1] else []
  {
    var gt := One(In({'>'}));
    if i < |s| && s[i] == '<' {
      CatOne(One(In({'<'})), Cat(Star(One(NotIn({'>'}))), gt), s, i, i + 1);
      ForcedRun(NotIn({'>'}), gt, s, i + 1);
    } else {
      assert Ends(One(In({'<'})), s, i) == [];
    }
  }

  /** `m` matches at every `<` that has a `>` behind it. */
  ghost predicate FindsTags(m: Matcher, s: string) {
    forall i | 0 <= i < |s| && s[i] == '<' && Appears('>', s, i + 1) :: FindsAny(m, s, i)
  }

  predicate FindsAny(m: Matcher, s: string, i: nat) {
    m(i) != [] && i < m(i)[0] <= |s|
  }

  lemma {:induction false} NoTagLeft(m: Matcher, s: string, i: nat)
    requires i <= |s| && FindsTags(m, s) && m(|s|) == []
    ensures NoTag(ReplaceWith(m, s, i, ""), 0)
    decreases |s| - i
  {
    if FindsAny(m, s, i) {
      NoTagLeft(m, s, m(i)[0]);
      NoTagByMatch(m, s, i, "", m(i)[0]);
    } else if i < |s| {
      NoTagLeft(m, s, i + 1);
      NoTagByCopy(m, s, i, "");
    }
  }

  lemma TagFindsTag(s: string, i: nat)
    requires i < |s| && s[i] == '<' && Appears('>', s, i + 1)
    ensures FindsAny(MatcherOf(TAG, s), s, i)
  {
    TagEnds(s, i);
    var k :| i + 1 <= k < |s| && s[k] == '>';
    assert RunEnd(NotIn({'>'}), s, i + 1) <= k;
  }

  /** One left-to-right pass removes every tag, whatever the input. */
  lemma TagsGone(s: string, i: nat)
    requires i <= |s|
    ensures NoTag(ReplaceAll(TAG, s, i, ""), 0)
  {
    var m := MatcherOf(TAG, s);
    forall k | 0 <= k < |s| && s[k] == '<' && Appears('>', s, k + 1) ensures FindsAny(m, s, k) {
      TagFindsTag(s, k);
    }
    TagEnds(s, |s|);
    NoTagLeft(m, s, i);
  }

  lemma NamesAreTagNames()
    ensures TagName("script") && TagName("style")
  {
  }

  /** A block runs from a `<` to a later `>`. */
  lemma BlockHasTag(name: string, s: string, i: nat)
    requires i <= |s| && BlockEnd(name, s, i) >= 0
    ensures var e := BlockEnd(name, s, i); i < e - 1 && s[i] == '<' && s[e - 1] == '>'
  {
    var open, close := "<" + name, CloseTag(name);
    assert CharClass(open[0], true).Has(s[i + 0]);
    FirstAtIsFirst(close, s, i + |open|);
    CloseStartsWithLt(name, s, FirstAt(close, s, i + |open|));
  }

  lemma BlockNeedsTag(name: string, s: string, i: nat)
    requires TagName(name) && i <= |s| && NoTag(s, 0)
    ensures Ends(Block(name), s, i) == []
  {
    BlockEnds(name, s, i);
    if BlockEnd(name, s, i) >= 0 {
      BlockHasTag(name, s, i);
    }
  }

  lemma TagNeedsTag(s: string, i: nat)
    requires i <= |s| && NoTag(s, 0)
    ensures Ends(TAG, s, i) == []
  {
    TagEnds(s, i);
  }

  /** The removal passes leave a text alone exactly when it has no `<` before a `>`. */
  lemma StripTagsFixedPoint(s: string)
    ensures NoTag(StripTags(s), 0)
    ensures StripTags(s) == s <==> NoTag(s, 0)
  {
    TagsGone(ReplaceAll(Block("style"), ReplaceAll(Block("script"), s, 0, ""), 0, ""), 0);
    if NoTag(s, 0) {
      NamesAreTagNames();
      forall k | 0 <= k <= |s|
        ensures Ends(Block("script"), s, k) == [] && Ends(Block("style"), s, k) == [] && Ends(TAG, s, k) == []
      {
        BlockNeedsTag("script", s, k);
        BlockNeedsTag("style", s, k);
        TagNeedsTag(s, k);
      }
      NoMatchKeeps(Block("script"), s, "");
      NoMatchKeeps(Block("style"), s, "");
      NoMatchKeeps(TAG, s, "");
    }
  }

  lemma CollapsedBlanks(s: string)
    ensures ReplaceAll(GAP, s, 0, " ") == Collapsed(TEXT, s, 0, " ")
  {
    assert TEXT.Complement() == In(SPACES);
    CollapseIsJoin(TEXT, s, 0, " ");
  }

  lemma TrimFrontBlank(lead: string, rest: string)
    requires lead in {"", " "}
    requires rest != "" ==> rest[0] !in SPACES
    ensures TrimFront(lead + rest) == rest
  {
    assert "" + rest == rest;
    assert (" " + rest)[1..] == rest;
  }

  lemma TrimBackBlank(body: string, tail: string)
    requires tail in {"", " "}
    requires body != "" ==> body[|body| - 1] !in SPACES
    ensures TrimBack(body + tail) == body
  {
    assert body + "" == body;
    assert (body + " ")[..|body + " "| - 1] == body;
  }

  /**
    The result is determined by the words of the text that the removal passes leave: one blank between
    consecutive words, and without trimming one blank at an end that was white space.
   */
  lemma SanitizeIsWords(data: string)
    ensures SanitizeString(data, true) == Join(Words(TEXT, StripTags(data), 0), " ")
    ensures SanitizeString(data, false) == Collapsed(TEXT, StripTags(data), 0, " ")
  {
    CollapsedBlanks(StripTags(data));
    TrimCollapsed(StripTags(data));
  }

  lemma TrimCollapsed(s: string)
    ensures TrimBack(TrimFront(Collapsed(TEXT, s, 0, " "))) == Join(Words(TEXT, s, 0), " ")
  {
    var ws := Words(TEXT, s, 0);
    if s != "" && ws == [] {
      TrimFrontBlank(" ", "");
      assert " " + "" == " ";
    } else if s != "" {
      WordsAreWords(TEXT, s, 0);
      JoinEdges(TEXT, ws, " ");
      var tail := if TEXT.Has(s[|s| - 1]) then "" else " ";
      TrimFrontBlank(if TEXT.Has(s[0]) then "" else " ", Join(ws, " ") + tail);
      TrimBackBlank(Join(ws, " "), tail);
    }
  }

  /** White space only as single blanks. */
  predicate SingleBlanks(s: string) {
    && (forall k | 0 <= k < |s| :: s[k] !in OTHER_SPACES)
    && (forall k | 0 <= k < |s| - 1 :: !(s[k] == ' ' && s[k + 1] == ' '))
  }

  /** Tab, line feed, vertical tab, form feed and carriage return. */
  const OTHER_SPACES: string := "\t\n\U{0B}\U{0C}\r"

  lemma SpacesAre(c: char)
    ensures c in SPACES <==> c == ' ' || c in OTHER_SPACES
  {
  }

  lemma {:induction false} JoinSingleBlanks(ws: seq<string>)
    requires AllWords(TEXT, ws)
    ensures SingleBlanks(Join(ws, " "))
  {
    if |ws| == 1 {
      assert Word(TEXT, ws[0]);
      forall k | 0 <= k < |ws[0]| ensures ws[0][k] !in OTHER_SPACES {
        SpacesAre(ws[0][k]);
      }
    } else if |ws| > 1 {
      var rest := Join(ws[1..], " ");
      JoinSingleBlanks(ws[1..]);
      JoinEdges(TEXT, ws[1..], " ");
      assert Word(TEXT, ws[0]);
      var j := ws[0] + " " + rest;
      forall k | 0 <= k < |j| ensures j[k] !in OTHER_SPACES {
        SpacesAre(j[k]);
        if k > |ws[0]| { assert j[k] == rest[k - |ws[0]| - 1]; }
      }
      forall k | 0 <= k < |j| - 1 ensures !(j[k] == ' ' && j[k + 1] == ' ') {
        if k > |ws[0]| {
          assert j[k] == rest[k - |ws[0]| - 1] && j[k + 1] == rest[k - |ws[0]|];
        } else if k == |ws[0]| {
          assert j[k + 1] == rest[0];
        }
      }
    }
  }

  lemma PadSingleBlanks(lead: string, j: string, tail: string)
    requires lead in {"", " "} && tail in {"", " "} && SingleBlanks(j)
    requires j != "" && j[0] != ' ' && j[|j| - 1] != ' '
    ensures SingleBlanks(lead + (j + tail))
  {
    var u := lead + (j + tail);
    forall k | 0 <= k < |u| ensures u[k] !in OTHER_SPACES {
      if |lead| <= k < |lead| + |j| {
        assert u[k] == j[k - |lead|];
      }
    }
    forall k | 0 <= k < |u| - 1 ensures !(u[k] == ' ' && u[k + 1] == ' ') {
      if |lead| <= k && k + 1 < |lead| + |j| {
        assert u[k] == j[k - |lead|] && u[k + 1] == j[k + 1 - |lead|];
      }
    }
  }

  lemma CollapsedSingleBlanks(s: string)
    ensures SingleBlanks(Collapsed(TEXT, s, 0, " "))
  {
    var ws := Words(TEXT, s, 0);
    if ws != [] {
      WordsAreWords(TEXT, s, 0);
      JoinSingleBlanks(ws);
      JoinEdges(TEXT, ws, " ");
      PadSingleBlanks(if TEXT.Has(s[0]) then "" else " ", Join(ws, " "), if TEXT.Has(s[|s| - 1]) then "" else " ");
    }
  }

  /** No tag, white space only as single blanks, and none at the ends when trimming. */
  predicate IsClean(s: string, trim: bool) {
    NoTag(s, 0) && SingleBlanks(s) && (trim && s != "" ==> s[0] != ' ' && s[|s| - 1] != ' ')
  }

  /** The result is clean, for every input and both options. */
  lemma SanitizedIsClean(data: string, trim: bool)
    ensures IsClean(SanitizeString(data, trim), trim)
  {
    var s := StripTags(data);
    StripTagsFixedPoint(data);
    SanitizeIsWords(data);
    CollapsedNoTag(s);
    if trim {
      JoinedIsClean(s);
    } else {
      CollapsedSingleBlanks(s);
    }
  }

  lemma CollapsedNoTag(s: string)
    requires NoTag(s, 0)
    ensures NoTag(Collapsed(TEXT, s, 0, " "), 0)
  {
    ReplaceKeepsNoTag(MatcherOf(GAP, s), s, 0, " ");
    CollapsedBlanks(s);
  }

  lemma JoinedIsClean(s: string)
    requires NoTag(s, 0)
    ensures var out := Join(Words(TEXT, s, 0), " ");
      NoTag(out, 0) && SingleBlanks(out) && (out != "" ==> out[0] != ' ' && out[|out| - 1] != ' ')
  {
    var ws := Words(TEXT, s, 0);
    WordsAreWords(TEXT, s, 0);
    JoinSingleBlanks(ws);
    if ws != [] {
      JoinEdges(TEXT, ws, " ");
      CollapsedNoTag(s);
      JoinInsideCollapsed(s);
    }
  }

  lemma JoinInsideCollapsed(s: string)
    requires Words(TEXT, s, 0) != []
    requires NoTag(Collapsed(TEXT, s, 0, " "), 0)
    ensures NoTag(Join(Words(TEXT, s, 0), " "), 0)
  {
    var out, j := Collapsed(TEXT, s, 0, " "), Join(Words(TEXT, s, 0), " ");
    var d := if TEXT.Has(s[0]) then 0 else 1;
    forall a, b | 0 <= a < b < |j| ensures !(j[a] == '<' && j[b] == '>') {
      assert j[a] == out[a + d] && j[b] == out[b + d];
    }
  }

  lemma BlankKept(s: string, i: nat)
    requires i < |s| && SingleBlanks(s)
    ensures Collapsed(TEXT, s, i, " ") == [s[i]] + Collapsed(TEXT, s, i + 1, " ")
  {
    if TEXT.Has(s[i]) {
      CollapseChar(TEXT, s, i, " ");
    } else {
      SpacesAre(s[i]);
      if i + 1 < |s| {
        SpacesAre(s[i + 1]);
      }
      CollapseGap(TEXT, s, i, i + 1, " ");
    }
  }

  predicate CopiesAt(rest: nat -> string, s: string, k: nat)
    requires k < |s|
  {
    rest(k) == [s[k]] + rest(k + 1)
  }

  lemma {:induction false} CopiesAll(rest: nat -> string, s: string, i: nat)
    requires i <= |s| && rest(|s|) == "" && forall k | 0 <= k < |s| :: CopiesAt(rest, s, k)
    ensures rest(i) == s[i..]
    decreases |s| - i
  {
    if i < |s| {
      CopiesAll(rest, s, i + 1);
      assert CopiesAt(rest, s, i);
      assert s[i..] == [s[i]] + s[i + 1..];
    }
  }

  lemma BlanksKept(s: string)
    requires SingleBlanks(s)
    ensures Collapsed(TEXT, s, 0, " ") == s
  {
    var rest := (k: nat) => if k <= |s| then Collapsed(TEXT, s, k, " ") else "";
    forall k | 0 <= k < |s| ensures CopiesAt(rest, s, k) {
      BlankKept(s, k);
    }
    CopiesAll(rest, s, 0);
    assert s[0..] == s;
  }

  lemma TrimKeeps(s: string)
    requires s != "" ==> s[0] !in SPACES && s[|s| - 1] !in SPACES
    ensures TrimBack(TrimFront(s)) == s
  {
  }

  lemma CleanKept(s: string, trim: bool)
    requires IsClean(s, trim)
    ensures SanitizeString(s, trim) == s
  {
    StripTagsFixedPoint(s);
    CollapsedBlanks(s);
    BlanksKept(s);
    if trim {
      if s != "" {
        SpacesAre(s[0]);
        SpacesAre(s[|s| - 1]);
      }
      TrimKeeps(s);
    }
  }

  /** A text is left alone exactly if it is clean already. */
  lemma SanitizeFixedPoint(s: string, trim: bool)
    ensures SanitizeString(s, trim) == s <==> IsClean(s, trim)
  {
    SanitizedIsClean(s, trim);
    if IsClean(s, trim) {
      CleanKept(s, trim);
    }
  }

  /** A second application changes nothing. */
  lemma SanitizeIdempotent(data: string, trim: bool)
    ensures SanitizeString(SanitizeString(data, trim), trim) == SanitizeString(data, trim)
  {
    SanitizedIsClean(data, trim);
    SanitizeFixedPoint(SanitizeString(data, trim), trim);
  }
}
