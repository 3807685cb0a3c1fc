/**
  `slugify` over ASCII, where normalisation and the removal of diacritical marks change nothing: lower
  case, one separator for each run of other characters, separators stripped at the ends, truncation.
 */
module Slugify {
  import opened Regex
  import opened TextRuns

  const ALNUM: set<char> := DIGITS + LOWER
  const WORD := In(ALNUM)
  const METACHARACTERS: set<char> :=
    {'^', '$', '\\', '.', '*', '+', '?', '(', ')', '[', ']', '{', '}', '|'}

  /** A separator that means itself inside a regular expression and a replacement text. */
  predicate PlainSeparator(sep: string) {
    sep != "" && forall k | 0 <= k < |sep| :: sep[k] !in ALNUM + UPPER + METACHARACTERS
  }

  /** `new RegExp("^" + sep + "|" + sep + "$")` for a plain separator */
  function EdgeSeparator(sep: string): Regex {
    Alt(Cat(Test(AtStart), Literal(sep, false)), Cat(Literal(sep, false), Test(AtEnd)))
  }

  function SlugifyString(data: string, maxLength: nat, sep: string): string {
    SlugWith(EdgeSeparator(sep), data, maxLength, sep)
  }

  /** The steps of `slugify`; `edge` is the pattern that was built from the separator. */
  function SlugWith(edge: Regex, data: string, maxLength: nat, sep: string): string {
    var dashed := ReplaceAll(Plus(One(NotIn(ALNUM))), Lower(data), 0, sep);
    var stripped := ReplaceAll(edge, dashed, 0, "");
    Take(stripped, maxLength)
  }

  function Take(s: string, n: nat): (r: string)
    ensures r <= s && |r| == if n < |s| then n else |s|
  {
    if n < |s| then s[..n] else s
  }

  /** The characters that a slug keeps. */
  lemma Alphanumerics(c: char)
    ensures c in ALNUM <==> c in "abcdefghijklmnopqrstuvwxyz0123456789"
  {
  }

  // ----- stripping

  lemma EdgeEnds(sep: string, s: string, i: nat)
    requires i <= |s|
    requires !(OccursAt(sep, false, s, i) && (i == 0 || i + |sep| == |s|))
    ensures Ends(EdgeSeparator(sep), s, i) == []
  {
    var lit := Literal(sep, false);
    LiteralEnds(sep, false, s, i);
    assert Ends(Cat(Test(AtStart), lit), s, i) == [] by {
      if i == 0 {
        CatOne(Test(AtStart), lit, s, i, i);
      }
    }
    assert Ends(Cat(lit, Test(AtEnd)), s, i) == [] by {
      if OccursAt(sep, false, s, i) {
        CatOne(lit, Test(AtEnd), s, i, i + |sep|);
      }
    }
  }

  lemma EdgeMatch(sep: string, s: string, i: nat)
    requires OccursAt(sep, false, s, i) && (i == 0 || i + |sep| == |s|)
    ensures Ends(EdgeSeparator(sep), s, i) != [] && Ends(EdgeSeparator(sep), s, i)[0] == i + |sep|
  {
    var lit := Literal(sep, false);
    LiteralEnds(sep, false, s, i);
    CatOne(lit, Test(AtEnd), s, i, i + |sep|);
    if i == 0 {
      CatOne(Test(AtStart), lit, s, i, i);
      assert Ends(Cat(Test(AtStart), lit), s, i) == [i + |sep|];
    } else {
      assert Ends(Cat(Test(AtStart), lit), s, i) == [];
      assert Ends(Cat(lit, Test(AtEnd)), s, i) == [i + |sep|];
    }
  }

  lemma NothingAtEnd(sep: string, s: string)
    requires PlainSeparator(sep)
    ensures ReplaceAll(EdgeSeparator(sep), s, |s|, "") == ""
  {
    EdgeEnds(sep, s, |s|);
    CopyStep(EdgeSeparator(sep), s, |s|, "");
  }

  lemma NoSeparatorOver(sep: string, s: string, i: nat, k: nat)
    requires PlainSeparator(sep) && i <= k < |s| && k < i + |sep| && WORD.Has(s[k])
    ensures !OccursAt(sep, false, s, i)
  {
    assert sep[k - i] !in ALNUM;
    assert !CharClass(sep[k - i], false).Has(s[i + (k - i)]);
  }

  lemma BodyHasNoEdge(sep: string, s: string, lo: nat, hi: nat, i: nat)
    requires PlainSeparator(sep) && lo <= i < hi <= |s|
    requires WORD.Has(s[lo]) && WORD.Has(s[hi - 1]) && s[hi..] in {"", sep}
    ensures Ends(EdgeSeparator(sep), s, i) == []
  {
    if i == 0 {
      NoSeparatorOver(sep, s, 0, 0);
    } else if i + |sep| == |s| {
      NoSeparatorOver(sep, s, i, hi - 1);
    }
    EdgeEnds(sep, s, i);
  }

  /** From the body `s[lo..hi]` on, only a final separator is removed. */
  lemma StripBack(sep: string, s: string, lo: nat, hi: nat)
    requires PlainSeparator(sep) && lo < hi <= |s|
    requires WORD.Has(s[lo]) && WORD.Has(s[hi - 1]) && s[hi..] in {"", sep}
    ensures ReplaceAll(EdgeSeparator(sep), s, lo, "") == s[lo..hi]
  {
    forall i | lo <= i < hi ensures Ends(EdgeSeparator(sep), s, i) == [] {
      BodyHasNoEdge(sep, s, lo, hi, i);
    }
    CopyRun(EdgeSeparator(sep), s, lo, hi, "");
    StripTail(sep, s, hi);
    assert s[lo..hi] + "" == s[lo..hi];
  }

  lemma StripTail(sep: string, s: string, i: nat)
    requires PlainSeparator(sep) && i <= |s| && s[i..] in {"", sep}
    ensures ReplaceAll(EdgeSeparator(sep), s, i, "") == ""
  {
    NothingAtEnd(sep, s);
    if i < |s| {
      forall k | 0 <= k < |sep| ensures CharClass(sep[k], false).Has(s[i + k]) {
        assert s[i..][k] == s[i + k];
      }
      EdgeMatch(sep, s, i);
      MatchStep(EdgeSeparator(sep), s, i, "", |s|);
    }
  }

  lemma StripEdges(sep: string, lead: string, body: string, tail: string)
    requires PlainSeparator(sep) && lead in {"", sep} && tail in {"", sep}
    requires body != "" && WORD.Has(body[0]) && WORD.Has(body[|body| - 1])
    ensures ReplaceAll(EdgeSeparator(sep), lead + (body + tail), 0, "") == body
  {
    var s := lead + (body + tail);
    var hi := |lead| + |body|;
    assert s[|lead|] == body[0] && s[hi - 1] == body[|body| - 1];
    assert s[hi..] == tail && s[|lead|..hi] == body;
    StripBack(sep, s, |lead|, hi);
    if lead == sep {
      forall k | 0 <= k < |sep| ensures CharClass(sep[k], false).Has(s[0 + k]) {
        assert s[0 + k] == lead[k];
      }
      EdgeMatch(sep, s, 0);
      MatchStep(EdgeSeparator(sep), s, 0, "", |sep|);
      assert "" + body == body;
    }
  }

  lemma StripLone(sep: string)
    requires PlainSeparator(sep)
    ensures ReplaceAll(EdgeSeparator(sep), sep, 0, "") == ""
  {
    assert OccursAt(sep, false, sep, 0);
    EdgeMatch(sep, sep, 0);
    NothingAtEnd(sep, sep);
  }

  // ----- the meaning of a slug

  lemma Stripped(s: string, sep: string)
    requires PlainSeparator(sep)
    ensures ReplaceAll(EdgeSeparator(sep), Collapsed(WORD, s, 0, sep), 0, "") == Join(Words(WORD, s, 0), sep)
  {
    var ws := Words(WORD, s, 0);
    if s == "" {
      NothingAtEnd(sep, "");
    } else if ws == [] {
      StripLone(sep);
    } else {
      WordsAreWords(WORD, s, 0);
      JoinEdges(WORD, ws, sep);
      StripEdges(sep, if WORD.Has(s[0]) then "" else sep, Join(ws, sep), if WORD.Has(s[|s| - 1]) then "" else sep);
    }
  }

  /**
    For every plain separator a slug is the beginning of the maximal alphanumeric runs of the
    lower-cased input joined by the separator.
   */
  lemma SlugIsJoinedWords(data: string, maxLength: nat, sep: string)
    requires PlainSeparator(sep)
    ensures SlugifyString(data, maxLength, sep) == Take(Join(Words(WORD, Lower(data), 0), sep), maxLength)
  {
    assert WORD.Complement() == NotIn(ALNUM);
    CollapseIsJoin(WORD, Lower(data), 0, sep);
    Stripped(Lower(data), sep);
  }

  /** A prefix of joined words is joined words again, followed by a beginning of the separator. */
  lemma {:induction false} PrefixOfJoin(ws: seq<string>, sep: string, n: nat)
    returns (vs: seq<string>, k: nat)
    requires AllWords(WORD, ws) && n <= |Join(ws, sep)|
    ensures AllWords(WORD, vs) && k <= |sep| && (vs == [] <==> n == 0) && (n == 0 ==> k == 0)
    ensures Join(ws, sep)[..n] == Join(vs, sep) + sep[..k]
  {
    if n == 0 || ws == [] {
      vs, k := [], 0;
    } else if n <= |ws[0]| {
      assert Word(WORD, ws[0]);
      vs, k := [ws[0][..n]], 0;
      assert Join(ws, sep)[..n] == ws[0][..n];
    } else {
      var rest := Join(ws[1..], sep);
      assert Join(ws, sep) == ws[0] + sep + rest;
      if n <= |ws[0]| + |sep| {
        vs, k := [ws[0]], n - |ws[0]|;
      } else {
        var us;
        var m := n - |ws[0]| - |sep|;
        us, k := PrefixOfJoin(ws[1..], sep, m);
        assert Join(ws, sep)[..n] == ws[0] + sep + rest[..m];
        vs := [ws[0]] + us;
        assert vs[1..] == us;
        assert Join(vs, sep) + sep[..k] == ws[0] + sep + (Join(us, sep) + sep[..k]);
      }
    }
  }

  lemma LowerKeeps(s: string)
    requires forall k | 0 <= k < |s| :: s[k] !in UPPER
    ensures Lower(s) == s
  {
  }

  lemma {:induction false} JoinChars(ws: seq<string>, sep: string)
    requires AllWords(WORD, ws)
    ensures forall k | 0 <= k < |Join(ws, sep)| :: WORD.Has(Join(ws, sep)[k]) || Join(ws, sep)[k] in sep
  {
    if ws != [] {
      assert Word(WORD, ws[0]);
      if |ws| > 1 {
        JoinChars(ws[1..], sep);
      }
    }
  }

  /** Slugifying joined words again, cut at a beginning of a separator, drops that beginning. */
  lemma SlugOfJoin(vs: seq<string>, sep: string, k: nat, maxLength: nat)
    requires AllWords(WORD, vs) && PlainSeparator(sep) && k <= |sep|
    requires |Join(vs, sep)| <= maxLength
    ensures SlugifyString(Join(vs, sep) + sep[..k], maxLength, sep) == Join(vs, sep)
  {
    var r := Join(vs, sep) + sep[..k];
    JoinChars(vs, sep);
    LowerKeeps(r);
    WordsOfJoin(WORD, vs, sep, sep[..k]);
    SlugIsJoinedWords(r, maxLength, sep);
  }

  /** The shape of a slug: joined words and the part of a separator that truncation left. */
  lemma SlugShape(data: string, maxLength: nat, sep: string) returns (vs: seq<string>, k: nat)
    requires PlainSeparator(sep)
    ensures AllWords(WORD, vs) && k <= |sep| && (vs == [] ==> k == 0)
    ensures SlugifyString(data, maxLength, sep) == Join(vs, sep) + sep[..k]
    ensures |Join(vs, sep) + sep[..k]| <= maxLength
    ensures |Join(Words(WORD, Lower(data), 0), sep)| <= maxLength ==> k == 0
  {
    var ws := Words(WORD, Lower(data), 0);
    var j := Join(ws, sep);
    WordsAreWords(WORD, Lower(data), 0);
    SlugIsJoinedWords(data, maxLength, sep);
    if |j| <= maxLength {
      vs, k := ws, 0;
      assert j + sep[..0] == j;
    } else {
      vs, k := PrefixOfJoin(ws, sep, maxLength);
    }
  }

  /**
    A slug is a fixed point exactly when it does not end in (a part of) the separator; only truncation
    leaves one there, and a second application removes it for good.
   */
  lemma SlugFixedPoint(data: string, maxLength: nat, sep: string)
    requires PlainSeparator(sep)
    ensures var r := SlugifyString(data, maxLength, sep);
      var again := SlugifyString(r, maxLength, sep);
      && (again == r <==> r == "" || r[|r| - 1] in ALNUM)
      && (|Join(Words(WORD, Lower(data), 0), sep)| <= maxLength ==> again == r)
      && SlugifyString(again, maxLength, sep) == again
      && again <= r
  {
    var vs, k := SlugShape(data, maxLength, sep);
    var body := Join(vs, sep);
    SlugOfJoin(vs, sep, k, maxLength);
    SlugOfJoin(vs, sep, 0, maxLength);
    assert body + sep[..0] == body;
    if vs != [] {
      JoinEdges(WORD, vs, sep);
    }
    if k > 0 {
      assert (body + sep[..k])[|body| + k - 1] == sep[k - 1];
    }
  }

  // ----- a separator that is a metacharacter

  const LINE_ENDS: set<char> := {'\n', '\r'}

  /** What `new RegExp("^.|.$")` means: with the separator `.` the dot matches any character. */
  const DOT_EDGE := Alt(Cat(Test(AtStart), One(NotIn(LINE_ENDS))), Cat(One(NotIn(LINE_ENDS)), Test(AtEnd)))

  predicate OnOneLine(s: string) {
    forall k | 0 <= k < |s| :: s[k] !in LINE_ENDS
  }

  lemma DotEnds(s: string, i: nat)
    requires i <= |s| && OnOneLine(s)
    ensures var ends := Ends(DOT_EDGE, s, i);
      if i < |s| && (i == 0 || i == |s| - 1) then ends != [] && ends[0] == i + 1 else ends == []
  {
    var dot := One(NotIn(LINE_ENDS));
    if i == 0 {
      CatOne(Test(AtStart), dot, s, i, i);
    }
    assert i > 0 ==> Ends(Cat(Test(AtStart), dot), s, i) == [];
    if i < |s| {
      CatOne(dot, Test(AtEnd), s, i, i + 1);
    } else {
      assert Ends(Cat(dot, Test(AtEnd)), s, i) == [];
      assert Ends(Cat(Test(AtStart), dot), s, i) == [];
    }
  }

  lemma DotStripsText(dashed: string)
    requires |dashed| >= 2 && OnOneLine(dashed)
    ensures ReplaceAll(DOT_EDGE, dashed, 0, "") == dashed[1..|dashed| - 1]
  {
    var last := |dashed| - 1;
    forall i | 0 <= i <= |dashed| && i != 0 && i != last ensures Ends(DOT_EDGE, dashed, i) == [] {
      DotEnds(dashed, i);
    }
    DotEnds(dashed, 0);
    MatchStep(DOT_EDGE, dashed, 0, "", 1);
    CopyRun(DOT_EDGE, dashed, 1, last, "");
    DotEnds(dashed, last);
    MatchStep(DOT_EDGE, dashed, last, "", |dashed|);
    CopyStep(DOT_EDGE, dashed, |dashed|, "");
    assert dashed[1..last] + "" == dashed[1..last];
  }

  lemma DotStripsShort(dashed: string)
    requires |dashed| <= 1 && OnOneLine(dashed)
    ensures ReplaceAll(DOT_EDGE, dashed, 0, "") == ""
  {
    DotEnds(dashed, |dashed|);
    CopyStep(DOT_EDGE, dashed, |dashed|, "");
    if |dashed| == 1 {
      DotEnds(dashed, 0);
      MatchStep(DOT_EDGE, dashed, 0, "", 1);
    }
  }

  /** The slug with the separator `.`, which is spliced into the pattern unescaped. */
  function SlugifyDot(data: string, maxLength: nat): string {
    SlugWith(DOT_EDGE, data, maxLength, ".")
  }

  /** Alphanumerics neither start nor end `s`, so that the dot has a separator to strip at both ends. */
  predicate EdgesAreGaps(s: string) {
    s == "" || (!WORD.Has(s[0]) && !WORD.Has(s[|s| - 1]))
  }

  lemma DashedOnOneLine(s: string)
    ensures OnOneLine(Collapsed(WORD, s, 0, "."))
  {
    WordsAreWords(WORD, s, 0);
    JoinChars(Words(WORD, s, 0), ".");
  }

  /** Stripping by `.` keeps text between two gaps and cuts characters off any other. */
  lemma DotBetween(lead: string, joined: string, tail: string)
    requires lead in {"", "."} && tail in {"", "."} && joined != "" && OnOneLine(lead + (joined + tail))
    ensures ReplaceAll(DOT_EDGE, lead + (joined + tail), 0, "") == joined <==> lead == tail == "."
  {
    var dashed := lead + (joined + tail);
    if |dashed| == 1 {
      DotStripsShort(dashed);
    } else {
      DotStripsText(dashed);
      if lead == tail == "." {
        assert dashed[1..|dashed| - 1] == joined;
      }
    }
  }

  lemma DotStripped(s: string)
    ensures ReplaceAll(DOT_EDGE, Collapsed(WORD, s, 0, "."), 0, "") == Join(Words(WORD, s, 0), ".") <==> EdgesAreGaps(s)
  {
    var ws := Words(WORD, s, 0);
    DashedOnOneLine(s);
    if ws == [] {
      NoWordsNoChars(WORD, s, 0);
      DotStripsShort(Collapsed(WORD, s, 0, "."));
    } else {
      WordsAreWords(WORD, s, 0);
      JoinEdges(WORD, ws, ".");
      var lead, tail := if WORD.Has(s[0]) then "" else ".", if WORD.Has(s[|s| - 1]) then "" else ".";
      assert Collapsed(WORD, s, 0, ".") == lead + (Join(ws, ".") + tail);
      DotBetween(lead, Join(ws, "."), tail);
    }
  }

  /**
    With the separator `.` the first and the last character are stripped, whatever they are. The slug is
    the joined words, for every length, if and only if the input has other characters at both ends.
   */
  lemma DotSlugExactly(data: string)
    ensures (forall n: nat :: SlugifyDot(data, n) == Take(Join(Words(WORD, Lower(data), 0), "."), n)) <==>
      EdgesAreGaps(Lower(data))
  {
    var s := Lower(data);
    var joined := Join(Words(WORD, s, 0), ".");
    var stripped := ReplaceAll(DOT_EDGE, Collapsed(WORD, s, 0, "."), 0, "");
    assert WORD.Complement() == NotIn(ALNUM);
    CollapseIsJoin(WORD, s, 0, ".");
    DotStripped(s);
    var n := |joined| + |stripped|;
    assert SlugifyDot(data, n) == stripped && Take(joined, n) == joined;
  }
}
