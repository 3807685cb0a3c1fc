/**
  The fragment of ECMAScript regular expressions used by the string helpers, with its ordered
  backtracking semantics: `Ends` lists every end position the matcher would try, best first, so its
  first element is the match and the others are what backtracking could fall back to.
 */
module Regex {

  /** A character class: `[...]` or `[^...]`. */
  datatype Class = In(cs: set<char>) | NotIn(cs: set<char>) {
    predicate Has(c: char) {
      if In? then c in cs else c !in cs
    }

    function Complement(): (r: Class)
      ensures forall c :: r.Has(c) <==> !Has(c)
    {
      if In? then NotIn(cs) else In(cs)
    }
  }

  /** Assertions that consume nothing: no condition, `\b`, `^` and `$`. */
  datatype Anchor = Always | WordBoundary | AtStart | AtEnd {
    predicate Holds(s: string, i: nat)
      requires i <= |s|
    {
      match this
      case Always => true
      case WordBoundary => (i > 0 && IsWordChar(s[i-1])) != (i < |s| && IsWordChar(s[i]))
      case AtStart => i == 0
      case AtEnd => i == |s|
    }
  }

  datatype Regex =
    | Test(anchor: Anchor)
    | One(cls: Class)
    | Cat(first: Regex, second: Regex)
    | Alt(left: Regex, right: Regex)
    | Star(body: Regex)
    | NotAhead(body: Regex)

  function Plus(r: Regex): Regex {
    Cat(r, Star(r))
  }

  const DIGITS: set<char> := set c | '0' <= c <= '9'
  const LOWER: set<char> := set c | 'a' <= c <= 'z'
  const UPPER: set<char> := set c | 'A' <= c <= 'Z'

  predicate IsWordChar(c: char) {
    c in DIGITS || c in LOWER || c in UPPER || c == '_'
  }

  function LowerChar(c: char): (r: char)
    ensures c in UPPER ==> r in LOWER
    ensures c !in UPPER ==> r == c
  {
    if c in UPPER then c + ' ' else c
  }

  function Lower(s: string): (r: string)
    ensures |r| == |s| && forall k | 0 <= k < |s| :: r[k] == LowerChar(s[k])
  {
    seq(|s|, k requires 0 <= k < |s| => LowerChar(s[k]))
  }

  /** Each capital letter becomes the letter of the same place in the alphabet. */
  lemma LowerAlphabet(k: nat)
    requires k < 26
    ensures LowerChar("ABCDEFGHIJKLMNOPQRSTUVWXYZ"[k]) == "abcdefghijklmnopqrstuvwxyz"[k]
    ensures forall c :: c in UPPER <==> c in "ABCDEFGHIJKLMNOPQRSTUVWXYZ"
  {
  }

  lemma LowerKeepsOrder(c: char, d: char)
    requires c in UPPER && d in UPPER
    ensures c < d <==> LowerChar(c) < LowerChar(d)
  {
  }

  /** The characters the `i` flag identifies with the lower-case character `c`. */
  function FoldClass(c: char): Class {
    In({c, if c in LOWER then c - ' ' else c})
  }

  function CharClass(c: char, fold: bool): Class {
    if fold then FoldClass(c) else In({c})
  }

  /** A literal word; `fold` is the `i` flag. */
  function Literal(w: string, fold: bool): Regex {
    if w == "" then Test(Always)
    else Cat(One(CharClass(w[0], fold)), Literal(w[1..], fold))
  }

  predicate Within(ks: seq<nat>, lo: nat, hi: nat) {
    forall j | 0 <= j < |ks| :: lo <= ks[j] <= hi
  }

  function Later(ks: seq<nat>, i: nat, hi: nat): (r: seq<nat>)
    requires Within(ks, 0, hi)
    ensures Within(r, i + 1, hi)
  {
    if ks == [] then []
    else (if ks[0] > i then [ks[0]] else []) + Later(ks[1..], i, hi)
  }

  /** All end positions of a match of `r` starting at `i`, in the order backtracking tries them. */
  function Ends(r: Regex, s: string, i: nat): (ends: seq<nat>)
    requires i <= |s|
    ensures Within(ends, i, |s|)
    decreases r, |s| - i, 0
  {
    match r
    case Test(anchor) => if anchor.Holds(s, i) then [i] else []
    case One(cls) => if i < |s| && cls.Has(s[i]) then [i + 1] else []
    case Cat(a, b) => EndsEach(Ends(a, s, i), b, s, i)
    case Alt(a, b) => Ends(a, s, i) + Ends(b, s, i)
    case Star(a) =>
      // an iteration that consumes nothing is rejected
      EndsEach(Later(Ends(a, s, i), i, |s|), r, s, i + 1) + [i]
    case NotAhead(a) => if Ends(a, s, i) == [] then [i] else []
  }

  /** The continuations of `r` from each of the positions `ks`, in order. */
  function EndsEach(ks: seq<nat>, r: Regex, s: string, lo: nat): (ends: seq<nat>)
    requires Within(ks, lo, |s|)
    ensures Within(ends, lo, |s|)
    decreases r, |s| - lo, |ks| + 1
  {
    if ks == [] then []
    else Ends(r, s, ks[0]) + EndsEach(ks[1..], r, s, lo)
  }

  /** The ends of the matches at each position, in the order they are tried. */
  type Matcher = nat -> seq<nat>

  function MatcherOf(r: Regex, s: string): Matcher {
    (i: nat) => if i <= |s| then Ends(r, s, i) else []
  }

  /**
    Global replacement from position `i` on: the leftmost match is taken with the end that is tried
    first; after an empty match one character is copied.
   */
  function ReplaceWith(m: Matcher, s: string, i: nat, sub: string): string
    requires i <= |s|
    decreases |s| - i
  {
    var ends := m(i);
    if ends != [] && i < ends[0] <= |s| then sub + ReplaceWith(m, s, ends[0], sub)
    else
      var inserted := if ends != [] then sub else "";
      if i == |s| then inserted
      else inserted + [s[i]] + ReplaceWith(m, s, i + 1, sub)
  }

  /** `s.replace(/r/g, sub)` from position `i` on. */
  function ReplaceAll(r: Regex, s: string, i: nat, sub: string): string
    requires i <= |s|
  {
    ReplaceWith(MatcherOf(r, s), s, i, sub)
  }

  // ----- general facts about the matcher

  lemma {:induction false} EndsEachConcat(ks: seq<nat>, ls: seq<nat>, r: Regex, s: string, lo: nat)
    requires Within(ks, lo, |s|) && Within(ls, lo, |s|)
    ensures EndsEach(ks + ls, r, s, lo) == EndsEach(ks, r, s, lo) + EndsEach(ls, r, s, lo)
  {
    if ks == [] {
      assert ks + ls == ls;
    } else {
      assert (ks + ls)[1..] == ks[1..] + ls;
      EndsEachConcat(ks[1..], ls, r, s, lo);
    }
  }

  /** The lower bound only bounds; it never changes what is computed. */
  lemma {:induction false} EndsEachBound(ks: seq<nat>, r: Regex, s: string, lo: nat, lo': nat)
    requires Within(ks, lo, |s|) && Within(ks, lo', |s|)
    ensures EndsEach(ks, r, s, lo) == EndsEach(ks, r, s, lo')
  {
    if ks != [] {
      EndsEachBound(ks[1..], r, s, lo, lo');
    }
  }

  /** Sequencing is associative on continuations. */
  lemma {:induction false} EndsEachCat(ks: seq<nat>, a: Regex, b: Regex, s: string, lo: nat)
    requires Within(ks, lo, |s|)
    ensures EndsEach(EndsEach(ks, a, s, lo), b, s, lo) == EndsEach(ks, Cat(a, b), s, lo)
  {
    if ks != [] {
      EndsEachCat(ks[1..], a, b, s, lo);
      EndsEachConcat(Ends(a, s, ks[0]), EndsEach(ks[1..], a, s, lo), b, s, lo);
      EndsEachBound(Ends(a, s, ks[0]), b, s, lo, ks[0]);
    }
  }

  lemma EndsEachSingle(k: nat, r: Regex, s: string, lo: nat)
    requires lo <= k <= |s|
    ensures EndsEach([k], r, s, lo) == Ends(r, s, k)
  {
    assert EndsEach([k][1..], r, s, lo) == [];
  }

  /** Continuing from the alternatives of `a`, the last of which is to consume nothing. */
  lemma CatLast(a: Regex, b: Regex, s: string, i: nat, ks: seq<nat>)
    requires i <= |s| && Within(ks, i, |s|)
    requires Ends(a, s, i) == ks + [i]
    ensures Ends(Cat(a, b), s, i) == EndsEach(ks, b, s, i) + Ends(b, s, i)
  {
    EndsEachConcat(ks, [i], b, s, i);
    EndsEachSingle(i, b, s, i);
  }

  /** Sequencing after something that has a single way to match. */
  lemma CatOne(a: Regex, b: Regex, s: string, i: nat, k: nat)
    requires i <= k <= |s|
    requires Ends(a, s, i) == [k]
    ensures Ends(Cat(a, b), s, i) == Ends(b, s, k)
  {
    EndsEachSingle(k, b, s, i);
  }

  lemma CatNone(a: Regex, b: Regex, s: string, i: nat)
    requires i <= |s| && Ends(a, s, i) == []
    ensures Ends(Cat(a, b), s, i) == []
  {
  }

  lemma StarUnfold(a: Regex, s: string, i: nat, later: seq<nat>)
    requires i <= |s|
    requires later == Later(Ends(a, s, i), i, |s|)
    ensures Ends(Star(a), s, i) == EndsEach(later, Star(a), s, i + 1) + [i]
  {
  }

  /** A starred pattern with one way to advance offers the rest of its run, or stopping here. */
  lemma StarStep(a: Regex, s: string, i: nat, k: nat)
    requires i < k <= |s|
    requires Ends(a, s, i) == [k]
    ensures Ends(Star(a), s, i) == Ends(Star(a), s, k) + [i]
  {
    assert [k][1..] == [];
    StarUnfold(a, s, i, [k]);
    EndsEachSingle(k, Star(a), s, i + 1);
  }

  /** A loop that cannot be entered is skipped. */
  lemma SkipLoop(a: Regex, b: Regex, s: string, i: nat)
    requires i <= |s| && Ends(a, s, i) == []
    ensures Ends(Cat(Star(a), b), s, i) == Ends(b, s, i)
  {
    StarStop(a, s, i);
    CatOne(Star(a), b, s, i, i);
  }

  lemma StarStop(a: Regex, s: string, i: nat)
    requires i <= |s|
    requires Ends(a, s, i) == []
    ensures Ends(Star(a), s, i) == [i]
  {
    StarUnfold(a, s, i, []);
  }

  /** End of the maximal run of characters of `cls` from `i`. */
  function RunEnd(cls: Class, s: string, i: nat): (e: nat)
    requires i <= |s|
    ensures i <= e <= |s|
    ensures forall k | i <= k < e :: cls.Has(s[k])
    ensures e < |s| ==> !cls.Has(s[e])
    decreases |s| - i
  {
    if i < |s| && cls.Has(s[i]) then RunEnd(cls, s, i + 1) else i
  }

  /**
    When the rest of the pattern cannot start on a character of the starred class, backtracking into
    the class is useless: only the maximal run can be completed.
   */
  lemma {:induction false} ForcedRun(cls: Class, rest: Regex, s: string, i: nat)
    requires i <= |s|
    requires forall k | i <= k < |s| && cls.Has(s[k]) :: Ends(rest, s, k) == []
    ensures Ends(Cat(Star(One(cls)), rest), s, i) == Ends(rest, s, RunEnd(cls, s, i))
    decreases |s| - i
  {
    if i < |s| && cls.Has(s[i]) {
      StarStep(One(cls), s, i, i + 1);
      CatLast(Star(One(cls)), rest, s, i, Ends(Star(One(cls)), s, i + 1));
      EndsEachBound(Ends(Star(One(cls)), s, i + 1), rest, s, i, i + 1);
      ForcedRun(cls, rest, s, i + 1);
    } else {
      StarStop(One(cls), s, i);
      CatLast(Star(One(cls)), rest, s, i, []);
    }
  }

  /** `c+` matches exactly the maximal runs of its class. */
  lemma PlusRun(cls: Class, s: string, i: nat)
    requires i <= |s|
    ensures var ends := Ends(Plus(One(cls)), s, i);
      if i < |s| && cls.Has(s[i]) then ends != [] && ends[0] == RunEnd(cls, s, i) else ends == []
  {
    if i < |s| && cls.Has(s[i]) {
      CatOne(One(cls), Star(One(cls)), s, i, i + 1);
      StarFirst(cls, s, i + 1);
    }
  }

  lemma {:induction false} StarFirst(cls: Class, s: string, i: nat)
    requires i <= |s|
    ensures Ends(Star(One(cls)), s, i) != []
    ensures Ends(Star(One(cls)), s, i)[0] == RunEnd(cls, s, i)
    decreases |s| - i
  {
    if i < |s| && cls.Has(s[i]) {
      StarStep(One(cls), s, i, i + 1);
      StarFirst(cls, s, i + 1);
    } else {
      StarStop(One(cls), s, i);
    }
  }

  /** `w` occurs at `i`, up to ASCII case when `fold`. */
  predicate OccursAt(w: string, fold: bool, s: string, i: nat) {
    && i + |w| <= |s|
    && forall k | 0 <= k < |w| :: CharClass(w[k], fold).Has(s[i + k])
  }

  /** With the flag, a character in lower case stands for both its cases. */
  lemma FoldIsLower(c: char, d: char)
    requires c !in UPPER
    ensures CharClass(c, true).Has(d) <==> LowerChar(d) == c
  {
  }

  /** `w`, in lower case, stands at `i` in any mixture of cases. */
  predicate Spelled(w: string, s: string, i: nat) {
    i + |w| <= |s| && Lower(s)[i..i + |w|] == w
  }

  /** With the flag a word in lower case occurs exactly where the lower-cased text has it. */
  lemma FoldIgnoresCase(w: string, s: string, i: nat)
    requires forall k | 0 <= k < |w| :: w[k] !in UPPER
    ensures OccursAt(w, true, s, i) <==> Spelled(w, s, i)
  {
    if i + |w| <= |s| {
      var part := Lower(s)[i..i + |w|];
      forall k | 0 <= k < |w| ensures part[k] == w[k] <==> CharClass(w[k], true).Has(s[i + k]) {
        FoldIsLower(w[k], s[i + k]);
      }
      if part == w {
        forall k | 0 <= k < |w| ensures CharClass(w[k], true).Has(s[i + k]) {
          assert part[k] == w[k];
        }
      }
    }
  }

  lemma OccursTail(w: string, fold: bool, s: string, i: nat)
    requires w != ""
    ensures OccursAt(w, fold, s, i) <==>
            i < |s| && CharClass(w[0], fold).Has(s[i]) && OccursAt(w[1..], fold, s, i + 1)
  {
    if OccursAt(w, fold, s, i) {
      assert CharClass(w[0], fold).Has(s[i + 0]);
      forall k | 0 <= k < |w[1..]| ensures CharClass(w[1..][k], fold).Has(s[i + 1 + k]) {
        assert CharClass(w[k + 1], fold).Has(s[i + (k + 1)]);
      }
    }
    if i < |s| && CharClass(w[0], fold).Has(s[i]) && OccursAt(w[1..], fold, s, i + 1) {
      forall k | 0 <= k < |w| ensures CharClass(w[k], fold).Has(s[i + k]) {
        if k > 0 {
          assert CharClass(w[1..][k - 1], fold).Has(s[i + 1 + (k - 1)]);
        }
      }
    }
  }

  lemma OneThen(cls: Class, rest: Regex, s: string, i: nat)
    requires i <= |s|
    ensures Ends(Cat(One(cls), rest), s, i) == if i < |s| && cls.Has(s[i]) then Ends(rest, s, i + 1) else []
  {
    if i < |s| && cls.Has(s[i]) {
      CatOne(One(cls), rest, s, i, i + 1);
    } else {
      CatNone(One(cls), rest, s, i);
    }
  }

  lemma LiteralStep(w: string, fold: bool, s: string, i: nat)
    requires i <= |s|
    ensures Ends(Literal(w, fold), s, i) ==
      if w == "" then [i]
      else if i < |s| && CharClass(w[0], fold).Has(s[i]) then Ends(Literal(w[1..], fold), s, i + 1)
      else []
  {
    if w == "" {
      assert Literal(w, fold) == Test(Always);
    } else {
      OneThen(CharClass(w[0], fold), Literal(w[1..], fold), s, i);
    }
  }

  /** `ends` takes one character of `w` at a time. */
  predicate ByCharacter(ends: (string, nat) -> seq<nat>, w: string, fold: bool, s: string, i: nat)
    requires i <= |s|
  {
    ends(w, i) ==
      if w == "" then [i]
      else if i < |s| && CharClass(w[0], fold).Has(s[i]) then ends(w[1..], i + 1)
      else []
  }

  lemma {:induction false} EndsOfWord(ends: (string, nat) -> seq<nat>, w: string, fold: bool, s: string, i: nat)
    requires i <= |s| && forall v, k | 0 <= k <= |s| :: ByCharacter(ends, v, fold, s, k)
    ensures ends(w, i) == if OccursAt(w, fold, s, i) then [i + |w|] else []
  {
    assert ByCharacter(ends, w, fold, s, i);
    if w != "" {
      OccursTail(w, fold, s, i);
      if i < |s| {
        EndsOfWord(ends, w[1..], fold, s, i + 1);
      }
    }
  }

  lemma LiteralEnds(w: string, fold: bool, s: string, i: nat)
    requires i <= |s|
    ensures Ends(Literal(w, fold), s, i) == if OccursAt(w, fold, s, i) then [i + |w|] else []
  {
    var ends := (v: string, k: nat) => if k <= |s| then Ends(Literal(v, fold), s, k) else [];
    forall v, k | 0 <= k <= |s| ensures ByCharacter(ends, v, fold, s, k) {
      LiteralStep(v, fold, s, k);
    }
    EndsOfWord(ends, w, fold, s, i);
  }

  lemma CopyStep(r: Regex, s: string, i: nat, sub: string)
    requires i <= |s|
    requires Ends(r, s, i) == []
    ensures ReplaceAll(r, s, i, sub) == if i == |s| then "" else [s[i]] + ReplaceAll(r, s, i + 1, sub)
  {
  }

  lemma MatchStep(r: Regex, s: string, i: nat, sub: string, e: nat)
    requires i < e <= |s|
    requires Ends(r, s, i) != [] && Ends(r, s, i)[0] == e
    ensures ReplaceAll(r, s, i, sub) == sub + ReplaceAll(r, s, e, sub)
  {
  }

  lemma CopyFront(m: Matcher, s: string, i: nat, k: nat, sub: string, rest: string)
    requires i < k <= |s| && m(i) == []
    requires ReplaceWith(m, s, i + 1, sub) == s[i + 1..k] + rest
    ensures ReplaceWith(m, s, i, sub) == s[i..k] + rest
  {
    CopyOne(s, i, k, rest);
  }

  lemma {:induction false} CopyUnmatched(m: Matcher, s: string, i: nat, k: nat, sub: string)
    requires i <= k <= |s| && forall j | i <= j < k :: m(j) == []
    ensures ReplaceWith(m, s, i, sub) == s[i..k] + ReplaceWith(m, s, k, sub)
    decreases k - i
  {
    if i < k {
      CopyUnmatched(m, s, i + 1, k, sub);
      CopyFront(m, s, i, k, sub, ReplaceWith(m, s, k, sub));
    } else {
      assert s[i..k] == "";
    }
  }

  /** Where nothing matches the text is copied. */
  lemma CopyRun(r: Regex, s: string, i: nat, k: nat, sub: string)
    requires i <= k <= |s|
    requires forall j | i <= j < k :: Ends(r, s, j) == []
    ensures ReplaceAll(r, s, i, sub) == s[i..k] + ReplaceAll(r, s, k, sub)
  {
    CopyUnmatched(MatcherOf(r, s), s, i, k, sub);
  }

  lemma CopyOne(s: string, i: nat, k: nat, rest: string)
    requires i < k <= |s|
    ensures [s[i]] + (s[i + 1..k] + rest) == s[i..k] + rest
  {
    assert [s[i]] + s[i + 1..k] == s[i..k];
  }

  lemma NoMatchKeeps(r: Regex, s: string, sub: string)
    requires forall k | 0 <= k <= |s| :: Ends(r, s, k) == []
    ensures ReplaceAll(r, s, 0, sub) == s
  {
    CopyRun(r, s, 0, |s|, sub);
    CopyStep(r, s, |s|, sub);
    assert s[0..|s|] + "" == s;
  }
}
