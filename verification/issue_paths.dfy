/**
  Validation issue paths in dot/bracket notation: the printer of the hatchet exceptions, and a parser
  that inverts it on every path whose keys the notation can express.
 */
module IssuePaths {
  import opened Options
  import opened Regex
  import opened TextRuns

  datatype Segment = Index(n: nat) | Key(text: string) | Symbol(description: string)

  /** A path entry is a key, or an object that holds one. */
  datatype PathEntry = Bare(key: Segment) | Wrapped(key: Segment)

  datatype RawIssue = RawIssue(message: string, path: Option<seq<PathEntry>>)

  datatype ValidationIssue = ValidationIssue(message: string, path: Option<string>)

  function Digits(n: nat): string {
    if n < 10 then [('0' as int + n) as char] else Digits(n / 10) + [('0' as int + n % 10) as char]
  }

  function Text(seg: Segment): string
    requires !seg.Index?
  {
    if seg.Symbol? then "Symbol(" + seg.description + ")" else seg.text
  }

  function AppendSegment(result: string, seg: Segment): string {
    if seg.Index? then result + ("[" + Digits(seg.n) + "]")
    else if result == "" then Text(seg)
    else result + ("." + Text(seg))
  }

  function Formatted(segments: seq<Segment>): string {
    if segments == [] then ""
    else AppendSegment(Formatted(segments[..|segments| - 1]), segments[|segments| - 1])
  }

  method FormatPath(segments: seq<Segment>) returns (result: string)
    ensures result == Formatted(segments)
  {
    result := "";
    for i := 0 to |segments|
      invariant result == Formatted(segments[..i])
    {
      var segment := segments[i];
      assert segments[..i + 1][..i] == segments[..i];
      if segment.Index? {
        result := result + ("[" + Digits(segment.n) + "]");
        continue;
      }
      var asString := Text(segment);
      if |result| == 0 {
        result := asString;
      } else {
        result := result + ("." + asString);
      }
    }
    assert segments[..|segments|] == segments;
  }

  // ----- the parser

  const DIGIT := In(DIGITS)
  const KEY_CHAR := NotIn({'.', '['})

  /** The keys that dot/bracket notation can express. */
  predicate CleanSegment(seg: Segment) {
    match seg
    case Index(_) => true
    case Key(text) => Word(KEY_CHAR, text)
    case Symbol(_) => false
  }

  predicate Clean(segments: seq<Segment>) {
    forall i | 0 <= i < |segments| :: CleanSegment(segments[i])
  }

  function Value(ds: string): nat
    requires Word(DIGIT, ds) || ds == ""
  {
    if ds == "" then 0
    else Value(ds[..|ds| - 1]) * 10 + (ds[|ds| - 1] as int - '0' as int)
  }

  datatype Token = Token(seg: Segment, next: nat)

  /** Where the key starts that is read at `i`: behind its dot, except at the beginning. */
  function KeyStart(i: nat): nat {
    if i > 0 then i + 1 else 0
  }

  /** Reads one segment at `i`: `[digits]`, or a key, introduced by a dot unless it is first. */
  function NextSegment(s: string, i: nat): (t: Option<Token>)
    requires i < |s|
    ensures t.Some? ==> i < t.value.next <= |s|
  {
    if s[i] == '[' then
      var e := RunEnd(DIGIT, s, i + 1);
      if e == i + 1 || e == |s| || s[e] != ']' || Digits(Value(s[i + 1..e])) != s[i + 1..e] then None
      else Some(Token(Index(Value(s[i + 1..e])), e + 1))
    else if i > 0 && s[i] != '.' then None
    else
      var e := RunEnd(KEY_CHAR, s, KeyStart(i));
      if e == KeyStart(i) then None else Some(Token(Key(s[KeyStart(i)..e]), e))
  }

  function Prepend(seg: Segment, rest: Option<seq<Segment>>): Option<seq<Segment>> {
    if rest.Some? then Some([seg] + rest.value) else None
  }

  function ParseFrom(s: string, i: nat): Option<seq<Segment>>
    requires i <= |s|
    decreases |s| - i
  {
    if i == |s| then Some([])
    else match NextSegment(s, i)
      case None => None
      case Some(Token(seg, next)) => Prepend(seg, ParseFrom(s, next))
  }

  function ParsePath(s: string): Option<seq<Segment>> {
    ParseFrom(s, 0)
  }

  // ----- printing as a concatenation of pieces

  function Piece(seg: Segment, first: bool): string {
    if seg.Index? then "[" + Digits(seg.n) + "]"
    else if first then Text(seg)
    else "." + Text(seg)
  }

  function Pieces(segments: seq<Segment>, first: bool): string {
    if segments == [] then ""
    else Piece(segments[0], first) + Pieces(segments[1..], false)
  }

  lemma {:induction false} PiecesSnoc(segments: seq<Segment>, last: Segment, first: bool)
    ensures Pieces(segments + [last], first) == Pieces(segments, first) + Piece(last, first && segments == [])
    decreases segments
  {
    if segments == [] {
      assert [last][1..] == [] && segments + [last] == [last];
      assert Pieces([last], first) == Piece(last, first) + "";
    } else {
      assert (segments + [last])[1..] == segments[1..] + [last];
      PiecesSnoc(segments[1..], last, false);
    }
  }

  lemma {:induction false} FormattedIsPieces(segments: seq<Segment>)
    requires Clean(segments)
    ensures Formatted(segments) == Pieces(segments, true)
    ensures Formatted(segments) == "" <==> segments == []
    decreases |segments|
  {
    if segments != [] {
      var pre, last := segments[..|segments| - 1], segments[|segments| - 1];
      assert segments == pre + [last];
      assert CleanSegment(last);
      FormattedIsPieces(pre);
      PiecesSnoc(pre, last, true);
      if pre == [] {
        assert "" + Piece(last, true) == Piece(last, true);
      }
    }
  }

  // ----- round trips

  lemma {:induction false} DigitsAreDigits(n: nat)
    ensures Word(DIGIT, Digits(n)) && Value(Digits(n)) == n
  {
    var last := ('0' as int + n % 10) as char;
    assert last in DIGITS;
    if n < 10 {
      assert Digits(n)[..0] == "";
    } else {
      DigitsAreDigits(n / 10);
      assert Digits(n)[..|Digits(n)| - 1] == Digits(n / 10);
    }
  }

  /** No leading zeros. */
  lemma {:induction false} DigitsStart(n: nat)
    ensures Digits(n)[0] == '0' <==> n == 0
  {
    if n >= 10 {
      DigitsStart(n / 10);
    }
  }

  lemma NextIndex(s: string, i: nat, n: nat, e: nat)
    requires i < e < |s| && s[i] == '[' && s[e] == ']' && s[i + 1..e] == Digits(n)
    ensures NextSegment(s, i) == Some(Token(Index(n), e + 1))
  {
    DigitsAreDigits(n);
    forall k | i + 1 <= k < e ensures DIGIT.Has(s[k]) {
      assert s[k] == s[i + 1..e][k - i - 1];
    }
    RunEndAt(DIGIT, s, i + 1, e);
  }

  lemma NextKey(s: string, i: nat, key: string, e: nat)
    requires i < |s| && KeyStart(i) <= e <= |s| && s[KeyStart(i)..e] == key && Word(KEY_CHAR, key)
    requires i > 0 ==> s[i] == '.'
    requires e < |s| ==> !KEY_CHAR.Has(s[e])
    ensures NextSegment(s, i) == Some(Token(Key(key), e))
  {
    forall k | KeyStart(i) <= k < e ensures KEY_CHAR.Has(s[k]) {
      assert s[k] == s[KeyStart(i)..e][k - KeyStart(i)];
    }
    RunEndAt(KEY_CHAR, s, KeyStart(i), e);
  }

  lemma Slice(s: string, i: nat, n: nat, a: nat, b: nat)
    requires i <= n <= |s| && a <= b <= n - i
    ensures s[i..n][a..b] == s[i + a..i + b]
  {
    var t, u := s[i..n][a..b], s[i + a..i + b];
    assert |t| == |u|;
    forall k | 0 <= k < |t| ensures t[k] == u[k] {
      assert t[k] == s[i..n][a + k] == s[i + (a + k)];
      assert u[k] == s[i + a + k];
    }
  }

  /** A printed segment is read back, if a dot, a bracket or the end follows. */
  lemma NextPiece(s: string, i: nat, seg: Segment, next: nat)
    requires CleanSegment(seg) && i < next <= |s| && s[i..next] == Piece(seg, i == 0)
    requires next < |s| ==> !KEY_CHAR.Has(s[next])
    ensures NextSegment(s, i) == Some(Token(seg, next))
  {
    var piece := s[i..next];
    assert s[i] == piece[0];
    if seg.Index? {
      assert s[next - 1] == piece[|piece| - 1];
      assert piece[1..|piece| - 1] == Digits(seg.n);
      Slice(s, i, next, 1, |piece| - 1);
      NextIndex(s, i, seg.n, next - 1);
    } else {
      if i > 0 {
        assert s[i + 1..next] == piece[1..] == seg.text;
      }
      NextKey(s, i, seg.text, next);
    }
  }

  lemma TokenPiece(s: string, i: nat)
    requires i < |s| && NextSegment(s, i).Some?
    ensures var t := NextSegment(s, i).value;
      s[i..t.next] == Piece(t.seg, i == 0) && CleanSegment(t.seg)
  {
    var t := NextSegment(s, i).value;
    if s[i] == '[' {
      assert s[i..t.next] == "[" + s[i + 1..t.next - 1] + "]";
    } else if i > 0 {
      assert s[i..t.next] == "." + s[i + 1..t.next];
    }
  }

  lemma PieceNotEmpty(seg: Segment, first: bool)
    requires CleanSegment(seg)
    ensures Piece(seg, first) != ""
    ensures !first ==> !KEY_CHAR.Has(Piece(seg, first)[0])
  {
  }

  /** The first piece stands at `i` and the others follow it. */
  lemma PieceInFront(s: string, i: nat, segments: seq<Segment>)
    requires segments != [] && Clean(segments) && i <= |s| && s[i..] == Pieces(segments, i == 0)
    ensures var next := i + |Piece(segments[0], i == 0)|;
      && i < next <= |s|
      && s[i..next] == Piece(segments[0], i == 0)
      && s[next..] == Pieces(segments[1..], false)
  {
    var piece, rest := Piece(segments[0], i == 0), Pieces(segments[1..], false);
    var next := i + |piece|;
    assert CleanSegment(segments[0]);
    PieceNotEmpty(segments[0], i == 0);
    assert s[i..] == piece + rest;
    assert s[i..next] == s[i..][..|piece|] == piece;
    assert s[next..] == s[i..][|piece|..] == rest;
  }

  lemma PiecesEndKeys(s: string, i: nat, segments: seq<Segment>)
    requires Clean(segments) && i < |s| && s[i..] == Pieces(segments, false)
    ensures !KEY_CHAR.Has(s[i])
  {
    assert s[i..][0] == s[i];
    assert CleanSegment(segments[0]);
    PieceNotEmpty(segments[0], false);
  }

  lemma PieceParses(s: string, i: nat, seg: Segment, next: nat, rest: seq<Segment>)
    requires i < next <= |s| && CleanSegment(seg) && Clean(rest)
    requires s[i..next] == Piece(seg, i == 0) && s[next..] == Pieces(rest, false)
    ensures NextSegment(s, i) == Some(Token(seg, next))
  {
    if next < |s| {
      PiecesEndKeys(s, next, rest);
    }
    NextPiece(s, i, seg, next);
  }

  lemma ParseStep(s: string, i: nat, segments: seq<Segment>, next: nat)
    requires segments != [] && i < next <= |s|
    requires NextSegment(s, i) == Some(Token(segments[0], next)) && ParseFrom(s, next) == Some(segments[1..])
    ensures ParseFrom(s, i) == Some(segments)
  {
    assert [segments[0]] + segments[1..] == segments;
  }

  lemma FirstToken(s: string, i: nat, segments: seq<Segment>) returns (next: nat)
    requires segments != [] && Clean(segments) && i <= |s| && s[i..] == Pieces(segments, i == 0)
    ensures i < next <= |s| && NextSegment(s, i) == Some(Token(segments[0], next))
    ensures Clean(segments[1..]) && s[next..] == Pieces(segments[1..], next == 0)
  {
    next := i + |Piece(segments[0], i == 0)|;
    PieceInFront(s, i, segments);
    assert CleanSegment(segments[0]);
    PieceParses(s, i, segments[0], next, segments[1..]);
  }

  lemma {:induction false} ParsePieces(s: string, i: nat, segments: seq<Segment>)
    requires Clean(segments) && i <= |s| && s[i..] == Pieces(segments, i == 0)
    ensures ParseFrom(s, i) == Some(segments)
    decreases segments
  {
    if segments != [] {
      var next := FirstToken(s, i, segments);
      ParsePieces(s, next, segments[1..]);
      ParseStep(s, i, segments, next);
    }
  }

  lemma {:induction false} ParsedIsClean(s: string, i: nat)
    requires i <= |s| && ParseFrom(s, i).Some?
    ensures Clean(ParseFrom(s, i).value)
    ensures s[i..] == Pieces(ParseFrom(s, i).value, i == 0)
    decreases |s| - i
  {
    if i < |s| {
      var t := NextSegment(s, i).value;
      var rest := ParseFrom(s, t.next).value;
      ParsedIsClean(s, t.next);
      TokenPiece(s, i);
      PiecesCons(t.seg, rest, i == 0);
      SplitAt(s, i, t.next);
    }
  }

  lemma PiecesCons(seg: Segment, rest: seq<Segment>, first: bool)
    requires CleanSegment(seg) && Clean(rest)
    ensures Pieces([seg] + rest, first) == Piece(seg, first) + Pieces(rest, false)
    ensures Clean([seg] + rest)
  {
    assert ([seg] + rest)[1..] == rest;
  }

  lemma SplitAt(s: string, i: nat, k: nat)
    requires i <= k <= |s|
    ensures s[i..] == s[i..k] + s[k..]
  {
  }

  /** The parser recovers a path from its rendering exactly when every key is clean. */
  lemma RoundTrip(segments: seq<Segment>)
    ensures ParsePath(Formatted(segments)) == Some(segments) <==> Clean(segments)
  {
    if Clean(segments) {
      FormattedIsPieces(segments);
      assert Formatted(segments)[0..] == Formatted(segments);
      ParsePieces(Formatted(segments), 0, segments);
    } else if ParsePath(Formatted(segments)) == Some(segments) {
      ParsedIsClean(Formatted(segments), 0);
    }
  }

  /** Whatever the parser accepts is the rendering of the clean path it returns. */
  lemma ParseSound(s: string)
    requires ParsePath(s).Some?
    ensures Clean(ParsePath(s).value) && Formatted(ParsePath(s).value) == s
  {
    ParsedIsClean(s, 0);
    FormattedIsPieces(ParsePath(s).value);
    assert s[0..] == s;
  }

  lemma RenderingInjective(a: seq<Segment>, b: seq<Segment>)
    requires Clean(a) && Clean(b) && Formatted(a) == Formatted(b)
    ensures a == b
  {
    RoundTrip(a);
    RoundTrip(b);
  }

  lemma FormattedSnoc(p: seq<Segment>, seg: Segment)
    ensures Formatted(p + [seg]) == AppendSegment(Formatted(p), seg)
  {
    assert (p + [seg])[..|p|] == p;
  }

  lemma FrontOfAppend(p: seq<Segment>, post: seq<Segment>)
    requires post != []
    ensures (p + post)[..|p + post| - 1] == p + post[..|post| - 1]
  {
  }

  lemma FormattedAppend(p: seq<Segment>, post: seq<Segment>)
    requires post != []
    ensures Formatted(p + post) == AppendSegment(Formatted(p + post[..|post| - 1]), post[|post| - 1])
  {
    FrontOfAppend(p, post);
  }

  /** Paths that look alike still do so when the same segments follow. */
  lemma {:induction false} AlikeExtended(p: seq<Segment>, q: seq<Segment>, post: seq<Segment>)
    requires Formatted(p) == Formatted(q)
    ensures Formatted(p + post) == Formatted(q + post)
    decreases |post|
  {
    if post == [] {
      assert p + post == p && q + post == q;
    } else {
      AlikeExtended(p, q, post[..|post| - 1]);
      FormattedAppend(p, post);
      FormattedAppend(q, post);
    }
  }

  lemma Regroup(x: string, dot: string, a: string, tail: string)
    ensures x + (dot + (a + tail)) == x + (dot + a) + tail
  {
  }

  lemma SplitAtDot(x: string, a: string, b: string)
    requires a != "" || x != ""
    ensures AppendSegment(x, Key(a + ("." + b))) == AppendSegment(AppendSegment(x, Key(a)), Key(b))
  {
    if x != "" {
      Regroup(x, ".", a, "." + b);
      assert AppendSegment(x, Key(a)) == x + ("." + a);
    } else {
      assert AppendSegment(x, Key(a)) == a;
    }
  }

  lemma SplitAtBracket(x: string, a: string, n: nat)
    ensures AppendSegment(x, Key(a + ("[" + Digits(n) + "]"))) == AppendSegment(AppendSegment(x, Key(a)), Index(n))
  {
    if x != "" {
      Regroup(x, ".", a, "[" + Digits(n) + "]");
    }
  }

  /** If `seg` prints like `key` and `next` behind `pre`, the paths with them look alike. */
  lemma AlikeBetween(pre: seq<Segment>, seg: Segment, key: Segment, next: Segment, post: seq<Segment>)
    requires AppendSegment(Formatted(pre), seg) == AppendSegment(AppendSegment(Formatted(pre), key), next)
    ensures Formatted(pre + [seg] + post) == Formatted(pre + [key, next] + post)
  {
    FormattedSnoc(pre, seg);
    FormattedSnoc(pre, key);
    FormattedSnoc(pre + [key], next);
    assert pre + [key, next] == pre + [key] + [next];
    AlikeExtended(pre + [seg], pre + [key, next], post);
  }

  /**
    Outside the clean keys different paths look alike, wherever such a key stands: an empty first key
    leaves no trace, a dot or a bracketed index in a key splits it, and a symbol reads as a key.
   */
  lemma UncleanKeysCollide(pre: seq<Segment>, a: string, b: string, n: nat, post: seq<Segment>)
    ensures Formatted([Key("")] + post) == Formatted(post)
    ensures a != "" || Formatted(pre) != "" ==>
      Formatted(pre + [Key(a + ("." + b))] + post) == Formatted(pre + [Key(a), Key(b)] + post)
    ensures Formatted(pre + [Key(a + ("[" + Digits(n) + "]"))] + post) == Formatted(pre + [Key(a), Index(n)] + post)
    ensures Formatted(pre + [Key("Symbol(" + a + ")")] + post) == Formatted(pre + [Symbol(a)] + post)
  {
    FormattedSnoc([], Key(""));
    AlikeExtended([Key("")], [], post);
    assert [] + post == post && [] + [Key("")] == [Key("")];
    if a != "" || Formatted(pre) != "" {
      SplitAtDot(Formatted(pre), a, b);
      AlikeBetween(pre, Key(a + ("." + b)), Key(a), Key(b), post);
    }
    SplitAtBracket(Formatted(pre), a, n);
    AlikeBetween(pre, Key(a + ("[" + Digits(n) + "]")), Key(a), Index(n), post);
    FormattedSnoc(pre, Symbol(a));
    FormattedSnoc(pre, Key("Symbol(" + a + ")"));
    AlikeExtended(pre + [Key("Symbol(" + a + ")")], pre + [Symbol(a)], post);
  }

  // ----- issues

  function SegmentsOf(issue: RawIssue): (segments: seq<Segment>)
    ensures issue.path == None ==> segments == []
    ensures issue.path.Some? ==> Unwraps(issue.path.value, segments)
  {
    match issue.path
    case Some(entries) => seq(|entries|, i requires 0 <= i < |entries| => entries[i].key)
    case None => []
  }

  /** Segment `i` is entry `i`, or the key that the object there holds. */
  predicate Unwraps(entries: seq<PathEntry>, segments: seq<Segment>) {
    && |segments| == |entries|
    && forall i | 0 <= i < |entries| :: entries[i] == Bare(segments[i]) || entries[i] == Wrapped(segments[i])
  }

  /** The message is kept; the path is printed, and omitted exactly when it is missing or empty. */
  ghost predicate Normalized(raw: RawIssue, issue: ValidationIssue) {
    && issue.message == raw.message
    && (issue.path == None <==> raw.path == None || raw.path == Some([]))
    && (issue.path.Some? ==>
          exists segments :: raw.path.Some? && Unwraps(raw.path.value, segments) && issue.path.value == Formatted(segments))
  }

  method NormalizeIssues(raw: seq<RawIssue>) returns (issues: seq<ValidationIssue>)
    ensures |issues| == |raw|
    ensures forall i | 0 <= i < |raw| :: Normalized(raw[i], issues[i])
  {
    issues := [];
    for i := 0 to |raw|
      invariant |issues| == i
      invariant forall j | 0 <= j < i :: Normalized(raw[j], issues[j])
    {
      var segments := SegmentsOf(raw[i]);
      if |segments| == 0 {
        issues := issues + [ValidationIssue(raw[i].message, None)];
      } else {
        var path := FormatPath(segments);
        assert Unwraps(raw[i].path.value, segments);
        issues := issues + [ValidationIssue(raw[i].message, Some(path))];
      }
    }
  }
}
