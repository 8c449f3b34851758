/** The command extractor of `CmdAgent.extract_commands`: every match of

      ```execute(\s+#feedback)?\s*(.*?)\s*```      (re.DOTALL, re.findall)

    in a model response becomes an `Item(command, needsFeedback)`.

    The regular expression is modelled twice. `MatchAt` and `Scan` are a
    left-to-right scanner. `IsParse`, `Precedes`, `Chosen` and `FindAll` say
    declaratively what Python's backtracking matcher and `findall` report:
    `IsParse` is membership in the pattern's language with the group
    boundaries made explicit, `Precedes` is the order in which backtracking
    tries the alternatives (greedy group 1, greedy `\s*`, lazy `.*?`, greedy
    `\s*`), and `findall` reports, left to right and without overlap, the
    first alternative that succeeds at the leftmost possible start. */
module Extractor {
  import opened Wrappers
  import opened Text

  const Tag: string := "```execute"
  const Marker: string := "#feedback"
  const Fence: string := "```"

  /** One extracted command: the `(cmd, needs_feedback)` tuple of the source. */
  datatype Item = Item(command: string, needsFeedback: bool)

  /** The boundaries of one match: the match is `[start, end)`, group 1 is
      `[start + |Tag|, tagEnd)` (empty when it did not take part), group 2 is
      `[bodyStart, bodyEnd)` and the closing fence is `[end - 3, end)`. */
  datatype Parse = Parse(start: nat, tagEnd: nat, bodyStart: nat, bodyEnd: nat, end: nat)

  /** A closing fence starts at `i`, stated character by character. */
  predicate FenceAt(t: string, i: nat) {
    i + 3 <= |t| && t[i] == '`' && t[i + 1] == '`' && t[i + 2] == '`'
  }

  /** `FenceAt` is an occurrence of `Fence`. */
  lemma FenceAtSlice(t: string, i: nat)
    ensures FenceAt(t, i) <==> SliceIs(t, i, Fence)
  {
    if SliceIs(t, i, Fence) {
      SliceAt(t, i, Fence, 0);
      SliceAt(t, i, Fence, 1);
      SliceAt(t, i, Fence, 2);
    }
    if FenceAt(t, i) {
      assert t[i..i + 3] == Fence;
    }
  }

  predicate NoFence(t: string, a: nat, b: nat) {
    forall k :: a <= k < b ==> !FenceAt(t, k)
  }

  /** First closing fence at or after `i`. */
  function FindFence(t: string, i: nat): (r: Option<nat>)
    requires i <= |t|
    ensures r.Some? ==> i <= r.value && FenceAt(t, r.value) && NoFence(t, i, r.value)
    ensures r.None? ==> NoFence(t, i, |t|)
    decreases |t| - i
  {
    if |t| < i + |Fence| then None
    else if FenceAt(t, i) then Some(i)
    else FindFence(t, i + 1)
  }

  lemma {:induction false} FindFenceUnique(t: string, i: nat, c: nat)
    requires i <= c <= |t|
    requires FenceAt(t, c) && NoFence(t, i, c)
    ensures FindFence(t, i) == Some(c)
    decreases c - i
  {
    if i < c {
      FindFenceUnique(t, i + 1, c);
    }
  }

  // ------------------------------------------------------ the pattern, declaratively

  /** Group 1, `\s+#feedback`, spans `[a, b)`. */
  predicate FeedbackGroup(t: string, a: nat, b: nat) {
    && a + |Marker| < b <= |t|
    && SpaceBetween(t, a, b - |Marker|)
    && SliceIs(t, b - |Marker|, Marker)
  }

  /** One or more whitespace characters and then `#feedback` follow position `q`. */
  ghost predicate MarkerFollows(t: string, q: nat) {
    exists b: nat :: FeedbackGroup(t, q, b)
  }

  /** The groups of `m` lie in order inside `t`, with room for the closing fence. */
  predicate InBounds(t: string, m: Parse) {
    && m.start + |Tag| <= m.tagEnd <= m.bodyStart <= m.bodyEnd
    && m.bodyEnd + |Fence| <= m.end <= |t|
  }

  /** `t[m.start..m.end]` is in the language of the pattern, split into groups as `m` says. */
  predicate IsParse(t: string, m: Parse) {
    && InBounds(t, m)
    && SliceIs(t, m.start, Tag)
    && (m.tagEnd == m.start + |Tag| || FeedbackGroup(t, m.start + |Tag|, m.tagEnd))
    && SpaceBetween(t, m.tagEnd, m.bodyStart)
    && SpaceBetween(t, m.bodyEnd, m.end - |Fence|)
    && FenceAt(t, m.end - |Fence|)
  }

  /** Backtracking tries `m` before `n` (two parses from the same start):
      a longer group 1 first (taking the group before skipping it), then a
      longer leading `\s*`, then a shorter lazy body, then a longer trailing `\s*`. */
  predicate Precedes(m: Parse, n: Parse) {
    || m.tagEnd > n.tagEnd
    || (m.tagEnd == n.tagEnd && m.bodyStart > n.bodyStart)
    || (m.tagEnd == n.tagEnd && m.bodyStart == n.bodyStart && m.bodyEnd < n.bodyEnd)
    || (m.tagEnd == n.tagEnd && m.bodyStart == n.bodyStart && m.bodyEnd == n.bodyEnd && m.end > n.end)
  }

  /** `m` is the match Python reports at `m.start`: the first parse backtracking reaches. */
  ghost predicate Chosen(t: string, m: Parse) {
    IsParse(t, m) && forall n :: IsParse(t, n) && n.start == m.start ==> !Precedes(n, m)
  }

  /** No match of the pattern starts in `[a, b)`. */
  ghost predicate NoMatchIn(t: string, a: nat, b: nat) {
    forall n :: IsParse(t, n) ==> !(a <= n.start < b)
  }

  /** `ms` is what `re.findall` reports when it scans `t` from `p`: nothing
      when the pattern matches nowhere from `p` on; otherwise the chosen match
      at the leftmost start where the pattern matches, followed by what the
      search reports when it resumes where that match ended. */
  ghost predicate FindAll(t: string, p: nat, ms: seq<Parse>)
    decreases |ms|
  {
    if |ms| == 0 then NoMatchIn(t, p, |t| + 1)
    else
      && p <= ms[0].start
      && NoMatchIn(t, p, ms[0].start)
      && Chosen(t, ms[0])
      && FindAll(t, ms[0].end, ms[1..])
  }

  /** Somewhere an `execute` tag is followed, later, by a closing fence. */
  ghost predicate HasBlock(t: string) {
    exists s: nat, f: nat :: SliceIs(t, s, Tag) && s + |Tag| <= f && FenceAt(t, f)
  }

  // ------------------------------------------------------ the scanner

  /** Where group 1 ends when the match starts at `s`: after `\s+#feedback`
      when that follows the tag, otherwise right after the tag. */
  function TagEnd(t: string, s: nat): (e: nat)
    requires s + |Tag| <= |t|
    ensures s + |Tag| <= e <= |t|
    ensures e == s + |Tag| || FeedbackGroup(t, s + |Tag|, e)
  {
    var q := s + |Tag|;
    var k := SpanSpace(t, q);
    if q < k && SliceIs(t, k, Marker) then k + |Marker| else q
  }

  /** The match of the pattern at `s`, if there is one. */
  function MatchAt(t: string, s: nat): (r: Option<Parse>)
    requires s <= |t|
    ensures r.Some? ==> r.value.start == s && InBounds(t, r.value)
  {
    if !SliceIs(t, s, Tag) then None
    else
      var tagEnd := TagEnd(t, s);
      var bodyStart := SpanSpace(t, tagEnd);
      match FindFence(t, bodyStart)
      case None => None
      case Some(c) => Some(Parse(s, tagEnd, bodyStart, TrimBack(t, bodyStart, c), c + |Fence|))
  }

  /** All matches from `p` on, as `re.findall` finds them. */
  function Scan(t: string, p: nat): (ms: seq<Parse>)
    requires p <= |t|
    ensures forall k :: 0 <= k < |ms| ==> InBounds(t, ms[k]) && p <= ms[k].start
    decreases |t| - p
  {
    if p == |t| then []
    else
      match MatchAt(t, p)
      case Some(m) => [m] + Scan(t, m.end)
      case None => Scan(t, p + 1)
  }

  /** The tuple the source builds from one match: the stripped group 2 and
      whether the stripped group 1 is non-empty. */
  function ItemOf(t: string, m: Parse): Item
    requires InBounds(t, m)
  {
    Item(Strip(t[m.bodyStart..m.bodyEnd]), |Strip(t[m.start + |Tag|..m.tagEnd])| > 0)
  }

  function Matches(t: string): (ms: seq<Parse>)
    ensures forall k :: 0 <= k < |ms| ==> InBounds(t, ms[k])
  {
    Scan(t, 0)
  }

  /** The tuples built from a list of matches, in the same order. */
  function ItemsOf(t: string, ms: seq<Parse>): (items: seq<Item>)
    requires forall k :: 0 <= k < |ms| ==> InBounds(t, ms[k])
    ensures |items| == |ms|
    ensures forall k :: 0 <= k < |items| ==> items[k] == ItemOf(t, ms[k])
    decreases |ms|
  {
    if |ms| == 0 then []
    else
      var rest := ms[1..];
      assert forall k :: 0 <= k < |rest| ==> rest[k] == ms[k + 1];
      [ItemOf(t, ms[0])] + ItemsOf(t, rest)
  }

  /** `CmdAgent.extract_commands`. */
  function Extract(t: string): (items: seq<Item>)
    ensures |items| == |Matches(t)|
    ensures forall k :: 0 <= k < |items| ==> items[k] == ItemOf(t, Matches(t)[k])
  {
    ItemsOf(t, Matches(t))
  }

  // ------------------------------------------------------ the scanner is the regex

  /** Between the tag and group 2 there is only whitespace and `#feedback`:
      no closing fence can start there. */
  lemma NoBacktickBeforeBody(t: string, s: nat)
    requires SliceIs(t, s, Tag)
    ensures forall x :: s + |Tag| <= x < SpanSpace(t, TagEnd(t, s)) ==> t[x] != '`'
  {
    var q := s + |Tag|;
    var k := SpanSpace(t, q);
    var e := TagEnd(t, s);
    forall x | q <= x < SpanSpace(t, e)
      ensures t[x] != '`'
    {
      if x < k {
        assert IsSpace(t[x]);
      } else if x < e {
        SliceAt(t, k, Marker, x - k);
      } else {
        assert IsSpace(t[x]);
      }
    }
  }

  /** How the scanner builds its match at `m.start`: the tag and group 1 ... */
  lemma MatchAtHead(t: string, m: Parse)
    requires m.start <= |t| && MatchAt(t, m.start) == Some(m)
    ensures SliceIs(t, m.start, Tag)
    ensures m.tagEnd == TagEnd(t, m.start)
  {
  }

  /** ... then group 2 and the closing fence. */
  lemma MatchAtShape(t: string, m: Parse)
    requires m.start <= |t| && MatchAt(t, m.start) == Some(m)
    ensures SliceIs(t, m.start, Tag) && m.tagEnd == TagEnd(t, m.start)
    ensures m.bodyStart == SpanSpace(t, m.tagEnd)
    ensures FindFence(t, m.bodyStart).Some? && FindFence(t, m.bodyStart).value + |Fence| == m.end
    ensures m.bodyEnd == TrimBack(t, m.bodyStart, m.end - |Fence|)
  {
  }

  /** The scanner's match is a parse of the pattern. */
  lemma MatchAtParse(t: string, s: nat)
    requires s <= |t| && MatchAt(t, s).Some?
    ensures IsParse(t, MatchAt(t, s).value)
  {
    MatchAtShape(t, MatchAt(t, s).value);
  }

  /** An `execute` tag followed, at or after the tag, by a closing fence always yields a match. */
  lemma BlockMatches(t: string, s: nat, f: nat)
    requires SliceIs(t, s, Tag) && s + |Tag| <= f && FenceAt(t, f)
    ensures MatchAt(t, s).Some?
  {
    NoBacktickBeforeBody(t, s);
    FenceChar(t, f);
    assert SpanSpace(t, TagEnd(t, s)) <= f;
  }

  /** The scanner finds a match wherever the pattern matches at all. */
  lemma MatchAtComplete(t: string, n: Parse)
    requires IsParse(t, n)
    ensures MatchAt(t, n.start).Some?
  {
    BlockMatches(t, n.start, n.end - |Fence|);
  }

  /** Group 1 cannot end later than the scanner's group 1: a `#feedback`
      marker after whitespace is always where the whitespace run stops. */
  lemma GroupOneLongest(t: string, n: Parse)
    requires IsParse(t, n)
    ensures n.tagEnd <= TagEnd(t, n.start)
    ensures n.tagEnd == TagEnd(t, n.start) || n.tagEnd == n.start + |Tag|
  {
    var q := n.start + |Tag|;
    if n.tagEnd != q {
      var j := n.tagEnd - |Marker|;
      SliceAt(t, j, Marker, 0);
      SpanSpaceUnique(t, q, j);
    }
  }

  /** A closing fence starts with a backtick. */
  lemma FenceChar(t: string, c: nat)
    requires FenceAt(t, c)
    ensures c < |t| && t[c] == '`'
  {
  }

  /** A fence at or after `i` lies at or after any `c` with no fence in `[i, c)`. */
  lemma FirstFenceFirst(t: string, i: nat, c: nat, f: nat)
    requires i <= f && FenceAt(t, f) && NoFence(t, i, c)
    ensures c <= f
  {
  }

  /** With the same group 2 start, a parse's body ends no earlier, and its
      closing fence starts no later, than those of the scanner, which takes the
      first fence and trims the whitespace before it. */
  lemma BodyShortestFenceFirst(t: string, m: Parse, n: Parse)
    requires InBounds(t, n) && n.bodyStart == m.bodyStart && |Fence| <= m.end
    requires SpaceBetween(t, n.bodyEnd, n.end - |Fence|) && FenceAt(t, n.end - |Fence|)
    requires m.bodyStart <= m.end - |Fence| <= |t|
    requires FenceAt(t, m.end - |Fence|) && NoFence(t, m.bodyStart, m.end - |Fence|)
    requires m.bodyEnd == TrimBack(t, m.bodyStart, m.end - |Fence|)
    ensures m.bodyEnd <= n.bodyEnd
    ensures n.bodyEnd == m.bodyEnd ==> n.end <= m.end
  {
    FirstFenceFirst(t, m.bodyStart, m.end - |Fence|, n.end - |Fence|);
    TrimBackFirstStop(t, m.bodyStart, n.bodyEnd, m.end - |Fence|, n.end - |Fence|, '`');
  }

  /** No parse from the same start precedes the scanner's, given the
      scanner's match in the shape `MatchAtShape` describes. */
  lemma NotPrecededByAny(t: string, m: Parse, n: Parse)
    requires IsParse(t, n) && n.start == m.start
    requires m.tagEnd == TagEnd(t, m.start) && m.bodyStart == SpanSpace(t, m.tagEnd)
    requires |Fence| <= m.end && m.bodyStart <= m.end - |Fence| <= |t|
    requires FenceAt(t, m.end - |Fence|) && NoFence(t, m.bodyStart, m.end - |Fence|)
    requires m.bodyEnd == TrimBack(t, m.bodyStart, m.end - |Fence|)
    ensures !Precedes(n, m)
  {
    GroupOneLongest(t, n);
    if n.tagEnd == m.tagEnd {
      SpanSpaceCovers(t, m.tagEnd, n.bodyStart);
      if n.bodyStart == m.bodyStart {
        BodyShortestFenceFirst(t, m, n);
      }
    }
  }

  /** The scanner's match is the one backtracking reaches first. */
  lemma MatchAtChosen(t: string, s: nat)
    requires s <= |t| && MatchAt(t, s).Some?
    ensures Chosen(t, MatchAt(t, s).value)
  {
    var m := MatchAt(t, s).value;
    MatchAtParse(t, s);
    MatchAtShape(t, m);
    FoundFence(t, m.bodyStart, m.end);
    ShapeChosen(t, m);
  }

  /** The fence `FindFence` reports, as the facts about it the proofs use. */
  lemma FoundFence(t: string, i: nat, e: nat)
    requires i <= |t| && FindFence(t, i).Some? && FindFence(t, i).value + |Fence| == e
    ensures |Fence| <= e && i <= e - |Fence| <= |t|
    ensures FenceAt(t, e - |Fence|) && NoFence(t, i, e - |Fence|)
  {
  }

  /** A parse in the scanner's shape is the one backtracking reports. */
  lemma ShapeChosen(t: string, m: Parse)
    requires IsParse(t, m)
    requires m.tagEnd == TagEnd(t, m.start) && m.bodyStart == SpanSpace(t, m.tagEnd)
    requires |Fence| <= m.end && m.bodyStart <= m.end - |Fence| <= |t|
    requires FenceAt(t, m.end - |Fence|) && NoFence(t, m.bodyStart, m.end - |Fence|)
    requires m.bodyEnd == TrimBack(t, m.bodyStart, m.end - |Fence|)
    ensures Chosen(t, m)
  {
    forall n | IsParse(t, n) && n.start == m.start
      ensures !Precedes(n, m)
    {
      NotPrecededByAny(t, m, n);
    }
  }

  /** The scanner's match at a position is exactly the parse Python reports there. */
  lemma MatchAtIff(t: string, m: Parse)
    requires m.start <= |t|
    ensures MatchAt(t, m.start) == Some(m) <==> Chosen(t, m)
  {
    if Chosen(t, m) {
      MatchAtComplete(t, m);
      MatchAtChosen(t, m.start);
      var m' := MatchAt(t, m.start).value;
      assert !Precedes(m, m') && !Precedes(m', m);
      assert m' == m;
    }
    if MatchAt(t, m.start) == Some(m) {
      MatchAtChosen(t, m.start);
    }
  }

  /** A chosen match at `p` followed by what `findall` reports from its end
      is what `findall` reports from `p`. */
  lemma FindAllCons(t: string, p: nat, m: Parse, rest: seq<Parse>)
    requires Chosen(t, m) && m.start == p
    requires FindAll(t, m.end, rest)
    ensures FindAll(t, p, [m] + rest)
  {
    assert ([m] + rest)[1..] == rest;
  }

  /** Where nothing matches, `findall` moves on by one position. */
  lemma FindAllSkip(t: string, p: nat, ms: seq<Parse>)
    requires NoMatchIn(t, p, p + 1)
    requires FindAll(t, p + 1, ms)
    ensures FindAll(t, p, ms)
  {
  }

  /** `Scan` reports exactly what `re.findall` reports. */
  lemma {:induction false} ScanFindAll(t: string, p: nat)
    requires p <= |t|
    ensures FindAll(t, p, Scan(t, p))
    decreases |t| - p
  {
    if p == |t| {
      ScanAtEnd(t);
    } else if MatchAt(t, p).Some? {
      var m := MatchAt(t, p).value;
      ScanFindAll(t, m.end);
      ScanHit(t, p);
    } else {
      ScanFindAll(t, p + 1);
      ScanMiss(t, p);
    }
  }

  /** Nothing matches from the end of the text on. */
  lemma ScanAtEnd(t: string)
    ensures Scan(t, |t|) == [] && FindAll(t, |t|, [])
  {
  }

  /** Where the scanner finds a match, it reports what `findall` reports. */
  lemma ScanHit(t: string, p: nat)
    requires p < |t| && MatchAt(t, p).Some?
    requires FindAll(t, MatchAt(t, p).value.end, Scan(t, MatchAt(t, p).value.end))
    ensures FindAll(t, p, Scan(t, p))
  {
    var m := MatchAt(t, p).value;
    MatchAtChosen(t, p);
    ScanStep(t, p);
    FindAllCons(t, p, m, Scan(t, m.end));
  }

  /** Where the scanner finds no match, the pattern matches nowhere at that position. */
  lemma ScanMiss(t: string, p: nat)
    requires p < |t| && MatchAt(t, p).None?
    requires FindAll(t, p + 1, Scan(t, p + 1))
    ensures FindAll(t, p, Scan(t, p))
  {
    forall n | IsParse(t, n)
      ensures n.start != p
    {
      MatchAtComplete(t, n);
    }
    assert Scan(t, p) == Scan(t, p + 1);
    FindAllSkip(t, p, Scan(t, p + 1));
  }

  /** The matches behind `Extract` are the `findall` matches of the whole text. */
  lemma MatchesAreFindAll(t: string)
    ensures FindAll(t, 0, Matches(t))
  {
    ScanFindAll(t, 0);
  }

  /** `findall` reports nothing exactly when the pattern matches nowhere from `p` on. */
  lemma FindAllEmpty(t: string, p: nat, ms: seq<Parse>)
    requires FindAll(t, p, ms)
    ensures |ms| == 0 <==> NoMatchIn(t, p, |t| + 1)
  {
    if |ms| > 0 {
      assert IsParse(t, ms[0]) && p <= ms[0].start < |t| + 1;
    }
  }

  /** Two parses from `p` with no match before either start at the same place. */
  lemma LeftmostStart(t: string, p: nat, m1: Parse, m2: Parse)
    requires IsParse(t, m1) && IsParse(t, m2) && p <= m1.start && p <= m2.start
    requires NoMatchIn(t, p, m1.start) && NoMatchIn(t, p, m2.start)
    ensures m1.start == m2.start
  {
  }

  /** Backtracking order is total: at one start, only one parse comes first. */
  lemma ChosenUnique(t: string, m1: Parse, m2: Parse)
    requires Chosen(t, m1) && Chosen(t, m2) && m1.start == m2.start
    ensures m1 == m2
  {
    assert !Precedes(m1, m2) && !Precedes(m2, m1);
  }

  /** What `findall` reports is determined by the text: two lists that both
      satisfy `FindAll` from the same position are the same list. */
  lemma {:induction false} FindAllUnique(t: string, p: nat, ms1: seq<Parse>, ms2: seq<Parse>)
    requires FindAll(t, p, ms1) && FindAll(t, p, ms2)
    ensures ms1 == ms2
    decreases |ms1|
  {
    FindAllEmpty(t, p, ms1);
    FindAllEmpty(t, p, ms2);
    if |ms1| > 0 {
      var m1, m2 := ms1[0], ms2[0];
      LeftmostStart(t, p, m1, m2);
      ChosenUnique(t, m1, m2);
      FindAllUnique(t, m1.end, ms1[1..], ms2[1..]);
      assert ms1 == [m1] + ms1[1..] && ms2 == [m2] + ms2[1..];
    }
  }

  /** `extract_commands` builds its items from exactly the matches `findall`
      reports, in the order it reports them. */
  lemma ExtractIsFindAll(t: string, ms: seq<Parse>)
    requires FindAll(t, 0, ms)
    ensures Matches(t) == ms
    ensures Extract(t) == ItemsOf(t, ms)
  {
    MatchesAreFindAll(t);
    FindAllUnique(t, 0, Matches(t), ms);
  }

  // ------------------------------------------------------ properties of Extract

  /** The command of a reported match is its group 2, which is already
      stripped and holds no closing fence. */
  lemma ChosenCommand(t: string, m: Parse)
    requires Chosen(t, m)
    ensures ItemOf(t, m).command == t[m.bodyStart..m.bodyEnd]
    ensures IsStripped(ItemOf(t, m).command)
    ensures NoFence(ItemOf(t, m).command, 0, |ItemOf(t, m).command|)
  {
    MatchAtIff(t, m);
    ScannerCommand(t, m);
  }

  /** The command of the scanner's match is its group 2, stripped and without a fence. */
  lemma ScannerCommand(t: string, m: Parse)
    requires m.start <= |t| && MatchAt(t, m.start) == Some(m)
    ensures ItemOf(t, m).command == t[m.bodyStart..m.bodyEnd]
    ensures IsStripped(ItemOf(t, m).command)
    ensures NoFence(ItemOf(t, m).command, 0, |ItemOf(t, m).command|)
  {
    MatchAtShape(t, m);
    var body := t[m.bodyStart..m.bodyEnd];
    var c := m.end - |Fence|;
    SpanTrimStripped(t, m.tagEnd, c);
    StripKeepsStripped(body);
    NoFenceWithin(t, m.bodyStart, m.bodyEnd, c);
  }

  /** A piece of text without a fence start has none inside it either. */
  lemma NoFenceWithin(t: string, lo: nat, hi: nat, c: nat)
    requires lo <= hi <= c <= |t| && NoFence(t, lo, c)
    ensures NoFence(t[lo..hi], 0, hi - lo)
  {
    var body := t[lo..hi];
    forall x | 0 <= x < |body|
      ensures !FenceAt(body, x)
    {
      if x + |Fence| <= |body| {
        SliceWithin(t, lo, body, x, x + |Fence|);
        assert !FenceAt(t, lo + x);
      }
    }
  }

  /** Group 1 takes part exactly when whitespace and `#feedback` follow the tag. */
  lemma TagEndIffMarker(t: string, s: nat)
    requires SliceIs(t, s, Tag)
    ensures TagEnd(t, s) > s + |Tag| <==> MarkerFollows(t, s + |Tag|)
  {
    var q := s + |Tag|;
    if TagEnd(t, s) > q {
      assert FeedbackGroup(t, q, TagEnd(t, s));
    }
    if MarkerFollows(t, q) {
      var b: nat :| FeedbackGroup(t, q, b);
      var j := b - |Marker|;
      SliceAt(t, j, Marker, 0);
      SpanSpaceUnique(t, q, j);
    }
  }

  /** `bool(feedback_tag.strip())` holds exactly when group 1 took part. */
  lemma FlagIffGroup(t: string, m: Parse)
    requires InBounds(t, m)
    requires m.tagEnd == m.start + |Tag| || FeedbackGroup(t, m.start + |Tag|, m.tagEnd)
    ensures ItemOf(t, m).needsFeedback <==> m.tagEnd > m.start + |Tag|
  {
    var group := t[m.start + |Tag|..m.tagEnd];
    if m.tagEnd > m.start + |Tag| {
      var j := m.tagEnd - |Marker|;
      SliceAt(t, j, Marker, 0);
      assert group[j - m.start - |Tag|] == t[j];
    }
  }

  /** The flag of a reported match is set exactly when whitespace and then
      `#feedback` follow the tag. */
  lemma ChosenFlag(t: string, m: Parse)
    requires Chosen(t, m)
    ensures ItemOf(t, m).needsFeedback <==> MarkerFollows(t, m.start + |Tag|)
  {
    MatchAtIff(t, m);
    MatchAtHead(t, m);
    ScannerFlag(t, m);
  }

  /** The flag of a match whose group 1 ends where the scanner ends it is
      set exactly when whitespace and then `#feedback` follow the tag. */
  lemma ScannerFlag(t: string, m: Parse)
    requires InBounds(t, m) && SliceIs(t, m.start, Tag) && m.tagEnd == TagEnd(t, m.start)
    ensures ItemOf(t, m).needsFeedback <==> MarkerFollows(t, m.start + |Tag|)
  {
    TagEndIffMarker(t, m.start);
    FlagIffGroup(t, m);
  }

  /** Every match `findall` reports is the chosen parse at its start. */
  lemma {:induction false} FindAllChosen(t: string, p: nat, ms: seq<Parse>)
    requires FindAll(t, p, ms)
    ensures forall k :: 0 <= k < |ms| ==> Chosen(t, ms[k])
    decreases |ms|
  {
    if |ms| > 0 {
      FindAllChosen(t, ms[0].end, ms[1..]);
      forall k | 0 < k < |ms|
        ensures Chosen(t, ms[k])
      {
        assert ms[k] == ms[1..][k - 1];
      }
    }
  }

  /** `findall` resumes after the previous match, so each match ends no
      later than the next one starts. */
  lemma {:induction false} FindAllChained(t: string, p: nat, ms: seq<Parse>)
    requires FindAll(t, p, ms)
    ensures forall l :: 0 < l < |ms| ==> ms[l - 1].end <= ms[l].start
    decreases |ms|
  {
    if |ms| > 1 {
      FindAllChained(t, ms[0].end, ms[1..]);
      forall l | 1 < l < |ms|
        ensures ms[l - 1].end <= ms[l].start
      {
        assert ms[l - 1] == ms[1..][l - 2] && ms[l] == ms[1..][l - 1];
      }
    }
  }

  /** Every match `findall` reports from the whole text is the chosen parse at its start. */
  lemma MatchChosen(t: string, k: nat)
    requires k < |Matches(t)|
    ensures Chosen(t, Matches(t)[k])
  {
    MatchesAreFindAll(t);
    FindAllChosen(t, 0, Matches(t));
  }

  /** Wherever the pattern matches, `findall` reports something. */
  lemma ParseIsFound(t: string, n: Parse)
    requires IsParse(t, n)
    ensures |Matches(t)| > 0
  {
    MatchesAreFindAll(t);
    assert n.start < |t| + 1;
  }

  /** The first match is an `execute` tag followed by a closing fence. */
  lemma FirstMatchIsBlock(t: string)
    requires |Matches(t)| > 0
    ensures HasBlock(t)
  {
    MatchChosen(t, 0);
    ParseIsBlock(t, Matches(t)[0]);
  }

  /** A match of the pattern is an `execute` tag followed by a closing fence. */
  lemma ParseIsBlock(t: string, m: Parse)
    requires IsParse(t, m)
    ensures HasBlock(t)
  {
    assert SliceIs(t, m.start, Tag) && m.start + |Tag| <= m.end - |Fence| && FenceAt(t, m.end - |Fence|);
  }

  /** An `execute` tag followed by a closing fence is always reported. */
  lemma BlockIsFound(t: string)
    requires HasBlock(t)
    ensures |Matches(t)| > 0
  {
    var s: nat, f: nat :| SliceIs(t, s, Tag) && s + |Tag| <= f && FenceAt(t, f);
    BlockMatches(t, s, f);
    MatchAtParse(t, s);
    ParseIsFound(t, MatchAt(t, s).value);
  }

  /** Text with no `execute` tag followed later by a closing fence yields no
      commands, and any text with one yields at least one. */
  lemma ExtractEmptyIff(t: string)
    ensures Extract(t) == [] <==> !HasBlock(t)
  {
    if |Matches(t)| > 0 {
      FirstMatchIsBlock(t);
    }
    if HasBlock(t) {
      BlockIsFound(t);
    }
  }

  /** Each match ends no later than the next one starts. */
  lemma MatchesChained(t: string)
    ensures forall l :: 0 < l < |Matches(t)| ==> Matches(t)[l - 1].end <= Matches(t)[l].start
  {
    MatchesAreFindAll(t);
    FindAllChained(t, 0, Matches(t));
  }

  lemma {:induction false} ChainedInOrder(ms: seq<Parse>, k: nat, l: nat)
    requires forall i :: 0 < i < |ms| ==> ms[i - 1].end <= ms[i].start
    requires forall i :: 0 <= i < |ms| ==> ms[i].start < ms[i].end
    requires k < l < |ms|
    ensures ms[k].end <= ms[l].start
    decreases l - k
  {
    if k + 1 < l {
      ChainedInOrder(ms, k, l - 1);
      assert ms[l - 1].start < ms[l - 1].end;
    }
  }

  /** Matches are reported in the order their blocks appear, without overlap. */
  lemma MatchesInOrder(t: string, k: nat, l: nat)
    requires k < l < |Matches(t)|
    ensures Matches(t)[k].end <= Matches(t)[l].start
  {
    MatchesChained(t);
    ChainedInOrder(Matches(t), k, l);
  }

  /** Every extracted command is stripped and holds no closing fence, and its
      flag is set exactly when whitespace and `#feedback` follow its tag. */
  lemma ExtractedCommandsShape(t: string)
    ensures forall k :: 0 <= k < |Extract(t)| ==>
      && IsStripped(Extract(t)[k].command)
      && NoFence(Extract(t)[k].command, 0, |Extract(t)[k].command|)
      && (Extract(t)[k].needsFeedback <==> MarkerFollows(t, Matches(t)[k].start + |Tag|))
  {
    forall k | 0 <= k < |Extract(t)| {
      ExtractedCommandShape(t, k);
    }
  }

  /** `ExtractedCommandsShape` for one position. */
  lemma ExtractedCommandShape(t: string, k: nat)
    requires k < |Extract(t)|
    ensures IsStripped(Extract(t)[k].command)
    ensures NoFence(Extract(t)[k].command, 0, |Extract(t)[k].command|)
    ensures Extract(t)[k].needsFeedback <==> MarkerFollows(t, Matches(t)[k].start + |Tag|)
  {
    MatchChosen(t, k);
    ChosenItem(t, Matches(t)[k]);
  }

  /** The item of a reported match, in one statement. */
  lemma ChosenItem(t: string, m: Parse)
    requires Chosen(t, m)
    ensures IsStripped(ItemOf(t, m).command)
    ensures NoFence(ItemOf(t, m).command, 0, |ItemOf(t, m).command|)
    ensures ItemOf(t, m).needsFeedback <==> MarkerFollows(t, m.start + |Tag|)
  {
    ChosenCommand(t, m);
    ChosenFlag(t, m);
  }

  // ------------------------------------------------------ rendering and round trip

  /** A command a block can carry unchanged: stripped, without a closing
      fence inside, and, in a block without the marker, not starting with
      `#feedback` (the pattern would read that as the marker). */
  predicate Renderable(item: Item) {
    && IsStripped(item.command)
    && NoFence(item.command, 0, |item.command|)
    && (item.needsFeedback || !SliceIs(item.command, 0, Marker))
  }

  /** The opening line of a block, as the agent's instructions ask the model to write it. */
  function Head(item: Item): string {
    if item.needsFeedback then Tag + (" " + Marker) else Tag
  }

  /** The block the model writes for one command. */
  function Render(item: Item): string {
    Head(item) + ("\n" + (item.command + ("\n" + Fence)))
  }

  function RenderAll(items: seq<Item>): string
    decreases |items|
  {
    if |items| == 0 then "" else Render(items[0]) + RenderAll(items[1..])
  }

  /** The layout of a block rendered at `s`: head, newline, command, newline, fence. */
  lemma RenderedLayout(t: string, s: nat, item: Item)
    requires SliceIs(t, s, Render(item))
    ensures SliceIs(t, s, Head(item))
    ensures s + |Head(item)| < |t| && t[s + |Head(item)|] == '\n'
    ensures SliceIs(t, s + |Head(item)| + 1, item.command)
    ensures s + |Head(item)| + 1 + |item.command| < |t|
    ensures t[s + |Head(item)| + 1 + |item.command|] == '\n'
    ensures FenceAt(t, s + |Head(item)| + 2 + |item.command|)
    ensures |Render(item)| == |Head(item)| + |item.command| + 2 + |Fence|
  {
    SliceSplit5(t, s, Head(item), "\n", item.command, "\n", Fence);
    SliceChar(t, s + |Head(item)|, '\n');
    SliceChar(t, s + |Head(item)| + 1 + |item.command|, '\n');
  }

  /** The layout of a rendered head: the tag, then, with the flag, a space and the marker. */
  lemma HeadLayout(t: string, s: nat, item: Item)
    requires SliceIs(t, s, Head(item))
    ensures SliceIs(t, s, Tag)
    ensures |Head(item)| == if item.needsFeedback then |Tag| + 1 + |Marker| else |Tag|
    ensures item.needsFeedback ==> t[s + |Tag|] == ' ' && SliceIs(t, s + |Tag| + 1, Marker)
  {
    if item.needsFeedback {
      SliceSplit(t, s, Tag, " " + Marker);
      SliceSplit(t, s + |Tag|, " ", Marker);
      SliceChar(t, s + |Tag|, ' ');
    }
  }

  /** A space and the marker after the tag make group 1 take part. */
  lemma TagEndWithMarker(t: string, s: nat)
    requires SliceIs(t, s, Tag) && s + |Tag| < |t| && t[s + |Tag|] == ' '
    requires SliceIs(t, s + |Tag| + 1, Marker)
    ensures TagEnd(t, s) == s + |Tag| + 1 + |Marker|
  {
    var q := s + |Tag|;
    SliceAt(t, q + 1, Marker, 0);
    SpanSpaceUnique(t, q, q + 1);
  }

  /** When the whitespace after the tag ends at `k` and no marker starts
      there, group 1 does not take part. */
  lemma TagEndWithoutMarker(t: string, s: nat, k: nat)
    requires SliceIs(t, s, Tag) && s + |Tag| <= k <= |t|
    requires SpaceBetween(t, s + |Tag|, k) && (k == |t| || !IsSpace(t[k]))
    requires !SliceIs(t, k, Marker)
    ensures TagEnd(t, s) == s + |Tag|
  {
    SpanSpaceUnique(t, s + |Tag|, k);
  }

  /** A non-empty command that does not start with the marker, written
      right after a newline, is not read as the marker. */
  lemma CommandNotMarker(t: string, k: nat, cmd: string)
    requires SliceIs(t, k, cmd) && |cmd| > 0 && !SliceIs(cmd, 0, Marker)
    requires k + |cmd| < |t| && t[k + |cmd|] == '\n'
    ensures !SliceIs(t, k, Marker)
  {
    if |cmd| < |Marker| {
      NoSliceAt(t, k, Marker, |cmd|);
    } else {
      SliceWithin(t, k, cmd, 0, |Marker|);
    }
  }

  /** The head of a rendered block sets group 1 exactly as the item's flag says. */
  lemma RenderedTagEnd(t: string, s: nat, item: Item)
    requires SliceIs(t, s, Render(item)) && Renderable(item)
    ensures TagEnd(t, s) == s + |Head(item)|
  {
    RenderedLayout(t, s, item);
    HeadLayout(t, s, item);
    var q := s + |Tag|;
    var cmd := item.command;
    if item.needsFeedback {
      TagEndWithMarker(t, s);
    } else if |cmd| > 0 {
      SliceAt(t, q + 1, cmd, 0);
      CommandNotMarker(t, q + 1, cmd);
      TagEndWithoutMarker(t, s, q + 1);
    } else {
      SliceAt(t, q + 2, Fence, 0);
      NoSliceAt(t, q + 2, Marker, 0);
      TagEndWithoutMarker(t, s, q + 2);
    }
  }

  /** Group 2 of a rendered block with a non-empty command is exactly the command. */
  lemma BodyOfCommand(t: string, e: nat, cmd: string)
    requires e < |t| && t[e] == '\n' && SliceIs(t, e + 1, cmd)
    requires |cmd| > 0 && IsStripped(cmd)
    requires e + 1 + |cmd| < |t| && t[e + 1 + |cmd|] == '\n'
    ensures SpanSpace(t, e) == e + 1
    ensures TrimBack(t, e + 1, e + 2 + |cmd|) == e + 1 + |cmd|
  {
    SliceAt(t, e + 1, cmd, 0);
    SliceAt(t, e + 1, cmd, |cmd| - 1);
    SpanSpaceUnique(t, e, e + 1);
    TrimBackUnique(t, e + 1, e + 1 + |cmd|, e + 2 + |cmd|);
  }

  /** Group 2 of a rendered block with an empty command is empty and sits at the fence. */
  lemma BodyOfEmpty(t: string, e: nat)
    requires e + 1 < |t| && t[e] == '\n' && t[e + 1] == '\n' && FenceAt(t, e + 2)
    ensures SpanSpace(t, e) == e + 2
  {
    SliceAt(t, e + 2, Fence, 0);
    SpanSpaceUnique(t, e, e + 2);
  }

  /** Group 2 of a rendered block is exactly its command. */
  lemma RenderedBody(t: string, s: nat, item: Item, bs: nat, be: nat, c: nat)
    requires SliceIs(t, s, Render(item)) && Renderable(item)
    requires c == s + |Head(item)| + 2 + |item.command|
    requires bs == (if |item.command| > 0 then s + |Head(item)| + 1 else c)
    requires be == (if |item.command| > 0 then c - 1 else c)
    ensures bs <= be <= c <= |t|
    ensures SpanSpace(t, s + |Head(item)|) == bs
    ensures TrimBack(t, bs, c) == be
    ensures t[bs..be] == item.command
  {
    RenderedLayout(t, s, item);
    var e := s + |Head(item)|;
    if |item.command| > 0 {
      BodyOfCommand(t, e, item.command);
    } else {
      BodyOfEmpty(t, e);
    }
  }

  /** A command without a fence, followed by a newline, leaves no fence
      start anywhere from its first character up to that newline. */
  lemma NoFenceThroughNewline(t: string, cs: nat, cmd: string)
    requires SliceIs(t, cs, cmd) && NoFence(cmd, 0, |cmd|)
    requires cs + |cmd| < |t| && t[cs + |cmd|] == '\n'
    ensures NoFence(t, cs, cs + |cmd| + 1)
  {
    var ce := cs + |cmd|;
    forall x | cs <= x <= ce
      ensures !FenceAt(t, x)
    {
      if x + |Fence| <= ce {
        SliceWithin(t, cs, cmd, x - cs, x - cs + |Fence|);
        assert !FenceAt(cmd, x - cs);
      } else {
        NoSliceAt(t, x, Fence, ce - x);
      }
    }
  }

  /** In a rendered block, the first closing fence after group 2 starts is
      the block's own: the command holds none and the newline before the
      fence cannot be part of one. */
  lemma RenderedFence(t: string, s: nat, item: Item, bs: nat, c: nat)
    requires SliceIs(t, s, Render(item)) && Renderable(item)
    requires c == s + |Head(item)| + 2 + |item.command|
    requires bs == if |item.command| > 0 then s + |Head(item)| + 1 else c
    ensures FindFence(t, bs) == Some(c)
  {
    RenderedLayout(t, s, item);
    if |item.command| > 0 {
      NoFenceThroughNewline(t, bs, item.command);
    }
    FindFenceUnique(t, bs, c);
  }

  /** `MatchAt` assembled from its parts. */
  lemma MatchAtParts(t: string, s: nat, e: nat, bs: nat, c: nat)
    requires SliceIs(t, s, Tag) && TagEnd(t, s) == e
    requires e <= |t| && SpanSpace(t, e) == bs
    requires FindFence(t, bs) == Some(c)
    ensures MatchAt(t, s) == Some(Parse(s, e, bs, TrimBack(t, bs, c), c + |Fence|))
  {
  }

  /** The match at a rendered block: its group boundaries. */
  lemma RenderedParse(t: string, s: nat, item: Item) returns (m: Parse)
    requires SliceIs(t, s, Render(item)) && Renderable(item)
    ensures MatchAt(t, s) == Some(m)
    ensures m.end == s + |Render(item)|
    ensures m.tagEnd == s + |Head(item)|
    ensures m.bodyStart <= m.bodyEnd <= |t| && t[m.bodyStart..m.bodyEnd] == item.command
  {
    RenderedLayout(t, s, item);
    HeadLayout(t, s, item);
    RenderedTagEnd(t, s, item);
    var e := s + |Head(item)|;
    var c := e + 2 + |item.command|;
    var bs := if |item.command| > 0 then e + 1 else c;
    var be := if |item.command| > 0 then c - 1 else c;
    RenderedBody(t, s, item, bs, be, c);
    RenderedFence(t, s, item, bs, c);
    MatchAtParts(t, s, e, bs, c);
    m := Parse(s, e, bs, be, c + |Fence|);
  }

  /** The length of a head: the tag, plus a space and the marker with the flag. */
  lemma HeadLength(item: Item)
    ensures |Head(item)| == if item.needsFeedback then |Tag| + 1 + |Marker| else |Tag|
  {
  }

  /** The item of a match whose group 2 is a stripped command and whose
      group 1 took part exactly when the flag is set. */
  lemma ItemOfParts(t: string, m: Parse, item: Item)
    requires IsParse(t, m)
    requires t[m.bodyStart..m.bodyEnd] == item.command && IsStripped(item.command)
    requires m.tagEnd > m.start + |Tag| <==> item.needsFeedback
    ensures ItemOf(t, m) == item
  {
    StripKeepsStripped(item.command);
    FlagIffGroup(t, m);
  }

  /** A rendered block is matched as one whole block and gives back its item. */
  lemma RenderedMatch(t: string, s: nat, item: Item)
    requires SliceIs(t, s, Render(item)) && Renderable(item)
    ensures MatchAt(t, s).Some?
    ensures MatchAt(t, s).value.end == s + |Render(item)|
    ensures ItemOf(t, MatchAt(t, s).value) == item
  {
    var m := RenderedParse(t, s, item);
    MatchAtParse(t, s);
    HeadLength(item);
    ItemOfParts(t, m, item);
  }

  /** A match starts with a backtick. */
  lemma NoTagNoMatch(t: string, p: nat)
    requires p < |t| && t[p] != '`'
    ensures MatchAt(t, p).None?
  {
    assert Tag[0] == '`';
    NoSliceAt(t, p, Tag, 0);
  }

  /** The scanner moves on by one character past anything but a backtick. */
  lemma ScanSkip(t: string, p: nat)
    requires p < |t| && t[p] != '`'
    ensures Scan(t, p) == Scan(t, p + 1)
  {
    NoTagNoMatch(t, p);
  }

  /** One scanner step: a match at `p` is reported, then scanning resumes at its end. */
  lemma ScanStep(t: string, p: nat)
    requires p < |t| && MatchAt(t, p).Some?
    ensures Scan(t, p) == [MatchAt(t, p).value] + Scan(t, MatchAt(t, p).value.end)
  {
  }

  /** Scanning from a rendered block reports the block's match first, with
      the block's item, and then resumes right after the block. */
  lemma ScanRenderedStep(t: string, p: nat, item: Item) returns (m: Parse)
    requires SliceIs(t, p, Render(item)) && Renderable(item)
    ensures InBounds(t, m) && ItemOf(t, m) == item
    ensures m.end == p + |Render(item)| <= |t|
    ensures Scan(t, p) == [m] + Scan(t, m.end)
  {
    RenderedMatch(t, p, item);
    ScanStep(t, p);
    m := MatchAt(t, p).value;
  }

  /** The items of a match followed by more matches. */
  lemma ItemsOfCons(t: string, m: Parse, rest: seq<Parse>)
    requires InBounds(t, m) && forall k :: 0 <= k < |rest| ==> InBounds(t, rest[k])
    ensures ItemsOf(t, [m] + rest) == [ItemOf(t, m)] + ItemsOf(t, rest)
  {
    assert ([m] + rest)[1..] == rest;
  }

  /** Every item can be written as a block and read back unchanged. */
  predicate AllRenderable(items: seq<Item>) {
    forall k :: 0 <= k < |items| ==> Renderable(items[k])
  }

  /** The first of a run of rendered blocks is matched on its own, and the
      scan resumes at the start of the next block. */
  lemma RenderedStep(t: string, p: nat, items: seq<Item>) returns (m: Parse)
    requires p <= |t| && t[p..] == RenderAll(items) && |items| > 0 && AllRenderable(items)
    ensures InBounds(t, m) && ItemOf(t, m) == items[0]
    ensures m.end <= |t| && t[m.end..] == RenderAll(items[1..]) && AllRenderable(items[1..])
    ensures Scan(t, p) == [m] + Scan(t, m.end)
  {
    RenderAllCons(items);
    SuffixSplit(t, p, Render(items[0]), RenderAll(items[1..]));
    AllRenderableTail(items);
    m := ScanRenderedStep(t, p, items[0]);
  }

  lemma RenderAllCons(items: seq<Item>)
    requires |items| > 0
    ensures RenderAll(items) == Render(items[0]) + RenderAll(items[1..])
  {
  }

  lemma AllRenderableTail(items: seq<Item>)
    requires |items| > 0 && AllRenderable(items)
    ensures Renderable(items[0]) && AllRenderable(items[1..])
  {
    forall k | 0 <= k < |items[1..]|
      ensures Renderable(items[1..][k])
    {
      assert items[1..][k] == items[k + 1];
    }
  }

  /** Extracting from rendered blocks written one after another gives back
      the items, in order: adjacent blocks are neither merged nor split. */
  lemma {:induction false} ScanRendered(t: string, p: nat, items: seq<Item>)
    requires p <= |t| && t[p..] == RenderAll(items) && AllRenderable(items)
    ensures ItemsOf(t, Scan(t, p)) == items
    decreases |items|
  {
    if |items| == 0 {
      assert p == |t|;
      ScanAtEnd(t);
    } else {
      var m := RenderedStep(t, p, items);
      ScanRendered(t, m.end, items[1..]);
      ItemsOfCons(t, m, Scan(t, m.end));
      assert items == [items[0]] + items[1..];
    }
  }

  /** `Extract` is the items of the matches found scanning from the start. */
  lemma ExtractIsScan(t: string)
    ensures Extract(t) == ItemsOf(t, Scan(t, 0))
  {
  }

  /** Any text made of rendered blocks extracts to their items. */
  lemma ExtractRendered(t: string, items: seq<Item>)
    requires t[0..] == RenderAll(items) && AllRenderable(items)
    ensures Extract(t) == items
  {
    ScanRendered(t, 0, items);
    ExtractIsScan(t);
  }

  /** Writing well-formed commands as blocks and extracting them is the identity. */
  lemma RenderRoundTrip(items: seq<Item>)
    requires AllRenderable(items)
    ensures Extract(RenderAll(items)) == items
  {
    DropZero(RenderAll(items));
    ExtractRendered(RenderAll(items), items);
  }
}
