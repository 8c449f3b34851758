/** Character-level vocabulary shared by the extractor, the executor and the
    controller: Python's whitespace class, `str.strip()`, ASCII `str.lower()`
    and decimal rendering of integers (`f"{n}"`). */
module Text {
  import opened Wrappers

  /** Python's whitespace class for `str`: the characters matched by `\s` in a
      `str` pattern and removed by `str.strip()` (both use `str.isspace`). */
  predicate IsSpace(c: char) {
    || c == ' '
    || ('\t' <= c <= '\r')
    || ('\U{1c}' <= c <= '\U{1f}')
    || c == '\U{85}' || c == '\U{a0}' || c == '\U{1680}'
    || ('\U{2000}' <= c <= '\U{200a}')
    || c == '\U{2028}' || c == '\U{2029}' || c == '\U{202f}' || c == '\U{205f}' || c == '\U{3000}'
  }

  /** Every character of `t` in `[a, b)` is whitespace. */
  predicate SpaceBetween(t: string, a: nat, b: nat)
    requires a <= b <= |t|
  {
    forall k :: a <= k < b ==> IsSpace(t[k])
  }

  predicate Blank(s: string) {
    SpaceBetween(s, 0, |s|)
  }

  /** `w` occurs in `t` at position `i`. */
  predicate SliceIs<T(==)>(t: seq<T>, i: nat, w: seq<T>) {
    i + |w| <= |t| && t[i..i + |w|] == w
  }

  /** An occurrence of `a + b` is an occurrence of `a` followed by one of `b`. */
  lemma SliceSplit<T>(t: seq<T>, i: nat, a: seq<T>, b: seq<T>)
    requires SliceIs(t, i, a + b)
    ensures SliceIs(t, i, a) && SliceIs(t, i + |a|, b)
  {
    assert t[i..i + |a|] == (a + b)[..|a|];
    assert t[i + |a|..i + |a| + |b|] == (a + b)[|a|..];
  }

  /** An occurrence of a five-piece concatenation, piece by piece. */
  lemma SliceSplit5<T>(t: seq<T>, i: nat, a: seq<T>, b: seq<T>, c: seq<T>, d: seq<T>, e: seq<T>)
    requires SliceIs(t, i, a + (b + (c + (d + e))))
    ensures SliceIs(t, i, a)
    ensures SliceIs(t, i + |a|, b)
    ensures SliceIs(t, i + |a| + |b|, c)
    ensures SliceIs(t, i + |a| + |b| + |c|, d)
    ensures SliceIs(t, i + |a| + |b| + |c| + |d|, e)
  {
    SliceSplit(t, i, a, b + (c + (d + e)));
    SliceSplit(t, i + |a|, b, c + (d + e));
    SliceSplit(t, i + |a| + |b|, c, d + e);
    SliceSplit(t, i + |a| + |b| + |c|, d, e);
  }

  /** Element `j` of an occurrence of `w` at `i`. */
  lemma SliceAt<T>(t: seq<T>, i: nat, w: seq<T>, j: nat)
    requires SliceIs(t, i, w) && j < |w|
    ensures t[i + j] == w[j]
  {
    assert t[i + j] == t[i..i + |w|][j];
  }

  /** One differing element rules an occurrence out. */
  lemma NoSliceAt<T>(t: seq<T>, i: nat, w: seq<T>, j: nat)
    requires j < |w| && i + j < |t| && t[i + j] != w[j]
    ensures !SliceIs(t, i, w)
  {
    if SliceIs(t, i, w) {
      SliceAt(t, i, w, j);
    }
  }

  lemma SliceChar<T>(t: seq<T>, i: nat, c: T)
    requires SliceIs(t, i, [c])
    ensures i < |t| && t[i] == c
  {
    assert t[i] == t[i..i + 1][0];
  }

  /** Part `[a, b)` of an occurrence of `w` at `i` is `t[i + a..i + b]`. */
  lemma SliceWithin<T>(t: seq<T>, i: nat, w: seq<T>, a: nat, b: nat)
    requires SliceIs(t, i, w) && a <= b <= |w|
    ensures t[i + a..i + b] == w[a..b]
  {
    forall k | 0 <= k < b - a
      ensures t[i + a..i + b][k] == w[a..b][k]
    {
      assert t[i + a + k] == t[i..i + |w|][a + k];
    }
  }

  lemma DropZero<T>(t: seq<T>)
    ensures t[0..] == t
  {
  }

  /** A suffix made of `a` then `b` holds `a` where it starts and `b` right after. */
  lemma SuffixSplit<T>(t: seq<T>, p: nat, a: seq<T>, b: seq<T>)
    requires p <= |t| && t[p..] == a + b
    ensures SliceIs(t, p, a)
    ensures t[p + |a|..] == b
  {
    assert t[p..p + |a|] == t[p..][..|a|];
    assert t[p + |a|..] == t[p..][|a|..];
  }

  /** End of the longest whitespace run starting at `i` (what a greedy `\s*` consumes). */
  function SpanSpace(t: string, i: nat): (j: nat)
    requires i <= |t|
    ensures i <= j <= |t|
    ensures SpaceBetween(t, i, j)
    ensures j == |t| || !IsSpace(t[j])
    decreases |t| - i
  {
    if i == |t| || !IsSpace(t[i]) then i else SpanSpace(t, i + 1)
  }

  /** The end of a whitespace run is unique: any `j` that only whitespace
      separates from `i` and that is followed by a non-space is `SpanSpace(t, i)`. */
  lemma {:induction false} SpanSpaceUnique(t: string, i: nat, j: nat)
    requires i <= j <= |t|
    requires SpaceBetween(t, i, j)
    requires j == |t| || !IsSpace(t[j])
    ensures SpanSpace(t, i) == j
    decreases j - i
  {
    if i < j {
      SpanSpaceUnique(t, i + 1, j);
    }
  }

  /** A greedy `\s*` from `i` consumes at least every whitespace run that starts at `i`. */
  lemma {:induction false} SpanSpaceCovers(t: string, i: nat, j: nat)
    requires i <= j <= |t|
    requires SpaceBetween(t, i, j)
    ensures j <= SpanSpace(t, i)
    decreases j - i
  {
    if i < j {
      SpanSpaceCovers(t, i + 1, j);
    }
  }

  /** Smallest `b` in `[lo, hi]` such that `t[b..hi]` is all whitespace
      (where a lazy body followed by a greedy `\s*` stops). */
  function TrimBack(t: string, lo: nat, hi: nat): (b: nat)
    requires lo <= hi <= |t|
    ensures lo <= b <= hi
    ensures SpaceBetween(t, b, hi)
    ensures b == lo || !IsSpace(t[b - 1])
    decreases hi - lo
  {
    if hi == lo || !IsSpace(t[hi - 1]) then hi else TrimBack(t, lo, hi - 1)
  }

  /** `TrimBack` stops at or before every `b` from which only whitespace reaches `hi`. */
  lemma {:induction false} TrimBackBelow(t: string, lo: nat, b: nat, hi: nat)
    requires lo <= b <= hi <= |t|
    requires SpaceBetween(t, b, hi)
    ensures TrimBack(t, lo, hi) <= b
    decreases hi - b
  {
    if b < hi {
      TrimBackBelow(t, lo, b, hi - 1);
    }
  }

  /** Trimming before `c` stops at or before any `b` from which only
      whitespace reaches a later `f`. */
  lemma TrimBackWithin(t: string, lo: nat, b: nat, c: nat, f: nat)
    requires lo <= c <= f <= |t| && lo <= b <= f
    requires SpaceBetween(t, b, f)
    ensures TrimBack(t, lo, c) <= b
  {
    if b < c {
      assert SpaceBetween(t, b, c);
      TrimBackBelow(t, lo, b, c);
    }
  }

  /** A run of whitespace from `b` to `f` cannot pass a non-space at `c`. */
  lemma SpaceStopsAt(t: string, b: nat, c: nat, f: nat, x: char)
    requires b <= c <= f <= |t| && c < |t| && t[c] == x && !IsSpace(x)
    requires SpaceBetween(t, b, f)
    ensures f == c
  {
  }

  /** Trimming before the first non-space `x` at `c` ends no later than any
      other trailing run of whitespace `[b, f)` with `f` at or after `c`,
      and only ties with it when `f` is `c`. */
  lemma TrimBackFirstStop(t: string, lo: nat, b: nat, c: nat, f: nat, x: char)
    requires lo <= c <= f <= |t| && lo <= b <= f && c < |t| && t[c] == x && !IsSpace(x)
    requires SpaceBetween(t, b, f)
    ensures TrimBack(t, lo, c) <= b
    ensures TrimBack(t, lo, c) == b ==> f == c
  {
    TrimBackWithin(t, lo, b, c, f);
    if TrimBack(t, lo, c) == b {
      SpaceStopsAt(t, b, c, f, x);
    }
  }

  lemma {:induction false} TrimBackUnique(t: string, lo: nat, b: nat, hi: nat)
    requires lo <= b <= hi <= |t|
    requires SpaceBetween(t, b, hi)
    requires b == lo || !IsSpace(t[b - 1])
    ensures TrimBack(t, lo, b) == b
    ensures TrimBack(t, lo, hi) == b
    decreases hi - b
  {
    if b < hi {
      TrimBackUnique(t, lo, b, hi - 1);
    }
  }

  /** No leading and no trailing whitespace. */
  predicate IsStripped(s: string) {
    |s| == 0 || (!IsSpace(s[0]) && !IsSpace(s[|s| - 1]))
  }

  /** What lies between a greedy `\s*` from `i` and a trailing `\s*` before
      `hi` has no whitespace at either end. */
  lemma SpanTrimStripped(t: string, i: nat, hi: nat)
    requires i <= hi <= |t| && SpanSpace(t, i) <= hi
    ensures IsStripped(t[SpanSpace(t, i)..TrimBack(t, SpanSpace(t, i), hi)])
  {
    var a := SpanSpace(t, i);
    var b := TrimBack(t, a, hi);
    if a < b {
      assert t[a..b][0] == t[a] && t[a..b][b - a - 1] == t[b - 1];
    }
  }

  /** Python's `str.strip()` with no argument: what remains of `s` once
      whitespace is removed from both ends. */
  function Strip(s: string): (r: string)
    ensures IsStripped(r)
    ensures |r| == 0 <==> Blank(s)
    ensures |r| <= |s|
    ensures exists a: nat, b: nat ::
              a <= b <= |s| && r == s[a..b] && SpaceBetween(s, 0, a) && SpaceBetween(s, b, |s|)
  {
    var a := SpanSpace(s, 0);
    var b := TrimBack(s, a, |s|);
    assert SpaceBetween(s, 0, a) && SpaceBetween(s, b, |s|);
    s[a..b]
  }

  /** `Strip` is the only way to cut `s` into whitespace, a stripped middle
      and whitespace: it removes all the whitespace at both ends and nothing else. */
  lemma StripUnique(s: string, a: nat, b: nat)
    requires a <= b <= |s|
    requires SpaceBetween(s, 0, a) && SpaceBetween(s, b, |s|)
    requires IsStripped(s[a..b])
    ensures Strip(s) == s[a..b]
  {
  }

  /** Stripping removes only what is there to remove: a stripped string is
      its own strip, and so stripping twice is stripping once. */
  lemma StripKeepsStripped(s: string)
    requires IsStripped(s)
    ensures Strip(s) == s
  {
    if |s| > 0 {
      assert SpanSpace(s, 0) == 0;
      assert TrimBack(s, 0, |s|) == |s|;
    }
  }

  lemma StripIdempotent(s: string)
    ensures Strip(Strip(s)) == Strip(s)
  {
    StripKeepsStripped(Strip(s));
  }

  function LowerChar(c: char): char {
    if 'A' <= c <= 'Z' then (c as int + 32) as char else c
  }

  /** `str.lower()` restricted to the ASCII letters. */
  function Lower(s: string): (r: string)
    ensures |r| == |s|
    ensures forall k :: 0 <= k < |s| ==> r[k] == LowerChar(s[k])
  {
    seq(|s|, k requires 0 <= k < |s| => LowerChar(s[k]))
  }

  /** The confirmation test `input(...).lower() == 'y'`. */
  predicate Confirmed(answer: string) {
    Lower(answer) == "y"
  }

  /** Exactly the answers "y" and "Y" confirm. */
  lemma ConfirmedIff(answer: string)
    ensures Confirmed(answer) <==> answer == "y" || answer == "Y"
  {
    if Confirmed(answer) {
      assert |answer| == 1;
      assert LowerChar(answer[0]) == 'y';
      assert answer == [answer[0]];
    }
    if answer == "Y" {
      assert Lower(answer)[0] == 'y';
    }
  }

  // ---------------------------------------------------------------- decimals

  predicate IsDigit(c: char) {
    '0' <= c <= '9'
  }

  predicate AllDigits(s: string) {
    forall k :: 0 <= k < |s| ==> IsDigit(s[k])
  }

  function DigitChar(d: nat): (c: char)
    requires d < 10
  {
    ('0' as int + d) as char
  }

  function DigitValue(c: char): nat
    requires IsDigit(c)
  {
    c as int - '0' as int
  }

  /** Decimal digits of a natural number, most significant first, no leading zero. */
  function NatDecimal(n: nat): (s: string)
    ensures |s| > 0
    ensures AllDigits(s)
    ensures |s| > 1 ==> s[0] != '0'
    decreases n
  {
    if n < 10 then [DigitChar(n)] else NatDecimal(n / 10) + [DigitChar(n % 10)]
  }

  /** Python's `f"{n}"` for an `int`: a minus sign for negatives, then digits. */
  function IntDecimal(n: int): (s: string)
  {
    if n < 0 then "-" + NatDecimal(-n) else NatDecimal(n)
  }

  function DigitsValue(s: string): nat
    requires AllDigits(s)
    decreases |s|
  {
    if |s| == 0 then 0 else DigitsValue(s[..|s| - 1]) * 10 + DigitValue(s[|s| - 1])
  }

  /** Reads back an optionally negative decimal integer; `None` for anything else. */
  function ParseDecimal(s: string): Option<int> {
    if |s| > 1 && s[0] == '-' && AllDigits(s[1..]) then Some(0 - DigitsValue(s[1..]) as int)
    else if |s| > 0 && AllDigits(s) then Some(DigitsValue(s))
    else None
  }

  lemma {:induction false} NatDecimalRoundTrip(n: nat)
    ensures DigitsValue(NatDecimal(n)) == n
    decreases n
  {
    if n >= 10 {
      var s := NatDecimal(n);
      assert s[..|s| - 1] == NatDecimal(n / 10);
      NatDecimalRoundTrip(n / 10);
    }
  }

  /** Rendering an integer and reading it back gives the integer. */
  lemma IntDecimalRoundTrip(n: int)
    ensures ParseDecimal(IntDecimal(n)) == Some(n)
  {
    if n < 0 {
      var s := IntDecimal(n);
      assert s[1..] == NatDecimal(-n);
      NatDecimalRoundTrip(-n);
    } else {
      NatDecimalRoundTrip(n);
    }
  }

  /** A rendered integer holds only digits and a leading minus sign. */
  lemma IntDecimalChars(n: int)
    ensures forall k :: 0 <= k < |IntDecimal(n)| ==> IsDigit(IntDecimal(n)[k]) || IntDecimal(n)[k] == '-'
  {
  }
}
