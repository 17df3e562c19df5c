/** Python string built-ins the preprocessing code relies on, over ASCII.
    `str.lower`, `str.split()`, `str.split(sep)`, `sep.join`, `str.strip`, `str.find`,
    `str.replace`, `str.isdigit` and the regular-expression classes `\w` and `\s`. */
module Text {

  /** Python's `str.isspace` restricted to ASCII (also what `\s` and `str.split()` use). */
  predicate IsSpace(c: char) {
    c == ' ' || c == '\t' || c == '\n' || c == '\r' || c == '\U{0B}' || c == '\U{0C}'
    || ('\U{1C}' <= c <= '\U{1F}')
  }

  /** The regular-expression class `\w` restricted to ASCII. */
  predicate IsWordChar(c: char) {
    ('a' <= c <= 'z') || ('A' <= c <= 'Z') || ('0' <= c <= '9') || c == '_'
  }

  predicate IsUpper(c: char) { 'A' <= c <= 'Z' }

  function LowerChar(c: char): char {
    if IsUpper(c) then (c as int + 32) as char else c
  }

  /** `str.lower()` */
  function Lower(s: string): (r: string)
    ensures |r| == |s|
  {
    seq(|s|, i requires 0 <= i < |s| => LowerChar(s[i]))
  }

  predicate IsLower(s: string) {
    forall i :: 0 <= i < |s| ==> !IsUpper(s[i])
  }

  lemma LowerIsLower(s: string)
    ensures IsLower(Lower(s))
    ensures Lower(Lower(s)) == Lower(s)
  {
  }

  lemma LowerOfLower(s: string)
    requires IsLower(s)
    ensures Lower(s) == s
  {
  }

  /** `str.isdigit()`: non-empty and every character a decimal digit. */
  predicate IsDigits(s: string) {
    |s| > 0 && forall i :: 0 <= i < |s| ==> '0' <= s[i] <= '9'
  }

  /** Python's slice `s[a:b]` for non-negative bounds: out-of-range bounds are clamped, and a
      reversed range is empty. */
  function Slice(s: string, a: nat, b: nat): (r: string)
    ensures a <= b <= |s| ==> r == s[a..b]
    ensures |r| <= |s|
  {
    var lo := if a <= |s| then a else |s|;
    var hi := if b <= |s| then b else |s|;
    if lo <= hi then s[lo..hi] else []
  }

  // ---------------------------------------------------------------------------
  // Whitespace tokenisation: `str.split()` with the position of every word.

  /** A word of a string together with its half-open character range. */
  datatype Span = Span(word: string, start: nat, end: nat)

  function SkipSpaces(s: string, i: nat): (j: nat)
    requires i <= |s|
    ensures i <= j <= |s|
    ensures forall k :: i <= k < j ==> IsSpace(s[k])
    ensures j == |s| || !IsSpace(s[j])
    decreases |s| - i
  {
    if i == |s| || !IsSpace(s[i]) then i else SkipSpaces(s, i + 1)
  }

  function SkipWord(s: string, i: nat): (j: nat)
    requires i <= |s|
    ensures i <= j <= |s|
    ensures forall k :: i <= k < j ==> !IsSpace(s[k])
    ensures j == |s| || IsSpace(s[j])
    decreases |s| - i
  {
    if i == |s| || IsSpace(s[i]) then i else SkipWord(s, i + 1)
  }

  /** Each span is a non-empty slice of `s` at or after `i`, and the spans move strictly forward. */
  ghost predicate Tracked(s: string, i: nat, ts: seq<Span>) {
    && (forall k :: 0 <= k < |ts| ==>
          i <= ts[k].start < ts[k].end <= |s| && ts[k].word == s[ts[k].start..ts[k].end])
    && (forall k :: 0 <= k < |ts| - 1 ==> ts[k].end < ts[k + 1].start)
  }

  /** The words of `s[i..]` as `str.split()` finds them, each with its position in `s`. */
  function TrackFrom(s: string, i: nat): (ts: seq<Span>)
    requires i <= |s|
    decreases |s| - i
  {
    var p := SkipSpaces(s, i);
    if p == |s| then []
    else
      var q := SkipWord(s, p);
      [Span(s[p..q], p, q)] + TrackFrom(s, q)
  }

  /** Every word `str.split()` finds is the slice of `s` at its recorded position, and the
      positions move strictly forward. */
  lemma {:induction false} TrackFromTracked(s: string, i: nat)
    requires i <= |s|
    ensures Tracked(s, i, TrackFrom(s, i))
    decreases |s| - i
  {
    var p := SkipSpaces(s, i);
    if p < |s| {
      var q := SkipWord(s, p);
      TrackFromTracked(s, q);
      var rest := TrackFrom(s, q);
      var ts := TrackFrom(s, i);
      assert ts == [Span(s[p..q], p, q)] + rest;
      assert forall k :: 1 <= k < |ts| ==> ts[k] == rest[k - 1];
    }
  }

  /** Tokenising again from the end of any word finds exactly the words after it. */
  lemma {:induction false} TrackFromResumes(s: string, i: nat, k: nat)
    requires i <= |s| && k < |TrackFrom(s, i)|
    ensures TrackFrom(s, i)[k].end <= |s|
    ensures TrackFrom(s, TrackFrom(s, i)[k].end) == TrackFrom(s, i)[k + 1..]
    decreases |s| - i
  {
    var p := SkipSpaces(s, i);
    var q := SkipWord(s, p);
    var rest := TrackFrom(s, q);
    var ts := TrackFrom(s, i);
    assert ts == [Span(s[p..q], p, q)] + rest;
    if k > 0 {
      TrackFromResumes(s, q, k - 1);
      assert ts[k] == rest[k - 1];
      assert ts[k + 1..] == rest[k..];
    }
  }

  /** Spans that ever move forward: each ends no later than any later one starts. */
  lemma {:induction false} TrackedPairwise(s: string, i: nat, ts: seq<Span>)
    requires Tracked(s, i, ts)
    ensures forall k, m :: 0 <= k < m < |ts| ==> ts[k].end <= ts[m].start
    decreases |ts|
  {
    if ts != [] {
      TrackedPairwise(s, i, ts[1..]);
      forall k, m | 0 <= k < m < |ts| ensures ts[k].end <= ts[m].start {
        if k > 0 {
          assert ts[k] == ts[1..][k - 1] && ts[m] == ts[1..][m - 1];
        } else if m > 1 {
          assert ts[1].start <= ts[1..][0].end <= ts[1..][m - 1].start;
        }
      }
    }
  }

  function Words(ts: seq<Span>): (ws: seq<string>)
    ensures |ws| == |ts|
    ensures forall k :: 0 <= k < |ts| ==> ws[k] == ts[k].word
  {
    seq(|ts|, k requires 0 <= k < |ts| => ts[k].word)
  }

  /** `str.split()` with no separator. */
  function SplitWs(s: string): (ws: seq<string>)
  {
    Words(TrackFrom(s, 0))
  }

  /** No word found by `str.split()` contains whitespace. */
  lemma {:induction false} TrackedWordsHaveNoSpace(s: string, i: nat)
    requires i <= |s|
    ensures forall k, m :: 0 <= k < |TrackFrom(s, i)| && 0 <= m < |TrackFrom(s, i)[k].word| ==>
      !IsSpace(TrackFrom(s, i)[k].word[m])
    decreases |s| - i
  {
    var p := SkipSpaces(s, i);
    if p < |s| {
      var q := SkipWord(s, p);
      TrackedWordsHaveNoSpace(s, q);
      var ts := TrackFrom(s, i);
      assert ts == [Span(s[p..q], p, q)] + TrackFrom(s, q);
      forall k, m | 0 <= k < |ts| && 0 <= m < |ts[k].word|
        ensures !IsSpace(ts[k].word[m])
      {
        if k == 0 {
          assert ts[k].word[m] == s[p + m];
        } else {
          assert ts[k] == TrackFrom(s, q)[k - 1];
        }
      }
    }
  }

  // ---------------------------------------------------------------------------
  // `str.find(sub, start)`

  /** `w` occurs in `s` at position `k`. */
  predicate MatchAt(s: string, w: string, k: nat) {
    k + |w| <= |s| && s[k..k + |w|] == w
  }

  /** Lowest index `r >= from` at which `w` occurs in `s`, or -1. */
  function FindFrom(s: string, w: string, from: nat): (r: int)
    ensures r == -1 || (from <= r && MatchAt(s, w, r))
    ensures r == -1 ==> forall k: nat :: from <= k ==> !MatchAt(s, w, k)
    ensures r != -1 ==> forall k: nat :: from <= k < r ==> !MatchAt(s, w, k)
    decreases |s| - from
  {
    if from + |w| > |s| then -1
    else if s[from..from + |w|] == w then from
    else FindFrom(s, w, from + 1)
  }

  /** Where the loop of the chunker looks for the next word, `find` lands on it exactly. */
  lemma FindNextTracked(s: string, i: nat)
    requires i <= |s|
    requires TrackFrom(s, i) != []
    ensures FindFrom(s, TrackFrom(s, i)[0].word, i) == TrackFrom(s, i)[0].start
    ensures TrackFrom(s, i)[1..] == TrackFrom(s, TrackFrom(s, i)[0].end)
  {
    var p := SkipSpaces(s, i);
    var t := TrackFrom(s, i)[0];
    assert t.start == p;
    var w := t.word;
    assert w[0] == s[p];
    assert MatchAt(s, w, p);
    forall k: nat | i <= k < p
      ensures !MatchAt(s, w, k)
    {
      if k + |w| <= |s| {
        assert s[k..k + |w|][0] == s[k];
      }
    }
  }

  // ---------------------------------------------------------------------------
  // `sep.join(parts)` and `s.split(sep)` for a one-character separator.

  function Join(sep: string, parts: seq<string>): string
  {
    if parts == [] then []
    else if |parts| == 1 then parts[0]
    else parts[0] + sep + Join(sep, parts[1..])
  }

  /** `s.split(c)`: never empty, no piece holds `c`, and joining restores `s`. */
  function SplitOn(s: string, c: char): (r: seq<string>)
    ensures |r| >= 1
    ensures forall k :: 0 <= k < |r| ==> c !in r[k]
    ensures Join([c], r) == s
  {
    if s == [] then [[]]
    else if s[0] == c then [[]] + SplitOn(s[1..], c)
    else
      var rest := SplitOn(s[1..], c);
      [[s[0]] + rest[0]] + rest[1..]
  }

  // ---------------------------------------------------------------------------
  // `str.strip()` and `re.sub(r'\s+', ' ', s)`

  function StripLeft(s: string): (r: string)
    ensures |r| <= |s| && r == s[|s| - |r|..]
    ensures r == [] || !IsSpace(r[0])
    ensures forall k :: 0 <= k < |s| - |r| ==> IsSpace(s[k])
  {
    if s == [] || !IsSpace(s[0]) then s else StripLeft(s[1..])
  }

  function StripRight(s: string): (r: string)
    ensures |r| <= |s| && r == s[..|r|]
    ensures r == [] || !IsSpace(r[|r| - 1])
    ensures forall k :: |r| <= k < |s| ==> IsSpace(s[k])
  {
    if s == [] || !IsSpace(s[|s| - 1]) then s else StripRight(s[..|s| - 1])
  }

  function Strip(s: string): string {
    StripRight(StripLeft(s))
  }

  /** Every maximal run of whitespace becomes one space. */
  function CollapseSpaces(s: string): (r: string)
    ensures |r| <= |s|
    decreases |s|
  {
    if s == [] then []
    else if IsSpace(s[0]) then [' '] + CollapseSpaces(StripLeft(s))
    else [s[0]] + CollapseSpaces(s[1..])
  }

  // ---------------------------------------------------------------------------
  // `s.replace(pat, rep)`: every non-overlapping occurrence, left to right.

  function ReplaceAll(s: string, pat: string, rep: string): string
    decreases |s|
  {
    if pat == [] then InsertEverywhere(s, rep)
    else if |s| < |pat| then s
    else if s[..|pat|] == pat then rep + ReplaceAll(s[|pat|..], pat, rep)
    else [s[0]] + ReplaceAll(s[1..], pat, rep)
  }

  /** Python's `s.replace("", rep)` puts `rep` before every character and at the end. */
  function InsertEverywhere(s: string, rep: string): string {
    if s == [] then rep else rep + [s[0]] + InsertEverywhere(s[1..], rep)
  }

  ghost predicate Occurs(s: string, w: string) {
    exists k: nat :: MatchAt(s, w, k)
  }

  /** Replacing a string that does not occur leaves the text alone. */
  lemma {:induction false} ReplaceAbsent(s: string, pat: string, rep: string)
    requires pat != [] && !Occurs(s, pat)
    ensures ReplaceAll(s, pat, rep) == s
    decreases |s|
  {
    if |s| >= |pat| {
      assert !MatchAt(s, pat, 0);
      assert s[0..|pat|] == s[..|pat|];
      if Occurs(s[1..], pat) {
        var k: nat :| MatchAt(s[1..], pat, k);
        assert s[1..][k..k + |pat|] == s[k + 1..k + 1 + |pat|];
        assert MatchAt(s, pat, k + 1);
      }
      ReplaceAbsent(s[1..], pat, rep);
    }
  }

  /** Replacing a string by itself leaves the text alone. */
  lemma {:induction false} ReplaceBySelf(s: string, w: string)
    ensures ReplaceAll(s, w, w) == s
    decreases |s|
  {
    if w == [] {
      InsertNothing(s);
    } else if |s| < |w| {
    } else if s[..|w|] == w {
      ReplaceBySelf(s[|w|..], w);
      assert s == s[..|w|] + s[|w|..];
    } else {
      ReplaceBySelf(s[1..], w);
      assert s == [s[0]] + s[1..];
    }
  }

  lemma {:induction false} InsertNothing(s: string)
    ensures InsertEverywhere(s, []) == s
  {
    if s != [] {
      InsertNothing(s[1..]);
      assert s == [s[0]] + s[1..];
    }
  }
}
