/** What `PipeLine._replace_stopwords_with_positions` computes: which words of the cleaned query
    survive stop-word removal, and how the survivors group into chunks. */
module Chunking {
  import opened Text
  import opened Seqs

  /** Interrogatives kept at the head of a query even when they are stop words. */
  const QuestionWords: set<string> := {"who", "what", "where", "when", "why", "how", "which"}

  /** No word before position `i` survives: each is a stop word and not a question word. */
  predicate NothingKeptBefore(words: seq<string>, stop: set<string>, i: nat)
    requires i <= |words|
  {
    forall j :: 0 <= j < i ==> words[j] in stop && words[j] !in QuestionWords
  }

  /** Word `i` survives: it is not a stop word, or it is a question word with nothing kept before. */
  predicate Keeps(words: seq<string>, stop: set<string>, i: nat)
    requires i < |words|
  {
    words[i] !in stop || (words[i] in QuestionWords && NothingKeptBefore(words, stop, i))
  }

  function KeptFlags(words: seq<string>, stop: set<string>): (kept: seq<bool>)
    ensures |kept| == |words|
    ensures forall i :: 0 <= i < |words| ==> kept[i] == Keeps(words, stop, i)
  {
    seq(|words|, i requires 0 <= i < |words| => Keeps(words, stop, i))
  }

  /** If some word before `i` would survive at the head, the first such word does. */
  lemma {:induction false} FirstNonStop(words: seq<string>, stop: set<string>, i: nat)
    requires i <= |words| && !NothingKeptBefore(words, stop, i)
    ensures exists j :: (0 <= j < i && NothingKeptBefore(words, stop, j)
      && !(words[j] in stop && words[j] !in QuestionWords))
  {
    if NothingKeptBefore(words, stop, i - 1) {
      assert !(words[i - 1] in stop && words[i - 1] !in QuestionWords);
    } else {
      FirstNonStop(words, stop, i - 1);
    }
  }

  /** "Nothing kept before `i`" means exactly that no earlier word survives. */
  lemma NothingKeptMeansNoneKept(words: seq<string>, stop: set<string>, i: nat)
    requires i <= |words|
    ensures NothingKeptBefore(words, stop, i) <==> forall j :: 0 <= j < i ==> !Keeps(words, stop, j)
  {
    if !NothingKeptBefore(words, stop, i) {
      FirstNonStop(words, stop, i);
      var j :| 0 <= j < i && NothingKeptBefore(words, stop, j)
        && !(words[j] in stop && words[j] !in QuestionWords);
      assert Keeps(words, stop, j);
    }
  }

  /** A stop word survives only as a question word with nothing kept before it. */
  lemma StopWordKeptOnlyAtHead(words: seq<string>, stop: set<string>, i: nat)
    requires i < |words| && words[i] in stop && Keeps(words, stop, i)
    ensures words[i] in QuestionWords
    ensures forall j :: 0 <= j < i ==> !Keeps(words, stop, j)
  {
    NothingKeptMeansNoneKept(words, stop, i);
  }

  // ---------------------------------------------------------------------------
  // Maximal runs of surviving words

  /** Half-open index range `[lo, hi)` into the word list. */
  datatype Run = Run(lo: nat, hi: nat)

  /** Every run lies inside the first `n` flags and holds only kept words. */
  ghost predicate RunsWithin(kept: seq<bool>, n: nat, runs: seq<Run>)
    requires n <= |kept|
  {
    && (forall k :: 0 <= k < |runs| ==> runs[k].lo < runs[k].hi <= n)
    && (forall k, i :: 0 <= k < |runs| && runs[k].lo <= i < runs[k].hi ==> kept[i])
  }

  /** Runs come in order with a gap between any two. */
  ghost predicate RunsApart(runs: seq<Run>) {
    forall k, m :: 0 <= k < m < |runs| ==> runs[k].hi < runs[m].lo
  }

  /** No run could grow to the left or (within the first `n` flags) to the right. */
  ghost predicate RunsCannotGrow(kept: seq<bool>, n: nat, runs: seq<Run>)
    requires n <= |kept|
    requires RunsWithin(kept, n, runs)
  {
    && (forall k :: 0 <= k < |runs| ==> runs[k].lo == 0 || !kept[runs[k].lo - 1])
    && (forall k :: 0 <= k < |runs| ==> runs[k].hi == n || !kept[runs[k].hi])
  }

  /** Every kept word among the first `n` lies in some run. */
  ghost predicate RunsCover(kept: seq<bool>, n: nat, runs: seq<Run>)
    requires n <= |kept|
  {
    forall i {:trigger InRun(runs, i)} :: 0 <= i < n && kept[i] ==> InRun(runs, i)
  }

  /** Word `i` lies in one of the runs. */
  ghost predicate InRun(runs: seq<Run>, i: nat) {
    exists k :: 0 <= k < |runs| && runs[k].lo <= i < runs[k].hi
  }

  /** `runs` are exactly the maximal runs of `true` among the first `n` flags, in order. */
  ghost predicate MaximalRuns(kept: seq<bool>, n: nat, runs: seq<Run>)
    requires n <= |kept|
  {
    RunsWithin(kept, n, runs) && RunsApart(runs) && RunsCannotGrow(kept, n, runs) && RunsCover(kept, n, runs)
  }

  /** The runs of the first `n` flags, built left to right the way the chunker's loop grows its
      current chunk. */
  function RunsUpTo(kept: seq<bool>, n: nat): (runs: seq<Run>)
    requires n <= |kept|
    ensures forall k :: 0 <= k < |runs| ==> runs[k].lo < runs[k].hi <= n
  {
    if n == 0 then []
    else
      var prev := RunsUpTo(kept, n - 1);
      if !kept[n - 1] then prev
      else if prev != [] && prev[|prev| - 1].hi == n - 1 then
        prev[..|prev| - 1] + [Run(prev[|prev| - 1].lo, n)]
      else
        prev + [Run(n - 1, n)]
  }

  function Runs(kept: seq<bool>): (runs: seq<Run>)
    ensures forall k :: 0 <= k < |runs| ==> runs[k].lo < runs[k].hi <= |kept|
  {
    RunsUpTo(kept, |kept|)
  }

  /** There are no runs exactly when no word is kept. */
  lemma {:induction false} RunsEmpty(kept: seq<bool>, n: nat)
    requires n <= |kept|
    ensures RunsUpTo(kept, n) == [] <==> forall i :: 0 <= i < n ==> !kept[i]
  {
    if n > 0 {
      RunsEmpty(kept, n - 1);
    }
  }

  /** A kept last word closes the last run. */
  lemma RunsLastClosed(kept: seq<bool>, n: nat)
    requires 0 < n <= |kept| && kept[n - 1]
    ensures RunsUpTo(kept, n) != [] && RunsUpTo(kept, n)[|RunsUpTo(kept, n)| - 1].hi == n
  {
  }

  /** A dropped last word leaves every run closed before it. */
  lemma RunsEndBefore(kept: seq<bool>, n: nat)
    requires n <= |kept| && (n == 0 || !kept[n - 1])
    ensures forall k :: 0 <= k < |RunsUpTo(kept, n)| ==> RunsUpTo(kept, n)[k].hi < n
  {
    if n > 0 {
      RunsAreMaximal(kept, n);
      var runs := RunsUpTo(kept, n);
      forall k | 0 <= k < |runs| ensures runs[k].hi < n {
        assert kept[runs[k].hi - 1];
      }
    }
  }

  /** `RunsUpTo` finds exactly the maximal runs. */
  lemma {:induction false} RunsAreMaximal(kept: seq<bool>, n: nat)
    requires n <= |kept|
    ensures MaximalRuns(kept, n, RunsUpTo(kept, n))
  {
    if n > 0 {
      RunsAreMaximal(kept, n - 1);
      RunsStep(kept, n);
    }
  }

  /** `runs` is `prev` with its last run stretched to end at `n`. */
  ghost predicate Extended(prev: seq<Run>, runs: seq<Run>, n: nat) {
    && prev != [] && |runs| == |prev|
    && (forall k :: 0 <= k < |prev| - 1 ==> runs[k] == prev[k])
    && runs[|prev| - 1] == Run(prev[|prev| - 1].lo, n)
  }

  /** `runs` is `prev` followed by the one-word run `[n - 1, n)`. */
  ghost predicate Opened(prev: seq<Run>, runs: seq<Run>, n: nat)
    requires n > 0
  {
    && |runs| == |prev| + 1
    && (forall k :: 0 <= k < |prev| ==> runs[k] == prev[k])
    && runs[|prev|] == Run(n - 1, n)
  }

  /** One more flag keeps the runs maximal. */
  lemma RunsStep(kept: seq<bool>, n: nat)
    requires 0 < n <= |kept|
    requires MaximalRuns(kept, n - 1, RunsUpTo(kept, n - 1))
    ensures MaximalRuns(kept, n, RunsUpTo(kept, n))
  {
    var prev := RunsUpTo(kept, n - 1);
    if n > 1 && kept[n - 2] {
      RunsLastClosed(kept, n - 1);
    }
    if !kept[n - 1] {
      RunsSkip(kept, n, prev);
    } else if prev != [] && prev[|prev| - 1].hi == n - 1 {
      RunsExtend(kept, n, prev, RunsUpTo(kept, n));
    } else {
      RunsOpen(kept, n, prev, RunsUpTo(kept, n));
    }
  }

  /** A dropped word closes nothing new. */
  lemma RunsSkip(kept: seq<bool>, n: nat, prev: seq<Run>)
    requires 0 < n <= |kept| && !kept[n - 1]
    requires MaximalRuns(kept, n - 1, prev)
    ensures MaximalRuns(kept, n, prev)
  {
    assert RunsWithin(kept, n, prev);
    assert RunsCannotGrow(kept, n, prev);
    assert RunsCover(kept, n, prev);
  }

  /** A kept word right after the last run extends it. */
  lemma RunsExtend(kept: seq<bool>, n: nat, prev: seq<Run>, runs: seq<Run>)
    requires 0 < n <= |kept| && kept[n - 1]
    requires prev != [] && prev[|prev| - 1].hi == n - 1
    requires MaximalRuns(kept, n - 1, prev)
    requires runs == prev[..|prev| - 1] + [Run(prev[|prev| - 1].lo, n)]
    ensures MaximalRuns(kept, n, runs)
  {
    assert Extended(prev, runs, n);
    ExtendWithin(kept, n, prev, runs);
    ExtendApart(prev, runs, n);
    ExtendCannotGrow(kept, n, prev, runs);
    ExtendCover(kept, n, prev, runs);
  }

  lemma ExtendWithin(kept: seq<bool>, n: nat, prev: seq<Run>, runs: seq<Run>)
    requires 0 < n <= |kept| && kept[n - 1]
    requires Extended(prev, runs, n) && prev[|prev| - 1].hi == n - 1
    requires RunsWithin(kept, n - 1, prev)
    ensures RunsWithin(kept, n, runs)
  {
    var L := |prev| - 1;
    forall k, i | 0 <= k < |runs| && runs[k].lo <= i < runs[k].hi ensures kept[i] {
      if k == L && i < n - 1 { assert prev[L].lo <= i < prev[L].hi; }
    }
  }

  lemma ExtendApart(prev: seq<Run>, runs: seq<Run>, n: nat)
    requires Extended(prev, runs, n) && RunsApart(prev)
    ensures RunsApart(runs)
  {
    forall k, m | 0 <= k < m < |runs| ensures runs[k].hi < runs[m].lo {
      assert prev[k].hi < prev[m].lo;
    }
  }

  lemma ExtendCannotGrow(kept: seq<bool>, n: nat, prev: seq<Run>, runs: seq<Run>)
    requires 0 < n <= |kept|
    requires Extended(prev, runs, n) && prev[|prev| - 1].hi == n - 1
    requires RunsWithin(kept, n - 1, prev) && RunsApart(prev) && RunsCannotGrow(kept, n - 1, prev)
    requires RunsWithin(kept, n, runs)
    ensures RunsCannotGrow(kept, n, runs)
  {
    var L := |prev| - 1;
    forall k | 0 <= k < L ensures !kept[runs[k].hi] {
      assert prev[k].hi < prev[L].lo;
    }
  }

  lemma ExtendCover(kept: seq<bool>, n: nat, prev: seq<Run>, runs: seq<Run>)
    requires 0 < n <= |kept|
    requires Extended(prev, runs, n) && prev[|prev| - 1].hi == n - 1
    requires RunsWithin(kept, n - 1, prev) && RunsCover(kept, n - 1, prev)
    ensures RunsCover(kept, n, runs)
  {
    var L := |prev| - 1;
    forall i | 0 <= i < n && kept[i] ensures InRun(runs, i) {
      if i == n - 1 {
        assert runs[L].lo <= i < runs[L].hi;
      } else {
        assert InRun(prev, i);
        var k :| 0 <= k < |prev| && prev[k].lo <= i < prev[k].hi;
        if k == L { assert runs[L].lo <= i < runs[L].hi; } else { assert runs[k] == prev[k]; }
      }
    }
  }

  /** A kept word after a dropped one opens a new run. */
  lemma RunsOpen(kept: seq<bool>, n: nat, prev: seq<Run>, runs: seq<Run>)
    requires 0 < n <= |kept| && kept[n - 1]
    requires prev == [] || prev[|prev| - 1].hi != n - 1
    requires MaximalRuns(kept, n - 1, prev)
    requires n > 1 && kept[n - 2] ==> prev != [] && prev[|prev| - 1].hi == n - 1
    requires runs == prev + [Run(n - 1, n)]
    ensures MaximalRuns(kept, n, runs)
  {
    assert Opened(prev, runs, n);
    RunsBefore(kept, n, prev);
    OpenWithin(kept, n, prev, runs);
    OpenApart(prev, runs, n);
    OpenCannotGrow(kept, n, prev, runs);
    OpenCover(kept, n, prev, runs);
  }

  /** When the last run does not reach the last flag, every run ends before it. */
  lemma RunsBefore(kept: seq<bool>, n: nat, prev: seq<Run>)
    requires 0 < n <= |kept|
    requires prev == [] || prev[|prev| - 1].hi != n - 1
    requires RunsWithin(kept, n - 1, prev) && RunsApart(prev)
    ensures forall k :: 0 <= k < |prev| ==> prev[k].hi < n - 1
  {
    forall k | 0 <= k < |prev| ensures prev[k].hi < n - 1 {
      if k < |prev| - 1 { assert prev[k].hi < prev[|prev| - 1].lo; }
    }
  }

  lemma OpenWithin(kept: seq<bool>, n: nat, prev: seq<Run>, runs: seq<Run>)
    requires 0 < n <= |kept| && kept[n - 1]
    requires Opened(prev, runs, n) && RunsWithin(kept, n - 1, prev)
    ensures RunsWithin(kept, n, runs)
  {
    forall k, i | 0 <= k < |runs| && runs[k].lo <= i < runs[k].hi ensures kept[i] {
      if k < |prev| { assert prev[k].lo <= i < prev[k].hi; }
    }
  }

  lemma OpenApart(prev: seq<Run>, runs: seq<Run>, n: nat)
    requires n > 0 && Opened(prev, runs, n) && RunsApart(prev)
    requires forall k :: 0 <= k < |prev| ==> prev[k].hi < n - 1
    ensures RunsApart(runs)
  {
    forall k, m | 0 <= k < m < |runs| ensures runs[k].hi < runs[m].lo {
      if m < |prev| { assert prev[k].hi < prev[m].lo; }
    }
  }

  lemma OpenCannotGrow(kept: seq<bool>, n: nat, prev: seq<Run>, runs: seq<Run>)
    requires 0 < n <= |kept|
    requires Opened(prev, runs, n) && RunsWithin(kept, n - 1, prev) && RunsCannotGrow(kept, n - 1, prev)
    requires forall k :: 0 <= k < |prev| ==> prev[k].hi < n - 1
    requires n > 1 ==> !kept[n - 2]
    requires RunsWithin(kept, n, runs)
    ensures RunsCannotGrow(kept, n, runs)
  {
  }

  lemma OpenCover(kept: seq<bool>, n: nat, prev: seq<Run>, runs: seq<Run>)
    requires 0 < n <= |kept|
    requires Opened(prev, runs, n) && RunsCover(kept, n - 1, prev)
    ensures RunsCover(kept, n, runs)
  {
    forall i | 0 <= i < n && kept[i] ensures InRun(runs, i) {
      if i == n - 1 {
        assert runs[|prev|].lo <= i < runs[|prev|].hi;
      } else {
        assert InRun(prev, i);
        var k :| 0 <= k < |prev| && prev[k].lo <= i < prev[k].hi;
        assert runs[k] == prev[k];
      }
    }
  }

  // ---------------------------------------------------------------------------
  // Chunks

  /** A chunk: its text in the cleaned query, its character range, and its words. */
  datatype Chunk = Chunk(text: string, start: nat, end: nat, words: seq<Span>)

  /** Spans that fit in `lq`, each ending no later than the next one starts. */
  ghost predicate Ordered(lq: string, ws: seq<Span>) {
    && (forall k :: 0 <= k < |ws| ==> ws[k].start < ws[k].end <= |lq| && ws[k].word == lq[ws[k].start..ws[k].end])
    && (forall k, m :: 0 <= k < m < |ws| ==> ws[k].end <= ws[m].start)
  }

  /** The chunk record closed over the words of the current chunk. */
  function ChunkOf(lq: string, ws: seq<Span>): (c: Chunk)
    requires ws != []
    ensures c.words == ws && c.start == ws[0].start && c.end == ws[|ws| - 1].end
    ensures c.text == Slice(lq, c.start, c.end)
  {
    Chunk(Slice(lq, ws[0].start, ws[|ws| - 1].end), ws[0].start, ws[|ws| - 1].end, ws)
  }

  function ChunksOf(lq: string, spans: seq<Span>, runs: seq<Run>): (cs: seq<Chunk>)
    requires forall k :: 0 <= k < |runs| ==> runs[k].lo < runs[k].hi <= |spans|
    ensures |cs| == |runs|
  {
    seq(|runs|, k requires 0 <= k < |runs| => ChunkOf(lq, spans[runs[k].lo..runs[k].hi]))
  }

  /** Chunk `k` is the chunk of run `k`, and holds exactly that run's spans. */
  lemma ChunksOfRuns(lq: string, spans: seq<Span>, runs: seq<Run>)
    requires forall k :: 0 <= k < |runs| ==> runs[k].lo < runs[k].hi <= |spans|
    ensures forall k :: 0 <= k < |runs| ==> ChunksOf(lq, spans, runs)[k].words == spans[runs[k].lo..runs[k].hi]
    ensures forall k :: 0 <= k < |runs| ==>
      ChunksOf(lq, spans, runs)[k] == ChunkOf(lq, spans[runs[k].lo..runs[k].hi])
  {
  }

  /** Closing the last run appends its chunk. */
  lemma ChunksOfSnoc(lq: string, spans: seq<Span>, runs: seq<Run>)
    requires runs != []
    requires forall k :: 0 <= k < |runs| ==> runs[k].lo < runs[k].hi <= |spans|
    ensures ChunksOf(lq, spans, runs) ==
      ChunksOf(lq, spans, runs[..|runs| - 1]) + [ChunkOf(lq, spans[runs[|runs| - 1].lo..runs[|runs| - 1].hi])]
  {
  }

  lemma TrackedIsOrdered(lq: string)
    ensures Ordered(lq, TrackFrom(lq, 0))
  {
    TrackFromTracked(lq, 0);
    TrackedPairwise(lq, 0, TrackFrom(lq, 0));
  }

  /** The chunks of the cleaned query `lq` under the stop-word list `stop`. */
  function Chunks(lq: string, stop: set<string>): seq<Chunk> {
    var spans := TrackFrom(lq, 0);
    var kept := KeptFlags(Words(spans), stop);
    ChunksOf(lq, spans, Runs(kept))
  }

  /** What the chunker holds after `i` words: the chunks of every closed run, and the current
      chunk, which is the open run ending at word `i - 1` (empty when that word was dropped). */
  ghost predicate ChunkerState(lq: string, spans: seq<Span>, kept: seq<bool>, i: nat,
                               chunks: seq<Chunk>, current: seq<Span>)
    requires |kept| == |spans| && i <= |kept|
  {
    var R := RunsUpTo(kept, i);
    if i > 0 && kept[i - 1] then
      R != [] && chunks == ChunksOf(lq, spans, R[..|R| - 1]) && current == spans[R[|R| - 1].lo..i]
    else
      chunks == ChunksOf(lq, spans, R) && current == []
  }

  lemma ChunkerStateFacts(lq: string, spans: seq<Span>, kept: seq<bool>, i: nat,
                          chunks: seq<Chunk>, current: seq<Span>)
    requires |kept| == |spans| && i <= |kept|
    requires ChunkerState(lq, spans, kept, i, chunks, current)
    ensures (chunks == [] && current == []) <==> RunsUpTo(kept, i) == []
  {
  }

  /** A kept word joins the current chunk. */
  lemma ChunkerKeep(lq: string, spans: seq<Span>, kept: seq<bool>, i: nat,
                    chunks: seq<Chunk>, current: seq<Span>, span: Span)
    requires |kept| == |spans| && i < |kept| && kept[i] && span == spans[i]
    requires ChunkerState(lq, spans, kept, i, chunks, current)
    ensures ChunkerState(lq, spans, kept, i + 1, chunks, current + [span])
  {
    var R := RunsUpTo(kept, i);
    var R' := RunsUpTo(kept, i + 1);
    if i > 0 && kept[i - 1] {
      RunsLastClosed(kept, i);
      var lo := R[|R| - 1].lo;
      assert R' == R[..|R| - 1] + [Run(lo, i + 1)];
      assert R'[..|R'| - 1] == R[..|R| - 1];
      SliceSnoc(spans, lo, i);
    } else {
      RunsEndBefore(kept, i);
      assert R' == R + [Run(i, i + 1)];
      assert R'[..|R'| - 1] == R;
      SliceSnoc(spans, i, i);
    }
  }

  /** A dropped word closes the current chunk. */
  lemma ChunkerClose(lq: string, spans: seq<Span>, kept: seq<bool>, i: nat,
                     chunks: seq<Chunk>, current: seq<Span>)
    requires |kept| == |spans| && i < |kept| && !kept[i] && current != []
    requires ChunkerState(lq, spans, kept, i, chunks, current)
    ensures ChunkerState(lq, spans, kept, i + 1, chunks + [ChunkOf(lq, current)], [])
  {
    ChunkerStateFacts(lq, spans, kept, i, chunks, current);
    var R := RunsUpTo(kept, i);
    RunsLastClosed(kept, i);
    ChunksOfSnoc(lq, spans, R);
  }

  /** A dropped word with no current chunk changes nothing. */
  lemma ChunkerSkip(lq: string, spans: seq<Span>, kept: seq<bool>, i: nat,
                    chunks: seq<Chunk>, current: seq<Span>)
    requires |kept| == |spans| && i < |kept| && !kept[i] && current == []
    requires ChunkerState(lq, spans, kept, i, chunks, current)
    ensures ChunkerState(lq, spans, kept, i + 1, chunks, current)
  {
    ChunkerStateFacts(lq, spans, kept, i, chunks, current);
  }

  /** After the last word, closing the open chunk yields all the chunks. */
  lemma ChunkerFinish(lq: string, spans: seq<Span>, kept: seq<bool>,
                      chunks: seq<Chunk>, current: seq<Span>)
    requires |kept| == |spans|
    requires ChunkerState(lq, spans, kept, |kept|, chunks, current)
    ensures current != [] ==> chunks + [ChunkOf(lq, current)] == ChunksOf(lq, spans, Runs(kept))
    ensures current == [] ==> chunks == ChunksOf(lq, spans, Runs(kept))
  {
    var n := |kept|;
    ChunkerStateFacts(lq, spans, kept, n, chunks, current);
    if n > 0 && kept[n - 1] {
      RunsLastClosed(kept, n);
      ChunksOfSnoc(lq, spans, RunsUpTo(kept, n));
    }
  }

  /** From the end of the previous word, `find` lands on the next tracked word. */
  lemma FindNextWord(lq: string, pos: nat, spans: seq<Span>, i: nat)
    requires i < |spans| && spans == TrackFrom(lq, 0)
    requires pos == if i == 0 then 0 else spans[i - 1].end
    ensures SplitWs(lq)[i] == spans[i].word
    ensures FindFrom(lq, spans[i].word, pos) == spans[i].start
    ensures spans[i].end == spans[i].start + |spans[i].word| <= |lq|
  {
    if i > 0 {
      TrackFromResumes(lq, 0, i - 1);
    }
    assert pos <= |lq| && TrackFrom(lq, pos) == spans[i..];
    FindNextTracked(lq, pos);
    TailOfSlice(spans, i);
    TrackFromTracked(lq, 0);
  }

  /** The chunker's test decides exactly `Keeps`, given that "no chunk yet" means nothing kept. */
  lemma KeepDecision(words: seq<string>, stop: set<string>, kept: seq<bool>, i: nat, noneYet: bool)
    requires i < |words| && kept == KeptFlags(words, stop)
    requires noneYet <==> RunsUpTo(kept, i) == []
    ensures kept[i] == ((words[i] in QuestionWords && noneYet) || words[i] !in stop)
  {
    RunsEmpty(kept, i);
    NothingKeptMeansNoneKept(words, stop, i);
  }

  /** `_replace_stopwords_with_positions`: walk the words of `lq`, locate each with `find` from
      the end of the previous one, grow the current chunk with kept words and close it at
      every dropped word. The chunks are exactly those of `Chunks`. */
  method ChunkQuery(lq: string, stop: set<string>) returns (chunks: seq<Chunk>)
    ensures chunks == Chunks(lq, stop)
  {
    var words := SplitWs(lq);
    ghost var spans := TrackFrom(lq, 0);
    ghost var kept := KeptFlags(words, stop);
    chunks := [];
    var current: seq<Span> := [];
    var currentPos: nat := 0;
    var i := 0;
    while i < |words|
      invariant 0 <= i <= |words|
      invariant currentPos == if i == 0 then 0 else spans[i - 1].end
      invariant ChunkerState(lq, spans, kept, i, chunks, current)
    {
      chunks, current, currentPos := ChunkWord(lq, stop, words, spans, kept, i, chunks, current, currentPos);
      i := i + 1;
    }
    ChunkerFinish(lq, spans, kept, chunks, current);
    if current != [] {
      chunks := chunks + [ChunkOf(lq, current)];
    }
  }

  /** One pass of the chunker's loop: locate word `i` with `find` from the end of the previous
      word, then keep it in the current chunk, or drop it and close the current chunk. */
  method ChunkWord(lq: string, stop: set<string>, words: seq<string>, ghost spans: seq<Span>,
                   ghost kept: seq<bool>, i: nat, chunks: seq<Chunk>, current: seq<Span>, pos: nat)
    returns (chunks': seq<Chunk>, current': seq<Span>, pos': nat)
    requires words == SplitWs(lq) && spans == TrackFrom(lq, 0) && kept == KeptFlags(words, stop)
    requires i < |words|
    requires pos == if i == 0 then 0 else spans[i - 1].end
    requires ChunkerState(lq, spans, kept, i, chunks, current)
    ensures pos' == spans[i].end
    ensures ChunkerState(lq, spans, kept, i + 1, chunks', current')
  {
    FindNextWord(lq, pos, spans, i);
    var word := words[i];
    var wordStart := FindFrom(lq, word, pos);
    assert wordStart == spans[i].start;
    var wordEnd := wordStart + |word|;
    assert wordEnd == spans[i].end;
    pos' := wordEnd;

    ChunkerStateFacts(lq, spans, kept, i, chunks, current);
    KeepDecision(words, stop, kept, i, |chunks| == 0 && |current| == 0);
    var shouldKeep := false;
    if word in QuestionWords && |chunks| == 0 && |current| == 0 {
      shouldKeep := true;
    } else if word !in stop {
      shouldKeep := true;
    }
    assert shouldKeep == kept[i];

    if shouldKeep {
      var span := Span(word, wordStart, wordEnd);
      ChunkerKeep(lq, spans, kept, i, chunks, current, span);
      chunks', current' := chunks, current + [span];
    } else if current != [] {
      ChunkerClose(lq, spans, kept, i, chunks, current);
      chunks', current' := chunks + [ChunkOf(lq, current)], [];
    } else {
      ChunkerSkip(lq, spans, kept, i, chunks, current);
      chunks', current' := chunks, current;
    }
  }

  /** Every chunk is a maximal run of consecutive kept words: its words are exactly the spans
      of that run. */
  lemma ChunksAreMaximalRuns(lq: string, stop: set<string>)
    ensures MaximalRuns(KeptFlags(SplitWs(lq), stop), |SplitWs(lq)|, Runs(KeptFlags(SplitWs(lq), stop)))
    ensures var runs := Runs(KeptFlags(SplitWs(lq), stop));
      var cs := Chunks(lq, stop);
      |cs| == |runs| &&
      forall k :: 0 <= k < |cs| ==> cs[k].words == TrackFrom(lq, 0)[runs[k].lo..runs[k].hi]
  {
    RunsAreMaximal(KeptFlags(SplitWs(lq), stop), |SplitWs(lq)|);
  }

  /** A chunk's text is the query between its first word's start and its last word's end. */
  lemma ChunkTextIsSlice(lq: string, stop: set<string>, k: nat)
    requires k < |Chunks(lq, stop)|
    ensures var c := Chunks(lq, stop)[k];
      && c.words != []
      && c.start == c.words[0].start
      && c.end == c.words[|c.words| - 1].end
      && c.start < c.end <= |lq|
      && c.text == lq[c.start..c.end]
  {
    var spans := TrackFrom(lq, 0);
    var runs := Runs(KeptFlags(Words(spans), stop));
    TrackedIsOrdered(lq);
    assert Chunks(lq, stop)[k] == ChunkOf(lq, spans[runs[k].lo..runs[k].hi]);
    assert spans[runs[k].lo].start < spans[runs[k].lo].end <= spans[runs[k].hi - 1].end;
  }
}
