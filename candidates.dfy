/** `EntityCandidate` and the candidate generator of `PipeLine`: chunk, sub-phrase, word and
    expanded-term candidates over the chunks of the cleaned query, and the filter that keeps the
    first of every group of overlapping phrases. */
module Candidates {
  import opened Wrappers
  import opened Text
  import opened Seqs
  import opened Chunking
  import opened Dicts

  /** `candidate_type`: "chunk", "sub_phrase", "word" or "expanded_term". */
  datatype Kind = ChunkKind | SubPhrase | WordKind | ExpandedTerm

  /** The two phrase kinds, which the filter thins out; the others all pass. */
  predicate IsPhrase(k: Kind) {
    k == ChunkKind || k == SubPhrase
  }

  /** What a candidate is built with; none of it changes afterwards. */
  datatype Info = Info(text: string, start: nat, end: nat, kind: Kind, priority: nat)

  /** A candidate: fixed text and range, and the entity the mapper may assign to it. */
  class EntityCandidate {
    const text: string
    const start: nat
    const end: nat
    const kind: Kind
    const priority: nat
    var entity: Option<string>
    var canonical: Option<string>

    constructor (text: string, start: nat, end: nat, kind: Kind, priority: nat)
      ensures this.text == text && this.start == start && this.end == end
      ensures this.kind == kind && this.priority == priority
      ensures entity == None && canonical == None
    {
      this.text := text;
      this.start := start;
      this.end := end;
      this.kind := kind;
      this.priority := priority;
      entity := None;
      canonical := None;
    }

    /** `entatise`: the entity and the canonical name both become `e`. */
    method Entatise(e: string)
      modifies this
      ensures entity == Some(e) && canonical == Some(e)
    {
      entity := Some(e);
      canonical := Some(e);
    }

    function InfoOf(): Info {
      Info(text, start, end, kind, priority)
    }
  }

  /** A candidate the mapper has not marked yet: no entity and no canonical name. */
  predicate Unmapped(c: EntityCandidate)
    reads c
  {
    c.entity == None && c.canonical == None
  }

  function Infos(cs: seq<EntityCandidate>): seq<Info> {
    seq(|cs|, k requires 0 <= k < |cs| => cs[k].InfoOf())
  }

  lemma InfosSnoc(cs: seq<EntityCandidate>, c: EntityCandidate)
    ensures Infos(cs + [c]) == Infos(cs) + [c.InfoOf()]
  {
  }

  /** Appending one tier's step to what has been built so far. */
  lemma Extend(base: seq<Info>, tier: seq<Info>, tier': seq<Info>, step: seq<Info>)
    requires tier' == tier + step
    ensures base + tier' == (base + tier) + step
  {
    AppendAssoc(base, tier, step);
  }

  /** `_is_meaningful_word`: at least three characters. */
  predicate IsMeaningfulWord(word: string) {
    |word| >= 3
  }

  // ---------------------------------------------------------------------------
  // Priority 1: multi-word chunks

  function ChunkCandidate(c: Chunk): Info {
    Info(c.text, c.start, c.end, ChunkKind, 1)
  }

  function ChunkTier(cs: seq<Chunk>): seq<Info> {
    if cs == [] then []
    else
      var n := |cs| - 1;
      ChunkTier(cs[..n]) + (if |cs[n].words| > 1 then [ChunkCandidate(cs[n])] else [])
  }

  /** The chunk tier holds exactly the chunks of more than one word. */
  lemma {:induction false} ChunkTierSpec(cs: seq<Chunk>)
    ensures forall x :: x in ChunkTier(cs) <==>
      exists k :: 0 <= k < |cs| && |cs[k].words| > 1 && x == ChunkCandidate(cs[k])
  {
    if cs != [] {
      var n := |cs| - 1;
      ChunkTierSpec(cs[..n]);
      forall x | x in ChunkTier(cs)
        ensures exists k :: 0 <= k < |cs| && |cs[k].words| > 1 && x == ChunkCandidate(cs[k])
      {
        if x !in ChunkTier(cs[..n]) {
          assert x == ChunkCandidate(cs[n]);
        } else {
          var k :| 0 <= k < n && |cs[..n][k].words| > 1 && x == ChunkCandidate(cs[..n][k]);
          assert cs[k] == cs[..n][k];
        }
      }
      forall k | 0 <= k < |cs| && |cs[k].words| > 1 ensures ChunkCandidate(cs[k]) in ChunkTier(cs) {
        if k < n {
          assert cs[..n][k] == cs[k];
        }
      }
    }
  }

  method AddChunkCandidates(chunks: seq<Chunk>, cands: seq<EntityCandidate>) returns (r: seq<EntityCandidate>)
    ensures Infos(r) == Infos(cands) + ChunkTier(chunks)
    ensures forall c :: c in r ==> c in cands || (fresh(c) && Unmapped(c))
  {
    r := cands;
    AppendEmpty(Infos(cands));
    var i := 0;
    while i < |chunks|
      invariant 0 <= i <= |chunks|
      invariant Infos(r) == Infos(cands) + ChunkTier(chunks[..i])
      invariant forall c :: c in r ==> c in cands || (fresh(c) && Unmapped(c))
    {
      var chunk := chunks[i];
      PrefixOfPrefix(chunks, i);
      if |chunk.words| > 1 {
        var c := new EntityCandidate(chunk.text, chunk.start, chunk.end, ChunkKind, 1);
        InfosSnoc(r, c);
        Extend(Infos(cands), ChunkTier(chunks[..i]), ChunkTier(chunks[..i + 1]), [c.InfoOf()]);
        r := r + [c];
      } else {
        AppendEmpty(ChunkTier(chunks[..i]));
      }
      i := i + 1;
    }
    SliceAll(chunks);
  }

  // ---------------------------------------------------------------------------
  // Priority 2: adjacent word pairs of each chunk

  function PairCandidate(lq: string, a: Span, b: Span): Info {
    Info(Slice(lq, a.start, b.end), a.start, b.end, SubPhrase, 2)
  }

  /** The pairs `(ws[i], ws[i + 1])` for `i < n`. */
  function Pairs(lq: string, ws: seq<Span>, n: nat): seq<Info>
    requires n < |ws| || n == 0
  {
    if n == 0 then [] else Pairs(lq, ws, n - 1) + [PairCandidate(lq, ws[n - 1], ws[n])]
  }

  /** Pair `i` joins word `i` and word `i + 1`; there are `n` of them. */
  lemma {:induction false} PairsSpec(lq: string, ws: seq<Span>, n: nat)
    requires n < |ws| || n == 0
    ensures |Pairs(lq, ws, n)| == n
    ensures forall i :: 0 <= i < n ==> Pairs(lq, ws, n)[i] == PairCandidate(lq, ws[i], ws[i + 1])
  {
    if n > 0 {
      PairsSpec(lq, ws, n - 1);
    }
  }

  function ChunkPairs(lq: string, c: Chunk): seq<Info> {
    if |c.words| >= 2 then Pairs(lq, c.words, |c.words| - 1) else []
  }

  function SubPhraseTier(lq: string, cs: seq<Chunk>): seq<Info> {
    if cs == [] then []
    else
      var n := |cs| - 1;
      SubPhraseTier(lq, cs[..n]) + ChunkPairs(lq, cs[n])
  }

  /** A chunk of `m` words yields `m - 1` sub-phrases (none for one word), pair `i` running from
      the start of word `i` to the end of word `i + 1`. */
  lemma ChunkPairsSpec(lq: string, c: Chunk)
    ensures |ChunkPairs(lq, c)| == if |c.words| >= 2 then |c.words| - 1 else 0
    ensures forall i :: 0 <= i < |ChunkPairs(lq, c)| ==>
      ChunkPairs(lq, c)[i] == PairCandidate(lq, c.words[i], c.words[i + 1])
  {
    if |c.words| >= 2 {
      PairsSpec(lq, c.words, |c.words| - 1);
    }
  }

  method AddPairs(lq: string, chunk: Chunk, cands: seq<EntityCandidate>) returns (r: seq<EntityCandidate>)
    ensures Infos(r) == Infos(cands) + ChunkPairs(lq, chunk)
    ensures forall c :: c in r ==> c in cands || (fresh(c) && Unmapped(c))
  {
    r := cands;
    AppendEmpty(Infos(cands));
    var words := chunk.words;
    if |words| >= 2 {
      var i := 0;
      while i < |words| - 1
        invariant 0 <= i <= |words| - 1
        invariant Infos(r) == Infos(cands) + Pairs(lq, words, i)
        invariant forall c :: c in r ==> c in cands || (fresh(c) && Unmapped(c))
      {
        var word1 := words[i];
        var word2 := words[i + 1];
        var c := new EntityCandidate(Slice(lq, word1.start, word2.end), word1.start, word2.end, SubPhrase, 2);
        InfosSnoc(r, c);
        Extend(Infos(cands), Pairs(lq, words, i), Pairs(lq, words, i + 1), [c.InfoOf()]);
        r := r + [c];
        i := i + 1;
      }
    }
  }

  method AddSubPhraseCandidates(lq: string, chunks: seq<Chunk>, cands: seq<EntityCandidate>)
    returns (r: seq<EntityCandidate>)
    ensures Infos(r) == Infos(cands) + SubPhraseTier(lq, chunks)
    ensures forall c :: c in r ==> c in cands || (fresh(c) && Unmapped(c))
  {
    r := cands;
    AppendEmpty(Infos(cands));
    var i := 0;
    while i < |chunks|
      invariant 0 <= i <= |chunks|
      invariant Infos(r) == Infos(cands) + SubPhraseTier(lq, chunks[..i])
      invariant forall c :: c in r ==> c in cands || (fresh(c) && Unmapped(c))
    {
      PrefixOfPrefix(chunks, i);
      r := AddPairs(lq, chunks[i], r);
      Extend(Infos(cands), SubPhraseTier(lq, chunks[..i]), SubPhraseTier(lq, chunks[..i + 1]),
             ChunkPairs(lq, chunks[i]));
      i := i + 1;
    }
    SliceAll(chunks);
  }

  // ---------------------------------------------------------------------------
  // Priority 3: meaningful words

  function WordCandidate(s: Span): Info {
    Info(s.word, s.start, s.end, WordKind, 3)
  }

  /** The meaningful words among `ws[..n]`, in order. */
  function MeaningfulSpans(ws: seq<Span>, n: nat): seq<Info>
    requires n <= |ws|
  {
    if n == 0 then []
    else MeaningfulSpans(ws, n - 1) + (if IsMeaningfulWord(ws[n - 1].word) then [WordCandidate(ws[n - 1])] else [])
  }

  function WordTier(cs: seq<Chunk>): seq<Info> {
    if cs == [] then []
    else
      var n := |cs| - 1;
      WordTier(cs[..n]) + MeaningfulSpans(cs[n].words, |cs[n].words|)
  }

  /** The word candidates of `ws[..n]` are exactly its words of three characters or more. */
  lemma {:induction false} MeaningfulSpansSpec(ws: seq<Span>, n: nat)
    requires n <= |ws|
    ensures forall x :: x in MeaningfulSpans(ws, n) <==>
      exists k :: 0 <= k < n && IsMeaningfulWord(ws[k].word) && x == WordCandidate(ws[k])
  {
    if n > 0 {
      MeaningfulSpansSpec(ws, n - 1);
    }
  }

  method AddMeaningfulWords(chunk: Chunk, cands: seq<EntityCandidate>) returns (r: seq<EntityCandidate>)
    ensures Infos(r) == Infos(cands) + MeaningfulSpans(chunk.words, |chunk.words|)
    ensures forall c :: c in r ==> c in cands || (fresh(c) && Unmapped(c))
  {
    r := cands;
    AppendEmpty(Infos(cands));
    var words := chunk.words;
    var i := 0;
    while i < |words|
      invariant 0 <= i <= |words|
      invariant Infos(r) == Infos(cands) + MeaningfulSpans(words, i)
      invariant forall c :: c in r ==> c in cands || (fresh(c) && Unmapped(c))
    {
      var wordInfo := words[i];
      if IsMeaningfulWord(wordInfo.word) {
        var c := new EntityCandidate(wordInfo.word, wordInfo.start, wordInfo.end, WordKind, 3);
        InfosSnoc(r, c);
        Extend(Infos(cands), MeaningfulSpans(words, i), MeaningfulSpans(words, i + 1), [c.InfoOf()]);
        r := r + [c];
      } else {
        AppendEmpty(MeaningfulSpans(words, i));
      }
      i := i + 1;
    }
  }

  method AddWordCandidates(chunks: seq<Chunk>, cands: seq<EntityCandidate>) returns (r: seq<EntityCandidate>)
    ensures Infos(r) == Infos(cands) + WordTier(chunks)
    ensures forall c :: c in r ==> c in cands || (fresh(c) && Unmapped(c))
  {
    r := cands;
    AppendEmpty(Infos(cands));
    var i := 0;
    while i < |chunks|
      invariant 0 <= i <= |chunks|
      invariant Infos(r) == Infos(cands) + WordTier(chunks[..i])
      invariant forall c :: c in r ==> c in cands || (fresh(c) && Unmapped(c))
    {
      PrefixOfPrefix(chunks, i);
      r := AddMeaningfulWords(chunks[i], r);
      Extend(Infos(cands), WordTier(chunks[..i]), WordTier(chunks[..i + 1]),
             MeaningfulSpans(chunks[i].words, |chunks[i].words|));
      i := i + 1;
    }
    SliceAll(chunks);
  }

  // ---------------------------------------------------------------------------
  // Priority 4: expanded business terms, at the first occurrence of their source word

  /** The word spans of all chunks, chunk by chunk. */
  function AllSpans(cs: seq<Chunk>): seq<Span> {
    if cs == [] then [] else cs[0].words + AllSpans(cs[1..])
  }

  /** The first span of `ss` holding the word `w`. */
  function FirstSpan(ss: seq<Span>, w: string): Option<Span> {
    if ss == [] then None else if ss[0].word == w then Some(ss[0]) else FirstSpan(ss[1..], w)
  }

  /** `FirstSpan` finds the first occurrence of `w`, and finds nothing only when `w` is absent. */
  lemma {:induction false} FirstSpanSpec(ss: seq<Span>, w: string)
    ensures FirstSpan(ss, w) == None <==> forall k :: 0 <= k < |ss| ==> ss[k].word != w
    ensures FirstSpan(ss, w) != None ==> exists k :: (0 <= k < |ss| && FirstSpan(ss, w) == Some(ss[k])
      && ss[k].word == w && forall j :: 0 <= j < k ==> ss[j].word != w)
  {
    if ss != [] && ss[0].word != w {
      FirstSpanSpec(ss[1..], w);
      if FirstSpan(ss[1..], w) != None {
        var k :| 0 <= k < |ss[1..]| && FirstSpan(ss[1..], w) == Some(ss[1..][k])
          && ss[1..][k].word == w && forall j :: 0 <= j < k ==> ss[1..][j].word != w;
        assert ss[k + 1] == ss[1..][k];
        forall j | 0 <= j < k + 1 ensures ss[j].word != w {
          if j > 0 { assert ss[j] == ss[1..][j - 1]; }
        }
      } else {
        forall k | 0 <= k < |ss| ensures ss[k].word != w {
          if k > 0 { assert ss[k] == ss[1..][k - 1]; }
        }
      }
    }
  }

  /** The first `w` in `a + b` is the first in `a`, or else the first in `b`. */
  lemma {:induction false} FirstSpanAppend(a: seq<Span>, b: seq<Span>, w: string)
    ensures FirstSpan(a + b, w) == if FirstSpan(a, w) != None then FirstSpan(a, w) else FirstSpan(b, w)
  {
    if a != [] {
      assert (a + b)[1..] == a[1..] + b;
      FirstSpanAppend(a[1..], b, w);
    } else {
      assert a + b == b;
    }
  }

  /** Position `j` holds `w` and no earlier one does. */
  lemma {:induction false} FirstSpanAt(ss: seq<Span>, j: nat, w: string)
    requires j <= |ss| && forall k :: 0 <= k < j ==> ss[k].word != w
    ensures j < |ss| && ss[j].word == w ==> FirstSpan(ss, w) == Some(ss[j])
    ensures j == |ss| ==> FirstSpan(ss, w) == None
  {
    if j > 0 {
      forall k | 0 <= k < j - 1 ensures ss[1..][k].word != w {
        assert ss[1..][k] == ss[k + 1];
      }
      FirstSpanAt(ss[1..], j - 1, w);
    }
  }

  /** The position loop of `_generate_candidates_with_expansions`: chunk by chunk, word by word,
      stopping at the first word equal to `w`. */
  method FindWordPosition(chunks: seq<Chunk>, w: string) returns (pos: Option<Span>)
    ensures pos == FirstSpan(AllSpans(chunks), w)
  {
    pos := None;
    var i := 0;
    while i < |chunks|
      invariant 0 <= i <= |chunks|
      invariant pos == None
      invariant FirstSpan(AllSpans(chunks), w) == FirstSpan(AllSpans(chunks[i..]), w)
    {
      var words := chunks[i].words;
      TailOfSlice(chunks, i);
      FirstSpanAppend(words, AllSpans(chunks[i + 1..]), w);
      var j := 0;
      while j < |words|
        invariant 0 <= j <= |words|
        invariant forall k :: 0 <= k < j ==> words[k].word != w
        invariant pos == None
      {
        if words[j].word == w {
          pos := Some(words[j]);
          break;
        }
        j := j + 1;
      }
      FirstSpanAt(words, j, w);
      if pos != None {
        return;
      }
      i := i + 1;
    }
    assert chunks[i..] == [];
  }

  function TermCandidate(term: string, at: Span): Info {
    Info(term, at.start, at.end, ExpandedTerm, 4)
  }

  /** `terms[..n]`, each placed at `at`. */
  function TermCandidates(terms: seq<string>, at: Span, n: nat): seq<Info>
    requires n <= |terms|
  {
    if n == 0 then [] else TermCandidates(terms, at, n - 1) + [TermCandidate(terms[n - 1], at)]
  }

  /** The candidates of one expanded word: none when the word is in no chunk. */
  function KeyCandidates(cs: seq<Chunk>, terms: seq<string>, word: string): seq<Info> {
    match FirstSpan(AllSpans(cs), word)
    case None => []
    case Some(at) => TermCandidates(terms, at, |terms|)
  }

  /** The expanded-term candidates of the first `n` keys of `expanded`, in key order. */
  function ExpansionTier(cs: seq<Chunk>, expanded: Dict<seq<string>>, n: nat): seq<Info>
    requires Valid(expanded) && n <= |expanded.keys|
  {
    if n == 0 then []
    else
      var word := expanded.keys[n - 1];
      ExpansionTier(cs, expanded, n - 1) + KeyCandidates(cs, expanded.values[word], word)
  }

  lemma {:induction false} TermCandidatesSpec(terms: seq<string>, at: Span, n: nat)
    requires n <= |terms|
    ensures |TermCandidates(terms, at, n)| == n
    ensures forall i :: 0 <= i < n ==> TermCandidates(terms, at, n)[i] == TermCandidate(terms[i], at)
  {
    if n > 0 {
      TermCandidatesSpec(terms, at, n - 1);
    }
  }

  /** Every expanded-term candidate is a term listed for some key of `expanded`, at the span of
      the first chunk word equal to that key. */
  lemma {:induction false} ExpansionTierSpec(cs: seq<Chunk>, expanded: Dict<seq<string>>, n: nat)
    requires Valid(expanded) && n <= |expanded.keys|
    ensures forall x :: x in ExpansionTier(cs, expanded, n) ==>
      exists k :: 0 <= k < n && ExpansionFrom(cs, expanded, expanded.keys[k], x)
  {
    if n > 0 {
      ExpansionTierSpec(cs, expanded, n - 1);
      var word := expanded.keys[n - 1];
      var terms := expanded.values[word];
      forall x | x in KeyCandidates(cs, terms, word)
        ensures ExpansionFrom(cs, expanded, word, x)
      {
        var at := FirstSpan(AllSpans(cs), word).value;
        TermCandidatesSpec(terms, at, |terms|);
      }
    }
  }

  /** `x` is a candidate for a term of `word`, placed where `word` first occurs. */
  ghost predicate ExpansionFrom(cs: seq<Chunk>, expanded: Dict<seq<string>>, word: string, x: Info)
  {
    && word in expanded.values
    && FirstSpan(AllSpans(cs), word) != None
    && x.text in expanded.values[word]
    && x.start == FirstSpan(AllSpans(cs), word).value.start
    && x.end == FirstSpan(AllSpans(cs), word).value.end
    && x.kind == ExpandedTerm && x.priority == 4
  }

  method AddTermCandidates(terms: seq<string>, at: Span, cands: seq<EntityCandidate>)
    returns (r: seq<EntityCandidate>)
    ensures Infos(r) == Infos(cands) + TermCandidates(terms, at, |terms|)
    ensures forall c :: c in r ==> c in cands || (fresh(c) && Unmapped(c))
  {
    r := cands;
    AppendEmpty(Infos(cands));
    var i := 0;
    while i < |terms|
      invariant 0 <= i <= |terms|
      invariant Infos(r) == Infos(cands) + TermCandidates(terms, at, i)
      invariant forall c :: c in r ==> c in cands || (fresh(c) && Unmapped(c))
    {
      var c := new EntityCandidate(terms[i], at.start, at.end, ExpandedTerm, 4);
      InfosSnoc(r, c);
      Extend(Infos(cands), TermCandidates(terms, at, i), TermCandidates(terms, at, i + 1), [c.InfoOf()]);
      r := r + [c];
      i := i + 1;
    }
  }

  method AddExpansionCandidates(chunks: seq<Chunk>, expanded: Dict<seq<string>>, cands: seq<EntityCandidate>)
    returns (r: seq<EntityCandidate>)
    requires Valid(expanded)
    ensures Infos(r) == Infos(cands) + ExpansionTier(chunks, expanded, |expanded.keys|)
    ensures forall c :: c in r ==> c in cands || (fresh(c) && Unmapped(c))
  {
    r := cands;
    AppendEmpty(Infos(cands));
    var i := 0;
    while i < |expanded.keys|
      invariant 0 <= i <= |expanded.keys|
      invariant Infos(r) == Infos(cands) + ExpansionTier(chunks, expanded, i)
      invariant forall c :: c in r ==> c in cands || (fresh(c) && Unmapped(c))
    {
      var originalWord := expanded.keys[i];
      var expansions := expanded.values[originalWord];
      var wordPosition := FindWordPosition(chunks, originalWord);
      if wordPosition != None {
        r := AddTermCandidates(expansions, wordPosition.value, r);
      } else {
        AppendEmpty(Infos(r));
      }
      Extend(Infos(cands), ExpansionTier(chunks, expanded, i), ExpansionTier(chunks, expanded, i + 1),
             KeyCandidates(chunks, expansions, originalWord));
      i := i + 1;
    }
  }

  // ---------------------------------------------------------------------------
  // The filter: the first of overlapping phrases survives, every word and term survives

  /** The half-open ranges of `a` and `b` share a character. */
  predicate Overlaps(a: Info, b: Info) {
    !(a.end <= b.start || a.start >= b.end)
  }

  /** Phrase `i` survives: no earlier surviving phrase overlaps it. */
  ghost predicate Kept(cs: seq<Info>, i: nat)
    requires i < |cs|
    decreases i
  {
    IsPhrase(cs[i].kind) && forall j :: 0 <= j < i ==> (Kept(cs, j) ==> !Overlaps(cs[i], cs[j]))
  }

  /** The surviving phrases among `cs[..n]`, in order. */
  ghost function KeptPhrases(cs: seq<Info>, n: nat): seq<Info>
    requires n <= |cs|
  {
    if n == 0 then [] else KeptPhrases(cs, n - 1) + (if Kept(cs, n - 1) then [cs[n - 1]] else [])
  }

  /** The word and expanded-term candidates among `cs[..n]`, in order. */
  function Terms(cs: seq<Info>, n: nat): seq<Info>
    requires n <= |cs|
  {
    if n == 0 then [] else Terms(cs, n - 1) + (if !IsPhrase(cs[n - 1].kind) then [cs[n - 1]] else [])
  }

  /** What the filter returns: the surviving phrases, then every word and expanded term. */
  ghost function Filtered(cs: seq<Info>): seq<Info> {
    KeptPhrases(cs, |cs|) + Terms(cs, |cs|)
  }

  /** `x` overlaps some element of `ks`. */
  ghost predicate OverlapsSome(x: Info, ks: seq<Info>) {
    exists m :: 0 <= m < |ks| && Overlaps(x, ks[m])
  }

  /** `x` overlaps candidate `j` for some surviving `j < n`. */
  ghost predicate OverlapsKeptBefore(cs: seq<Info>, n: nat, x: Info)
    requires n <= |cs|
  {
    exists j :: 0 <= j < n && Kept(cs, j) && Overlaps(x, cs[j])
  }

  lemma OverlapsSomeAppend(x: Info, a: seq<Info>, b: seq<Info>)
    ensures OverlapsSome(x, a + b) <==> OverlapsSome(x, a) || OverlapsSome(x, b)
  {
    if OverlapsSome(x, a + b) {
      var m :| 0 <= m < |a + b| && Overlaps(x, (a + b)[m]);
      if m < |a| {
        assert (a + b)[m] == a[m];
      } else {
        assert (a + b)[m] == b[m - |a|];
      }
    }
    if OverlapsSome(x, a) {
      var m :| 0 <= m < |a| && Overlaps(x, a[m]);
      assert (a + b)[m] == a[m];
    }
    if OverlapsSome(x, b) {
      var m :| 0 <= m < |b| && Overlaps(x, b[m]);
      assert (a + b)[|a| + m] == b[m];
    }
  }

  /** Something overlaps one of the surviving phrases of `cs[..n]` exactly when it overlaps one
      of the survivors among the first `n` candidates. */
  lemma {:induction false} OverlapsKept(cs: seq<Info>, n: nat, x: Info)
    requires n <= |cs|
    ensures OverlapsSome(x, KeptPhrases(cs, n)) <==> OverlapsKeptBefore(cs, n, x)
  {
    if n > 0 {
      OverlapsKept(cs, n - 1, x);
      var last := if Kept(cs, n - 1) then [cs[n - 1]] else [];
      OverlapsSomeAppend(x, KeptPhrases(cs, n - 1), last);
      if OverlapsKeptBefore(cs, n, x) {
        var j :| 0 <= j < n && Kept(cs, j) && Overlaps(x, cs[j]);
        if j == n - 1 {
          assert last[0] == cs[n - 1];
        } else {
          assert OverlapsKeptBefore(cs, n - 1, x);
        }
      }
      if OverlapsSome(x, last) {
        assert 0 <= n - 1 < n && Kept(cs, n - 1) && Overlaps(x, cs[n - 1]);
      }
      if OverlapsKeptBefore(cs, n - 1, x) {
        var j :| 0 <= j < n - 1 && Kept(cs, j) && Overlaps(x, cs[j]);
        assert 0 <= j < n && Kept(cs, j) && Overlaps(x, cs[j]);
      }
    }
  }

  /** `x` is candidate `j` for some surviving `j < n`. */
  ghost predicate KeptAt(cs: seq<Info>, n: nat, x: Info)
    requires n <= |cs|
  {
    exists j :: 0 <= j < n && Kept(cs, j) && x == cs[j]
  }

  /** Every surviving phrase comes from some surviving position. */
  lemma {:induction false} KeptPhrasesFrom(cs: seq<Info>, n: nat)
    requires n <= |cs|
    ensures forall m :: 0 <= m < |KeptPhrases(cs, n)| ==> KeptAt(cs, n, KeptPhrases(cs, n)[m])
  {
    if n > 0 {
      KeptPhrasesFrom(cs, n - 1);
      var p := KeptPhrases(cs, n - 1);
      var k := KeptPhrases(cs, n);
      assert k == p + (if Kept(cs, n - 1) then [cs[n - 1]] else []);
      forall m | 0 <= m < |k| ensures KeptAt(cs, n, k[m]) {
        if m < |p| {
          assert k[m] == p[m];
          assert KeptAt(cs, n - 1, p[m]);
          var j :| 0 <= j < n - 1 && Kept(cs, j) && p[m] == cs[j];
        } else {
          assert Kept(cs, n - 1) && k[m] == cs[n - 1];
        }
      }
    }
  }

  /** The surviving phrases do not overlap one another. */
  lemma {:induction false} KeptPhrasesDisjoint(cs: seq<Info>, n: nat)
    requires n <= |cs|
    ensures forall a, b :: 0 <= a < b < |KeptPhrases(cs, n)| ==>
      !Overlaps(KeptPhrases(cs, n)[a], KeptPhrases(cs, n)[b])
  {
    if n > 0 {
      KeptPhrasesDisjoint(cs, n - 1);
      var p := KeptPhrases(cs, n - 1);
      var k := KeptPhrases(cs, n);
      if Kept(cs, n - 1) {
        KeptPhrasesFrom(cs, n - 1);
        forall a, b | 0 <= a < b < |k| ensures !Overlaps(k[a], k[b]) {
          assert k[a] == p[a];
          if b < |p| {
            assert k[b] == p[b];
          } else {
            assert KeptAt(cs, n - 1, p[a]);
            var j :| 0 <= j < n - 1 && Kept(cs, j) && p[a] == cs[j];
          }
        }
      } else {
        assert k == p + [];
      }
    }
  }

  /** A surviving phrase with a non-empty range is the first phrase generated for that range:
      an earlier one would have survived or been overlapped by a survivor, and either way
      would overlap it. */
  lemma KeptIsFirstForRange(cs: seq<Info>, i: nat)
    requires i < |cs| && Kept(cs, i) && cs[i].start < cs[i].end
    ensures forall j :: 0 <= j < i && IsPhrase(cs[j].kind) ==>
      (cs[j].start, cs[j].end) != (cs[i].start, cs[i].end)
  {
    forall j | 0 <= j < i && IsPhrase(cs[j].kind)
      ensures (cs[j].start, cs[j].end) != (cs[i].start, cs[i].end)
    {
      if Kept(cs, j) {
        assert !Overlaps(cs[i], cs[j]);
      } else {
        var m :| 0 <= m < j && Kept(cs, m) && Overlaps(cs[j], cs[m]);
        assert !Overlaps(cs[i], cs[m]);
      }
    }
  }

  /** Every phrase either survives or overlaps a surviving phrase listed before it. */
  lemma PhraseSurvivesOrIsOverlapped(cs: seq<Info>, i: nat)
    requires i < |cs| && IsPhrase(cs[i].kind)
    ensures Kept(cs, i) ==> cs[i] in KeptPhrases(cs, |cs|)
    ensures !Kept(cs, i) ==> OverlapsSome(cs[i], KeptPhrases(cs, i))
  {
    OverlapsKept(cs, i, cs[i]);
    if Kept(cs, i) {
      KeptPhrasesGrow(cs, i + 1, |cs|);
      assert cs[i] in KeptPhrases(cs, i + 1);
    }
  }

  /** Later survivors only extend the list of survivors. */
  lemma {:induction false} KeptPhrasesGrow(cs: seq<Info>, n: nat, n': nat)
    requires n <= n' <= |cs|
    ensures forall x :: x in KeptPhrases(cs, n) ==> x in KeptPhrases(cs, n')
    decreases n' - n
  {
    if n < n' {
      KeptPhrasesGrow(cs, n + 1, n');
    }
  }

  /** Every word and expanded term survives, in order; only they follow the phrases. */
  lemma {:induction false} TermsSpec(cs: seq<Info>, n: nat)
    requires n <= |cs|
    ensures forall i :: 0 <= i < n && !IsPhrase(cs[i].kind) ==> cs[i] in Terms(cs, n)
    ensures forall x :: x in Terms(cs, n) ==> !IsPhrase(x.kind) && x in cs[..n]
  {
    if n > 0 {
      TermsSpec(cs, n - 1);
      assert cs[..n] == cs[..n - 1] + [cs[n - 1]];
    }
  }

  /** In the filtered list every phrase precedes every word and expanded term. */
  lemma PhrasesFirst(cs: seq<Info>)
    ensures var f := Filtered(cs);
      forall a, b :: 0 <= a < b < |f| && IsPhrase(f[b].kind) ==> IsPhrase(f[a].kind)
  {
    var k := KeptPhrases(cs, |cs|);
    var t := Terms(cs, |cs|);
    var f := Filtered(cs);
    KeptPhrasesFrom(cs, |cs|);
    TermsSpec(cs, |cs|);
    forall c | |k| <= c < |f| ensures !IsPhrase(f[c].kind) {
      assert f[c] == t[c - |k|];
    }
    forall a | 0 <= a < |k| ensures IsPhrase(f[a].kind) {
      assert f[a] == k[a];
      assert KeptAt(cs, |cs|, k[a]);
      var j :| 0 <= j < |cs| && Kept(cs, j) && k[a] == cs[j];
    }
  }

  /** The overlap loop: whether `c` overlaps any of the recorded phrase ranges. */
  method OverlapsAny(c: EntityCandidate, phraseRanges: seq<(nat, nat)>) returns (overlaps: bool)
    ensures overlaps <==> exists m :: (0 <= m < |phraseRanges| &&
      !(c.end <= phraseRanges[m].0 || c.start >= phraseRanges[m].1))
  {
    overlaps := false;
    var j := 0;
    while j < |phraseRanges|
      invariant 0 <= j <= |phraseRanges|
      invariant forall m :: 0 <= m < j ==> c.end <= phraseRanges[m].0 || c.start >= phraseRanges[m].1
    {
      var (usedStart, usedEnd) := phraseRanges[j];
      if !(c.end <= usedStart || c.start >= usedEnd) {
        overlaps := true;
        return;
      }
      j := j + 1;
    }
  }

  function Ranges(ks: seq<Info>): seq<(nat, nat)> {
    seq(|ks|, m requires 0 <= m < |ks| => (ks[m].start, ks[m].end))
  }

/** The second pass of the filter: every word and expanded-term candidate, in order. */
  method AppendTerms(cands: seq<EntityCandidate>, kept: seq<EntityCandidate>) returns (r: seq<EntityCandidate>)
    ensures Infos(r) == Infos(kept) + Terms(Infos(cands), |cands|)
    ensures forall c :: c in r ==> c in kept || c in cands
  {
    ghost var infos := Infos(cands);
    r := kept;
    AppendEmpty(Infos(kept));
    var j := 0;
    while j < |cands|
      invariant 0 <= j <= |cands|
      invariant Infos(r) == Infos(kept) + Terms(infos, j)
      invariant forall c :: c in r ==> c in kept || c in cands
    {
      var candidate := cands[j];
      if !IsPhrase(candidate.kind) {
        InfosSnoc(r, candidate);
        Extend(Infos(kept), Terms(infos, j), Terms(infos, j + 1), [candidate.InfoOf()]);
        r := r + [candidate];
      } else {
        AppendEmpty(Terms(infos, j));
      }
      j := j + 1;
    }
  }

  /** The filter of `_generate_candidates_with_expansions`. */
  method FilterCandidates(cands: seq<EntityCandidate>) returns (r: seq<EntityCandidate>)
    ensures Infos(r) == Filtered(Infos(cands))
    ensures forall c :: c in r ==> c in cands
  {
    ghost var infos := Infos(cands);
    r := [];
    var phraseRanges: seq<(nat, nat)> := [];
    var i := 0;
    while i < |cands|
      invariant 0 <= i <= |cands|
      invariant Infos(r) == KeptPhrases(infos, i)
      invariant forall c :: c in r ==> c in cands
      invariant phraseRanges == Ranges(KeptPhrases(infos, i))
    {
      var candidate := cands[i];
      if IsPhrase(candidate.kind) {
        var overlaps := OverlapsAny(candidate, phraseRanges);
        OverlapsKept(infos, i, infos[i]);
        ghost var k := KeptPhrases(infos, i);
        assert infos[i] == candidate.InfoOf();
        if !overlaps {
          forall m | 0 <= m < |k| ensures !Overlaps(infos[i], k[m]) {
            assert phraseRanges[m] == (k[m].start, k[m].end);
          }
          assert Kept(infos, i);
          assert KeptPhrases(infos, i + 1) == KeptPhrases(infos, i) + [infos[i]];
          InfosSnoc(r, candidate);
          r := r + [candidate];
          phraseRanges := phraseRanges + [(candidate.start, candidate.end)];
        } else {
          var m :| 0 <= m < |phraseRanges| && !(candidate.end <= phraseRanges[m].0 || candidate.start >= phraseRanges[m].1);
          assert phraseRanges[m] == (k[m].start, k[m].end);
          assert Overlaps(infos[i], k[m]);
          assert !Kept(infos, i);
          assert KeptPhrases(infos, i + 1) == KeptPhrases(infos, i) + [];
        }
      } else {
        assert KeptPhrases(infos, i + 1) == KeptPhrases(infos, i) + [];
      }
      i := i + 1;
    }
    r := AppendTerms(cands, r);
  }

  // ---------------------------------------------------------------------------
  // The whole generator

  /** Every candidate, in generation order: the four tiers one after the other. */
  function Generated(lq: string, chunks: seq<Chunk>, expanded: Dict<seq<string>>): seq<Info>
    requires Valid(expanded)
  {
    ChunkTier(chunks) + SubPhraseTier(lq, chunks) + WordTier(chunks)
    + ExpansionTier(chunks, expanded, |expanded.keys|)
  }

  /** `_generate_candidates_with_expansions`: the four tiers, then the filter. */
  method GenerateCandidates(lq: string, chunks: seq<Chunk>, expanded: Dict<seq<string>>)
    returns (cands: seq<EntityCandidate>)
    requires Valid(expanded)
    ensures Infos(cands) == Filtered(Generated(lq, chunks, expanded))
    ensures forall c :: c in cands ==> fresh(c) && Unmapped(c)
  {
    var all: seq<EntityCandidate> := [];
    all := AddChunkCandidates(chunks, all);
    all := AddSubPhraseCandidates(lq, chunks, all);
    all := AddWordCandidates(chunks, all);
    all := AddExpansionCandidates(chunks, expanded, all);
    assert Infos(all) == Generated(lq, chunks, expanded) by {
      assert Infos([]) == [];
      AppendEmpty(ChunkTier(chunks));
    }
    cands := FilterCandidates(all);
  }

  /** `x` is the sub-phrase of two adjacent words of chunk `c`. */
  ghost predicate IsAdjacentPair(lq: string, c: Chunk, x: Info) {
    exists i :: 0 <= i < |c.words| - 1 && x == PairCandidate(lq, c.words[i], c.words[i + 1])
  }

  /** `x` is the word candidate of a word of chunk `c` that is at least three characters long. */
  ghost predicate IsMeaningfulWordOf(c: Chunk, x: Info) {
    exists i :: 0 <= i < |c.words| && IsMeaningfulWord(c.words[i].word) && x == WordCandidate(c.words[i])
  }

  /** The pairs of one chunk are exactly its adjacent-word sub-phrases. */
  lemma ChunkPairsMembers(lq: string, c: Chunk)
    ensures forall x :: x in ChunkPairs(lq, c) <==> IsAdjacentPair(lq, c, x)
  {
    ChunkPairsSpec(lq, c);
    var ps := ChunkPairs(lq, c);
    forall x | x in ps
      ensures IsAdjacentPair(lq, c, x)
    {
      var i :| 0 <= i < |ps| && ps[i] == x;
      assert 0 <= i < |c.words| - 1 && x == PairCandidate(lq, c.words[i], c.words[i + 1]);
    }
    forall x | IsAdjacentPair(lq, c, x)
      ensures x in ps
    {
      var i :| 0 <= i < |c.words| - 1 && x == PairCandidate(lq, c.words[i], c.words[i + 1]);
      assert ps[i] == x;
    }
  }

  /** The sub-phrase tier holds exactly the pairs of adjacent words of a chunk. */
  lemma {:induction false} SubPhraseTierSpec(lq: string, cs: seq<Chunk>)
    ensures forall x :: x in SubPhraseTier(lq, cs) <==> exists k :: 0 <= k < |cs| && IsAdjacentPair(lq, cs[k], x)
  {
    if cs != [] {
      var n := |cs| - 1;
      var prefix := cs[..n];
      SubPhraseTierSpec(lq, prefix);
      ChunkPairsMembers(lq, cs[n]);
      assert SubPhraseTier(lq, cs) == SubPhraseTier(lq, prefix) + ChunkPairs(lq, cs[n]);
      assert forall k :: 0 <= k < n ==> prefix[k] == cs[k];
    }
  }

  /** The word tier holds exactly the chunk words of three characters or more. */
  lemma {:induction false} WordTierSpec(cs: seq<Chunk>)
    ensures forall x :: x in WordTier(cs) <==> exists k :: 0 <= k < |cs| && IsMeaningfulWordOf(cs[k], x)
  {
    if cs != [] {
      var n := |cs| - 1;
      var prefix := cs[..n];
      WordTierSpec(prefix);
      MeaningfulSpansSpec(cs[n].words, |cs[n].words|);
      assert WordTier(cs) == WordTier(prefix) + MeaningfulSpans(cs[n].words, |cs[n].words|);
      assert forall k :: 0 <= k < n ==> prefix[k] == cs[k];
    }
  }
}
