/** `PipeLine`: the preprocessing of one query, stage by stage, each stage overwriting the
    fields the next one reads: the cleaned query, its chunks, the meaningful words, their
    business-term expansions, the candidates, and the entity mappings with their context. */
module Pipeline {
  import opened Wrappers
  import opened Text
  import opened Seqs
  import opened Dicts
  import opened Cleaning
  import opened Chunking
  import opened Vocabulary
  import opened BusinessTables
  import opened Candidates
  import opened EntityMapper

  /** The options the stages read: `business_domain` and `entity_groups`, each possibly absent. */
  datatype Options = Options(businessDomain: Option<string>, entityGroups: Option<seq<string>>)

  /** `opts.get('business_domain', 'general')`. */
  function Domain(opts: Options): string {
    match opts.businessDomain
    case None => "general"
    case Some(d) => d
  }

  /** One entry of `entity_mappings`. */
  datatype Mapping = Mapping(text: string, start: nat, end: nat, entity: string, kind: Kind, priority: nat)

  // ---------------------------------------------------------------------------
  // `_extract_meaningful_words`

  /** The meaningful words of the spans `ws[..n]`, in order, repeats included. */
  function MeaningfulIn(ws: seq<Span>, n: nat): seq<string>
    requires n <= |ws|
  {
    if n == 0 then []
    else MeaningfulIn(ws, n - 1) + (if IsMeaningfulWord(ws[n - 1].word) then [ws[n - 1].word] else [])
  }

  /** The meaningful words of the chunks `cs[..n]`, chunk by chunk, repeats included. */
  function MeaningfulList(cs: seq<Chunk>, n: nat): seq<string>
    requires n <= |cs|
  {
    if n == 0 then [] else MeaningfulList(cs, n - 1) + MeaningfulIn(cs[n - 1].words, |cs[n - 1].words|)
  }

  /** A word of the list is a word of at least three characters of some span, and back. */
  lemma {:induction false} MeaningfulInSpec(ws: seq<Span>, n: nat)
    requires n <= |ws|
    ensures forall w :: w in MeaningfulIn(ws, n) <==> IsMeaningfulWord(w) && w in Words(ws[..n])
  {
    if n > 0 {
      MeaningfulInSpec(ws, n - 1);
      assert Words(ws[..n]) == Words(ws[..n - 1]) + [ws[n - 1].word];
    }
  }

  /** The collected words are exactly the chunk words of at least three characters. */
  lemma {:induction false} MeaningfulListSpec(cs: seq<Chunk>, n: nat)
    requires n <= |cs|
    ensures forall w :: w in MeaningfulList(cs, n) <==>
      IsMeaningfulWord(w) && exists k :: 0 <= k < n && w in Words(cs[k].words)
  {
    if n > 0 {
      MeaningfulListSpec(cs, n - 1);
      var ws := cs[n - 1].words;
      MeaningfulInSpec(ws, |ws|);
      assert ws[..|ws|] == ws;
    }
  }

  // ---------------------------------------------------------------------------
  // `_expand_with_business_terms`

  /** What the expansion loop has built after the first `i` meaningful words: every word whose
      expansion adds something, mapped to the expansion without the word itself. */
  ghost predicate ExpandedAfter(e: Expander, words: seq<string>, domain: string, i: nat, d: Dict<seq<string>>)
    requires i <= |words|
  {
    && Valid(d)
    && (forall w :: w in d.values <==> w in Expandable(e, words[..i], domain))
    && (forall w :: w in d.values ==> d.values[w] == ExpandWord(e, w, domain)[1..])
    && d.keys == Dedup(Expandable(e, words[..i], domain))
  }

  lemma ExpandedPut(e: Expander, words: seq<string>, domain: string, i: nat, d: Dict<seq<string>>)
    requires i < |words| && ExpandedAfter(e, words, domain, i, d)
    requires Expands(e, words[i], domain)
    ensures ExpandedAfter(e, words, domain, i + 1, Put(d, words[i], ExpandWord(e, words[i], domain)[1..]))
  {
    ExpandableSnoc(e, words, domain, i);
    ExpandedPutValues(e, words, domain, i, d);
    ExpandedPutKeys(Expandable(e, words[..i], domain), words[i], d, ExpandWord(e, words[i], domain)[1..]);
  }

  lemma ExpandedPutKeys(seen: seq<string>, w: string, d: Dict<seq<string>>, v: seq<string>)
    requires Valid(d)
    requires forall x :: x in d.values <==> x in seen
    requires d.keys == Dedup(seen)
    ensures Put(d, w, v).keys == Dedup(seen + [w])
  {
    DedupSnoc(seen, w);
  }

  lemma ExpandedPutValues(e: Expander, words: seq<string>, domain: string, i: nat, d: Dict<seq<string>>)
    requires i < |words| && Valid(d)
    requires forall w :: w in d.values <==> w in Expandable(e, words[..i], domain)
    requires forall w :: w in d.values ==> d.values[w] == ExpandWord(e, w, domain)[1..]
    requires Expandable(e, words[..i + 1], domain) == Expandable(e, words[..i], domain) + [words[i]]
    ensures var d' := Put(d, words[i], ExpandWord(e, words[i], domain)[1..]);
      && (forall w :: w in d'.values <==> w in Expandable(e, words[..i + 1], domain))
      && (forall w :: w in d'.values ==> d'.values[w] == ExpandWord(e, w, domain)[1..])
  {
  }

  lemma ExpandedSkip(e: Expander, words: seq<string>, domain: string, i: nat, d: Dict<seq<string>>)
    requires i < |words| && ExpandedAfter(e, words, domain, i, d)
    requires !Expands(e, words[i], domain)
    ensures ExpandedAfter(e, words, domain, i + 1, d)
  {
    ExpandableSnoc(e, words, domain, i);
    AppendEmpty(Expandable(e, words[..i], domain));
  }

  /** After the whole loop: the keys are the words that expand, each mapped to a non-empty list
      of new terms that does not hold the word itself. */
  lemma ExpandedTermsSpec(e: Expander, words: seq<string>, domain: string, d: Dict<seq<string>>)
    requires ExpandedAfter(e, words, domain, |words|, d)
    ensures forall w :: w in d.values <==> w in words && Expands(e, w, domain)
    ensures forall w :: w in d.values ==> d.values[w] != [] && w !in d.values[w]
    ensures forall w, t :: w in d.values && t in d.values[w] ==> t in TableTerms(e, Lower(w), domain)
  {
    assert words[..|words|] == words;
    ExpandableSpec(e, words, domain);
    forall w | w in d.values
      ensures d.values[w] != [] && w !in d.values[w]
      ensures forall t :: t in d.values[w] ==> t in TableTerms(e, Lower(w), domain)
    {
      var r := ExpandWord(e, w, domain);
      ExpandWordTerms(e, w, domain);
      forall t | t in r[1..]
        ensures t != w && t in TableTerms(e, Lower(w), domain)
      {
        var j :| 0 <= j < |r[1..]| && r[1..][j] == t;
        assert r[j + 1] == t && r[0] == w;
      }
    }
  }

  // ---------------------------------------------------------------------------
  // `_entity_mapping`

  /** The mapper set a canonical name, and a non-empty one (an empty string is falsy). */
  predicate HasCanonical(c: EntityCandidate)
    reads c
  {
    c.canonical.Some? && c.canonical.value != ""
  }

  function MappingOf(c: EntityCandidate): Mapping
    reads c
    requires HasCanonical(c)
  {
    Mapping(c.text, c.start, c.end, c.canonical.value, c.kind, c.priority)
  }

  /** The mappings of the first `n` candidates, in candidate order. */
  function MappingsOf(cs: seq<EntityCandidate>, n: nat): seq<Mapping>
    reads set c | c in cs
    requires n <= |cs|
  {
    if n == 0 then []
    else MappingsOf(cs, n - 1) + (if HasCanonical(cs[n - 1]) then [MappingOf(cs[n - 1])] else [])
  }

  /** The mappings are exactly those of the candidates with a canonical name, and no more. */
  lemma {:induction false} MappingsOfSpec(cs: seq<EntityCandidate>, n: nat)
    requires n <= |cs|
    ensures |MappingsOf(cs, n)| <= n
    ensures forall m :: m in MappingsOf(cs, n) <==>
      exists k :: 0 <= k < n && HasCanonical(cs[k]) && m == MappingOf(cs[k])
  {
    if n > 0 {
      MappingsOfSpec(cs, n - 1);
    }
  }

  /** A candidate without a canonical name contributes nothing: with no mapped candidate at
      all, the mappings stay empty. */
  lemma {:induction false} NoCanonicalNoMappings(cs: seq<EntityCandidate>, n: nat)
    requires n <= |cs|
    requires forall k :: 0 <= k < n ==> !HasCanonical(cs[k])
    ensures MappingsOf(cs, n) == []
  {
    if n > 0 {
      NoCanonicalNoMappings(cs, n - 1);
    }
  }

  // ---------------------------------------------------------------------------
  // The loops of the stages

  /** The nested loop of `_extract_meaningful_words`, before `set(...)`. */
  method CollectMeaningfulWords(chunks: seq<Chunk>) returns (found: seq<string>)
    ensures found == MeaningfulList(chunks, |chunks|)
  {
    found := [];
    var k := 0;
    while k < |chunks|
      invariant 0 <= k <= |chunks|
      invariant found == MeaningfulList(chunks, k)
    {
      var words := chunks[k].words;
      var i := 0;
      while i < |words|
        invariant 0 <= i <= |words|
        invariant found == MeaningfulList(chunks, k) + MeaningfulIn(words, i)
      {
        var word := words[i].word;
        if IsMeaningfulWord(word) {
          AppendAssoc(MeaningfulList(chunks, k), MeaningfulIn(words, i), [word]);
          found := found + [word];
        } else {
          AppendEmpty(MeaningfulIn(words, i));
        }
        i := i + 1;
      }
      k := k + 1;
    }
  }

  /** The loop of `_expand_with_business_terms`. */
  method ExpandWords(e: Expander, words: seq<string>, domain: string) returns (terms: Dict<seq<string>>)
    ensures ExpandedAfter(e, words, domain, |words|, terms)
  {
    terms := Empty();
    assert words[..0] == [];
    var i := 0;
    while i < |words|
      invariant 0 <= i <= |words|
      invariant ExpandedAfter(e, words, domain, i, terms)
    {
      var word := words[i];
      var expansions := ExpandWord(e, word, domain);
      if |expansions| > 1 {
        ExpandedPut(e, words, domain, i, terms);
        terms := Put(terms, word, expansions[1..]);
      } else {
        ExpandedSkip(e, words, domain, i, terms);
      }
      i := i + 1;
    }
  }

  /** The loop of `_entity_mapping` over the mapped candidates. */
  method BuildMappings(cs: seq<EntityCandidate>) returns (ms: seq<Mapping>)
    ensures ms == MappingsOf(cs, |cs|)
  {
    ms := [];
    var i := 0;
    while i < |cs|
      invariant 0 <= i <= |cs|
      invariant ms == MappingsOf(cs, i)
    {
      var candidate := cs[i];
      if candidate.canonical.Some? && candidate.canonical.value != "" {
        ms := ms + [Mapping(candidate.text, candidate.start, candidate.end,
                            candidate.canonical.value, candidate.kind, candidate.priority)];
      }
      i := i + 1;
    }
  }

  // ---------------------------------------------------------------------------
  // The pipeline object

  class PipeLine {
    /** The business vocabulary the expansion stage consults. */
    const expander: Expander
    var query: string
    var lq: string
    var chunks: seq<Chunk>
    var meaningfulWords: seq<string>
    var expandedTerms: Dict<seq<string>>
    var candidates: seq<EntityCandidate>
    var entityMappings: seq<Mapping>
    var context: Context

    constructor ()
      ensures expander == DefaultExpander
      ensures query == "" && lq == "" && chunks == [] && meaningfulWords == []
      ensures expandedTerms == Empty() && candidates == [] && entityMappings == []
      ensures context == Context({}, {})
    {
      expander := DefaultExpander;
      query := "";
      lq := "";
      chunks := [];
      meaningfulWords := [];
      expandedTerms := Empty();
      candidates := [];
      entityMappings := [];
      context := Context({}, {});
    }

    /** `reset`: empty context, mappings and candidates. */
    method Reset()
      modifies this
      ensures context == Context({}, {}) && entityMappings == [] && candidates == []
      ensures query == old(query) && lq == old(lq) && chunks == old(chunks)
      ensures meaningfulWords == old(meaningfulWords) && expandedTerms == old(expandedTerms)
    {
      context := Context({}, {});
      entityMappings := [];
      candidates := [];
    }

    /** `_basic_clean`: lower-case, reject characters, strip, collapse spaces. */
    method BasicClean()
      modifies this
      ensures lq == Clean(query)
      ensures IsClean(lq)
      ensures query == old(query) && chunks == old(chunks) && meaningfulWords == old(meaningfulWords)
      ensures expandedTerms == old(expandedTerms) && candidates == old(candidates)
      ensures entityMappings == old(entityMappings) && context == old(context)
    {
      lq := Clean(query);
      CleanIsClean(query);
    }

    /** `_replace_stopwords_with_positions`. */
    method ReplaceStopwordsWithPositions(stop: set<string>)
      modifies this
      ensures chunks == Chunks(lq, stop)
      ensures query == old(query) && lq == old(lq) && meaningfulWords == old(meaningfulWords)
      ensures expandedTerms == old(expandedTerms) && candidates == old(candidates)
      ensures entityMappings == old(entityMappings) && context == old(context)
    {
      chunks := ChunkQuery(lq, stop);
    }

    /** `_extract_meaningful_words`: every chunk word of three characters or more, once each,
        in an order the model leaves open (`list(set(...))`). */
    method ExtractMeaningfulWords()
      modifies this
      ensures NoDup(meaningfulWords)
      ensures forall w :: w in meaningfulWords <==> w in MeaningfulList(chunks, |chunks|)
      ensures query == old(query) && lq == old(lq) && chunks == old(chunks)
      ensures expandedTerms == old(expandedTerms) && candidates == old(candidates)
      ensures entityMappings == old(entityMappings) && context == old(context)
    {
      var found := CollectMeaningfulWords(chunks);
      DedupSpec(found);
      var unique :| NoDup(unique) && (forall w :: w in unique ==> w in found) && (forall w :: w in found ==> w in unique);
      meaningfulWords := unique;
    }

    /** `_expand_with_business_terms`: each meaningful word whose expansion adds something,
        mapped to the expansion without the word itself. */
    method ExpandWithBusinessTerms(opts: Options)
      modifies this
      ensures ExpandedAfter(expander, meaningfulWords, Domain(opts), |meaningfulWords|, expandedTerms)
      ensures query == old(query) && lq == old(lq) && chunks == old(chunks)
      ensures meaningfulWords == old(meaningfulWords) && candidates == old(candidates)
      ensures entityMappings == old(entityMappings) && context == old(context)
    {
      var terms := ExpandWords(expander, meaningfulWords, Domain(opts));
      expandedTerms := terms;
    }

    /** `_generate_candidates_with_expansions`: the four candidate tiers, then the filter. */
    method GenerateCandidatesWithExpansions()
      requires Valid(expandedTerms)
      modifies this
      ensures query == old(query) && lq == old(lq) && chunks == old(chunks)
      ensures meaningfulWords == old(meaningfulWords) && expandedTerms == old(expandedTerms)
      ensures Infos(candidates) == Filtered(Generated(lq, chunks, expandedTerms))
      ensures forall c :: c in candidates ==> fresh(c) && Unmapped(c)
      ensures entityMappings == old(entityMappings) && context == old(context)
    {
      candidates := GenerateCandidates(lq, chunks, expandedTerms);
    }

    /** `_entity_mapping`. With no candidates nothing happens. Otherwise the mapper runs with
        `entity_groups`; when that option is absent, `set(None)` raises, and `ok` is false with
        nothing changed. Else the context is replaced and one mapping per candidate with a
        canonical name is appended. */
    method EntityMapping(opts: Options, index: (seq<string>, nat) -> seq<seq<Hit>>,
                         ratio: (string, string) -> real)
      returns (ok: bool)
      modifies this, set c | c in candidates
      ensures ok <==> old(candidates) == [] || opts.entityGroups.Some?
      ensures query == old(query) && lq == old(lq) && chunks == old(chunks)
      ensures meaningfulWords == old(meaningfulWords) && expandedTerms == old(expandedTerms)
      ensures candidates == old(candidates)
      ensures old(candidates) == [] || !ok ==> entityMappings == old(entityMappings) && context == old(context)
      ensures !ok ==> forall t :: t in candidates ==> t.entity == old(t.entity) && t.canonical == old(t.canonical)
      ensures old(candidates) != [] && ok ==>
        var sel := SelectionsFor(candidates, opts.entityGroups.value, index, ratio, DefaultMaxDist, DefaultFuzzThresh);
        && context == ContextOf(sel, |sel|)
        && entityMappings == old(entityMappings) + MappingsOf(candidates, |candidates|)
        && forall t :: t in candidates ==>
             (t.entity, t.canonical) == After(Assigned(candidates, sel, t, |sel|), old(t.entity), old(t.canonical))
    {
      if candidates == [] {
        return true;
      }
      if opts.entityGroups == None {
        return false;
      }
      var mapped, ctx := EntityMapper.Process(candidates, opts.entityGroups.value, index, ratio, DefaultMaxDist, DefaultFuzzThresh);
      context := ctx;
      var ms := BuildMappings(mapped);
      entityMappings := entityMappings + ms;
      return true;
    }

    /** `process` up to the schema context: remember the query, reset, and run the stages in
        order. `ok` is false when the mapping stage raises. */
    method Process(q: string, opts: Options, stop: set<string>,
                   index: (seq<string>, nat) -> seq<seq<Hit>>, ratio: (string, string) -> real)
      returns (ok: bool)
      modifies this
      ensures query == q && lq == Clean(q) && IsClean(lq) && chunks == Chunks(lq, stop)
      ensures NoDup(meaningfulWords)
      ensures forall w :: w in meaningfulWords <==> w in MeaningfulList(chunks, |chunks|)
      ensures ExpandedAfter(expander, meaningfulWords, Domain(opts), |meaningfulWords|, expandedTerms)
      ensures Infos(candidates) == Filtered(Generated(lq, chunks, expandedTerms))
      ensures ok <==> candidates == [] || opts.entityGroups.Some?
      ensures ok ==> entityMappings == MappingsOf(candidates, |candidates|)
      ensures candidates == [] || !ok ==> context == Context({}, {})
      ensures !ok ==> entityMappings == [] && forall t :: t in candidates ==> Unmapped(t)
      ensures candidates != [] && ok ==>
        var sel := SelectionsFor(candidates, opts.entityGroups.value, index, ratio, DefaultMaxDist, DefaultFuzzThresh);
        && context == ContextOf(sel, |sel|)
        && forall t :: t in candidates ==> (t.entity, t.canonical) == After(Assigned(candidates, sel, t, |sel|), None, None)
    {
      query := q;
      Reset();
      BasicClean();
      ReplaceStopwordsWithPositions(stop);
      ExtractMeaningfulWords();
      ExpandWithBusinessTerms(opts);
      GenerateCandidatesWithExpansions();
      ghost var generated := Infos(candidates);
      ok := EntityMapping(opts, index, ratio);
      assert Infos(candidates) == generated;
      if candidates == [] {
        assert entityMappings == [] == MappingsOf(candidates, |candidates|);
      }
    }
  }
}
