/** `BusinessVocabularyExpander`: a fixed table of business synonyms, general and per industry,
    and the ways the pipeline expands words and candidates with it. */
module Vocabulary {
  import opened Text
  import opened Sorting
  import opened Dicts
  import opened Seqs

  /** Lower-cased word to its related business terms. */
  type Table = map<string, seq<string>>

  /** The expander's two tables: general expansions, and per-industry expansions. */
  datatype Expander = Expander(general: Table, industry: map<string, Table>)

  // ---------------------------------------------------------------------------
  // `list(dict.fromkeys(xs))`: order-preserving de-duplication

  predicate NoDup(r: seq<string>) {
    forall i, j :: 0 <= i < j < |r| ==> r[i] != r[j]
  }

  /** Position of the first occurrence of `x` in `xs`. */
  function FirstIndex(xs: seq<string>, x: string): (i: nat)
    requires x in xs
    ensures i < |xs| && xs[i] == x
    ensures forall k :: 0 <= k < i ==> xs[k] != x
  {
    if xs[0] == x then 0 else 1 + FirstIndex(xs[1..], x)
  }

  /** The first occurrence of `x` in a prefix that holds it is its first occurrence overall. */
  lemma FirstIndexPrefix(xs: seq<string>, n: nat, x: string)
    requires n <= |xs| && x in xs[..n]
    ensures FirstIndex(xs[..n], x) == FirstIndex(xs, x)
  {
    var a := FirstIndex(xs[..n], x);
    forall k | 0 <= k < a ensures xs[k] != x {
      assert xs[k] == xs[..n][k];
    }
    assert xs[a] == x;
  }

  /** An element missing from a prefix first occurs after it. */
  lemma FirstIndexBeyond(xs: seq<string>, n: nat, x: string)
    requires n <= |xs| && x in xs && x !in xs[..n]
    ensures FirstIndex(xs, x) >= n
  {
    forall k | 0 <= k < n ensures xs[k] != x {
      assert xs[k] == xs[..n][k];
    }
  }

  /** Keep the first occurrence of every element, in order. */
  function Dedup(xs: seq<string>): (r: seq<string>)
    ensures |r| <= |xs|
  {
    if xs == [] then []
    else
      var r := Dedup(xs[..|xs| - 1]);
      if xs[|xs| - 1] in r then r else r + [xs[|xs| - 1]]
  }

  /** De-duplication lists each element of the input exactly once. */
  lemma {:induction false} DedupSpec(xs: seq<string>)
    ensures NoDup(Dedup(xs))
    ensures forall x :: x in Dedup(xs) <==> x in xs
  {
    if xs != [] {
      var p := xs[..|xs| - 1];
      DedupSpec(p);
      assert xs == p + [xs[|xs| - 1]];
    }
  }

  /** De-duplication keeps the first element first. */
  lemma {:induction false} DedupHead(xs: seq<string>)
    requires xs != []
    ensures Dedup(xs) != [] && Dedup(xs)[0] == xs[0]
  {
    if |xs| > 1 {
      var p := xs[..|xs| - 1];
      DedupHead(p);
      assert p[0] == xs[0];
    }
  }

  /** De-duplication keeps elements in the order of their first occurrences. */
  lemma {:induction false} DedupFirstOccurrenceOrder(xs: seq<string>)
    ensures forall i, j :: 0 <= i < j < |Dedup(xs)| ==>
      Dedup(xs)[i] in xs && Dedup(xs)[j] in xs && FirstIndex(xs, Dedup(xs)[i]) < FirstIndex(xs, Dedup(xs)[j])
  {
    DedupSpec(xs);
    if xs != [] {
      var n := |xs| - 1;
      var p := xs[..n];
      var rp := Dedup(p);
      var r := Dedup(xs);
      DedupFirstOccurrenceOrder(p);
      DedupSpec(p);
      forall y | y in rp ensures FirstIndex(p, y) == FirstIndex(xs, y) && FirstIndex(xs, y) < n {
        assert xs[..n] == p;
        FirstIndexPrefix(xs, n, y);
      }
      if xs[n] !in rp {
        assert r == rp + [xs[n]];
        assert xs[n] !in p;
        FirstIndexBeyond(xs, n, xs[n]);
        forall i, j | 0 <= i < j < |r|
          ensures FirstIndex(xs, r[i]) < FirstIndex(xs, r[j])
        {
          assert r[i] == rp[i];
          if j < |rp| { assert r[j] == rp[j]; }
        }
      }
    }
  }

  /** Elements first met in `xs[..m]` come before every element first met later. */
  lemma DedupPrefixFirst(xs: seq<string>, m: nat)
    requires m <= |xs|
    ensures forall i, j ::
      (0 <= i < |Dedup(xs)| && 0 <= j < |Dedup(xs)| && Dedup(xs)[i] in xs[..m] && Dedup(xs)[j] !in xs[..m])
      ==> i < j
  {
    var r := Dedup(xs);
    DedupFirstOccurrenceOrder(xs);
    forall i, j | 0 <= i < |r| && 0 <= j < |r| && r[i] in xs[..m] && r[j] !in xs[..m]
      ensures i < j
    {
      FirstIndexPrefix(xs, m, r[i]);
      FirstIndexBeyond(xs, m, r[j]);
      assert FirstIndex(xs, r[i]) < FirstIndex(xs, r[j]);
    }
  }

  // ---------------------------------------------------------------------------
  // `expand_word`

  /** The table entries for `key`: the general list, then the industry list for `domain`. */
  function TableTerms(e: Expander, key: string, domain: string): seq<string> {
    (if key in e.general then e.general[key] else [])
    + (if domain in e.industry && key in e.industry[domain] then e.industry[domain][key] else [])
  }

  /** `expand_word(word, business_domain)`: the word itself, then its table terms looked up by the
      lower-cased word, without repeats. */
  function ExpandWord(e: Expander, word: string, domain: string): (r: seq<string>)
    ensures r != [] && r[0] == word
  {
    var xs := [word] + TableTerms(e, Lower(word), domain);
    DedupHead(xs);
    Dedup(xs)
  }

  /** The expansion lists each term once: the word and exactly its table terms. */
  lemma ExpandWordTerms(e: Expander, word: string, domain: string)
    ensures NoDup(ExpandWord(e, word, domain))
    ensures forall t :: t in ExpandWord(e, word, domain) <==> t == word || t in TableTerms(e, Lower(word), domain)
  {
    DedupSpec([word] + TableTerms(e, Lower(word), domain));
  }

  /** A word in neither table expands to itself alone. */
  lemma ExpandWordAbsent(e: Expander, word: string, domain: string)
    requires Lower(word) !in e.general
    requires domain !in e.industry || Lower(word) !in e.industry[domain]
    ensures ExpandWord(e, word, domain) == [word]
  {
    assert TableTerms(e, Lower(word), domain) == [];
    assert [word] + [] == [word];
    assert Dedup([word]) == [word] by {
      assert [word][..0] == [];
    }
  }

  /** The lookup ignores case: words that lower-case alike have the same expansion terms. */
  lemma ExpandWordCaseInsensitive(e: Expander, w1: string, w2: string, domain: string)
    requires Lower(w1) == Lower(w2)
    ensures forall t :: t != w1 && t != w2 ==>
      (t in ExpandWord(e, w1, domain) <==> t in ExpandWord(e, w2, domain))
  {
    ExpandWordTerms(e, w1, domain);
    ExpandWordTerms(e, w2, domain);
  }

  /** Terms come in the order of their first appearance in the word, the general list, then the
      industry list; so every general term precedes every industry-only term. */
  lemma ExpandWordOrder(e: Expander, word: string, domain: string)
    ensures var key := Lower(word);
      var general := if key in e.general then e.general[key] else [];
      var r := ExpandWord(e, word, domain);
      forall i, j ::
        (0 <= i < |r| && 0 <= j < |r| && (r[i] == word || r[i] in general) && r[j] != word && r[j] !in general)
        ==> i < j
  {
    var key := Lower(word);
    var general := if key in e.general then e.general[key] else [];
    var xs := [word] + TableTerms(e, key, domain);
    var m := 1 + |general|;
    assert xs[..m] == [word] + general;
    DedupPrefixFirst(xs, m);
  }

  // ---------------------------------------------------------------------------
  // `expand_query_terms`

  /** The expansion of `w` adds at least one term. */
  predicate Expands(e: Expander, w: string, domain: string) {
    |ExpandWord(e, w, domain)| > 1
  }

  /** The words, in order, whose expansion adds something. */
  function Expandable(e: Expander, words: seq<string>, domain: string): seq<string> {
    if words == [] then []
    else
      var n := |words| - 1;
      Expandable(e, words[..n], domain) + (if Expands(e, words[n], domain) then [words[n]] else [])
  }

  /** The expandable words are exactly the words whose expansion adds something. */
  lemma {:induction false} ExpandableSpec(e: Expander, words: seq<string>, domain: string)
    ensures forall w :: w in Expandable(e, words, domain) <==> w in words && Expands(e, w, domain)
  {
    if words != [] {
      var n := |words| - 1;
      ExpandableSpec(e, words[..n], domain);
      assert words == words[..n] + [words[n]];
    }
  }

  /** Appending a word already kept once changes nothing in the de-duplicated keys. */
  lemma DedupSnoc(xs: seq<string>, x: string)
    ensures Dedup(xs + [x]) == if x in xs then Dedup(xs) else Dedup(xs) + [x]
  {
    DedupSpec(xs);
    assert (xs + [x])[..|xs|] == xs;
  }

  /** What `expand_query_terms` has built after the first `i` words. */
  ghost predicate QueryTermsAfter(e: Expander, words: seq<string>, domain: string, i: nat, d: Dict<seq<string>>)
    requires i <= |words|
  {
    && Valid(d)
    && (forall w :: w in d.values <==> w in Expandable(e, words[..i], domain))
    && (forall w :: w in d.values ==> d.values[w] == ExpandWord(e, w, domain))
    && d.keys == Dedup(Expandable(e, words[..i], domain))
  }

  /** Looking at one more word adds it to the expandable words exactly when it expands. */
  lemma ExpandableSnoc(e: Expander, words: seq<string>, domain: string, i: nat)
    requires i < |words|
    ensures Expandable(e, words[..i + 1], domain) ==
      Expandable(e, words[..i], domain) + (if Expands(e, words[i], domain) then [words[i]] else [])
  {
    assert words[..i + 1][..i] == words[..i];
  }

  /** One more word whose expansion adds something: it is put in the dict. */
  lemma QueryTermsPut(e: Expander, words: seq<string>, domain: string, i: nat, d: Dict<seq<string>>)
    requires i < |words| && QueryTermsAfter(e, words, domain, i, d)
    requires Expands(e, words[i], domain)
    ensures QueryTermsAfter(e, words, domain, i + 1, Put(d, words[i], ExpandWord(e, words[i], domain)))
  {
    ExpandableSnoc(e, words, domain, i);
    PutMembers(e, words, domain, i, d);
    PutKeys(e, words, domain, i, d);
  }

  lemma PutMembers(e: Expander, words: seq<string>, domain: string, i: nat, d: Dict<seq<string>>)
    requires i < |words| && Valid(d)
    requires forall w :: w in d.values <==> w in Expandable(e, words[..i], domain)
    requires Expandable(e, words[..i + 1], domain) == Expandable(e, words[..i], domain) + [words[i]]
    ensures forall w :: w in Put(d, words[i], ExpandWord(e, words[i], domain)).values <==>
      w in Expandable(e, words[..i + 1], domain)
  {
  }

  lemma PutKeys(e: Expander, words: seq<string>, domain: string, i: nat, d: Dict<seq<string>>)
    requires i < |words| && Valid(d)
    requires forall w :: w in d.values <==> w in Expandable(e, words[..i], domain)
    requires d.keys == Dedup(Expandable(e, words[..i], domain))
    requires Expandable(e, words[..i + 1], domain) == Expandable(e, words[..i], domain) + [words[i]]
    ensures Put(d, words[i], ExpandWord(e, words[i], domain)).keys == Dedup(Expandable(e, words[..i + 1], domain))
  {
    DedupSnoc(Expandable(e, words[..i], domain), words[i]);
  }

  /** One more word whose expansion adds nothing: the dict stays as it is. */
  lemma QueryTermsSkip(e: Expander, words: seq<string>, domain: string, i: nat, d: Dict<seq<string>>)
    requires i < |words| && QueryTermsAfter(e, words, domain, i, d)
    requires !Expands(e, words[i], domain)
    ensures QueryTermsAfter(e, words, domain, i + 1, d)
  {
    ExpandableSnoc(e, words, domain, i);
    AppendEmpty(Expandable(e, words[..i], domain));
  }

  /** After the last word, the dict holds what `expand_query_terms` promises. */
  lemma QueryTermsDone(e: Expander, words: seq<string>, domain: string, d: Dict<seq<string>>)
    requires QueryTermsAfter(e, words, domain, |words|, d)
    ensures Valid(d)
    ensures forall w :: w in d.values <==> w in words && Expands(e, w, domain)
    ensures forall w :: w in d.values ==> d.values[w] == ExpandWord(e, w, domain)
    ensures d.keys == Dedup(Expandable(e, words, domain))
  {
    assert words[..|words|] == words;
    ExpandableSpec(e, words, domain);
  }

  /** `expand_query_terms(words, business_domain)`: every word whose expansion adds something,
      mapped to its full expansion, keyed in order of first appearance. */
  method ExpandQueryTerms(e: Expander, words: seq<string>, domain: string)
    returns (expansions: Dict<seq<string>>)
    ensures Valid(expansions)
    ensures forall w :: w in expansions.values <==> w in words && Expands(e, w, domain)
    ensures forall w :: w in expansions.values ==> expansions.values[w] == ExpandWord(e, w, domain)
    ensures expansions.keys == Dedup(Expandable(e, words, domain))
  {
    expansions := Empty();
    var i := 0;
    while i < |words|
      invariant 0 <= i <= |words|
      invariant QueryTermsAfter(e, words, domain, i, expansions)
    {
      var word := words[i];
      var expanded := ExpandWord(e, word, domain);
      if |expanded| > 1 {
        QueryTermsPut(e, words, domain, i, expansions);
        expansions := Put(expansions, word, expanded);
      } else {
        QueryTermsSkip(e, words, domain, i, expansions);
      }
      i := i + 1;
    }
    QueryTermsDone(e, words, domain, expansions);
  }

  // ---------------------------------------------------------------------------
  // `get_all_business_terms`

  /** `t` is listed under some key of the general table or of some industry table. */
  ghost predicate IsBusinessTerm(e: Expander, t: string) {
    || (exists k :: k in e.general && t in e.general[k])
    || (exists d, k :: d in e.industry && k in e.industry[d] && t in e.industry[d][k])
  }

  /** `get_all_business_terms()`: every term of every table, once, in sorted order. */
  method GetAllBusinessTerms(e: Expander) returns (terms: seq<string>)
    ensures StrictlySorted(terms)
    ensures forall t :: t in terms <==> IsBusinessTerm(e, t)
  {
    var allTerms: set<string> := {};
    var keys := e.general.Keys;
    while keys != {}
      invariant keys <= e.general.Keys
      invariant forall t :: t in allTerms <==> exists k :: k in e.general && k !in keys && t in e.general[k]
      decreases |keys|
    {
      var k :| k in keys;
      allTerms := allTerms + (set t | t in e.general[k]);
      keys := keys - {k};
    }
    ghost var fromGeneral := allTerms;
    var industries := e.industry.Keys;
    while industries != {}
      invariant industries <= e.industry.Keys
      invariant forall t :: t in allTerms <==>
        (t in fromGeneral || exists d, k :: d in e.industry && d !in industries && k in e.industry[d] && t in e.industry[d][k])
      decreases |industries|
    {
      var d :| d in industries;
      var table := e.industry[d];
      var tableKeys := table.Keys;
      ghost var before := allTerms;
      while tableKeys != {}
        invariant tableKeys <= table.Keys
        invariant forall t :: t in allTerms <==>
          (t in before || exists k :: k in table && k !in tableKeys && t in table[k])
        decreases |tableKeys|
      {
        var k :| k in tableKeys;
        allTerms := allTerms + (set t | t in table[k]);
        tableKeys := tableKeys - {k};
      }
      industries := industries - {d};
    }
    terms := SortSet(allTerms);
  }

  // ---------------------------------------------------------------------------
  // `expand_candidates_with_business_terms`

  /** A candidate handed to the expander: a plain string, or a dict of string fields. */
  datatype Candidate = TextCandidate(text: string) | DictCandidate(fields: map<string, string>)

  /** The candidate's word: `candidate.get('text', '')` for a dict, `str(candidate)` otherwise. */
  function CandidateWord(c: Candidate): string {
    match c
    case TextCandidate(s) => s
    case DictCandidate(f) => if "text" in f then f["text"] else ""
  }

  /** The new candidate for expansion `term` of `word`. */
  function ExpandedCandidate(c: Candidate, term: string, word: string): Candidate {
    match c
    case TextCandidate(_) => TextCandidate(term)
    case DictCandidate(f) =>
      DictCandidate(f["text" := term]["candidate_type" := "expanded"]["original_word" := word])
  }

  /** The candidates added for one input candidate: one per expansion term after the word itself,
      and only when the word is a single word. */
  function Additions(e: Expander, c: Candidate, domain: string): seq<Candidate> {
    var word := CandidateWord(c);
    if |SplitWs(word)| == 1 then ExpansionsFrom(c, word, ExpandWord(e, word, domain), 1) else []
  }

  /** One new candidate for each of `terms[j..]`. */
  function ExpansionsFrom(c: Candidate, word: string, terms: seq<string>, j: nat): (r: seq<Candidate>)
    ensures |r| == if j <= |terms| then |terms| - j else 0
    decreases |terms| - j
  {
    if j >= |terms| then [] else [ExpandedCandidate(c, terms[j], word)] + ExpansionsFrom(c, word, terms, j + 1)
  }

  /** Each candidate of `ExpansionsFrom(.., j)` is the expansion by one of `terms[j..]`. */
  lemma {:induction false} ExpansionsFromTerms(c: Candidate, word: string, terms: seq<string>, j: nat)
    ensures forall x :: x in ExpansionsFrom(c, word, terms, j) ==>
      exists k :: j <= k < |terms| && x == ExpandedCandidate(c, terms[k], word)
    decreases |terms| - j
  {
    if j < |terms| {
      ExpansionsFromTerms(c, word, terms, j + 1);
    }
  }

  /** The additions for each candidate, in candidate order. */
  function AllAdditions(e: Expander, cs: seq<Candidate>, domain: string): seq<Candidate> {
    if cs == [] then [] else AllAdditions(e, cs[..|cs| - 1], domain) + Additions(e, cs[|cs| - 1], domain)
  }

  /** The additions of one more candidate come last. */
  lemma AllAdditionsSnoc(e: Expander, cs: seq<Candidate>, i: nat, domain: string)
    requires i < |cs|
    ensures AllAdditions(e, cs[..i + 1], domain) == AllAdditions(e, cs[..i], domain) + Additions(e, cs[i], domain)
  {
    assert cs[..i + 1][..i] == cs[..i];
  }

  /** `expand_candidates_with_business_terms(candidates, business_domain)`: the input candidates,
      then the additions for each of them. */
  method ExpandCandidatesWithBusinessTerms(e: Expander, candidates: seq<Candidate>, domain: string)
    returns (enhanced: seq<Candidate>)
    ensures enhanced == candidates + AllAdditions(e, candidates, domain)
  {
    enhanced := candidates;
    var i := 0;
    while i < |candidates|
      invariant 0 <= i <= |candidates|
      invariant enhanced == candidates + AllAdditions(e, candidates[..i], domain)
    {
      var candidate := candidates[i];
      var word := CandidateWord(candidate);
      AllAdditionsSnoc(e, candidates, i, domain);
      AppendAssoc(candidates, AllAdditions(e, candidates[..i], domain), Additions(e, candidate, domain));
      ghost var target := candidates + AllAdditions(e, candidates[..i + 1], domain);
      if |SplitWs(word)| == 1 {
        var expandedTerms := ExpandWord(e, word, domain);
        var j := 1;
        while j < |expandedTerms|
          invariant 1 <= j <= |expandedTerms|
          invariant enhanced + ExpansionsFrom(candidate, word, expandedTerms, j) == target
        {
          var term := expandedTerms[j];
          AppendAssoc(enhanced, [ExpandedCandidate(candidate, term, word)],
            ExpansionsFrom(candidate, word, expandedTerms, j + 1));
          enhanced := enhanced + [ExpandedCandidate(candidate, term, word)];
          j := j + 1;
        }
        AppendEmpty(enhanced);
      } else {
        AppendEmpty(AllAdditions(e, candidates[..i], domain));
      }
      i := i + 1;
    }
    SliceAll(candidates);
  }

  /** What each added candidate is: the expansion of a single-word input candidate by a term other
      than the word itself; an added dict is marked `expanded` and names its original word. */
  lemma AdditionsShape(e: Expander, c: Candidate, domain: string)
    ensures var word := CandidateWord(c);
      forall x :: x in Additions(e, c, domain) ==>
        && |SplitWs(word)| == 1
        && (exists t :: t in ExpandWord(e, word, domain) && t != word && x == ExpandedCandidate(c, t, word))
        && (x.DictCandidate? <==> c.DictCandidate?)
        && (x.DictCandidate? ==>
              x.fields["candidate_type"] == "expanded" && x.fields["original_word"] == word && x.fields["text"] != word)
        && (x.TextCandidate? ==> x.text != word)
  {
    var word := CandidateWord(c);
    if |SplitWs(word)| == 1 {
      var ex := ExpandWord(e, word, domain);
      ExpandWordTerms(e, word, domain);
      ExpansionsFromTerms(c, word, ex, 1);
      forall x | x in Additions(e, c, domain)
        ensures exists t :: t in ex && t != word && x == ExpandedCandidate(c, t, word)
      {
        var k :| 1 <= k < |ex| && x == ExpandedCandidate(c, ex[k], word);
        assert ex[k] != ex[0];
      }
    }
  }

  /** Every added candidate comes from some single-word input candidate. */
  lemma {:induction false} AllAdditionsFromInputs(e: Expander, cs: seq<Candidate>, domain: string)
    ensures forall x :: x in AllAdditions(e, cs, domain) ==>
      exists i :: 0 <= i < |cs| && |SplitWs(CandidateWord(cs[i]))| == 1 && x in Additions(e, cs[i], domain)
  {
    if cs != [] {
      var n := |cs| - 1;
      AllAdditionsFromInputs(e, cs[..n], domain);
      AdditionsShape(e, cs[n], domain);
      forall x | x in AllAdditions(e, cs, domain)
        ensures exists i :: 0 <= i < |cs| && |SplitWs(CandidateWord(cs[i]))| == 1 && x in Additions(e, cs[i], domain)
      {
        if x in AllAdditions(e, cs[..n], domain) {
          var i :| 0 <= i < n && |SplitWs(CandidateWord(cs[..n][i]))| == 1 && x in Additions(e, cs[..n][i], domain);
          assert cs[..n][i] == cs[i];
        } else {
          assert x in Additions(e, cs[n], domain);
        }
      }
    }
  }
}
