/** The learners built on the persistent pattern store: the spell corrector, the business-phrase
    detector, and the preprocessing pipeline's query rebuild and learning from user corrections. */
module PersistentLearning {
  import opened Wrappers
  import opened Text
  import opened PersistentStore
  import opened Candidates
  import opened Seqs

  // ---------------------------------------------------------------------------
  // `PersistentSpellCorrector`

  /** `len(word) <= 2 or word.isdigit()`: such a word passes through `correct` untouched. */
  predicate PassesThrough(w: string) {
    |w| <= 2 || IsDigits(w)
  }

  /** Where a correction came from: a learned pattern or the ERPNext vocabulary. */
  datatype Source = LearnedPattern | ErpVocabulary

  /** One entry of `corrections_applied`. */
  datatype Correction = Correction(original: string, corrected: string, confidence: real, source: Source)

  /** The corrector's two stores: the learned corrections and the ERPNext vocabulary. */
  datatype Spell = Spell(learning: Store, vocabulary: Store)

  ghost predicate SpellWf(sp: Spell) {
    Wf(sp.learning) && Wf(sp.vocabulary)
  }

  /** `x['confidence'] * x['usage_count']`. */
  function Score(x: Similar): real {
    x.confidence * (x.usageCount as real)
  }

  /** `max(similar_patterns, key=...)`: the position of the first entry with the highest score. */
  function Best(ps: seq<Similar>): (i: nat)
    requires ps != []
    ensures i < |ps|
  {
    if |ps| == 1 then 0
    else
      var b := Best(ps[..|ps| - 1]);
      if Score(ps[|ps| - 1]) > Score(ps[b]) then |ps| - 1 else b
  }

  /** The chosen entry scores at least as high as every entry, and higher than every earlier one. */
  lemma {:induction false} BestSpec(ps: seq<Similar>)
    requires ps != []
    ensures forall k :: 0 <= k < |ps| ==> Score(ps[k]) <= Score(ps[Best(ps)])
    ensures forall k :: 0 <= k < Best(ps) ==> Score(ps[k]) < Score(ps[Best(ps)])
  {
    if |ps| > 1 {
      var init := ps[..|ps| - 1];
      BestSpec(init);
      assert forall k :: 0 <= k < |init| ==> init[k] == ps[k];
    }
  }

  /** The learning store after `learn_correction(original, corrected)`. */
  function LearnedCorrection(s: Store, original: string, corrected: string, env: Env, emb: Embedder): (r: Store)
    requires Wf(s)
    ensures Wf(r)
  {
    if Lower(original) != Lower(corrected) then Add(s, Lower(original), corrected, "spell_correction", 0.9, env, emb)
    else s
  }

  /** A correction that only changes case teaches nothing; any other is found again by an exact
      look-up of the original word, whatever its case. */
  lemma LearnedCorrectionSpec(s: Store, original: string, corrected: string, env: Env, emb: Embedder, q: string,
                              askedType: Option<string>, threshold: real, now: real)
    requires Wf(s) && Lower(q) == Lower(original)
    ensures Lower(original) == Lower(corrected) ==> LearnedCorrection(s, original, corrected, env, emb) == s
    ensures Lower(original) != Lower(corrected) ==>
      FindSimilar(LearnedCorrection(s, original, corrected, env, emb), q, askedType, threshold, now, emb).1
        == [Similar(Lower(original), corrected, 0.9, 2, 1.0)]
  {
    LowerIsLower(original);
    if Lower(original) != Lower(corrected) {
      AddThenFind(s, Lower(original), corrected, "spell_correction", 0.9, env, emb, q, askedType, threshold, now);
    }
  }

  /** What `correct` does with one word: the stores afterwards, the output word and the correction
      recorded, if any. */
  datatype WordStep = WordStep(state: Spell, out: string, correction: Option<Correction>)

  /** One iteration of the loop of `correct`. */
  function CorrectWord(sp: Spell, w: string, env: Env, emb: Embedder): (r: WordStep)
    requires SpellWf(sp)
    ensures SpellWf(r.state)
  {
    if PassesThrough(w) then WordStep(sp, w, None)
    else
      var (learning, similar) := FindSimilar(sp.learning, w, Some("spell_correction"), 0.8, env.now, emb);
      if similar != [] then
        var best := similar[Best(similar)];
        WordStep(Spell(learning, sp.vocabulary), best.corrected,
                 Some(Correction(w, best.corrected, best.confidence, LearnedPattern)))
      else
        var (vocabulary, matches) := FindSimilar(sp.vocabulary, w, Some("vocabulary"), 0.7, env.now, emb);
        if matches != [] then
          var c := matches[0].corrected;
          WordStep(Spell(LearnedCorrection(learning, w, c, env, emb), vocabulary), c,
                   Some(Correction(w, c, 0.8, ErpVocabulary)))
        else WordStep(Spell(learning, vocabulary), w, None)
  }

  /** The word `out` and the correction `c` that `correct` produces for the word `w`: a short or
      numeric word passes through with no correction; a word comes out changed only together with
      a correction that records the change. */
  predicate StepShape(w: string, out: string, c: Option<Correction>) {
    && (PassesThrough(w) ==> c.None? && out == w)
    && (c.None? ==> out == w)
    && (c.Some? ==> c.value.original == w && c.value.corrected == out)
  }

  /** One word has that shape, and a word that passes through consults no store. */
  lemma CorrectWordShape(sp: Spell, w: string, env: Env, emb: Embedder)
    requires SpellWf(sp)
    ensures StepShape(w, CorrectWord(sp, w, env, emb).out, CorrectWord(sp, w, env, emb).correction)
    ensures PassesThrough(w) ==> CorrectWord(sp, w, env, emb).state == sp
  {
  }

  /** A word with a learned correction, in any case, is replaced by that correction. */
  lemma CorrectWordLearned(sp: Spell, w: string, env: Env, emb: Embedder)
    requires SpellWf(sp) && !PassesThrough(w) && Lower(w) in sp.learning.exactMatches
    ensures var m := sp.learning.metadata[sp.learning.exactMatches[Lower(w)]];
      var r := CorrectWord(sp, w, env, emb);
      r.out == m.corrected && r.correction == Some(Correction(w, m.corrected, m.confidence, LearnedPattern))
  {
    FindExact(sp.learning, w, Some("spell_correction"), 0.8, env.now, emb);
  }

  /** Teaching a correction, then correcting the same word, gives the taught correction. */
  lemma LearnThenCorrect(sp: Spell, w: string, c: string, env: Env, emb: Embedder)
    requires SpellWf(sp) && !PassesThrough(w) && Lower(w) != Lower(c)
    ensures CorrectWord(Spell(LearnedCorrection(sp.learning, w, c, env, emb), sp.vocabulary), w, env, emb).out == c
  {
    LowerIsLower(w);
    var learning := LearnedCorrection(sp.learning, w, c, env, emb);
    assert Lower(w) in learning.exactMatches;
    CorrectWordLearned(Spell(learning, sp.vocabulary), w, env, emb);
  }

  /** The stores, the output words and the per-word corrections after the first `n` words. */
  datatype Run = Run(state: Spell, words: seq<string>, steps: seq<Option<Correction>>)

  function CorrectUpTo(sp: Spell, words: seq<string>, n: nat, env: Env, emb: Embedder): (r: Run)
    requires SpellWf(sp) && n <= |words|
    ensures SpellWf(r.state) && |r.words| == n && |r.steps| == n
  {
    if n == 0 then Run(sp, [], [])
    else
      var prior := CorrectUpTo(sp, words, n - 1, env, emb);
      var step := CorrectWord(prior.state, words[n - 1], env, emb);
      Run(step.state, prior.words + [step.out], prior.steps + [step.correction])
  }

  /** One more word of the loop of `correct`. */
  lemma CorrectUpToNext(sp: Spell, words: seq<string>, i: nat, env: Env, emb: Embedder, prior: Run, step: WordStep)
    requires SpellWf(sp) && i < |words| && CorrectUpTo(sp, words, i, env, emb) == prior
    requires CorrectWord(prior.state, words[i], env, emb) == step
    ensures CorrectUpTo(sp, words, i + 1, env, emb) == Run(step.state, prior.words + [step.out], prior.steps + [step.correction])
  {
  }

  /** The corrections recorded, in order. */
  function Somes<T>(xs: seq<Option<T>>): (r: seq<T>)
    ensures |r| <= |xs|
  {
    if xs == [] then []
    else
      var init := Somes(xs[..|xs| - 1]);
      if xs[|xs| - 1].Some? then init + [xs[|xs| - 1].value] else init
  }

  lemma SomesSnoc<T>(xs: seq<Option<T>>, x: Option<T>)
    ensures Somes(xs + [x]) == Somes(xs) + (if x.Some? then [x.value] else [])
  {
    assert (xs + [x])[..|xs|] == xs;
  }

  /** `correct(text)`: the stores afterwards, the corrected text and `corrections_applied`. */
  function CorrectText(sp: Spell, text: string, env: Env, emb: Embedder): (Spell, string, seq<Correction>)
    requires SpellWf(sp)
  {
    var words := SplitWs(text);
    var run := CorrectUpTo(sp, words, |words|, env, emb);
    (run.state, Join(" ", run.words), Somes(run.steps))
  }

  /** The first `n` words have that shape. */
  predicate AllShaped(words: seq<string>, outs: seq<string>, steps: seq<Option<Correction>>, n: nat)
    requires n <= |words| && n <= |outs| && n <= |steps|
  {
    forall k :: 0 <= k < n ==> StepShape(words[k], outs[k], steps[k])
  }

  lemma ShapedSnoc(words: seq<string>, outs: seq<string>, steps: seq<Option<Correction>>, out: string,
                   c: Option<Correction>)
    requires |outs| == |steps| < |words| && AllShaped(words, outs, steps, |outs|)
    requires StepShape(words[|outs|], out, c)
    ensures AllShaped(words, outs + [out], steps + [c], |outs| + 1)
  {
    assert forall k :: 0 <= k < |outs| ==> (outs + [out])[k] == outs[k] && (steps + [c])[k] == steps[k];
  }

  /** Every word of the text has that shape. */
  lemma {:induction false} CorrectUpToShape(sp: Spell, words: seq<string>, n: nat, env: Env, emb: Embedder)
    requires SpellWf(sp) && n <= |words|
    ensures AllShaped(words, CorrectUpTo(sp, words, n, env, emb).words, CorrectUpTo(sp, words, n, env, emb).steps, n)
  {
    if n > 0 {
      CorrectUpToShape(sp, words, n - 1, env, emb);
      var prior := CorrectUpTo(sp, words, n - 1, env, emb);
      CorrectWordShape(prior.state, words[n - 1], env, emb);
      var step := CorrectWord(prior.state, words[n - 1], env, emb);
      ShapedSnoc(words, prior.words, prior.steps, step.out, step.correction);
    }
  }

  // ---------------------------------------------------------------------------
  // `PersistentPhraseDetector`

  /** `phrase.replace(" ", "_").lower()`. */
  function DefaultReplacement(phrase: string): string {
    Lower(ReplaceAll(phrase, " ", "_"))
  }

  /** Replacing one character by another acts position by position. */
  lemma {:induction false} ReplaceCharSpec(s: string, a: char, b: char)
    ensures |ReplaceAll(s, [a], [b])| == |s|
    ensures forall k :: 0 <= k < |s| ==> ReplaceAll(s, [a], [b])[k] == if s[k] == a then b else s[k]
    decreases |s|
  {
    if |s| > 0 {
      ReplaceCharSpec(s[1..], a, b);
      assert s[..1] == [s[0]];
    }
  }

  /** The default replacement has the phrase's length, spaces turned into underscores and every
      letter lower-cased; so it holds no space. */
  lemma DefaultReplacementSpec(phrase: string)
    ensures |DefaultReplacement(phrase)| == |phrase|
    ensures forall k :: 0 <= k < |phrase| ==>
      DefaultReplacement(phrase)[k] == if phrase[k] == ' ' then '_' else LowerChar(phrase[k])
    ensures ' ' !in DefaultReplacement(phrase)
  {
    ReplaceCharSpec(phrase, ' ', '_');
  }

  /** The store after `learn_phrase(phrase, replacement)`; a missing or empty replacement falls
      back to the default one. */
  function LearnedPhrase(s: Store, phrase: string, replacement: Option<string>, env: Env, emb: Embedder): (r: Store)
    requires Wf(s)
    ensures Wf(r)
  {
    var rep := if replacement.None? || replacement.value == "" then DefaultReplacement(phrase) else replacement.value;
    Add(s, Lower(phrase), rep, "business_phrase", 0.8, env, emb)
  }

  /** A learned phrase is found again, in any case, with the replacement it was given, or with
      the default replacement when that was missing or empty. */
  lemma LearnedPhraseSpec(s: Store, phrase: string, replacement: Option<string>, env: Env, emb: Embedder,
                          q: string, threshold: real, now: real)
    requires Wf(s) && Lower(q) == Lower(phrase)
    ensures FindSimilar(LearnedPhrase(s, phrase, replacement, env, emb), q, Some("business_phrase"), threshold, now, emb).1
      == [Similar(Lower(phrase), if replacement.Some? && replacement.value != "" then replacement.value
                                 else DefaultReplacement(phrase), 0.8, 2, 1.0)]
  {
    LowerIsLower(phrase);
    var rep := if replacement.None? || replacement.value == "" then DefaultReplacement(phrase) else replacement.value;
    AddThenFind(s, Lower(phrase), rep, "business_phrase", 0.8, env, emb, q, Some("business_phrase"), threshold, now);
  }

  /** The windows `(i, j)` of `for j in range(i + 2, min(i + 4, n + 1))` for one `i`: the runs of
      2 and then of 3 words starting at word `i`, as far as they fit in the `n` words. */
  function Row(i: nat, n: nat): seq<(nat, nat)> {
    if i + 3 <= n then [(i, i + 2), (i, i + 3)]
    else if i + 2 <= n then [(i, i + 2)]
    else []
  }

  /** The windows for `i` below `m`, in loop order. */
  function WindowsUpTo(m: nat, n: nat): seq<(nat, nat)> {
    if m == 0 then [] else WindowsUpTo(m - 1, n) + Row(m - 1, n)
  }

  /** Every window `detect_and_replace` looks at, for `n` words. */
  function Windows(n: nat): seq<(nat, nat)> {
    WindowsUpTo(n, n)
  }

  /** Window `x` comes before window `y`: by start, then by end. */
  predicate Before(x: (nat, nat), y: (nat, nat)) {
    x.0 < y.0 || (x.0 == y.0 && x.1 < y.1)
  }

  predicate InOrder(ws: seq<(nat, nat)>) {
    forall a, b :: 0 <= a < b < |ws| ==> Before(ws[a], ws[b])
  }

  /** Windows in order, all starting before `c`, followed by windows in order starting at `c`. */
  lemma InOrderAppend(xs: seq<(nat, nat)>, ys: seq<(nat, nat)>, c: nat)
    requires InOrder(xs) && InOrder(ys)
    requires forall a :: 0 <= a < |xs| ==> xs[a].0 < c
    requires forall b :: 0 <= b < |ys| ==> ys[b].0 == c
    ensures InOrder(xs + ys)
  {
    forall a, b | 0 <= a < b < |xs + ys| ensures Before((xs + ys)[a], (xs + ys)[b]) {
      if b < |xs| {
        assert (xs + ys)[a] == xs[a] && (xs + ys)[b] == xs[b];
      } else if a < |xs| {
        assert (xs + ys)[a] == xs[a] && (xs + ys)[b] == ys[b - |xs|];
      } else {
        assert (xs + ys)[a] == ys[a - |xs|] && (xs + ys)[b] == ys[b - |xs|];
      }
    }
  }

  /** A window is one of those for the starts below `m` exactly when it spans 2 or 3 words, fits
      in the `n` words and starts below `m`. */
  lemma {:induction false} WindowsUpToMembers(m: nat, n: nat)
    ensures forall w :: w in WindowsUpTo(m, n) <==> w.0 < m && w.0 + 2 <= w.1 <= w.0 + 3 && w.1 <= n
  {
    if m > 0 {
      WindowsUpToMembers(m - 1, n);
      var row := Row(m - 1, n);
      forall w ensures w in row <==> w.0 == m - 1 && w.0 + 2 <= w.1 <= w.0 + 3 && w.1 <= n {
        if w.0 == m - 1 && w.0 + 2 <= w.1 <= w.0 + 3 && w.1 <= n {
          assert row[w.1 - (m + 1)] == w;
        }
      }
    }
  }

  /** The windows come in loop order, each once. */
  lemma {:induction false} WindowsUpToOrdered(m: nat, n: nat)
    ensures InOrder(WindowsUpTo(m, n))
    ensures forall a :: 0 <= a < |WindowsUpTo(m, n)| ==> WindowsUpTo(m, n)[a].0 < m
  {
    if m > 0 {
      WindowsUpToOrdered(m - 1, n);
      var prior := WindowsUpTo(m - 1, n);
      var row := Row(m - 1, n);
      RowOrdered(m - 1, n);
      InOrderAppend(prior, row, m - 1);
      StartsBelow(prior, row, m);
    }
  }

  lemma RowOrdered(i: nat, n: nat)
    ensures InOrder(Row(i, n)) && forall b :: 0 <= b < |Row(i, n)| ==> Row(i, n)[b].0 == i
  {
  }

  lemma StartsBelow(xs: seq<(nat, nat)>, ys: seq<(nat, nat)>, m: nat)
    requires (forall a :: 0 <= a < |xs| ==> xs[a].0 < m) && (forall b :: 0 <= b < |ys| ==> ys[b].0 < m)
    ensures forall a :: 0 <= a < |xs + ys| ==> (xs + ys)[a].0 < m
  {
    assert forall a :: 0 <= a < |xs + ys| ==> (xs + ys)[a] == if a < |xs| then xs[a] else ys[a - |xs|];
  }

  /** The windows are exactly the runs of 2 and of 3 consecutive words, each once, in order of
      their start and then of their end. */
  lemma WindowsSpec(n: nat)
    ensures forall w :: w in Windows(n) <==> w.0 + 2 <= w.1 <= w.0 + 3 && w.1 <= n
    ensures InOrder(Windows(n))
  {
    WindowsUpToMembers(n, n);
    WindowsUpToOrdered(n, n);
  }

  /** One entry of `detected_phrases`. */
  datatype Detected = Detected(original: string, replacement: string, confidence: real, usageCount: nat)

  /** The store, the text and the phrases detected so far. */
  datatype Detection = Detection(state: Store, processed: string, detected: seq<Detected>)

  /** `" ".join(words[i:j])`. */
  function Phrase(words: seq<string>, w: (nat, nat)): string
    requires w.0 <= w.1 <= |words|
  {
    Join(" ", words[w.0..w.1])
  }

  ghost predicate WithinWords(ws: seq<(nat, nat)>, n: nat) {
    forall k :: 0 <= k < |ws| ==> ws[k].0 <= ws[k].1 <= n
  }

  /** One window: the best (first) similar phrase, if any, replaces the window's text throughout. */
  function DetectStep(d: Detection, words: seq<string>, w: (nat, nat), now: real, emb: Embedder): (r: Detection)
    requires Wf(d.state) && w.0 <= w.1 <= |words|
    ensures Wf(r.state)
  {
    var phrase := Phrase(words, w);
    var (s, similar) := FindSimilar(d.state, phrase, Some("business_phrase"), 0.8, now, emb);
    if similar != [] then
      var best := similar[0];
      Detection(s, ReplaceAll(d.processed, phrase, best.corrected),
                d.detected + [Detected(phrase, best.corrected, best.confidence, best.usageCount)])
    else Detection(s, d.processed, d.detected)
  }

  /** The windows `ws` examined in order. */
  function DetectOver(d: Detection, words: seq<string>, ws: seq<(nat, nat)>, now: real, emb: Embedder): (r: Detection)
    requires Wf(d.state) && WithinWords(ws, |words|)
    ensures Wf(r.state)
  {
    if ws == [] then d
    else DetectStep(DetectOver(d, words, ws[..|ws| - 1], now, emb), words, ws[|ws| - 1], now, emb)
  }

  /** `detect_and_replace(text)`. */
  function DetectIn(s: Store, text: string, now: real, emb: Embedder): (r: Detection)
    requires Wf(s)
  {
    var words := SplitWs(text);
    WindowsUpToMembers(|words|, |words|);
    DetectOver(Detection(s, text, []), words, Windows(|words|), now, emb)
  }

  /** One window either changes nothing of the text and the report, or appends one report whose
      phrase is the window's text. */
  predicate StepAdds(d: Detection, r: Detection, phrase: string) {
    || (r.detected == d.detected && r.processed == d.processed)
    || (|r.detected| == |d.detected| + 1 && r.detected[..|d.detected|] == d.detected
        && r.detected[|d.detected|].original == phrase)
  }

  lemma DetectStepShape(d: Detection, words: seq<string>, w: (nat, nat), now: real, emb: Embedder)
    requires Wf(d.state) && w.0 <= w.1 <= |words|
    ensures StepAdds(d, DetectStep(d, words, w, now, emb), Phrase(words, w))
  {
  }

  /** The report of `r` extends that of `d` by at most `m` entries, and the text changes only when
      the report does. */
  predicate Grows(d: Detection, r: Detection, m: nat) {
    && |d.detected| <= |r.detected| <= |d.detected| + m
    && r.detected[..|d.detected|] == d.detected
    && (|r.detected| == |d.detected| ==> r.processed == d.processed)
  }

  lemma GrowsSnoc(d: Detection, prior: Detection, r: Detection, m: nat, phrase: string)
    requires Grows(d, prior, m) && StepAdds(prior, r, phrase)
    ensures Grows(d, r, m + 1)
  {
    if |r.detected| == |prior.detected| + 1 {
      assert r.detected[..|d.detected|] == r.detected[..|prior.detected|][..|d.detected|];
    }
  }

  /** Every entry of `r` past those of `d` is the text of one of the windows `ws`. */
  ghost predicate AddedFrom(d: Detection, r: Detection, words: seq<string>, ws: seq<(nat, nat)>)
    requires WithinWords(ws, |words|)
  {
    forall k :: |d.detected| <= k < |r.detected| ==> FromWindow(words, ws, r.detected[k])
  }

  lemma AddedSnoc(d: Detection, prior: Detection, r: Detection, words: seq<string>, ws: seq<(nat, nat)>, w: (nat, nat))
    requires WithinWords(ws, |words|) && w.0 <= w.1 <= |words| && WithinWords(ws + [w], |words|)
    requires |d.detected| <= |prior.detected|
    requires AddedFrom(d, prior, words, ws) && StepAdds(prior, r, Phrase(words, w))
    ensures AddedFrom(d, r, words, ws + [w])
  {
    var all := ws + [w];
    forall k | |d.detected| <= k < |r.detected|
      ensures FromWindow(words, all, r.detected[k])
    {
      if k < |prior.detected| {
        assert r.detected[k] == prior.detected[k];
        assert FromWindow(words, ws, prior.detected[k]);
        var i :| 0 <= i < |ws| && prior.detected[k].original == Phrase(words, ws[i]);
        assert all[i] == ws[i];
      } else {
        assert all[|ws|] == w;
      }
    }
  }

  /** Examining one more window is one more step. */
  lemma DetectOverSnoc(d: Detection, words: seq<string>, ws: seq<(nat, nat)>, w: (nat, nat), now: real, emb: Embedder)
    requires Wf(d.state) && WithinWords(ws, |words|) && w.0 <= w.1 <= |words|
    ensures WithinWords(ws + [w], |words|)
    ensures DetectOver(d, words, ws + [w], now, emb) == DetectStep(DetectOver(d, words, ws, now, emb), words, w, now, emb)
  {
    assert (ws + [w])[..|ws|] == ws;
  }

  /** The windows of one row lie within the words. */
  lemma RowWithin(i: nat, n: nat, m: nat)
    requires m <= |Row(i, n)|
    ensures WithinWords(Row(i, n)[..m], n)
  {
  }

  /** Examining `a` and then `b` is examining `a + b`. */
  lemma {:induction false} DetectOverAppend(d: Detection, words: seq<string>, a: seq<(nat, nat)>, b: seq<(nat, nat)>,
                                            now: real, emb: Embedder)
    requires Wf(d.state) && WithinWords(a, |words|) && WithinWords(b, |words|)
    ensures WithinWords(a + b, |words|)
    ensures DetectOver(d, words, a + b, now, emb) == DetectOver(DetectOver(d, words, a, now, emb), words, b, now, emb)
  {
    WithinAppend(a, b, |words|);
    if b == [] {
      AppendEmpty(a);
    } else {
      var init := b[..|b| - 1];
      WithinAppend(a, init, |words|);
      DetectOverAppend(d, words, a, init, now, emb);
      AppendInit(a, b);
    }
  }

  lemma WithinAppend(a: seq<(nat, nat)>, b: seq<(nat, nat)>, n: nat)
    requires WithinWords(a, n) && WithinWords(b, n)
    ensures WithinWords(a + b, n) && (b != [] ==> WithinWords(b[..|b| - 1], n))
  {
    assert forall k :: 0 <= k < |a + b| ==> (a + b)[k] == if k < |a| then a[k] else b[k - |a|];
  }

  /** The report only grows, by at most one entry per window, and the text changes only when the
      report does. */
  lemma {:induction false} DetectOverGrows(d: Detection, words: seq<string>, ws: seq<(nat, nat)>, now: real, emb: Embedder)
    requires Wf(d.state) && WithinWords(ws, |words|)
    ensures Grows(d, DetectOver(d, words, ws, now, emb), |ws|)
  {
    if ws != [] {
      var init := ws[..|ws| - 1];
      DetectOverGrows(d, words, init, now, emb);
      var prior := DetectOver(d, words, init, now, emb);
      DetectStepShape(prior, words, ws[|ws| - 1], now, emb);
      GrowsSnoc(d, prior, DetectOver(d, words, ws, now, emb), |init|, Phrase(words, ws[|ws| - 1]));
    }
  }

  /** The report entry `x` is the text of one of the windows `ws`. */
  ghost predicate FromWindow(words: seq<string>, ws: seq<(nat, nat)>, x: Detected)
    requires WithinWords(ws, |words|)
  {
    exists i :: 0 <= i < |ws| && x.original == Phrase(words, ws[i])
  }

  /** Every entry the windows add to the report is the text of one of them. */
  lemma {:induction false} DetectOverPhrases(d: Detection, words: seq<string>, ws: seq<(nat, nat)>, now: real, emb: Embedder)
    requires Wf(d.state) && WithinWords(ws, |words|)
    ensures AddedFrom(d, DetectOver(d, words, ws, now, emb), words, ws)
  {
    if ws != [] {
      var init := ws[..|ws| - 1];
      DetectOverPhrases(d, words, init, now, emb);
      DetectOverGrows(d, words, init, now, emb);
      var prior := DetectOver(d, words, init, now, emb);
      DetectStepShape(prior, words, ws[|ws| - 1], now, emb);
      InitLast(ws);
      AddedSnoc(d, prior, DetectOver(d, words, ws, now, emb), words, init, ws[|ws| - 1]);
    }
  }

  /** `detect_and_replace` reports only phrases of 2 or 3 consecutive words of the text, at most
      one per window, and leaves the text alone when it reports nothing. */
  lemma DetectAndReplaceSpec(s: Store, text: string, now: real, emb: Embedder)
    requires Wf(s)
    ensures var words := SplitWs(text);
      var r := DetectIn(s, text, now, emb);
      && |r.detected| <= |Windows(|words|)|
      && (forall k :: 0 <= k < |r.detected| ==>
            exists i, j :: 0 <= i && i + 2 <= j <= i + 3 && j <= |words| && r.detected[k].original == Join(" ", words[i..j]))
      && (r.detected == [] ==> r.processed == text)
  {
    var words := SplitWs(text);
    var ws := Windows(|words|);
    WindowsSpec(|words|);
    var d := Detection(s, text, []);
    DetectOverGrows(d, words, ws, now, emb);
    DetectOverPhrases(d, words, ws, now, emb);
    var r := DetectIn(s, text, now, emb);
    forall k | 0 <= k < |r.detected|
      ensures exists i, j :: 0 <= i && i + 2 <= j <= i + 3 && j <= |words| && r.detected[k].original == Join(" ", words[i..j])
    {
      assert FromWindow(words, ws, r.detected[k]);
      var x :| 0 <= x < |ws| && r.detected[k].original == Phrase(words, ws[x]);
      assert ws[x] in ws;
    }
  }

  // ---------------------------------------------------------------------------
  // `PersistentPreprocessingPipeline`

  /** The rewrites `_rebuild_query` applies: each token's text and the canonical name the mapper
      gave it, if any. */
  function Rewrites(tokens: seq<EntityCandidate>): (r: seq<(string, Option<string>)>)
    reads tokens
    ensures |r| == |tokens|
  {
    if tokens == [] then []
    else Rewrites(tokens[..|tokens| - 1]) + [(tokens[|tokens| - 1].text, tokens[|tokens| - 1].canonical)]
  }

  /** `result.replace(token.text, token.canonical)` for every token with a non-empty canonical name,
      in token order. */
  function Rebuilt(base: string, rw: seq<(string, Option<string>)>): string {
    if rw == [] then base
    else
      var prior := Rebuilt(base, rw[..|rw| - 1]);
      var (text, canonical) := rw[|rw| - 1];
      if canonical.Some? && canonical.value != "" then ReplaceAll(prior, text, canonical.value) else prior
  }

  /** A rewrite is void when it has no canonical name or the name is the text itself. */
  predicate Void(rw: (string, Option<string>)) {
    rw.1.None? || rw.1.value == "" || rw.1.value == rw.0
  }

  /** Tokens that map to nothing new leave the query as it was. */
  lemma {:induction false} RebuiltUnchanged(base: string, rw: seq<(string, Option<string>)>)
    requires forall k :: 0 <= k < |rw| ==> Void(rw[k])
    ensures Rebuilt(base, rw) == base
  {
    if rw != [] {
      RebuiltUnchanged(base, rw[..|rw| - 1]);
      ReplaceBySelf(base, rw[|rw| - 1].0);
    }
  }

  /** A rewrite whose text does not occur in the query at that point changes nothing. */
  lemma RebuiltAbsent(base: string, rw: seq<(string, Option<string>)>, t: string, c: string)
    requires t != [] && !Occurs(Rebuilt(base, rw), t)
    ensures Rebuilt(base, rw + [(t, Some(c))]) == Rebuilt(base, rw)
  {
    assert (rw + [(t, Some(c))])[..|rw|] == rw;
    ReplaceAbsent(Rebuilt(base, rw), t, c);
  }

  /** `learn_correction` for each of the first `n` word pairs. It learns nothing from a pair that
      differs only in case, which is also the test the loop makes before calling it. */
  function LearnPairs(s: Store, ow: seq<string>, cw: seq<string>, n: nat, env: Env, emb: Embedder): (r: Store)
    requires Wf(s) && n <= |ow| == |cw|
    ensures Wf(r)
    ensures |r.vectors| == |s.vectors| + Differing(ow, cw, n)
    ensures KeysTaught(r.exactMatches, s.exactMatches, ow, cw, n)
  {
    if n == 0 then s
    else
      var prior := LearnPairs(s, ow, cw, n - 1, env, emb);
      var next := LearnedCorrection(prior, ow[n - 1], cw[n - 1], env, emb);
      LearnedCorrectionRows(prior, ow[n - 1], cw[n - 1], env, emb);
      LearnedCorrectionKeys(prior, ow[n - 1], cw[n - 1], env, emb);
      KeysTaughtSnoc(prior.exactMatches, next.exactMatches, s.exactMatches, ow, cw, n);
      next
  }

  /** One more word pair of the loop of `learn_from_user_input`. */
  lemma LearnPairsNext(s: Store, ow: seq<string>, cw: seq<string>, k: nat, env: Env, emb: Embedder, prior: Store)
    requires Wf(s) && k < |ow| == |cw| && LearnPairs(s, ow, cw, k, env, emb) == prior
    ensures LearnPairs(s, ow, cw, k + 1, env, emb) == LearnedCorrection(prior, ow[k], cw[k], env, emb)
  {
  }

  /** A pair that differs only in case leaves the store as it is. */
  lemma CaseOnlyKeeps(s: Store, original: string, corrected: string, env: Env, emb: Embedder)
    requires Wf(s) && Lower(original) == Lower(corrected)
    ensures LearnedCorrection(s, original, corrected, env, emb) == s
  {
  }

  /** The learning store after `learn_from_user_input(original_query, user_correction)`: the
      queries differ ignoring case and have as many words, or nothing is learned. */
  function LearnedFromUser(s: Store, originalQuery: string, userCorrection: string, env: Env, emb: Embedder): (r: Store)
    requires Wf(s)
    ensures Wf(r)
  {
    var ow := SplitWs(originalQuery);
    var cw := SplitWs(userCorrection);
    if Lower(originalQuery) != Lower(userCorrection) && |ow| == |cw| then LearnPairs(s, ow, cw, |ow|, env, emb)
    else s
  }

  /** Word `k` among the first `n` differs from its correction ignoring case, and its lower-cased
      form is `t`. */
  ghost predicate TaughtAt(ow: seq<string>, cw: seq<string>, n: nat, t: string)
    requires n <= |ow| == |cw|
  {
    exists k :: 0 <= k < n && Lower(ow[k]) != Lower(cw[k]) && Lower(ow[k]) == t
  }

  /** The number of word pairs among the first `n` that differ ignoring case. */
  function Differing(ow: seq<string>, cw: seq<string>, n: nat): nat
    requires n <= |ow| == |cw|
  {
    if n == 0 then 0 else Differing(ow, cw, n - 1) + (if Lower(ow[n - 1]) != Lower(cw[n - 1]) then 1 else 0)
  }

  /** The keys of `m` are those of `base` and the words taught among the first `n`. */
  ghost predicate KeysTaught(m: map<string, string>, base: map<string, string>, ow: seq<string>, cw: seq<string>, n: nat)
    requires n <= |ow| == |cw|
  {
    forall t :: t in m <==> t in base || TaughtAt(ow, cw, n, t)
  }

  /** The keys of `r` are those of `prior`, and `key` when `added`. */
  ghost predicate AddsKey(r: map<string, string>, prior: map<string, string>, key: string, added: bool) {
    forall t :: t in r <==> t in prior || (added && key == t)
  }

  lemma KeysTaughtSnoc(prior: map<string, string>, r: map<string, string>, base: map<string, string>,
                       ow: seq<string>, cw: seq<string>, n: nat)
    requires 0 < n <= |ow| == |cw| && KeysTaught(prior, base, ow, cw, n - 1)
    requires AddsKey(r, prior, Lower(ow[n - 1]), Lower(ow[n - 1]) != Lower(cw[n - 1]))
    ensures KeysTaught(r, base, ow, cw, n)
  {
    TaughtAtSnoc(ow, cw, n);
  }

  /** One learned correction adds its lower-cased original to the exact table, unless it differs
      only in case. */
  lemma LearnedCorrectionKeys(s: Store, original: string, corrected: string, env: Env, emb: Embedder)
    requires Wf(s)
    ensures var r := LearnedCorrection(s, original, corrected, env, emb);
      AddsKey(r.exactMatches, s.exactMatches, Lower(original), Lower(original) != Lower(corrected))
  {
    LowerIsLower(original);
  }

  /** One learned correction adds one embedding row, unless it differs only in case. */
  lemma LearnedCorrectionRows(s: Store, original: string, corrected: string, env: Env, emb: Embedder)
    requires Wf(s)
    ensures |LearnedCorrection(s, original, corrected, env, emb).vectors|
      == |s.vectors| + (if Lower(original) != Lower(corrected) then 1 else 0)
  {
    LowerIsLower(original);
  }

  lemma TaughtAtSnoc(ow: seq<string>, cw: seq<string>, n: nat)
    requires 0 < n <= |ow| == |cw|
    ensures forall t :: TaughtAt(ow, cw, n, t) <==>
      TaughtAt(ow, cw, n - 1, t) || (Lower(ow[n - 1]) != Lower(cw[n - 1]) && Lower(ow[n - 1]) == t)
  {
    forall t ensures TaughtAt(ow, cw, n, t) <==>
      TaughtAt(ow, cw, n - 1, t) || (Lower(ow[n - 1]) != Lower(cw[n - 1]) && Lower(ow[n - 1]) == t)
    {
      if TaughtAt(ow, cw, n, t) && !(Lower(ow[n - 1]) != Lower(cw[n - 1]) && Lower(ow[n - 1]) == t) {
        var k :| 0 <= k < n && Lower(ow[k]) != Lower(cw[k]) && Lower(ow[k]) == t;
        assert TaughtAt(ow, cw, n - 1, t);
      }
    }
  }

  /** After learning from a user correction, every word that differs ignoring case is in the exact
      table, and nothing else is new there; nothing is learned when the queries agree ignoring case
      or have different word counts. */
  lemma LearnedFromUserSpec(s: Store, originalQuery: string, userCorrection: string, env: Env, emb: Embedder)
    requires Wf(s)
    ensures var ow := SplitWs(originalQuery);
      var cw := SplitWs(userCorrection);
      var r := LearnedFromUser(s, originalQuery, userCorrection, env, emb);
      && (Lower(originalQuery) == Lower(userCorrection) || |ow| != |cw| ==> r == s)
      && (Lower(originalQuery) != Lower(userCorrection) && |ow| == |cw| ==>
            (forall t :: t in r.exactMatches <==> t in s.exactMatches || TaughtAt(ow, cw, |ow|, t)) &&
            |r.vectors| == |s.vectors| + Differing(ow, cw, |ow|))
  {
    var ow := SplitWs(originalQuery);
    var cw := SplitWs(userCorrection);
    if |ow| == |cw| {
    }
  }

  // ---------------------------------------------------------------------------
  // The learners as objects

  class SpellCorrector {
    const learningStore: VectorLearning
    const vocabularyStore: VectorLearning

    function State(): Spell
      reads learningStore, vocabularyStore
    {
      Spell(learningStore.State(), vocabularyStore.State())
    }

    ghost predicate Valid()
      reads learningStore, vocabularyStore
    {
      learningStore != vocabularyStore && learningStore.Valid() && vocabularyStore.Valid()
    }

    /** The corrector over its two stores, as loaded. */
    constructor (learningStore: VectorLearning, vocabularyStore: VectorLearning)
      requires learningStore != vocabularyStore && learningStore.Valid() && vocabularyStore.Valid()
      ensures this.learningStore == learningStore && this.vocabularyStore == vocabularyStore
      ensures Valid()
    {
      this.learningStore := learningStore;
      this.vocabularyStore := vocabularyStore;
    }

    /** `learn_correction(original, corrected)`. */
    method LearnCorrection(original: string, corrected: string, env: Env, emb: Embedder)
      requires Valid()
      modifies learningStore
      ensures Valid()
      ensures learningStore.State() == LearnedCorrection(old(learningStore.State()), original, corrected, env, emb)
    {
      if Lower(original) != Lower(corrected) {
        var _ := learningStore.AddLearningPattern(Lower(original), corrected, "spell_correction", 0.9, env, emb);
      }
    }

    /** One iteration of the loop of `correct`. */
    method CorrectOne(w: string, env: Env, emb: Embedder) returns (out: string, c: Option<Correction>)
      requires Valid()
      modifies learningStore, vocabularyStore
      ensures Valid()
      ensures WordStep(State(), out, c) == CorrectWord(old(State()), w, env, emb)
    {
      if |w| <= 2 || IsDigits(w) {
        return w, None;
      }
      var similar := learningStore.FindSimilarPatterns(w, Some("spell_correction"), 0.8, env.now, emb);
      if similar != [] {
        var best := similar[Best(similar)];
        return best.corrected, Some(Correction(w, best.corrected, best.confidence, LearnedPattern));
      }
      var matches := vocabularyStore.FindSimilarPatterns(w, Some("vocabulary"), 0.7, env.now, emb);
      if matches != [] {
        var correction := matches[0].corrected;
        out, c := correction, Some(Correction(w, correction, 0.8, ErpVocabulary));
        LearnCorrection(w, correction, env, emb);
      } else {
        out, c := w, None;
      }
    }

    /** `correct(text)`. */
    method Correct(text: string, env: Env, emb: Embedder) returns (corrected: string, applied: seq<Correction>)
      requires Valid()
      modifies learningStore, vocabularyStore
      ensures Valid()
      ensures (State(), corrected, applied) == CorrectText(old(State()), text, env, emb)
    {
      var words := SplitWs(text);
      var out;
      out, applied := CorrectWords(words, env, emb);
      corrected := Join(" ", out);
    }

    /** The loop of `correct` over the words of the text. */
    method CorrectWords(words: seq<string>, env: Env, emb: Embedder) returns (out: seq<string>, applied: seq<Correction>)
      requires Valid()
      modifies learningStore, vocabularyStore
      ensures Valid()
      ensures var run := CorrectUpTo(old(State()), words, |words|, env, emb);
        State() == run.state && out == run.words && applied == Somes(run.steps)
    {
      ghost var s0 := State();
      out := [];
      ghost var steps := [];
      applied := [];
      var i := 0;
      while i < |words|
        invariant 0 <= i <= |words|
        invariant Valid()
        invariant CorrectUpTo(s0, words, i, env, emb) == Run(State(), out, steps)
        invariant applied == Somes(steps)
      {
        out, steps, applied := CorrectNext(s0, words, i, out, steps, applied, env, emb);
        i := i + 1;
      }
    }

    /** The body of the loop of `correct`, for word `i`. */
    method CorrectNext(ghost s0: Spell, words: seq<string>, i: nat, out: seq<string>, ghost steps: seq<Option<Correction>>,
                       applied: seq<Correction>, env: Env, emb: Embedder)
      returns (out': seq<string>, ghost steps': seq<Option<Correction>>, applied': seq<Correction>)
      requires Valid() && SpellWf(s0) && i < |words|
      requires CorrectUpTo(s0, words, i, env, emb) == Run(State(), out, steps) && applied == Somes(steps)
      modifies learningStore, vocabularyStore
      ensures Valid()
      ensures CorrectUpTo(s0, words, i + 1, env, emb) == Run(State(), out', steps') && applied' == Somes(steps')
    {
      ghost var before := State();
      var w, c := CorrectOne(words[i], env, emb);
      CorrectUpToNext(s0, words, i, env, emb, Run(before, out, steps), WordStep(State(), w, c));
      out' := out + [w];
      applied' := if c.Some? then applied + [c.value] else applied;
      SomesSnoc(steps, c);
      steps' := steps + [c];
    }
  }

  class PhraseDetector {
    const learningStore: VectorLearning

    /** The detector over its store, as loaded. */
    constructor (learningStore: VectorLearning)
      requires learningStore.Valid()
      ensures this.learningStore == learningStore
    {
      this.learningStore := learningStore;
    }

    /** `learn_phrase(phrase, replacement)`. */
    method LearnPhrase(phrase: string, replacement: Option<string>, env: Env, emb: Embedder)
      requires learningStore.Valid()
      modifies learningStore
      ensures learningStore.Valid()
      ensures learningStore.State() == LearnedPhrase(old(learningStore.State()), phrase, replacement, env, emb)
    {
      var rep := if replacement.None? || replacement.value == "" then Lower(ReplaceAll(phrase, " ", "_")) else replacement.value;
      var _ := learningStore.AddLearningPattern(Lower(phrase), rep, "business_phrase", 0.8, env, emb);
    }

    /** The body of the inner loop of `detect_and_replace`, for the window `w`. */
    method DetectWindow(words: seq<string>, w: (nat, nat), processed: string, detected: seq<Detected>, now: real,
                        emb: Embedder)
      returns (processed': string, detected': seq<Detected>)
      requires learningStore.Valid() && w.0 <= w.1 <= |words|
      modifies learningStore
      ensures learningStore.Valid()
      ensures Detection(learningStore.State(), processed', detected')
        == DetectStep(Detection(old(learningStore.State()), processed, detected), words, w, now, emb)
    {
      var phrase := Join(" ", words[w.0..w.1]);
      var similar := learningStore.FindSimilarPatterns(phrase, Some("business_phrase"), 0.8, now, emb);
      if similar != [] {
        var best := similar[0];
        processed' := ReplaceAll(processed, phrase, best.corrected);
        detected' := detected + [Detected(phrase, best.corrected, best.confidence, best.usageCount)];
      } else {
        processed', detected' := processed, detected;
      }
    }

    /** The inner loop of `detect_and_replace`: the windows starting at word `i`. */
    method DetectRow(words: seq<string>, i: nat, processed: string, detected: seq<Detected>, now: real, emb: Embedder)
      returns (processed': string, detected': seq<Detected>)
      requires learningStore.Valid()
      modifies learningStore
      ensures learningStore.Valid() && WithinWords(Row(i, |words|), |words|)
      ensures Detection(learningStore.State(), processed', detected')
        == DetectOver(Detection(old(learningStore.State()), processed, detected), words, Row(i, |words|), now, emb)
    {
      ghost var d0 := Detection(learningStore.State(), processed, detected);
      var row := Row(i, |words|);
      processed', detected' := processed, detected;
      RowWithin(i, |words|, 0);
      var k := 0;
      while k < |row|
        invariant 0 <= k <= |row|
        invariant learningStore.Valid()
        invariant WithinWords(row[..k], |words|)
        invariant Detection(learningStore.State(), processed', detected') == DetectOver(d0, words, row[..k], now, emb)
      {
        ghost var done := row[..k];
        processed', detected' := DetectWindow(words, row[k], processed', detected', now, emb);
        assert Detection(learningStore.State(), processed', detected') == DetectOver(d0, words, row[..k + 1], now, emb) by {
          PrefixOfPrefix(row, k);
          DetectOverSnoc(d0, words, done, row[k], now, emb);
        }
        RowWithin(i, |words|, k + 1);
        k := k + 1;
      }
      SliceAll(row);
    }

    /** `detect_and_replace(text)`. */
    method DetectAndReplace(text: string, now: real, emb: Embedder) returns (processed: string, detected: seq<Detected>)
      requires learningStore.Valid()
      modifies learningStore
      ensures learningStore.Valid()
      ensures Detection(learningStore.State(), processed, detected)
        == DetectIn(old(learningStore.State()), text, now, emb)
    {
      var words := SplitWs(text);
      var n := |words|;
      ghost var d0 := Detection(learningStore.State(), text, []);
      processed, detected := text, [];
      var i := 0;
      while i < n
        invariant 0 <= i <= n
        invariant learningStore.Valid()
        invariant WithinWords(WindowsUpTo(i, n), n)
        invariant Detection(learningStore.State(), processed, detected) == DetectOver(d0, words, WindowsUpTo(i, n), now, emb)
      {
        processed, detected := DetectRow(words, i, processed, detected, now, emb);
        assert Detection(learningStore.State(), processed, detected) == DetectOver(d0, words, WindowsUpTo(i + 1, n), now, emb)
          && WithinWords(WindowsUpTo(i + 1, n), n) by {
          assert WindowsUpTo(i + 1, n) == WindowsUpTo(i, n) + Row(i, n);
          DetectOverAppend(d0, words, WindowsUpTo(i, n), Row(i, n), now, emb);
        }
        i := i + 1;
      }
    }
  }

  /** The loop of `learn_from_user_input` over the word pairs of the two queries. */
  method LearnWordPairs(corrector: SpellCorrector, origWords: seq<string>, corrWords: seq<string>, env: Env, emb: Embedder)
    requires corrector.Valid() && |origWords| == |corrWords|
    modifies corrector.learningStore
    ensures corrector.Valid()
    ensures corrector.learningStore.State()
      == LearnPairs(old(corrector.learningStore.State()), origWords, corrWords, |origWords|, env, emb)
  {
    ghost var s0 := corrector.learningStore.State();
    var k := 0;
    while k < |origWords|
      invariant 0 <= k <= |origWords|
      invariant corrector.Valid()
      invariant corrector.learningStore.State() == LearnPairs(s0, origWords, corrWords, k, env, emb)
    {
      LearnPairsNext(s0, origWords, corrWords, k, env, emb, corrector.learningStore.State());
      LearnWordPair(corrector, origWords[k], corrWords[k], env, emb);
      k := k + 1;
    }
  }

  /** The body of the loop of `learn_from_user_input`: a pair that differs ignoring case is learned. */
  method LearnWordPair(corrector: SpellCorrector, origWord: string, corrWord: string, env: Env, emb: Embedder)
    requires corrector.Valid()
    modifies corrector.learningStore
    ensures corrector.Valid()
    ensures corrector.learningStore.State()
      == LearnedCorrection(old(corrector.learningStore.State()), origWord, corrWord, env, emb)
  {
    if Lower(origWord) != Lower(corrWord) {
      corrector.LearnCorrection(origWord, corrWord, env, emb);
    } else {
      CaseOnlyKeeps(corrector.learningStore.State(), origWord, corrWord, env, emb);
    }
  }

  /** `get_learning_stats()`. */
  datatype LearningStats = LearningStats(spellPatterns: Stats, phrasePatterns: Stats, vocabularySize: Stats,
                                         totalLearnedPatterns: nat)

  class Pipeline {
    const spellCorrector: SpellCorrector
    const phraseDetector: PhraseDetector

    ghost predicate Valid()
      reads spellCorrector.learningStore, spellCorrector.vocabularyStore, phraseDetector.learningStore
    {
      && spellCorrector.Valid() && phraseDetector.learningStore.Valid()
      && phraseDetector.learningStore != spellCorrector.learningStore
      && phraseDetector.learningStore != spellCorrector.vocabularyStore
    }

    /** The source builds both parts itself, so they are well formed and share no store. */
    constructor (spellCorrector: SpellCorrector, phraseDetector: PhraseDetector)
      requires spellCorrector.Valid() && phraseDetector.learningStore.Valid()
      requires phraseDetector.learningStore != spellCorrector.learningStore
      requires phraseDetector.learningStore != spellCorrector.vocabularyStore
      ensures this.spellCorrector == spellCorrector && this.phraseDetector == phraseDetector
      ensures Valid()
    {
      this.spellCorrector := spellCorrector;
      this.phraseDetector := phraseDetector;
    }

    /** `_rebuild_query(base_query, mapped_tokens)`. */
    method RebuildQuery(baseQuery: string, mappedTokens: seq<EntityCandidate>) returns (result: string)
      ensures result == Rebuilt(baseQuery, Rewrites(mappedTokens))
    {
      result := baseQuery;
      var k := 0;
      while k < |mappedTokens|
        invariant 0 <= k <= |mappedTokens|
        invariant result == Rebuilt(baseQuery, Rewrites(mappedTokens[..k]))
      {
        var token := mappedTokens[k];
        if token.canonical.Some? && token.canonical.value != "" {
          result := ReplaceAll(result, token.text, token.canonical.value);
        }
        assert mappedTokens[..k + 1][..k] == mappedTokens[..k];
        k := k + 1;
      }
      assert mappedTokens[..k] == mappedTokens;
    }

    /** `learn_from_user_input(original_query, user_correction)`. */
    method LearnFromUserInput(originalQuery: string, userCorrection: string, env: Env, emb: Embedder)
      requires Valid()
      modifies spellCorrector.learningStore
      ensures Valid()
      ensures spellCorrector.learningStore.State()
        == LearnedFromUser(old(spellCorrector.learningStore.State()), originalQuery, userCorrection, env, emb)
    {
      if Lower(originalQuery) != Lower(userCorrection) {
        var origWords := SplitWs(originalQuery);
        var corrWords := SplitWs(userCorrection);
        if |origWords| == |corrWords| {
          LearnWordPairs(spellCorrector, origWords, corrWords, env, emb);
        }
      }
    }

    /** `get_learning_stats()`: the three stores' statistics and the learned total. */
    method GetLearningStats() returns (stats: LearningStats)
      requires Valid()
      ensures stats.spellPatterns == StatsOf(spellCorrector.learningStore.State())
      ensures stats.phrasePatterns == StatsOf(phraseDetector.learningStore.State())
      ensures stats.vocabularySize == StatsOf(spellCorrector.vocabularyStore.State())
      ensures stats.totalLearnedPatterns
        == |spellCorrector.learningStore.metadata| + |phraseDetector.learningStore.metadata|
    {
      var spell := StatsOf(spellCorrector.learningStore.State());
      var phrase := StatsOf(phraseDetector.learningStore.State());
      var vocabulary := StatsOf(spellCorrector.vocabularyStore.State());
      StatsCount(spellCorrector.learningStore.State());
      StatsCount(phraseDetector.learningStore.State());
      stats := LearningStats(spell, phrase, vocabulary, TotalPatterns(spell) + TotalPatterns(phrase));
    }
  }
}
