/** `PersistentVectorLearning`: learned patterns kept by id in insertion order, an exact-match
    table from the lower-cased original text to the pattern id, and one embedding row per pattern
    added. A look-up tries the exact table first and otherwise scans the rows by similarity. */
module PersistentStore {
  import opened Wrappers
  import opened Text
  import opened Seqs

  type Embedding = seq<real>

  /** The sentence-embedding model and the dot product of two embeddings, both outside the model. */
  datatype Embedder = Embedder(encode: string -> Embedding, dot: (Embedding, Embedding) -> real)

  /** The clock and the pattern ids: `f"{pattern_type}_{hash(original)}_{int(time.time())}"` is
      `idOf(pattern_type, original)` at time `now`. */
  datatype Env = Env(now: real, idOf: (string, string) -> string)

  /** `metadata[pattern_id]`. */
  datatype Pattern = Pattern(id: string, original: string, corrected: string, patternType: string,
                             confidence: real, usageCount: nat, createdAt: real, lastUsed: real)

  /** One entry of the list `find_similar_patterns` returns. */
  datatype Similar = Similar(original: string, corrected: string, confidence: real, usageCount: nat,
                             similarity: real)

  /** The in-memory part of the store: the rows of `vectors` (`None` is the empty list), the
      `metadata` dictionary with its key order, and `exact_matches`. */
  datatype Store = Store(vectors: seq<Embedding>, metadata: map<string, Pattern>, order: seq<string>,
                         exactMatches: map<string, string>)

  /** `order` lists exactly the keys of `metadata`, and the exact table only names known ids. */
  ghost predicate Wf(s: Store) {
    && (forall k :: k in s.order ==> k in s.metadata)
    && (forall k :: k in s.metadata ==> k in s.order)
    && (forall t :: t in s.exactMatches ==> s.exactMatches[t] in s.metadata)
  }

  /** No id is listed twice: `order` holds the keys of a dictionary. */
  ghost predicate OnceEach(order: seq<string>) {
    forall i, j :: 0 <= i < j < |order| ==> order[i] != order[j]
  }

  /** Everything a pattern records except its usage: what a look-up never changes. */
  predicate SameFacts(a: Pattern, b: Pattern) {
    && a.id == b.id && a.original == b.original && a.corrected == b.corrected
    && a.patternType == b.patternType && a.confidence == b.confidence && a.createdAt == b.createdAt
  }

  // ---------------------------------------------------------------------------
  // `add_learning_pattern`

  /** The store after `add_learning_pattern(original, corrected, pattern_type, confidence)`. */
  function Add(s: Store, original: string, corrected: string, patternType: string, confidence: real,
               env: Env, emb: Embedder): (r: Store)
    requires Wf(s)
    ensures Wf(r)
  {
    var id := env.idOf(patternType, original);
    Store(s.vectors + [emb.encode(original)],
          s.metadata[id := Pattern(id, original, corrected, patternType, confidence, 1, env.now, env.now)],
          if id in s.metadata then s.order else s.order + [id],
          s.exactMatches[Lower(original) := id])
  }

  /** An added pattern is found by its text ignoring case, with usage count 1, one embedding row
      is appended, and every other pattern and table entry stays as it was. */
  lemma AddSpec(s: Store, original: string, corrected: string, patternType: string, confidence: real,
                env: Env, emb: Embedder)
    requires Wf(s)
    ensures var r := Add(s, original, corrected, patternType, confidence, env, emb);
      var id := env.idOf(patternType, original);
      && r.exactMatches[Lower(original)] == id
      && r.metadata[id].usageCount == 1
      && r.metadata[id].original == original && r.metadata[id].corrected == corrected
      && r.vectors == s.vectors + [emb.encode(original)]
      && (forall p :: p in s.metadata && p != id ==> p in r.metadata && r.metadata[p] == s.metadata[p])
      && (forall t :: t in s.exactMatches && t != Lower(original) ==>
            t in r.exactMatches && r.exactMatches[t] == s.exactMatches[t])
  {
  }

  /** An id is appended to `order` only when it is new, so ids stay listed once each. */
  lemma AddOnceEach(s: Store, original: string, corrected: string, patternType: string, confidence: real,
                    env: Env, emb: Embedder)
    requires Wf(s) && OnceEach(s.order)
    ensures OnceEach(Add(s, original, corrected, patternType, confidence, env, emb).order)
  {
  }

  // ---------------------------------------------------------------------------
  // `find_similar_patterns`

  /** `np.dot(self.vectors, query_embedding)`. */
  function Similarities(rows: seq<Embedding>, q: string, emb: Embedder): (r: seq<real>)
    ensures |r| == |rows|
  {
    seq(|rows|, i requires 0 <= i < |rows| => emb.dot(rows[i], emb.encode(q)))
  }

  /** The first pattern, in dictionary order, whose original text encodes to `row`. */
  function Owner(md: map<string, Pattern>, order: seq<string>, row: Embedding, emb: Embedder): (r: Option<string>)
    requires forall k :: k in order ==> k in md
    ensures r.Some? ==> r.value in order && row == emb.encode(md[r.value].original)
    ensures r.None? ==> forall k :: k in order ==> row != emb.encode(md[k].original)
  {
    if order == [] then None
    else if row == emb.encode(md[order[0]].original) then Some(order[0])
    else Owner(md, order[1..], row, emb)
  }

  /** No pattern before the owner encodes to the row. */
  lemma {:induction false} OwnerFirst(md: map<string, Pattern>, order: seq<string>, row: Embedding, emb: Embedder)
    requires forall k :: k in order ==> k in md
    ensures Owner(md, order, row, emb).Some? ==>
      exists i :: 0 <= i < |order| && order[i] == Owner(md, order, row, emb).value &&
        forall j :: 0 <= j < i ==> row != emb.encode(md[order[j]].original)
  {
    if order != [] && row != emb.encode(md[order[0]].original) {
      OwnerFirst(md, order[1..], row, emb);
      if Owner(md, order, row, emb).Some? {
        var i :| 0 <= i < |order[1..]| && order[1..][i] == Owner(md, order, row, emb).value &&
          forall j :: 0 <= j < i ==> row != emb.encode(md[order[1..][j]].original);
        assert order[i + 1] == Owner(md, order, row, emb).value;
        forall j | 0 <= j < i + 1 ensures row != emb.encode(md[order[j]].original) {
          if j > 0 {
            assert order[j] == order[1..][j - 1];
          }
        }
      }
    }
  }

  /** The scan of the first `n` rows: each row at or above the threshold names its owner, whose
      usage is counted and which is reported when its type is the one asked for. */
  function Scan(md: map<string, Pattern>, order: seq<string>, rows: seq<Embedding>, sims: seq<real>,
                patternType: Option<string>, threshold: real, now: real, emb: Embedder, n: nat)
    : (r: (map<string, Pattern>, seq<Similar>))
    requires n <= |rows| == |sims|
    requires forall k :: k in order ==> k in md
    ensures r.0.Keys == md.Keys
  {
    if n == 0 then (md, [])
    else
      var prior := Scan(md, order, rows, sims, patternType, threshold, now, emb, n - 1);
      ScanStep(prior.0, prior.1, order, rows[n - 1], sims[n - 1], patternType, threshold, now, emb)
  }

  /** One row of the scan. */
  function ScanStep(md: map<string, Pattern>, found: seq<Similar>, order: seq<string>, row: Embedding, sim: real,
                    patternType: Option<string>, threshold: real, now: real, emb: Embedder)
    : (r: (map<string, Pattern>, seq<Similar>))
    requires forall k :: k in order ==> k in md
    ensures r.0.Keys == md.Keys
  {
    if sim < threshold then (md, found)
    else
      match Owner(md, order, row, emb)
      case None => (md, found)
      case Some(p) =>
        if patternType.Some? && md[p].patternType != patternType.value then (md, found)
        else
          var m := md[p].(usageCount := md[p].usageCount + 1, lastUsed := now);
          (md[p := m], found + [Similar(m.original, m.corrected, m.confidence, m.usageCount, sim)])
  }

  /** One row keeps every pattern's facts, never lowers a count, and adds at most one entry: one
      at or above the threshold reporting a pattern of the type asked for. */
  lemma StepSpec(md: map<string, Pattern>, found: seq<Similar>, order: seq<string>, row: Embedding, sim: real,
                 patternType: Option<string>, threshold: real, now: real, emb: Embedder)
    requires forall k :: k in order ==> k in md
    ensures var r := ScanStep(md, found, order, row, sim, patternType, threshold, now, emb);
      && (forall p :: p in md ==> SameFacts(r.0[p], md[p]) && md[p].usageCount <= r.0[p].usageCount)
      && (r.1 == found || (exists p :: p in md && |r.1| == |found| + 1 && r.1[..|found|] == found &&
                            r.1[|found|].similarity == sim >= threshold && Reports(md[p], r.1[|found|], patternType)))
  {
    var r := ScanStep(md, found, order, row, sim, patternType, threshold, now, emb);
    if r.1 != found {
      var p := Owner(md, order, row, emb).value;
      assert r.1[..|found|] == found;
      assert Reports(md[p], r.1[|found|], patternType);
    }
  }

  /** The scan keeps every pattern and what it records, and never lowers a usage count. */
  lemma {:induction false} ScanKeepsFacts(md: map<string, Pattern>, order: seq<string>, rows: seq<Embedding>,
                                          sims: seq<real>, patternType: Option<string>, threshold: real, now: real,
                                          emb: Embedder, n: nat)
    requires n <= |rows| == |sims|
    requires forall k :: k in order ==> k in md
    ensures var r := Scan(md, order, rows, sims, patternType, threshold, now, emb, n);
      forall p :: p in md ==> SameFacts(r.0[p], md[p]) && md[p].usageCount <= r.0[p].usageCount
  {
    if n > 0 {
      ScanKeepsFacts(md, order, rows, sims, patternType, threshold, now, emb, n - 1);
      var prior := Scan(md, order, rows, sims, patternType, threshold, now, emb, n - 1);
      StepSpec(prior.0, prior.1, order, rows[n - 1], sims[n - 1], patternType, threshold, now, emb);
    }
  }

  /** The scan reports at most one entry per row, each at or above the threshold and reporting a
      stored pattern of the type asked for. */
  lemma {:induction false} ScanReports(md: map<string, Pattern>, order: seq<string>, rows: seq<Embedding>,
                                       sims: seq<real>, patternType: Option<string>, threshold: real, now: real,
                                       emb: Embedder, n: nat)
    requires n <= |rows| == |sims|
    requires forall k :: k in order ==> k in md
    ensures var r := Scan(md, order, rows, sims, patternType, threshold, now, emb, n);
      |r.1| <= n && Reported(md, r.1, threshold, patternType)
  {
    if n > 0 {
      ScanReports(md, order, rows, sims, patternType, threshold, now, emb, n - 1);
      ScanKeepsFacts(md, order, rows, sims, patternType, threshold, now, emb, n - 1);
      var prior := Scan(md, order, rows, sims, patternType, threshold, now, emb, n - 1);
      StepReports(md, prior.0, prior.1, order, rows[n - 1], sims[n - 1], patternType, threshold, now, emb);
    }
  }

  /** One row of the scan keeps the entries reported so far and adds at most one, reporting a
      pattern of `md0` whose facts `md` keeps. */
  lemma StepReports(md0: map<string, Pattern>, md: map<string, Pattern>, found: seq<Similar>, order: seq<string>,
                    row: Embedding, sim: real, patternType: Option<string>, threshold: real, now: real, emb: Embedder)
    requires forall k :: k in order ==> k in md
    requires md.Keys == md0.Keys && forall p :: p in md0 ==> SameFacts(md[p], md0[p])
    requires Reported(md0, found, threshold, patternType)
    ensures var r := ScanStep(md, found, order, row, sim, patternType, threshold, now, emb);
      |r.1| <= |found| + 1 && Reported(md0, r.1, threshold, patternType)
  {
    if sim >= threshold {
      match Owner(md, order, row, emb)
      case None =>
      case Some(p) =>
        if !(patternType.Some? && md[p].patternType != patternType.value) {
          var m := md[p].(usageCount := md[p].usageCount + 1, lastUsed := now);
          var e := Similar(m.original, m.corrected, m.confidence, m.usageCount, sim);
          assert Reports(md0[p], e, patternType);
          ReportedSnoc(md0, found, e, threshold, patternType);
        }
    }
  }

  /** Every entry of `found` is at or above the threshold and reports a stored pattern of the type
      asked for. */
  ghost predicate Reported(md: map<string, Pattern>, found: seq<Similar>, threshold: real, patternType: Option<string>) {
    forall k :: 0 <= k < |found| ==> found[k].similarity >= threshold && ReportsSome(md, found[k], patternType)
  }

  lemma ReportedSnoc(md: map<string, Pattern>, found: seq<Similar>, e: Similar, threshold: real,
                     patternType: Option<string>)
    requires Reported(md, found, threshold, patternType)
    requires e.similarity >= threshold && ReportsSome(md, e, patternType)
    ensures Reported(md, found + [e], threshold, patternType)
  {
    assert forall k :: 0 <= k < |found| ==> (found + [e])[k] == found[k];
  }

  /** Entry `e` reports some stored pattern of the type asked for. */
  ghost predicate ReportsSome(md: map<string, Pattern>, e: Similar, patternType: Option<string>) {
    exists p :: p in md && Reports(md[p], e, patternType)
  }

  /** Entry `e` reports pattern `m`, of the type asked for. */
  predicate Reports(m: Pattern, e: Similar, patternType: Option<string>) {
    && e.original == m.original && e.corrected == m.corrected && e.confidence == m.confidence
    && (patternType.Some? ==> m.patternType == patternType.value)
  }

  /** Highest similarity first. */
  ghost predicate Descending(s: seq<Similar>) {
    forall i, j :: 0 <= i < j < |s| ==> s[j].similarity <= s[i].similarity
  }

  /** `x` placed after every entry at least as similar. */
  function InsertBySimilarity(s: seq<Similar>, x: Similar): (r: seq<Similar>)
    ensures |r| == |s| + 1
    ensures multiset(r) == multiset(s) + multiset{x}
  {
    if s == [] then [x]
    else if s[0].similarity < x.similarity then [x] + s
    else
      assert s == [s[0]] + s[1..];
      [s[0]] + InsertBySimilarity(s[1..], x)
  }

  /** `results.sort(key=lambda x: x['similarity'], reverse=True)`: stable, so equal similarities
      keep the order of the scan. */
  function SortBySimilarity(s: seq<Similar>): (r: seq<Similar>)
    ensures |r| == |s|
    ensures multiset(r) == multiset(s)
  {
    if s == [] then []
    else
      assert s == s[..|s| - 1] + [s[|s| - 1]];
      InsertBySimilarity(SortBySimilarity(s[..|s| - 1]), s[|s| - 1])
  }

  lemma {:induction false} InsertDescending(s: seq<Similar>, x: Similar)
    requires Descending(s)
    ensures Descending(InsertBySimilarity(s, x))
  {
    if s != [] && s[0].similarity >= x.similarity {
      InsertDescending(s[1..], x);
      var rest := InsertBySimilarity(s[1..], x);
      forall j | 0 <= j < |rest| ensures rest[j].similarity <= s[0].similarity {
        assert rest[j] in multiset(rest);
        assert rest[j] in s[1..] || rest[j] == x;
      }
    }
  }

  /** The sorted results come highest similarity first. */
  lemma {:induction false} SortDescending(s: seq<Similar>)
    ensures Descending(SortBySimilarity(s))
  {
    if s != [] {
      SortDescending(s[..|s| - 1]);
      InsertDescending(SortBySimilarity(s[..|s| - 1]), s[|s| - 1]);
    }
  }

  /** The store and the results after `find_similar_patterns(query, pattern_type, similarity_threshold)`. */
  function FindSimilar(s: Store, q: string, patternType: Option<string>, threshold: real, now: real,
                       emb: Embedder): (r: (Store, seq<Similar>))
    requires Wf(s)
    ensures Wf(r.0)
    ensures r.0.vectors == s.vectors && r.0.order == s.order && r.0.exactMatches == s.exactMatches
  {
    var t := Lower(q);
    if t in s.exactMatches then
      var pid := s.exactMatches[t];
      var m := s.metadata[pid];
      var m' := m.(usageCount := m.usageCount + 1, lastUsed := now);
      (s.(metadata := s.metadata[pid := m']), [Similar(m.original, m.corrected, m.confidence, m'.usageCount, 1.0)])
    else if s.vectors == [] then (s, [])
    else
      var sims := Similarities(s.vectors, q, emb);
      var (md, found) := Scan(s.metadata, s.order, s.vectors, sims, patternType, threshold, now, emb, |s.vectors|);
      (s.(metadata := md), SortBySimilarity(found))
  }

  /** An exact hit, whatever type was asked for, is one result at similarity 1.0 whose usage count
      is the pattern's, raised by exactly one; no other pattern changes. */
  lemma FindExact(s: Store, q: string, patternType: Option<string>, threshold: real, now: real, emb: Embedder)
    requires Wf(s) && Lower(q) in s.exactMatches
    ensures var (r, found) := FindSimilar(s, q, patternType, threshold, now, emb);
      var pid := s.exactMatches[Lower(q)];
      && |found| == 1 && found[0].similarity == 1.0
      && found[0].original == s.metadata[pid].original && found[0].corrected == s.metadata[pid].corrected
      && r.metadata[pid].usageCount == s.metadata[pid].usageCount + 1
      && found[0].usageCount == r.metadata[pid].usageCount
      && (forall p :: p in s.metadata && p != pid ==> r.metadata[p] == s.metadata[p])
  {
  }

  /** Without an exact hit the results come highest similarity first, each at or above the
      threshold and reporting a stored pattern of the type asked for, at most one per row. */
  lemma FindScanned(s: Store, q: string, patternType: Option<string>, threshold: real, now: real, emb: Embedder)
    requires Wf(s) && Lower(q) !in s.exactMatches
    ensures var (r, found) := FindSimilar(s, q, patternType, threshold, now, emb);
      && Descending(found)
      && |found| <= |s.vectors|
      && (forall k :: 0 <= k < |found| ==> found[k].similarity >= threshold)
      && (forall k :: 0 <= k < |found| ==> ReportsSome(s.metadata, found[k], patternType))
  {
    if s.vectors != [] {
      var sims := Similarities(s.vectors, q, emb);
      var (md, found) := Scan(s.metadata, s.order, s.vectors, sims, patternType, threshold, now, emb, |s.vectors|);
      ScanReports(s.metadata, s.order, s.vectors, sims, patternType, threshold, now, emb, |s.vectors|);
      SortDescending(found);
      var sorted := SortBySimilarity(found);
      forall k | 0 <= k < |sorted|
        ensures sorted[k].similarity >= threshold
        ensures ReportsSome(s.metadata, sorted[k], patternType)
      {
        assert sorted[k] in multiset(found);
        var i :| 0 <= i < |found| && found[i] == sorted[k];
      }
    }
  }

  /** A look-up never forgets a pattern, never changes what one records and never lowers a count. */
  lemma FindKeepsFacts(s: Store, q: string, patternType: Option<string>, threshold: real, now: real, emb: Embedder)
    requires Wf(s)
    ensures var r := FindSimilar(s, q, patternType, threshold, now, emb).0;
      forall p :: p in s.metadata ==>
        p in r.metadata && SameFacts(r.metadata[p], s.metadata[p]) &&
        s.metadata[p].usageCount <= r.metadata[p].usageCount
  {
    if Lower(q) !in s.exactMatches && s.vectors != [] {
      var sims := Similarities(s.vectors, q, emb);
      ScanKeepsFacts(s.metadata, s.order, s.vectors, sims, patternType, threshold, now, emb, |s.vectors|);
    }
  }

  /** A pattern just added is found again by its text ignoring case: one result at similarity
      1.0 with its correction and a usage count of 2. */
  lemma AddThenFind(s: Store, original: string, corrected: string, patternType: string, confidence: real,
                    env: Env, emb: Embedder, q: string, askedType: Option<string>, threshold: real, now: real)
    requires Wf(s) && Lower(q) == Lower(original)
    ensures var r := Add(s, original, corrected, patternType, confidence, env, emb);
      FindSimilar(r, q, askedType, threshold, now, emb).1
        == [Similar(original, corrected, confidence, 2, 1.0)]
  {
  }

  // ---------------------------------------------------------------------------
  // `get_stats`

  /** `sum(m['usage_count'] for m in self.metadata.values())` over the first `n` keys. */
  function SumUsage(md: map<string, Pattern>, order: seq<string>, n: nat): nat
    requires n <= |order| && forall k :: k in order ==> k in md
  {
    if n == 0 then 0 else SumUsage(md, order, n - 1) + md[order[n - 1]].usageCount
  }

  /** The sum of the confidences over the first `n` keys. */
  function SumConfidence(md: map<string, Pattern>, order: seq<string>, n: nat): real
    requires n <= |order| && forall k :: k in order ==> k in md
  {
    if n == 0 then 0.0 else SumConfidence(md, order, n - 1) + md[order[n - 1]].confidence
  }

  /** `get_stats()`: `{"total_patterns": 0}` for an empty store, the totals otherwise. */
  datatype Stats = NoPatterns | Totals(totalPatterns: nat, totalUsage: nat, avgConfidence: real)

  function TotalPatterns(st: Stats): nat {
    match st
    case NoPatterns => 0
    case Totals(n, _, _) => n
  }

  function StatsOf(s: Store): Stats
    requires Wf(s)
  {
    if s.metadata == map[] then NoPatterns
    else Totals(|s.metadata|, UsageTotal(s), Mean(SumConfidence(s.metadata, s.order, |s.order|), |s.metadata|))
  }

  function UsageTotal(s: Store): nat
    requires Wf(s)
  {
    SumUsage(s.metadata, s.order, |s.order|)
  }

  /** `np.mean`: the sum over the count. */
  function Mean(sum: real, n: nat): real
    requires n > 0
  {
    sum / (n as real)
  }

  /** The number of patterns reported is the number stored, zero for an empty store. */
  lemma StatsCount(s: Store)
    requires Wf(s)
    ensures TotalPatterns(StatsOf(s)) == |s.metadata|
    ensures s.metadata == map[] <==> StatsOf(s) == NoPatterns
  {
  }

  /** Changing a pattern the first `n` keys do not name leaves their usage sum alone. */
  lemma {:induction false} SumUsageOther(md: map<string, Pattern>, order: seq<string>, n: nat, p: string, m: Pattern)
    requires n <= |order| && forall k :: k in order ==> k in md
    requires forall k :: 0 <= k < n ==> order[k] != p
    ensures SumUsage(md[p := m], order, n) == SumUsage(md, order, n)
  {
    if n > 0 {
      SumUsageOther(md, order, n - 1, p, m);
    }
  }

  /** Raising one pattern's count by one raises the usage sum by one. */
  lemma {:induction false} SumUsageBump(md: map<string, Pattern>, order: seq<string>, n: nat, i: nat, m: Pattern)
    requires n <= |order| && forall k :: k in order ==> k in md
    requires i < n && (forall j :: 0 <= j < n && j != i ==> order[j] != order[i])
    requires m.usageCount == md[order[i]].usageCount + 1
    ensures SumUsage(md[order[i] := m], order, n) == SumUsage(md, order, n) + 1
  {
    if n - 1 == i {
      SumUsageOther(md, order, n - 1, order[i], m);
    } else {
      SumUsageBump(md, order, n - 1, i, m);
    }
  }

  /** An exact hit adds exactly one to the total usage. */
  lemma FindExactUsage(s: Store, q: string, patternType: Option<string>, threshold: real, now: real, emb: Embedder)
    requires Wf(s) && OnceEach(s.order) && Lower(q) in s.exactMatches
    ensures var r := FindSimilar(s, q, patternType, threshold, now, emb).0;
      StatsOf(r).Totals? && StatsOf(s).Totals? && StatsOf(r).totalUsage == StatsOf(s).totalUsage + 1
  {
    var pid := s.exactMatches[Lower(q)];
    var i :| 0 <= i < |s.order| && s.order[i] == pid;
    var m := s.metadata[pid];
    var m' := m.(usageCount := m.usageCount + 1, lastUsed := now);
    var r := FindSimilar(s, q, patternType, threshold, now, emb).0;
    assert r.metadata == s.metadata[pid := m'] && r.order == s.order;
    SumUsageBump(s.metadata, s.order, |s.order|, i, m');
  }

  /** Adding a pattern under a new id adds one pattern to the count. */
  lemma AddCount(s: Store, original: string, corrected: string, patternType: string, confidence: real,
                 env: Env, emb: Embedder)
    requires Wf(s) && env.idOf(patternType, original) !in s.metadata
    ensures |Add(s, original, corrected, patternType, confidence, env, emb).metadata| == |s.metadata| + 1
  {
  }

  /** Adding a pattern under a new id adds one use to the total usage. */
  lemma AddUsage(s: Store, original: string, corrected: string, patternType: string, confidence: real,
                 env: Env, emb: Embedder)
    requires Wf(s) && env.idOf(patternType, original) !in s.metadata
    ensures var r := Add(s, original, corrected, patternType, confidence, env, emb);
      StatsOf(r).Totals? && StatsOf(r).totalUsage == (if StatsOf(s).Totals? then StatsOf(s).totalUsage else 0) + 1
  {
    var r := Add(s, original, corrected, patternType, confidence, env, emb);
    var id := env.idOf(patternType, original);
    assert UsageTotal(r) == UsageTotal(s) + 1 by {
      assert r.order == s.order + [id] && r.metadata == s.metadata[id := r.metadata[id]];
      SumUsageAppend(s.metadata, s.order, id, r.metadata[id]);
    }
    assert |s.order| == 0 || s.order[0] in s.metadata;
  }

  /** Appending a new key adds its pattern's usage to the sum over all keys. */
  lemma SumUsageAppend(md: map<string, Pattern>, order: seq<string>, id: string, m: Pattern)
    requires (forall k :: k in order ==> k in md) && id !in md
    ensures SumUsage(md[id := m], order + [id], |order| + 1) == SumUsage(md, order, |order|) + m.usageCount
  {
    var n := |order|;
    var md' := md[id := m];
    var order' := order + [id];
    assert SumUsage(md', order', n + 1) == SumUsage(md', order', n) + m.usageCount;
    assert order'[..n] == order[..n];
    SumUsagePrefix(md', order', order, n);
    assert forall k :: 0 <= k < n ==> order[k] != id;
    SumUsageOther(md, order, n, id, m);
  }

  /** The usage sum over the first `n` keys depends only on those keys. */
  lemma {:induction false} SumUsagePrefix(md: map<string, Pattern>, a: seq<string>, b: seq<string>, n: nat)
    requires n <= |a| && n <= |b| && a[..n] == b[..n]
    requires (forall k :: k in a ==> k in md) && (forall k :: k in b ==> k in md)
    ensures SumUsage(md, a, n) == SumUsage(md, b, n)
  {
    if n > 0 {
      assert a[..n - 1] == a[..n][..n - 1] && b[..n - 1] == b[..n][..n - 1];
      assert a[n - 1] == a[..n][n - 1] && b[n - 1] == b[..n][n - 1];
      SumUsagePrefix(md, a, b, n - 1);
    }
  }

  // ---------------------------------------------------------------------------
  // `_load_from_storage`: the exact table rebuilt from the loaded patterns

  /** `exact_matches[metadata['original'].lower()] = pattern_id` for the first `n` patterns: every
      entry names a stored pattern with that text. */
  function ExactIndex(md: map<string, Pattern>, order: seq<string>, n: nat): (r: map<string, string>)
    requires n <= |order| && forall k :: k in order ==> k in md
    ensures forall t :: t in r ==> r[t] in md && Lower(md[r[t]].original) == t
    ensures forall i :: 0 <= i < n ==> Lower(md[order[i]].original) in r
  {
    if n == 0 then map[] else ExactIndex(md, order, n - 1)[Lower(md[order[n - 1]].original) := order[n - 1]]
  }

  /** Some pattern among the first `n` has lower-cased original `t`. */
  ghost predicate HasOriginal(md: map<string, Pattern>, order: seq<string>, n: nat, t: string)
    requires n <= |order| && forall k :: k in order ==> k in md
  {
    exists i :: 0 <= i < n && Lower(md[order[i]].original) == t
  }

  /** No pattern after the `j`-th among the first `n` has its text, ignoring case. */
  ghost predicate LastWithOriginal(md: map<string, Pattern>, order: seq<string>, n: nat, j: nat)
    requires j < n <= |order| && forall k :: k in order ==> k in md
  {
    forall i :: j < i < n ==> Lower(md[order[i]].original) != Lower(md[order[j]].original)
  }

  /** The rebuilt table holds exactly the lower-cased originals of the loaded patterns. */
  lemma {:induction false} ExactIndexKeys(md: map<string, Pattern>, order: seq<string>, n: nat)
    requires n <= |order| && forall k :: k in order ==> k in md
    ensures forall t :: t in ExactIndex(md, order, n) <==> HasOriginal(md, order, n, t)
  {
    if n > 0 {
      ExactIndexKeys(md, order, n - 1);
      HasOriginalSnoc(md, order, n);
    }
  }

  lemma HasOriginalSnoc(md: map<string, Pattern>, order: seq<string>, n: nat)
    requires 0 < n <= |order| && forall k :: k in order ==> k in md
    ensures forall t :: HasOriginal(md, order, n, t) <==>
      HasOriginal(md, order, n - 1, t) || Lower(md[order[n - 1]].original) == t
  {
    forall t ensures HasOriginal(md, order, n, t) <==>
      HasOriginal(md, order, n - 1, t) || Lower(md[order[n - 1]].original) == t
    {
      if HasOriginal(md, order, n - 1, t) {
        var i :| 0 <= i < n - 1 && Lower(md[order[i]].original) == t;
        assert 0 <= i < n && Lower(md[order[i]].original) == t;
      }
      if Lower(md[order[n - 1]].original) == t {
        assert 0 <= n - 1 < n && Lower(md[order[n - 1]].original) == t;
      }
    }
  }

  /** A text shared by several loaded patterns names the LAST of them. */
  lemma {:induction false} ExactIndexLast(md: map<string, Pattern>, order: seq<string>, n: nat)
    requires n <= |order| && forall k :: k in order ==> k in md
    ensures forall j :: 0 <= j < n && LastWithOriginal(md, order, n, j) ==>
      ExactIndex(md, order, n)[Lower(md[order[j]].original)] == order[j]
  {
    if n > 0 {
      ExactIndexLast(md, order, n - 1);
      forall j | 0 <= j < n - 1 && LastWithOriginal(md, order, n, j)
        ensures ExactIndex(md, order, n)[Lower(md[order[j]].original)] == order[j]
      {
        assert LastWithOriginal(md, order, n - 1, j);
      }
    }
  }

  // ---------------------------------------------------------------------------
  // The store as an object

  class VectorLearning {
    const storeName: string
    var vectors: seq<Embedding>
    var metadata: map<string, Pattern>
    var order: seq<string>
    var exactMatches: map<string, string>

    function State(): Store
      reads this
    {
      Store(vectors, metadata, order, exactMatches)
    }

    ghost predicate Valid()
      reads this
    {
      Wf(State()) && OnceEach(order)
    }

    /** The store as loaded from storage (empty when nothing was saved or loading failed), with
        the exact table rebuilt from the loaded patterns. */
    constructor (storeName: string, vectors: seq<Embedding>, metadata: map<string, Pattern>, order: seq<string>)
      requires forall k :: k in order <==> k in metadata
      requires forall i, j :: 0 <= i < j < |order| ==> order[i] != order[j]
      ensures Valid()
      ensures State() == Store(vectors, metadata, order, ExactIndex(metadata, order, |order|))
    {
      var idx := RebuildExactMatches(metadata, order);
      this.storeName := storeName;
      this.vectors := vectors;
      this.metadata := metadata;
      this.order := order;
      this.exactMatches := idx;
    }

    /** `add_learning_pattern`: always answers `True`. */
    method AddLearningPattern(original: string, corrected: string, patternType: string, confidence: real,
                              env: Env, emb: Embedder)
      returns (ok: bool)
      requires Valid()
      modifies this
      ensures ok && Valid()
      ensures State() == Add(old(State()), original, corrected, patternType, confidence, env, emb)
    {
      var patternId := env.idOf(patternType, original);
      var embedding := emb.encode(original);
      var pattern := Pattern(patternId, original, corrected, patternType, confidence, 1, env.now, env.now);
      vectors := vectors + [embedding];
      if patternId !in metadata {
        order := order + [patternId];
      }
      metadata := metadata[patternId := pattern];
      exactMatches := exactMatches[Lower(original) := patternId];
      ok := true;
    }

    /** `find_similar_patterns(query, pattern_type, similarity_threshold)`. */
    method FindSimilarPatterns(query: string, patternType: Option<string>, threshold: real, now: real,
                               emb: Embedder)
      returns (results: seq<Similar>)
      requires Valid()
      modifies this
      ensures Valid()
      ensures (State(), results) == FindSimilar(old(State()), query, patternType, threshold, now, emb)
    {
      var t := Lower(query);
      if t in exactMatches {
        var pid := exactMatches[t];
        var m := metadata[pid];
        m := m.(usageCount := m.usageCount + 1, lastUsed := now);
        metadata := metadata[pid := m];
        return [Similar(m.original, m.corrected, m.confidence, m.usageCount, 1.0)];
      }
      if vectors == [] {
        return [];
      }
      var sims := Similarities(vectors, query, emb);
      var md, found := ScanRows(metadata, order, vectors, sims, patternType, threshold, now, emb);
      metadata := md;
      results := SortBySimilarity(found);
    }
  }

  /** The inner loop of the scan: the first pattern, in dictionary order, whose original encodes to `row`. */
  method FindOwner(md: map<string, Pattern>, order: seq<string>, row: Embedding, emb: Embedder)
    returns (owner: Option<string>)
    requires forall k :: k in order ==> k in md
    ensures owner == Owner(md, order, row, emb)
  {
    var k := 0;
    while k < |order|
      invariant 0 <= k <= |order|
      invariant Owner(md, order, row, emb) == Owner(md, order[k..], row, emb)
    {
      var pid := order[k];
      if row == emb.encode(md[pid].original) {
        return Some(pid);
      }
      assert order[k..][1..] == order[k + 1..];
      k := k + 1;
    }
    return None;
  }

  /** The outer loop of the scan: `for i, similarity in enumerate(similarities)`. */
  method ScanRows(md0: map<string, Pattern>, order: seq<string>, rows: seq<Embedding>, sims: seq<real>,
                  patternType: Option<string>, threshold: real, now: real, emb: Embedder)
    returns (md: map<string, Pattern>, found: seq<Similar>)
    requires |rows| == |sims| && forall k :: k in order ==> k in md0
    ensures (md, found) == Scan(md0, order, rows, sims, patternType, threshold, now, emb, |rows|)
  {
    md, found := md0, [];
    var i := 0;
    while i < |rows|
      invariant 0 <= i <= |rows|
      invariant (md, found) == Scan(md0, order, rows, sims, patternType, threshold, now, emb, i)
    {
      if sims[i] >= threshold {
        var owner := FindOwner(md, order, rows[i], emb);
        if owner.Some? {
          var p := owner.value;
          if patternType.None? || md[p].patternType == patternType.value {
            var m := md[p].(usageCount := md[p].usageCount + 1, lastUsed := now);
            md := md[p := m];
            found := found + [Similar(m.original, m.corrected, m.confidence, m.usageCount, sims[i])];
          }
        }
      }
      i := i + 1;
    }
  }

  /** The loop of `_load_from_storage` that rebuilds `exact_matches`. */
  method RebuildExactMatches(md: map<string, Pattern>, order: seq<string>) returns (idx: map<string, string>)
    requires forall k :: k in order ==> k in md
    ensures idx == ExactIndex(md, order, |order|)
  {
    idx := map[];
    var k := 0;
    while k < |order|
      invariant 0 <= k <= |order|
      invariant idx == ExactIndex(md, order, k)
    {
      var pid := order[k];
      idx := idx[Lower(md[pid].original) := pid];
      k := k + 1;
    }
  }
}
