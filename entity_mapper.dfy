/** `entity_mapper.process`: every candidate token is looked up in the alias index, and takes the
    canonical name of the first hit that is in a requested group, close enough, and an exact or
    fuzzy match of the token's text; the doc types of the chosen hits form the context. */
module EntityMapper {
  import opened Wrappers
  import opened Text
  import opened Candidates

  /** The metadata stored with an alias record. `relatedDoctypes` is the comma-joined string the
      entity index stores, so the mapper sees it as a string. */
  datatype HitMeta = HitMeta(canonical: string, entityGroup: string, docType: string, relatedDoctypes: string)

  /** One row of a query result: the alias document, its metadata and its distance. */
  datatype Hit = Hit(alias: string, meta: HitMeta, dist: real)

  /** The `dt` and `rdt` sets of the returned context. */
  datatype Context = Context(dt: set<string>, rdt: set<string>)

  /** The requested groups and the two thresholds (`max_dist`, `fuzz_thresh`). */
  datatype Settings = Settings(groups: set<string>, maxDist: real, fuzzThresh: real)

  const DefaultMaxDist: real := 1.3
  const DefaultFuzzThresh: real := 80.0

  /** The hit's comma-split `entity_group` shares a group with the requested ones. */
  predicate InGroups(groups: set<string>, h: Hit) {
    exists g :: g in SplitOn(h.meta.entityGroup, ',') && g in groups
  }

  /** The alias equals the token case-insensitively, or `ratio` reaches the threshold. */
  predicate Matches(ratio: (string, string) -> real, fuzzThresh: real, h: Hit, token: string) {
    Lower(h.alias) == Lower(token) || ratio(h.alias, token) >= fuzzThresh
  }

  /** A hit the loop stops at: not skipped by the group or distance test, and matching. */
  predicate Qualifies(s: Settings, ratio: (string, string) -> real, token: string, h: Hit) {
    InGroups(s.groups, h) && !(h.dist > s.maxDist) && Matches(ratio, s.fuzzThresh, h, token)
  }

  /** The hit a token's inner loop breaks at, if any. */
  function Select(s: Settings, ratio: (string, string) -> real, token: string, hits: seq<Hit>): Option<Hit> {
    if hits == [] then None
    else if Qualifies(s, ratio, token, hits[0]) then Some(hits[0])
    else Select(s, ratio, token, hits[1..])
  }

  /** `Select` finds a hit exactly when one qualifies, and then it is the first that does. */
  lemma {:induction false} SelectSpec(s: Settings, ratio: (string, string) -> real, token: string, hits: seq<Hit>)
    ensures Select(s, ratio, token, hits) == None <==>
      forall k :: 0 <= k < |hits| ==> !Qualifies(s, ratio, token, hits[k])
    ensures Select(s, ratio, token, hits).Some? ==>
      exists k :: 0 <= k < |hits| && hits[k] == Select(s, ratio, token, hits).value &&
        Qualifies(s, ratio, token, hits[k]) &&
        forall j :: 0 <= j < k ==> !Qualifies(s, ratio, token, hits[j])
  {
    if hits != [] && !Qualifies(s, ratio, token, hits[0]) {
      SelectSpec(s, ratio, token, hits[1..]);
      var r := Select(s, ratio, token, hits[1..]);
      if r.Some? {
        var k :| 0 <= k < |hits[1..]| && hits[1..][k] == r.value && Qualifies(s, ratio, token, hits[1..][k]) &&
          forall j :: 0 <= j < k ==> !Qualifies(s, ratio, token, hits[1..][j]);
        assert hits[k + 1] == r.value && Qualifies(s, ratio, token, hits[k + 1]);
        forall j | 0 <= j < k + 1
          ensures !Qualifies(s, ratio, token, hits[j])
        {
          if j > 0 {
            assert hits[j] == hits[1..][j - 1];
          }
        }
      } else {
        forall k | 0 <= k < |hits|
          ensures !Qualifies(s, ratio, token, hits[k])
        {
          if k > 0 {
            assert hits[k] == hits[1..][k - 1];
          }
        }
      }
    }
  }

  /** A hit with a qualifying alias is not passed over for a hit to a group outside the request,
      however close that one is. */
  lemma SelectedIsInGroups(s: Settings, ratio: (string, string) -> real, token: string, hits: seq<Hit>)
    requires Select(s, ratio, token, hits).Some?
    ensures InGroups(s.groups, Select(s, ratio, token, hits).value)
    ensures Select(s, ratio, token, hits).value.dist <= s.maxDist
    ensures Select(s, ratio, token, hits).value in hits
  {
    SelectSpec(s, ratio, token, hits);
  }

  /** The inner loop over one token's hits, with its `continue`s and its `break`. */
  method FirstQualifying(s: Settings, ratio: (string, string) -> real, token: string, hits: seq<Hit>)
    returns (r: Option<Hit>)
    ensures r == Select(s, ratio, token, hits)
  {
    var k := 0;
    while k < |hits|
      invariant 0 <= k <= |hits|
      invariant Select(s, ratio, token, hits) == Select(s, ratio, token, hits[k..])
    {
      var h := hits[k];
      assert hits[k..][1..] == hits[k + 1..];
      if !InGroups(s.groups, h) {
        k := k + 1;
        continue;
      }
      if h.dist > s.maxDist {
        k := k + 1;
        continue;
      }
      if Lower(h.alias) == Lower(token) || ratio(h.alias, token) >= s.fuzzThresh {
        return Some(h);
      }
      k := k + 1;
    }
    return None;
  }

  /** The token texts, which are what gets embedded. */
  function Texts(tokens: seq<EntityCandidate>): (r: seq<string>)
    ensures |r| == |tokens|
    ensures forall k :: 0 <= k < |r| ==> r[k] == tokens[k].text
  {
    seq(|tokens|, k requires 0 <= k < |tokens| => tokens[k].text)
  }

  /** The hit chosen for each token, one per result list. The index answers one list per query
      text, so there are never more lists than tokens; with more, `tokens[token_idx]` would
      raise, and the model would stop at the last token instead. With fewer, the later tokens
      get no hit. */
  function Selections(s: Settings, ratio: (string, string) -> real, tokens: seq<EntityCandidate>, res: seq<seq<Hit>>)
    : (r: seq<Option<Hit>>)
    ensures |r| == if |res| < |tokens| then |res| else |tokens|
    ensures forall k :: 0 <= k < |r| ==> r[k] == Select(s, ratio, tokens[k].text, res[k])
  {
    var n := if |res| < |tokens| then |res| else |tokens|;
    seq(n, k requires 0 <= k < n => Select(s, ratio, tokens[k].text, res[k]))
  }

  /** The canonical name token object `t` holds after the first `n` tokens: that of the last
      position where `t` occurs with a chosen hit (the same object may occur more than once). */
  function Assigned(tokens: seq<EntityCandidate>, sel: seq<Option<Hit>>, t: EntityCandidate, n: nat): Option<string>
    requires n <= |tokens| && n <= |sel|
  {
    if n == 0 then None
    else if tokens[n - 1] == t && sel[n - 1].Some? then Some(sel[n - 1].value.meta.canonical)
    else Assigned(tokens, sel, t, n - 1)
  }

  /** A token's `(entity, canonical)` pair after the loop, from the pair it had before. */
  function After(a: Option<string>, e: Option<string>, c: Option<string>): (Option<string>, Option<string>) {
    match a
    case None => (e, c)
    case Some(x) => (Some(x), Some(x))
  }

  /** `t` gets an entity iff some position holding `t` has a chosen hit. */
  lemma {:induction false} AssignedSpec(tokens: seq<EntityCandidate>, sel: seq<Option<Hit>>, t: EntityCandidate, n: nat)
    requires n <= |tokens| && n <= |sel|
    ensures Assigned(tokens, sel, t, n).Some? <==> exists k :: 0 <= k < n && tokens[k] == t && sel[k].Some?
    ensures Assigned(tokens, sel, t, n).Some? ==>
      exists k :: 0 <= k < n && tokens[k] == t && sel[k].Some? &&
        Assigned(tokens, sel, t, n).value == sel[k].value.meta.canonical
  {
    if n > 0 {
      AssignedSpec(tokens, sel, t, n - 1);
    }
  }

  /** The characters of a string, each as a one-character string. */
  function Chars(s: string): set<string> {
    set k | 0 <= k < |s| :: [s[k]]
  }

  /** The context after the first `n` tokens: the chosen doc types, and the characters of the
      chosen `related_doctypes` strings. */
  function ContextOf(sel: seq<Option<Hit>>, n: nat): Context
    requires n <= |sel|
  {
    if n == 0 then Context({}, {})
    else
      var c := ContextOf(sel, n - 1);
      match sel[n - 1]
      case None => c
      case Some(h) => Context(c.dt + {h.meta.docType}, c.rdt + Chars(h.meta.relatedDoctypes))
  }

  /** How many of the first `n` tokens had a hit chosen. */
  function Chosen(sel: seq<Option<Hit>>, n: nat): (r: nat)
    requires n <= |sel|
    ensures r <= n
  {
    if n == 0 then 0 else Chosen(sel, n - 1) + (if sel[n - 1].Some? then 1 else 0)
  }

  /** At most one doc type per token with a chosen hit, so `dt` is no larger than the token count. */
  lemma {:induction false} ContextDtBound(sel: seq<Option<Hit>>, n: nat)
    requires n <= |sel|
    ensures |ContextOf(sel, n).dt| <= Chosen(sel, n) <= n
  {
    if n > 0 {
      ContextDtBound(sel, n - 1);
      var c := ContextOf(sel, n - 1);
      if sel[n - 1].Some? {
        var d := sel[n - 1].value.meta.docType;
        assert |c.dt + {d}| <= |c.dt| + 1 by {
          if d in c.dt {
            assert c.dt + {d} == c.dt;
          }
        }
      }
    }
  }

  /** `dt` is exactly the doc types of the chosen hits. */
  lemma {:induction false} ContextDtSpec(sel: seq<Option<Hit>>, n: nat)
    requires n <= |sel|
    ensures forall d :: d in ContextOf(sel, n).dt <==>
      exists k :: 0 <= k < n && sel[k].Some? && sel[k].value.meta.docType == d
  {
    if n > 0 {
      ContextDtSpec(sel, n - 1);
    }
  }

  /** `rdt` holds single characters only: `related_doctypes` is iterated as a string. */
  lemma {:induction false} ContextRdtChars(sel: seq<Option<Hit>>, n: nat)
    requires n <= |sel|
    ensures forall x :: x in ContextOf(sel, n).rdt ==> |x| == 1
  {
    if n > 0 {
      ContextRdtChars(sel, n - 1);
    }
  }

  /** Every token object holds what the first `n` tokens gave it, starting from `e0`/`c0`. */
  ghost predicate Marked(tokens: seq<EntityCandidate>, sel: seq<Option<Hit>>, n: nat,
                         e0: map<EntityCandidate, Option<string>>, c0: map<EntityCandidate, Option<string>>)
    requires n <= |tokens| && n <= |sel|
    reads set t | t in tokens
  {
    forall t :: t in tokens ==>
      (t in e0 && t in c0 && (t.entity, t.canonical) == After(Assigned(tokens, sel, t, n), e0[t], c0[t]))
  }

  /** One pass of the outer loop: token `i` takes the canonical of its chosen hit, if any. */
  method MarkToken(tokens: seq<EntityCandidate>, ghost sel: seq<Option<Hit>>, i: nat, hit: Option<Hit>,
                   ghost e0: map<EntityCandidate, Option<string>>, ghost c0: map<EntityCandidate, Option<string>>)
    requires i < |tokens| && i < |sel| && hit == sel[i]
    requires Marked(tokens, sel, i, e0, c0)
    modifies tokens[i]
    ensures Marked(tokens, sel, i + 1, e0, c0)
  {
    if hit.Some? {
      tokens[i].Entatise(hit.value.meta.canonical);
    }
    forall t | t in tokens
      ensures t in e0 && t in c0 && (t.entity, t.canonical) == After(Assigned(tokens, sel, t, i + 1), e0[t], c0[t])
    {
      assert old((t.entity, t.canonical)) == After(Assigned(tokens, sel, t, i), e0[t], c0[t]);
    }
  }

  /** `set(include_groups)`. */
  function GroupSet(includeGroups: seq<string>): set<string> {
    set g | g in includeGroups
  }

  /** The hit chosen for each token when the index answers `query`. */
  function SelectionsFor(tokens: seq<EntityCandidate>, includeGroups: seq<string>,
                         query: (seq<string>, nat) -> seq<seq<Hit>>, ratio: (string, string) -> real,
                         maxDist: real, fuzzThresh: real): seq<Option<Hit>>
  {
    Selections(Settings(GroupSet(includeGroups), maxDist, fuzzThresh), ratio, tokens,
               query(Texts(tokens), 2 * |tokens|))
  }

  /** `process`: embeds the token texts, asks for `2 * len(tokens)` hits each, and marks every
      token with the first qualifying hit. Returns the same token list and the context. */
  method Process(tokens: seq<EntityCandidate>, includeGroups: seq<string>,
                 query: (seq<string>, nat) -> seq<seq<Hit>>, ratio: (string, string) -> real,
                 maxDist: real, fuzzThresh: real)
    returns (r: seq<EntityCandidate>, ctx: Context)
    modifies set t | t in tokens
    ensures r == tokens
    ensures var sel := SelectionsFor(tokens, includeGroups, query, ratio, maxDist, fuzzThresh);
      && ctx == ContextOf(sel, |sel|)
      && forall t :: t in tokens ==>
           (t.entity, t.canonical) == After(Assigned(tokens, sel, t, |sel|), old(t.entity), old(t.canonical))
  {
    var topK := |tokens| * 2;
    var res := query(Texts(tokens), topK);
    var s := Settings(GroupSet(includeGroups), maxDist, fuzzThresh);
    ghost var sel := SelectionsFor(tokens, includeGroups, query, ratio, maxDist, fuzzThresh);
    assert sel == Selections(s, ratio, tokens, res);
    ghost var e0 := map t | t in tokens :: t.entity;
    ghost var c0 := map t | t in tokens :: t.canonical;
    ctx := Context({}, {});
    var i := 0;
    while i < |res| && i < |tokens|
      invariant 0 <= i <= |sel|
      invariant ctx == ContextOf(sel, i)
      invariant Marked(tokens, sel, i, e0, c0)
    {
      var hit := FirstQualifying(s, ratio, tokens[i].text, res[i]);
      MarkToken(tokens, sel, i, hit, e0, c0);
      if hit.Some? {
        var meta := hit.value.meta;
        ctx := Context(ctx.dt + {meta.docType}, ctx.rdt + Chars(meta.relatedDoctypes));
      }
      i := i + 1;
    }
    assert i == |sel|;
    r := tokens;
  }
}
