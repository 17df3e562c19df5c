/** `LightweightEntityStore`: an in-memory list of entity texts with their metadata, a text
    index for exact look-ups and a group index for filtering; a search tries an exact,
    case-insensitive text hit first and falls back to a nearest-neighbour search by distance. */
module LightweightStore {
  import opened Wrappers
  import opened Text
  import opened Vocabulary
  import opened Seqs

  /** The metadata kept per entity. */
  datatype Meta = Meta(canonical: string, docType: string, entityGroup: string, relatedDoctypes: seq<string>)

  /** `meta.get("entity_group", "").split(",")`. */
  function GroupsOf(m: Meta): seq<string> {
    SplitOn(m.entityGroup, ',')
  }

  // ---------------------------------------------------------------------------
  // `_build_indices`: the text index

  /** `{text.lower(): i for i, text in enumerate(entities[:n])}`: a later text overwrites an earlier one. */
  function TextIndexUpTo(entities: seq<string>, n: nat): map<string, nat>
    requires n <= |entities|
  {
    if n == 0 then map[] else TextIndexUpTo(entities, n - 1)[Lower(entities[n - 1]) := n - 1]
  }

  /** Some entity among the first `n` has lower-cased text `t`. */
  ghost predicate HasText(entities: seq<string>, n: nat, t: string)
    requires n <= |entities|
  {
    exists i :: 0 <= i < n && Lower(entities[i]) == t
  }

  /** The text index holds exactly the lower-cased texts, each pointing at the LAST entity bearing it. */
  lemma {:induction false} TextIndexSpec(entities: seq<string>, n: nat)
    requires n <= |entities|
    ensures forall t :: t in TextIndexUpTo(entities, n) <==> HasText(entities, n, t)
    ensures forall t :: t in TextIndexUpTo(entities, n) ==>
      (var i := TextIndexUpTo(entities, n)[t];
       i < n && Lower(entities[i]) == t && forall j :: i < j < n ==> Lower(entities[j]) != t)
  {
    if n > 0 {
      TextIndexSpec(entities, n - 1);
      var idx := TextIndexUpTo(entities, n);
      forall t ensures t in idx <==> HasText(entities, n, t) {
        if t in idx && t != Lower(entities[n - 1]) {
          assert HasText(entities, n - 1, t);
          var i :| 0 <= i < n - 1 && Lower(entities[i]) == t;
          assert 0 <= i < n && Lower(entities[i]) == t;
        }
        if HasText(entities, n, t) && t != Lower(entities[n - 1]) {
          var i :| 0 <= i < n && Lower(entities[i]) == t;
          assert HasText(entities, n - 1, t);
        }
      }
    }
  }

  // ---------------------------------------------------------------------------
  // `_build_indices`: the group index

  /** The indices listed under `g`, or none. */
  function Lookup(idx: map<string, seq<nat>>, g: string): seq<nat> {
    if g in idx then idx[g] else []
  }

  /** `self._group_index.setdefault(group, []).append(i)` for each non-empty group, in order. */
  function AddGroups(idx: map<string, seq<nat>>, groups: seq<string>, i: nat): map<string, seq<nat>> {
    if groups == [] then idx
    else
      var before := AddGroups(idx, groups[..|groups| - 1], i);
      var g := groups[|groups| - 1];
      if g != "" then before[g := Lookup(before, g) + [i]] else before
  }

  /** The group index over the first `n` entities. */
  function GroupIndexUpTo(metadata: seq<Meta>, n: nat): map<string, seq<nat>>
    requires n <= |metadata|
  {
    if n == 0 then map[] else AddGroups(GroupIndexUpTo(metadata, n - 1), GroupsOf(metadata[n - 1]), n - 1)
  }

  /** How often `g` occurs in `groups`. */
  function Count(groups: seq<string>, g: string): nat {
    if groups == [] then 0
    else Count(groups[..|groups| - 1], g) + (if groups[|groups| - 1] == g then 1 else 0)
  }

  /** `i`, `c` times. */
  function Repeat(i: nat, c: nat): (r: seq<nat>)
    ensures |r| == c && forall x :: x in r ==> x == i
  {
    seq(c, _ => i)
  }

  /** An independent reading of the group index: entity by entity, each index once per
      occurrence of `g` among its groups. */
  function Occurrences(metadata: seq<Meta>, n: nat, g: string): seq<nat>
    requires n <= |metadata|
  {
    if n == 0 then [] else Occurrences(metadata, n - 1, g) + Repeat(n - 1, Count(GroupsOf(metadata[n - 1]), g))
  }

  /** The number of (entity, group) occurrences of `g` among the first `n` entities. */
  function TotalCount(metadata: seq<Meta>, n: nat, g: string): nat
    requires n <= |metadata|
  {
    if n == 0 then 0 else TotalCount(metadata, n - 1, g) + Count(GroupsOf(metadata[n - 1]), g)
  }

  lemma {:induction false} CountPositive(groups: seq<string>, g: string)
    ensures Count(groups, g) > 0 <==> g in groups
  {
    if groups != [] {
      var init := groups[..|groups| - 1];
      CountPositive(init, g);
      assert groups == init + [groups[|groups| - 1]];
    }
  }

  /** Adding one entity's groups appends its index once per occurrence of each non-empty group. */
  lemma {:induction false} AddGroupsLookup(idx: map<string, seq<nat>>, groups: seq<string>, i: nat, g: string)
    ensures Lookup(AddGroups(idx, groups, i), g) ==
      Lookup(idx, g) + (if g == "" then [] else Repeat(i, Count(groups, g)))
  {
    if groups != [] {
      var init := groups[..|groups| - 1];
      AddGroupsLookup(idx, init, i, g);
      if g != "" {
        assert Repeat(i, Count(groups, g)) == Repeat(i, Count(init, g)) +
          (if groups[|groups| - 1] == g then [i] else []);
      }
    }
  }

  /** Adding one entity's groups adds exactly its non-empty groups as keys. */
  lemma {:induction false} AddGroupsKeys(idx: map<string, seq<nat>>, groups: seq<string>, i: nat, g: string)
    ensures g in AddGroups(idx, groups, i) <==> g in idx || (g != "" && g in groups)
  {
    if groups != [] {
      var init := groups[..|groups| - 1];
      AddGroupsKeys(idx, init, i, g);
      assert groups == init + [groups[|groups| - 1]];
    }
  }

  /** Some entity among the first `n` carries group `g`. */
  ghost predicate HasGroup(metadata: seq<Meta>, n: nat, g: string)
    requires n <= |metadata|
  {
    exists i :: 0 <= i < n && g in GroupsOf(metadata[i])
  }

  /** The group index agrees with the occurrence reading. */
  lemma {:induction false} GroupIndexLookup(metadata: seq<Meta>, n: nat, g: string)
    requires n <= |metadata|
    ensures Lookup(GroupIndexUpTo(metadata, n), g) == (if g == "" then [] else Occurrences(metadata, n, g))
  {
    if n > 0 {
      var prev := GroupIndexUpTo(metadata, n - 1);
      GroupIndexLookup(metadata, n - 1, g);
      AddGroupsLookup(prev, GroupsOf(metadata[n - 1]), n - 1, g);
      if g == "" {
        AppendEmpty(Lookup(prev, g));
      }
    }
  }

  /** The group index lists exactly the non-empty groups some entity carries. */
  lemma {:induction false} GroupIndexKeys(metadata: seq<Meta>, n: nat, g: string)
    requires n <= |metadata|
    ensures g in GroupIndexUpTo(metadata, n) <==> g != "" && HasGroup(metadata, n, g)
  {
    if n > 0 {
      GroupIndexKeys(metadata, n - 1, g);
      AddGroupsKeys(GroupIndexUpTo(metadata, n - 1), GroupsOf(metadata[n - 1]), n - 1, g);
      if HasGroup(metadata, n, g) && !HasGroup(metadata, n - 1, g) {
        var i :| 0 <= i < n && g in GroupsOf(metadata[i]);
        assert i == n - 1;
      }
      if g in GroupsOf(metadata[n - 1]) {
        assert HasGroup(metadata, n, g);
      }
    }
  }

  /** `g` is listed once per occurrence among the entities' groups. */
  lemma {:induction false} OccurrencesLength(metadata: seq<Meta>, n: nat, g: string)
    requires n <= |metadata|
    ensures |Occurrences(metadata, n, g)| == TotalCount(metadata, n, g)
  {
    if n > 0 {
      OccurrencesLength(metadata, n - 1, g);
    }
  }

  /** The occurrence list of `g` holds exactly the entities carrying `g`. */
  lemma {:induction false} OccurrencesMembers(metadata: seq<Meta>, n: nat, g: string)
    requires n <= |metadata|
    ensures forall i :: i in Occurrences(metadata, n, g) <==> 0 <= i < n && g in GroupsOf(metadata[i])
  {
    if n > 0 {
      OccurrencesMembers(metadata, n - 1, g);
      CountPositive(GroupsOf(metadata[n - 1]), g);
      var prev := Occurrences(metadata, n - 1, g);
      var last := Repeat(n - 1, Count(GroupsOf(metadata[n - 1]), g));
      forall i ensures i in prev + last <==> 0 <= i < n && g in GroupsOf(metadata[i]) {
        if i == n - 1 && g in GroupsOf(metadata[i]) {
          assert last[0] == i;
        }
      }
    }
  }

  /** The occurrence list of `g` is in ascending order. */
  lemma {:induction false} OccurrencesAscending(metadata: seq<Meta>, n: nat, g: string)
    requires n <= |metadata|
    ensures forall a, b :: 0 <= a < b < |Occurrences(metadata, n, g)| ==>
      Occurrences(metadata, n, g)[a] <= Occurrences(metadata, n, g)[b]
  {
    if n > 0 {
      OccurrencesAscending(metadata, n - 1, g);
      OccurrencesMembers(metadata, n - 1, g);
      var prev := Occurrences(metadata, n - 1, g);
      var last := Repeat(n - 1, Count(GroupsOf(metadata[n - 1]), g));
      forall a, b | 0 <= a < b < |prev + last|
        ensures (prev + last)[a] <= (prev + last)[b]
      {
        if b >= |prev| {
          assert (prev + last)[b] == last[b - |prev|];
          if a < |prev| {
            assert (prev + last)[a] == prev[a];
            assert prev[a] in prev;
          } else {
            assert (prev + last)[a] == last[a - |prev|];
          }
        }
      }
    }
  }

  /** The inner loop of `_build_indices` for entity `i`. */
  method AddEntityGroups(idx: map<string, seq<nat>>, groups: seq<string>, i: nat) returns (r: map<string, seq<nat>>)
    ensures r == AddGroups(idx, groups, i)
  {
    r := idx;
    var k := 0;
    while k < |groups|
      invariant 0 <= k <= |groups|
      invariant r == AddGroups(idx, groups[..k], i)
    {
      var group := groups[k];
      assert groups[..k + 1][..k] == groups[..k];
      if group != "" {
        r := r[group := Lookup(r, group) + [i]];
      }
      k := k + 1;
    }
    assert groups[..k] == groups;
  }

  /** The outer loop of `_build_indices`. */
  method BuildGroupIndex(metadata: seq<Meta>) returns (idx: map<string, seq<nat>>)
    ensures idx == GroupIndexUpTo(metadata, |metadata|)
  {
    idx := map[];
    var i := 0;
    while i < |metadata|
      invariant 0 <= i <= |metadata|
      invariant idx == GroupIndexUpTo(metadata, i)
    {
      idx := AddEntityGroups(idx, GroupsOf(metadata[i]), i);
      i := i + 1;
    }
  }

  // ---------------------------------------------------------------------------
  // `np.argsort(distances)[:top_k]` and the `max_distance` filter

  /** Positions `ps` in ascending order of distance. */
  ghost predicate SortedBy(d: seq<real>, ps: seq<nat>)
    requires forall k :: 0 <= k < |ps| ==> ps[k] < |d|
  {
    forall a, b :: 0 <= a < b < |ps| ==> d[ps[a]] <= d[ps[b]]
  }

  /** Position `p` placed after every position at least as close. */
  function InsertPos(d: seq<real>, ps: seq<nat>, p: nat): (r: seq<nat>)
    requires p < |d| && forall k :: 0 <= k < |ps| ==> ps[k] < |d|
    ensures |r| == |ps| + 1 && forall q :: q in r <==> q in ps || q == p
    ensures forall k :: 0 <= k < |r| ==> r[k] < |d|
  {
    if ps == [] then [p]
    else if d[p] < d[ps[0]] then [p] + ps
    else [ps[0]] + InsertPos(d, ps[1..], p)
  }

  /** The positions `0 .. n-1` in ascending order of distance, ties by position. */
  function ArgSortUpTo(d: seq<real>, n: nat): (r: seq<nat>)
    requires n <= |d|
    ensures |r| == n && forall q :: q in r <==> 0 <= q < n
    ensures forall k :: 0 <= k < |r| ==> r[k] < |d|
  {
    if n == 0 then [] else InsertPos(d, ArgSortUpTo(d, n - 1), n - 1)
  }

  function ArgSort(d: seq<real>): (r: seq<nat>)
    ensures |r| == |d| && forall q :: q in r <==> 0 <= q < |d|
    ensures forall k :: 0 <= k < |r| ==> r[k] < |d|
  {
    ArgSortUpTo(d, |d|)
  }

  lemma {:induction false} InsertPosSorted(d: seq<real>, ps: seq<nat>, p: nat)
    requires p < |d| && forall k :: 0 <= k < |ps| ==> ps[k] < |d|
    requires SortedBy(d, ps)
    ensures SortedBy(d, InsertPos(d, ps, p))
  {
    if ps != [] && d[p] >= d[ps[0]] {
      var rest := InsertPos(d, ps[1..], p);
      InsertPosSorted(d, ps[1..], p);
      assert forall k :: 0 <= k < |rest| ==> d[ps[0]] <= d[rest[k]] by {
        forall k | 0 <= k < |rest| ensures d[ps[0]] <= d[rest[k]] {
          assert rest[k] in ps[1..] || rest[k] == p;
        }
      }
    }
  }

  /** The order is by ascending distance. */
  lemma {:induction false} ArgSortSorted(d: seq<real>, n: nat)
    requires n <= |d|
    ensures SortedBy(d, ArgSortUpTo(d, n))
  {
    if n > 0 {
      ArgSortSorted(d, n - 1);
      InsertPosSorted(d, ArgSortUpTo(d, n - 1), n - 1);
    }
  }

  /** `s[:k]`. */
  function Take<T>(s: seq<T>, k: nat): (r: seq<T>)
    ensures |r| <= k && |r| <= |s| && r == s[..|r|]
    ensures k >= |s| ==> r == s
  {
    if k < |s| then s[..k] else s
  }

  /** The positions of `ps` whose distance is at most `maxDistance`, in order. */
  function Within(d: seq<real>, ps: seq<nat>, maxDistance: real): (r: seq<nat>)
    requires forall k :: 0 <= k < |ps| ==> ps[k] < |d|
    ensures |r| <= |ps|
    ensures forall q :: q in r <==> q in ps && d[q] <= maxDistance
    ensures forall k :: 0 <= k < |r| ==> r[k] < |d|
  {
    if ps == [] then []
    else
      var init := Within(d, ps[..|ps| - 1], maxDistance);
      var p := ps[|ps| - 1];
      if d[p] <= maxDistance then init + [p] else init
  }

  /** `for idx in top_indices: if distances[idx] <= max_distance` keeps the positions picked. */
  function Picked(d: seq<real>, topK: nat, maxDistance: real): (r: seq<nat>)
    ensures forall k :: 0 <= k < |r| ==> r[k] < |d|
  {
    Within(d, Take(ArgSort(d), topK), maxDistance)
  }

  /** Filtering a sorted list leaves it sorted. */
  lemma {:induction false} WithinSorted(d: seq<real>, ps: seq<nat>, maxDistance: real)
    requires forall k :: 0 <= k < |ps| ==> ps[k] < |d|
    requires SortedBy(d, ps)
    ensures SortedBy(d, Within(d, ps, maxDistance))
  {
    if ps != [] {
      var init := ps[..|ps| - 1];
      WithinSorted(d, init, maxDistance);
      var w := Within(d, init, maxDistance);
      var p := ps[|ps| - 1];
      forall k | 0 <= k < |w| ensures d[w[k]] <= d[p] {
        assert w[k] in init;
        var j :| 0 <= j < |init| && init[j] == w[k];
      }
    }
  }

  /** At most `top_k` positions, each within `max_distance`, in ascending order of distance;
      a position is picked exactly when it is among the `top_k` nearest and within distance. */
  lemma PickedSpec(d: seq<real>, topK: nat, maxDistance: real)
    ensures |Picked(d, topK, maxDistance)| <= topK
    ensures forall p :: p in Picked(d, topK, maxDistance) <==> p in Take(ArgSort(d), topK) && d[p] <= maxDistance
    ensures SortedBy(d, Picked(d, topK, maxDistance))
  {
    var all := ArgSort(d);
    ArgSortSorted(d, |d|);
    var top := Take(all, topK);
    assert forall k :: 0 <= k < |top| ==> top[k] == all[k];
    WithinSorted(d, top, maxDistance);
  }

  /** In an order by ascending distance, a position in a prefix is no farther than one after it. */
  lemma PrefixNoFarther(d: seq<real>, all: seq<nat>, n: nat, p: nat, q: nat)
    requires n <= |all| && forall k :: 0 <= k < |all| ==> all[k] < |d|
    requires SortedBy(d, all)
    requires p in all && p !in all[..n] && q in all[..n]
    ensures d[q] <= d[p]
  {
    var j :| 0 <= j < n && all[j] == q;
    var i :| 0 <= i < |all| && all[i] == p;
    assert forall k :: 0 <= k < n ==> all[..n][k] == all[k];
  }

  /** Nothing left out of the `top_k` is strictly nearer than anything kept. */
  lemma TopKNearest(d: seq<real>, topK: nat)
    ensures forall p, q :: 0 <= p < |d| && p !in Take(ArgSort(d), topK) && q in Take(ArgSort(d), topK) ==>
      d[q] <= d[p]
  {
    var all := ArgSort(d);
    ArgSortSorted(d, |d|);
    var top := Take(all, topK);
    forall p, q | 0 <= p < |d| && p !in top && q in top
      ensures d[q] <= d[p]
    {
      assert p in all;
      PrefixNoFarther(d, all, |top|, p, q);
    }
  }

  /** When `top_k` covers every entity, every entity within distance is picked. */
  lemma PickedAll(d: seq<real>, topK: nat, maxDistance: real)
    requires topK >= |d|
    ensures forall p :: p in Picked(d, topK, maxDistance) <==> 0 <= p < |d| && d[p] <= maxDistance
  {
    PickedSpec(d, topK, maxDistance);
  }

  // ---------------------------------------------------------------------------
  // The group filter of `search`

  /** `filter_indices.update(self._group_index[group])` for the first `n` included groups. */
  function FilterUpTo(idx: map<string, seq<nat>>, includeGroups: seq<string>, n: nat): set<nat>
    requires n <= |includeGroups|
  {
    if n == 0 then {}
    else FilterUpTo(idx, includeGroups, n - 1) + Elements(Lookup(idx, includeGroups[n - 1]))
  }

  /** `set(xs)`. */
  function Elements(xs: seq<nat>): (r: set<nat>)
    ensures forall x :: x in r <==> x in xs
  {
    set x | x in xs
  }

  function FilterSetOf(idx: map<string, seq<nat>>, includeGroups: seq<string>): set<nat> {
    FilterUpTo(idx, includeGroups, |includeGroups|)
  }

  /** Entity `i` carries one of the included groups, and that group is not empty. */
  ghost predicate InIncluded(metadata: seq<Meta>, i: nat, includeGroups: seq<string>)
    requires i < |metadata|
  {
    exists g :: g in includeGroups && g != "" && g in GroupsOf(metadata[i])
  }

  lemma {:induction false} FilterUpToSpec(idx: map<string, seq<nat>>, includeGroups: seq<string>, n: nat)
    requires n <= |includeGroups|
    ensures forall i :: i in FilterUpTo(idx, includeGroups, n) <==>
      exists k :: 0 <= k < n && i in Lookup(idx, includeGroups[k])
  {
    if n > 0 {
      FilterUpToSpec(idx, includeGroups, n - 1);
    }
  }

  /** The filter keeps exactly the entities carrying a non-empty included group. */
  lemma FilterSetSpec(metadata: seq<Meta>, includeGroups: seq<string>)
    ensures forall i :: i in FilterSetOf(GroupIndexUpTo(metadata, |metadata|), includeGroups) <==>
      0 <= i < |metadata| && InIncluded(metadata, i, includeGroups)
  {
    var idx := GroupIndexUpTo(metadata, |metadata|);
    FilterUpToSpec(idx, includeGroups, |includeGroups|);
    forall i ensures i in FilterSetOf(idx, includeGroups) <==> 0 <= i < |metadata| && InIncluded(metadata, i, includeGroups) {
      if i in FilterSetOf(idx, includeGroups) {
        var k :| 0 <= k < |includeGroups| && i in Lookup(idx, includeGroups[k]);
        var g := includeGroups[k];
        GroupIndexLookup(metadata, |metadata|, g);
        OccurrencesMembers(metadata, |metadata|, g);
        assert g != "";
      }
      if 0 <= i < |metadata| && InIncluded(metadata, i, includeGroups) {
        var g :| g in includeGroups && g != "" && g in GroupsOf(metadata[i]);
        var k :| 0 <= k < |includeGroups| && includeGroups[k] == g;
        GroupIndexLookup(metadata, |metadata|, g);
        OccurrencesMembers(metadata, |metadata|, g);
      }
    }
  }

  /** The loop of `search` that collects `filter_indices`. */
  method FilterIndices(idx: map<string, seq<nat>>, includeGroups: seq<string>) returns (s: set<nat>)
    ensures s == FilterSetOf(idx, includeGroups)
  {
    s := {};
    var k := 0;
    while k < |includeGroups|
      invariant 0 <= k <= |includeGroups|
      invariant s == FilterUpTo(idx, includeGroups, k)
    {
      var group := includeGroups[k];
      if group in idx {
        s := s + Elements(idx[group]);
      }
      k := k + 1;
    }
  }

  /** `sorted(filter_indices)` for a set of indices below `n`. */
  function Ascending(s: set<nat>, n: nat): (r: seq<nat>)
    ensures forall i :: i in r <==> i in s && i < n
    ensures forall k :: 0 <= k < |r| ==> r[k] < n
    ensures forall a, b :: 0 <= a < b < |r| ==> r[a] < r[b]
  {
    if n == 0 then []
    else Ascending(s, n - 1) + (if n - 1 in s then [n - 1] else [])
  }

  // ---------------------------------------------------------------------------
  // The results of `search`

  /** One match: the entity's text, metadata and distance. */
  datatype Match = Match(text: string, canonical: string, docType: string, entityGroups: seq<string>,
                         relatedDoctypes: seq<string>, distance: real)

  /** `{"id": i, "matches": [...]}`; the early answers carry no `id`. */
  datatype QueryResult = QueryResult(id: Option<nat>, matches: seq<Match>)

  /** `[{"matches": []} for _ in queries]`. */
  function NoMatches(n: nat): (r: seq<QueryResult>)
    ensures |r| == n && forall k :: 0 <= k < n ==> r[k].matches == []
  {
    seq(n, _ => QueryResult(None, []))
  }

  /** The sort key of `results.sort(key=lambda x: x["id"])`. */
  function Key(r: QueryResult): nat {
    if r.id.Some? then r.id.value else 0
  }

  ghost predicate SortedById(s: seq<QueryResult>) {
    forall a, b :: 0 <= a < b < |s| ==> Key(s[a]) <= Key(s[b])
  }

  /** `x` placed after every result with a key no larger. */
  function InsertById(s: seq<QueryResult>, x: QueryResult): (r: seq<QueryResult>)
    ensures multiset(r) == multiset(s) + multiset{x}
  {
    if s == [] then [x]
    else if Key(x) < Key(s[0]) then [x] + s
    else
      assert s == [s[0]] + s[1..];
      [s[0]] + InsertById(s[1..], x)
  }

  /** `results.sort(key=...)`: a stable sort by id. */
  function SortById(s: seq<QueryResult>): (r: seq<QueryResult>)
    ensures multiset(r) == multiset(s)
  {
    if s == [] then []
    else
      assert s == s[..|s| - 1] + [s[|s| - 1]];
      InsertById(SortById(s[..|s| - 1]), s[|s| - 1])
  }

  lemma {:induction false} InsertByIdSorted(s: seq<QueryResult>, x: QueryResult)
    requires SortedById(s)
    ensures SortedById(InsertById(s, x))
  {
    if s != [] && Key(x) >= Key(s[0]) {
      var rest := InsertById(s[1..], x);
      InsertByIdSorted(s[1..], x);
      forall k | 0 <= k < |rest| ensures Key(s[0]) <= Key(rest[k]) {
        assert rest[k] in multiset(rest);
        assert rest[k] in s[1..] || rest[k] == x;
      }
    }
  }

  lemma {:induction false} SortByIdSorted(s: seq<QueryResult>)
    ensures SortedById(SortById(s))
  {
    if s != [] {
      SortByIdSorted(s[..|s| - 1]);
      InsertByIdSorted(SortById(s[..|s| - 1]), s[|s| - 1]);
    }
  }

  /** A sequence sorted by id holding the same results as `t`, whose result `j` has id `j`,
      is `t` itself. */
  lemma {:induction false} SortedIsIdOrder(s: seq<QueryResult>, t: seq<QueryResult>)
    requires SortedById(s) && multiset(s) == multiset(t)
    requires forall j :: 0 <= j < |t| ==> Key(t[j]) == j
    ensures s == t
  {
    assert |s| == |multiset(s)| == |t|;
    if t != [] {
      var n := |t|;
      LastById(s, t);
      InitLast(s);
      InitLast(t);
      MultisetCancel(s[..n - 1], t[..n - 1], t[n - 1]);
      var init := t[..n - 1];
      assert SortedById(s[..n - 1]);
      assert forall j :: 0 <= j < |init| ==> Key(init[j]) == j;
      SortedIsIdOrder(s[..n - 1], init);
    }
  }

  /** Under those conditions the last results agree: both have the largest id, `|t| - 1`. */
  lemma LastById(s: seq<QueryResult>, t: seq<QueryResult>)
    requires SortedById(s) && multiset(s) == multiset(t) && |s| == |t| > 0
    requires forall j :: 0 <= j < |t| ==> Key(t[j]) == j
    ensures s[|s| - 1] == t[|t| - 1]
  {
    var n := |t|;
    var last := s[n - 1];
    assert t[n - 1] in multiset(s);
    var i :| 0 <= i < n && s[i] == t[n - 1];
    assert Key(last) >= n - 1;
    assert last in multiset(t);
    var j :| 0 <= j < n && t[j] == last;
  }

  /** Removing the same last element from two sequences with equal contents leaves equal contents. */
  lemma MultisetCancel<T>(a: seq<T>, b: seq<T>, x: T)
    requires multiset(a + [x]) == multiset(b + [x])
    ensures multiset(a) == multiset(b)
  {
    assert multiset(a + [x]) == multiset(a) + multiset{x};
    assert multiset(b + [x]) == multiset(b) + multiset{x};
    assert multiset(a) == multiset(a + [x]) - multiset{x};
    assert multiset(b) == multiset(b + [x]) - multiset{x};
  }

  /** The positions `j < n` whose flag is `b`, in ascending order. */
  function Where(flags: seq<bool>, n: nat, b: bool): (r: seq<nat>)
    requires n <= |flags|
    ensures forall k :: 0 <= k < |r| ==> r[k] < n && flags[r[k]] == b
    ensures forall x, y :: 0 <= x < y < |r| ==> r[x] < r[y]
  {
    if n == 0 then []
    else Where(flags, n - 1, b) + (if flags[n - 1] == b then [n - 1] else [])
  }

  /** The results at positions `ps`. */
  function Pick<T>(all: seq<T>, ps: seq<nat>): (r: seq<T>)
    requires forall k :: 0 <= k < |ps| ==> ps[k] < |all|
    ensures |r| == |ps|
  {
    seq(|ps|, k requires 0 <= k < |ps| => all[ps[k]])
  }

  lemma WhereStep(flags: seq<bool>, n: nat, b: bool)
    requires 0 < n <= |flags|
    ensures flags[n - 1] == b ==> Where(flags, n, b) == Where(flags, n - 1, b) + [n - 1]
    ensures flags[n - 1] != b ==> Where(flags, n, b) == Where(flags, n - 1, b)
  {
  }

  /** Picking one more position appends its result. */
  lemma PickSnoc<T>(all: seq<T>, ps: seq<nat>, j: nat)
    requires forall k :: 0 <= k < |ps| ==> ps[k] < |all|
    requires j < |all|
    ensures Pick(all, ps + [j]) == Pick(all, ps) + [all[j]]
  {
  }

  /** Picking the flagged positions below `n` adds result `n - 1` when it is flagged. */
  lemma PickWhereStep<T>(flags: seq<bool>, all: seq<T>, n: nat, b: bool)
    requires 0 < n <= |flags| && |flags| == |all|
    ensures flags[n - 1] == b ==>
      multiset(Pick(all, Where(flags, n, b))) == multiset(Pick(all, Where(flags, n - 1, b))) + multiset{all[n - 1]}
    ensures flags[n - 1] != b ==>
      multiset(Pick(all, Where(flags, n, b))) == multiset(Pick(all, Where(flags, n - 1, b)))
  {
    var ps := Where(flags, n - 1, b);
    if flags[n - 1] == b {
      assert Where(flags, n, b) == ps + [n - 1];
      assert Pick(all, ps + [n - 1]) == Pick(all, ps) + [all[n - 1]];
    } else {
      assert Where(flags, n, b) == ps;
    }
  }

  lemma MultisetRegroup<T>(a: multiset<T>, b: multiset<T>, x: multiset<T>)
    ensures (a + x) + b == (a + b) + x && a + (b + x) == (a + b) + x
  {
  }

  /** The flagged and the unflagged positions together pick every result once. */
  lemma {:induction false} PickPartition<T>(flags: seq<bool>, all: seq<T>, n: nat)
    requires n <= |flags| && |flags| == |all|
    ensures multiset(Pick(all, Where(flags, n, true))) + multiset(Pick(all, Where(flags, n, false)))
      == multiset(all[..n])
  {
    if n == 0 {
      assert Pick(all, Where(flags, n, true)) == [] && Pick(all, Where(flags, n, false)) == [] && all[..n] == [];
    } else {
      PickPartition(flags, all, n - 1);
      var x := all[n - 1];
      assert all[..n] == all[..n - 1] + [x];
      var ma := multiset(Pick(all, Where(flags, n - 1, true)));
      var mb := multiset(Pick(all, Where(flags, n - 1, false)));
      var mx := multiset{x};
      assert multiset(all[..n]) == multiset(all[..n - 1]) + mx;
      PickWhereStep(flags, all, n, true);
      PickWhereStep(flags, all, n, false);
      MultisetRegroup(ma, mb, mx);
    }
  }

  /** Results picked in ascending position are sorted by id when result `j` has id `j`. */
  lemma PickSorted(all: seq<QueryResult>, ps: seq<nat>)
    requires forall k :: 0 <= k < |ps| ==> ps[k] < |all|
    requires forall x, y :: 0 <= x < y < |ps| ==> ps[x] < ps[y]
    requires forall j :: 0 <= j < |all| ==> Key(all[j]) == j
    ensures SortedById(Pick(all, ps))
  {
  }

  // ---------------------------------------------------------------------------
  // The store

  /** The embedding side of a search, which the store does not compute itself:
      `dist(q, i)` is `1 - dot(embedding of entity i, embedding of q)`; `ann(q, filtered, k)` is the
      row of (similarity, position) pairs a FAISS inner-product index over `filtered` returns
      for `q`; `faissAvailable` says whether `import faiss` succeeds. */
  datatype Vectors = Vectors(dist: (string, nat) -> real,
                             ann: (string, seq<nat>, nat) -> seq<(real, int)>,
                             faissAvailable: bool)

  /** Below this many filtered entities the search compares against every one of them. */
  const BruteForceLimit := 1000

  /** The `top_k` and `max_distance` a caller of `search` gets when it passes neither. */
  const DefaultTopK: nat := 5
  const DefaultMaxDistance: real := 0.25

  /** `get_stats()`: the entity count and the number of entries per group. */
  datatype Stats = Stats(totalEntities: nat, groups: map<string, nat>)

  /** Positions that all name an entity. */
  ghost predicate InRange(filtered: seq<nat>, n: nat) {
    forall k :: 0 <= k < |filtered| ==> filtered[k] < n
  }

  /** The match for entity `i` at the given distance. */
  function EntityMatch(es: seq<string>, ms: seq<Meta>, i: nat, distance: real): Match
    requires i < |es| && |ms| == |es|
  {
    var m := ms[i];
    Match(es[i], m.canonical, m.docType, GroupsOf(m), m.relatedDoctypes, distance)
  }

  /** Some group of `m` is an included group (`set(...) & include_groups_set` is not empty). */
  predicate MeetsGroups(m: Meta, includeGroups: seq<string>) {
    exists g :: g in GroupsOf(m) && g in includeGroups
  }

  /** The exact, case-insensitive hit for `q`: the last entity with that text, provided its
      groups meet `includeGroups`, at distance 0. */
  function ExactHit(es: seq<string>, ms: seq<Meta>, q: string, includeGroups: seq<string>): Option<Match>
    requires |ms| == |es|
  {
    var idx := TextIndexUpTo(es, |es|);
    var t := Lower(q);
    if t !in idx then None
    else
      TextIndexSpec(es, |es|);
      var i := idx[t];
      var m := ms[i];
      if MeetsGroups(m, includeGroups) then
        Some(Match(es[i], m.canonical, m.docType, Dedup(GroupsOf(m)), m.relatedDoctypes, 0.0))
      else None
  }

  /** The distances of the filtered entities to `q`. */
  function Distances(q: string, filtered: seq<nat>, v: Vectors): (d: seq<real>)
    ensures |d| == |filtered|
  {
    seq(|filtered|, p requires 0 <= p < |filtered| => v.dist(q, filtered[p]))
  }

  /** The matches at the given positions of `filtered`. */
  function MatchesAt(es: seq<string>, ms: seq<Meta>, filtered: seq<nat>, d: seq<real>, ps: seq<nat>): (r: seq<Match>)
    requires |ms| == |es| && |d| == |filtered| && InRange(filtered, |es|) && InRange(ps, |filtered|)
    ensures |r| == |ps|
  {
    seq(|ps|, k requires 0 <= k < |ps| => EntityMatch(es, ms, filtered[ps[k]], d[ps[k]]))
  }

  /** The brute-force matches: among the `top_k` nearest, those within `max_distance`. */
  function BruteMatches(es: seq<string>, ms: seq<Meta>, q: string, filtered: seq<nat>, topK: nat,
                        maxDistance: real, v: Vectors): seq<Match>
    requires |ms| == |es| && InRange(filtered, |es|)
  {
    var d := Distances(q, filtered, v);
    MatchesAt(es, ms, filtered, d, Picked(d, topK, maxDistance))
  }

  /** The FAISS matches: the pairs of the row that name an entity and reach similarity
      `1 - max_distance`, at distance `1 - similarity`. */
  function AnnKept(es: seq<string>, ms: seq<Meta>, row: seq<(real, int)>, filtered: seq<nat>,
                   maxDistance: real): seq<Match>
    requires |ms| == |es| && InRange(filtered, |es|)
  {
    if row == [] then []
    else
      var init := AnnKept(es, ms, row[..|row| - 1], filtered, maxDistance);
      var (sim, idx) := row[|row| - 1];
      if 0 <= idx < |filtered| && sim >= 1.0 - maxDistance then init + [EntityMatch(es, ms, filtered[idx], 1.0 - sim)]
      else init
  }

  /** The vector matches for `q`: brute force below `BruteForceLimit` filtered entities or
      without FAISS, the FAISS row otherwise. */
  function VectorMatches(es: seq<string>, ms: seq<Meta>, q: string, filtered: seq<nat>, topK: nat,
                         maxDistance: real, v: Vectors): seq<Match>
    requires |ms| == |es| && InRange(filtered, |es|)
  {
    if |filtered| < BruteForceLimit || !v.faissAvailable then BruteMatches(es, ms, q, filtered, topK, maxDistance, v)
    else AnnKept(es, ms, v.ann(q, filtered, topK), filtered, maxDistance)
  }

  /** The answer to query `i`: its exact hit alone, or its vector matches. */
  function Answer(es: seq<string>, ms: seq<Meta>, queries: seq<string>, i: nat, includeGroups: seq<string>,
                  filtered: seq<nat>, topK: nat, maxDistance: real, v: Vectors): QueryResult
    requires |ms| == |es| && i < |queries| && InRange(filtered, |es|)
  {
    var hit := ExactHit(es, ms, queries[i], includeGroups);
    QueryResult(Some(i), if hit.Some? then [hit.value] else VectorMatches(es, ms, queries[i], filtered, topK, maxDistance, v))
  }

  /** The answers to all queries, in query order. */
  function Answers(es: seq<string>, ms: seq<Meta>, queries: seq<string>, includeGroups: seq<string>,
                   filtered: seq<nat>, topK: nat, maxDistance: real, v: Vectors): (r: seq<QueryResult>)
    requires |ms| == |es| && InRange(filtered, |es|)
    ensures |r| == |queries|
  {
    seq(|queries|, i requires 0 <= i < |queries| => Answer(es, ms, queries, i, includeGroups, filtered, topK, maxDistance, v))
  }

  /** The entities a search considers: those in an included group, in index order. */
  function Filtered(ms: seq<Meta>, includeGroups: seq<string>): (r: seq<nat>)
    ensures InRange(r, |ms|)
  {
    Ascending(FilterSetOf(GroupIndexUpTo(ms, |ms|), includeGroups), |ms|)
  }

  /** What `search` returns. */
  function SearchResult(es: seq<string>, ms: seq<Meta>, queries: seq<string>, includeGroups: seq<string>,
                        topK: nat, maxDistance: real, v: Vectors): seq<QueryResult>
    requires |ms| == |es|
  {
    if queries == [] || es == [] then NoMatches(|queries|)
    else if FilterSetOf(GroupIndexUpTo(ms, |ms|), includeGroups) == {} then NoMatches(|queries|)
    else Answers(es, ms, queries, includeGroups, Filtered(ms, includeGroups), topK, maxDistance, v)
  }

  /** Whether each query has an exact hit. */
  function ExactFlags(es: seq<string>, ms: seq<Meta>, queries: seq<string>, includeGroups: seq<string>): (r: seq<bool>)
    requires |ms| == |es|
    ensures |r| == |queries|
  {
    seq(|queries|, j requires 0 <= j < |queries| => ExactHit(es, ms, queries[j], includeGroups).Some?)
  }

  /** Answer `j` carries id `j`: its exact hit alone when it has one, its vector matches otherwise. */
  lemma AnswersSpec(es: seq<string>, ms: seq<Meta>, queries: seq<string>, includeGroups: seq<string>,
                    filtered: seq<nat>, topK: nat, maxDistance: real, v: Vectors)
    requires |ms| == |es| && InRange(filtered, |es|)
    ensures forall j :: 0 <= j < |queries| ==>
      Answers(es, ms, queries, includeGroups, filtered, topK, maxDistance, v)[j].id == Some(j)
    ensures forall j :: 0 <= j < |queries| && ExactHit(es, ms, queries[j], includeGroups).Some? ==>
      Answers(es, ms, queries, includeGroups, filtered, topK, maxDistance, v)[j]
        == QueryResult(Some(j), [ExactHit(es, ms, queries[j], includeGroups).value])
    ensures forall j :: 0 <= j < |queries| && ExactHit(es, ms, queries[j], includeGroups).None? ==>
      Answers(es, ms, queries, includeGroups, filtered, topK, maxDistance, v)[j]
        == QueryResult(Some(j), VectorMatches(es, ms, queries[j], filtered, topK, maxDistance, v))
  {
  }

  /** The exact answers followed by the vector answers, sorted by id, are all the answers in
      query order. */
  lemma Reassemble(all: seq<QueryResult>, flags: seq<bool>, exact: seq<QueryResult>, vector: seq<QueryResult>)
    requires |flags| == |all|
    requires forall j :: 0 <= j < |all| ==> Key(all[j]) == j
    requires exact == Pick(all, Where(flags, |all|, true))
    requires vector == Pick(all, Where(flags, |all|, false))
    ensures SortById(exact + vector) == all
  {
    PickPartition(flags, all, |all|);
    assert all[..|all|] == all;
    SortByIdSorted(exact + vector);
    SortedIsIdOrder(SortById(exact + vector), all);
  }

  /** With no vector answers, the exact answers already are all the answers in query order. */
  lemma ReassembleExact(all: seq<QueryResult>, flags: seq<bool>, exact: seq<QueryResult>)
    requires |flags| == |all|
    requires forall j :: 0 <= j < |all| ==> Key(all[j]) == j
    requires exact == Pick(all, Where(flags, |all|, true))
    requires Where(flags, |all|, false) == []
    ensures exact == all
  {
    assert multiset(exact) == multiset(all) by {
      Reassemble(all, flags, exact, []);
      assert exact + [] == exact;
    }
    assert SortedById(exact) by {
      PickSorted(all, Where(flags, |all|, true));
    }
    SortedIsIdOrder(exact, all);
  }

  // ---------------------------------------------------------------------------
  // What a search answers

  /** Entity `i` is the last one whose lower-cased text is `t`. */
  ghost predicate LastWithText(es: seq<string>, i: int, t: string) {
    0 <= i < |es| && Lower(es[i]) == t && forall j :: i < j < |es| ==> Lower(es[j]) != t
  }

  /** A query has an exact hit exactly when the last entity with its text (ignoring case)
      meets the included groups. */
  lemma ExactHitWhen(es: seq<string>, ms: seq<Meta>, q: string, includeGroups: seq<string>)
    requires |ms| == |es|
    ensures ExactHit(es, ms, q, includeGroups).Some? <==>
      exists i :: LastWithText(es, i, Lower(q)) && MeetsGroups(ms[i], includeGroups)
  {
    TextIndexSpec(es, |es|);
    var idx := TextIndexUpTo(es, |es|);
    var t := Lower(q);
    if exists i :: LastWithText(es, i, t) && MeetsGroups(ms[i], includeGroups) {
      var i :| LastWithText(es, i, t) && MeetsGroups(ms[i], includeGroups);
      assert HasText(es, |es|, t);
      assert idx[t] == i;
    }
    if ExactHit(es, ms, q, includeGroups).Some? {
      assert LastWithText(es, idx[t], t);
    }
  }

  /** An exact hit has the query's text ignoring case, distance 0, and each of its groups once. */
  lemma ExactHitShape(es: seq<string>, ms: seq<Meta>, q: string, includeGroups: seq<string>)
    requires |ms| == |es|
    ensures ExactHit(es, ms, q, includeGroups).Some? ==>
      var m := ExactHit(es, ms, q, includeGroups).value;
      && Lower(m.text) == Lower(q)
      && m.distance == 0.0
      && NoDup(m.entityGroups)
      && exists i :: 0 <= i < |es| && m.text == es[i] && m.canonical == ms[i].canonical
           && (forall g :: g in m.entityGroups <==> g in GroupsOf(ms[i]))
  {
    TextIndexSpec(es, |es|);
    var idx := TextIndexUpTo(es, |es|);
    if Lower(q) in idx {
      var i := idx[Lower(q)];
      DedupSpec(GroupsOf(ms[i]));
    }
  }

  /** The brute-force matches are at most `top_k` and each within `max_distance`. */
  lemma BruteMatchesBounded(es: seq<string>, ms: seq<Meta>, q: string, filtered: seq<nat>, topK: nat,
                            maxDistance: real, v: Vectors)
    requires |ms| == |es| && InRange(filtered, |es|)
    ensures |BruteMatches(es, ms, q, filtered, topK, maxDistance, v)| <= topK
    ensures forall k :: 0 <= k < |BruteMatches(es, ms, q, filtered, topK, maxDistance, v)| ==>
      BruteMatches(es, ms, q, filtered, topK, maxDistance, v)[k].distance <= maxDistance
  {
    var d := Distances(q, filtered, v);
    PickedSpec(d, topK, maxDistance);
    var ps := Picked(d, topK, maxDistance);
    forall k | 0 <= k < |ps| ensures d[ps[k]] <= maxDistance {
      assert ps[k] in ps;
    }
  }

  /** The brute-force matches come nearest first, and each is a filtered entity at its distance
      to the query. */
  lemma BruteMatchesOrdered(es: seq<string>, ms: seq<Meta>, q: string, filtered: seq<nat>, topK: nat,
                            maxDistance: real, v: Vectors)
    requires |ms| == |es| && InRange(filtered, |es|)
    ensures forall a, b :: 0 <= a < b < |BruteMatches(es, ms, q, filtered, topK, maxDistance, v)| ==>
      BruteMatches(es, ms, q, filtered, topK, maxDistance, v)[a].distance
        <= BruteMatches(es, ms, q, filtered, topK, maxDistance, v)[b].distance
    ensures forall k :: 0 <= k < |BruteMatches(es, ms, q, filtered, topK, maxDistance, v)| ==>
      exists p :: 0 <= p < |filtered| &&
        BruteMatches(es, ms, q, filtered, topK, maxDistance, v)[k] == EntityMatch(es, ms, filtered[p], v.dist(q, filtered[p]))
  {
    var d := Distances(q, filtered, v);
    PickedSpec(d, topK, maxDistance);
  }

  /** The FAISS matches are no more than the row's pairs, each within `max_distance` and each a
      filtered entity. */
  lemma {:induction false} AnnKeptSpec(es: seq<string>, ms: seq<Meta>, row: seq<(real, int)>, filtered: seq<nat>,
                                       maxDistance: real)
    requires |ms| == |es| && InRange(filtered, |es|)
    ensures |AnnKept(es, ms, row, filtered, maxDistance)| <= |row|
    ensures forall k :: 0 <= k < |AnnKept(es, ms, row, filtered, maxDistance)| ==>
      AnnKept(es, ms, row, filtered, maxDistance)[k].distance <= maxDistance
    ensures forall k :: 0 <= k < |AnnKept(es, ms, row, filtered, maxDistance)| ==>
      exists p :: 0 <= p < |filtered| && AnnKept(es, ms, row, filtered, maxDistance)[k].text == es[filtered[p]]
  {
    if row != [] {
      AnnKeptSpec(es, ms, row[..|row| - 1], filtered, maxDistance);
      var init := AnnKept(es, ms, row[..|row| - 1], filtered, maxDistance);
      var r := AnnKept(es, ms, row, filtered, maxDistance);
      var (sim, idx) := row[|row| - 1];
      if 0 <= idx < |filtered| && sim >= 1.0 - maxDistance {
        assert r == init + [EntityMatch(es, ms, filtered[idx], 1.0 - sim)];
        forall k | 0 <= k < |r|
          ensures r[k].distance <= maxDistance && exists p :: 0 <= p < |filtered| && r[k].text == es[filtered[p]]
        {
          if k < |init| {
            assert r[k] == init[k];
          } else {
            assert r[k].text == es[filtered[idx]];
          }
        }
      } else {
        assert r == init;
        forall k | 0 <= k < |r|
          ensures r[k].distance <= maxDistance && exists p :: 0 <= p < |filtered| && r[k].text == es[filtered[p]]
        {
          assert r[k] == init[k];
        }
      }
    }
  }

  /** `search` answers every query, one answer per query; past the early returns, answer `j`
      carries id `j`. */
  lemma SearchResultShape(es: seq<string>, ms: seq<Meta>, queries: seq<string>, includeGroups: seq<string>,
                          topK: nat, maxDistance: real, v: Vectors)
    requires |ms| == |es|
    ensures |SearchResult(es, ms, queries, includeGroups, topK, maxDistance, v)| == |queries|
    ensures forall j :: 0 <= j < |queries| ==>
      var r := SearchResult(es, ms, queries, includeGroups, topK, maxDistance, v)[j];
      r.id == None || r.id == Some(j)
  {
    if queries != [] && es != [] && FilterSetOf(GroupIndexUpTo(ms, |ms|), includeGroups) != {} {
      AnswersSpec(es, ms, queries, includeGroups, Filtered(ms, includeGroups), topK, maxDistance, v);
    }
  }

  /** When no entity carries an included group, every query gets an empty answer. */
  lemma SearchNoGroup(es: seq<string>, ms: seq<Meta>, queries: seq<string>, includeGroups: seq<string>,
                      topK: nat, maxDistance: real, v: Vectors)
    requires |ms| == |es|
    requires forall i :: 0 <= i < |ms| ==> !InIncluded(ms, i, includeGroups)
    ensures SearchResult(es, ms, queries, includeGroups, topK, maxDistance, v) == NoMatches(|queries|)
  {
    FilterSetSpec(ms, includeGroups);
    assert FilterSetOf(GroupIndexUpTo(ms, |ms|), includeGroups) == {};
  }

  /** The entities a search considers are exactly those carrying a non-empty included group, in
      ascending order. */
  lemma FilteredSpec(ms: seq<Meta>, includeGroups: seq<string>)
    ensures forall i :: i in Filtered(ms, includeGroups) <==> 0 <= i < |ms| && InIncluded(ms, i, includeGroups)
    ensures forall a, b :: 0 <= a < b < |Filtered(ms, includeGroups)| ==>
      Filtered(ms, includeGroups)[a] < Filtered(ms, includeGroups)[b]
  {
    FilterSetSpec(ms, includeGroups);
  }

  lemma MatchesAtSnoc(es: seq<string>, ms: seq<Meta>, filtered: seq<nat>, d: seq<real>, ps: seq<nat>, p: nat)
    requires |ms| == |es| && |d| == |filtered| && InRange(filtered, |es|) && InRange(ps, |filtered|) && p < |filtered|
    ensures InRange(ps + [p], |filtered|)
    ensures MatchesAt(es, ms, filtered, d, ps + [p]) == MatchesAt(es, ms, filtered, d, ps) + [EntityMatch(es, ms, filtered[p], d[p])]
  {
    assert forall k :: 0 <= k < |ps| ==> (ps + [p])[k] == ps[k];
  }

  /** One more index of the loop: kept when it is within `maxDistance`. */
  lemma WithinNext(d: seq<real>, ps: seq<nat>, k: nat, maxDistance: real)
    requires k < |ps| && forall j :: 0 <= j < |ps| ==> ps[j] < |d|
    ensures d[ps[k]] <= maxDistance ==> Within(d, ps[..k + 1], maxDistance) == Within(d, ps[..k], maxDistance) + [ps[k]]
    ensures d[ps[k]] > maxDistance ==> Within(d, ps[..k + 1], maxDistance) == Within(d, ps[..k], maxDistance)
  {
    PrefixOfPrefix(ps, k);
  }

  /** The loop over `top_indices` of the brute-force branch of `search`: the matches of the
      indices within `max_distance`, in order. */
  method KeepWithin(es: seq<string>, ms: seq<Meta>, filtered: seq<nat>, distances: seq<real>, topIndices: seq<nat>,
                    maxDistance: real)
    returns (matches: seq<Match>)
    requires |ms| == |es| && |distances| == |filtered| && InRange(filtered, |es|) && InRange(topIndices, |filtered|)
    ensures matches == MatchesAt(es, ms, filtered, distances, Within(distances, topIndices, maxDistance))
  {
    matches := [];
    var k := 0;
    while k < |topIndices|
      invariant 0 <= k <= |topIndices|
      invariant matches == MatchesAt(es, ms, filtered, distances, Within(distances, topIndices[..k], maxDistance))
    {
      var idx := topIndices[k];
      WithinNext(distances, topIndices, k, maxDistance);
      if distances[idx] <= maxDistance {
        MatchesAtSnoc(es, ms, filtered, distances, Within(distances, topIndices[..k], maxDistance), idx);
        matches := matches + [EntityMatch(es, ms, filtered[idx], distances[idx])];
      }
      k := k + 1;
    }
    SliceAll(topIndices);
  }

  /** One query of the first loop of `search`: a flagged one adds its answer, any other its
      position and text. */
  lemma ExactStep(all: seq<QueryResult>, flags: seq<bool>, queries: seq<string>, i: nat)
    requires i < |flags| == |queries| == |all|
    ensures flags[i] ==>
              && Pick(all, Where(flags, i + 1, true)) == Pick(all, Where(flags, i, true)) + [all[i]]
              && Where(flags, i + 1, false) == Where(flags, i, false)
    ensures !flags[i] ==>
              && Pick(all, Where(flags, i + 1, true)) == Pick(all, Where(flags, i, true))
              && Where(flags, i + 1, false) == Where(flags, i, false) + [i]
              && Pick(queries, Where(flags, i + 1, false)) == Pick(queries, Where(flags, i, false)) + [queries[i]]
  {
    WhereStep(flags, i + 1, true);
    WhereStep(flags, i + 1, false);
    if flags[i] {
      PickSnoc(all, Where(flags, i, true), i);
    } else {
      PickSnoc(queries, Where(flags, i, false), i);
    }
  }

  class EntityStore {
    var entities: seq<string>
    var metadata: seq<Meta>
    var textIndex: map<string, nat>
    var groupIndex: map<string, seq<nat>>

    /** Both indices are those `_build_indices` builds from the current lists. */
    ghost predicate Valid()
      reads this
    {
      && |metadata| == |entities|
      && textIndex == TextIndexUpTo(entities, |entities|)
      && groupIndex == GroupIndexUpTo(metadata, |metadata|)
    }

    /** Loading the entity lists (from the cache, or empty when loading fails), then `_build_indices`. */
    constructor (es: seq<string>, ms: seq<Meta>)
      requires |es| == |ms|
      ensures entities == es && metadata == ms && Valid()
    {
      entities := es;
      metadata := ms;
      textIndex := map[];
      groupIndex := map[];
      new;
      BuildIndices();
    }

    /** `_build_indices`: the text index, then the group index, from the current lists. */
    method BuildIndices()
      requires |metadata| == |entities|
      modifies this
      ensures entities == old(entities) && metadata == old(metadata)
      ensures Valid()
    {
      textIndex := TextIndexUpTo(entities, |entities|);
      var idx := BuildGroupIndex(metadata);
      groupIndex := idx;
    }

    /** `get_stats()`: every group some entity carries, with the number of its occurrences. */
    method GetStats() returns (stats: Stats)
      requires Valid()
      ensures stats.totalEntities == |entities|
      ensures forall g :: g in stats.groups <==> g != "" && HasGroup(metadata, |metadata|, g)
      ensures forall g :: g in stats.groups ==> stats.groups[g] == TotalCount(metadata, |metadata|, g)
    {
      stats := Stats(|entities|, map g | g in groupIndex :: |groupIndex[g]|);
      forall g ensures g in stats.groups <==> g != "" && HasGroup(metadata, |metadata|, g) {
        GroupIndexKeys(metadata, |metadata|, g);
      }
      forall g | g in stats.groups ensures stats.groups[g] == TotalCount(metadata, |metadata|, g) {
        GroupIndexLookup(metadata, |metadata|, g);
        GroupIndexKeys(metadata, |metadata|, g);
        OccurrencesLength(metadata, |metadata|, g);
      }
    }

    /** The exact-match check of `search` for one query. */
    method ExactMatch(q: string, includeGroups: seq<string>) returns (hit: Option<Match>)
      requires Valid()
      ensures hit == ExactHit(entities, metadata, q, includeGroups)
    {
      var queryLower := Lower(q);
      hit := None;
      if queryLower in textIndex {
        TextIndexSpec(entities, |entities|);
        var idx := textIndex[queryLower];
        var meta := metadata[idx];
        var entityGroups := set g | g in GroupsOf(meta);
        var includeSet := set g | g in includeGroups;
        if entityGroups * includeSet != {} {
          var g :| g in entityGroups * includeSet;
          assert g in GroupsOf(meta) && g in includeGroups;
          hit := Some(Match(entities[idx], meta.canonical, meta.docType, Dedup(GroupsOf(meta)), meta.relatedDoctypes, 0.0));
        } else {
          assert forall g :: g in GroupsOf(meta) && g in includeGroups ==> g in entityGroups * includeSet;
        }
      }
    }

    /** The brute-force branch of `search` for one query: `argsort`, `[:top_k]`, then the
        `max_distance` check. */
    method BruteSearch(q: string, filtered: seq<nat>, topK: nat, maxDistance: real, v: Vectors)
      returns (matches: seq<Match>)
      requires Valid() && InRange(filtered, |entities|)
      ensures matches == BruteMatches(entities, metadata, q, filtered, topK, maxDistance, v)
    {
      var distances := Distances(q, filtered, v);
      var topIndices := Take(ArgSort(distances), topK);
      matches := KeepWithin(entities, metadata, filtered, distances, topIndices, maxDistance);
    }

    /** The FAISS branch of `search` for one query. */
    method AnnSearch(q: string, filtered: seq<nat>, topK: nat, maxDistance: real, v: Vectors)
      returns (matches: seq<Match>)
      requires Valid() && InRange(filtered, |entities|)
      ensures matches == AnnKept(entities, metadata, v.ann(q, filtered, topK), filtered, maxDistance)
    {
      var row := v.ann(q, filtered, topK);
      matches := [];
      var k := 0;
      while k < |row|
        invariant 0 <= k <= |row|
        invariant matches == AnnKept(entities, metadata, row[..k], filtered, maxDistance)
      {
        var (sim, idx) := row[k];
        assert row[..k + 1][..k] == row[..k];
        if idx >= 0 && idx < |filtered| && sim >= 1.0 - maxDistance {
          matches := matches + [EntityMatch(entities, metadata, filtered[idx], 1.0 - sim)];
        }
        k := k + 1;
      }
      assert row[..k] == row;
    }

    /** The vector search for one query: brute force for small filtered sets or without FAISS. */
    method VectorSearch(q: string, filtered: seq<nat>, topK: nat, maxDistance: real, v: Vectors)
      returns (matches: seq<Match>)
      requires Valid() && InRange(filtered, |entities|)
      ensures matches == VectorMatches(entities, metadata, q, filtered, topK, maxDistance, v)
    {
      if |filtered| < BruteForceLimit || !v.faissAvailable {
        matches := BruteSearch(q, filtered, topK, maxDistance, v);
      } else {
        matches := AnnSearch(q, filtered, topK, maxDistance, v);
      }
    }

    /** The first loop of `search`: exact hits become answers at once, the other queries
        are set aside for the vector search. */
    method ExactPass(queries: seq<string>, includeGroups: seq<string>, ghost all: seq<QueryResult>,
                     ghost flags: seq<bool>)
      returns (results: seq<QueryResult>, queriesForVector: seq<string>, queryIndices: seq<nat>)
      requires Valid() && |all| == |queries| && |flags| == |queries|
      requires forall j :: 0 <= j < |queries| ==>
        flags[j] == ExactHit(entities, metadata, queries[j], includeGroups).Some?
      requires forall j :: 0 <= j < |queries| && flags[j] ==>
        all[j] == QueryResult(Some(j), [ExactHit(entities, metadata, queries[j], includeGroups).value])
      ensures results == Pick(all, Where(flags, |queries|, true))
      ensures queryIndices == Where(flags, |queries|, false)
      ensures queriesForVector == Pick(queries, queryIndices)
    {
      results := [];
      queriesForVector := [];
      queryIndices := [];
      var i := 0;
      while i < |queries|
        invariant 0 <= i <= |queries|
        invariant results == Pick(all, Where(flags, i, true))
        invariant queryIndices == Where(flags, i, false)
        invariant queriesForVector == Pick(queries, queryIndices)
      {
        var hit := ExactMatch(queries[i], includeGroups);
        ExactStep(all, flags, queries, i);
        if hit.Some? {
          results := results + [QueryResult(Some(i), [hit.value])];
        } else {
          queriesForVector := queriesForVector + [queries[i]];
          queryIndices := queryIndices + [i];
        }
        i := i + 1;
      }
    }

    /** The second loop of `search`: one answer per query set aside, in the order set aside. */
    method VectorPass(queries: seq<string>, includeGroups: seq<string>, queriesForVector: seq<string>,
                      queryIndices: seq<nat>, filtered: seq<nat>, topK: nat, maxDistance: real, v: Vectors,
                      ghost all: seq<QueryResult>)
      returns (results: seq<QueryResult>)
      requires Valid() && InRange(filtered, |entities|) && InRange(queryIndices, |queries|)
      requires queriesForVector == Pick(queries, queryIndices)
      requires |all| == |queries|
      requires forall k :: 0 <= k < |queryIndices| ==> (all[queryIndices[k]] ==
        QueryResult(Some(queryIndices[k]), VectorMatches(entities, metadata, queries[queryIndices[k]], filtered, topK, maxDistance, v)))
      ensures results == Pick(all, queryIndices)
    {
      results := [];
      var q := 0;
      while q < |queryIndices|
        invariant 0 <= q <= |queryIndices|
        invariant results == Pick(all, queryIndices[..q])
      {
        var matches := VectorSearch(queriesForVector[q], filtered, topK, maxDistance, v);
        PrefixOfPrefix(queryIndices, q);
        PickSnoc(all, queryIndices[..q], queryIndices[q]);
        results := results + [QueryResult(Some(queryIndices[q]), matches)];
        q := q + 1;
      }
      assert queryIndices[..q] == queryIndices;
    }

    /** `search` once the filter is known: the exact pass, the vector pass, and the sort by id. */
    method SearchFiltered(queries: seq<string>, includeGroups: seq<string>, filtered: seq<nat>, topK: nat,
                          maxDistance: real, v: Vectors)
      returns (results: seq<QueryResult>)
      requires Valid() && InRange(filtered, |entities|)
      ensures results == Answers(entities, metadata, queries, includeGroups, filtered, topK, maxDistance, v)
    {
      ghost var all := Answers(entities, metadata, queries, includeGroups, filtered, topK, maxDistance, v);
      ghost var flags := ExactFlags(entities, metadata, queries, includeGroups);
      AnswersSpec(entities, metadata, queries, includeGroups, filtered, topK, maxDistance, v);
      var exact, queriesForVector, queryIndices := ExactPass(queries, includeGroups, all, flags);
      assert forall j :: 0 <= j < |all| ==> Key(all[j]) == j;
      if |queriesForVector| == 0 {
        ReassembleExact(all, flags, exact);
        return exact;
      }
      var vector := VectorPass(queries, includeGroups, queriesForVector, queryIndices, filtered, topK, maxDistance, v, all);
      Reassemble(all, flags, exact, vector);
      results := SortById(exact + vector);
    }

    /** `search(queries, include_groups, top_k, max_distance)`; a caller that omits the last two
        passes `DefaultTopK` and `DefaultMaxDistance`. */
    method Search(queries: seq<string>, includeGroups: seq<string>, topK: nat, maxDistance: real, v: Vectors)
      returns (results: seq<QueryResult>)
      requires Valid()
      ensures results == SearchResult(entities, metadata, queries, includeGroups, topK, maxDistance, v)
    {
      if |queries| == 0 || |entities| == 0 {
        return NoMatches(|queries|);
      }
      var filterIndices := FilterIndices(groupIndex, includeGroups);
      if filterIndices == {} {
        return NoMatches(|queries|);
      }
      var filtered := Ascending(filterIndices, |entities|);
      results := SearchFiltered(queries, includeGroups, filtered, topK, maxDistance, v);
    }
  }
}
