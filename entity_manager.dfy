/** `EntityManager`: the alias index of business entities. Every entity is stored as one record
    per (group, alias) pair, keyed `group::canonical::alias`; syncing an entity first removes
    every record of its canonical name, then adds the fresh ones. */
module EntityIndex {
  import opened Wrappers
  import opened Text
  import opened Dicts
  import opened Seqs

  // ---------------------------------------------------------------------------
  // Metadata values and `_clean_metadata`

  /** A Python value as it can appear in entity metadata. A float is held by its printed form. */
  datatype Value =
    | NoneValue
    | StrValue(s: string)
    | IntValue(i: int)
    | FloatValue(text: string)
    | BoolValue(b: bool)
    | ListValue(items: seq<Value>)
    | OtherValue(text: string)

  /** The values the index store accepts: `str`, `int`, `float`, `bool`. */
  predicate IsScalar(v: Value) {
    v.StrValue? || v.IntValue? || v.FloatValue? || v.BoolValue?
  }

  function DigitChar(d: nat): char
    requires d < 10
  {
    ('0' as int + d) as char
  }

  function NatToString(n: nat): (r: string)
    ensures r != []
  {
    if n < 10 then [DigitChar(n)] else NatToString(n / 10) + [DigitChar(n % 10)]
  }

  /** `str(v)`. */
  function Show(v: Value): string
    decreases v, 1
  {
    match v
    case NoneValue => "None"
    case StrValue(s) => s
    case IntValue(i) => if i < 0 then "-" + NatToString(-i) else NatToString(i)
    case FloatValue(t) => t
    case BoolValue(b) => if b then "True" else "False"
    case ListValue(items) => "[" + Join(", ", Reprs(v, items)) + "]"
    case OtherValue(t) => t
  }

  /** `repr` of the items of the list `v`, as `str` of a list shows them. */
  function Reprs(v: Value, items: seq<Value>): seq<string>
    requires v.ListValue? && items == v.items
    decreases v, 0
  {
    seq(|items|, k requires 0 <= k < |items| => Repr(items[k]))
  }

  /** `repr(v)`: a string is quoted and escaped; every other value shows as `str` does. */
  function Repr(v: Value): string
    decreases v, 2
  {
    if v.StrValue? then StrRepr(v.s) else Show(v)
  }

  // ---------------------------------------------------------------------------
  // `repr` of a string

  /** The quote `repr` uses: a double quote when the string holds a single quote and no double
      quote, else a single quote. */
  function ReprQuote(s: string): char {
    if '\'' in s && '"' !in s then '"' else '\''
  }

  function HexDigit(d: nat): char
    requires d < 16
  {
    if d < 10 then ('0' as int + d) as char else ('a' as int + d - 10) as char
  }

  /** One character inside quotes `q`: the quote and the backslash get a backslash, tab, newline
      and carriage return their letter escapes, other control characters `\xhh`. */
  function EscapeChar(c: char, q: char): string {
    if c == q || c == '\\' then ['\\', c]
    else if c == '\t' then ['\\', 't']
    else if c == '\n' then ['\\', 'n']
    else if c == '\r' then ['\\', 'r']
    else if c < ' ' || c as int == 127 then ['\\', 'x', HexDigit(c as int / 16), HexDigit(c as int % 16)]
    else [c]
  }

  function Escaped(s: string, q: char): string {
    if s == [] then [] else EscapeChar(s[0], q) + Escaped(s[1..], q)
  }

  /** `repr(s)` for a `str`. */
  function StrRepr(s: string): string {
    var q := ReprQuote(s);
    [q] + Escaped(s, q) + [q]
  }

  /** The value of a lower-case hexadecimal digit. */
  function HexValue(c: char): Option<nat> {
    if '0' <= c <= '9' then Some(c as int - '0' as int)
    else if 'a' <= c <= 'f' then Some(c as int - 'a' as int + 10)
    else None
  }

  function Cons(c: char, rest: Option<string>): Option<string> {
    match rest
    case None => None
    case Some(r) => Some([c] + r)
  }

  /** Reading a string literal's body back, as Python's parser does for the escapes `repr`
      writes; `None` for a body that is not one. */
  function Unescape(t: string, q: char): Option<string>
    decreases |t|
  {
    if t == [] then Some([])
    else if t[0] == '\\' then
      if |t| < 2 then None
      else if t[1] == q || t[1] == '\\' then Cons(t[1], Unescape(t[2..], q))
      else if t[1] == 't' then Cons('\t', Unescape(t[2..], q))
      else if t[1] == 'n' then Cons('\n', Unescape(t[2..], q))
      else if t[1] == 'r' then Cons('\r', Unescape(t[2..], q))
      else if t[1] == 'x' && |t| >= 4 && HexValue(t[2]).Some? && HexValue(t[3]).Some? then
        Cons((HexValue(t[2]).value * 16 + HexValue(t[3]).value) as char, Unescape(t[4..], q))
      else None
    else if t[0] == q then None
    else Cons(t[0], Unescape(t[1..], q))
  }

  lemma HexRoundTrip(d: nat)
    requires d < 16
    ensures HexValue(HexDigit(d)) == Some(d)
  {
  }

  /** One escaped character is read back as that character. */
  lemma UnescapeChar(c: char, q: char, rest: string)
    requires q == '\'' || q == '"'
    ensures Unescape(EscapeChar(c, q) + rest, q) == Cons(c, Unescape(rest, q))
  {
    var t := EscapeChar(c, q) + rest;
    if c == q || c == '\\' {
      assert t[2..] == rest;
    } else if c == '\t' || c == '\n' || c == '\r' {
      assert t[2..] == rest;
    } else if c < ' ' || c as int == 127 {
      var n := c as int;
      HexRoundTrip(n / 16);
      HexRoundTrip(n % 16);
      assert t[1] == 'x' && t[2] == HexDigit(n / 16) && t[3] == HexDigit(n % 16);
      assert (n / 16) * 16 + n % 16 == n;
      assert t[4..] == rest;
    } else {
      assert t[1..] == rest;
    }
  }

  /** Escaping then reading back gives the string again. */
  lemma {:induction false} UnescapeEscaped(s: string, q: char)
    requires q == '\'' || q == '"'
    ensures Unescape(Escaped(s, q), q) == Some(s)
  {
    if s != [] {
      UnescapeEscaped(s[1..], q);
      UnescapeChar(s[0], q, Escaped(s[1..], q));
      assert [s[0]] + s[1..] == s;
    }
  }

  /** `repr(s)` is a literal `eval` reads back as `s`: it opens and closes with the chosen quote,
      a double quote exactly when `s` holds a single quote and no double quote. */
  lemma StrReprSpec(s: string)
    ensures var r := StrRepr(s);
      && |r| >= 2 && r[0] == r[|r| - 1] == ReprQuote(s)
      && (ReprQuote(s) == '"' <==> '\'' in s && '"' !in s)
      && Unescape(r[1..|r| - 1], ReprQuote(s)) == Some(s)
  {
    var q := ReprQuote(s);
    var r := StrRepr(s);
    assert r[1..|r| - 1] == Escaped(s, q);
    UnescapeEscaped(s, q);
  }

  /** A string with a single quote and no double quote is shown in double quotes. */
  lemma ReprOfApostrophe()
    ensures StrRepr("it's") == "\"it's\""
  {
    assert "it's"[2] == '\'';
    assert ReprQuote("it's") == '"';
    assert Escaped("s", '"') == "s";
    assert Escaped("'s", '"') == "'s";
    assert Escaped("t's", '"') == "t's";
    assert Escaped("it's", '"') == "it's";
  }

  /** A backslash is shown doubled. */
  lemma ReprOfBackslash()
    ensures StrRepr("a\\b") == "'a\\\\b'"
  {
    assert ReprQuote("a\\b") == '\'';
    assert Escaped("b", '\'') == "b";
    assert Escaped("\\b", '\'') == "\\\\b";
    assert Escaped("a\\b", '\'') == "a\\\\b";
  }

  /** `str([x])` is `repr(x)` in brackets. */
  lemma ShowSingleton(x: Value)
    ensures Show(ListValue([x])) == "[" + Repr(x) + "]"
  {
    var v := ListValue([x]);
    assert Reprs(v, v.items) == [Repr(x)];
  }

  /** A one-item list that is not `[None]` is stored as `str` of the item. */
  lemma CleanSingleton(x: Value)
    requires x != NoneValue
    ensures CleanValue(ListValue([x])) == StrValue(Show(x))
  {
    assert ShowPresent([x]) == [Show(x)] + ShowPresent([]);
  }

  /** A list nested in list metadata shows its strings as `repr` does: the list `[["it's"]]` is
      stored as the text `["it's"]`. */
  lemma NestedListShown()
    ensures CleanValue(ListValue([ListValue([StrValue("it's")])])) == StrValue("[\"it's\"]")
  {
    ReprOfApostrophe();
    ShowSingleton(StrValue("it's"));
    CleanSingleton(ListValue([StrValue("it's")]));
  }

  /** `str` of every item that is not `None`. */
  function ShowPresent(items: seq<Value>): seq<string> {
    if items == [] then []
    else (if items[0] == NoneValue then [] else [Show(items[0])]) + ShowPresent(items[1..])
  }

  /** What `_clean_metadata` stores for one value. */
  function CleanValue(v: Value): Value {
    match v
    case NoneValue => StrValue("")
    case ListValue(items) => StrValue(Join(",", ShowPresent(items)))
    case OtherValue(t) => StrValue(t)
    case _ => v
  }

  /** The cleaned metadata: the same keys in the same order, each value cleaned. */
  function CleanedMetadata(md: Dict<Value>): Dict<Value> {
    Dict(md.keys, map k | k in md.values :: CleanValue(md.values[k]))
  }

  /** Every cleaned value is one the store accepts; scalars are kept and `None` becomes `""`. */
  lemma CleanValueSpec(v: Value)
    ensures IsScalar(CleanValue(v))
    ensures IsScalar(v) ==> CleanValue(v) == v
    ensures v == NoneValue ==> CleanValue(v) == StrValue("")
  {
  }

  /** A list of strings is stored comma-joined. */
  lemma {:induction false} ShowPresentStrings(items: seq<Value>)
    requires forall k :: 0 <= k < |items| ==> items[k].StrValue?
    ensures ShowPresent(items) == seq(|items|, k requires 0 <= k < |items| => items[k].s)
  {
    if items != [] {
      ShowPresentStrings(items[1..]);
    }
  }

  /** Cleaning keeps the keys, leaves no `None` and no list, and cleaning again changes nothing. */
  lemma CleanedMetadataSpec(md: Dict<Value>)
    requires Valid(md)
    ensures Valid(CleanedMetadata(md)) && CleanedMetadata(md).keys == md.keys
    ensures forall k :: k in CleanedMetadata(md).values ==> IsScalar(CleanedMetadata(md).values[k])
    ensures CleanedMetadata(CleanedMetadata(md)) == CleanedMetadata(md)
  {
    var c := CleanedMetadata(md);
    forall k | k in c.values
      ensures IsScalar(c.values[k]) && CleanValue(c.values[k]) == c.values[k]
    {
      CleanValueSpec(md.values[k]);
    }
  }

  /** The branches of `_clean_metadata` for one value. */
  method CleanOne(value: Value) returns (v: Value)
    ensures v == CleanValue(value)
  {
    if value == NoneValue {
      v := StrValue("");
    } else if IsScalar(value) {
      v := value;
    } else if value.ListValue? {
      v := StrValue(Join(",", ShowPresent(value.items)));
    } else {
      v := StrValue(Show(value));
    }
  }

  /** The cleaned values of the first `i` keys. */
  ghost function CleanedUpTo(md: Dict<Value>, i: nat): map<string, Value>
    requires Valid(md) && i <= |md.keys|
  {
    map k | k in md.keys[..i] :: CleanValue(md.values[k])
  }

  /** What the loop of `_clean_metadata` has built after the first `i` keys. */
  ghost predicate CleanedPrefix(md: Dict<Value>, cleaned: Dict<Value>, i: nat)
    requires Valid(md) && i <= |md.keys|
  {
    Valid(cleaned) && cleaned.keys == md.keys[..i] && cleaned.values == CleanedUpTo(md, i)
  }

  /** One pass of the loop: the value of key `i`, cleaned, stored under its key. */
  method CleanKey(md: Dict<Value>, cleaned: Dict<Value>, i: nat) returns (r: Dict<Value>)
    requires Valid(md) && i < |md.keys| && CleanedPrefix(md, cleaned, i)
    ensures CleanedPrefix(md, r, i + 1)
  {
    var key := md.keys[i];
    var v := CleanOne(md.values[key]);
    CleanedUpToNext(md, i);
    r := Put(cleaned, key, v);
  }

  /** The next key is new to the prefix, and its cleaned value is what the prefix gains. */
  lemma CleanedUpToNext(md: Dict<Value>, i: nat)
    requires Valid(md) && i < |md.keys|
    ensures md.keys[i] !in md.keys[..i] && md.keys[..i + 1] == md.keys[..i] + [md.keys[i]]
    ensures CleanedUpTo(md, i + 1) == CleanedUpTo(md, i)[md.keys[i] := CleanValue(md.values[md.keys[i]])]
  {
    PrefixOfPrefix(md.keys, i);
  }

  /** `_clean_metadata`: the loop over the items. */
  method CleanMetadata(md: Dict<Value>) returns (cleaned: Dict<Value>)
    requires Valid(md)
    ensures cleaned == CleanedMetadata(md)
  {
    cleaned := Empty();
    var i := 0;
    assert CleanedUpTo(md, 0) == map[];
    while i < |md.keys|
      invariant 0 <= i <= |md.keys|
      invariant CleanedPrefix(md, cleaned, i)
    {
      cleaned := CleanKey(md, cleaned, i);
      i := i + 1;
    }
    assert md.keys[..i] == md.keys;
  }

  // ---------------------------------------------------------------------------
  // `_prepare_entity_data`

  /** A group entry: a dict, read through `entity_group`, or anything else, read through `str`. */
  datatype Group = GroupDict(fields: map<string, string>) | GroupOther(text: string)

  /** The entity fields the manager reads; a missing field has its default here. */
  datatype Entity = Entity(canonicalName: string, aliases: string, groups: seq<Group>,
                           docType: Value, relatedDoctypes: seq<string>)

  /** What `_prepare_entity_data` returns. */
  datatype Prepared = Prepared(canon: string, aliases: seq<string>, groups: seq<string>)

  /** The stripped, non-empty parts of a comma-separated list. */
  function StrippedParts(parts: seq<string>): seq<string> {
    if parts == [] then []
    else (if Strip(parts[0]) != "" then [Strip(parts[0])] else []) + StrippedParts(parts[1..])
  }

  function RawAliases(raw: string): seq<string> {
    if raw == "" then [] else StrippedParts(SplitOn(raw, ','))
  }

  function LowerAll(xs: seq<string>): (r: seq<string>)
    ensures |r| == |xs| && forall k :: 0 <= k < |xs| ==> r[k] == Lower(xs[k])
  {
    seq(|xs|, k requires 0 <= k < |xs| => Lower(xs[k]))
  }

  /** The aliases with the lower-cased canonical name appended unless some alias already
      equals it ignoring case. */
  function Aliases(raw: string, canon: string): seq<string> {
    var aliases := RawAliases(raw);
    if Lower(canon) in LowerAll(aliases) then aliases else aliases + [Lower(canon)]
  }

  function GroupName(g: Group): string {
    match g
    case GroupDict(fields) => if "entity_group" in fields then fields["entity_group"] else ""
    case GroupOther(text) => text
  }

  /** The non-empty group names, in order. */
  function GroupNamesUpTo(gs: seq<Group>, n: nat): seq<string>
    requires n <= |gs|
  {
    if n == 0 then []
    else GroupNamesUpTo(gs, n - 1) + (if GroupName(gs[n - 1]) != "" then [GroupName(gs[n - 1])] else [])
  }

  /** The group names, or `["Default"]` when there are none. */
  function GroupNames(gs: seq<Group>): seq<string> {
    var names := GroupNamesUpTo(gs, |gs|);
    if names == [] then ["Default"] else names
  }

  function Prepare(e: Entity): Option<Prepared> {
    if e.canonicalName == "" then None
    else Some(Prepared(e.canonicalName, Aliases(e.aliases, e.canonicalName), GroupNames(e.groups)))
  }

  /** Non-empty, and neither starting nor ending with whitespace. */
  predicate Trimmed(a: string) {
    a != "" && !IsSpace(a[0]) && !IsSpace(a[|a| - 1])
  }

  /** A stripped string that is not empty starts and ends with a non-space. */
  lemma StripEnds(p: string)
    requires Strip(p) != ""
    ensures Trimmed(Strip(p))
  {
    var s := StripLeft(p);
    assert StripRight(s)[0] == s[0];
  }

  /** Every stripped part is non-empty and has no surrounding whitespace. */
  lemma {:induction false} StrippedPartsTrimmed(parts: seq<string>)
    ensures forall a :: a in StrippedParts(parts) ==> Trimmed(a)
  {
    if parts != [] {
      StrippedPartsTrimmed(parts[1..]);
      if Strip(parts[0]) != "" {
        StripEnds(parts[0]);
      }
    }
  }

  /** Every stripped part is some part, stripped. */
  lemma {:induction false} StrippedPartsFrom(parts: seq<string>)
    ensures forall a :: a in StrippedParts(parts) ==> exists p :: p in parts && Strip(p) == a
  {
    if parts != [] {
      var rest := StrippedParts(parts[1..]);
      StrippedPartsFrom(parts[1..]);
      forall a | a in StrippedParts(parts)
        ensures exists p :: p in parts && Strip(p) == a
      {
        if a in rest {
          var p :| p in parts[1..] && Strip(p) == a;
          assert p in parts;
        } else {
          assert Strip(parts[0]) == a && parts[0] in parts;
        }
      }
    }
  }

  /** The aliases always hold the canonical name, ignoring case; it is appended exactly when
      no alias matched it; no alias is empty. */
  lemma AliasesSpec(raw: string, canon: string)
    requires canon != ""
    ensures exists a :: a in Aliases(raw, canon) && Lower(a) == Lower(canon)
    ensures Aliases(raw, canon) == RawAliases(raw) + [Lower(canon)] <==>
      forall a :: a in RawAliases(raw) ==> Lower(a) != Lower(canon)
    ensures forall a :: a in Aliases(raw, canon) ==> a != ""
  {
    AliasesHoldCanonical(raw, canon);
    AliasesAppended(raw, canon);
    AliasesNonEmpty(raw, canon);
  }

  /** Some alias equals the canonical name, ignoring case. */
  lemma AliasesHoldCanonical(raw: string, canon: string)
    ensures exists a :: a in Aliases(raw, canon) && Lower(a) == Lower(canon)
  {
    var aliases := RawAliases(raw);
    if Lower(canon) in LowerAll(aliases) {
      var k :| 0 <= k < |aliases| && LowerAll(aliases)[k] == Lower(canon);
      assert aliases[k] in Aliases(raw, canon) && Lower(aliases[k]) == Lower(canon);
    } else {
      LowerOfLower(canon);
      assert Lower(canon) in Aliases(raw, canon);
    }
  }

  /** The lower-cased canonical name is appended exactly when no alias matches it. */
  lemma AliasesAppended(raw: string, canon: string)
    ensures Aliases(raw, canon) == RawAliases(raw) + [Lower(canon)] <==>
      forall a :: a in RawAliases(raw) ==> Lower(a) != Lower(canon)
  {
    var aliases := RawAliases(raw);
    if Lower(canon) in LowerAll(aliases) {
      var k :| 0 <= k < |aliases| && LowerAll(aliases)[k] == Lower(canon);
      assert aliases[k] in aliases && Lower(aliases[k]) == Lower(canon);
      assert |Aliases(raw, canon)| != |aliases + [Lower(canon)]|;
    } else {
      forall a | a in aliases ensures Lower(a) != Lower(canon) {
        var k :| 0 <= k < |aliases| && aliases[k] == a;
        assert LowerAll(aliases)[k] == Lower(a);
      }
    }
  }

  /** No alias is empty. */
  lemma AliasesNonEmpty(raw: string, canon: string)
    requires canon != ""
    ensures forall a :: a in Aliases(raw, canon) ==> a != ""
  {
    if raw != "" {
      StrippedPartsTrimmed(SplitOn(raw, ','));
    }
    assert |Lower(canon)| == |canon|;
  }


  /** Lower-casing twice is lower-casing once. */
  lemma LowerOfLower(s: string)
    ensures Lower(Lower(s)) == Lower(s)
  {
  }

  /** The group names are never empty and none of them is the empty string. */
  lemma {:induction false} GroupNamesSpec(gs: seq<Group>)
    ensures GroupNames(gs) != []
    ensures forall g :: g in GroupNames(gs) ==> g != ""
    ensures GroupNamesUpTo(gs, |gs|) != [] ==> GroupNames(gs) == GroupNamesUpTo(gs, |gs|)
  {
    GroupNamesUpToSpec(gs, |gs|);
  }

  lemma {:induction false} GroupNamesUpToSpec(gs: seq<Group>, n: nat)
    requires n <= |gs|
    ensures forall g :: g in GroupNamesUpTo(gs, n) <==> g != "" && exists k :: 0 <= k < n && GroupName(gs[k]) == g
  {
    if n > 0 {
      GroupNamesUpToSpec(gs, n - 1);
    }
  }

  /** `_prepare_entity_data`; `None` stands for the `ValueError` on a missing canonical name. */
  method PrepareEntityData(e: Entity) returns (r: Option<Prepared>)
    ensures r == Prepare(e)
  {
    var canon := e.canonicalName;
    if canon == "" {
      return None;
    }
    var aliases := RawAliases(e.aliases);
    var canonicalLower := Lower(canon);
    if canonicalLower !in LowerAll(aliases) {
      aliases := aliases + [canonicalLower];
    }
    var groupNames: seq<string> := [];
    var i := 0;
    while i < |e.groups|
      invariant 0 <= i <= |e.groups|
      invariant groupNames == GroupNamesUpTo(e.groups, i)
    {
      var groupName := GroupName(e.groups[i]);
      if groupName != "" {
        groupNames := groupNames + [groupName];
      }
      i := i + 1;
    }
    if groupNames == [] {
      groupNames := ["Default"];
    }
    return Some(Prepared(canon, aliases, groupNames));
  }

  // ---------------------------------------------------------------------------
  // The collection, `sync_entity` and `delete_entity`

  /** A stored record: the alias document, its metadata and its embedding. */
  datatype Record = Record(document: string, metadata: Dict<Value>, embedding: seq<real>)

  /** One record to add, before it is embedded. */
  datatype Entry = Entry(id: string, document: string, metadata: Dict<Value>)

  /** The record belongs to the canonical name `canon` (`where={"canonical": canon}`). */
  predicate OfCanonical(r: Record, canon: string) {
    "canonical" in r.metadata.values && r.metadata.values["canonical"] == StrValue(canon)
  }

  /** The ids a `get(where={"canonical": canon})` returns. */
  function Stale(coll: map<string, Record>, canon: string): set<string> {
    set id | id in coll && OfCanonical(coll[id], canon)
  }

  /** The collection without the records of `canon`. */
  function Without(coll: map<string, Record>, canon: string): map<string, Record> {
    coll - Stale(coll, canon)
  }

  function EntryId(group: string, canon: string, alias: string): string {
    group + "::" + canon + "::" + alias
  }

  function RawMetadata(canon: string, alias: string, group: string, e: Entity): Dict<Value> {
    Dict(["canonical", "alias", "entity_group", "doc_type", "related_doctypes"],
         map["canonical" := StrValue(canon), "alias" := StrValue(alias), "entity_group" := StrValue(group),
             "doc_type" := e.docType, "related_doctypes" := StrValue(Join(",", e.relatedDoctypes))])
  }

  function EntryFor(canon: string, alias: string, group: string, e: Entity): Entry {
    Entry(EntryId(group, canon, alias), alias, CleanedMetadata(RawMetadata(canon, alias, group, e)))
  }

  /** The (group, alias) pairs of the first `n` aliases under one group. */
  function GroupPairs(group: string, aliases: seq<string>, n: nat): seq<(string, string)>
    requires n <= |aliases|
  {
    if n == 0 then [] else GroupPairs(group, aliases, n - 1) + [(group, aliases[n - 1])]
  }

  /** The pairs of the first `n` groups, group by group. */
  function PairsUpTo(groups: seq<string>, aliases: seq<string>, n: nat): seq<(string, string)>
    requires n <= |groups|
  {
    if n == 0 then [] else PairsUpTo(groups, aliases, n - 1) + GroupPairs(groups[n - 1], aliases, |aliases|)
  }

  /** The entry of each pair, in order. */
  function EntriesOf(canon: string, e: Entity, pairs: seq<(string, string)>): (r: seq<Entry>)
    ensures |r| == |pairs|
  {
    seq(|pairs|, k requires 0 <= k < |pairs| => EntryFor(canon, pairs[k].1, pairs[k].0, e))
  }

  /** The records `sync_entity` adds, one per (group, alias) pair, group-major. */
  function Entries(p: Prepared, e: Entity): seq<Entry> {
    EntriesOf(p.canon, e, PairsUpTo(p.groups, p.aliases, |p.groups|))
  }

  lemma EntriesOfSnoc(canon: string, e: Entity, pairs: seq<(string, string)>, x: (string, string))
    ensures EntriesOf(canon, e, pairs + [x]) == EntriesOf(canon, e, pairs) + [EntryFor(canon, x.1, x.0, e)]
  {
  }

  lemma {:induction false} GroupPairsSpec(group: string, aliases: seq<string>, n: nat)
    requires n <= |aliases|
    ensures |GroupPairs(group, aliases, n)| == n
    ensures forall a :: 0 <= a < n ==> GroupPairs(group, aliases, n)[a] == (group, aliases[a])
  {
    if n > 0 {
      GroupPairsSpec(group, aliases, n - 1);
    }
  }

  /** Row `g`, column `a` of an `n` by `m` grid lies inside it, after the first `g` rows. */
  lemma RowIndex(g: nat, a: nat, n: nat, m: nat)
    requires g < n && a < m
    ensures g * m <= g * m + a < n * m
    ensures g < n - 1 ==> g * m + a < (n - 1) * m
  {
    assert (g + 1) * m == g * m + m;
    assert (g + 1) * m <= n * m;
    if g < n - 1 {
      assert (g + 1) * m <= (n - 1) * m;
    }
  }

  lemma LastRow(n: nat, m: nat)
    requires n > 0
    ensures n * m == (n - 1) * m + m
  {
  }

  /** There is one pair per group and alias. */
  lemma {:induction false} PairsLength(groups: seq<string>, aliases: seq<string>, n: nat)
    requires n <= |groups|
    ensures |PairsUpTo(groups, aliases, n)| == n * |aliases|
  {
    if n > 0 {
      PairsLength(groups, aliases, n - 1);
      GroupPairsSpec(groups[n - 1], aliases, |aliases|);
      LastRow(n, |aliases|);
    }
  }

  /** Pair `g * |aliases| + a` is alias `a` under group `g`. */
  lemma {:induction false} PairAt(groups: seq<string>, aliases: seq<string>, n: nat, g: nat, a: nat)
    requires n <= |groups| && g < n && a < |aliases|
    ensures g * |aliases| + a < |PairsUpTo(groups, aliases, n)|
    ensures PairsUpTo(groups, aliases, n)[g * |aliases| + a] == (groups[g], aliases[a])
  {
    var m := |aliases|;
    var prev := PairsUpTo(groups, aliases, n - 1);
    var last := GroupPairs(groups[n - 1], aliases, m);
    PairsLength(groups, aliases, n - 1);
    PairsLength(groups, aliases, n);
    GroupPairsSpec(groups[n - 1], aliases, m);
    RowIndex(g, a, n, m);
    var idx := g * m + a;
    if g < n - 1 {
      PairAt(groups, aliases, n - 1, g, a);
      assert (prev + last)[idx] == prev[idx];
    } else {
      assert idx - |prev| == a;
      assert (prev + last)[idx] == last[a];
    }
  }

  /** One entry per (group, alias) pair, group-major: entry `g * |aliases| + a` is alias `a`
      under group `g`, with id `group::canonical::alias`. */
  lemma EntriesSpec(p: Prepared, e: Entity)
    ensures |Entries(p, e)| == |p.groups| * |p.aliases|
    ensures forall g, a :: 0 <= g < |p.groups| && 0 <= a < |p.aliases| ==>
      Entries(p, e)[g * |p.aliases| + a] == EntryFor(p.canon, p.aliases[a], p.groups[g], e)
  {
    PairsLength(p.groups, p.aliases, |p.groups|);
    forall g, a | 0 <= g < |p.groups| && 0 <= a < |p.aliases|
      ensures g * |p.aliases| + a < |Entries(p, e)|
        && Entries(p, e)[g * |p.aliases| + a] == EntryFor(p.canon, p.aliases[a], p.groups[g], e)
    {
      EntryAt(p, e, g, a);
    }
  }

  /** The entry of alias `a` under group `g`. */
  lemma EntryAt(p: Prepared, e: Entity, g: nat, a: nat)
    requires g < |p.groups| && a < |p.aliases|
    ensures g * |p.aliases| + a < |Entries(p, e)|
    ensures Entries(p, e)[g * |p.aliases| + a] == EntryFor(p.canon, p.aliases[a], p.groups[g], e)
  {
    var pairs := PairsUpTo(p.groups, p.aliases, |p.groups|);
    var idx := g * |p.aliases| + a;
    PairAt(p.groups, p.aliases, |p.groups|, g, a);
    assert pairs[idx] == (p.groups[g], p.aliases[a]);
    assert EntriesOf(p.canon, e, pairs)[idx] == EntryFor(p.canon, pairs[idx].1, pairs[idx].0, e);
  }

  /** An entry's metadata carries its canonical name. */
  lemma EntryForCanonical(canon: string, alias: string, group: string, e: Entity)
    ensures var md := EntryFor(canon, alias, group, e).metadata;
      "canonical" in md.values && md.values["canonical"] == StrValue(canon)
  {
    var raw := RawMetadata(canon, alias, group, e);
    assert "canonical" in raw.values && raw.values["canonical"] == StrValue(canon);
  }

  /** Every entry carries the canonical name in its metadata. */
  lemma EntriesOfCanonical(p: Prepared, e: Entity)
    ensures forall x :: x in Entries(p, e) ==>
      "canonical" in x.metadata.values && x.metadata.values["canonical"] == StrValue(p.canon)
  {
    var pairs := PairsUpTo(p.groups, p.aliases, |p.groups|);
    forall x | x in Entries(p, e)
      ensures "canonical" in x.metadata.values && x.metadata.values["canonical"] == StrValue(p.canon)
    {
      var k :| 0 <= k < |pairs| && Entries(p, e)[k] == x;
      EntryForCanonical(p.canon, pairs[k].1, pairs[k].0, e);
    }
  }

  /** The nested loops of `sync_entity` that build `docs`, `ids` and `metadatas`. */
  method BuildEntries(p: Prepared, e: Entity) returns (entries: seq<Entry>)
    ensures entries == Entries(p, e)
  {
    entries := [];
    var g := 0;
    while g < |p.groups|
      invariant 0 <= g <= |p.groups|
      invariant entries == EntriesOf(p.canon, e, PairsUpTo(p.groups, p.aliases, g))
    {
      var group := p.groups[g];
      var a := 0;
      while a < |p.aliases|
        invariant 0 <= a <= |p.aliases|
        invariant entries == EntriesOf(p.canon, e, PairsUpTo(p.groups, p.aliases, g) + GroupPairs(group, p.aliases, a))
      {
        var alias := p.aliases[a];
        var raw := RawMetadata(p.canon, alias, group, e);
        var clean := CleanMetadata(raw);
        ghost var before := PairsUpTo(p.groups, p.aliases, g) + GroupPairs(group, p.aliases, a);
        EntriesOfSnoc(p.canon, e, before, (group, alias));
        AppendAssoc(PairsUpTo(p.groups, p.aliases, g), GroupPairs(group, p.aliases, a), [(group, alias)]);
        entries := entries + [Entry(EntryId(group, p.canon, alias), alias, clean)];
        a := a + 1;
      }
      g := g + 1;
    }
  }

  function Documents(entries: seq<Entry>): (r: seq<string>)
    ensures |r| == |entries|
  {
    seq(|entries|, k requires 0 <= k < |entries| => entries[k].document)
  }

  /** No two entries share an id: the store rejects a batch that repeats one. */
  predicate DistinctIds(entries: seq<Entry>) {
    forall i, j :: 0 <= i < j < |entries| ==> entries[i].id != entries[j].id
  }

  /** An alias listed twice gives two entries with the same id under the first group, so the
      batch cannot be added. */
  lemma RepeatedAliasRepeatsId(p: Prepared, e: Entity, a1: nat, a2: nat)
    requires |p.groups| > 0 && a1 < a2 < |p.aliases| && p.aliases[a1] == p.aliases[a2]
    ensures !DistinctIds(Entries(p, e))
  {
    EntryAt(p, e, 0, a1);
    EntryAt(p, e, 0, a2);
    assert Entries(p, e)[a1].id == Entries(p, e)[a2].id;
  }

  /** `collection.add` of a batch with distinct ids: each entry is written under its id. */
  function AddAll(coll: map<string, Record>, entries: seq<Entry>, embeddings: seq<seq<real>>, n: nat)
    : map<string, Record>
    requires n <= |entries| && |embeddings| == |entries|
  {
    if n == 0 then coll
    else
      var x := entries[n - 1];
      AddAll(coll, entries, embeddings, n - 1)[x.id := Record(x.document, x.metadata, embeddings[n - 1])]
  }

  /** After the add, every entry's id is present; a record of `canon` is either one of the new
      entries or was there before; every other record is untouched unless an entry reused its id. */
  lemma {:induction false} AddAllSpec(coll: map<string, Record>, entries: seq<Entry>, embeddings: seq<seq<real>>,
                                      n: nat, canon: string)
    requires n <= |entries| && |embeddings| == |entries|
    requires forall x :: x in entries ==> "canonical" in x.metadata.values && x.metadata.values["canonical"] == StrValue(canon)
    ensures forall k :: 0 <= k < n ==> entries[k].id in AddAll(coll, entries, embeddings, n)
    ensures forall k :: 0 <= k < n ==> OfCanonical(AddAll(coll, entries, embeddings, n)[entries[k].id], canon)
    ensures forall id :: id in AddAll(coll, entries, embeddings, n) ==>
      (exists k :: 0 <= k < n && entries[k].id == id) || (id in coll && AddAll(coll, entries, embeddings, n)[id] == coll[id])
  {
    if n > 0 {
      AddAllSpec(coll, entries, embeddings, n - 1, canon);
      assert entries[n - 1] in entries;
    }
  }

  /** With distinct ids every entry's record is exactly the one the batch wrote. */
  lemma {:induction false} AddAllDistinct(coll: map<string, Record>, entries: seq<Entry>, embeddings: seq<seq<real>>,
                                          n: nat)
    requires n <= |entries| && |embeddings| == |entries| && DistinctIds(entries)
    ensures forall k :: 0 <= k < n ==>
      && entries[k].id in AddAll(coll, entries, embeddings, n)
      && AddAll(coll, entries, embeddings, n)[entries[k].id] == Record(entries[k].document, entries[k].metadata, embeddings[k])
  {
    if n > 0 {
      AddAllDistinct(coll, entries, embeddings, n - 1);
      forall k | 0 <= k < n - 1
        ensures entries[k].id != entries[n - 1].id
      {
      }
    }
  }

  /** Removing the records of `canon` leaves none of them, keeps every other record as it was,
      and a second removal changes nothing. */
  lemma WithoutSpec(coll: map<string, Record>, canon: string)
    ensures forall id :: id in Without(coll, canon) ==> !OfCanonical(Without(coll, canon)[id], canon)
    ensures forall id :: id in coll && !OfCanonical(coll[id], canon) ==>
      id in Without(coll, canon) && Without(coll, canon)[id] == coll[id]
    ensures Without(Without(coll, canon), canon) == Without(coll, canon)
    ensures Stale(coll, canon) == {} ==> Without(coll, canon) == coll
  {
  }

  /** How `sync_entity` ends: records added, the embedder failing (logged, no error), or an
      error raised to the caller. */
  datatype SyncOutcome = Synced | EmbedFailed | Raised

  class EntityManager {
    /** The `all_entities` collection. */
    var collection: map<string, Record>

    constructor (initial: map<string, Record>)
      ensures collection == initial
    {
      collection := initial;
    }

    /** `sync_entity`. `embed` is the sentence embedder (`None` when it fails). The store
        rejects a batch with a repeated id (an alias listed twice); `addFails` stands for any
        other failure of the add. */
    method SyncEntity(e: Entity, embed: seq<string> -> Option<seq<seq<real>>>, addFails: bool)
      returns (outcome: SyncOutcome)
      modifies this
      ensures Prepare(e) == None ==> outcome == Raised && collection == old(collection)
      ensures Prepare(e).Some? ==>
        var p := Prepare(e).value;
        var entries := Entries(p, e);
        var cleared := Without(old(collection), p.canon);
        match embed(Documents(entries))
        case None => outcome == EmbedFailed && collection == cleared
        case Some(es) =>
          if addFails || |es| != |entries| || !DistinctIds(entries) then outcome == Raised && collection == cleared
          else outcome == Synced && collection == AddAll(cleared, entries, es, |entries|)
    {
      var prepared := PrepareEntityData(e);
      if prepared == None {
        return Raised;
      }
      var p := prepared.value;
      collection := Without(collection, p.canon);
      // The aliases always hold the canonical name, so the `if aliases` branch is always taken.
      AliasesSpec(e.aliases, e.canonicalName);
      assert p.aliases != [];
      var entries := BuildEntries(p, e);
      var docs := Documents(entries);
      var embeddings := embed(docs);
      if embeddings == None {
        return EmbedFailed;
      }
      if addFails || |embeddings.value| != |entries| || !DistinctIds(entries) {
        return Raised;
      }
      collection := AddAll(collection, entries, embeddings.value, |entries|);
      return Synced;
    }

    /** `delete_entity`: with no canonical name nothing changes; otherwise every record of that
        name is removed. */
    method DeleteEntity(e: Entity)
      modifies this
      ensures e.canonicalName == "" ==> collection == old(collection)
      ensures e.canonicalName != "" ==> collection == Without(old(collection), e.canonicalName)
    {
      var canon := e.canonicalName;
      if canon == "" {
        return;
      }
      var stale := Stale(collection, canon);
      if stale != {} {
        collection := collection - stale;
      }
    }
  }

  /** After a successful sync the records of the canonical name are exactly the new entries:
      every entry is stored, and any record of that name has the id of some entry. */
  lemma SyncedRecords(old_: map<string, Record>, e: Entity, es: seq<seq<real>>)
    requires Prepare(e).Some? && |es| == |Entries(Prepare(e).value, e)|
    ensures var p := Prepare(e).value;
      var entries := Entries(p, e);
      var coll := AddAll(Without(old_, p.canon), entries, es, |entries|);
      && (forall k :: 0 <= k < |entries| ==> entries[k].id in coll && OfCanonical(coll[entries[k].id], p.canon))
      && (forall id :: id in coll && OfCanonical(coll[id], p.canon) ==> exists k :: 0 <= k < |entries| && entries[k].id == id)
      && (DistinctIds(entries) ==> forall k :: 0 <= k < |entries| ==>
            coll[entries[k].id] == Record(entries[k].document, entries[k].metadata, es[k]))
  {
    var p := Prepare(e).value;
    var entries := Entries(p, e);
    EntriesOfCanonical(p, e);
    WithoutSpec(old_, p.canon);
    AddAllSpec(Without(old_, p.canon), entries, es, |entries|, p.canon);
    if DistinctIds(entries) {
      AddAllDistinct(Without(old_, p.canon), entries, es, |entries|);
    }
  }

  /** A sync produces one record per (group, alias) pair: never fewer than one. */
  lemma SyncEntryCount(e: Entity)
    requires Prepare(e).Some?
    ensures |Entries(Prepare(e).value, e)| == |Prepare(e).value.groups| * |Prepare(e).value.aliases| >= 1
  {
    var p := Prepare(e).value;
    EntriesSpec(p, e);
    AliasesSpec(e.aliases, e.canonicalName);
    GroupNamesSpec(e.groups);
    RowIndex(0, 0, |p.groups|, |p.aliases|);
  }
}
