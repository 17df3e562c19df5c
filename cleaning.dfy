/** The query normalisation of `PipeLine._basic_clean`: lower-case, every character outside
    `[\w\s'-]` becomes a space, the ends are stripped, and runs of whitespace become one space. */
module Cleaning {
  import opened Text

  /** A character `_basic_clean` lets through. */
  predicate IsKept(c: char) {
    IsWordChar(c) || IsSpace(c) || c == '\'' || c == '-'
  }

  /** `re.sub(r"[^\w\s'-]", ' ', s)` */
  function ReplaceRejected(s: string): (r: string)
    ensures |r| == |s|
  {
    seq(|s|, i requires 0 <= i < |s| => if IsKept(s[i]) then s[i] else ' ')
  }

  /** The cleaned query `lq`. */
  function Clean(query: string): string {
    CollapseSpaces(Strip(ReplaceRejected(Lower(query))))
  }

  /** A character of a cleaned query. */
  predicate IsCleanChar(c: char) {
    (IsWordChar(c) || c == ' ' || c == '\'' || c == '-') && !IsUpper(c)
  }

  /** What the cleaned query looks like: lower-case, only word characters, spaces, `'` and `-`,
      no space at either end and never two spaces in a row. */
  predicate IsClean(s: string) {
    && (forall i :: 0 <= i < |s| ==> IsCleanChar(s[i]))
    && (s != [] ==> s[0] != ' ' && s[|s| - 1] != ' ')
    && (forall i :: 0 <= i < |s| - 1 ==> !(s[i] == ' ' && s[i + 1] == ' '))
  }

  /** Collapsing whitespace keeps the ends: the result is empty only for an empty input, and its
      first and last characters are spaces exactly when the input's were whitespace. */
  lemma {:induction false} CollapseEnds(s: string)
    ensures CollapseSpaces(s) == [] <==> s == []
    ensures CollapseSpaces(s) != [] ==>
      (CollapseSpaces(s)[0] == ' ' <==> IsSpace(s[0]))
      && (CollapseSpaces(s)[|CollapseSpaces(s)| - 1] == ' ' <==> IsSpace(s[|s| - 1]))
    decreases |s|
  {
    if s != [] {
      var t := if IsSpace(s[0]) then StripLeft(s) else s[1..];
      CollapseEnds(t);
      if IsSpace(s[0]) && t == [] {
        assert forall k :: 0 <= k < |s| ==> IsSpace(s[k]);
      } else if t != [] {
        assert t[|t| - 1] == s[|s| - 1];
      }
    }
  }

  /** Collapsing whitespace never leaves two spaces in a row. */
  lemma {:induction false} CollapseNoDoubleSpace(s: string)
    ensures forall i :: 0 <= i < |CollapseSpaces(s)| - 1 ==>
      !(CollapseSpaces(s)[i] == ' ' && CollapseSpaces(s)[i + 1] == ' ')
    decreases |s|
  {
    if s != [] {
      var t := if IsSpace(s[0]) then StripLeft(s) else s[1..];
      CollapseNoDoubleSpace(t);
      CollapseEnds(t);
      var r := CollapseSpaces(s);
      var rt := CollapseSpaces(t);
      assert r == [if IsSpace(s[0]) then ' ' else s[0]] + rt;
      forall i | 0 <= i < |r| - 1 ensures !(r[i] == ' ' && r[i + 1] == ' ') {
        if i > 0 {
          assert r[i] == rt[i - 1] && r[i + 1] == rt[i];
        }
      }
    }
  }

  /** Every character of the collapsed string is a plain space or a non-space of the input. */
  lemma {:induction false} CollapseChars(s: string)
    ensures forall i :: 0 <= i < |CollapseSpaces(s)| ==>
      CollapseSpaces(s)[i] == ' ' || (!IsSpace(CollapseSpaces(s)[i]) && CollapseSpaces(s)[i] in s)
    decreases |s|
  {
    if s != [] {
      var t := if IsSpace(s[0]) then StripLeft(s) else s[1..];
      CollapseChars(t);
      var r := CollapseSpaces(s);
      var rt := CollapseSpaces(t);
      assert r == [if IsSpace(s[0]) then ' ' else s[0]] + rt;
      assert forall c :: c in t ==> c in s;
      forall i | 0 <= i < |r| && r[i] != ' '
        ensures !IsSpace(r[i]) && r[i] in s
      {
        if i > 0 {
          assert r[i] == rt[i - 1];
        }
      }
    }
  }

  /** Every cleaned query is well formed. */
  lemma CleanIsClean(query: string)
    ensures IsClean(Clean(query))
  {
    var a := ReplaceRejected(Lower(query));
    assert forall i :: 0 <= i < |a| ==> IsSpace(a[i]) || IsCleanChar(a[i]);
    var b := Strip(a);
    assert forall c :: c in b ==> c in a;
    assert b == [] || (!IsSpace(b[0]) && !IsSpace(b[|b| - 1]));
    CollapseEnds(b);
    CollapseNoDoubleSpace(b);
    CollapseChars(b);
    var r := CollapseSpaces(b);
    forall i | 0 <= i < |r|
      ensures IsCleanChar(r[i])
    {
      if r[i] != ' ' {
        assert r[i] in a;
      }
    }
  }

  /** Collapsing does nothing to a string that is already collapsed. */
  lemma {:induction false} CollapseCollapsed(s: string)
    requires forall i :: 0 <= i < |s| ==> s[i] == ' ' || !IsSpace(s[i])
    requires forall i :: 0 <= i < |s| - 1 ==> !(s[i] == ' ' && s[i + 1] == ' ')
    ensures CollapseSpaces(s) == s
    decreases |s|
  {
    if s != [] {
      CollapseCollapsed(s[1..]);
      if IsSpace(s[0]) {
        assert StripLeft(s) == s[1..] by {
          assert s[1..] == [] || !IsSpace(s[1..][0]);
          assert StripLeft(s) == StripLeft(s[1..]);
        }
      }
      assert s == [s[0]] + s[1..];
    }
  }

  /** Cleaning is idempotent: a well-formed query is its own cleaned form. */
  lemma CleanFixesClean(s: string)
    requires IsClean(s)
    ensures Clean(s) == s
  {
    assert IsLower(s);
    LowerOfLower(s);
    assert forall i :: 0 <= i < |s| ==> IsKept(s[i]);
    assert ReplaceRejected(s) == s;
    assert forall i :: 0 <= i < |s| ==> s[i] == ' ' || !IsSpace(s[i]);
    assert s == [] || (!IsSpace(s[0]) && !IsSpace(s[|s| - 1]));
    assert StripLeft(s) == s;
    assert StripRight(s) == s;
    CollapseCollapsed(s);
  }

  lemma CleanIdempotent(query: string)
    ensures Clean(Clean(query)) == Clean(query)
  {
    CleanIsClean(query);
    CleanFixesClean(Clean(query));
  }
}
