/**
 * String operations of JavaScript and Playwright that the test scripts rely on:
 * `String.prototype.trim`, `split` on a one-character separator, substring search,
 * and the case-insensitive substring match of a locator's `hasText` filter.
 */
module Text {

  /** ECMAScript's WhiteSpace and LineTerminator code points: what `trim()` removes and what `\s` matches. */
  predicate IsSpace(c: char) {
    || c == '\t' || c == '\n' || c == '\U{000B}' || c == '\U{000C}' || c == '\r' || c == ' '
    || c == '\U{00A0}' || c == '\U{1680}' || ('\U{2000}' <= c <= '\U{200A}')
    || c == '\U{2028}' || c == '\U{2029}' || c == '\U{202F}' || c == '\U{205F}'
    || c == '\U{3000}' || c == '\U{FEFF}'
  }

  predicate AllSpace(s: string) {
    forall i | 0 <= i < |s| :: IsSpace(s[i])
  }

  /** Neither end of `s` is white space: `trim()` leaves it as it is. */
  predicate Trimmed(s: string) {
    s == [] || (!IsSpace(s[0]) && !IsSpace(s[|s| - 1]))
  }

  /** `s` with its leading white space removed. */
  function TrimStart(s: string): (r: string)
    ensures |r| <= |s| && r == s[|s| - |r|..]
    ensures AllSpace(s[..|s| - |r|])
    ensures r == [] || !IsSpace(r[0])
  {
    if s != [] && IsSpace(s[0]) then TrimStart(s[1..]) else s
  }

  /** `s` with its trailing white space removed. */
  function TrimEnd(s: string): (r: string)
    ensures |r| <= |s| && r == s[..|r|]
    ensures AllSpace(s[|r|..])
    ensures r == [] || !IsSpace(r[|r| - 1])
  {
    if s != [] && IsSpace(s[|s| - 1]) then TrimEnd(s[..|s| - 1]) else s
  }

  /** JavaScript's `s.trim()`. */
  function Trim(s: string): (r: string)
    ensures Trimmed(r)
    ensures Trimmed(s) ==> r == s
    ensures r == [] <==> AllSpace(s)
  {
    var t := TrimStart(s);
    var r := TrimEnd(t);
    assert r != [] ==> !IsSpace(r[0]) by {
      if r != [] { assert r[0] == t[0]; }
    }
    assert r == [] ==> AllSpace(s) by {
      if r == [] {
        assert s == s[..|s| - |t|] + t;
        assert t == t[|r|..];
      }
    }
    r
  }

  /** Trimming `lead + s + trail` gives `s` when the padding is white space and `s` is already trimmed. */
  lemma {:induction false} TrimPadded(lead: string, s: string, trail: string)
    requires AllSpace(lead) && AllSpace(trail) && Trimmed(s) && s != []
    ensures Trim(lead + s + trail) == s
  {
    var rest := s + trail;
    assert lead + s + trail == lead + rest;
    assert rest[0] == s[0];
    TrimStartSpaces(lead, rest);
    TrimEndSpaces(s, trail);
  }

  lemma {:induction false} TrimStartSpaces(lead: string, rest: string)
    requires AllSpace(lead) && rest != [] && !IsSpace(rest[0])
    ensures TrimStart(lead + rest) == rest
  {
    if lead != [] {
      assert (lead + rest)[1..] == lead[1..] + rest;
      TrimStartSpaces(lead[1..], rest);
    }
  }

  lemma {:induction false} TrimEndSpaces(rest: string, trail: string)
    requires AllSpace(trail) && rest != [] && !IsSpace(rest[|rest| - 1])
    ensures TrimEnd(rest + trail) == rest
  {
    if trail != [] {
      var all := rest + trail;
      assert all[..|all| - 1] == rest + trail[..|trail| - 1];
      TrimEndSpaces(rest, trail[..|trail| - 1]);
    } else {
      assert rest + trail == rest;
    }
  }

  /** Fields joined back with the separator between them; the inverse of `Split`. */
  function Join(fields: seq<string>, sep: char): string {
    if |fields| <= 1 then (if fields == [] then [] else fields[0])
    else fields[0] + [sep] + Join(fields[1..], sep)
  }

  /** JavaScript's `s.split(sep)` for a one-character separator: the maximal runs between separators. */
  function Split(s: string, sep: char): (r: seq<string>)
    ensures |r| >= 1
  {
    if s == [] then [[]]
    else
      var rest := Split(s[1..], sep);
      if s[0] == sep then [[]] + rest
      else [[s[0]] + rest[0]] + rest[1..]
  }

  /** The fields hold no separator, join back to `s`, and there is one field exactly when `s` has no separator. */
  lemma {:induction false} SplitFields(s: string, sep: char)
    ensures var r := Split(s, sep);
            && (forall k | 0 <= k < |r| :: sep !in r[k])
            && Join(r, sep) == s
            && (|r| == 1 <==> sep !in s)
  {
    if s != [] {
      SplitFields(s[1..], sep);
      var rest := Split(s[1..], sep);
      var r := Split(s, sep);
      if s[0] == sep {
        assert r == [[]] + rest;
        assert r[1..] == rest;
        assert s == [sep] + s[1..];
      } else {
        assert r[1..] == rest[1..];
        assert s == [s[0]] + s[1..];
        if |rest| > 1 {
          assert rest == [rest[0]] + rest[1..];
        }
      }
    }
  }

  /** A field without the separator, followed by the separator, starts a new field. */
  lemma {:induction false} SplitAfterField(a: string, sep: char, rest: string)
    requires sep !in a
    ensures Split(a + [sep] + rest, sep) == [a] + Split(rest, sep)
  {
    if a == [] {
      assert [sep] + rest == a + [sep] + rest;
      assert ([sep] + rest)[1..] == rest;
    } else {
      var s := a + [sep] + rest;
      assert s[1..] == a[1..] + [sep] + rest;
      SplitAfterField(a[1..], sep, rest);
      assert [a[0]] + a[1..] == a;
    }
  }

  /** Splitting what `Join` built gives the fields back, when no field holds the separator. */
  lemma {:induction false} SplitJoin(fields: seq<string>, sep: char)
    requires |fields| >= 1
    requires forall k | 0 <= k < |fields| :: sep !in fields[k]
    ensures Split(Join(fields, sep), sep) == fields
  {
    if |fields| == 1 {
      var r := Split(fields[0], sep);
      SplitFields(fields[0], sep);
      assert |r| == 1;
      assert Join(r, sep) == r[0];
    } else {
      SplitJoin(fields[1..], sep);
      SplitAfterField(fields[0], sep, Join(fields[1..], sep));
      assert [fields[0]] + fields[1..] == fields;
    }
  }

  /** `p` occurs in `s` starting at position `i`. */
  predicate OccursAt(p: string, s: string, i: nat) {
    i + |p| <= |s| && s[i..i + |p|] == p
  }

  /** `s` begins with `p`. */
  predicate StartsWith(s: string, p: string) {
    p == [] || (s != [] && s[0] == p[0] && StartsWith(s[1..], p[1..]))
  }

  /** `p` is a substring of `s` (JavaScript's `s.includes(p)`). */
  predicate Contains(s: string, p: string) {
    StartsWith(s, p) || (s != [] && Contains(s[1..], p))
  }

  lemma {:induction false} StartsWithIffPrefix(s: string, p: string)
    ensures StartsWith(s, p) <==> |p| <= |s| && s[..|p|] == p
  {
    if p != [] && s != [] {
      StartsWithIffPrefix(s[1..], p[1..]);
      if |p| <= |s| {
        assert s[..|p|] == [s[0]] + s[1..][..|p| - 1];
        assert p == [p[0]] + p[1..];
      }
    }
  }

  /** `Contains` is the existence of an occurrence. */
  lemma {:induction false} ContainsIffOccurs(s: string, p: string)
    ensures Contains(s, p) <==> exists i: nat :: OccursAt(p, s, i)
    decreases |s|
  {
    StartsWithIffPrefix(s, p);
    assert StartsWith(s, p) <==> OccursAt(p, s, 0);
    if |s| > 0 {
      ContainsIffOccurs(s[1..], p);
      forall i: nat | OccursAt(p, s[1..], i) ensures OccursAt(p, s, i + 1) {
        assert s[1..][i..i + |p|] == s[i + 1..i + 1 + |p|];
      }
      forall i: nat | OccursAt(p, s, i) && i > 0 ensures OccursAt(p, s[1..], i - 1) {
        assert s[1..][i - 1..i - 1 + |p|] == s[i..i + |p|];
      }
    } else {
      forall i: nat | OccursAt(p, s, i) ensures i == 0 { }
    }
  }

  lemma {:induction false} StartsWithItself(s: string)
    ensures StartsWith(s, s)
  {
    if s != [] { StartsWithItself(s[1..]); }
  }

  /** ASCII upper-case letters folded to lower case; everything else unchanged. */
  function LowerChar(c: char): (r: char)
    ensures 'A' <= c <= 'Z' ==> 'a' <= r <= 'z'
    ensures !('A' <= c <= 'Z') ==> r == c
  {
    if 'A' <= c <= 'Z' then (c as int + 32) as char else c
  }

  /** `s` with ASCII letters folded to lower case. */
  function Lower(s: string): string {
    if s == [] then [] else [LowerChar(s[0])] + Lower(s[1..])
  }

  lemma {:induction false} LowerPointwise(s: string)
    ensures |Lower(s)| == |s|
    ensures forall i | 0 <= i < |s| :: Lower(s)[i] == LowerChar(s[i])
  {
    if s != [] {
      LowerPointwise(s[1..]);
      assert forall i | 1 <= i < |s| :: Lower(s)[i] == Lower(s[1..])[i - 1];
    }
  }

  /**
   * A Playwright `hasText` filter with a string: case-insensitive substring match. The empty
   * query is found in every text, and a query longer than the text in none.
   */
  predicate HasText(text: string, query: string)
    ensures query == [] ==> HasText(text, query)
    ensures |text| < |query| ==> !HasText(text, query)
  {
    LowerPointwise(text);
    LowerPointwise(query);
    ContainsShorter(Lower(text), Lower(query));
    Contains(Lower(text), Lower(query))
  }

  lemma HasTextItself(s: string)
    ensures HasText(s, s)
  {
    StartsWithItself(Lower(s));
  }

  /** Every character of a substring occurs in the text. */
  lemma {:induction false} ContainsChar(s: string, p: string, k: nat)
    requires Contains(s, p) && k < |p|
    ensures p[k] in s
  {
    ContainsIffOccurs(s, p);
    var i: nat :| OccursAt(p, s, i);
    assert s[i + k] == s[i..i + |p|][k];
  }

  /** A substring is no longer than the text. */
  lemma {:induction false} ContainsShorter(s: string, p: string)
    ensures Contains(s, p) ==> |p| <= |s|
  {
    ContainsIffOccurs(s, p);
  }

  /** A query with a letter that the text lacks, in either case, is not found. */
  lemma HasTextMissingChar(text: string, query: string, k: nat)
    requires k < |query|
    requires forall t | 0 <= t < |text| :: LowerChar(text[t]) != LowerChar(query[k])
    ensures !HasText(text, query)
  {
    LowerPointwise(text);
    LowerPointwise(query);
    if HasText(text, query) {
      ContainsChar(Lower(text), Lower(query), k);
    }
  }
}
