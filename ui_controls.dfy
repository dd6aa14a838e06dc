/**
 * The child-window script reads a paragraph of the new page and takes the e-mail address out
 * of it with `text?.match(/mentor@\S+/)?.[0] || ''`: the leftmost "mentor@" that is followed
 * by at least one non-white-space character, extended greedily over the characters that are
 * not white space; the empty string when the text is missing or holds no such address.
 */
module UiControls {
  import opened Wrappers
  import opened Text

  /** The literal part of the pattern. */
  const Mentor: string := "mentor@"

  /** The pattern `mentor@\S+` can start at position `i` of `s`. */
  predicate MatchesAt(s: string, i: nat) {
    i + |Mentor| < |s| && s[i..i + |Mentor|] == Mentor && !IsSpace(s[i + |Mentor|])
  }

  /** The leftmost position from `start` on where the pattern can start: how the regular expression engine scans. */
  function FirstMatchFrom(s: string, start: nat): (r: Option<nat>)
    requires start <= |s|
    ensures r.Some? ==> start <= r.value < |s| && MatchesAt(s, r.value)
    ensures r.Some? ==> forall j | start <= j < r.value :: !MatchesAt(s, j)
    ensures r.None? ==> forall j | start <= j < |s| :: !MatchesAt(s, j)
    decreases |s| - start
  {
    if start == |s| then None
    else if MatchesAt(s, start) then Some(start)
    else FirstMatchFrom(s, start + 1)
  }

  /** The longest prefix of `s` without white space: what the greedy `\S+` consumes. */
  function NonSpaceRun(s: string): (r: string)
    ensures |r| <= |s| && r == s[..|r|]
    ensures forall k | 0 <= k < |r| :: !IsSpace(r[k])
    ensures |r| == |s| || IsSpace(s[|r|])
  {
    if s != [] && !IsSpace(s[0]) then
      var rest := NonSpaceRun(s[1..]);
      assert [s[0]] + s[1..][..|rest|] == s[..|rest| + 1];
      [s[0]] + rest
    else []
  }

  /** `text?.match(/mentor@\S+/)?.[0] || ''`: '' or "mentor@" followed by at least one character. */
  function ExtractEmail(text: Option<string>): (r: string)
    ensures r != [] ==> |r| > |Mentor| && r[..|Mentor|] == Mentor
  {
    if text.None? then []
    else
      var s := text.value;
      var found := FirstMatchFrom(s, 0);
      if found.None? then []
      else
        var tail := s[found.value + |Mentor|..];
        assert tail[0] == s[found.value + |Mentor|];
        Mentor + NonSpaceRun(tail)
  }

  /** The address found starts at position `i` of `s` and runs to the end of `s` or to white space. */
  predicate LeftmostGreedyMatch(s: string, i: nat, email: string) {
    && i + |email| <= |s| && s[i..i + |email|] == email
    && MatchesAt(s, i)
    && (forall j | 0 <= j < i :: !MatchesAt(s, j))
    && (i + |email| == |s| || IsSpace(s[i + |email|]))
  }

  /**
   * A non-empty result is "mentor@" followed by at least one character, holds no white space,
   * and is the leftmost, longest match inside the text; the result is empty exactly when the
   * text is missing or the pattern matches nowhere in it.
   */
  lemma ExtractEmailMeaning(text: Option<string>)
    ensures var email := ExtractEmail(text);
            && (forall k | 0 <= k < |email| :: !IsSpace(email[k]))
            && (email != [] ==> text.Some? && exists i: nat :: LeftmostGreedyMatch(text.value, i, email))
            && (email == [] <==> text.None? || forall j | 0 <= j < |text.value| :: !MatchesAt(text.value, j))
  {
    if text.Some? {
      var s := text.value;
      var found := FirstMatchFrom(s, 0);
      if found.Some? {
        var i := found.value;
        var tail := s[i + |Mentor|..];
        var run := NonSpaceRun(tail);
        var email := Mentor + run;
        assert tail[0] == s[i + |Mentor|];
        assert run != [];
        assert s[i..i + |email|] == email by {
          assert s[i..i + |email|] == s[i..i + |Mentor|] + s[i + |Mentor|..i + |email|];
          assert s[i + |Mentor|..i + |email|] == tail[..|run|];
        }
        assert i + |email| == |s| || IsSpace(s[i + |email|]) by {
          if i + |email| < |s| {
            assert s[i + |email|] == tail[|run|];
          }
        }
        assert forall k | 0 <= k < |email| :: !IsSpace(email[k]) by {
          forall k | 0 <= k < |email| ensures !IsSpace(email[k]) {
            if k >= |Mentor| {
              assert email[k] == run[k - |Mentor|];
            }
          }
        }
        assert LeftmostGreedyMatch(s, i, email);
      }
    }
  }

  /**
   * The scan's answer is the only leftmost, longest match: any "mentor@" followed by
   * non-white-space characters that starts where no earlier match starts, and ends at white
   * space or at the end of the text, is the address extracted.
   */
  lemma {:induction false} LeftmostGreedyMatchIsExtracted(s: string, i: nat, email: string)
    requires LeftmostGreedyMatch(s, i, email)
    requires |email| > |Mentor| && email[..|Mentor|] == Mentor
    requires forall k | |Mentor| <= k < |email| :: !IsSpace(email[k])
    ensures ExtractEmail(Some(s)) == email
  {
    ScanSkips(s, 0, i);
    var user := email[|Mentor|..];
    var rest := s[i + |email|..];
    assert s[i + |Mentor|..] == user + rest by {
      assert s[i + |Mentor|..i + |email|] == s[i..i + |email|][|Mentor|..];
      assert s[i + |Mentor|..] == s[i + |Mentor|..i + |email|] + s[i + |email|..];
    }
    assert forall k | 0 <= k < |user| :: !IsSpace(user[k]) by {
      forall k | 0 <= k < |user| ensures !IsSpace(user[k]) {
        assert user[k] == email[k + |Mentor|];
      }
    }
    assert rest == [] || rest[0] == s[i + |email|];
    NonSpaceRunOf(user, rest);
    assert email == Mentor + user;
  }

  /**
   * An address after text without the letter 'm', and ended by white space or the end of the
   * text, is what comes out.
   */
  lemma {:induction false} ExtractEmailOf(lead: string, user: string, trail: string)
    requires 'm' !in lead
    requires user != [] && forall k | 0 <= k < |user| :: !IsSpace(user[k])
    requires trail == [] || IsSpace(trail[0])
    ensures ExtractEmail(Some(lead + Mentor + user + trail)) == Mentor + user
  {
    var s := lead + Mentor + user + trail;
    var i := |lead|;
    assert s[i..i + |Mentor|] == Mentor;
    assert s[i + |Mentor|] == user[0];
    forall j | 0 <= j < i ensures !MatchesAt(s, j) {
      assert s[j] == lead[j];
      assert s[j..j + |Mentor|][0] == s[j];
    }
    ScanSkips(s, 0, i);
    var tail := s[i + |Mentor|..];
    assert tail == user + trail;
    NonSpaceRunOf(user, trail);
  }

  /** The scan passes over positions where the pattern does not start. */
  lemma {:induction false} ScanSkips(s: string, start: nat, i: nat)
    requires start <= i <= |s|
    requires forall j | start <= j < i :: !MatchesAt(s, j)
    ensures FirstMatchFrom(s, start) == FirstMatchFrom(s, i)
    decreases i - start
  {
    if start < i {
      ScanSkips(s, start + 1, i);
    }
  }

  /** The greedy run stops exactly at the first white space. */
  lemma {:induction false} NonSpaceRunOf(word: string, trail: string)
    requires forall k | 0 <= k < |word| :: !IsSpace(word[k])
    requires trail == [] || IsSpace(trail[0])
    ensures NonSpaceRun(word + trail) == word
  {
    if word == [] {
      assert word + trail == trail;
    } else {
      assert (word + trail)[1..] == word[1..] + trail;
      NonSpaceRunOf(word[1..], trail);
      assert [word[0]] + word[1..] == word;
    }
  }

  /** Where every '@' ends the text or is followed by white space, nothing is extracted, so `''` comes out. */
  lemma NoAddressGivesEmpty(s: string)
    requires forall k | 0 <= k < |s| && s[k] == '@' :: k + 1 == |s| || IsSpace(s[k + 1])
    ensures ExtractEmail(Some(s)) == []
  {
    forall j | 0 <= j < |s| ensures !MatchesAt(s, j) {
      if j + |Mentor| < |s| && s[j..j + |Mentor|] == Mentor {
        assert s[j + 6] == s[j..j + |Mentor|][6] == '@';
      }
    }
    ExtractEmailMeaning(Some(s));
  }

  /** The address in a sentence is extracted: from "to mentor@rsa.com now" comes "mentor@rsa.com". */
  lemma ExtractEmailExample()
    ensures ExtractEmail(Some("to " + Mentor + "rsa.com" + " now")) == Mentor + "rsa.com"
  {
    var user := "rsa.com";
    assert forall k | 0 <= k < |user| :: !IsSpace(user[k]) by {
      forall k | 0 <= k < |user| ensures !IsSpace(user[k]) {
        assert '.' <= user[k] <= 's' by {
          assert k == 0 || k == 1 || k == 2 || k == 3 || k == 4 || k == 5 || k == 6;
        }
      }
    }
    ExtractEmailOf("to ", user, " now");
  }
}
