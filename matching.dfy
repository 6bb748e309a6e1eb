/**
 * `filterForNonAllowedCookies`: a cookie is unwanted when no allow-list entry
 * matches the end of its domain. Each entry is used as the regular expression
 * `entry + "$"`, so the match is not tied to a label boundary (`example.com`
 * matches `notexample.com`) and a `.` in an entry matches any one character other
 * than a line terminator. Entries are taken to contain no other regular-expression
 * syntax characters.
 */
module Matching {
  import opened JsStrings

  /** A browser cookie, with the fields the popup reads. */
  datatype Cookie = Cookie(domain: string, name: string, path: string, secure: bool, storeId: string)

  /** The characters a regular expression's `.` does not match. */
  predicate IsLineTerminator(c: char)
  {
    c == '\n' || c == '\r' || c == '\U{2028}' || c == '\U{2029}'
  }

  /** The characters that have a meaning of their own in a regular expression. */
  predicate IsSyntaxCharacter(c: char)
  {
    c in "^$\\.*+?()[]{}|"
  }

  /** An entry whose only regular-expression syntax is the wildcard `.`. */
  predicate IsWildcardPattern(entry: string)
  {
    forall k :: 0 <= k < |entry| ==> entry[k] == '.' || !IsSyntaxCharacter(entry[k])
  }

  /** One pattern character against one subject character. */
  predicate AtomMatches(p: char, c: char)
  {
    if p == '.' then !IsLineTerminator(c) else p == c
  }

  /** The pattern consumes exactly the subject `s`. */
  predicate MatchesWhole(pattern: string, s: string)
    decreases |pattern|
  {
    if pattern == [] then s == []
    else s != [] && AtomMatches(pattern[0], s[0]) && MatchesWhole(pattern[1..], s[1..])
  }

  /**
   * `new RegExp(pattern + "$").test(s)`: from some start position the pattern
   * consumes the rest of `s`, so that the end anchor holds.
   */
  predicate RegexTest(pattern: string, s: string)
  {
    exists i :: 0 <= i <= |s| && MatchesWhole(pattern, s[i..])
  }

  /** The suffix matcher: compare the pattern with the tail of `s`, last character first. */
  predicate EndsWithPattern(pattern: string, s: string)
    decreases |pattern|
  {
    pattern == []
    || (s != [] && AtomMatches(pattern[|pattern| - 1], s[|s| - 1])
        && EndsWithPattern(pattern[..|pattern| - 1], s[..|s| - 1]))
  }

  lemma {:induction false} MatchesWholeIff(pattern: string, s: string)
    ensures MatchesWhole(pattern, s) <==>
            |pattern| == |s| && forall k :: 0 <= k < |s| ==> AtomMatches(pattern[k], s[k])
    decreases |pattern|
  {
    if pattern != [] && s != [] {
      MatchesWholeIff(pattern[1..], s[1..]);
      if |pattern| == |s| && forall k :: 0 <= k < |s| ==> AtomMatches(pattern[k], s[k]) {
        assert AtomMatches(pattern[0], s[0]);
        forall k | 0 <= k < |s| - 1 ensures AtomMatches(pattern[1..][k], s[1..][k]) {
          assert AtomMatches(pattern[k + 1], s[k + 1]);
        }
      }
      if MatchesWhole(pattern, s) {
        forall k | 0 <= k < |s| ensures AtomMatches(pattern[k], s[k]) {
          if k > 0 {
            assert AtomMatches(pattern[1..][k - 1], s[1..][k - 1]);
          }
        }
      }
    }
  }

  lemma {:induction false} EndsWithPatternIff(pattern: string, s: string)
    ensures EndsWithPattern(pattern, s) <==>
            |pattern| <= |s| &&
            forall k :: 0 <= k < |pattern| ==> AtomMatches(pattern[k], s[|s| - |pattern| + k])
    decreases |pattern|
  {
    if pattern != [] && s != [] {
      var p', s' := pattern[..|pattern| - 1], s[..|s| - 1];
      EndsWithPatternIff(p', s');
      var off := |s| - |pattern|;
      if |pattern| <= |s| && forall k :: 0 <= k < |pattern| ==> AtomMatches(pattern[k], s[off + k]) {
        assert AtomMatches(pattern[|pattern| - 1], s[off + |pattern| - 1]);
        forall k | 0 <= k < |p'| ensures AtomMatches(p'[k], s'[|s'| - |p'| + k]) {
          assert AtomMatches(pattern[k], s[off + k]);
        }
      }
      if EndsWithPattern(pattern, s) {
        forall k | 0 <= k < |pattern| ensures AtomMatches(pattern[k], s[off + k]) {
          if k < |p'| {
            assert AtomMatches(p'[k], s'[|s'| - |p'| + k]);
          }
        }
      }
    }
  }

  /** The suffix matcher decides exactly what the end-anchored regular expression does. */
  lemma EndsWithPatternIsRegexTest(pattern: string, s: string)
    ensures EndsWithPattern(pattern, s) <==> RegexTest(pattern, s)
  {
    EndsWithPatternIff(pattern, s);
    if EndsWithPattern(pattern, s) {
      var i := |s| - |pattern|;
      MatchesWholeIff(pattern, s[i..]);
      assert MatchesWhole(pattern, s[i..]);
    }
    if RegexTest(pattern, s) {
      var i :| 0 <= i <= |s| && MatchesWhole(pattern, s[i..]);
      MatchesWholeIff(pattern, s[i..]);
      assert i == |s| - |pattern|;
      forall k | 0 <= k < |pattern| ensures AtomMatches(pattern[k], s[|s| - |pattern| + k]) {
        assert s[i..][k] == s[i + k];
      }
    }
  }

  /** `allowedDomains.some(entry => new RegExp(entry + "$").test(domain))`. */
  predicate AnyEntryMatches(entries: seq<string>, domain: string)
    decreases |entries|
  {
    entries != [] && (EndsWithPattern(entries[0], domain) || AnyEntryMatches(entries[1..], domain))
  }

  /** A domain is allowed exactly when some entry of the list, wherever it stands, matches it. */
  lemma {:induction false} AnyEntryMatchesIff(entries: seq<string>, domain: string)
    ensures AnyEntryMatches(entries, domain) <==> exists e :: e in entries && RegexTest(e, domain)
    decreases |entries|
  {
    if entries != [] {
      AnyEntryMatchesIff(entries[1..], domain);
      EndsWithPatternIsRegexTest(entries[0], domain);
      assert entries == [entries[0]] + entries[1..];
      if exists e :: e in entries && RegexTest(e, domain) {
        var e :| e in entries && RegexTest(e, domain);
        if e != entries[0] {
          assert e in entries[1..];
        }
      }
    }
  }

  /** All entries use no regular-expression syntax other than `.`. */
  predicate AreWildcardPatterns(entries: seq<string>)
  {
    forall k :: 0 <= k < |entries| ==> IsWildcardPattern(entries[k])
  }

  /**
   * `filterForNonAllowedCookies(cookies)` with the allow-list passed in: the cookies
   * no entry matches, in their original order.
   */
  function Unwanted(cookies: seq<Cookie>, entries: seq<string>): (r: seq<Cookie>)
    requires AreWildcardPatterns(entries)
    ensures |r| <= |cookies|
    ensures forall c :: c in r <==> c in cookies && !AnyEntryMatches(entries, c.domain)
  {
    if cookies == [] then []
    else
      var rest := Unwanted(cookies[1..], entries);
      assert cookies == [cookies[0]] + cookies[1..];
      if AnyEntryMatches(entries, cookies[0].domain) then rest else [cookies[0]] + rest
  }

  /** The other half of the filter: the cookies some entry matches. */
  function Exempt(cookies: seq<Cookie>, entries: seq<string>): (r: seq<Cookie>)
    requires AreWildcardPatterns(entries)
    ensures forall c :: c in r <==> c in cookies && AnyEntryMatches(entries, c.domain)
  {
    if cookies == [] then []
    else
      var rest := Exempt(cookies[1..], entries);
      assert cookies == [cookies[0]] + cookies[1..];
      if AnyEntryMatches(entries, cookies[0].domain) then [cookies[0]] + rest else rest
  }

  /** `xs` is `ys` with some elements left out, the rest in their order. */
  predicate IsSubsequence(xs: seq<Cookie>, ys: seq<Cookie>)
    decreases |ys|
  {
    xs == []
    || (ys != [] && ((xs[0] == ys[0] && IsSubsequence(xs[1..], ys[1..])) || IsSubsequence(xs, ys[1..])))
  }

  /** The unwanted cookies keep the order they had. */
  lemma {:induction false} UnwantedIsSubsequence(cookies: seq<Cookie>, entries: seq<string>)
    requires AreWildcardPatterns(entries)
    ensures IsSubsequence(Unwanted(cookies, entries), cookies)
  {
    if cookies != [] {
      UnwantedIsSubsequence(cookies[1..], entries);
    }
  }

  /**
   * The unwanted and the exempt cookies split the input between them: together
   * they are the input, and no cookie is in both.
   */
  lemma {:induction false} UnwantedExemptPartition(cookies: seq<Cookie>, entries: seq<string>)
    requires AreWildcardPatterns(entries)
    ensures multiset(Unwanted(cookies, entries)) + multiset(Exempt(cookies, entries)) == multiset(cookies)
    ensures forall c :: !(c in Unwanted(cookies, entries) && c in Exempt(cookies, entries))
  {
    if cookies != [] {
      UnwantedExemptPartition(cookies[1..], entries);
      assert cookies == [cookies[0]] + cookies[1..];
    }
  }

  /** With an empty allow-list every cookie is unwanted. */
  lemma {:induction false} UnwantedWithoutEntries(cookies: seq<Cookie>)
    ensures Unwanted(cookies, []) == cookies
  {
    if cookies != [] {
      UnwantedWithoutEntries(cookies[1..]);
      assert cookies == [cookies[0]] + cookies[1..];
    }
  }

  /**
   * A list that has every entry of another (and perhaps more) leaves a subsequence
   * of the unwanted cookies, so adding entries never enlarges the result.
   */
  lemma {:induction false} MoreEntriesFewerUnwanted(cookies: seq<Cookie>, entries: seq<string>, more: seq<string>)
    requires AreWildcardPatterns(entries) && AreWildcardPatterns(more)
    requires forall e :: e in entries ==> e in more
    ensures IsSubsequence(Unwanted(cookies, more), Unwanted(cookies, entries))
    ensures |Unwanted(cookies, more)| <= |Unwanted(cookies, entries)|
  {
    if cookies != [] {
      var d := cookies[0].domain;
      AnyEntryMatchesIff(entries, d);
      AnyEntryMatchesIff(more, d);
      MoreEntriesFewerUnwanted(cookies[1..], entries, more);
      var fewer := Unwanted(cookies[1..], entries);
      if !AnyEntryMatches(entries, d) && AnyEntryMatches(more, d) {
        assert ([cookies[0]] + fewer)[1..] == fewer;
      }
    }
  }

  /** The match is not tied to a label boundary. */
  lemma MatchIgnoresLabelBoundary()
    ensures RegexTest("example.com", "notexample.com")
  {
    EndsWithPatternIff("example.com", "notexample.com");
    EndsWithPatternIsRegexTest("example.com", "notexample.com");
  }

  /**
   * A `.` in an entry matches any one character other than a line terminator, not
   * only a dot: the entry matches itself with that `.` replaced by `c` exactly when
   * `c` is not a line terminator.
   */
  lemma DotIsWildcard(entry: string, k: nat, c: char)
    requires k < |entry| && entry[k] == '.'
    ensures RegexTest(entry, entry[..k] + [c] + entry[k + 1..]) <==> !IsLineTerminator(c)
  {
    var s := entry[..k] + [c] + entry[k + 1..];
    assert |s| == |entry| && s[k] == c;
    forall i | 0 <= i < |entry| && i != k ensures s[i] == entry[i] {
      if i < k {
        assert s[i] == entry[..k][i];
      } else {
        assert s[i] == entry[k + 1..][i - k - 1];
      }
    }
    DotAt(entry, s, k);
  }

  lemma DotAt(entry: string, s: string, k: nat)
    requires k < |entry| == |s| && entry[k] == '.'
    requires forall i :: 0 <= i < |entry| && i != k ==> s[i] == entry[i]
    ensures RegexTest(entry, s) <==> !IsLineTerminator(s[k])
  {
    EndsWithPatternIff(entry, s);
    EndsWithPatternIsRegexTest(entry, s);
    if !IsLineTerminator(s[k]) {
      forall i | 0 <= i < |entry| ensures AtomMatches(entry[i], s[|s| - |entry| + i]) {
        if i != k {
          assert s[i] == entry[i];
        }
      }
    }
  }
}
