/**
 * The message filter of mod.js: a message is prohibited when it carries a
 * link and one of a fixed list of keywords.
 */
module Moderation {
  import opened Text

  /** `BANNED_KEYWORDS`, matched as lower-case substrings. */
  const BannedKeywords: seq<string> := ["airdrop", "subscribe", "job offer", "earn", "win"]

  /** A match of `/https?:\/\/[^\s]+/` starting at index `i`. */
  ghost predicate UrlAt(s: string, i: int) {
    || (OccursAt(s, "http://", i) && i + 7 < |s| && !IsWhitespace(s[i + 7]))
    || (OccursAt(s, "https://", i) && i + 8 < |s| && !IsWhitespace(s[i + 8]))
  }

  /** `s` starts with a scheme followed by a non-`\s` character. */
  predicate UrlStart(s: string) {
    || (|s| > 7 && s[..7] == "http://" && !IsWhitespace(s[7]))
    || (|s| > 8 && s[..8] == "https://" && !IsWhitespace(s[8]))
  }

  /** `urlRegex.test(s)` on a fresh regex: a scan for a URL start at every index. */
  function ContainsUrl(s: string): bool
    decreases |s|
  {
    if s == [] then false else UrlStart(s) || ContainsUrl(s[1..])
  }

  lemma UrlStartAt(s: string, i: int)
    requires 0 <= i <= |s|
    ensures UrlStart(s[i..]) <==> UrlAt(s, i)
  {
    var t := s[i..];
    if |t| > 7 { assert t[..7] == s[i..i + 7] && t[7] == s[i + 7]; }
    if |t| > 8 { assert t[..8] == s[i..i + 8] && t[8] == s[i + 8]; }
  }

  /** The scan finds a URL exactly when one starts somewhere in `s`. */
  lemma {:induction false} ContainsUrlIff(s: string)
    ensures ContainsUrl(s) <==> exists i :: UrlAt(s, i)
    decreases |s|
  {
    if s == [] {
      forall i ensures !UrlAt(s, i) { }
    } else {
      ContainsUrlIff(s[1..]);
      UrlStartAt(s, 0);
      assert s[0..] == s;
      forall j | 0 <= j <= |s[1..]|
        ensures UrlAt(s[1..], j) <==> UrlAt(s, j + 1)
      {
        UrlStartAt(s[1..], j);
        UrlStartAt(s, j + 1);
        assert s[1..][j..] == s[j + 1..];
      }
      if exists i :: UrlAt(s, i) {
        var i :| UrlAt(s, i);
        if i > 0 {
          assert UrlAt(s[1..], i - 1);
        }
      }
      if exists j :: UrlAt(s[1..], j) {
        var j :| UrlAt(s[1..], j);
        assert UrlAt(s, j + 1);
      }
    }
  }

  /** `keywords.some(k => text.includes(k))`. */
  function SomeKeywordIncluded(text: string, keywords: seq<string>): bool
    decreases |keywords|
  {
    if keywords == [] then false
    else Includes(text, keywords[0]) || SomeKeywordIncluded(text, keywords[1..])
  }

  lemma {:induction false} SomeKeywordIncludedIff(text: string, keywords: seq<string>)
    ensures SomeKeywordIncluded(text, keywords) <==> exists k, i :: k in keywords && OccursAt(text, k, i)
    decreases |keywords|
  {
    if keywords != [] {
      IncludesIff(text, keywords[0]);
      SomeKeywordIncludedIff(text, keywords[1..]);
      if exists k, i :: k in keywords && OccursAt(text, k, i) {
        var k, i :| k in keywords && OccursAt(text, k, i);
        if k != keywords[0] {
          assert k in keywords[1..];
        }
      }
      assert forall k <- keywords[1..] :: k in keywords;
    }
  }

  /** The keyword half: a banned keyword occurs in the lower-cased message. */
  function ContainsKeyword(s: string): bool {
    SomeKeywordIncluded(Lower(s), BannedKeywords)
  }

  /** `containsProhibitedContent(messageContent)`. */
  function ContainsProhibitedContent(s: string): bool {
    ContainsUrl(s) && ContainsKeyword(s)
  }

  /** Flagged exactly when a URL starts somewhere and a banned keyword occurs somewhere, ignoring case. */
  lemma ProhibitedIff(s: string)
    ensures ContainsProhibitedContent(s) <==>
      (exists i :: UrlAt(s, i)) && (exists k, j :: k in BannedKeywords && OccursAt(Lower(s), k, j))
  {
    ContainsUrlIff(s);
    SomeKeywordIncludedIff(Lower(s), BannedKeywords);
  }

  /** Text without `http://` or `https://` in it is never flagged, whatever its keywords. */
  lemma NoSchemeNeverFlagged(s: string)
    requires forall i :: !OccursAt(s, "http://", i) && !OccursAt(s, "https://", i)
    ensures !ContainsProhibitedContent(s)
  {
    ContainsUrlIff(s);
  }

  /** A link alone is not enough: without a banned keyword nothing is flagged. */
  lemma UrlAloneNotFlagged(s: string)
    requires forall k, j :: k in BannedKeywords ==> !OccursAt(Lower(s), k, j)
    ensures !ContainsProhibitedContent(s)
  {
    SomeKeywordIncludedIff(Lower(s), BannedKeywords);
  }

  /** `https://` followed by a non-`\s` character, anywhere in the text, is a URL. */
  lemma UrlRecognised(pre: string, host: string, post: string)
    requires host != [] && !IsWhitespace(host[0])
    ensures ContainsUrl(pre + "https://" + host + post)
  {
    var s := pre + "https://" + host + post;
    assert s[|pre|..|pre| + 8] == "https://";
    assert s[|pre| + 8] == host[0];
    assert UrlAt(s, |pre|);
    ContainsUrlIff(s);
  }

  /** `Lower` works character by character, so it maps a slice to the slice of the result. */
  lemma LowerSlice(s: string, i: int, j: int)
    requires 0 <= i <= j <= |s|
    ensures Lower(s)[i..j] == Lower(s[i..j])
  {
  }

  /**
   * Keywords are matched inside words and in any letter case: a message with
   * a link and the letters "earn" anywhere, as in "Learn", is flagged.
   */
  lemma KeywordInsideWordFlagged(pre: string, word: string, post: string)
    requires EqualsIgnoreCase(word, "earn")
    requires ContainsUrl(pre + word + post)
    ensures ContainsProhibitedContent(pre + word + post)
  {
    var s := pre + word + post;
    assert s[|pre|..|pre| + |word|] == word;
    LowerSlice(s, |pre|, |pre| + 4);
    assert OccursAt(Lower(s), "earn", |pre|);
    assert "earn" in BannedKeywords;
    SomeKeywordIncludedIff(Lower(s), BannedKeywords);
  }
}
