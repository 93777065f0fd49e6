/**
 * The JavaScript string primitives the bot relies on: the `\s` and `\w`
 * character classes, `toLowerCase`, `includes`, `trim`, and splitting a
 * trimmed string on `/\s+/`.
 */
module Text {

  /** JavaScript's `\s`: the WhiteSpace and LineTerminator characters (also what `trim` strips). */
  predicate IsWhitespace(c: char) {
    || c == ' ' || c == '\t' || c == '\n' || c == '\r' || c == '\U{000B}' || c == '\U{000C}'
    || c == '\U{00A0}' || c == '\U{1680}' || ('\U{2000}' <= c <= '\U{200A}')
    || c == '\U{2028}' || c == '\U{2029}' || c == '\U{202F}' || c == '\U{205F}'
    || c == '\U{3000}' || c == '\U{FEFF}'
  }

  /** JavaScript's `\w` (no `u` flag): `[A-Za-z0-9_]`. */
  predicate IsWordChar(c: char) {
    ('a' <= c <= 'z') || ('A' <= c <= 'Z') || ('0' <= c <= '9') || c == '_'
  }

  predicate IsDigit(c: char) {
    '0' <= c <= '9'
  }

  predicate IsUpper(c: char) {
    'A' <= c <= 'Z'
  }

  /** `toLowerCase` on one character (ASCII letters only). */
  function LowerChar(c: char): char {
    if IsUpper(c) then (c as int + 32) as char else c
  }

  /** `s.toLowerCase()`, character by character. */
  function Lower(s: string): string {
    seq(|s|, i requires 0 <= i < |s| => LowerChar(s[i]))
  }

  /** `a.toLowerCase() === b.toLowerCase()`. */
  predicate EqualsIgnoreCase(a: string, b: string) {
    Lower(a) == Lower(b)
  }

  lemma LowerIdempotent(s: string)
    ensures Lower(Lower(s)) == Lower(s)
  {
  }

  /** `sub` occurs in `s` at index `i`. */
  ghost predicate OccursAt(s: string, sub: string, i: int) {
    0 <= i && i + |sub| <= |s| && s[i..i + |sub|] == sub
  }

  /** `s.includes(sub)`: a left-to-right scan for `sub`. */
  function Includes(s: string, sub: string): bool
    decreases |s|
  {
    if |sub| > |s| then false
    else if s[..|sub|] == sub then true
    else Includes(s[1..], sub)
  }

  /** The scan finds `sub` exactly when `sub` occurs somewhere in `s`. */
  lemma {:induction false} IncludesIff(s: string, sub: string)
    ensures Includes(s, sub) <==> exists i :: OccursAt(s, sub, i)
    decreases |s|
  {
    if |sub| > |s| {
      forall i ensures !OccursAt(s, sub, i) { }
    } else if s[..|sub|] == sub {
      assert OccursAt(s, sub, 0);
    } else {
      IncludesIff(s[1..], sub);
      if Includes(s[1..], sub) {
        var j :| OccursAt(s[1..], sub, j);
        assert s[j + 1..j + 1 + |sub|] == s[1..][j..j + |sub|];
        assert OccursAt(s, sub, j + 1);
      } else {
        forall i | OccursAt(s, sub, i) ensures false {
          assert i != 0;
          assert s[1..][i - 1..i - 1 + |sub|] == s[i..i + |sub|];
          assert OccursAt(s[1..], sub, i - 1);
        }
      }
    }
  }

  lemma IncludesAt(s: string, sub: string, i: int)
    requires OccursAt(s, sub, i)
    ensures Includes(s, sub)
  {
    IncludesIff(s, sub);
  }

  /** Drops leading `\s` characters. */
  function TrimStart(s: string): (r: string)
    ensures |r| <= |s| && r == s[|s| - |r|..]
    ensures r == [] || !IsWhitespace(r[0])
    ensures forall i :: 0 <= i < |s| - |r| ==> IsWhitespace(s[i])
    decreases |s|
  {
    if s != [] && IsWhitespace(s[0]) then TrimStart(s[1..]) else s
  }

  /** Drops trailing `\s` characters. */
  function TrimEnd(s: string): (r: string)
    ensures |r| <= |s| && r == s[..|r|]
    ensures r == [] || !IsWhitespace(r[|r| - 1])
    ensures forall i :: |r| <= i < |s| ==> IsWhitespace(s[i])
    decreases |s|
  {
    if s != [] && IsWhitespace(s[|s| - 1]) then TrimEnd(s[..|s| - 1]) else s
  }

  /** `s.trim()`. */
  function Trim(s: string): string {
    TrimEnd(TrimStart(s))
  }

  lemma TrimChars(s: string)
    ensures forall c <- Trim(s) :: c in s
    ensures Trim(s) == [] || (!IsWhitespace(Trim(s)[0]) && !IsWhitespace(Trim(s)[|Trim(s)| - 1]))
  {
    var t := TrimStart(s);
    var r := TrimEnd(t);
    forall c <- r ensures c in s {
      var k :| 0 <= k < |r| && r[k] == c;
      assert t[k] == c;
      assert s[|s| - |t| + k] == c;
    }
  }

  /** A word: a non-empty run of non-`\s` characters. */
  predicate NoWhitespace(w: string) {
    forall c <- w :: !IsWhitespace(c)
  }

  predicate IsWord(w: string) {
    w != [] && NoWhitespace(w)
  }

  /** Lower-casing keeps a string free of `\s` and keeps its length. */
  lemma LowerNoWhitespace(w: string)
    requires NoWhitespace(w)
    ensures NoWhitespace(Lower(w)) && |Lower(w)| == |w|
  {
    forall c <- Lower(w) ensures !IsWhitespace(c) {
      var k :| 0 <= k < |w| && Lower(w)[k] == c;
      assert w[k] in w;
    }
  }

  /** Length of the leading run of non-`\s` characters. */
  function WordLength(s: string): (n: nat)
    ensures n <= |s|
    ensures forall i :: 0 <= i < n ==> !IsWhitespace(s[i])
    ensures n < |s| ==> IsWhitespace(s[n])
    decreases |s|
  {
    if s == [] || IsWhitespace(s[0]) then 0 else 1 + WordLength(s[1..])
  }

  /** Nothing but `\s` characters (possibly nothing at all). */
  predicate Blank(s: string) {
    forall c <- s :: IsWhitespace(c)
  }

  /** The non-`\s` characters of `s`, in order. */
  function NonBlank(s: string): string
    decreases |s|
  {
    if s == [] then [] else (if IsWhitespace(s[0]) then [] else [s[0]]) + NonBlank(s[1..])
  }

  /** The strings of `ws` written one after another. */
  function Concat(ws: seq<string>): string
    decreases |ws|
  {
    if ws == [] then [] else ws[0] + Concat(ws[1..])
  }

  lemma {:induction false} NonBlankOfWordPrefix(s: string, n: nat)
    requires n <= |s| && forall i :: 0 <= i < n ==> !IsWhitespace(s[i])
    ensures NonBlank(s) == s[..n] + NonBlank(s[n..])
    decreases n
  {
    if n > 0 {
      NonBlankOfWordPrefix(s[1..], n - 1);
      assert s[1..][n - 1..] == s[n..];
      assert s[..n] == [s[0]] + s[1..][..n - 1];
    }
  }

  /**
   * The maximal runs of non-`\s` characters of `s`, in order: there are
   * none exactly when `s` is blank, and together they spell out every
   * non-`\s` character of `s`, in order.
   */
  function Words(s: string): (ws: seq<string>)
    ensures forall w <- ws :: IsWord(w)
    ensures ws == [] <==> Blank(s)
    ensures Concat(ws) == NonBlank(s)
    decreases |s|
  {
    if s == [] then []
    else if IsWhitespace(s[0]) then
      assert forall c <- s[1..] :: c in s;
      assert Blank(s[1..]) ==> Blank(s);
      Words(s[1..])
    else
      var n := WordLength(s);
      var w := s[..n];
      NonBlankOfWordPrefix(s, n);
      assert s[0] in w;
      assert forall c <- w :: c in s;
      var ws := [w] + Words(s[n..]);
      assert ws[1..] == Words(s[n..]);
      ws
  }

  /**
   * `t.split(/\s+/)` for a trimmed `t`: the empty string splits into one
   * empty piece, anything else into its words.
   */
  function SplitTrimmed(t: string): (parts: seq<string>)
    ensures |parts| >= 1
  {
    var ws := Words(t);
    if ws == [] then [""] else ws
  }

  lemma {:induction false} WordLengthOfWord(w: string, rest: string)
    requires NoWhitespace(w)
    requires rest == [] || IsWhitespace(rest[0])
    ensures WordLength(w + rest) == |w|
    decreases |w|
  {
    if w != [] {
      assert (w + rest)[0] == w[0];
      assert (w + rest)[1..] == w[1..] + rest;
      WordLengthOfWord(w[1..], rest);
    } else {
      assert w + rest == rest;
    }
  }

  /** Words separated by runs of `\s`: `ws[0] + seps[0] + ws[1] + ... + ws[|ws| - 1]`. */
  function Interleave(ws: seq<string>, seps: seq<string>): string
    requires |ws| == |seps| + 1
    decreases |ws|
  {
    if |ws| == 1 then ws[0] else ws[0] + seps[0] + Interleave(ws[1..], seps[1..])
  }

  /** Leading `\s` never starts a word. */
  lemma {:induction false} WordsSkipBlank(pre: string, s: string)
    requires Blank(pre)
    ensures Words(pre + s) == Words(s)
    decreases |pre|
  {
    if pre == [] {
      assert pre + s == s;
    } else {
      assert pre[0] in pre;
      assert (pre + s)[1..] == pre[1..] + s;
      assert forall c <- pre[1..] :: c in pre;
      WordsSkipBlank(pre[1..], s);
    }
  }

  /** Trailing `\s` never adds a word. */
  lemma {:induction false} WordsDropBlank(s: string, post: string)
    requires Blank(post)
    ensures Words(s + post) == Words(s)
    decreases |s|
  {
    if s == [] {
      assert s + post == post;
    } else if IsWhitespace(s[0]) {
      assert (s + post)[1..] == s[1..] + post;
      WordsDropBlank(s[1..], post);
    } else {
      var n := WordLength(s);
      if n < |s| {
        WordLengthOfWord(s[..n], s[n..] + post);
        assert s[..n] + (s[n..] + post) == s + post;
      } else {
        if post != [] { assert post[0] in post; }
        WordLengthOfWord(s, post);
      }
      assert (s + post)[..n] == s[..n];
      assert (s + post)[n..] == s[n..] + post;
      WordsDropBlank(s[n..], post);
    }
  }

  /** Words separated by non-empty runs of `\s` split back into the same words. */
  lemma {:induction false} WordsOfInterleave(ws: seq<string>, seps: seq<string>)
    requires |ws| == |seps| + 1
    requires forall w <- ws :: IsWord(w)
    requires forall sep <- seps :: sep != [] && Blank(sep)
    ensures Words(Interleave(ws, seps)) == ws
    decreases |ws|
  {
    var w := ws[0];
    assert w in ws;
    if |ws| == 1 {
      WordLengthOfWord(w, []);
      assert w + [] == w;
      assert w[..|w|] == w && w[|w|..] == [];
    } else {
      var sep := seps[0];
      assert sep in seps;
      var tail := Interleave(ws[1..], seps[1..]);
      var rest := sep + tail;
      assert Interleave(ws, seps) == w + rest;
      assert rest[0] == sep[0] && sep[0] in sep;
      WordLengthOfWord(w, rest);
      assert (w + rest)[0] == w[0];
      assert (w + rest)[..|w|] == w;
      assert (w + rest)[|w|..] == rest;
      assert forall v <- ws[1..] :: v in ws;
      assert forall v <- seps[1..] :: v in seps;
      WordsOfInterleave(ws[1..], seps[1..]);
      WordsSkipBlank(sep, tail);
    }
  }

  /**
   * Splitting on `\s`: words separated by non-empty runs of `\s`, with any
   * `\s` before and after them, split back into the same words.
   */
  lemma WordsOfSpaced(pre: string, ws: seq<string>, seps: seq<string>, post: string)
    requires |ws| == |seps| + 1
    requires forall w <- ws :: IsWord(w)
    requires forall sep <- seps :: sep != [] && Blank(sep)
    requires Blank(pre) && Blank(post)
    ensures Words(pre + Interleave(ws, seps) + post) == ws
  {
    var body := Interleave(ws, seps);
    assert pre + body + post == pre + (body + post);
    WordsSkipBlank(pre, body + post);
    WordsDropBlank(body, post);
    WordsOfInterleave(ws, seps);
  }

  lemma BlankByIndex(s: string)
    requires forall i :: 0 <= i < |s| ==> IsWhitespace(s[i])
    ensures Blank(s)
  {
    forall c <- s ensures IsWhitespace(c) {
      var k :| 0 <= k < |s| && s[k] == c;
    }
  }

  lemma WordsOfTrimStart(s: string)
    ensures Words(TrimStart(s)) == Words(s)
  {
    var t := TrimStart(s);
    var pre := s[..|s| - |t|];
    assert s == pre + t;
    BlankByIndex(pre);
    WordsSkipBlank(pre, t);
  }

  lemma WordsOfTrimEnd(t: string)
    ensures Words(TrimEnd(t)) == Words(t)
  {
    var r := TrimEnd(t);
    var post := t[|r|..];
    assert t == r + post;
    assert forall i :: 0 <= i < |post| ==> post[i] == t[|r| + i];
    BlankByIndex(post);
    WordsDropBlank(r, post);
  }

  /** Trimming never changes the words. */
  lemma WordsOfTrim(s: string)
    ensures Words(Trim(s)) == Words(s)
  {
    WordsOfTrimStart(s);
    WordsOfTrimEnd(TrimStart(s));
  }

  /** A string with no `\s` at either end is its own trim. */
  lemma TrimUnpadded(s: string)
    requires s == [] || (!IsWhitespace(s[0]) && !IsWhitespace(s[|s| - 1]))
    ensures Trim(s) == s
  {
    assert TrimStart(s) == s;
  }
}
