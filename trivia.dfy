/**
 * The trivia revision of the bot (trivia.js): the lenient answer check,
 * the trivia-balance credit, the menu choice, and its own variants of the
 * address scan and the date gate. Its Twitter probe and throttle are those
 * of module Probe.
 */
module Trivia {
  import opened Wrappers
  import opened Text
  import opened Numbers
  import opened Records
  import opened Store

  // ---------------------------------------------------------------------------
  // isAnswerCorrect

  /** `.replace(/[^\w\s]/g, '')`: keep only word characters and whitespace. */
  function StripNonWord(s: string): (r: string)
    ensures forall c <- r :: IsWordChar(c) || IsWhitespace(c)
    ensures forall c <- s :: (IsWordChar(c) || IsWhitespace(c)) ==> c in r
    decreases |s|
  {
    if s == [] then []
    else if IsWordChar(s[0]) || IsWhitespace(s[0]) then [s[0]] + StripNonWord(s[1..])
    else StripNonWord(s[1..])
  }

  /** The filter works piece by piece: stripping a concatenation strips each part in turn. */
  lemma {:induction false} StripNonWordAppend(a: string, b: string)
    ensures StripNonWord(a + b) == StripNonWord(a) + StripNonWord(b)
    decreases |a|
  {
    if a == [] {
      assert a + b == b;
    } else {
      assert (a + b)[0] == a[0];
      assert (a + b)[1..] == a[1..] + b;
      StripNonWordAppend(a[1..], b);
    }
  }

  /** On one character the filter keeps it exactly when it is a word character or `\s`. */
  lemma StripNonWordChar(c: char)
    ensures StripNonWord([c]) == if IsWordChar(c) || IsWhitespace(c) then [c] else []
  {
    assert [c][1..] == [];
  }

  /**
   * Punctuation inside a word is dropped, not turned into a separator: the
   * two sides are joined, so `a-b` becomes `ab`.
   */
  lemma PunctuationDropped(a: string, c: char, b: string)
    requires !IsWordChar(c) && !IsWhitespace(c)
    ensures StripNonWord(a + [c] + b) == StripNonWord(a) + StripNonWord(b)
  {
    StripNonWordAppend(a + [c], b);
    StripNonWordAppend(a, [c]);
    StripNonWordChar(c);
  }

  /** The `normalize` helper: lower-case, strip punctuation, trim, split on whitespace. */
  function Normalize(text: string): (ws: seq<string>)
    ensures |ws| >= 1
  {
    SplitTrimmed(Trim(StripNonWord(Lower(text))))
  }

  /** `new Set(words)`. */
  function WordSet(ws: seq<string>): (s: set<string>)
    ensures forall w :: w in s <==> w in ws
  {
    set w <- ws
  }

  /** `Math.ceil(n * 0.5)`. */
  function HalfUp(n: nat): nat {
    (n + 1) / 2
  }

  /**
   * The direct match: the distinct normalised words the answers share
   * number at least half of the correct answer's distinct words, rounded up.
   */
  predicate DirectMatch(userAnswer: string, correctAnswer: string) {
    var userWords := WordSet(Normalize(userAnswer));
    var correctWords := WordSet(Normalize(correctAnswer));
    |userWords * correctWords| >= HalfUp(|correctWords|)
  }

  /** The rounding never matters: sharing at least half the words, counted exactly, is enough. */
  lemma DirectMatchIff(userAnswer: string, correctAnswer: string)
    ensures var common := WordSet(Normalize(userAnswer)) * WordSet(Normalize(correctAnswer));
      DirectMatch(userAnswer, correctAnswer) <==> 2 * |common| >= |WordSet(Normalize(correctAnswer))|
  {
  }

  /** Case makes no difference to the words an answer is reduced to. */
  lemma NormalizeIgnoresCase(text: string)
    ensures Normalize(Lower(text)) == Normalize(text)
  {
    LowerIdempotent(text);
  }

  /** An answer identical to the correct one is always accepted directly. */
  lemma IdenticalAnswerAccepted(answer: string)
    ensures DirectMatch(answer, answer)
  {
    var words := WordSet(Normalize(answer));
    assert words * words == words;
  }

  /** An answer differing from the correct one only in letter case is accepted directly. */
  lemma CaseVariantAccepted(userAnswer: string, correctAnswer: string)
    requires EqualsIgnoreCase(userAnswer, correctAnswer)
    ensures DirectMatch(userAnswer, correctAnswer)
  {
    NormalizeIgnoresCase(userAnswer);
    NormalizeIgnoresCase(correctAnswer);
    IdenticalAnswerAccepted(correctAnswer);
  }

  /**
   * The whole check: a direct match, or some user word whose synonyms
   * (`getSynonyms`, already lower-cased) include some correct word.
   */
  predicate AnswerAccepted(userAnswer: string, correctAnswer: string, synonyms: string -> set<string>) {
    || DirectMatch(userAnswer, correctAnswer)
    || exists w, c :: w in Normalize(userAnswer) && c in Normalize(correctAnswer) && c in synonyms(w)
  }

  /**
   * `isAnswerCorrect(userAnswer, correctAnswer)` with WordNet as `synonyms`:
   * the direct match first, then the loops over user words and correct words.
   */
  method IsAnswerCorrect(userAnswer: string, correctAnswer: string, synonyms: string -> set<string>)
    returns (accepted: bool)
    ensures accepted == AnswerAccepted(userAnswer, correctAnswer, synonyms)
  {
    var userWords := Normalize(userAnswer);
    var correctWords := Normalize(correctAnswer);
    var userSet := WordSet(userWords);
    var correctSet := WordSet(correctWords);
    var commonWords := |userSet * correctSet|;
    var accuracyThreshold := (|correctSet| + 1) / 2;
    if commonWords >= accuracyThreshold {
      return true;
    }
    accepted := AnySynonymMatch(userWords, correctWords, synonyms);
  }

  /** The outer loop: does some user word have some correct word among its synonyms? */
  method AnySynonymMatch(userWords: seq<string>, correctWords: seq<string>, synonyms: string -> set<string>)
    returns (found: bool)
    ensures found <==> exists w, c :: w in userWords && c in correctWords && c in synonyms(w)
  {
    var i := 0;
    while i < |userWords|
      invariant 0 <= i <= |userWords|
      invariant forall k, c :: 0 <= k < i && c in correctWords ==> c !in synonyms(userWords[k])
    {
      found := SomeSynonym(synonyms(userWords[i]), correctWords);
      if found {
        assert userWords[i] in userWords;
        return;
      }
      i := i + 1;
    }
    forall w, c | w in userWords && c in correctWords
      ensures c !in synonyms(w)
    {
      var k :| 0 <= k < |userWords| && userWords[k] == w;
    }
    return false;
  }

  /** The inner loop: does some correct word appear among the synonyms? */
  method SomeSynonym(synonyms: set<string>, correctWords: seq<string>) returns (found: bool)
    ensures found <==> exists c :: c in correctWords && c in synonyms
  {
    var j := 0;
    while j < |correctWords|
      invariant 0 <= j <= |correctWords|
      invariant forall k :: 0 <= k < j ==> correctWords[k] !in synonyms
    {
      if correctWords[j] in synonyms {
        return true;
      }
      j := j + 1;
    }
    return false;
  }

  // ---------------------------------------------------------------------------
  // addPointsToUser

  /** The record after `triviaBalance = (triviaBalance || 0) + points`. */
  function AddTriviaPoints(r: Record, points: int): (r': Record)
    ensures TriviaBalance(r') == TriviaBalance(r) + points
    ensures r'.(triviaBalance := r.triviaBalance) == r
  {
    r.(triviaBalance := Some(TriviaBalance(r) + points))
  }

  /**
   * `addPointsToUser(userId, points)`. A user with no record makes the
   * original throw a TypeError before anything changes: `false` here.
   */
  method AddPointsToUser(store: SubscriptionStore, userId: string, points: int) returns (credited: bool)
    modifies store
    ensures credited <==> userId in old(store.codes)
    ensures credited ==> store.codes == old(store.codes)[userId := AddTriviaPoints(old(store.codes)[userId], points)]
    ensures credited ==> store.file == Persisted(store.codes)
    ensures !credited ==> store.codes == old(store.codes) && store.file == old(store.file)
  {
    if userId !in store.codes {
      return false;
    }
    var subscription := store.codes[userId];
    subscription := subscription.(triviaBalance := Some(subscription.triviaBalance.GetOr(0) + points));
    store.codes := store.codes[userId := subscription];
    store.Save();
    credited := true;
  }

  /**
   * A trivia credit touches only the winner's trivia balance: the task
   * balance and every other record stay as they were.
   */
  lemma TriviaCreditIsolated(codes: Codes, userId: string, points: int)
    requires userId in codes
    ensures var after := codes[userId := AddTriviaPoints(codes[userId], points)];
      && after.Keys == codes.Keys
      && TriviaBalance(after[userId]) == TriviaBalance(codes[userId]) + points
      && Balance(after[userId]) == Balance(codes[userId])
      && (forall u :: u in codes && u != userId ==> after[u] == codes[u])
  {
  }

  // ---------------------------------------------------------------------------
  // handleTriviaCommand: the menu choice

  /** `parseInt(response.content.trim(), 10)`, with `None` for `NaN`. */
  function ParsedReply(response: string): Option<int> {
    ParseInt(Trim(response))
  }

  /**
   * `parseInt(response.content.trim(), 10) - 1` checked against the number
   * of topics: the topic index, or `None` for "Invalid choice".
   */
  function ChoiceIndex(response: string, topicCount: nat): Option<nat> {
    TopicIndex(ParsedReply(response), topicCount)
  }

  /** The bounds check on the parsed number `n` (`None` standing for `NaN`). */
  function TopicIndex(n: Option<int>, topicCount: nat): (i: Option<nat>)
    ensures i.Some? <==> n.Some? && 1 <= n.value <= topicCount
    ensures i.Some? ==> i.value < topicCount && n == Some(i.value + 1)
  {
    if n.None? || n.value - 1 < 0 || n.value - 1 >= topicCount then None else Some(n.value - 1)
  }

  /** `parseInt` of a rendered number, trimmed first, gives the number back. */
  lemma ParseTrimmedDecimal(k: nat)
    ensures ParsedReply(Decimal(k)) == Some(k)
  {
    var d := Decimal(k);
    assert d[0] in d && d[|d| - 1] in d;
    TrimUnpadded(d);
    ParseIntDecimal(k, []);
    assert d + [] == d;
  }

  /** Replying with the number `k` of a listed topic selects topic `k - 1`. */
  lemma ChoiceOfNumber(k: nat, topicCount: nat)
    requires 1 <= k <= topicCount
    ensures ChoiceIndex(Decimal(k), topicCount) == Some(k - 1)
  {
    var d := Decimal(k);
    ParseTrimmedDecimal(k);
    var n := ParsedReply(d);
    assert n == Some(k);
    assert ChoiceIndex(d, topicCount) == TopicIndex(n, topicCount);
  }

  /** A number outside `1..topicCount` is an invalid choice. */
  lemma ChoiceOutOfRange(k: nat, topicCount: nat)
    requires k == 0 || k > topicCount
    ensures ChoiceIndex(Decimal(k), topicCount) == None
  {
    var d := Decimal(k);
    ParseTrimmedDecimal(k);
    var n := ParsedReply(d);
    assert n == Some(k);
    assert ChoiceIndex(d, topicCount) == TopicIndex(n, topicCount);
  }

  // ---------------------------------------------------------------------------
  // isAddressAlreadyRegistered and isAfterRestrictionDate of trivia.js

  /**
   * trivia.js's scan calls `toLowerCase` on every address it reaches, so a
   * record without a string address raises a TypeError (`None`) unless a
   * match came first.
   */
  function TriviaAddressScan(vals: seq<Record>, a: string): (r: Option<bool>)
    ensures r.Some? ==> r.value == SomeAddressMatches(vals, a)
    ensures (forall v <- vals :: v.address.Str?) ==> r == Some(SomeAddressMatches(vals, a))
    ensures r.None? ==> exists v <- vals :: !v.address.Str?
    decreases |vals|
  {
    if vals == [] then Some(false)
    else
      assert forall v <- vals[1..] :: v in vals;
      match vals[0].address
      case Str(t) => if EqualsIgnoreCase(t, a) then Some(true) else TriviaAddressScan(vals[1..], a)
      case _ => None
  }

  /** Where trivia.js answers at all, it answers as main.js does, whatever the listing order. */
  lemma TriviaScanAgreesWithMain(vals: seq<Record>, codes: Codes, a: string)
    requires ListsValues(vals, codes)
    requires TriviaAddressScan(vals, a).Some?
    ensures TriviaAddressScan(vals, a).value == IsAddressAlreadyRegistered(codes, a)
  {
    ScanAnswersRegistered(vals, codes, a);
  }

  /** trivia.js's `isAfterRestrictionDate()`: the date check is commented out, so it is always open. */
  function TriviaIsAfterRestrictionDate(now: int): (open: bool)
    ensures open
  {
    true
  }
}
