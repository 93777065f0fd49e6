/**
 * `checkTwitterPostForCode` of main.js: a process-wide 10-second throttle
 * in front of one Twitter lookup, reduced to a substring test on the
 * tweets it returns. The Twitter API is an input: what it would answer for
 * the handle, if asked.
 */
module Probe {
  import opened Text

  /** Minimum spacing of Twitter lookups, in milliseconds. */
  const ThrottleInterval: int := 10000

  /** What the Twitter API gives for a handle: no such user, an error, or recent tweet texts. */
  datatype TwitterLookup = UserNotFound | LookupError | Timeline(texts: seq<string>)

  /** `tweets.some(tweet => tweet.text.includes(code))`. */
  function SomeTweetIncludes(texts: seq<string>, code: string): bool
    decreases |texts|
  {
    if texts == [] then false
    else Includes(texts[0], code) || SomeTweetIncludes(texts[1..], code)
  }

  /** The lookup found the code: an empty timeline, a missing user or an error all give false. */
  function PostContainsCode(lookup: TwitterLookup, code: string): bool {
    match lookup
    case Timeline(texts) => |texts| > 0 && SomeTweetIncludes(texts, code)
    case _ => false
  }

  /** The lookup succeeds exactly when some fetched tweet contains the code as an exact substring. */
  lemma {:induction false} PostContainsCodeIff(lookup: TwitterLookup, code: string)
    ensures PostContainsCode(lookup, code) <==>
      lookup.Timeline? && exists i, k :: 0 <= i < |lookup.texts| && OccursAt(lookup.texts[i], code, k)
  {
    if lookup.Timeline? {
      SomeTweetIncludesIff(lookup.texts, code);
    }
  }

  lemma {:induction false} SomeTweetIncludesIff(texts: seq<string>, code: string)
    ensures SomeTweetIncludes(texts, code) <==> exists i, k :: 0 <= i < |texts| && OccursAt(texts[i], code, k)
    decreases |texts|
  {
    if texts != [] {
      IncludesIff(texts[0], code);
      SomeTweetIncludesIff(texts[1..], code);
      if exists i, k :: 0 <= i < |texts| && OccursAt(texts[i], code, k) {
        var i, k :| 0 <= i < |texts| && OccursAt(texts[i], code, k);
        if i > 0 {
          assert texts[1..][i - 1] == texts[i];
        }
      }
      if exists i, k :: 0 <= i < |texts[1..]| && OccursAt(texts[1..][i], code, k) {
        var i, k :| 0 <= i < |texts[1..]| && OccursAt(texts[1..][i], code, k);
        assert OccursAt(texts[i + 1], code, k);
      }
    }
  }

  /** Less than ten seconds since the last lookup. */
  predicate Throttled(lastCall: int, now: int) {
    now - lastCall < ThrottleInterval
  }

  /** The probe's answer: false when throttled, otherwise the lookup's. */
  function ProbeResult(lastCall: int, now: int, lookup: TwitterLookup, code: string): bool {
    !Throttled(lastCall, now) && PostContainsCode(lookup, code)
  }

  /** The timestamp after a probe: unchanged when throttled, `now` otherwise. */
  function NextCallTime(lastCall: int, now: int): int {
    if Throttled(lastCall, now) then lastCall else now
  }

  /** The throttle state: main.js's module variable `lastTwitterCallTime`. */
  class TwitterProbe {
    var lastTwitterCallTime: int

    constructor ()
      ensures lastTwitterCallTime == 0
    {
      lastTwitterCallTime := 0;
    }

    /**
     * `checkTwitterPostForCode(handle, code)` at time `now`, with `lookup`
     * standing for what the Twitter API answers for `handle`. Throttled:
     * false, timestamp untouched, no lookup. Otherwise the timestamp
     * becomes `now` before the lookup.
     */
    method CheckTwitterPostForCode(handle: string, code: string, now: int, lookup: TwitterLookup) returns (found: bool)
      modifies this
      ensures Throttled(old(lastTwitterCallTime), now) ==> !found && lastTwitterCallTime == old(lastTwitterCallTime)
      ensures !Throttled(old(lastTwitterCallTime), now) ==> lastTwitterCallTime == now && found == PostContainsCode(lookup, code)
      ensures found == ProbeResult(old(lastTwitterCallTime), now, lookup, code)
      ensures lastTwitterCallTime == NextCallTime(old(lastTwitterCallTime), now)
    {
      if now - lastTwitterCallTime < ThrottleInterval {
        return false;
      }
      lastTwitterCallTime := now;
      match lookup
      case UserNotFound =>
        found := false;
      case LookupError =>
        found := false;
      case Timeline(texts) =>
        if |texts| > 0 {
          found := SomeTweetIncludes(texts, code);
        } else {
          found := false;
        }
    }
  }

  /** A second probe within ten seconds of a real lookup answers false without a lookup. */
  method BackToBackProbes(probe: TwitterProbe, code: string, now: int, lookup: TwitterLookup)
    modifies probe
    requires !Throttled(probe.lastTwitterCallTime, now)
  {
    var first := probe.CheckTwitterPostForCode("alice", code, now, lookup);
    assert first == PostContainsCode(lookup, code);
    var second := probe.CheckTwitterPostForCode("alice", code, now + ThrottleInterval - 1, lookup);
    assert !second && probe.lastTwitterCallTime == now;
  }
}
