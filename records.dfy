/**
 * The subscription record kept per Discord user id, as it is written by
 * the bot and read back from the JSON document.
 */
module Records {
  import opened Wrappers
  import opened Text

  /**
   * The `address` field as JavaScript sees it after `JSON.parse`: missing
   * or null, a string, or some other JSON value (number, boolean, object),
   * whose truthiness decides some of the scans.
   */
  datatype Addr = Absent | Str(text: string) | NonString(truthy: bool)

  /**
   * One entry of `subscriptionCodes`. Number fields written by older
   * revisions may be missing (`None`); `lastTask` is `null` until a task
   * is verified.
   */
  datatype Record = Record(
    code: string,
    twitterHandle: string,
    verified: bool,
    balance: Option<int>,
    triviaBalance: Option<int>,
    lastTask: Option<int>,
    address: Addr)

  /** `subscriptionCodes`: Discord user id to record. */
  type Codes = map<string, Record>

  /** `subscription.balance || 0`. */
  function Balance(r: Record): int {
    r.balance.GetOr(0)
  }

  /** `subscription.triviaBalance || 0`. */
  function TriviaBalance(r: Record): int {
    r.triviaBalance.GetOr(0)
  }

  /** The record `subscribe` creates. */
  function NewRecord(handle: string, address: string, code: string): Record {
    Record(code, handle, false, Some(0), Some(0), None, Str(address))
  }

  /** main.js's per-record test: a string address equal to `a` ignoring case. */
  predicate AddressMatches(r: Record, a: string) {
    r.address.Str? && EqualsIgnoreCase(r.address.text, a)
  }

  /** No two users hold the same string address, ignoring case. */
  ghost predicate UniqueAddresses(codes: Codes) {
    forall u, v :: u in codes && v in codes && u != v && codes[u].address.Str? ==>
      !AddressMatches(codes[v], codes[u].address.text)
  }

  /** `vals` is an `Object.values` listing of `codes`: every value, and nothing else. */
  ghost predicate ListsValues(vals: seq<Record>, codes: Codes) {
    && (forall r <- vals :: r in codes.Values)
    && (forall u <- codes :: codes[u] in vals)
  }
}
