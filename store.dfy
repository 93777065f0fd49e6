/**
 * The subscription store of main.js: the in-memory `subscriptionCodes`
 * object, its backing JSON document, and the address-uniqueness scan.
 * The document is `Some(map)` when the file exists and `None` when it
 * does not; serialisation is taken to round-trip exactly.
 */
module Store {
  import opened Wrappers
  import opened Text
  import opened Records

  /** `loadSubscriptionCodes()`: the parsed document, or `{}` when there is no file. */
  function LoadFile(file: Option<Codes>): (codes: Codes)
    ensures file.None? ==> codes == map[]
    ensures file.Some? ==> codes == file.value
  {
    match file
    case Some(m) => m
    case None => map[]
  }

  /** What `saveSubscriptionCodes()` leaves on disk: the whole map, or no file when it is empty. */
  function Persisted(codes: Codes): (file: Option<Codes>)
    ensures file.Some? <==> |codes| > 0
    ensures file.Some? ==> file.value == codes
  {
    if |codes| > 0 then Some(codes) else None
  }

  /** Loading what a save left behind gives the saved map back. */
  lemma LoadAfterSave(codes: Codes)
    ensures LoadFile(Persisted(codes)) == codes
  {
    if |codes| == 0 {
      assert codes.Keys == {};
    }
  }

  /**
   * Saving what was loaded leaves the document as it was, except that a
   * document holding `{}` is replaced by no file at all.
   */
  lemma SaveAfterLoad(file: Option<Codes>)
    ensures Persisted(LoadFile(file)) == if file == Some(map[]) then None else file
  {
    if file.Some? && |file.value| == 0 {
      assert file.value.Keys == {};
    }
  }

  /** main.js `isAddressAlreadyRegistered(a)` over the whole map. */
  predicate IsAddressAlreadyRegistered(codes: Codes, a: string) {
    exists u :: u in codes && AddressMatches(codes[u], a)
  }

  /** `Object.values(subscriptionCodes).some(...)`: the scan main.js runs over a listing. */
  function SomeAddressMatches(vals: seq<Record>, a: string): bool
    decreases |vals|
  {
    if vals == [] then false
    else AddressMatches(vals[0], a) || SomeAddressMatches(vals[1..], a)
  }

  lemma {:induction false} SomeAddressMatchesIff(vals: seq<Record>, a: string)
    ensures SomeAddressMatches(vals, a) <==> exists r <- vals :: AddressMatches(r, a)
    decreases |vals|
  {
    if vals != [] {
      SomeAddressMatchesIff(vals[1..], a);
      assert forall r <- vals[1..] :: r in vals;
      assert forall r <- vals :: r == vals[0] || r in vals[1..];
    }
  }

  /**
   * Whatever order `Object.values` lists the records in, the scan answers
   * whether the address is registered; records whose address is not a
   * string never match.
   */
  lemma ScanAnswersRegistered(vals: seq<Record>, codes: Codes, a: string)
    requires ListsValues(vals, codes)
    ensures SomeAddressMatches(vals, a) <==> IsAddressAlreadyRegistered(codes, a)
  {
    SomeAddressMatchesIff(vals, a);
    if SomeAddressMatches(vals, a) {
      var r :| r in vals && AddressMatches(r, a);
      assert r in codes.Values;
      var u :| u in codes && codes[u] == r;
    }
    if IsAddressAlreadyRegistered(codes, a) {
      var u :| u in codes && AddressMatches(codes[u], a);
      assert codes[u] in vals;
    }
  }

  /** The store object: the in-memory map and the file behind it. */
  class SubscriptionStore {
    var codes: Codes
    var file: Option<Codes>

    /** Start-up: `let subscriptionCodes = loadSubscriptionCodes()`. */
    constructor Load(file: Option<Codes>)
      ensures this.file == file
      ensures codes == LoadFile(file)
    {
      this.file := file;
      codes := LoadFile(file);
    }

    /** `saveSubscriptionCodes()`: write the whole map, or delete the file when the map is empty. */
    method Save()
      modifies this
      ensures codes == old(codes)
      ensures file == Persisted(codes)
      ensures LoadFile(file) == codes
    {
      if |codes| > 0 {
        file := Some(codes);
      } else if file.Some? {
        file := None;
      }
      LoadAfterSave(codes);
    }
  }
}
