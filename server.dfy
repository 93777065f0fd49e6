/**
 * The `/get-subscription` endpoint of server/main.js: a read-only,
 * case-insensitive lookup of a subscription record by Ethereum address,
 * over the same JSON document the bot writes.
 */
module Server {
  import opened Wrappers
  import opened Text
  import opened Records
  import opened Store

  /** The HTTP answer: the body kind, with its status code given by `Status`. */
  datatype Response =
    | BadRequest
    | Found(record: Record)
    | NotFoundPayload
    /** Express's answer to a handler that threw (a TypeError in the search). */
    | InternalError

  function Status(r: Response): (code: int)
    ensures code == 400 <==> r.BadRequest?
    ensures code == 500 <==> r.InternalError?
    ensures code == 200 <==> r.Found? || r.NotFoundPayload?
  {
    match r
    case BadRequest => 400
    case Found(_) => 200
    case NotFoundPayload => 200
    case InternalError => 500
  }

  /**
   * `entry.address && entry.address.toLowerCase() === address.toLowerCase()`:
   * a falsy address never matches, a string one matches ignoring case, and
   * a truthy non-string throws (`None`).
   */
  function EntryMatches(r: Record, query: string): (m: Option<bool>)
    ensures m == Some(true) <==> r.address.Str? && r.address.text != [] && EqualsIgnoreCase(r.address.text, query)
    ensures m.None? <==> r.address == NonString(true)
  {
    match r.address
    case Absent => Some(false)
    case NonString(truthy) => if truthy then None else Some(false)
    case Str(t) => Some(t != [] && EqualsIgnoreCase(t, query))
  }

  /** Where `.find` stops: at a match, at the end, or at an entry that throws. */
  datatype Search = Match(index: nat) | NoMatch | Throws

  /** `Object.values(data).find(...)` over the listing `vals`. */
  function Find(vals: seq<Record>, query: string): (f: Search)
    ensures f.Match? ==> f.index < |vals| && EntryMatches(vals[f.index], query) == Some(true)
    ensures f.Match? ==> forall j :: 0 <= j < f.index ==> EntryMatches(vals[j], query) == Some(false)
    ensures f.NoMatch? <==> forall j :: 0 <= j < |vals| ==> EntryMatches(vals[j], query) == Some(false)
    decreases |vals|
  {
    if vals == [] then NoMatch
    else match EntryMatches(vals[0], query)
      case None => Throws
      case Some(true) => Match(0)
      case Some(false) =>
        var f := Find(vals[1..], query);
        assert forall j :: 1 <= j < |vals| ==> vals[j] == vals[1..][j - 1];
        if f.Match? then Match(f.index + 1) else f
  }

  /**
   * `GET /get-subscription?address=query` against the data file `file`,
   * listed by `Object.values` as `vals`. A missing or empty `address` is
   * a 400; a miss answers an error payload with the default status 200.
   */
  function GetSubscription(query: Option<string>, file: Option<Codes>, vals: seq<Record>): (resp: Response)
    requires ListsValues(vals, LoadFile(file))
    ensures resp.BadRequest? <==> query.None? || query.value == []
    ensures resp.Found? ==> resp.record in vals
    ensures resp.Found? ==> resp.record.address.Str? && EqualsIgnoreCase(resp.record.address.text, query.value)
    ensures resp.NotFoundPayload? ==> forall r <- vals :: EntryMatches(r, query.value) == Some(false)
  {
    if query.None? || query.value == [] then BadRequest
    else match Find(vals, query.value)
      case Match(i) => Found(vals[i])
      case NoMatch => NotFoundPayload
      case Throws => InternalError
  }

  /** With no data file every well-formed query is answered "not found". */
  lemma MissingFileNotFound(query: string, vals: seq<Record>)
    requires query != []
    requires ListsValues(vals, LoadFile(None))
    ensures GetSubscription(Some(query), None, vals) == NotFoundPayload
  {
    assert LoadFile(None).Values == {};
    SomeElement(vals);
  }

  lemma SomeElement<T>(s: seq<T>)
    ensures |s| > 0 ==> exists x :: x in s
  {
    if |s| > 0 {
      assert s[0] in s;
    }
  }

  /** A record whose address is missing or empty is never the answer. */
  lemma NoAddressNeverReturned(query: Option<string>, file: Option<Codes>, vals: seq<Record>)
    requires ListsValues(vals, LoadFile(file))
    requires GetSubscription(query, file, vals).Found?
    ensures GetSubscription(query, file, vals).record.address.Str?
    ensures GetSubscription(query, file, vals).record.address.text != []
  {
    var i := Find(vals, query.value).index;
    assert EntryMatches(vals[i], query.value) == Some(true);
  }

  /**
   * Over records the bot wrote (all addresses strings), a query is found
   * exactly when main.js would call the address registered, whatever the
   * listing order.
   */
  lemma FoundIffRegistered(query: string, file: Option<Codes>, vals: seq<Record>)
    requires query != []
    requires ListsValues(vals, LoadFile(file))
    requires forall r <- vals :: r.address.Str?
    ensures GetSubscription(Some(query), file, vals).Found? <==> IsAddressAlreadyRegistered(LoadFile(file), query)
    ensures !GetSubscription(Some(query), file, vals).Found? ==> GetSubscription(Some(query), file, vals) == NotFoundPayload
  {
    var codes := LoadFile(file);
    forall j | 0 <= j < |vals| ensures EntryMatches(vals[j], query).Some? {
      assert vals[j] in vals;
    }
    var f := Find(vals, query);
    FindThrowsOnlyAtNonString(vals, query);
    if f.Match? {
      var r := vals[f.index];
      assert r in codes.Values;
      var u :| u in codes && codes[u] == r;
      assert AddressMatches(codes[u], query);
    }
    if IsAddressAlreadyRegistered(codes, query) {
      var u :| u in codes && AddressMatches(codes[u], query);
      var r := codes[u];
      assert r in vals;
      var k :| 0 <= k < |vals| && vals[k] == r;
      assert |Lower(r.address.text)| == |Lower(query)|;
      assert EntryMatches(vals[k], query) == Some(true);
      assert !f.NoMatch?;
    }
  }

  /** Entry `j` throws and every entry before it fails to match without throwing. */
  predicate ThrowsAt(vals: seq<Record>, query: string, j: int) {
    && 0 <= j < |vals| && EntryMatches(vals[j], query).None?
    && forall k :: 0 <= k < j ==> EntryMatches(vals[k], query) == Some(false)
  }

  lemma ThrowsAtShift(vals: seq<Record>, query: string, j: int)
    requires vals != [] && EntryMatches(vals[0], query) == Some(false)
    ensures ThrowsAt(vals, query, j + 1) <==> ThrowsAt(vals[1..], query, j)
  {
    assert forall k :: 1 <= k < |vals| ==> vals[k] == vals[1..][k - 1];
  }

  /** The search throws exactly when it reaches a truthy non-string address. */
  lemma {:induction false} FindThrowsOnlyAtNonString(vals: seq<Record>, query: string)
    ensures Find(vals, query).Throws? <==> exists j :: ThrowsAt(vals, query, j)
    decreases |vals|
  {
    if vals != [] {
      var e := EntryMatches(vals[0], query);
      if e == Some(false) {
        FindThrowsOnlyAtNonString(vals[1..], query);
        assert Find(vals, query).Throws? == Find(vals[1..], query).Throws?;
        if exists j :: ThrowsAt(vals[1..], query, j) {
          var j :| ThrowsAt(vals[1..], query, j);
          ThrowsAtShift(vals, query, j);
        }
        if exists j :: ThrowsAt(vals, query, j) {
          var j :| ThrowsAt(vals, query, j);
          assert j != 0;
          ThrowsAtShift(vals, query, j - 1);
        }
      } else if e.None? {
        assert ThrowsAt(vals, query, 0);
      } else {
        forall j ensures !ThrowsAt(vals, query, j) {
          if 0 < j < |vals| {
            assert EntryMatches(vals[0], query) != Some(false);
          }
        }
      }
    }
  }

  /**
   * While the bot's address-uniqueness invariant holds, the record found is
   * the one of the user who registered the address.
   */
  lemma FoundIsTheHolder(query: string, file: Option<Codes>, vals: seq<Record>, holder: string)
    requires ListsValues(vals, LoadFile(file))
    requires UniqueAddresses(LoadFile(file))
    requires holder in LoadFile(file) && AddressMatches(LoadFile(file)[holder], query)
    requires GetSubscription(Some(query), file, vals).Found?
    ensures GetSubscription(Some(query), file, vals).record == LoadFile(file)[holder]
  {
    var codes := LoadFile(file);
    var r := GetSubscription(Some(query), file, vals).record;
    assert r in codes.Values;
    var u :| u in codes && codes[u] == r;
    assert AddressMatches(codes[u], query);
    if u != holder {
      assert codes[holder].address.Str?;
      assert EqualsIgnoreCase(codes[u].address.text, codes[holder].address.text);
      assert AddressMatches(codes[u], codes[holder].address.text);
      assert false;
    }
  }
}
