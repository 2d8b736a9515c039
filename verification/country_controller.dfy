/**
 The refresh handler: fetch the countries, then the rates, enrich every
 country, upsert each one in order while counting successes and failures,
 stamp the refresh time, and answer; any error thrown along the way is
 turned into a 503 or 500 response by the text of its message.

 What the outside world does during one refresh (fetch results, which
 upserts throw, whether the metadata write throws, the clock) is an input.
 */
module CountryController {
  import opened Wrappers
  import opened JsValues
  import opened Text
  import opened CountryService
  import opened DatabaseService

  /** The messages the two fetchers throw on any failure. */
  const RestCountriesFailure: string := "Could not fetch data from RestCountries API"
  const ExchangeRatesFailure: string := "Could not fetch data from Exchange Rates API"

  const SourceUnavailable: string := "External data source unavailable"
  const RefreshedMessage: string := "Countries refreshed successfully"

  /** The outcome of one external fetch. */
  datatype Fetch<T> = Fetched(value: T) | FetchFailed

  /** The JSON bodies the handler sends. */
  datatype Body =
    | Refreshed(message: string, totalCountries: nat, successfulUpserts: nat, failedUpserts: nat, timestamp: string)
    | Unavailable(error: string, details: string)
    | InternalError(error: string, message: string, details: string)

  datatype Response = Response(status: nat, body: Body)

  /** The externally visible steps of a refresh, in the order they happen; a write records whether it went through. */
  datatype Effect =
    | FetchCountries
    | FetchRates
    | Upsert(name: string, succeeded: bool)
    | StampRefresh(timestamp: string, succeeded: bool)

  /** Everything a refresh learns from outside. */
  datatype World = World(
    countries: Fetch<seq<RawCountry>>,
    rates: Fetch<map<string, real>>,
    draw: nat -> Multiplier,          // the random multiplier of the i-th country
    failingUpserts: set<nat>,         // positions whose upsert throws for a reason outside the record
    metadataError: Option<string>,    // message thrown by the metadata write, if it throws
    timestamp: string,                // new Date().toISOString()
    now: string)                      // the database's NOW()

  datatype Run = Run(response: Response, db: Db, effects: seq<Effect>)

  /** The catch block: the response for an error message. */
  function ClassifyError(message: string): (r: Response)
    ensures Contains(message, "RestCountries") ==>
              r == Response(503, Unavailable(SourceUnavailable, RestCountriesFailure))
    ensures !Contains(message, "RestCountries") && Contains(message, "Exchange Rates") ==>
              r == Response(503, Unavailable(SourceUnavailable, ExchangeRatesFailure))
    ensures r.status == 503 <==> Contains(message, "RestCountries") || Contains(message, "Exchange Rates")
    ensures r.status != 503 ==>
              r == Response(500, InternalError("Internal server error", "Failed to refresh countries", message))
  {
    if Contains(message, "RestCountries") then
      Response(503, Unavailable(SourceUnavailable, RestCountriesFailure))
    else if Contains(message, "Exchange Rates") then
      Response(503, Unavailable(SourceUnavailable, ExchangeRatesFailure))
    else
      Response(500, InternalError("Internal server error", "Failed to refresh countries", message))
  }

  /**
   Each fetcher's own message is classified as its own source being
   unavailable; the rate fetcher's message does not mention RestCountries.
   */
  lemma FetchFailuresAreClassified()
    ensures ClassifyError(RestCountriesFailure) == Response(503, Unavailable(SourceUnavailable, RestCountriesFailure))
    ensures ClassifyError(ExchangeRatesFailure) == Response(503, Unavailable(SourceUnavailable, ExchangeRatesFailure))
  {
    assert OccursAt(RestCountriesFailure, "RestCountries", 26);
    assert OccursAt(ExchangeRatesFailure, "Exchange Rates", 26);
    RateFailureLacksLowerI(ExchangeRatesFailure);
    NotContainsByChar(ExchangeRatesFailure, "RestCountries", 10);
  }

  /** The rate fetcher's message has no lower-case 'i', while "RestCountries" has one at index 10. */
  lemma RateFailureLacksLowerI(message: string)
    requires message == ExchangeRatesFailure
    ensures forall j | 0 <= j < |message| :: message[j] != 'i'
  {
  }

  /** The success and failure counters of the upsert loop. */
  datatype Tally = Tally(successes: nat, failures: nat)

  /** The counters after the loop has seen `outcomes` (true: the upsert succeeded), starting from `acc`. */
  function CountOutcomes(outcomes: seq<bool>, acc: Tally): (t: Tally)
    ensures t.successes == acc.successes + multiset(outcomes)[true]
    ensures t.failures == acc.failures + multiset(outcomes)[false]
    decreases |outcomes|
  {
    if outcomes == [] then acc
    else
      assert outcomes == [outcomes[0]] + outcomes[1..];
      assert multiset(outcomes) == multiset{outcomes[0]} + multiset(outcomes[1..]);
      var next := if outcomes[0] then acc.(successes := acc.successes + 1) else acc.(failures := acc.failures + 1);
      CountOutcomes(outcomes[1..], next)
  }

  /** Every outcome is counted exactly once. */
  lemma {:induction false} OutcomesPartition(outcomes: seq<bool>)
    ensures multiset(outcomes)[true] + multiset(outcomes)[false] == |outcomes|
  {
    if outcomes != [] {
      assert outcomes == [outcomes[0]] + outcomes[1..];
      assert multiset(outcomes) == multiset{outcomes[0]} + multiset(outcomes[1..]);
      OutcomesPartition(outcomes[1..]);
      if outcomes[0] {
        assert multiset(outcomes)[true] == multiset(outcomes[1..])[true] + 1;
      } else {
        assert multiset(outcomes)[false] == multiset(outcomes[1..])[false] + 1;
      }
    }
  }

  /** Successes plus failures is the number of records. */
  lemma TallyCoversAll(outcomes: seq<bool>)
    ensures CountOutcomes(outcomes, Tally(0, 0)).successes + CountOutcomes(outcomes, Tally(0, 0)).failures == |outcomes|
  {
    OutcomesPartition(outcomes);
  }

  /**
   The driver refuses an `undefined` bind value, so the upsert of a record
   whose currency code is `undefined` always throws; every other field of an
   enriched record is a value or `null`.
   */
  predicate Bindable(c: EnrichedCountry)
  {
    c.currencyCode != Undefined
  }

  /** The upsert of record `c` at position `k` goes through: nothing outside throws and the driver accepts the record. */
  predicate UpsertSucceeds(c: EnrichedCountry, k: nat, failing: set<nat>)
  {
    k !in failing && Bindable(c)
  }

  /** The loop state after the upserts: the store, and the step each record produced. */
  datatype Batch = Batch(db: Db, effects: seq<Effect>)

  /**
   The upsert loop over `cs`, whose records sit at positions `offset`,
   `offset + 1`, ...: a record whose upsert throws writes nothing and is
   recorded as a failure; every other record is upserted and recorded as a
   success; the loop never stops early.
   */
  function UpsertAll(db: Db, cs: seq<EnrichedCountry>, failing: set<nat>, offset: nat, now: string): (b: Batch)
    ensures |b.effects| == |cs|
    decreases |cs|
  {
    if cs == [] then Batch(db, [])
    else
      var ok := UpsertSucceeds(cs[0], offset, failing);
      var rest := UpsertAll(Attempt(db, cs[0], ok, now), cs[1..], failing, offset + 1, now);
      Batch(rest.db, [Upsert(cs[0].name, ok)] + rest.effects)
  }

  /** One iteration's write: the upsert when it goes through, nothing when it throws. */
  function Attempt(db: Db, c: EnrichedCountry, ok: bool, now: string): (r: Db)
    ensures !ok ==> r == db
    ensures ok ==> CountryExists(r.rows, c.name) && r.metadata == db.metadata
  {
    if ok then UpsertCountry(db, c, now).db else db
  }

  /** The loop records one step per record, in order, with the outcome its write had. */
  lemma {:induction false} UpsertTrace(db: Db, cs: seq<EnrichedCountry>, failing: set<nat>, offset: nat, now: string)
    ensures forall k | 0 <= k < |cs| ::
              UpsertAll(db, cs, failing, offset, now).effects[k] == Upsert(cs[k].name, UpsertSucceeds(cs[k], offset + k, failing))
    decreases |cs|
  {
    if cs != [] {
      var ok := UpsertSucceeds(cs[0], offset, failing);
      var next := Attempt(db, cs[0], ok, now);
      var rest := UpsertAll(next, cs[1..], failing, offset + 1, now);
      assert UpsertAll(db, cs, failing, offset, now).effects == [Upsert(cs[0].name, ok)] + rest.effects;
      UpsertTrace(next, cs[1..], failing, offset + 1, now);
      forall k | 1 <= k < |cs|
        ensures UpsertAll(db, cs, failing, offset, now).effects[k] == Upsert(cs[k].name, UpsertSucceeds(cs[k], offset + k, failing))
      {
        assert cs[1..][k - 1] == cs[k];
        assert rest.effects[k - 1] == Upsert(cs[k].name, UpsertSucceeds(cs[k], offset + k, failing));
      }
    }
  }

  /** A name stored before the loop is still stored after it. */
  lemma {:induction false} UpsertAllKeepsStoredName(db: Db, cs: seq<EnrichedCountry>, failing: set<nat>, offset: nat, now: string, name: string)
    requires CountryExists(db.rows, name)
    ensures CountryExists(UpsertAll(db, cs, failing, offset, now).db.rows, name)
    decreases |cs|
  {
    if cs != [] {
      var ok := UpsertSucceeds(cs[0], offset, failing);
      var next := Attempt(db, cs[0], ok, now);
      if ok {
        UpsertKeepsStoredNames(db, cs[0], now);
      }
      UpsertAllKeepsStoredName(next, cs[1..], failing, offset + 1, now, name);
    }
  }

  /** Every record whose upsert went through is stored after the loop. */
  lemma {:induction false} UpsertAllStoresSuccesses(db: Db, cs: seq<EnrichedCountry>, failing: set<nat>, offset: nat, now: string, k: nat)
    requires k < |cs| && UpsertSucceeds(cs[k], offset + k, failing)
    ensures CountryExists(UpsertAll(db, cs, failing, offset, now).db.rows, cs[k].name)
    decreases |cs|
  {
    var ok := UpsertSucceeds(cs[0], offset, failing);
    var next := Attempt(db, cs[0], ok, now);
    if k == 0 {
      UpsertAllKeepsStoredName(next, cs[1..], failing, offset + 1, now, cs[0].name);
    } else {
      assert cs[k] == cs[1..][k - 1];
      UpsertAllStoresSuccesses(next, cs[1..], failing, offset + 1, now, k - 1);
    }
  }

  /** The loop writes only rows: identities stay fresh, names stay unique, metadata is untouched. */
  lemma {:induction false} UpsertAllPreservesInvariants(db: Db, cs: seq<EnrichedCountry>, failing: set<nat>, offset: nat, now: string)
    ensures UpsertAll(db, cs, failing, offset, now).db.metadata == db.metadata
    ensures |db.rows| <= |UpsertAll(db, cs, failing, offset, now).db.rows|
    ensures Wf(db) ==> Wf(UpsertAll(db, cs, failing, offset, now).db)
    ensures NamesUnique(db.rows) ==> NamesUnique(UpsertAll(db, cs, failing, offset, now).db.rows)
    decreases |cs|
  {
    if cs != [] {
      var ok := UpsertSucceeds(cs[0], offset, failing);
      var next := Attempt(db, cs[0], ok, now);
      if ok && Wf(db) {
        UpsertPreservesWf(db, cs[0], now);
      }
      if ok && NamesUnique(db.rows) {
        UpsertPreservesNamesUnique(db, cs[0], now);
      }
      UpsertAllPreservesInvariants(next, cs[1..], failing, offset + 1, now);
    }
  }

  /** When every upsert throws, the loop leaves the store as it was. */
  lemma {:induction false} UpsertAllFailingWritesNothing(db: Db, cs: seq<EnrichedCountry>, failing: set<nat>, offset: nat, now: string)
    requires forall k | 0 <= k < |cs| :: !UpsertSucceeds(cs[k], offset + k, failing)
    ensures UpsertAll(db, cs, failing, offset, now).db == db
    decreases |cs|
  {
    if cs != [] {
      assert !UpsertSucceeds(cs[0], offset, failing);
      forall k | 0 <= k < |cs[1..]|
        ensures !UpsertSucceeds(cs[1..][k], offset + 1 + k, failing)
      {
        assert cs[1..][k] == cs[k + 1];
      }
      UpsertAllFailingWritesNothing(db, cs[1..], failing, offset + 1, now);
    }
  }

  /** What the counters see: per recorded upsert, whether it went through. */
  function Outcomes(effects: seq<Effect>): (outcomes: seq<bool>)
    ensures |outcomes| == |effects|
  {
    seq(|effects|, k requires 0 <= k < |effects| => effects[k].Upsert? && effects[k].succeeded)
  }

  /** The outcomes of the records of `cs`, read off their positions from 0. */
  function PlannedOutcomes(cs: seq<EnrichedCountry>, failing: set<nat>): (outcomes: seq<bool>)
  {
    seq(|cs|, k requires 0 <= k < |cs| => UpsertSucceeds(cs[k], k, failing))
  }

  /** The loop's recorded outcomes are the planned ones. */
  lemma LoopOutcomes(db: Db, cs: seq<EnrichedCountry>, failing: set<nat>, now: string)
    ensures Outcomes(UpsertAll(db, cs, failing, 0, now).effects) == PlannedOutcomes(cs, failing)
  {
    UpsertTrace(db, cs, failing, 0, now);
  }

  /** The positions of `cs` whose upsert throws. */
  ghost function ThrowingPositions(cs: seq<EnrichedCountry>, failing: set<nat>): set<nat>
  {
    set k: nat | k < |cs| && !UpsertSucceeds(cs[k], k, failing)
  }

  /** The failures counted are the positions whose upsert throws. */
  lemma {:induction false} FailureCount(cs: seq<EnrichedCountry>, failing: set<nat>)
    ensures multiset(PlannedOutcomes(cs, failing))[false] == |ThrowingPositions(cs, failing)|
  {
    if cs != [] {
      var n := |cs|;
      var init := cs[..n - 1];
      var last := UpsertSucceeds(cs[n - 1], n - 1, failing);
      FailureCount(init, failing);
      assert PlannedOutcomes(cs, failing) == PlannedOutcomes(init, failing) + [last];
      assert ThrowingPositions(cs, failing) == ThrowingPositions(init, failing) + (if last then {} else {n - 1});
    }
  }

  /** The upsert loop of a refresh whose two fetches succeeded. */
  function RefreshBatch(db: Db, raw: seq<RawCountry>, rates: map<string, real>, w: World): (b: Batch)
    ensures |b.effects| == |raw|
  {
    UpsertAll(db, ProcessCountries(raw, rates, w.draw), w.failingUpserts, 0, w.now)
  }

  /** `refreshCountries`: the response, the store afterwards, and the steps taken. */
  function Refresh(db: Db, w: World): (r: Run)
    // a failed country fetch: nothing else happens
    ensures w.countries.FetchFailed? ==>
              && r.response == Response(503, Unavailable(SourceUnavailable, RestCountriesFailure))
              && r.db == db
              && r.effects == [FetchCountries]
    // a failed rate fetch: the countries were fetched, nothing is written
    ensures w.countries.Fetched? && w.rates.FetchFailed? ==>
              && r.response == Response(503, Unavailable(SourceUnavailable, ExchangeRatesFailure))
              && r.db == db
              && r.effects == [FetchCountries, FetchRates]
  {
    FetchFailuresAreClassified();
    match w.countries
    case FetchFailed => Run(ClassifyError(RestCountriesFailure), db, [FetchCountries])
    case Fetched(raw) =>
      match w.rates
      case FetchFailed => Run(ClassifyError(ExchangeRatesFailure), db, [FetchCountries, FetchRates])
      case Fetched(rates) =>
        var batch := RefreshBatch(db, raw, rates, w);
        var steps := [FetchCountries, FetchRates] + batch.effects;
        match w.metadataError
        case Some(message) => Run(ClassifyError(message), batch.db, steps + [StampRefresh(w.timestamp, false)])
        case None =>
          var tally := CountOutcomes(Outcomes(batch.effects), Tally(0, 0));
          var stamped := UpdateMetadata(batch.db, LastRefreshedKey, w.timestamp, w.now).db;
          var body := Refreshed(RefreshedMessage, |raw|, tally.successes, tally.failures, w.timestamp);
          Run(Response(200, body), stamped, steps + [StampRefresh(w.timestamp, true)])
  }

  /** The upsert of the `k`-th fetched country goes through: nothing outside throws and its currency code is not `undefined`. */
  predicate FetchedUpsertSucceeds(raw: seq<RawCountry>, k: nat, failing: set<nat>)
    requires k < |raw|
  {
    k !in failing && FirstCurrencyCode(raw[k]) != Undefined
  }

  /** Enrichment keeps the name, and the driver accepts a record exactly when its first currency code is not `undefined`. */
  lemma ProcessedUpsertSucceeds(raw: seq<RawCountry>, rates: map<string, real>, draw: nat -> Multiplier, failing: set<nat>, k: nat)
    requires k < |raw|
    ensures ProcessCountries(raw, rates, draw)[k].name == raw[k].name
    ensures UpsertSucceeds(ProcessCountries(raw, rates, draw)[k], k, failing) == FetchedUpsertSucceeds(raw, k, failing)
  {
    var c := ProcessCountries(raw, rates, draw)[k];
    assert c == ProcessCountry(raw[k], rates, draw(k));
    assert c.currencyCode == FirstCurrencyCode(raw[k]);
  }

  /**
   With both fetches done, the refresh attempts one upsert per country in
   input order, recording whether each went through, and attempts the
   refresh stamp after the last of them, whether or not any upsert succeeded.
   */
  lemma RefreshStepOrder(db: Db, w: World)
    requires w.countries.Fetched? && w.rates.Fetched?
    ensures
      var r := Refresh(db, w);
      var n := |w.countries.value|;
      && |r.effects| == n + 3
      && r.effects[0] == FetchCountries
      && r.effects[1] == FetchRates
      && (forall k | 0 <= k < n ::
            r.effects[k + 2] == Upsert(w.countries.value[k].name, FetchedUpsertSucceeds(w.countries.value, k, w.failingUpserts)))
      && r.effects[n + 2] == StampRefresh(w.timestamp, w.metadataError.None?)
  {
    var raw := w.countries.value;
    var batch := RefreshBatch(db, raw, w.rates.value, w);
    BatchTrace(db, raw, w.rates.value, w);
    var effects := [FetchCountries, FetchRates] + batch.effects + [StampRefresh(w.timestamp, w.metadataError.None?)];
    assert Refresh(db, w).effects == effects;
    forall k | 0 <= k < |raw|
      ensures effects[k + 2] == batch.effects[k]
    {
    }
  }

  /** The upsert loop of a refresh records one step per fetched country, in order, with its outcome. */
  lemma BatchTrace(db: Db, raw: seq<RawCountry>, rates: map<string, real>, w: World)
    ensures forall k | 0 <= k < |raw| ::
              RefreshBatch(db, raw, rates, w).effects[k] == Upsert(raw[k].name, FetchedUpsertSucceeds(raw, k, w.failingUpserts))
  {
    UpsertTrace(db, ProcessCountries(raw, rates, w.draw), w.failingUpserts, 0, w.now);
    forall k | 0 <= k < |raw|
      ensures RefreshBatch(db, raw, rates, w).effects[k] == Upsert(raw[k].name, FetchedUpsertSucceeds(raw, k, w.failingUpserts))
    {
      ProcessedUpsertSucceeds(raw, rates, w.draw, w.failingUpserts, k);
    }
  }

  /** A successful answer reports every country once, as a success or as a failure. */
  lemma RefreshCounts(db: Db, w: World)
    requires w.countries.Fetched? && w.rates.Fetched? && w.metadataError.None?
    ensures
      var r := Refresh(db, w);
      var n := |w.countries.value|;
      && r.response.status == 200
      && r.response.body.Refreshed?
      && r.response.body.message == RefreshedMessage
      && r.response.body.totalCountries == n
      && r.response.body.successfulUpserts + r.response.body.failedUpserts == n
      && r.response.body.failedUpserts == |set k | 0 <= k < n && !FetchedUpsertSucceeds(w.countries.value, k, w.failingUpserts)|
      && r.response.body.timestamp == w.timestamp
  {
    var raw := w.countries.value;
    var processed := ProcessCountries(raw, w.rates.value, w.draw);
    var batch := RefreshBatch(db, raw, w.rates.value, w);
    LoopOutcomes(db, processed, w.failingUpserts, w.now);
    FailureCount(processed, w.failingUpserts);
    TallyCoversAll(Outcomes(batch.effects));
    forall k | 0 <= k < |raw|
      ensures UpsertSucceeds(processed[k], k, w.failingUpserts) == FetchedUpsertSucceeds(raw, k, w.failingUpserts)
    {
      ProcessedUpsertSucceeds(raw, w.rates.value, w.draw, w.failingUpserts, k);
    }
    assert ThrowingPositions(processed, w.failingUpserts)
        == (set k | 0 <= k < |raw| && !FetchedUpsertSucceeds(raw, k, w.failingUpserts));
  }

  /**
   After a successful answer the status reports the new stamp, provided the
   metadata row exists; the row count is the table's.
   */
  lemma RefreshThenStatus(db: Db, w: World)
    requires w.countries.Fetched? && w.rates.Fetched? && w.metadataError.None?
    ensures
      var r := Refresh(db, w);
      && GetStatus(r.db).lastRefreshedAt == (if LastRefreshedKey in db.metadata then Some(w.timestamp) else None)
      && GetStatus(r.db).totalCountries == |r.db.rows|
  {
    var batch := RefreshBatch(db, w.countries.value, w.rates.value, w);
    UpsertAllPreservesInvariants(db, ProcessCountries(w.countries.value, w.rates.value, w.draw), w.failingUpserts, 0, w.now);
    StatusAfterStamp(batch.db, w.timestamp, w.now);
  }

  /**
   After the upserts, every country whose upsert succeeded is stored, and
   every name stored before the refresh is still stored.
   */
  lemma RefreshStoresCountries(db: Db, w: World)
    requires w.countries.Fetched? && w.rates.Fetched?
    ensures forall k | 0 <= k < |w.countries.value| && FetchedUpsertSucceeds(w.countries.value, k, w.failingUpserts) ::
              CountryExists(Refresh(db, w).db.rows, w.countries.value[k].name)
    ensures forall name | CountryExists(db.rows, name) :: CountryExists(Refresh(db, w).db.rows, name)
  {
    var raw := w.countries.value;
    var processed := ProcessCountries(raw, w.rates.value, w.draw);
    var batch := RefreshBatch(db, raw, w.rates.value, w);
    forall k | 0 <= k < |raw| && FetchedUpsertSucceeds(raw, k, w.failingUpserts)
      ensures CountryExists(Refresh(db, w).db.rows, raw[k].name)
    {
      ProcessedUpsertSucceeds(raw, w.rates.value, w.draw, w.failingUpserts, k);
      UpsertAllStoresSuccesses(db, processed, w.failingUpserts, 0, w.now, k);
    }
    forall name | CountryExists(db.rows, name)
      ensures CountryExists(Refresh(db, w).db.rows, name)
    {
      UpsertAllKeepsStoredName(db, processed, w.failingUpserts, 0, w.now, name);
    }
  }

  /** Every upsert the refresh records as successful is stored afterwards: the recorded steps agree with the writes. */
  lemma RecordedSuccessesAreStored(db: Db, w: World)
    requires w.countries.Fetched? && w.rates.Fetched?
    ensures forall k | 0 <= k < |Refresh(db, w).effects| && Refresh(db, w).effects[k].Upsert? && Refresh(db, w).effects[k].succeeded ::
              CountryExists(Refresh(db, w).db.rows, Refresh(db, w).effects[k].name)
  {
    RefreshStepOrder(db, w);
    RefreshStoresCountries(db, w);
    var r := Refresh(db, w);
    var n := |w.countries.value|;
    forall k | 0 <= k < |r.effects| && r.effects[k].Upsert? && r.effects[k].succeeded
      ensures CountryExists(r.db.rows, r.effects[k].name)
    {
      assert 2 <= k < n + 2;
      assert r.effects[(k - 2) + 2] == Upsert(w.countries.value[k - 2].name, FetchedUpsertSucceeds(w.countries.value, k - 2, w.failingUpserts));
    }
  }

  /** When the metadata write throws, its message decides the answer and the upserts stay. */
  lemma RefreshMetadataWriteFails(db: Db, w: World)
    requires w.countries.Fetched? && w.rates.Fetched? && w.metadataError.Some?
    ensures Refresh(db, w).response == ClassifyError(w.metadataError.value)
    ensures Refresh(db, w).db.metadata == db.metadata
    ensures Refresh(db, w).db == RefreshBatch(db, w.countries.value, w.rates.value, w).db
  {
    UpsertAllPreservesInvariants(db, ProcessCountries(w.countries.value, w.rates.value, w.draw), w.failingUpserts, 0, w.now);
  }

  /** A refresh keeps identities fresh and names unique. */
  lemma RefreshPreservesInvariants(db: Db, w: World)
    ensures Wf(db) ==> Wf(Refresh(db, w).db)
    ensures NamesUnique(db.rows) ==> NamesUnique(Refresh(db, w).db.rows)
  {
    if w.countries.Fetched? && w.rates.Fetched? {
      var processed := ProcessCountries(w.countries.value, w.rates.value, w.draw);
      var batch := RefreshBatch(db, w.countries.value, w.rates.value, w);
      UpsertAllPreservesInvariants(db, processed, w.failingUpserts, 0, w.now);
    }
  }
}
